/**
 * The few Python string operations the core relies on: `str.split` on one character,
 * `str.strip()` with Python's notion of whitespace, `int(s)` and `str(n)` for integers.
 */
module Text {
  import opened Base

  /** Python's `s.split(sep)` for a one-character separator. */
  function Split(s: string, sep: char): (r: seq<string>)
    ensures |r| >= 1
  {
    if s == [] then [""]
    else
      var rest := Split(s[1..], sep);
      if s[0] == sep then [""] + rest else [[s[0]] + rest[0]] + rest[1..]
  }

  /** The inverse of Split: `sep.join(pieces)`. */
  function Join(pieces: seq<string>, sep: char): string {
    if pieces == [] then ""
    else if |pieces| == 1 then pieces[0]
    else pieces[0] + [sep] + Join(pieces[1..], sep)
  }

  /** Split cuts at every separator and at nothing else: joining the pieces gives back `s`. */
  lemma {:induction false} SplitJoin(s: string, sep: char)
    ensures Join(Split(s, sep), sep) == s
    ensures forall i :: 0 <= i < |Split(s, sep)| ==> sep !in Split(s, sep)[i]
  {
    if s != [] {
      SplitJoin(s[1..], sep);
      assert s == [s[0]] + s[1..];
      if s[0] == sep {
        SplitJoinSep(s[1..], sep);
      } else {
        SplitJoinChar(s[0], s[1..], sep);
      }
    }
  }

  /** The step of SplitJoin for a leading separator. */
  lemma SplitJoinSep(t: string, sep: char)
    requires Join(Split(t, sep), sep) == t
    requires forall i :: 0 <= i < |Split(t, sep)| ==> sep !in Split(t, sep)[i]
    ensures Join(Split([sep] + t, sep), sep) == [sep] + t
    ensures forall i :: 0 <= i < |Split([sep] + t, sep)| ==> sep !in Split([sep] + t, sep)[i]
  {
    var rest := Split(t, sep);
    SplitConsSep(t, sep);
    var r := [""] + rest;
    assert r[1..] == rest;
    assert Join(r, sep) == "" + [sep] + Join(rest, sep);
    assert forall i :: 1 <= i < |r| ==> r[i] == rest[i - 1];
  }

  /** The step of SplitJoin for a leading character other than the separator. */
  lemma SplitJoinChar(c: char, t: string, sep: char)
    requires c != sep
    requires Join(Split(t, sep), sep) == t
    requires forall i :: 0 <= i < |Split(t, sep)| ==> sep !in Split(t, sep)[i]
    ensures Join(Split([c] + t, sep), sep) == [c] + t
    ensures forall i :: 0 <= i < |Split([c] + t, sep)| ==> sep !in Split([c] + t, sep)[i]
  {
    var rest := Split(t, sep);
    SplitConsChar(c, t, sep);
    var r := [[c] + rest[0]] + rest[1..];
    assert r[1..] == rest[1..];
    if |rest| > 1 {
      assert Join(rest, sep) == rest[0] + [sep] + Join(rest[1..], sep);
    }
    assert forall i :: 1 <= i < |r| ==> r[i] == rest[i];
  }

  /** A string without the separator is a single piece. */
  lemma {:induction false} SplitNoSeparator(s: string, sep: char)
    requires sep !in s
    ensures Split(s, sep) == [s]
  {
    if s != [] {
      SplitNoSeparator(s[1..], sep);
      assert [s[0]] + s[1..] == s;
    }
  }

  /** Splitting around one separator splits each side on its own. */
  lemma {:induction false} SplitAround(a: string, b: string, sep: char)
    ensures Split(a + [sep] + b, sep) == Split(a, sep) + Split(b, sep)
  {
    if a == [] {
      SplitConsSep(b, sep);
      assert a + [sep] + b == [sep] + b;
    } else {
      SplitAround(a[1..], b, sep);
      SplitAroundCons(a, b, sep);
    }
  }

  /** The step of SplitAround: from the text after the first character to the whole text. */
  lemma SplitAroundCons(a: string, b: string, sep: char)
    requires a != []
    requires Split(a[1..] + [sep] + b, sep) == Split(a[1..], sep) + Split(b, sep)
    ensures Split(a + [sep] + b, sep) == Split(a, sep) + Split(b, sep)
  {
    assert a + [sep] + b == [a[0]] + (a[1..] + [sep] + b) && a == [a[0]] + a[1..];
    SplitConsAround(a[0], a[1..], b, sep);
  }

  /** SplitAroundCons with the first character and the rest named apart. */
  lemma SplitConsAround(c: char, u: string, b: string, sep: char)
    requires Split(u + [sep] + b, sep) == Split(u, sep) + Split(b, sep)
    ensures Split([c] + (u + [sep] + b), sep) == Split([c] + u, sep) + Split(b, sep)
  {
    if c == sep {
      SplitSepAround(u, b, sep);
    } else {
      SplitCharAround(c, u, b, sep);
    }
  }

  lemma SplitSepAround(u: string, b: string, sep: char)
    requires Split(u + [sep] + b, sep) == Split(u, sep) + Split(b, sep)
    ensures Split([sep] + (u + [sep] + b), sep) == Split([sep] + u, sep) + Split(b, sep)
  {
    var ra, rb := Split(u, sep), Split(b, sep);
    SplitConsSep(u + [sep] + b, sep);
    SplitConsSep(u, sep);
    ConcatAssoc([""], ra, rb);
  }

  lemma ConcatAssoc<T>(x: seq<T>, a: seq<T>, b: seq<T>)
    ensures x + (a + b) == (x + a) + b
  {
  }

  lemma SplitCharAround(c: char, u: string, b: string, sep: char)
    requires c != sep
    requires Split(u + [sep] + b, sep) == Split(u, sep) + Split(b, sep)
    ensures Split([c] + (u + [sep] + b), sep) == Split([c] + u, sep) + Split(b, sep)
  {
    var ra, rb := Split(u, sep), Split(b, sep);
    SplitConsChar(c, u + [sep] + b, sep);
    SplitConsChar(c, u, sep);
    assert (ra + rb)[0] == ra[0];
    ConsPieces([c] + ra[0], ra, rb);
  }

  /** Replacing the first piece of `ra + rb` by `x` is replacing the first piece of `ra`. */
  lemma ConsPieces(x: string, ra: seq<string>, rb: seq<string>)
    requires ra != []
    ensures [x] + (ra + rb)[1..] == ([x] + ra[1..]) + rb
  {
    assert (ra + rb)[1..] == ra[1..] + rb;
  }

  /** One step of Split: a leading separator ends an empty first piece. */
  lemma SplitConsSep(t: string, sep: char)
    ensures Split([sep] + t, sep) == [""] + Split(t, sep)
  {
    assert ([sep] + t)[0] == sep && ([sep] + t)[1..] == t;
  }

  /** One step of Split: any other leading character joins the first piece. */
  lemma SplitConsChar(c: char, t: string, sep: char)
    requires c != sep
    ensures Split([c] + t, sep) == [[c] + Split(t, sep)[0]] + Split(t, sep)[1..]
  {
    assert ([c] + t)[0] == c && ([c] + t)[1..] == t;
  }

  /** Python's `str.isspace()` for one character. */
  predicate IsSpace(c: char) {
    ('\U{9}' <= c <= '\U{D}') || ('\U{1C}' <= c <= '\U{20}') || c == '\U{85}' || c == '\U{A0}' ||
    c == '\U{1680}' || ('\U{2000}' <= c <= '\U{200A}') || c == '\U{2028}' || c == '\U{2029}' ||
    c == '\U{202F}' || c == '\U{205F}' || c == '\U{3000}'
  }

  function StripLeft(s: string): string {
    if s != [] && IsSpace(s[0]) then StripLeft(s[1..]) else s
  }

  function StripRight(s: string): string {
    if s != [] && IsSpace(s[|s| - 1]) then StripRight(s[..|s| - 1]) else s
  }

  /** Python's `s.strip()`. */
  function Strip(s: string): string {
    StripRight(StripLeft(s))
  }

  predicate IsBlank(s: string) {
    forall i :: 0 <= i < |s| ==> IsSpace(s[i])
  }

  /** `not s.strip()` holds exactly when every character of `s` is whitespace. */
  lemma {:induction false} StripEmpty(s: string)
    ensures Strip(s) == "" <==> IsBlank(s)
  {
    StripLeftEmpty(s);
    var t := StripLeft(s);
    if t != [] {
      StripRightKeepsFirst(t);
    }
  }

  lemma {:induction false} StripLeftEmpty(s: string)
    ensures StripLeft(s) == "" <==> IsBlank(s)
    ensures StripLeft(s) != "" ==> !IsSpace(StripLeft(s)[0])
  {
    if s != [] && IsSpace(s[0]) {
      StripLeftEmpty(s[1..]);
      assert IsBlank(s) <==> IsBlank(s[1..]) by {
        if IsBlank(s[1..]) {
          forall i | 0 <= i < |s| ensures IsSpace(s[i]) {
            if i > 0 { assert s[i] == s[1..][i - 1]; }
          }
        }
      }
    }
  }

  /** Stripping on the right never removes a first character that is not whitespace. */
  lemma {:induction false} StripRightKeepsFirst(t: string)
    requires t != [] && !IsSpace(t[0])
    ensures StripRight(t) != "" && StripRight(t)[0] == t[0]
  {
    if IsSpace(t[|t| - 1]) {
      StripRightKeepsFirst(t[..|t| - 1]);
    }
  }

  predicate IsDigit(c: char) {
    '0' <= c <= '9'
  }

  predicate DigitsOrUnderscores(s: string) {
    forall i :: 0 <= i < |s| ==> IsDigit(s[i]) || s[i] == '_'
  }

  /** The body of a Python integer literal: ASCII digits, single '_' allowed between digits. */
  predicate IsDigitGroups(s: string) {
    |s| > 0 && DigitsOrUnderscores(s) &&
    forall i :: 0 <= i < |s| && s[i] == '_' ==> 0 < i < |s| - 1 && IsDigit(s[i - 1]) && IsDigit(s[i + 1])
  }

  /** The value of a digit string, ignoring '_' separators. */
  function DigitsValue(s: string): nat
    requires DigitsOrUnderscores(s)
  {
    if s == [] then 0
    else if s[|s| - 1] == '_' then DigitsValue(s[..|s| - 1])
    else DigitsValue(s[..|s| - 1]) * 10 + (s[|s| - 1] as int - '0' as int)
  }

  /** Python's `int(s)` on a string: None where Python raises ValueError. */
  function ParseInt(s: string): Option<int> {
    var t := Strip(s);
    if |t| > 0 && t[0] == '-' && IsDigitGroups(t[1..]) then Some(-(DigitsValue(t[1..]) as int))
    else if |t| > 0 && t[0] == '+' && IsDigitGroups(t[1..]) then Some(DigitsValue(t[1..]))
    else if IsDigitGroups(t) then Some(DigitsValue(t))
    else None
  }

  /** Stripping on the left leaves a suffix of the text. */
  lemma {:induction false} StripLeftIsSuffix(s: string)
    ensures |StripLeft(s)| <= |s| && StripLeft(s) == s[|s| - |StripLeft(s)|..]
  {
    if s != [] && IsSpace(s[0]) {
      StripLeftIsSuffix(s[1..]);
    }
  }

  /** Stripping on the right leaves a prefix of the text. */
  lemma {:induction false} StripRightIsPrefix(s: string)
    ensures |StripRight(s)| <= |s| && StripRight(s) == s[..|StripRight(s)|]
  {
    if s != [] && IsSpace(s[|s| - 1]) {
      StripRightIsPrefix(s[..|s| - 1]);
    }
  }

  /** `int(s)` raises ValueError on a text without any ASCII digit. */
  lemma ParseIntNeedsDigit(s: string)
    requires forall i :: 0 <= i < |s| ==> !IsDigit(s[i])
    ensures ParseInt(s) == None
  {
    var l := StripLeft(s);
    StripLeftIsSuffix(s);
    StripRightIsPrefix(l);
    var t := Strip(s);
    assert forall i :: 0 <= i < |t| ==> t[i] == l[i] == s[|s| - |l| + i];
    if |t| > 0 {
      assert !IsDigitGroups(t) by { assert !IsDigit(t[0]); }
      assert !IsDigitGroups(t[1..]) by {
        if |t| > 1 { assert t[1..][0] == t[1] && !IsDigit(t[1]); }
      }
    }
  }

  function DigitChar(d: nat): char
    requires d < 10
  {
    ('0' as int + d) as char
  }

  /** Python's `str(n)` for a non-negative integer. */
  function ShowNat(n: nat): (r: string)
    ensures |r| > 0 && forall i :: 0 <= i < |r| ==> IsDigit(r[i])
  {
    if n < 10 then [DigitChar(n)] else ShowNat(n / 10) + [DigitChar(n % 10)]
  }

  /** Python's `str(n)` (and an f-string's `{n}`) for an integer. */
  function ShowInt(n: int): string {
    if n < 0 then "-" + ShowNat(-n) else ShowNat(n)
  }

  lemma {:induction false} DigitsValueOfShowNat(n: nat)
    ensures DigitsValue(ShowNat(n)) == n
  {
    if n >= 10 {
      DigitsValueOfShowNat(n / 10);
      var s := ShowNat(n);
      assert s[..|s| - 1] == ShowNat(n / 10);
    }
  }

  /** `int(str(n)) == n`: the text the writer produces for a number reads back as that number. */
  lemma ParseShowInt(n: int)
    ensures ParseInt(ShowInt(n)) == Some(n)
  {
    var s := ShowInt(n);
    ShowIntStripped(n);
    if n < 0 {
      assert s[0] == '-' && s[1..] == ShowNat(-n);
      DigitsAreGroups(s[1..]);
      DigitsValueOfShowNat(-n);
    } else {
      DigitsAreGroups(s);
      DigitsValueOfShowNat(n);
    }
  }

  /** A non-empty run of digits is a valid integer literal body. */
  lemma DigitsAreGroups(d: string)
    requires |d| > 0 && forall i :: 0 <= i < |d| ==> IsDigit(d[i])
    ensures IsDigitGroups(d)
  {
  }

  /** A written number has no surrounding whitespace to strip. */
  lemma ShowIntStripped(n: int)
    ensures Strip(ShowInt(n)) == ShowInt(n)
  {
    var s := ShowInt(n);
    assert !IsSpace(s[0]) && !IsSpace(s[|s| - 1]);
    assert StripLeft(s) == s;
  }

  /** Different numbers are written differently. */
  lemma ShowIntInjective(a: int, b: int)
    requires ShowInt(a) == ShowInt(b)
    ensures a == b
  {
    ParseShowInt(a);
    ParseShowInt(b);
  }
}
