/**
 * The TXT to EPUB converter, converters/txt2epub.py: `create_epub_from_txt` reads a
 * downloaded text file back, cuts it at every "● " and turns each non-blank piece into
 * one XHTML chapter; `convert_directory_txt_to_epub` does that for every ".txt" entry
 * of a directory. The book is kept as the value ebooklib is handed.
 */
module Txt2Epub {
  import opened Base
  import opened Text
  import opened Chapter

  /** One `epub.EpubHtml` chapter: its title, file name, language and content. */
  datatype Html = Html(title: string, fileName: string, lang: string, content: string)

  /** What `book.add_item` receives: the chapters, then the NCX and the navigation document. */
  datatype Item = Page(html: Html) | NcxItem | NavItem

  /** An entry of `book.spine`: the string 'nav' or a chapter. */
  datatype SpineEntry = NavRef | Doc(html: Html)

  datatype Book = Book(identifier: string, title: string, language: string,
                       items: seq<Item>, spine: seq<SpineEntry>, toc: seq<SpineEntry>)

  /**
   * The IndexError the converter raises: from `.split(".")[:-1][0]` for a file name
   * without '.', or from `.split('\n', 1)[1]` for a non-blank piece without a newline.
   */
  datatype ConvertError = NoDotInName | NoNewline(piece: nat)

  // Reading the file back

  /** `open(path, 'r').read()` with universal newlines: "\r\n" and a lone "\r" read as "\n". */
  function ReadText(s: string): (r: string)
    ensures '\r' !in r
  {
    if s == [] then []
    else if s[0] == '\r' then "\n" + ReadText(if |s| > 1 && s[1] == '\n' then s[2..] else s[1..])
    else [s[0]] + ReadText(s[1..])
  }

  /** A text without carriage returns reads back unchanged. */
  lemma {:induction false} ReadTextKeeps(s: string)
    requires '\r' !in s
    ensures ReadText(s) == s
  {
    if s != [] {
      ReadTextKeeps(s[1..]);
      assert s == [s[0]] + s[1..];
    }
  }

  /**
   * Universal newlines line by line: a line ended by "\n", "\r\n" or a lone "\r" reads
   * as the line ended by "\n". A "\r" directly followed by "\n" is a "\r\n" ending.
   */
  lemma {:induction false} ReadTextLine(line: string, end: string, rest: string)
    requires '\r' !in line
    requires end == "\n" || end == "\r\n" || (end == "\r" && (rest == [] || rest[0] != '\n'))
    ensures ReadText(line + end + rest) == line + "\n" + ReadText(rest)
  {
    if line == [] {
      assert line + end + rest == end + rest;
      ReadTextEnd(end, rest);
    } else {
      ReadTextLine(line[1..], end, rest);
      ReadTextChar(line[0], line[1..] + end + rest);
      assert line + end + rest == [line[0]] + (line[1..] + end + rest);
      ConcatAssoc([line[0]], line[1..] + "\n", ReadText(rest));
      ConcatAssoc([line[0]], line[1..], "\n");
    }
  }

  lemma ReadTextEnd(end: string, rest: string)
    requires end == "\n" || end == "\r\n" || (end == "\r" && (rest == [] || rest[0] != '\n'))
    ensures ReadText(end + rest) == "\n" + ReadText(rest)
  {
    if end == "\r\n" {
      assert (end + rest)[2..] == rest;
    } else {
      assert (end + rest)[1..] == rest;
    }
  }

  lemma ReadTextChar(c: char, t: string)
    requires c != '\r'
    ensures ReadText([c] + t) == [c] + ReadText(t)
  {
    assert ([c] + t)[1..] == t;
  }

  // Cutting at the marker

  /** `"● "` occurs in `s`. */
  predicate ContainsMarker(s: string) {
    exists i :: 0 <= i < |s| - 1 && s[i] == MARKER[0] && s[i + 1] == MARKER[1]
  }

  /** `re.split(r'● ', s)`: the pieces between the non-overlapping markers, left to right. */
  function SplitMarker(s: string): (r: seq<string>)
    ensures |r| >= 1
  {
    if |s| < 2 then [s]
    else if s[..2] == MARKER then [""] + SplitMarker(s[2..])
    else
      var rest := SplitMarker(s[1..]);
      [[s[0]] + rest[0]] + rest[1..]
  }

  /** The inverse of SplitMarker: `"● ".join(pieces)`. */
  function JoinMarker(pieces: seq<string>): string {
    if pieces == [] then ""
    else if |pieces| == 1 then pieces[0]
    else pieces[0] + MARKER + JoinMarker(pieces[1..])
  }

  /**
   * `re.split` is characterised by the pieces it returns: joining them with the marker
   * gives back the text, and no piece holds the marker.
   */
  lemma SplitMarkerJoin(s: string)
    ensures JoinMarker(SplitMarker(s)) == s
    ensures forall k :: 0 <= k < |SplitMarker(s)| ==> !ContainsMarker(SplitMarker(s)[k])
  {
    JoinOfSplitMarker(s);
    SplitMarkerPieces(s);
  }

  /** No piece holds the marker, and the first piece is a prefix of the text. */
  lemma {:induction false} SplitMarkerPieces(s: string)
    ensures var r := SplitMarker(s); |r[0]| <= |s| && r[0] == s[..|r[0]|]
    ensures forall k :: 0 <= k < |SplitMarker(s)| ==> !ContainsMarker(SplitMarker(s)[k])
  {
    var r := SplitMarker(s);
    if |s| >= 2 && s[..2] == MARKER {
      var rest := SplitMarker(s[2..]);
      SplitMarkerPieces(s[2..]);
      assert r == [""] + rest;
      forall k | 0 < k < |r| ensures !ContainsMarker(r[k]) {
        assert r[k] == rest[k - 1];
      }
    } else if |s| >= 2 {
      var rest := SplitMarker(s[1..]);
      SplitMarkerPieces(s[1..]);
      assert r == [[s[0]] + rest[0]] + rest[1..];
      assert s[..2] == [s[0], s[1]];
      ConsNoMarker(s[0], rest[0], s[1]);
      forall k | 0 < k < |r| ensures !ContainsMarker(r[k]) {
        assert r[k] == rest[k];
      }
      assert r[0] == s[..|r[0]|];
    }
  }

  /** A character in front of a marker-free piece makes no marker unless it starts one with the piece's first character. */
  lemma ConsNoMarker(c: char, p: string, next: char)
    requires !ContainsMarker(p) && (p != [] ==> p[0] == next)
    requires !(c == MARKER[0] && next == MARKER[1])
    ensures !ContainsMarker([c] + p)
  {
    var q := [c] + p;
    forall i | 0 <= i < |q| - 1 ensures !(q[i] == MARKER[0] && q[i + 1] == MARKER[1]) {
      if i > 0 {
        assert q[i] == p[i - 1] && q[i + 1] == p[i];
      }
    }
  }

  /** Joining the pieces with the marker gives back the text. */
  lemma {:induction false} JoinOfSplitMarker(s: string)
    ensures JoinMarker(SplitMarker(s)) == s
  {
    if |s| >= 2 && s[..2] == MARKER {
      JoinOfSplitMarker(s[2..]);
      assert s == MARKER + s[2..];
      JoinAtMarker(s[2..]);
    } else if s != [] {
      JoinOfSplitMarker(s[1..]);
      assert s == [s[0]] + s[1..];
      assert |s| >= 2 ==> s[..2] == [s[0], s[1]];
      JoinAfterChar(s[0], s[1..]);
    }
  }

  /** The step of JoinOfSplitMarker for a text that starts with the marker. */
  lemma JoinAtMarker(t: string)
    requires JoinMarker(SplitMarker(t)) == t
    ensures JoinMarker(SplitMarker(MARKER + t)) == MARKER + t
  {
    var rest := SplitMarker(t);
    SplitMarkerAtMarker(t);
    assert ([""] + rest)[1..] == rest;
  }

  /** The step of JoinOfSplitMarker for a text whose first character does not start a marker. */
  lemma JoinAfterChar(c: char, t: string)
    requires !(c == MARKER[0] && |t| > 0 && t[0] == MARKER[1])
    requires JoinMarker(SplitMarker(t)) == t
    ensures JoinMarker(SplitMarker([c] + t)) == [c] + t
  {
    var rest := SplitMarker(t);
    SplitMarkerAfter(c, t);
    var r := [[c] + rest[0]] + rest[1..];
    if |rest| > 1 {
      assert r[0] == [c] + rest[0] && r[1..] == rest[1..];
      JoinMarkerCons(r);
      JoinMarkerCons(rest);
      ConcatAssoc([c], rest[0] + MARKER, JoinMarker(rest[1..]));
      ConcatAssoc([c], rest[0], MARKER);
    }
  }

  lemma JoinMarkerCons(pieces: seq<string>)
    requires |pieces| > 1
    ensures JoinMarker(pieces) == pieces[0] + MARKER + JoinMarker(pieces[1..])
  {
  }

  /** A text without the marker is one piece. */
  lemma {:induction false} SplitMarkerNoMarker(s: string)
    requires !ContainsMarker(s)
    ensures SplitMarker(s) == [s]
  {
    if |s| >= 2 {
      assert !(s[0] == MARKER[0] && s[1] == MARKER[1]);
      assert s[..2] == [s[0], s[1]];
      assert !ContainsMarker(s[1..]);
      SplitMarkerNoMarker(s[1..]);
      assert [s[0]] + s[1..] == s;
    }
  }

  /**
   * A marker placed between two texts cuts there and nowhere else: no match can reach
   * across it, since neither of its characters can start or end one at its edges.
   */
  lemma {:induction false} SplitMarkerAround(a: string, b: string)
    ensures SplitMarker(a + MARKER + b) == SplitMarker(a) + SplitMarker(b)
  {
    if a == [] {
      SplitMarkerAtMarker(b);
      assert a + MARKER + b == MARKER + b;
    } else if |a| >= 2 && a[..2] == MARKER {
      SplitMarkerAround(a[2..], b);
      AroundLeadingMarker(a, b);
    } else {
      SplitMarkerAround(a[1..], b);
      AroundLeadingChar(a, b);
    }
  }

  lemma AroundLeadingMarker(a: string, b: string)
    requires |a| >= 2 && a[..2] == MARKER
    requires SplitMarker(a[2..] + MARKER + b) == SplitMarker(a[2..]) + SplitMarker(b)
    ensures SplitMarker(a + MARKER + b) == SplitMarker(a) + SplitMarker(b)
  {
    assert a + MARKER + b == MARKER + (a[2..] + MARKER + b);
    assert a == MARKER + a[2..];
    SplitMarkerAtMarker(a[2..] + MARKER + b);
    SplitMarkerAtMarker(a[2..]);
    ConcatAssoc([""], SplitMarker(a[2..]), SplitMarker(b));
  }

  lemma AroundLeadingChar(a: string, b: string)
    requires a != [] && !(|a| >= 2 && a[..2] == MARKER)
    requires SplitMarker(a[1..] + MARKER + b) == SplitMarker(a[1..]) + SplitMarker(b)
    ensures SplitMarker(a + MARKER + b) == SplitMarker(a) + SplitMarker(b)
  {
    if |a| == 1 {
      AroundSingleChar(a, b);
    } else {
      AroundLongerChar(a, b);
    }
  }

  /** AroundLeadingChar for a one-character text. */
  lemma AroundSingleChar(a: string, b: string)
    requires |a| == 1
    requires SplitMarker(a[1..] + MARKER + b) == SplitMarker(a[1..]) + SplitMarker(b)
    ensures SplitMarker(a + MARKER + b) == SplitMarker(a) + SplitMarker(b)
  {
    var t := MARKER + b;
    assert a[1..] == [] && a[1..] + MARKER + b == t && a + MARKER + b == [a[0]] + t;
    SplitMarkerAfter(a[0], t);
    LeadingCharPieces(a[0], [""], SplitMarker(b));
    assert SplitMarker(a) == [a] && [a[0]] + "" == a;
  }

  /** AroundLeadingChar for a text of two or more characters. */
  lemma AroundLongerChar(a: string, b: string)
    requires |a| >= 2 && a[..2] != MARKER
    requires SplitMarker(a[1..] + MARKER + b) == SplitMarker(a[1..]) + SplitMarker(b)
    ensures SplitMarker(a + MARKER + b) == SplitMarker(a) + SplitMarker(b)
  {
    var t := a[1..] + MARKER + b;
    assert a + MARKER + b == [a[0]] + t && [a[0]] + a[1..] == a;
    assert a[..2] == [a[0], a[1]] && t[0] == a[1];
    SplitMarkerAfter(a[0], t);
    SplitMarkerAfter(a[0], a[1..]);
    LeadingCharPieces(a[0], SplitMarker(a[1..]), SplitMarker(b));
  }

  lemma LeadingCharPieces(c: char, ra: seq<string>, rb: seq<string>)
    requires ra != []
    ensures [[c] + (ra + rb)[0]] + (ra + rb)[1..] == ([[c] + ra[0]] + ra[1..]) + rb
  {
    assert (ra + rb)[1..] == ra[1..] + rb;
  }

  /** A marker at the front cuts off an empty piece. */
  lemma SplitMarkerAtMarker(t: string)
    ensures SplitMarker(MARKER + t) == [""] + SplitMarker(t)
  {
    var s := MARKER + t;
    assert s[..2] == MARKER && s[2..] == t;
  }

  /** A character that does not start a marker joins the first piece of the rest. */
  lemma SplitMarkerAfter(c: char, t: string)
    requires !(c == MARKER[0] && |t| > 0 && t[0] == MARKER[1])
    ensures SplitMarker([c] + t) ==
              [[c] + SplitMarker(t)[0]] + SplitMarker(t)[1..]
  {
    var s := [c] + t;
    assert s[1..] == t;
    if |s| < 2 {
      assert t == [];
    } else {
      assert s[..2] == [c, t[0]];
    }
  }

  // One piece

  /** `s.split(sep, 1)`: the text before the first `sep` and the text after it, or `[s]` without one. */
  function SplitOnce(s: string, sep: char): (r: seq<string>)
    ensures 1 <= |r| <= 2
    ensures |r| == 1 <==> sep !in s
    ensures |r| == 1 ==> r[0] == s
    ensures |r| == 2 ==> s == r[0] + [sep] + r[1] && sep !in r[0]
  {
    if s == [] then [s]
    else if s[0] == sep then
      assert s == [] + [sep] + s[1..];
      ["", s[1..]]
    else
      var t := SplitOnce(s[1..], sep);
      assert s == [s[0]] + s[1..];
      if |t| == 1 then [s] else [[s[0]] + t[0], t[1]]
  }

  /** The text before the first separator is the one the cut finds. */
  lemma {:induction false} SplitOnceAt(head: string, sep: char, tail: string)
    requires sep !in head
    ensures SplitOnce(head + [sep] + tail, sep) == [head, tail]
  {
    var s := head + [sep] + tail;
    if head == [] {
      assert s == [sep] + tail;
    } else {
      assert s[1..] == head[1..] + [sep] + tail;
      SplitOnceAt(head[1..], sep, tail);
      assert [head[0]] + head[1..] == head;
    }
  }

  /** `f'chap_{i+1}.xhtml'`, the file name of the chapter cut from piece i. */
  function ChapterFileName(i: nat): string {
    "chap_" + ShowInt(i + 1) + ".xhtml"
  }

  /**
   * The loop body for piece i: a piece that is blank after `strip()` is skipped;
   * otherwise its first line is the title and its content is the title as a heading
   * followed by the rest after the first newline, which must exist.
   */
  function ChapterOf(piece: string, i: nat): Result<Option<Html>, ConvertError> {
    if Strip(piece) == "" then Ok(None)
    else
      var lines := SplitOnce(piece, '\n');
      if |lines| < 2 then Err(NoNewline(i))
      else Ok(Some(Html(lines[0], ChapterFileName(i), "ja", "<h1>" + lines[0] + "</h1>" + lines[1])))
  }

  /** The chapters cut from pieces i, i + 1, ... in order, or the first error. */
  function Chapters(pieces: seq<string>, i: nat): Result<seq<Html>, ConvertError>
    decreases |pieces| - i
  {
    if i >= |pieces| then Ok([])
    else
      match ChapterOf(pieces[i], i)
      case Err(e) => Err(e)
      case Ok(None) => Chapters(pieces, i + 1)
      case Ok(Some(c)) => Cons([c], Chapters(pieces, i + 1))
  }

  // The book

  /** `os.path.basename(path).split(".")[:-1][0]`. */
  function BookTitle(baseName: string): Result<string, ConvertError> {
    var pieces := Split(baseName, '.');
    if |pieces| < 2 then Err(NoDotInName) else Ok(pieces[0])
  }

  function Pages(cs: seq<Html>): seq<Item> {
    seq(|cs|, k requires 0 <= k < |cs| => Page(cs[k]))
  }

  function Docs(cs: seq<Html>): seq<SpineEntry> {
    seq(|cs|, k requires 0 <= k < |cs| => Doc(cs[k]))
  }

  /** What `create_epub_from_txt` hands to `epub.write_epub` for a file with this base name and text. */
  function Epub(baseName: string, text: string): Result<Book, ConvertError> {
    match BookTitle(baseName)
    case Err(e) => Err(e)
    case Ok(title) =>
      match Chapters(SplitMarker(ReadText(text)), 0)
      case Err(e) => Err(e)
      case Ok(cs) =>
        var spine := [NavRef] + Docs(cs);
        Ok(Book("id" + baseName, title, "ja", Pages(cs) + [NcxItem, NavItem], spine, spine[1..]))
  }

  /** `f'{title}.epub'`, the file the book is written to in the same directory. */
  function OutputName(title: string): string {
    title + ".epub"
  }

  method CreateEpubFromTxt(baseName: string, text: string) returns (r: Result<Book, ConvertError>)
    ensures r == Epub(baseName, text)
  {
    var chunks := SplitMarker(ReadText(text));
    var identifier := "id" + baseName;
    var named := BookTitle(baseName);
    if named.Err? {
      return Err(named.error);
    }
    var title := named.value;
    var items: seq<Item> := [];
    var spine: seq<SpineEntry> := [NavRef];
    ghost var made: seq<Html> := [];
    ConsNil(Chapters(chunks, 0));
    for i := 0 to |chunks|
      invariant items == Pages(made) && spine == [NavRef] + Docs(made)
      invariant Chapters(chunks, 0) == Cons(made, Chapters(chunks, i))
    {
      if Strip(chunks[i]) == "" {
        assert Chapters(chunks, i) == Chapters(chunks, i + 1);
        continue;
      }
      var lines := SplitOnce(chunks[i], '\n');
      if |lines| < 2 {
        assert Chapters(chunks, i) == Err(NoNewline(i));
        return Err(NoNewline(i));
      }
      var c := Html(lines[0], ChapterFileName(i), "ja", "<h1>" + lines[0] + "</h1>" + lines[1]);
      assert Chapters(chunks, i) == Cons([c], Chapters(chunks, i + 1));
      ConsCons(made, [c], Chapters(chunks, i + 1));
      SnocBook(made, c);
      items := items + [Page(c)];
      spine := spine + [Doc(c)];
      made := made + [c];
    }
    assert made + [] == made;
    var toc := spine[1..];
    items := items + [NcxItem, NavItem];
    return Ok(Book(identifier, title, "ja", items, spine, toc));
  }

  /** Adding a chapter adds its page to the items and its document to the spine. */
  lemma SnocBook(made: seq<Html>, c: Html)
    ensures Pages(made + [c]) == Pages(made) + [Page(c)]
    ensures Docs(made + [c]) == Docs(made) + [Doc(c)]
  {
  }

  // What the converter does with a text

  /** The book title is the base name up to its first '.', and a name without '.' fails. */
  lemma BookTitleIsPrefix(baseName: string)
    ensures BookTitle(baseName).Ok? <==> '.' in baseName
    ensures BookTitle(baseName).Ok? ==>
              var t := BookTitle(baseName).value;
              '.' !in t && |t| < |baseName| && baseName[..|t|] == t && baseName[|t|] == '.'
  {
    if '.' in baseName {
      var r := SplitOnce(baseName, '.');
      SplitAround(r[0], r[1], '.');
      SplitNoSeparator(r[0], '.');
      assert baseName[..|r[0]|] == r[0];
    } else {
      SplitNoSeparator(baseName, '.');
    }
  }

  /** The indices of the pieces from i on that are not all whitespace, in order. */
  function NonBlank(pieces: seq<string>, i: nat): (r: seq<nat>)
    ensures forall k :: 0 <= k < |r| ==> i <= r[k] < |pieces|
    decreases |pieces| - i
  {
    if i >= |pieces| then []
    else if IsBlank(pieces[i]) then NonBlank(pieces, i + 1)
    else [i] + NonBlank(pieces, i + 1)
  }

  /** NonBlank lists every non-blank piece from i on, each once, in ascending order. */
  lemma {:induction false} NonBlankAscending(pieces: seq<string>, i: nat)
    ensures var idx := NonBlank(pieces, i);
      (forall k :: 0 <= k < |idx| ==> i <= idx[k] < |pieces| && !IsBlank(pieces[idx[k]])) &&
      (forall k, l :: 0 <= k < l < |idx| ==> idx[k] < idx[l]) &&
      (forall j :: i <= j < |pieces| && !IsBlank(pieces[j]) ==> j in idx)
    decreases |pieces| - i
  {
    if i < |pieces| {
      NonBlankAscending(pieces, i + 1);
    }
  }

  /** Chapter `c` is cut from piece `piece` at index i: first line, the rest, the file name. */
  predicate CutFrom(c: Html, piece: string, i: nat) {
    c.fileName == ChapterFileName(i) && c.lang == "ja" && '\n' !in c.title &&
    |c.title| < |piece| && piece == c.title + "\n" + piece[|c.title| + 1..] &&
    c.content == "<h1>" + c.title + "</h1>" + piece[|c.title| + 1..]
  }

  /**
   * The cut succeeds exactly when every non-blank piece has a newline; otherwise it
   * fails at the first non-blank piece without one.
   */
  lemma {:induction false} ChaptersSucceed(pieces: seq<string>, i: nat)
    ensures Chapters(pieces, i).Ok? <==>
              forall j :: i <= j < |pieces| && !IsBlank(pieces[j]) ==> '\n' in pieces[j]
    ensures Chapters(pieces, i).Err? ==>
              exists j :: i <= j < |pieces| && Chapters(pieces, i).error == NoNewline(j) &&
                          !IsBlank(pieces[j]) && '\n' !in pieces[j] &&
                          forall j' :: i <= j' < j ==> IsBlank(pieces[j']) || '\n' in pieces[j']
    decreases |pieces| - i
  {
    ChaptersOk(pieces, i);
    if Chapters(pieces, i).Err? {
      ChaptersFirstError(pieces, i);
    }
  }

  lemma {:induction false} ChaptersOk(pieces: seq<string>, i: nat)
    ensures Chapters(pieces, i).Ok? <==>
              forall j :: i <= j < |pieces| && !IsBlank(pieces[j]) ==> '\n' in pieces[j]
    decreases |pieces| - i
  {
    if i < |pieces| {
      ChaptersOk(pieces, i + 1);
      ChapterOutcome(pieces, i);
      if IsBlank(pieces[i]) || '\n' in pieces[i] {
        assert (forall j :: i <= j < |pieces| && !IsBlank(pieces[j]) ==> '\n' in pieces[j]) <==>
               (forall j :: i + 1 <= j < |pieces| && !IsBlank(pieces[j]) ==> '\n' in pieces[j]);
      }
    }
  }

  lemma {:induction false} ChaptersFirstError(pieces: seq<string>, i: nat)
    requires Chapters(pieces, i).Err?
    ensures exists j :: i <= j < |pieces| && Chapters(pieces, i).error == NoNewline(j) &&
                        !IsBlank(pieces[j]) && '\n' !in pieces[j] &&
                        forall j' :: i <= j' < j ==> IsBlank(pieces[j']) || '\n' in pieces[j']
    decreases |pieces| - i
  {
    ChapterOutcome(pieces, i);
    if IsBlank(pieces[i]) || '\n' in pieces[i] {
      ChaptersFirstError(pieces, i + 1);
      var j :| i + 1 <= j < |pieces| && Chapters(pieces, i + 1).error == NoNewline(j) &&
               !IsBlank(pieces[j]) && '\n' !in pieces[j] &&
               forall j' :: i + 1 <= j' < j ==> IsBlank(pieces[j']) || '\n' in pieces[j'];
      assert Chapters(pieces, i).error == NoNewline(j);
    } else {
      assert Chapters(pieces, i).error == NoNewline(i);
    }
  }

  /** How piece i decides the outcome of the cut from i on. */
  lemma ChapterOutcome(pieces: seq<string>, i: nat)
    requires i < |pieces|
    ensures !IsBlank(pieces[i]) && '\n' !in pieces[i] ==> Chapters(pieces, i) == Err(NoNewline(i))
    ensures IsBlank(pieces[i]) || '\n' in pieces[i] ==>
              Chapters(pieces, i).Ok? == Chapters(pieces, i + 1).Ok? &&
              (Chapters(pieces, i).Err? ==> Chapters(pieces, i).error == Chapters(pieces, i + 1).error)
  {
    StripEmpty(pieces[i]);
  }

  /**
   * A successful cut yields one chapter per non-blank piece, in text order, each cut
   * from its piece: title is the first line, content the title as a heading followed
   * by the rest, file name from the piece's index.
   */
  lemma {:induction false} ChaptersShape(pieces: seq<string>, i: nat)
    requires Chapters(pieces, i).Ok?
    ensures var cs, idx := Chapters(pieces, i).value, NonBlank(pieces, i);
      |cs| == |idx| && forall k :: 0 <= k < |cs| ==> CutFrom(cs[k], pieces[idx[k]], idx[k])
    decreases |pieces| - i
  {
    if i < |pieces| {
      ChaptersStep(pieces, i);
      ChaptersShape(pieces, i + 1);
      if !IsBlank(pieces[i]) {
        var c := ChapterOf(pieces[i], i).value.value;
        ChapterOfCut(pieces[i], i);
        var cs, idx := Chapters(pieces, i).value, NonBlank(pieces, i);
        var rest, ridx := Chapters(pieces, i + 1).value, NonBlank(pieces, i + 1);
        assert cs == [c] + rest && idx == [i] + ridx;
        forall k | 0 < k < |cs| ensures CutFrom(cs[k], pieces[idx[k]], idx[k]) {
          assert cs[k] == rest[k - 1] && idx[k] == ridx[k - 1];
        }
      }
    }
  }

  /** One piece's share of the chapters. */
  lemma ChaptersStep(pieces: seq<string>, i: nat)
    requires i < |pieces| && Chapters(pieces, i).Ok?
    ensures Chapters(pieces, i + 1).Ok?
    ensures !IsBlank(pieces[i]) ==> ChapterOf(pieces[i], i).Ok? && ChapterOf(pieces[i], i).value.Some?
    ensures Chapters(pieces, i).value ==
              (if IsBlank(pieces[i]) then [] else [ChapterOf(pieces[i], i).value.value]) +
              Chapters(pieces, i + 1).value
  {
    StripEmpty(pieces[i]);
    var rest := Chapters(pieces, i + 1);
    if IsBlank(pieces[i]) {
      assert [] + rest.value == rest.value;
    }
  }

  lemma ChapterOfCut(piece: string, i: nat)
    requires ChapterOf(piece, i).Ok? && ChapterOf(piece, i).value.Some?
    ensures CutFrom(ChapterOf(piece, i).value.value, piece, i)
  {
    var lines := SplitOnce(piece, '\n');
    assert piece[|lines[0]| + 1..] == lines[1];
  }

  lemma ChapterFileNameInjective(a: nat, b: nat)
    requires ChapterFileName(a) == ChapterFileName(b)
    ensures a == b
  {
    var x, y := ShowInt(a + 1), ShowInt(b + 1);
    assert |x| == |y|;
    assert ChapterFileName(a)[5..5 + |x|] == x;
    assert ChapterFileName(b)[5..5 + |y|] == y;
    ShowIntInjective(a + 1, b + 1);
  }

  /** The chapters' file names are pairwise different. */
  lemma ChapterFilesDistinct(pieces: seq<string>)
    requires Chapters(pieces, 0).Ok?
    ensures var cs := Chapters(pieces, 0).value;
      forall k, l :: 0 <= k < l < |cs| ==> cs[k].fileName != cs[l].fileName
  {
    ChaptersShape(pieces, 0);
    NonBlankAscending(pieces, 0);
    var cs, idx := Chapters(pieces, 0).value, NonBlank(pieces, 0);
    forall k, l | 0 <= k < l < |cs| ensures cs[k].fileName != cs[l].fileName {
      if cs[k].fileName == cs[l].fileName {
        ChapterFileNameInjective(idx[k], idx[l]);
      }
    }
  }

  // Round trip with the downloader's records

  /** The header line the downloader writes for chapter n, after the marker. */
  function HeaderOf(fetch: int -> ChapterPage, n: int, recordIndex: bool): string {
    Header(NormalizeTitle(fetch(n).title), n, recordIndex)
  }

  /** The content the downloader writes for chapter n. */
  function BodyOf(fetch: int -> ChapterPage, n: int): string {
    NormalizeBody(fetch(n).content)
  }

  /**
   * What the round trip needs of a record: a header that is one line and not blank,
   * and neither the header nor the content holding the marker or a carriage return.
   */
  predicate Writable(header: string, content: string) {
    '\n' !in header && !IsBlank(header) && !ContainsMarker(header) && !ContainsMarker(content) &&
    '\r' !in header && '\r' !in content
  }

  /** The piece between chapter n's marker and the next one. */
  function Piece(fetch: int -> ChapterPage, n: int, recordIndex: bool): string {
    HeaderOf(fetch, n, recordIndex) + "\n" + BodyOf(fetch, n) + "\n"
  }

  /** A newline between two marker-free texts creates no marker. */
  lemma NoMarkerAcrossNewline(a: string, b: string)
    requires !ContainsMarker(a) && !ContainsMarker(b)
    ensures !ContainsMarker(a + "\n" + b)
  {
    var s := a + "\n" + b;
    forall i | 0 <= i < |s| - 1 ensures !(s[i] == MARKER[0] && s[i + 1] == MARKER[1]) {
      if i + 1 < |a| {
        assert s[i] == a[i] && s[i + 1] == a[i + 1];
      } else if i > |a| {
        assert s[i] == b[i - |a| - 1] && s[i + 1] == b[i - |a|];
      }
    }
  }

  lemma PieceHasNoMarker(fetch: int -> ChapterPage, n: int, recordIndex: bool)
    requires Writable(HeaderOf(fetch, n, recordIndex), BodyOf(fetch, n))
    ensures !ContainsMarker(Piece(fetch, n, recordIndex))
  {
    var h, c := HeaderOf(fetch, n, recordIndex), BodyOf(fetch, n);
    NoMarkerAcrossNewline(h, c);
    NoMarkerAcrossNewline(h + "\n" + c, "");
    assert h + "\n" + c + "\n" + "" == Piece(fetch, n, recordIndex);
  }

  /** The written text, cut at the markers: an empty piece, then one piece per chapter in order. */
  lemma {:induction false} RecordsPieces(fetch: int -> ChapterPage, lo: int, hi: int, recordIndex: bool)
    requires lo <= hi
    requires forall n :: lo <= n < hi ==> Writable(HeaderOf(fetch, n, recordIndex), BodyOf(fetch, n))
    ensures var pieces := SplitMarker(Records(fetch, lo, hi, recordIndex));
      |pieces| == hi - lo + 1 && pieces[0] == "" &&
      forall k :: 1 <= k < |pieces| ==> pieces[k] == Piece(fetch, lo + k - 1, recordIndex)
    decreases hi - lo
  {
    if lo < hi {
      RecordsPieces(fetch, lo, hi - 1, recordIndex);
      RecordsSplitLast(fetch, lo, hi, recordIndex);
      ExtendPieces(fetch, lo, hi, recordIndex, SplitMarker(Records(fetch, lo, hi - 1, recordIndex)),
                   SplitMarker(Records(fetch, lo, hi, recordIndex)));
    }
  }

  /** The last chapter's record adds one piece, its own, to the cut. */
  lemma RecordsSplitLast(fetch: int -> ChapterPage, lo: int, hi: int, recordIndex: bool)
    requires lo < hi
    requires Writable(HeaderOf(fetch, hi - 1, recordIndex), BodyOf(fetch, hi - 1))
    ensures SplitMarker(Records(fetch, lo, hi, recordIndex)) ==
              SplitMarker(Records(fetch, lo, hi - 1, recordIndex)) + [Piece(fetch, hi - 1, recordIndex)]
  {
    var before := Records(fetch, lo, hi - 1, recordIndex);
    var piece := Piece(fetch, hi - 1, recordIndex);
    RecordsLast(fetch, lo, hi, recordIndex);
    SplitMarkerAround(before, piece);
    PieceHasNoMarker(fetch, hi - 1, recordIndex);
    SplitMarkerNoMarker(piece);
  }

  lemma ExtendPieces(fetch: int -> ChapterPage, lo: int, hi: int, recordIndex: bool,
                     before: seq<string>, after: seq<string>)
    requires lo < hi && |before| == hi - lo && before[0] == ""
    requires forall k :: 1 <= k < |before| ==> before[k] == Piece(fetch, lo + k - 1, recordIndex)
    requires after == before + [Piece(fetch, hi - 1, recordIndex)]
    ensures |after| == hi - lo + 1 && after[0] == ""
    ensures forall k :: 1 <= k < |after| ==> after[k] == Piece(fetch, lo + k - 1, recordIndex)
  {
  }

  /** The records of a range end with the marker and the piece of its last chapter. */
  lemma RecordsLast(fetch: int -> ChapterPage, lo: int, hi: int, recordIndex: bool)
    requires lo < hi
    ensures Records(fetch, lo, hi, recordIndex) ==
              Records(fetch, lo, hi - 1, recordIndex) + MARKER + Piece(fetch, hi - 1, recordIndex)
  {
    var h, c := HeaderOf(fetch, hi - 1, recordIndex), BodyOf(fetch, hi - 1);
    assert RecordOf(fetch(hi - 1), hi - 1, recordIndex) == MARKER + h + "\n" + c + "\n";
    ConcatAssoc(MARKER, h + "\n" + c, "\n");
    ConcatAssoc(MARKER, h + "\n", c);
    ConcatAssoc(MARKER, h, "\n");
    ConcatAssoc(Records(fetch, lo, hi - 1, recordIndex), MARKER, Piece(fetch, hi - 1, recordIndex));
  }

  /** Records without carriage returns in their headers and bodies have none at all. */
  lemma {:induction false} RecordsNoReturn(fetch: int -> ChapterPage, lo: int, hi: int, recordIndex: bool)
    requires forall n :: lo <= n < hi ==> Writable(HeaderOf(fetch, n, recordIndex), BodyOf(fetch, n))
    ensures '\r' !in Records(fetch, lo, hi, recordIndex)
    decreases hi - lo
  {
    if lo < hi {
      RecordsNoReturn(fetch, lo, hi - 1, recordIndex);
      RecordsLast(fetch, lo, hi, recordIndex);
    }
  }

  /** Blank pieces are skipped, so with no blank piece past the first every piece is a chapter. */
  lemma {:induction false} NonBlankAll(pieces: seq<string>, i: nat)
    requires i <= |pieces|
    requires forall j :: i <= j < |pieces| ==> !IsBlank(pieces[j])
    ensures |NonBlank(pieces, i)| == |pieces| - i
    ensures forall k :: 0 <= k < |pieces| - i ==> NonBlank(pieces, i)[k] == i + k
    decreases |pieces| - i
  {
    if i < |pieces| {
      NonBlankAll(pieces, i + 1);
    }
  }

  /**
   * Reading back what the downloader wrote for chapters lo .. hi - 1 gives one chapter
   * per record, in order: the title is the header line with any `[総第n話]` suffix, the
   * content adds the body and its final newline, and the k-th chapter is `chap_{k+2}`
   * because the text starts with a marker.
   */
  lemma RoundTrip(fetch: int -> ChapterPage, lo: int, hi: int, recordIndex: bool)
    requires lo <= hi
    requires forall n :: lo <= n < hi ==> Writable(HeaderOf(fetch, n, recordIndex), BodyOf(fetch, n))
    ensures var cs := Chapters(SplitMarker(ReadText(Records(fetch, lo, hi, recordIndex))), 0);
      cs.Ok? && |cs.value| == hi - lo &&
      forall k :: 0 <= k < hi - lo ==>
        cs.value[k] == Html(HeaderOf(fetch, lo + k, recordIndex), ChapterFileName(k + 1), "ja",
                            "<h1>" + HeaderOf(fetch, lo + k, recordIndex) + "</h1>" +
                            BodyOf(fetch, lo + k) + "\n")
  {
    var text := Records(fetch, lo, hi, recordIndex);
    RecordsNoReturn(fetch, lo, hi, recordIndex);
    ReadTextKeeps(text);
    var pieces := SplitMarker(text);
    RecordsPieces(fetch, lo, hi, recordIndex);
    var heads, rests := Heads(fetch, lo, hi, recordIndex), Rests(fetch, lo, hi);
    PiecesAreLines(fetch, lo, hi, recordIndex, pieces, heads, rests);
    CutPieces(pieces, heads, rests);
    var cs := Chapters(pieces, 0).value;
    forall k | 0 <= k < hi - lo
      ensures cs[k] == Html(HeaderOf(fetch, lo + k, recordIndex), ChapterFileName(k + 1), "ja",
                            "<h1>" + HeaderOf(fetch, lo + k, recordIndex) + "</h1>" +
                            BodyOf(fetch, lo + k) + "\n")
    {
      ConcatAssoc("<h1>" + heads[k] + "</h1>", BodyOf(fetch, lo + k), "\n");
    }
  }

  /** Each chapter's piece is its header line, a newline and its body line. */
  lemma PiecesAreLines(fetch: int -> ChapterPage, lo: int, hi: int, recordIndex: bool, pieces: seq<string>,
                       heads: seq<string>, rests: seq<string>)
    requires lo <= hi
    requires forall n :: lo <= n < hi ==> Writable(HeaderOf(fetch, n, recordIndex), BodyOf(fetch, n))
    requires |pieces| == hi - lo + 1
    requires forall k :: 1 <= k < |pieces| ==> pieces[k] == Piece(fetch, lo + k - 1, recordIndex)
    requires |heads| == hi - lo && forall k :: 0 <= k < |heads| ==> heads[k] == HeaderOf(fetch, lo + k, recordIndex)
    requires |rests| == hi - lo && forall k :: 0 <= k < |rests| ==> rests[k] == BodyOf(fetch, lo + k) + "\n"
    ensures forall k :: 0 <= k < |heads| ==>
              '\n' !in heads[k] && !IsBlank(heads[k]) && pieces[k + 1] == heads[k] + "\n" + rests[k]
  {
    forall k | 0 <= k < |heads|
      ensures '\n' !in heads[k] && !IsBlank(heads[k]) && pieces[k + 1] == heads[k] + "\n" + rests[k]
    {
      var n := lo + k;
      assert heads[k] == HeaderOf(fetch, n, recordIndex) && rests[k] == BodyOf(fetch, n) + "\n";
      assert pieces[k + 1] == Piece(fetch, n, recordIndex);
      PieceLines(fetch, n, recordIndex);
    }
  }

  /** The header lines of chapters lo .. hi - 1. */
  function Heads(fetch: int -> ChapterPage, lo: int, hi: int, recordIndex: bool): (r: seq<string>)
    requires lo <= hi
    ensures |r| == hi - lo && forall k :: 0 <= k < |r| ==> r[k] == HeaderOf(fetch, lo + k, recordIndex)
    decreases hi - lo
  {
    if lo == hi then [] else Heads(fetch, lo, hi - 1, recordIndex) + [HeaderOf(fetch, hi - 1, recordIndex)]
  }

  /** The bodies of chapters lo .. hi - 1, each with its final newline. */
  function Rests(fetch: int -> ChapterPage, lo: int, hi: int): (r: seq<string>)
    requires lo <= hi
    ensures |r| == hi - lo && forall k :: 0 <= k < |r| ==> r[k] == BodyOf(fetch, lo + k) + "\n"
    decreases hi - lo
  {
    if lo == hi then [] else Rests(fetch, lo, hi - 1) + [BodyOf(fetch, hi - 1) + "\n"]
  }

  lemma PieceLines(fetch: int -> ChapterPage, n: int, recordIndex: bool)
    requires Writable(HeaderOf(fetch, n, recordIndex), BodyOf(fetch, n))
    ensures '\n' !in HeaderOf(fetch, n, recordIndex) && !IsBlank(HeaderOf(fetch, n, recordIndex))
    ensures Piece(fetch, n, recordIndex) == HeaderOf(fetch, n, recordIndex) + "\n" + (BodyOf(fetch, n) + "\n")
  {
    ConcatAssoc(HeaderOf(fetch, n, recordIndex) + "\n", BodyOf(fetch, n), "\n");
  }

  /**
   * Pieces after an empty first one, each a non-blank single-line head, a newline and a
   * rest, are cut into one chapter each, in order.
   */
  lemma CutPieces(pieces: seq<string>, heads: seq<string>, rests: seq<string>)
    requires |pieces| == |heads| + 1 && |rests| == |heads| && pieces[0] == ""
    requires forall k :: 0 <= k < |heads| ==>
               '\n' !in heads[k] && !IsBlank(heads[k]) && pieces[k + 1] == heads[k] + "\n" + rests[k]
    ensures var cs := Chapters(pieces, 0);
      cs.Ok? && |cs.value| == |heads| &&
      forall k :: 0 <= k < |heads| ==>
        cs.value[k] == Html(heads[k], ChapterFileName(k + 1), "ja", "<h1>" + heads[k] + "</h1>" + rests[k])
  {
    forall j | 1 <= j < |pieces| ensures !IsBlank(pieces[j]) && '\n' in pieces[j] {
      var h := heads[j - 1];
      var x :| 0 <= x < |h| && !IsSpace(h[x]);
      assert pieces[j][x] == h[x] && pieces[j][|h|] == '\n';
    }
    ChaptersSucceed(pieces, 1);
    StripEmpty(pieces[0]);
    assert Chapters(pieces, 0) == Chapters(pieces, 1);
    ChaptersShape(pieces, 1);
    NonBlankAll(pieces, 1);
    var cs := Chapters(pieces, 1).value;
    forall k | 0 <= k < |heads|
      ensures cs[k] == Html(heads[k], ChapterFileName(k + 1), "ja", "<h1>" + heads[k] + "</h1>" + rests[k])
    {
      var piece := pieces[k + 1];
      assert CutFrom(cs[k], piece, k + 1);
      FirstLineUnique(cs[k].title, piece[|cs[k].title| + 1..], heads[k], rests[k]);
    }
  }

  /** A text has one first line: the split at the first newline is unique. */
  lemma FirstLineUnique(t1: string, r1: string, t2: string, r2: string)
    requires '\n' !in t1 && '\n' !in t2 && t1 + "\n" + r1 == t2 + "\n" + r2
    ensures t1 == t2 && r1 == r2
  {
    SplitOnceAt(t1, '\n', r1);
    SplitOnceAt(t2, '\n', r2);
    assert t1 + "\n" + r1 == t1 + ['\n'] + r1;
    assert t2 + "\n" + r2 == t2 + ['\n'] + r2;
  }

  /**
   * The book made from a downloaded file: titled after the file's base name, its spine
   * the navigation document followed by one chapter per record in order, and its table
   * of contents those chapters.
   */
  lemma RoundTripBook(baseName: string, fetch: int -> ChapterPage, lo: int, hi: int, recordIndex: bool)
    requires '.' in baseName && lo <= hi
    requires forall n :: lo <= n < hi ==> Writable(HeaderOf(fetch, n, recordIndex), BodyOf(fetch, n))
    ensures var book := Epub(baseName, Records(fetch, lo, hi, recordIndex));
      book.Ok? && book.value.title == BookTitle(baseName).value &&
      book.value.identifier == "id" + baseName && book.value.language == "ja" &&
      |book.value.spine| == hi - lo + 1 && book.value.spine[0] == NavRef &&
      book.value.toc == book.value.spine[1..] &&
      forall k :: 0 <= k < |book.value.toc| ==>
        book.value.toc[k] == Doc(Html(HeaderOf(fetch, lo + k, recordIndex), ChapterFileName(k + 1), "ja",
                                      "<h1>" + HeaderOf(fetch, lo + k, recordIndex) + "</h1>" +
                                      BodyOf(fetch, lo + k) + "\n"))
  {
    BookTitleIsPrefix(baseName);
    RoundTrip(fetch, lo, hi, recordIndex);
  }

  // The directory

  /** Python's `s.endswith(suffix)`. */
  predicate EndsWith(s: string, suffix: string) {
    |suffix| <= |s| && s[|s| - |suffix|..] == suffix
  }

  /** The entries `convert_directory_txt_to_epub` converts, in listing order. */
  function TextFiles(entries: seq<(string, string)>): seq<(string, string)> {
    if entries == [] then []
    else
      var last := entries[|entries| - 1];
      TextFiles(entries[..|entries| - 1]) + (if EndsWith(last.0, ".txt") then [last] else [])
  }

  /** Exactly the ".txt" entries are converted, in listing order. */
  lemma {:induction false} TextFilesAreTxt(entries: seq<(string, string)>)
    ensures forall e :: e in TextFiles(entries) <==> e in entries && EndsWith(e.0, ".txt")
  {
    if entries != [] {
      var init := entries[..|entries| - 1];
      TextFilesAreTxt(init);
      assert entries == init + [entries[|entries| - 1]];
    }
  }

  /** The converted entries of a prefix of the listing come first among all converted entries. */
  lemma {:induction false} TextFilesPrefix(entries: seq<(string, string)>, i: nat)
    requires i <= |entries|
    ensures var pre, all := TextFiles(entries[..i]), TextFiles(entries);
      |pre| <= |all| && all[..|pre|] == pre
    decreases |entries| - i
  {
    if i < |entries| {
      TextFilesPrefix(entries, i + 1);
      var pre, next := TextFiles(entries[..i]), TextFiles(entries[..i + 1]);
      assert entries[..i + 1][..i] == entries[..i];
      assert next[..|pre|] == pre;
    } else {
      assert entries[..i] == entries;
    }
  }

  /** The entry of the directory that `epub.write_epub` receives for a converted text file. */
  function Output(entry: (string, string)): (string, Book)
    requires Epub(entry.0, entry.1).Ok?
  {
    (OutputName(Epub(entry.0, entry.1).value.title), Epub(entry.0, entry.1).value)
  }

  /** `written` holds the books of the entries `txts`, one each, in order. */
  predicate WrittenFor(written: seq<(string, Book)>, txts: seq<(string, string)>) {
    |written| == |txts| &&
    forall k :: 0 <= k < |written| ==> Epub(txts[k].0, txts[k].1).Ok? && written[k] == Output(txts[k])
  }

  lemma WrittenForSnoc(written: seq<(string, Book)>, txts: seq<(string, string)>, entry: (string, string))
    requires WrittenFor(written, txts) && Epub(entry.0, entry.1).Ok?
    ensures WrittenFor(written + [Output(entry)], txts + [entry])
  {
  }

  /**
   * `convert_directory_txt_to_epub` over the directory's entries (name and text) in
   * listing order: every ".txt" entry is converted and its book written, until a
   * conversion raises, which ends the loop.
   */
  method ConvertDirectory(entries: seq<(string, string)>) returns (written: seq<(string, Book)>, error: Option<ConvertError>)
    ensures var txts := TextFiles(entries);
      |written| <= |txts| && WrittenFor(written, txts[..|written|]) &&
      (error.None? <==> |written| == |txts|) &&
      (error.Some? ==> Epub(txts[|written|].0, txts[|written|].1) == Err(error.value))
  {
    written := [];
    for i := 0 to |entries|
      invariant WrittenFor(written, TextFiles(entries[..i]))
    {
      var (name, text) := entries[i];
      ghost var pre := TextFiles(entries[..i]);
      assert entries[..i + 1] == entries[..i] + [entries[i]];
      assert entries[..i + 1][..i] == entries[..i];
      if EndsWith(name, ".txt") {
        assert TextFiles(entries[..i + 1]) == pre + [(name, text)];
        var book := CreateEpubFromTxt(name, text);
        if book.Err? {
          TextFilesPrefix(entries, i + 1);
          ghost var txts := TextFiles(entries);
          assert txts[..|pre| + 1] == pre + [(name, text)];
          assert txts[|written|] == (name, text);
          assert txts[..|written|] == pre;
          return written, Some(book.error);
        }
        WrittenForSnoc(written, pre, (name, text));
        written := written + [(OutputName(book.value.title), book.value)];
      } else {
        assert TextFiles(entries[..i + 1]) == pre;
      }
    }
    assert entries[..|entries|] == entries;
    assert TextFiles(entries)[..|written|] == TextFiles(entries);
    error := None;
  }
}
