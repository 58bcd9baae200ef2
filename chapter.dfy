/**
 * One chapter: the normalisation of the title and body read from its page
 * (`__get_chapter_title_content`, `get_title_content`) and the two-line record the
 * downloaders write for it (`__async_save_txt`, the loops of mia.py's `main`).
 */
module Chapter {
  import opened Text

  /** U+3000, the full-width space the site pads titles and bodies with. */
  const IDEOGRAPHIC_SPACE: char := '\U{3000}'

  /** "● ", the marker that opens every record. */
  const MARKER: string := "\U{25CF} "

  /** The `.text` of the chapter page's title node and body node, before normalisation. */
  datatype ChapterPage = ChapterPage(title: string, content: string)

  /** `title.replace("　", " ")`. */
  function NormalizeTitle(s: string): (r: string)
    ensures |r| == |s| && IDEOGRAPHIC_SPACE !in r
    ensures forall i :: 0 <= i < |s| ==> r[i] == if s[i] == IDEOGRAPHIC_SPACE then ' ' else s[i]
  {
    if s == [] then []
    else [if s[0] == IDEOGRAPHIC_SPACE then ' ' else s[0]] + NormalizeTitle(s[1..])
  }

  /** `content.replace("　", "")`. */
  function NormalizeBody(s: string): (r: string)
    ensures IDEOGRAPHIC_SPACE !in r
    ensures |r| <= |s|
  {
    if s == [] then []
    else Kept(s[0]) + NormalizeBody(s[1..])
  }

  /** What deletion leaves of one character. */
  function Kept(c: char): string {
    if c == IDEOGRAPHIC_SPACE then [] else [c]
  }

  /** Deleting works piece by piece, so every other character keeps its place in the order. */
  lemma {:induction false} NormalizeBodyAppend(a: string, b: string)
    ensures NormalizeBody(a + b) == NormalizeBody(a) + NormalizeBody(b)
  {
    if a == [] {
      assert a + b == b;
    } else {
      calc {
        NormalizeBody(a + b);
        { assert (a + b)[0] == a[0] && (a + b)[1..] == a[1..] + b; }
        Kept(a[0]) + NormalizeBody(a[1..] + b);
        { NormalizeBodyAppend(a[1..], b); }
        Kept(a[0]) + (NormalizeBody(a[1..]) + NormalizeBody(b));
        NormalizeBody(a) + NormalizeBody(b);
      }
    }
  }

  /** A text without full-width spaces is left as it is. */
  lemma {:induction false} NormalizeBodyKeeps(s: string)
    requires IDEOGRAPHIC_SPACE !in s
    ensures NormalizeBody(s) == s
  {
    if s != [] {
      NormalizeBodyKeeps(s[1..]);
      assert [s[0]] + s[1..] == s;
    }
  }

  /** Every character other than U+3000 occurs as often as before. */
  lemma {:induction false} NormalizeBodyCounts(s: string, c: char)
    requires c != IDEOGRAPHIC_SPACE
    ensures multiset(NormalizeBody(s))[c] == multiset(s)[c]
  {
    if s != [] {
      NormalizeBodyCounts(s[1..], c);
      assert s == [s[0]] + s[1..];
    }
  }

  /** The header line a record starts with, after the marker. */
  function Header(title: string, index: int, recordIndex: bool): string {
    title + (if recordIndex then " [\U{7DCF}\U{7B2C}" + ShowInt(index) + "\U{8A71}]" else "")
  }

  /** `f"● {title}\n"` (or `f"● {title} [総第{index}話]\n"`) followed by `f"{content}\n"`. */
  function Record(title: string, content: string, index: int, recordIndex: bool): string {
    MARKER + Header(title, index, recordIndex) + "\n" + content + "\n"
  }

  /** The record written for chapter `index` fetched as `page`. */
  function RecordOf(page: ChapterPage, index: int, recordIndex: bool): string {
    Record(NormalizeTitle(page.title), NormalizeBody(page.content), index, recordIndex)
  }

  /** The text written for chapters lo, lo + 1, ..., hi - 1 in ascending order, each fetched by `fetch`. */
  function Records(fetch: int -> ChapterPage, lo: int, hi: int, recordIndex: bool): string
    decreases hi - lo
  {
    if hi <= lo then ""
    else Records(fetch, lo, hi - 1, recordIndex) + RecordOf(fetch(hi - 1), hi - 1, recordIndex)
  }
}
