/**
 * The counting part parser, `fetch_novel_parts` in mia.py and its verbatim copy, the
 * deprecated `Syosetu.__get_novel_parts2`. It numbers chapters by counting entries:
 * each heading's part starts where the previous part ended and holds the entries met
 * before the next heading.
 */
module CountingParts {
  import opened Base
  import opened IndexPage
  import opened PartDict
  import Text

  /** How the loop treats an element. */
  datatype Kind = Heading(title: string) | Entry | Skipped

  /**
   * `find_all(['div', 'dl'], class_=['chapter_title', 'novel_sublist2'])` selects the
   * element; the loop then dispatches on its FIRST class only.
   */
  function KindOf(e: Element): Kind {
    if (e.name == "div" || e.name == "dl") &&
       ("chapter_title" in e.classes || "novel_sublist2" in e.classes)
    then
      if e.classes[0] == "chapter_title" then Heading(e.text)
      else if e.classes[0] == "novel_sublist2" then Entry
      else Skipped
    else Skipped
  }

  /** The part for the heading the loop holds, if it holds one. */
  function Close(current: Option<string>, start: int, count: nat): seq<(string, Range)> {
    if current.Some? then [(current.value, Range(start, start + count))] else []
  }

  /**
   * The assignments `parts[current_title] = range(start, start + count)` the loop makes
   * over `page`, given the loop's `current_title`, `start` and `count` before it.
   */
  function Closings(page: Page, current: Option<string>, start: int, count: nat): seq<(string, Range)> {
    if page == [] then Close(current, start, count)
    else
      match KindOf(page[0])
      case Heading(t) => Close(current, start, count) + Closings(page[1..], Some(t), start + count, 0)
      case Entry => Closings(page[1..], current, start, count + 1)
      case Skipped => Closings(page[1..], current, start, count)
  }

  /** What the parser returns. */
  function CountedParts(page: Page): Dict<Range> {
    Build(Closings(page, None, 1, 0))
  }

  method FetchNovelParts(page: Page) returns (parts: Dict<Range>)
    ensures parts == CountedParts(page)
  {
    parts := [];
    var start := 1;
    var currentTitle: Option<string> := None;
    var count: nat := 0;
    ghost var made: seq<(string, Range)> := [];
    for i := 0 to |page|
      invariant parts == Build(made)
      invariant Closings(page, None, 1, 0) == made + Closings(page[i..], currentTitle, start, count)
    {
      ClosingsStep(page, i, currentTitle, start, count);
      match KindOf(page[i]) {
        case Heading(t) =>
          Text.ConcatAssoc(made, Close(currentTitle, start, count), Closings(page[i + 1..], Some(t), start + count, 0));
          if currentTitle.Some? {
            var entry := (currentTitle.value, Range(start, start + count));
            parts := Put(parts, entry.0, entry.1);
            assert (made + [entry])[..|made|] == made;
            made := made + [entry];
          } else {
            assert made + [] == made;
          }
          currentTitle := Some(t);
          start := start + count;
          count := 0;
        case Entry =>
          count := count + 1;
        case Skipped =>
      }
    }
    assert page[|page|..] == [];
    if currentTitle.Some? {
      var entry := (currentTitle.value, Range(start, start + count));
      parts := Put(parts, entry.0, entry.1);
      assert (made + [entry])[..|made|] == made;
      made := made + [entry];
    } else {
      assert made + [] == made;
    }
  }

  /** What the loop adds for element i, and the state it goes on with. */
  lemma ClosingsStep(page: Page, i: nat, current: Option<string>, start: int, count: nat)
    requires i < |page|
    ensures Closings(page[i..], current, start, count) ==
      match KindOf(page[i])
      case Heading(t) => Close(current, start, count) + Closings(page[i + 1..], Some(t), start + count, 0)
      case Entry => Closings(page[i + 1..], current, start, count + 1)
      case Skipped => Closings(page[i + 1..], current, start, count)
  {
    assert page[i..][1..] == page[i + 1..];
  }

  /** The number of entries before the first heading. */
  function Lead(page: Page): nat {
    if page == [] then 0
    else
      match KindOf(page[0])
      case Heading(_) => 0
      case Entry => 1 + Lead(page[1..])
      case Skipped => Lead(page[1..])
  }

  /** The number of entries. */
  function Entries(page: Page): nat {
    if page == [] then 0 else (if KindOf(page[0]).Entry? then 1 else 0) + Entries(page[1..])
  }

  /** Each heading's title with the number of entries between it and the next heading. */
  function Groups(page: Page): seq<(string, nat)> {
    if page == [] then []
    else
      match KindOf(page[0])
      case Heading(t) => [(t, Lead(page[1..]))] + Groups(page[1..])
      case _ => Groups(page[1..])
  }

  function Total(groups: seq<(string, nat)>): nat {
    if groups == [] then 0 else groups[0].1 + Total(groups[1..])
  }

  /** Ranges of the groups' lengths laid end to end from `start`. */
  function Lay(groups: seq<(string, nat)>, start: int): seq<(string, Range)> {
    if groups == [] then []
    else [(groups[0].0, Range(start, start + groups[0].1))] + Lay(groups[1..], start + groups[0].1)
  }

  /**
   * The assignments the loop makes from `page` on are the heading groups laid end to
   * end, led by the part it holds; entries before the first heading extend that part.
   */
  predicate LaidOut(page: Page, current: Option<string>, start: int, count: nat) {
    Closings(page, current, start, count) ==
      if current.Some? then Lay([(current.value, count + Lead(page))] + Groups(page), start)
      else Lay(Groups(page), start + count + Lead(page))
  }

  /** The loop lays the heading groups end to end; leading entries shift the first start. */
  lemma {:induction false} ClosingsAreLaidOut(page: Page, current: Option<string>, start: int, count: nat)
    ensures LaidOut(page, current, start, count)
  {
    if page != [] {
      var rest := page[1..];
      match KindOf(page[0]) {
        case Heading(t) =>
          ClosingsAreLaidOut(rest, Some(t), start + count, 0);
          LaidOutHeading(page, current, start, count, t);
        case Entry =>
          ClosingsAreLaidOut(rest, current, start, count + 1);
        case Skipped =>
          ClosingsAreLaidOut(rest, current, start, count);
      }
    }
  }

  /** A heading closes the part the loop holds and opens its own group. */
  lemma LaidOutHeading(page: Page, current: Option<string>, start: int, count: nat, t: string)
    requires page != [] && KindOf(page[0]) == Heading(t)
    requires LaidOut(page[1..], Some(t), start + count, 0)
    ensures LaidOut(page, current, start, count)
  {
    var rest := page[1..];
    var groups := [(t, Lead(rest))] + Groups(rest);
    assert Groups(page) == groups;
    assert Closings(page, current, start, count) == Close(current, start, count) + Lay(groups, start + count);
    if current.Some? {
      var g := [(current.value, count)] + groups;
      assert g[1..] == groups;
    }
  }

  /** Entries before the first heading plus those under the headings are all the entries. */
  lemma {:induction false} EntriesAreGrouped(page: Page)
    ensures Lead(page) + Total(Groups(page)) == Entries(page)
  {
    if page != [] {
      EntriesAreGrouped(page[1..]);
      match KindOf(page[0]) {
        case Heading(t) =>
          assert Groups(page)[1..] == Groups(page[1..]);
        case Entry =>
        case Skipped =>
      }
    }
  }

  /** Laid-out ranges: one per group, of the group's length, each starting where the previous ended. */
  lemma {:induction false} LayIsAdjacent(groups: seq<(string, nat)>, start: int)
    ensures var ev := Lay(groups, start);
      |ev| == |groups| &&
      (forall k :: 0 <= k < |ev| ==> ev[k].0 == groups[k].0 && ev[k].1.hi - ev[k].1.lo == groups[k].1) &&
      (ev != [] ==> ev[0].1.lo == start && ev[|ev| - 1].1.hi == start + Total(groups)) &&
      (forall k :: 0 <= k < |ev| - 1 ==> ev[k].1.hi == ev[k + 1].1.lo)
  {
    if groups != [] {
      var rest := Lay(groups[1..], start + groups[0].1);
      LayIsAdjacent(groups[1..], start + groups[0].1);
      var ev := Lay(groups, start);
      assert ev[1..] == rest;
      forall k | 0 <= k < |ev| ensures ev[k].0 == groups[k].0 && ev[k].1.hi - ev[k].1.lo == groups[k].1 {
        if k > 0 { assert ev[k] == rest[k - 1] && groups[k] == groups[1..][k - 1]; }
      }
      forall k | 0 <= k < |ev| - 1 ensures ev[k].1.hi == ev[k + 1].1.lo {
        if k > 0 { assert ev[k] == rest[k - 1] && ev[k + 1] == rest[k]; }
      }
    }
  }

  /**
   * The parts the loop assigns, in heading order: one per heading, the first starting
   * after the entries that precede every heading, each as long as the entries before
   * the next heading, each starting where the previous ended, the last ending after
   * the last entry.
   */
  lemma CountedRanges(page: Page)
    ensures var ev, groups := Closings(page, None, 1, 0), Groups(page);
      |ev| == |groups| &&
      (forall k :: 0 <= k < |ev| ==> ev[k].0 == groups[k].0 && ev[k].1.hi - ev[k].1.lo == groups[k].1) &&
      (ev != [] ==> ev[0].1.lo == 1 + Lead(page) && ev[|ev| - 1].1.hi == 1 + Entries(page)) &&
      (forall k :: 0 <= k < |ev| - 1 ==> ev[k].1.hi == ev[k + 1].1.lo)
  {
    ClosingsAreLaidOut(page, None, 1, 0);
    LayIsAdjacent(Groups(page), 1 + Lead(page));
    EntriesAreGrouped(page);
  }

  /** With pairwise different heading titles the dict holds exactly those ranges, in order. */
  lemma CountedPartsOfDistinctTitles(page: Page)
    requires DistinctKeys(Closings(page, None, 1, 0))
    ensures CountedParts(page) == Closings(page, None, 1, 0)
  {
    BuildOfDistinct(Closings(page, None, 1, 0));
  }

  /** A page without headings has no parts, whatever entries it has. */
  lemma NoHeadingsNoParts(page: Page)
    requires forall i :: 0 <= i < |page| ==> !KindOf(page[i]).Heading?
    ensures CountedParts(page) == []
  {
    NoHeadingsNoGroups(page);
    ClosingsAreLaidOut(page, None, 1, 0);
  }

  lemma {:induction false} NoHeadingsNoGroups(page: Page)
    requires forall i :: 0 <= i < |page| ==> !KindOf(page[i]).Heading?
    ensures Groups(page) == []
  {
    if page != [] {
      assert forall i :: 0 <= i < |page| - 1 ==> page[1..][i] == page[i + 1];
      NoHeadingsNoGroups(page[1..]);
    }
  }
}
