/**
 * The sibling-walk part parsers: `Syosetu.__get_novel_parts` (current layout) and
 * `fetch_novel_parts2` (older layout). For every heading they walk the following
 * siblings, collect the chapter number of each entry's link, and record
 * `chapters[title] = range(min(numbers), max(numbers) + 1)` when there is any number.
 */
module SiblingWalk {
  import opened Base
  import opened Href
  import opened IndexPage
  import opened PartDict

  /** The site's two index layouts, which differ in selectors and in where a walk stops. */
  datatype Layout = Current | Legacy

  /** The headings `find_all('div', class_=...)` returns. */
  predicate IsHeading(layout: Layout, e: Element) {
    e.name == "div" &&
    (if layout == Current then "p-eplist__chapter-title" else "chapter_title") in e.classes
  }

  /**
   * Whether the walk goes on over sibling `e`: the current layout walks over sublist
   * divs only, the older layout over everything that is not a div.
   */
  predicate Continues(layout: Layout, e: Element) {
    match layout
    case Current => e.name == "div" && "p-eplist__sublist" in e.classes
    case Legacy => e.name != "div"
  }

  /** The link a sibling the walk passes over contributes a number from, if any. */
  function LinkOf(layout: Layout, e: Element): Option<string> {
    match layout
    case Current => e.link
    case Legacy => if e.name == "dl" && "novel_sublist2" in e.classes then e.link else None
  }

  /** The chapter numbers the walk that starts at sibling `j` collects, or the exception it raises. */
  function Walk(layout: Layout, page: Page, j: nat): Result<seq<int>, HrefError>
    decreases |page| - j
  {
    if j >= |page| || !Continues(layout, page[j]) then Ok([])
    else
      match LinkOf(layout, page[j])
      case None => Walk(layout, page, j + 1)
      case Some(href) =>
        match ChapterNumber(href)
        case Err(e) => Err(e)
        case Ok(n) => Cons([n], Walk(layout, page, j + 1))
  }

  function Min(ns: seq<int>): int
    requires ns != []
  {
    if |ns| == 1 then ns[0] else var m := Min(ns[1..]); if ns[0] <= m then ns[0] else m
  }

  function Max(ns: seq<int>): int
    requires ns != []
  {
    if |ns| == 1 then ns[0] else var m := Max(ns[1..]); if ns[0] >= m then ns[0] else m
  }

  /** `range(min(ns), max(ns) + 1)`. */
  function Span(ns: seq<int>): Range
    requires ns != []
  {
    Range(Min(ns), Max(ns) + 1)
  }

  /** The span of some numbers is the smallest range that holds them all. */
  lemma {:induction false} SpanOf(ns: seq<int>)
    requires ns != []
    ensures Span(ns).lo in ns && Span(ns).hi - 1 in ns
    ensures forall n :: n in ns ==> Span(ns).Contains(n)
  {
    if |ns| > 1 {
      SpanOf(ns[1..]);
      assert forall n :: n in ns ==> n == ns[0] || n in ns[1..];
    }
  }

  /** The assignments `chapters[title] = range(...)` the parser makes for the headings from sibling `i` on. */
  function Events(layout: Layout, page: Page, i: nat): Result<seq<(string, Range)>, HrefError>
    decreases |page| - i
  {
    if i >= |page| then Ok([])
    else if !IsHeading(layout, page[i]) then Events(layout, page, i + 1)
    else
      match Walk(layout, page, i + 1)
      case Err(e) => Err(e)
      case Ok(ns) =>
        if ns == [] then Events(layout, page, i + 1)
        else Cons([(page[i].text, Span(ns))], Events(layout, page, i + 1))
  }

  /** What the parser returns: the dict the assignments build, or the exception it raises. */
  function NovelParts(layout: Layout, page: Page): Result<Dict<Range>, HrefError> {
    match Events(layout, page, 0)
    case Ok(ev) => Ok(Build(ev))
    case Err(e) => Err(e)
  }

  method GetNovelParts(layout: Layout, page: Page) returns (r: Result<Dict<Range>, HrefError>)
    ensures r == NovelParts(layout, page)
  {
    ConsNil(Events(layout, page, 0));
    var chapters: Dict<Range> := [];
    ghost var made: seq<(string, Range)> := [];
    var i := 0;
    while i < |page|
      invariant 0 <= i <= |page|
      invariant chapters == Build(made)
      invariant Events(layout, page, 0) == Cons(made, Events(layout, page, i))
    {
      if IsHeading(layout, page[i]) {
        var chapterTitle := page[i].text;
        var chapterNumbers := CollectChapterNumbers(layout, page, i + 1);
        if chapterNumbers.Err? {
          return Err(chapterNumbers.error);
        }
        if chapterNumbers.value != [] {
          var entry := (chapterTitle, Span(chapterNumbers.value));
          ConsCons(made, [entry], Events(layout, page, i + 1));
          chapters := Put(chapters, entry.0, entry.1);
          assert (made + [entry])[..|made|] == made;
          made := made + [entry];
        }
      }
      i := i + 1;
    }
    assert made + [] == made;
    return Ok(chapters);
  }

  /** The inner loop of the parsers: walk the siblings from `start` and collect chapter numbers. */
  method CollectChapterNumbers(layout: Layout, page: Page, start: nat) returns (r: Result<seq<int>, HrefError>)
    ensures r == Walk(layout, page, start)
  {
    var chapterNumbers: seq<int> := [];
    var j := start;
    ConsNil(Walk(layout, page, j));
    while j < |page| && Continues(layout, page[j])
      invariant start <= j
      invariant Walk(layout, page, start) == Cons(chapterNumbers, Walk(layout, page, j))
      decreases |page| - j
    {
      var link := LinkOf(layout, page[j]);
      if link.Some? {
        var chapterNumber := ChapterNumber(link.value);
        if chapterNumber.Err? {
          return Err(chapterNumber.error);
        }
        ConsCons(chapterNumbers, [chapterNumber.value], Walk(layout, page, j + 1));
        chapterNumbers := chapterNumbers + [chapterNumber.value];
      }
      j := j + 1;
    }
    assert chapterNumbers + [] == chapterNumbers;
    return Ok(chapterNumbers);
  }

  /** Heading `h` is one the parser records: its walk collects at least one number. */
  predicate Recorded(layout: Layout, page: Page, h: int) {
    0 <= h < |page| && IsHeading(layout, page[h]) &&
    Walk(layout, page, h + 1).Ok? && Walk(layout, page, h + 1).value != []
  }

  /** The assignment the parser makes for a recorded heading. */
  function Assignment(layout: Layout, page: Page, h: int): (string, Range)
    requires Recorded(layout, page, h)
  {
    (page[h].text, Span(Walk(layout, page, h + 1).value))
  }

  /** The recorded headings from sibling `i` on, in document order. */
  ghost function Recordings(layout: Layout, page: Page, i: nat): seq<int>
    decreases |page| - i
  {
    if i >= |page| then []
    else if Recorded(layout, page, i) then [i] + Recordings(layout, page, i + 1)
    else Recordings(layout, page, i + 1)
  }

  /** `hs` lists every recorded heading from sibling `i` on, each once, in document order. */
  ghost predicate ListsRecorded(layout: Layout, page: Page, i: nat, hs: seq<int>) {
    (forall k :: 0 <= k < |hs| ==> i <= hs[k] && Recorded(layout, page, hs[k])) &&
    (forall k, l :: 0 <= k < l < |hs| ==> hs[k] < hs[l]) &&
    (forall h :: i <= h && Recorded(layout, page, h) ==> h in hs)
  }

  /** `ev` are the assignments of the recorded headings `hs`, one for one. */
  ghost predicate Matches(layout: Layout, page: Page, ev: seq<(string, Range)>, hs: seq<int>) {
    |ev| == |hs| &&
    forall k :: 0 <= k < |hs| ==> Recorded(layout, page, hs[k]) && ev[k] == Assignment(layout, page, hs[k])
  }

  /** Recordings lists every recorded heading from sibling `i` on, each once, in document order. */
  lemma {:induction false} RecordingsAscending(layout: Layout, page: Page, i: nat)
    ensures ListsRecorded(layout, page, i, Recordings(layout, page, i))
    decreases |page| - i
  {
    if i < |page| {
      RecordingsAscending(layout, page, i + 1);
      if Recorded(layout, page, i) {
        ListsRecordedCons(layout, page, i, Recordings(layout, page, i + 1));
      } else {
        ListsRecordedSkip(layout, page, i, Recordings(layout, page, i + 1));
      }
    }
  }

  lemma ListsRecordedCons(layout: Layout, page: Page, i: nat, hs: seq<int>)
    requires Recorded(layout, page, i) && ListsRecorded(layout, page, i + 1, hs)
    ensures ListsRecorded(layout, page, i, [i] + hs)
  {
    var hs' := [i] + hs;
    forall k | 0 < k < |hs'|
      ensures hs'[k] == hs[k - 1]
    {
    }
    forall h | i <= h && Recorded(layout, page, h)
      ensures h in hs'
    {
      if h != i {
        assert h in hs;
      }
    }
  }

  lemma ListsRecordedSkip(layout: Layout, page: Page, i: nat, hs: seq<int>)
    requires !Recorded(layout, page, i) && ListsRecorded(layout, page, i + 1, hs)
    ensures ListsRecorded(layout, page, i, hs)
  {
    forall h | i <= h && Recorded(layout, page, h)
      ensures h in hs
    {
      assert h != i;
    }
  }

  /** A recorded heading after `hs[j]` is listed after position `j`. */
  lemma LaterIndex(layout: Layout, page: Page, hs: seq<int>, j: nat, h: int)
    requires ListsRecorded(layout, page, 0, hs) && j < |hs|
    requires hs[j] < h && Recorded(layout, page, h)
    ensures exists l :: j < l < |hs| && hs[l] == h
  {
    assert h in hs;
    var l :| 0 <= l < |hs| && hs[l] == h;
    assert forall k :: 0 <= k < j ==> hs[k] < hs[j];
  }

  /** The assignments are those of the recorded headings, in document order. */
  lemma {:induction false} EventsAreRecordings(layout: Layout, page: Page, i: nat)
    requires Events(layout, page, i).Ok?
    ensures Matches(layout, page, Events(layout, page, i).value, Recordings(layout, page, i))
    decreases |page| - i
  {
    if i < |page| {
      EventsStep(layout, page, i);
      EventsAreRecordings(layout, page, i + 1);
      var ev, hs := Events(layout, page, i + 1).value, Recordings(layout, page, i + 1);
      if Recorded(layout, page, i) {
        MatchesCons(layout, page, i, ev, hs);
      }
    }
  }

  /** A recorded heading in front of matching lists keeps them matching. */
  lemma MatchesCons(layout: Layout, page: Page, h: int, ev: seq<(string, Range)>, hs: seq<int>)
    requires Recorded(layout, page, h) && Matches(layout, page, ev, hs)
    ensures Matches(layout, page, [Assignment(layout, page, h)] + ev, [h] + hs)
  {
    var ev', hs' := [Assignment(layout, page, h)] + ev, [h] + hs;
    forall k | 0 <= k < |hs'|
      ensures Recorded(layout, page, hs'[k]) && ev'[k] == Assignment(layout, page, hs'[k])
    {
      if k > 0 {
        assert hs'[k] == hs[k - 1] && ev'[k] == ev[k - 1];
      }
    }
  }

  /** One sibling's share of the assignments. */
  lemma EventsStep(layout: Layout, page: Page, i: nat)
    requires i < |page| && Events(layout, page, i).Ok?
    ensures Events(layout, page, i + 1).Ok?
    ensures Events(layout, page, i).value ==
              (if Recorded(layout, page, i) then [Assignment(layout, page, i)] else []) +
              Events(layout, page, i + 1).value
  {
    var rest := Events(layout, page, i + 1);
    if !Recorded(layout, page, i) {
      assert [] + rest.value == rest.value;
    }
  }

  /** What the parser returns when it succeeds. */
  lemma NovelPartsValue(layout: Layout, page: Page)
    requires NovelParts(layout, page).Ok?
    ensures Events(layout, page, 0).Ok?
    ensures NovelParts(layout, page).value == Build(Events(layout, page, 0).value)
    ensures Matches(layout, page, Events(layout, page, 0).value, Recordings(layout, page, 0))
    ensures ListsRecorded(layout, page, 0, Recordings(layout, page, 0))
  {
    EventsAreRecordings(layout, page, 0);
    RecordingsAscending(layout, page, 0);
  }

  /**
   * Every part's range is `[min, max + 1)` of the numbers under the LAST heading with
   * that title that has any numbers: a later heading with the same title overwrites.
   */
  lemma PartRange(layout: Layout, page: Page, p: nat)
    requires NovelParts(layout, page).Ok? && p < |NovelParts(layout, page).value|
    ensures var part := NovelParts(layout, page).value[p];
      exists h :: Recorded(layout, page, h) && page[h].text == part.0 &&
                  part.1 == Span(Walk(layout, page, h + 1).value) &&
                  forall h' :: h < h' && Recorded(layout, page, h') ==> page[h'].text != part.0
  {
    NovelPartsValue(layout, page);
    LastAssignment(layout, page, Events(layout, page, 0).value, Recordings(layout, page, 0), p);
  }

  /** PartRange over any assignments that match the recorded headings. */
  lemma LastAssignment(layout: Layout, page: Page, ev: seq<(string, Range)>, hs: seq<int>, p: nat)
    requires Matches(layout, page, ev, hs) && ListsRecorded(layout, page, 0, hs)
    requires p < |Build(ev)|
    ensures var part := Build(ev)[p];
      exists h :: Recorded(layout, page, h) && page[h].text == part.0 &&
                  part.1 == Span(Walk(layout, page, h + 1).value) &&
                  forall h' :: h < h' && Recorded(layout, page, h') ==> page[h'].text != part.0
  {
    BuildValueIsLast(ev, p);
    var j :| 0 <= j < |ev| && ev[j] == Build(ev)[p] &&
             forall j' :: j < j' < |ev| ==> ev[j'].0 != ev[j].0;
    var h := hs[j];
    assert ev[j] == Assignment(layout, page, h);
    forall h' | h < h' && Recorded(layout, page, h')
      ensures page[h'].text != ev[j].0
    {
      LaterIndex(layout, page, hs, j, h');
      var l :| j < l < |hs| && hs[l] == h';
      assert ev[l].0 == page[h'].text;
    }
    AssignmentParts(layout, page, h, ev[j]);
  }

  /** The title and the range of a recorded heading's assignment. */
  lemma AssignmentParts(layout: Layout, page: Page, h: int, a: (string, Range))
    requires Recorded(layout, page, h) && a == Assignment(layout, page, h)
    ensures page[h].text == a.0 && a.1 == Span(Walk(layout, page, h + 1).value)
  {
  }

  /** A title is a part exactly when some heading with that title has a numbered entry. */
  lemma PartTitles(layout: Layout, page: Page, title: string)
    requires NovelParts(layout, page).Ok?
    ensures HasKey(NovelParts(layout, page).value, title) <==>
              exists h :: Recorded(layout, page, h) && page[h].text == title
  {
    NovelPartsValue(layout, page);
    AssignedTitles(layout, page, Events(layout, page, 0).value, Recordings(layout, page, 0), title);
  }

  /** PartTitles over any assignments that match the recorded headings. */
  lemma AssignedTitles(layout: Layout, page: Page, ev: seq<(string, Range)>, hs: seq<int>, title: string)
    requires Matches(layout, page, ev, hs) && ListsRecorded(layout, page, 0, hs)
    ensures HasKey(Build(ev), title) <==> exists h :: Recorded(layout, page, h) && page[h].text == title
  {
    BuildKeys(ev, title);
    if exists j :: 0 <= j < |ev| && ev[j].0 == title {
      var j :| 0 <= j < |ev| && ev[j].0 == title;
      assert Recorded(layout, page, hs[j]) && page[hs[j]].text == title;
    }
    if exists h :: Recorded(layout, page, h) && page[h].text == title {
      var h :| Recorded(layout, page, h) && page[h].text == title;
      var k :| 0 <= k < |hs| && hs[k] == h;
      assert ev[k].0 == title;
    }
  }

  /**
   * Parts are in the order of the first recorded heading of each title: every
   * heading recorded for a later part comes after one recorded for each earlier part.
   */
  lemma PartOrder(layout: Layout, page: Page, p: nat, q: nat, h: int)
    requires NovelParts(layout, page).Ok?
    requires p < q < |NovelParts(layout, page).value|
    requires Recorded(layout, page, h) && page[h].text == NovelParts(layout, page).value[q].0
    ensures exists h' :: h' < h && Recorded(layout, page, h') &&
                         page[h'].text == NovelParts(layout, page).value[p].0
  {
    NovelPartsValue(layout, page);
    var ev := Events(layout, page, 0).value;
    var hs := Recordings(layout, page, 0);
    var j :| 0 <= j < |hs| && hs[j] == h;
    BuildOrder(ev, p, q, j);
    var i :| 0 <= i < j && ev[i].0 == Build(ev)[p].0;
    assert hs[i] < h && Recorded(layout, page, hs[i]);
  }

  /** A page without headings has no parts, whatever links it holds. */
  lemma WithoutHeadings(layout: Layout, page: Page)
    requires forall k :: 0 <= k < |page| ==> !IsHeading(layout, page[k])
    ensures NovelParts(layout, page) == Ok([])
  {
    NoHeadingsNoEvents(layout, page, 0);
  }

  lemma {:induction false} NoHeadingsNoEvents(layout: Layout, page: Page, i: nat)
    requires forall k :: i <= k < |page| ==> !IsHeading(layout, page[k])
    ensures Events(layout, page, i) == Ok([])
    decreases |page| - i
  {
    if i < |page| {
      NoHeadingsNoEvents(layout, page, i + 1);
    }
  }

  /** The first sibling at or after `j` at which the walk stops. */
  function RunEnd(layout: Layout, page: Page, j: nat): (e: nat)
    requires j <= |page|
    ensures j <= e <= |page|
    ensures e < |page| ==> !Continues(layout, page[e])
    ensures forall k :: j <= k < e ==> Continues(layout, page[k])
    decreases |page| - j
  {
    if j == |page| || !Continues(layout, page[j]) then j else RunEnd(layout, page, j + 1)
  }

  /** The numbers of the links among `es`, in order, or the exception the first bad link raises. */
  function Numbers(layout: Layout, es: seq<Element>): Result<seq<int>, HrefError> {
    if es == [] then Ok([])
    else
      var rest := Numbers(layout, es[1..]);
      match LinkOf(layout, es[0])
      case None => rest
      case Some(href) =>
        match ChapterNumber(href)
        case Err(e) => Err(e)
        case Ok(n) => Cons([n], rest)
  }

  /**
   * The walk collects the link numbers of exactly the run of siblings the walk goes
   * over, and stops at the first sibling it does not go over.
   */
  lemma {:induction false} WalkIsRun(layout: Layout, page: Page, j: nat)
    requires j <= |page|
    ensures Walk(layout, page, j) == Numbers(layout, page[j..RunEnd(layout, page, j)])
    decreases |page| - j
  {
    var e := RunEnd(layout, page, j);
    if j < e {
      WalkIsRun(layout, page, j + 1);
      assert page[j..e][1..] == page[j + 1..e];
    }
  }
}
