/**
 * The novel's index page, as the parsers see it: the sequence of sibling elements of
 * the chapter list, in document order.
 */
module IndexPage {
  import opened Base

  /**
   * One sibling element, summarised: its tag name, its class list, its
   * `get_text(strip=True)`, the href of the first `<a href>` inside it
   * (`find('a', href=True)`), and the number of `<dd>` elements in its subtree,
   * itself included.
   */
  datatype Element = Element(name: string, classes: seq<string>, text: string,
                             link: Option<string>, ddCount: nat)

  type Page = seq<Element>

  /** `len(find_all("dd"))`. */
  function DdCount(page: Page): nat {
    if page == [] then 0 else DdCount(page[..|page| - 1]) + page[|page| - 1].ddCount
  }

  /** The chapters of a novel without parts: `range(1, len(find_all("dd")) + 1)`. */
  function FlatRange(page: Page): (r: Range)
    ensures forall n :: r.Contains(n) <==> 1 <= n <= DdCount(page)
  {
    Range(1, DdCount(page) + 1)
  }

  /** The dd elements of a page are those of its first siblings plus those of the rest. */
  lemma {:induction false} DdCountAppend(a: Page, b: Page)
    ensures DdCount(a + b) == DdCount(a) + DdCount(b)
    decreases |b|
  {
    if b == [] {
      assert a + b == a;
    } else {
      var init := b[..|b| - 1];
      DdCountAppend(a, init);
      assert (a + b)[..|a + b| - 1] == a + init;
    }
  }
}
