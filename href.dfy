/** The chapter number carried by a chapter link: `int(href.split('/')[-2])`. */
module Href {
  import opened Base
  import opened Text

  /** The exception the expression raises: too few segments, or a segment that is not an integer. */
  datatype HrefError = IndexError | ValueError(segment: string)

  function ChapterNumber(href: string): Result<int, HrefError> {
    var segments := Split(href, '/');
    if |segments| < 2 then Err(IndexError)
    else
      match ParseInt(segments[|segments| - 2])
      case None => Err(ValueError(segments[|segments| - 2]))
      case Some(n) => Ok(n)
  }

  /**
   * The number is read from the segment between the last two slashes, whatever comes
   * before it: every link with at least one '/' has exactly one such decomposition.
   */
  lemma SecondToLastSegment(prefix: string, segment: string, last: string)
    requires prefix == "" || prefix[|prefix| - 1] == '/'
    requires '/' !in segment && '/' !in last
    ensures ChapterNumber(prefix + segment + "/" + last) ==
              match ParseInt(segment)
              case None => Err(ValueError(segment))
              case Some(n) => Ok(n)
  {
    SegmentsEnd(prefix, segment, last);
  }

  lemma SegmentsEnd(prefix: string, segment: string, last: string)
    requires prefix == "" || prefix[|prefix| - 1] == '/'
    requires '/' !in segment && '/' !in last
    ensures var segments := Split(prefix + segment + "/" + last, '/');
      |segments| >= 2 && segments[|segments| - 2] == segment
  {
    LastTwoSegments(segment, last);
    if prefix == "" {
      assert prefix + segment + "/" + last == segment + "/" + last;
    } else {
      var front := prefix[..|prefix| - 1];
      assert prefix + segment + "/" + last == front + ['/'] + (segment + "/" + last);
      SplitAround(front, segment + "/" + last, '/');
    }
  }

  lemma LastTwoSegments(segment: string, last: string)
    requires '/' !in segment && '/' !in last
    ensures Split(segment + "/" + last, '/') == [segment, last]
  {
    SplitAround(segment, last, '/');
    SplitNoSeparator(segment, '/');
    SplitNoSeparator(last, '/');
  }

  /** A second-to-last segment without digits, such as the novel id of `/n8920ex/`, raises ValueError. */
  lemma NonNumericSegment(prefix: string, segment: string, last: string)
    requires prefix == "" || prefix[|prefix| - 1] == '/'
    requires '/' !in segment && '/' !in last
    requires forall i :: 0 <= i < |segment| ==> !IsDigit(segment[i])
    ensures ChapterNumber(prefix + segment + "/" + last) == Err(ValueError(segment))
  {
    SecondToLastSegment(prefix, segment, last);
    ParseIntNeedsDigit(segment);
  }

  /** A link without any '/' has one segment, so `[-2]` raises IndexError. */
  lemma NoSlashIsIndexError(href: string)
    requires '/' !in href
    ensures ChapterNumber(href) == Err(IndexError)
  {
    SplitNoSeparator(href, '/');
  }

  /** A chapter link as the site writes it, `.../<novel id>/<n>/`, gives back n. */
  lemma ChapterLink(prefix: string, n: int)
    requires prefix == "" || prefix[|prefix| - 1] == '/'
    ensures ChapterNumber(prefix + ShowInt(n) + "/") == Ok(n)
  {
    ParseShowInt(n);
    var s := ShowInt(n);
    assert '/' !in s by {
      if n < 0 { assert s == "-" + ShowNat(-n); }
    }
    SecondToLastSegment(prefix, s, "");
    assert prefix + s + "/" + "" == prefix + s + "/";
  }

  /** The link of the site's own example, `/n8920ex/5/`. */
  lemma ExampleLink()
    ensures ChapterNumber("/n8920ex/5/") == Ok(5)
  {
    ChapterLink("/n8920ex/", 5);
    assert "/n8920ex/" + ShowInt(5) + "/" == "/n8920ex/5/";
  }
}
