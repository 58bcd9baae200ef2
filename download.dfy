/**
 * The download loops: `Syosetu.async_download` with `async_save` and `__async_save_txt`
 * in syosetu.py, and the body of `main` in mia.py. The novel's directory is a map from
 * file name to file content; chapter pages come from a `fetch` parameter standing for
 * the HTTP request and the page lookups.
 */
module Download {
  import opened Base
  import opened PartDict
  import opened Href
  import opened IndexPage
  import opened SiblingWalk
  import opened Chapter

  /** The novel's output directory: file name to file content. */
  class Directory {
    var files: map<string, string>

    constructor ()
      ensures files == map[]
    {
      files := map[];
    }

    /** `rmtree` followed by `makedirs`/`mkdir`: the directory exists and is empty. */
    method Clear()
      modifies this
      ensures files == map[]
    {
      files := map[];
    }

    /** `open(name, "w")`: creates the file, or truncates it. */
    method Create(name: string)
      modifies this
      ensures files == old(files)[name := ""]
    {
      files := files[name := ""];
    }

    /** A write through a handle opened with "a+" or "w": creates the file if needed and appends. */
    method Append(name: string, text: string)
      modifies this
      ensures files == old(files)[name := (if name in old(files) then old(files)[name] else "") + text]
    {
      var before := if name in files then files[name] else "";
      files := files[name := before + text];
    }
  }

  /**
   * How a part's file is opened: syosetu.py opens it with "a+" for every record, so the
   * file exists only once a record is written; mia.py opens it once with "w" before the
   * first chapter, so it exists even for an empty range.
   */
  datatype FileMode = AppendMode | WriteMode

  /** The file a part is written to, `f"{title}.txt"` inside the novel's directory. */
  function FileName(title: string): string {
    title + ".txt"
  }

  /** The directory after writing the part `part` into file `name`, which did not exist before. */
  function Saved(files: map<string, string>, name: string, part: Range, fetch: int -> ChapterPage,
                 recordIndex: bool, mode: FileMode): map<string, string>
  {
    if mode == AppendMode && part.hi <= part.lo then files
    else files[name := Records(fetch, part.lo, part.hi, recordIndex)]
  }

  /** The directory after the parts are written in dict order, starting from an empty directory. */
  function Written(parts: Dict<Range>, fetch: int -> ChapterPage, recordIndex: bool, mode: FileMode): map<string, string>
  {
    if parts == [] then map[]
    else
      var last := parts[|parts| - 1];
      Saved(Written(parts[..|parts| - 1], fetch, recordIndex, mode), FileName(last.0), last.1, fetch, recordIndex, mode)
  }

  /** What is downloaded: the parts, or the whole novel as one part named after it when there are none. */
  function Plan(parts: Dict<Range>, page: Page, novelTitle: string): Dict<Range> {
    if |parts| != 0 then parts else [(novelTitle, FlatRange(page))]
  }

  /** The text of file `name`, empty when there is no such file. */
  function Content(files: map<string, string>, name: string): string {
    if name in files then files[name] else ""
  }

  /** `__async_save_txt`: one chapter's header line and then its content line appended to the part's file. */
  method SaveRecord(dir: Directory, name: string, title: string, content: string, index: int, recordIndex: bool)
    modifies dir
    ensures dir.files == old(dir.files)[name := Content(old(dir.files), name) + Record(title, content, index, recordIndex)]
  {
    ghost var before := Content(dir.files, name);
    var headerLine := MARKER + Header(title, index, recordIndex) + "\n";
    dir.Append(name, headerLine);
    dir.Append(name, content + "\n");
    assert before + headerLine + (content + "\n") == before + Record(title, content, index, recordIndex);
  }

  /** The loop over `range(lo, hi)` for one part, written in ascending chapter order. */
  method SavePart(dir: Directory, name: string, part: Range, fetch: int -> ChapterPage,
                  recordIndex: bool, mode: FileMode)
    requires name !in dir.files
    modifies dir
    ensures dir.files == Saved(old(dir.files), name, part, fetch, recordIndex, mode)
  {
    if mode == WriteMode {
      dir.Create(name);
    }
    var n := part.lo;
    while n < part.hi
      invariant part.lo <= n && (n <= part.hi || n == part.lo)
      invariant dir.files == Saved(old(dir.files), name, Range(part.lo, n), fetch, recordIndex, mode)
      decreases part.hi - n
    {
      var page := fetch(n);
      var title, content := NormalizeTitle(page.title), NormalizeBody(page.content);
      SavedStep(old(dir.files), name, part.lo, n, fetch, recordIndex, mode, dir.files);
      SaveRecord(dir, name, title, content, n, recordIndex);
      n := n + 1;
    }
  }

  /**
   * Appending chapter n's record to the directory holding chapters lo .. n - 1 of the
   * part gives the one holding chapters lo .. n.
   */
  lemma SavedStep(files: map<string, string>, name: string, lo: int, n: int,
                  fetch: int -> ChapterPage, recordIndex: bool, mode: FileMode, cur: map<string, string>)
    requires name !in files && lo <= n
    requires cur == Saved(files, name, Range(lo, n), fetch, recordIndex, mode)
    ensures cur[name := Content(cur, name) + RecordOf(fetch(n), n, recordIndex)] ==
              Saved(files, name, Range(lo, n + 1), fetch, recordIndex, mode)
  {
    var r := Records(fetch, lo, n, recordIndex);
    if mode == AppendMode && n <= lo {
      assert cur == files && r == "";
    } else {
      assert cur == files[name := r];
    }
  }

  /** The outer loop: the parts in dict order, each into its own file. */
  method DownloadParts(dir: Directory, parts: Dict<Range>, fetch: int -> ChapterPage,
                       recordIndex: bool, mode: FileMode)
    requires DistinctKeys(parts) && dir.files == map[]
    modifies dir
    ensures dir.files == Written(parts, fetch, recordIndex, mode)
  {
    for i := 0 to |parts|
      invariant dir.files == Written(parts[..i], fetch, recordIndex, mode)
    {
      assert parts[..i + 1][..i] == parts[..i];
      WrittenNames(parts[..i], fetch, recordIndex, mode);
      FileNameInjective(parts);
      SavePart(dir, FileName(parts[i].0), parts[i].1, fetch, recordIndex, mode);
    }
    assert parts[..|parts|] == parts;
  }

  /**
   * `Syosetu.async_download`: clear the novel's directory, parse the parts with the
   * current layout, then write every part (or the flat range under the novel's title)
   * through "a+" handles, with the `[総第n話]` suffix as `record_chapter_index` says. An
   * exception from the parser leaves the directory empty.
   */
  method AsyncDownload(dir: Directory, page: Page, novelTitle: string, fetch: int -> ChapterPage, recordChapterIndex: bool)
    returns (error: Option<HrefError>)
    modifies dir
    ensures match NovelParts(Current, page)
      case Err(e) => error == Some(e) && dir.files == map[]
      case Ok(parts) =>
        error == None && dir.files == Written(Plan(parts, page, novelTitle), fetch, recordChapterIndex, AppendMode)
  {
    dir.Clear();
    var parsed := GetNovelParts(Current, page);
    match parsed {
      case Err(e) =>
        return Some(e);
      case Ok(parts) =>
        DownloadParts(dir, Plan(parts, page, novelTitle), fetch, recordChapterIndex, AppendMode);
        return None;
    }
  }

  /**
   * `main` in mia.py: clear the novel's directory, parse the parts with the older layout,
   * then write every part (or the flat range under the novel's title) through one "w"
   * handle per file, always with the `[総第n話]` suffix.
   */
  method MiaMain(dir: Directory, page: Page, novelTitle: string, fetch: int -> ChapterPage)
    returns (error: Option<HrefError>)
    modifies dir
    ensures match NovelParts(Legacy, page)
      case Err(e) => error == Some(e) && dir.files == map[]
      case Ok(parts) => error == None && dir.files == Written(Plan(parts, page, novelTitle), fetch, true, WriteMode)
  {
    dir.Clear();
    var parsed := GetNovelParts(Legacy, page);
    match parsed {
      case Err(e) =>
        return Some(e);
      case Ok(parts) =>
        DownloadParts(dir, Plan(parts, page, novelTitle), fetch, true, WriteMode);
        return None;
    }
  }

  /**
   * A novel without parts is downloaded into one file named after it, holding chapters
   * 1 .. len(dd) in order; with "a+" and no dd element at all, no file is written.
   */
  lemma FlatDownload(page: Page, novelTitle: string, fetch: int -> ChapterPage, recordIndex: bool, mode: FileMode)
    ensures Written(Plan([], page, novelTitle), fetch, recordIndex, mode) ==
      if mode == AppendMode && DdCount(page) == 0 then map[]
      else map[FileName(novelTitle) := Records(fetch, 1, DdCount(page) + 1, recordIndex)]
  {
    var plan := Plan([], page, novelTitle);
    assert plan[..0] == [];
  }

  /** Different titles give different file names. */
  lemma FileNameInjective(parts: Dict<Range>)
    requires DistinctKeys(parts)
    ensures forall i, j :: 0 <= i < j < |parts| ==> FileName(parts[i].0) != FileName(parts[j].0)
  {
    forall i, j | 0 <= i < j < |parts| ensures FileName(parts[i].0) != FileName(parts[j].0) {
      var a, b := parts[i].0, parts[j].0;
      assert FileName(a)[..|a|] == a && FileName(b)[..|b|] == b;
    }
  }

  /** Every file written belongs to one of the parts. */
  lemma {:induction false} WrittenNames(parts: Dict<Range>, fetch: int -> ChapterPage, recordIndex: bool, mode: FileMode)
    ensures forall name :: name in Written(parts, fetch, recordIndex, mode) ==>
              exists j :: 0 <= j < |parts| && name == FileName(parts[j].0)
  {
    if parts != [] {
      var init := parts[..|parts| - 1];
      WrittenNames(init, fetch, recordIndex, mode);
      var last := parts[|parts| - 1];
      assert Written(parts, fetch, recordIndex, mode) ==
             Saved(Written(init, fetch, recordIndex, mode), FileName(last.0), last.1, fetch, recordIndex, mode);
      forall name | name in Written(parts, fetch, recordIndex, mode)
        ensures exists j :: 0 <= j < |parts| && name == FileName(parts[j].0)
      {
        if name != FileName(parts[|parts| - 1].0) {
          var j :| 0 <= j < |init| && name == FileName(init[j].0);
          assert init[j] == parts[j];
        }
      }
    }
  }

  /** The part's file, after the loops: present unless "a+" never opened it, and holding the part's records. */
  lemma {:induction false} WrittenFile(parts: Dict<Range>, fetch: int -> ChapterPage, recordIndex: bool, mode: FileMode, j: nat)
    requires DistinctKeys(parts) && j < |parts|
    ensures var files, name, part := Written(parts, fetch, recordIndex, mode), FileName(parts[j].0), parts[j].1;
      (name in files <==> mode == WriteMode || part.lo < part.hi) &&
      (name in files ==> files[name] == Records(fetch, part.lo, part.hi, recordIndex))
  {
    var init, last := parts[..|parts| - 1], parts[|parts| - 1];
    assert Written(parts, fetch, recordIndex, mode) ==
           Saved(Written(init, fetch, recordIndex, mode), FileName(last.0), last.1, fetch, recordIndex, mode);
    if j < |parts| - 1 {
      assert DistinctKeys(init) by {
        forall i, k | 0 <= i < k < |init| ensures init[i].0 != init[k].0 {
          assert init[i] == parts[i] && init[k] == parts[k];
        }
      }
      WrittenFile(init, fetch, recordIndex, mode, j);
      FileNameInjective(parts);
      assert init[j] == parts[j];
    } else {
      WrittenNames(init, fetch, recordIndex, mode);
      FileNameInjective(parts);
      assert forall k :: 0 <= k < |init| ==> init[k] == parts[k];
    }
  }

  /**
   * The directory after the loops: one file per part, named after the part, holding the
   * records of the part's range in ascending chapter order; with "a+" handles a part with
   * an empty range leaves no file. Nothing else is in the directory.
   */
  lemma WrittenFiles(parts: Dict<Range>, fetch: int -> ChapterPage, recordIndex: bool, mode: FileMode)
    requires DistinctKeys(parts)
    ensures var files := Written(parts, fetch, recordIndex, mode);
      (forall j :: 0 <= j < |parts| ==>
         (FileName(parts[j].0) in files <==> mode == WriteMode || parts[j].1.lo < parts[j].1.hi)) &&
      (forall j :: 0 <= j < |parts| && FileName(parts[j].0) in files ==>
         files[FileName(parts[j].0)] == Records(fetch, parts[j].1.lo, parts[j].1.hi, recordIndex)) &&
      (forall name :: name in files ==> exists j :: 0 <= j < |parts| && name == FileName(parts[j].0))
  {
    WrittenNames(parts, fetch, recordIndex, mode);
    forall j | 0 <= j < |parts|
      ensures var files, name, part := Written(parts, fetch, recordIndex, mode), FileName(parts[j].0), parts[j].1;
        (name in files <==> mode == WriteMode || part.lo < part.hi) &&
        (name in files ==> files[name] == Records(fetch, part.lo, part.hi, recordIndex))
    {
      WrittenFile(parts, fetch, recordIndex, mode, j);
    }
  }

  /**
   * Parts from the sibling walk have non-empty ranges, so even through "a+" handles
   * every part of the novel gets its file.
   */
  lemma PartFilesExist(layout: Layout, page: Page, fetch: int -> ChapterPage, recordIndex: bool, mode: FileMode, p: nat)
    requires NovelParts(layout, page).Ok? && p < |NovelParts(layout, page).value|
    ensures var parts := NovelParts(layout, page).value;
      FileName(parts[p].0) in Written(parts, fetch, recordIndex, mode)
  {
    var parts := NovelParts(layout, page).value;
    PartRange(layout, page, p);
    var h :| Recorded(layout, page, h) && page[h].text == parts[p].0 &&
             parts[p].1 == Span(Walk(layout, page, h + 1).value);
    SpanOf(Walk(layout, page, h + 1).value);
    WrittenFile(parts, fetch, recordIndex, mode, p);
  }
}
