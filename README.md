# syosetu novel downloader — a Dafny model of its core

The downloader fetches a web novel from the syosetu site and writes it to text files. It has three parts.

1. It reads the novel's index page into *parts*. A part is a dict entry from a part title to a range of chapter numbers.
2. It fetches every chapter of every part. It writes each chapter as a two-line record (`● title` or `● title [総第n話]`, then the body) to `<part>.txt` in the novel's directory.
3. A separate converter turns each `.txt` file back into an EPUB book. It cuts the text at the `● ` markers; the first line of each piece becomes a chapter title.

This project models that core and proves properties of it. The modules are:

- `Base`: `Option`, `Result`, and `Range` (Python's `range(lo, hi)`).
- `Text`: `str.split`, `str.strip` and `int()` on strings, and `str()` on integers.
- `PartDict`: a Python dict as a sequence of key/value pairs in insertion order.
  - `Put` is `d[k] = v`: an existing key keeps its place.
  - `Build` folds a sequence of assignments.
- `Href`: `int(href.split('/')[-2])`, with its `IndexError` and `ValueError` outcomes.
- `IndexPage`: the index page, abstracted as its top-level elements in document order.
  - Each element has a tag name, classes, text, the href of its first link, and its count of `dd` descendants.
- `SiblingWalk`: the live part parsers, `__get_novel_parts` (current layout) and `fetch_novel_parts2` (older layout).
- `CountingParts`: the counting parser, `fetch_novel_parts` and the deprecated `__get_novel_parts2`.
- `Chapter`: U+3000 normalisation of a chapter page, and the record format.
- `Download`: the directory as a class holding a map from file name to content, and the download loops of `async_download` and of mia.py's `main`.
- `Txt2Epub`: `create_epub_from_txt` and `convert_directory_txt_to_epub`, producing the book value handed to the EPUB writer.

The main results are:

- Each loop is proved equal to a recursive function that states its result: `GetNovelParts`, `FetchNovelParts`, `SavePart`, `DownloadParts`, `CreateEpubFromTxt` and `ConvertDirectory`.
- The parts are characterised: their titles, their ranges, their order, and what happens when titles repeat.
- The directory the downloaders leave behind is characterised.
- Round trip: records written by the downloader and read back by the converter give one EPUB chapter per downloaded chapter. Each such chapter has the downloaded title line and body.
  - This holds whenever no header line (the normalised title plus its `[総第n話]` suffix) and no normalised body contains the marker or a carriage return, and every header line is non-blank and has no newline. A title such as `x●` followed by the suffix forms the marker, and a body `●`, U+3000, space forms it once U+3000 is deleted.

Behaviours of the code worth knowing:

- A novel without parts is written to one file named after the novel, holding chapters 1 to the number of `dd` elements (`Download.FlatDownload`).
- syosetu.py opens each file with `"a+"` once per chapter, so a part with an empty range leaves no file. mia.py opens each file once with `"w"`, so such a part leaves an empty file. `FileMode` models both behaviours.
- There are two sibling-walk parsers and one counting parser.
  - The sibling walk gives `range(min, max + 1)` of the numbers it finds. So its ranges can leave gaps, overlap, or cover missing numbers.
  - Only the counting parser lays its ranges end to end (`CountingParts.CountedRanges`).
- The book title is `basename.split(".")[:-1][0]`, i.e. the text before the FIRST dot (`Txt2Epub.BookTitleIsPrefix`). So `vol.1.txt` and `vol.2.txt` both produce `vol.epub`.
- Chapter file names count the marker pieces, including the empty piece before the first marker. So the first chapter of a downloaded file is `chap_2.xhtml` (`Txt2Epub.RoundTrip`).

## Model

| member | source | states |
|---|---|---|
| Text.SplitJoin | syosetu.py:87 | `str.split(sep)` loses nothing: joining the pieces with the separator gives the string back, and no piece contains the separator |
| Text.SplitAround | syosetu.py:87 | splitting `a + sep + b` gives the pieces of `a` followed by the pieces of `b` |
| Text.StripEmpty | converters/txt2epub.py:22 | `not s.strip()` holds exactly when every character of `s` is Python whitespace |
| Text.ParseIntNeedsDigit | syosetu.py:87 | `int()` raises ValueError on a text with no ASCII digit |
| Text.ParseShowInt | syosetu.py:87 | `int(str(n)) == n` for every integer of at most 4300 digits (the model has no digit limit), so a segment written as a decimal number parses back to it |
| Text.ShowIntInjective | converters/txt2epub.py:25 | different integers have different decimal strings |
| Href.SecondToLastSegment | syosetu.py:87 | the chapter number is `int` of the segment between the last two slashes, whatever precedes it; a non-integer segment raises ValueError |
| Href.NonNumericSegment | mia.py:86 | a second-to-last segment without digits raises ValueError naming that segment |
| Href.NoSlashIsIndexError | syosetu.py:87 | a link without a slash has fewer than two segments, so `[-2]` raises IndexError |
| Href.ChapterLink | syosetu.py:85-88 | a link ending in `<n>/` yields chapter number n |
| Href.ExampleLink | mia.py:84-87 | the site's link `/n8920ex/5/` yields chapter 5 |
| PartDict.Put | syosetu.py:92 | `d[k] = v` keeps keys distinct; an existing key keeps its position and takes the new value, and a new key is appended |
| PartDict.PutKeys | mia.py:91 | after `d[k] = v` the keys are the old keys plus k, in the same positions |
| PartDict.BuildKeys | syosetu.py:91-92 | after a sequence of assignments, a key is in the dict exactly when some assignment used it |
| PartDict.BuildValueIsLast | syosetu.py:91-92 | every entry's value is the one from the LAST assignment to its key |
| PartDict.BuildOrder | syosetu.py:91-92 | entries are in the order of each key's FIRST assignment |
| PartDict.BuildOfDistinct | mia.py:45-53 | assignments to pairwise distinct keys build a dict holding exactly those assignments, in order |
| IndexPage.FlatRange | syosetu.py:128-130 | a novel without parts has chapters 1 to the number of `dd` elements on its index page, no others |
| IndexPage.DdCountAppend | syosetu.py:128-130 | the number of `dd` elements of a page is additive over its top-level elements |
| SiblingWalk.GetNovelParts | syosetu.py:78-93 | the loop over headings returns the dict built from the assignments `Events` lists, or the ValueError/IndexError the first bad link raises |
| SiblingWalk.CollectChapterNumbers | mia.py:80-88 | the inner while loop collects the numbers the sibling walk specifies, or raises |
| SiblingWalk.WalkIsRun | syosetu.py:83-89 | the walk collects the link numbers of exactly the maximal run of siblings its condition accepts, in order |
| SiblingWalk.WithoutHeadings | syosetu.py:78-93 | a page without headings parses to the empty dict, whatever links it holds |
| SiblingWalk.RunEnd | mia.py:82 | the run stops at the first sibling the condition rejects (a `div` in the older layout; any non-sublist in the current one) |
| SiblingWalk.SpanOf | syosetu.py:92 | `range(min(ns), max(ns) + 1)` contains every collected number, and its bounds are collected numbers |
| SiblingWalk.RecordingsAscending | syosetu.py:80 | the recorded headings are listed once each, in document order |
| SiblingWalk.EventsAreRecordings | syosetu.py:91-92 | the assignments are exactly those of the headings with at least one number, in document order |
| SiblingWalk.PartTitles | syosetu.py:91-92 | a title is a part exactly when some heading with that title collected a number |
| SiblingWalk.PartRange | syosetu.py:91-92 | each part's range spans the numbers under the last heading with that title that collected any |
| SiblingWalk.PartOrder | mia.py:90-91 | parts are ordered by the first recorded heading of each title |
| CountingParts.FetchNovelParts | mia.py:32-55 | the counting loop returns the dict built from the assignments `Closings` lists |
| CountingParts.ClosingsAreLaidOut | syosetu.py:103-115 | the loop lays heading groups end to end; entries before the first heading shift the first start |
| CountingParts.EntriesAreGrouped | mia.py:41-50 | leading entries plus the entries under the headings are all the entries |
| CountingParts.LayIsAdjacent | syosetu.py:107-109 | laid-out ranges have the groups' titles and lengths, start at the given start, and each begins where the previous one ends |
| CountingParts.CountedRanges | mia.py:45-53 | one assignment per heading, in order and adjacent; the first starts after the leading entries and the last ends after the last entry |
| CountingParts.CountedPartsOfDistinctTitles | mia.py:45-53 | with distinct heading titles the dict is exactly those assignments |
| CountingParts.NoHeadingsNoParts | mia.py:52-55 | a page without headings yields no parts, whatever entries it has |
| Chapter.NormalizeTitle | syosetu.py:135 | the title keeps its length, every U+3000 becomes a space, and every other character is unchanged |
| Chapter.NormalizeBody | syosetu.py:136 | the body has no U+3000 left and is no longer than before |
| Chapter.NormalizeBodyAppend | mia.py:106 | deleting U+3000 works piece by piece, so the remaining characters keep their order |
| Chapter.NormalizeBodyKeeps | syosetu.py:136 | a body without U+3000 is unchanged |
| Chapter.NormalizeBodyCounts | mia.py:106 | every character other than U+3000 occurs as often as before |
| Download.Directory.Clear | syosetu.py:161-163 | after `rmtree` and `makedirs` the novel's directory is empty |
| Download.Directory.Create | mia.py:157 | opening with "w" creates the file or truncates it to empty; nothing else changes |
| Download.Directory.Append | syosetu.py:141-147 | a write through an "a+" handle creates the file if needed and appends the text; nothing else changes |
| Download.SaveRecord | syosetu.py:140-147 | one chapter's record, the marker and header line and then the content line, is appended to the part's file, which is created if missing; no other file changes |
| Download.SavePart | syosetu.py:140-155 | writing a part's range chapter by chapter leaves the part's file holding the records in ascending order; with "a+" an empty range leaves no file |
| Download.DownloadParts | mia.py:154-162 | the loop over the parts leaves the directory `Written` defines by folding over the parts |
| Download.AsyncDownload | syosetu.py:158-191 | clear the directory, parse, then write the parts (or the flat range under the novel title) with "a+"; a parse exception leaves the directory empty |
| Download.MiaMain | mia.py:142-170 | as above with the older layout, "w" handles and the `[総第n話]` suffix always on |
| Download.FlatDownload | syosetu.py:188-191 | without parts the directory holds one file named after the novel with the records of chapters 1 .. len(dd); with "a+" and no `dd` element it holds none |
| Download.WrittenNames | syosetu.py:167-173 | every file in the directory belongs to a part |
| Download.WrittenFile | mia.py:157-161 | a part's file exists exactly when opened with "w" or the range is non-empty, and it holds the records of the range |
| Download.WrittenFiles | syosetu.py:167-191 | the whole directory: one file per part holding its records, present as above, and nothing else |
| Download.PartFilesExist | syosetu.py:91-92 | parts from the sibling walk have non-empty ranges, so every part gets its file even with "a+" |
| Txt2Epub.ReadText | converters/txt2epub.py:7-8 | reading in text mode leaves no carriage return (universal newlines) |
| Txt2Epub.ReadTextLine | converters/txt2epub.py:7-8 | universal newlines: a line ended by "\n", "\r\n" or a lone "\r" reads as the line ended by "\n" |
| Txt2Epub.ReadTextKeeps | converters/txt2epub.py:7-8 | a text without carriage returns reads back unchanged |
| Txt2Epub.SplitMarkerJoin | converters/txt2epub.py:10 | `re.split('● ')` loses nothing and cuts at every marker: joining the pieces with the marker gives the text back, and no piece holds the marker |
| Txt2Epub.SplitMarkerNoMarker | converters/txt2epub.py:10 | a text without the marker is one piece |
| Txt2Epub.SplitMarkerAround | converters/txt2epub.py:10 | splitting `a + "● " + b` gives the pieces of `a` followed by those of `b` |
| Txt2Epub.SplitOnce | converters/txt2epub.py:25-26 | `split('\n', 1)` gives two pieces exactly when there is a newline: the text before the first newline and everything after it |
| Txt2Epub.SplitOnceAt | converters/txt2epub.py:25-26 | a newline-free head followed by a newline splits into that head and the rest |
| Txt2Epub.CreateEpubFromTxt | converters/txt2epub.py:5-36 | the conversion loop builds the book `Epub` defines, or fails on the missing dot or the first non-blank piece without a newline |
| Txt2Epub.BookTitleIsPrefix | converters/txt2epub.py:15 | the title exists exactly when the name has a dot, and it is the text before the first dot |
| Txt2Epub.NonBlankAscending | converters/txt2epub.py:21-23 | the converted pieces are exactly the non-blank ones, in ascending order |
| Txt2Epub.ChaptersSucceed | converters/txt2epub.py:21-26 | the cut succeeds exactly when every non-blank piece has a newline; otherwise it fails at the first one without |
| Txt2Epub.ChaptersShape | converters/txt2epub.py:21-30 | one chapter per non-blank piece: title is the first line, file `chap_{i+1}.xhtml`, language `ja`, content the title as `<h1>` followed by the rest |
| Txt2Epub.ChapterOfCut | converters/txt2epub.py:25-26 | a chapter cut from a piece has the piece's first line as title and the rest after the newline as body |
| Txt2Epub.ChapterFilesDistinct | converters/txt2epub.py:25 | no two chapters of a book share a file name |
| Txt2Epub.RecordsPieces | syosetu.py:140-147 | a part's text splits at the markers into an empty piece followed by one piece per chapter, in order |
| Txt2Epub.RoundTrip | converters/txt2epub.py:10-30 | the converter cuts a downloaded part back into its chapters: titles are the header lines, bodies the normalised contents |
| Txt2Epub.FirstLineUnique | converters/txt2epub.py:25-26 | title and body are recovered uniquely from `title + "\n" + body` |
| Txt2Epub.RoundTripBook | converters/txt2epub.py:5-36 | the book for a downloaded part: its title, identifier and language, spine starting with the nav, table of contents equal to the rest of the spine, one entry per chapter |
| Txt2Epub.TextFilesAreTxt | converters/txt2epub.py:40-41 | exactly the entries whose names end in `.txt` are converted |
| Txt2Epub.TextFilesPrefix | converters/txt2epub.py:40-42 | the text files of a prefix of the listing are a prefix of those of the whole listing |
| Txt2Epub.ConvertDirectory | converters/txt2epub.py:38-42 | the `.txt` files are converted in listing order, each book written as `<title>.epub`; an exception stops the loop at the failing file |

## Left out

- HTTP requests, SSL, headers and the proxy. Chapter pages come from a total `fetch` parameter, so a failed request (and the partial file it leaves) is not modelled.
- HTML parsing. The index page is its top-level elements in document order, and each element is summarised by the fields the parsers read.
  - `find_next_sibling` skipping text nodes, headings nested below the top level, and `find(..., href=True)` looking at descendants are not modelled.
  - Titles are taken as already stripped (`get_text(strip=True)`).
- The novel title, author and chapter page lookups (`find("h1", ...)`, `find("p", ...)`), and the `None` they give when a node is missing. The page's title and body texts are the fields of `ChapterPage`.
- asyncio, the semaphore and the commented-out `gather` variants. The model writes chapters sequentially in ascending order, as the live loops do.
- Paths. Only file names inside one directory are modelled: `os.path.join` with titles holding `/` or absolute titles, the parent output directory, `chdir`, and encodings are not. Neither is the platform's newline translation on write.
- `os.listdir` order. The directory listing is a parameter.
- The EPUB writer's internals (`write_epub`, the NCX and nav documents). The model stops at the book value handed to it.
- Text.ParseInt, Text.ShowInt: CPython's limit on integer/string conversion is not modelled. On the Python versions the code needs (3.12 or later), `int()` raises ValueError on more than 4300 digits and `str(n)` raises for |n| ≥ 10^4300; the model converts integers of any length.
- `int()` accepting non-ASCII Unicode digits. Only ASCII digits, a sign, surrounding whitespace and single underscores are modelled.
- mia.py refetching the index page for each query. One page value is used throughout.
- The command line, logging, `mian.py`, pydantic settings and the save-format enum.
- `CountingParts`: the counting parser is not called on any live path. It is modelled as a standalone parser.
- Chapter.NormalizeBody: its contract gives only a length bound. The exact character counts are stated in `Chapter.NormalizeBodyCounts` and the order in `Chapter.NormalizeBodyAppend`.
