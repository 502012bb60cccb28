# Plant image downloader and table-to-grid renderer, modelled in Dafny

The repository has two Python scripts.

- `downloader.py` collects plant photographs for a species from two
  public services, iNaturalist and GBIF. It pages through search results and
  saves every image it can fetch as `<Species_name>_<n>.jpg` in one directory.
  It resumes numbering after the largest index already in that directory.
- `test.py` reads an HTML table whose rows are `(x, character, y)`. It keeps
  the well-formed rows, places each character on a blank grid at `(x, y)`
  and prints the grid row by row.

The model has six modules. Each is a file.

- `wrappers.dfy` (`Wrappers`): the `Option` type.
- `pytext.dfy` (`PyText`): the Python string operations the scripts use, on
  `seq<char>`. These are `split(c)[-1]` (`AfterLast`), `split(c)[0]`
  (`BeforeFirst`), `isdigit`, `int`, `str(n)`, `strip` and `replace`.
- `resume_index.dfy` (`ResumeIndex`): `get_next_image_index`, as a pure
  function of the directory listing.
- `download.dfy` (`Download`): the two download loops in imperative form.
  - `DownloadImages` is one method for both entry points. A `Source` value
    (`INaturalist` or `Gbif`) fixes four things: the first cursor (`page = 1`
    or `offset = 0`), the page size (100 or 300), the cursor step (1 or the
    page size), and whether the photo URL's "square" becomes "original".
  - The network is an input. `pages[k]` is what the k-th search request
    answers: a page-level error, or the page's observations. Each observation
    lists its photo or media references. A reference has an optional URL and a
    flag that says whether fetching, decoding and saving the image succeed.
  - The method returns how far the count reached, the list of `(url, path)`
    saves in the order made, and the paging parameters of every search
    request sent.
  - The loop is proved equal to the reference function `Run`. The facts the
    code keeps are proved about `Run`:
    - the count never drops and never passes the target;
    - the files are numbered consecutively from the resume index;
    - no file name is written twice;
    - no file already in the directory is overwritten.
- `table.dfy` (`Table`): the row filter of `parse_table_from_html`, as a loop
  that is proved equal to a filter function over the rows' cell texts.
- `grid.dfy` (`Grid`):
  - `build_grid` fills a two-dimensional `array2<char>` in place.
  - `print_grid` is modelled as the text it writes.
  - `render_data` is modelled from the parsed rows to the printed outcome.

  Python list indexing is modelled as Python does it. A negative index
  counts from the end of the list. An index outside `-len .. len - 1`
  raises IndexError, which the model reports as a failed outcome.

In the code:

- The paging cursor advances only after a page with results has been
  handled.
- An error fetching a page ends the run.
- An empty page ends the run.
- A failed image is skipped.
- The `break` at `downloader.py:51` and `downloader.py:98` leaves only the
  loop over one observation's photos. The loop over the page's observations
  goes on, but attempts nothing more once the target is reached.

## Model

| member | source | states |
|---|---|---|
| `PyText.NatToString` | downloader.py:59 | `str(n)` of a natural number is a non-empty decimal numeral whose value is n, with no leading zero unless n is 0; it is one digit exactly when n < 10 |
| `PyText.IsDigits` | downloader.py:18 | `str.isdigit()`: non-empty and made of the digits '0'..'9'; used by `ResumeIndex.HasIndex` and `PyText.ParseInt` |
| `PyText.ParseInt` | test.py:23-25 | `int(s)` gives a value only for digits or a sign followed by digits; digits give their decimal value, "+" digits the same and "-" digits its negation |
| `PyText.ParseIntNumeral` | test.py:23 | `int(t)` gives `v` exactly when `t` is a decimal literal of `v`: digits, optionally after a sign |
| `PyText.AfterLast` | downloader.py:18 | `split(c)[-1]` is a suffix of the text with no `c` in it, and it is all of the text or is preceded by a `c` |
| `PyText.BeforeFirst` | downloader.py:18 | `split(c)[0]` is a prefix of the text with no `c` in it, and it is all of the text or is followed by a `c` |
| `PyText.Strip` | test.py:23-25 | `strip()` gives a slice of the text with only whitespace outside it; the result is empty exactly when the text is all whitespace, and otherwise it neither starts nor ends with whitespace |
| `PyText.StripUnique` | test.py:23-25 | whenever only whitespace lies outside `s[i..j]` and that slice starts and ends with a visible character, `strip()` gives exactly that slice |
| `PyText.StrippedInt` | test.py:23 | `int(s.strip())` gives `v` exactly when `s` is a literal of `v` with only whitespace around it |
| `PyText.StrippedHead` | test.py:24 | `s.strip()[0]` exists and is `ch` exactly when `ch` is the first character of `s` that is not whitespace |
| `PyText.Replace` | downloader.py:54 | `str.replace`: a left-to-right scan that replaces each non-overlapping occurrence; its properties are stated by `PyText.ReplaceFirst`, `PyText.ReplaceAbsent`, `PyText.ReplaceChar` and `PyText.ReplaceLeavesNone` |
| `PyText.ReplaceFirst` | downloader.py:54 | when `pat` first occurs in `a + pat + b` at `|a|`, the text before it is kept, the occurrence becomes `rep`, and the scan goes on in `b` |
| `PyText.ReplaceAbsent` | downloader.py:54 | `replace` changes nothing when the pattern does not occur |
| `PyText.ReplaceChar` | downloader.py:59 | replacing one character by another keeps the length and maps each position on its own |
| `PyText.ReplaceLeavesNone` | downloader.py:54 | after `replace` no occurrence of the pattern is left, when the replacement cannot start or complete one |
| `ResumeIndex.JpgFiles` | downloader.py:15 | `existing_files` holds exactly the listed names that end in ".jpg" |
| `ResumeIndex.Indices` | downloader.py:18 | `indices` holds exactly the values of those names whose index text is a numeral |
| `ResumeIndex.Max` | downloader.py:19 | `max` is an element of the list and no element exceeds it |
| `ResumeIndex.NextImageIndex` | downloader.py:13-19 | the resume index is above every index in use and is the largest plus one; it is 0 exactly when no ".jpg" name carries a numeric index |
| `ResumeIndex.NoImagesStartAtZero` | downloader.py:15-17 | a listing without ".jpg" names resumes at 0 |
| `ResumeIndex.IndexOfNumbered` | downloader.py:18 | a name `prefix_<digits>.jpg` carries the index that the digits spell, whatever the prefix holds |
| `ResumeIndex.IsJpg` | downloader.py:15 | `f.endswith('.jpg')`; the names it selects are stated by `ResumeIndex.JpgFiles` |
| `ResumeIndex.IndexText` | downloader.py:18 | `f.split('_')[-1].split('.')[0]`, built from `PyText.AfterLast` and `PyText.BeforeFirst`; `ResumeIndex.IndexOfNumbered` states what it reads from a numbered name |
| `ResumeIndex.HasIndex` | downloader.py:15-18 | a name takes part in the maximum exactly when it ends in ".jpg" (the `existing_files` filter) and its index text passes `isdigit()` (the guard of the comprehension) |
| `ResumeIndex.IndexOf` | downloader.py:18 | the element `int(f.split('_')[-1].split('.')[0])` of `indices`: the decimal value of the index text; `ResumeIndex.IndexOfNumbered` and `Download.FileNameIndex` state what it reads back |
| `ResumeIndex.NextIsLargestPlusOne` | downloader.py:19 | when the largest index in use is m, the scan gives m + 1 |
| `ResumeIndex.GapIsNotFilled` | downloader.py:18-19 | indices 0 and 2, with a non-numeric name and a non-image name beside them, resume at 3: gaps are not filled and other names are ignored |
| `ResumeIndex.GapExample` | downloader.py:13-19 | the listing "X_0.jpg", "notes.txt", "X_final.jpg", "X_2.jpg" resumes at 3 |
| `Download.AttemptRefsKeeps` | downloader.py:49-64 | the loop over one observation's photos keeps the earlier saves, numbers new files consecutively, never lowers the count and never passes the target |
| `Download.Attempt` | downloader.py:52-61 | one photo or media item: with a non-empty URL and a retrievable image it is saved under the current count, which goes up by one; otherwise nothing changes |
| `Download.AttemptRefs` | downloader.py:49-64 | the inner loop as a function, stopping its attempts once the count reaches the target; stated by `Download.AttemptRefsKeeps`, `Download.FailuresAreSkipped` and `Download.AttemptRefsCount` |
| `Download.AttemptResults` | downloader.py:47-64 | the loop over one page's results as a function; stated by `Download.AttemptResultsKeeps` |
| `Download.Run` | downloader.py:27-65 | the paging loop as a function, ending at the target, a page error or an empty page; stated by `Download.RunKeeps`, `Download.RunStopsAt`, `Download.OnePageSuffices` and `Download.RunFromListing` |
| `Download.HasUrl` | downloader.py:53 | the truthiness tests `if url:` and, for GBIF, `if img_url:` at downloader.py:100: a missing URL and the empty string are both skipped; `Download.FailuresAreSkipped` states the effect |
| `Download.FirstCursor` | downloader.py:24 | the first request asks for `page = 1` on iNaturalist and `offset = 0` on GBIF (downloader.py:71) |
| `Download.PageSize` | downloader.py:25 | the page size `per_page = 100` on iNaturalist and `limit = 300` on GBIF (downloader.py:72) |
| `Download.CursorStep` | downloader.py:65 | the cursor moves by `page += 1` on iNaturalist and by `offset += limit` on GBIF (downloader.py:111) |
| `Download.CursorAt` | downloader.py:24-65 | the cursor of the i-th request (downloader.py:71-111 for GBIF): the first cursor plus i steps, which `Download.RequestsAt` and `Download.PageLoop` tie to the requests sent |
| `Download.AttemptResultsKeeps` | downloader.py:47-64 | the same facts hold across all the observations of a page |
| `Download.RunKeeps` | downloader.py:27-65 | the same facts hold across the whole paging loop |
| `Download.FailuresAreSkipped` | downloader.py:52-64 | a reference without a URL, or one whose image fails, is skipped and the loop goes on as if it were not there |
| `Download.AttemptRefsCount` | downloader.py:49-61 | one observation adds one to the count per retrievable image, stopping at the target |
| `Download.RunStopsAt` | downloader.py:34-45 | a page error or an empty page at request j means no request after the j-th is sent |
| `Download.OnePageSuffices` | downloader.py:27-65 | one page holding enough retrievable images reaches the target with exactly one search request |
| `Download.FileNameIndex` | downloader.py:59 | a file name written with index n reads back as index n for the resume scan |
| `Download.FileNamesDistinct` | downloader.py:105 | different indices give different file names |
| `Download.NoOverwrite` | downloader.py:23 | no name numbered from the resume index on is already in the directory |
| `Download.FileNameShape` | downloader.py:59 | the file name is the species name with each space turned into '_', then "_", the decimal index and ".jpg" |
| `Download.FileName` | downloader.py:59 | the f-string file name; `Download.FileNameShape`, `Download.FileNameIndex` and `Download.FileNamesDistinct` state its properties |
| `Download.ImageUrl` | downloader.py:54 | the URL fetched for a photo: the rewrite on iNaturalist, the identifier unchanged on GBIF (downloader.py:99); `Download.ImageUrlRewrite` and `Download.SquareBecomesOriginal` state its properties |
| `Download.ImageUrlRewrite` | downloader.py:54 | the iNaturalist image URL holds no "square", and a URL without "square" is fetched unchanged |
| `Download.SquareBecomesOriginal` | downloader.py:54 | each "square" of the photo URL becomes "original": the text before the first "square" is kept and the rewrite goes on after it |
| `Download.SavesAreNew` | downloader.py:59-61 | the paths saved from the resume index on are pairwise different and none was in the directory before |
| `Download.RunFromListing` | downloader.py:21-66 | a run from a directory listing ends with a count between the resume index and the target; its saves are numbered on from the resume index, none is written twice and none overwrites a listed file |
| `Download.Requests` | downloader.py:28-33 | one parameter set per search request sent |
| `Download.RequestsAt` | downloader.py:75-80 | the i-th search request asks for the cursor `first + i * step` and the source's page size |
| `Download.TryArtifacts` | downloader.py:49-64 | the inner loop over photos or media computes exactly the reference `AttemptRefs` |
| `Download.TryResults` | downloader.py:94-110 | the loop over a page's results computes exactly the reference `AttemptResults` |
| `Download.PageLoop` | downloader.py:74-111 | the `while count < max_images` loop computes exactly `Run`: final count, saves and number of requests; its requests are the paging sequence |
| `Download.DownloadImages` | downloader.py:21-66 | both downloaders: the result equals `Run` from the resume index; request i carries cursor i; the count ends between the resume index and the target; the saves are consecutive file names, pairwise different and not in the listing |
| `Table.RowKept` | test.py:19-28 | a row is kept exactly when it has three cells, each outer cell is an integer literal (optional sign, digits) with only whitespace around it, and the middle cell holds a visible character; the entry holds the two values and the middle cell's first visible character |
| `Table.ParseRow` | test.py:19-28 | the body of the row loop: an entry for a kept row, nothing for a skipped one; `Table.RowKept` characterises it |
| `Table.ParseCells` | test.py:22-28 | the `try` block for a three-cell row yields an entry exactly when both outer cells are integer literals with only whitespace around them and the middle cell holds a visible character, with those values; it agrees with `Table.ParseRow` |
| `Table.KeptCharIsVisible` | test.py:24 | the kept character is never whitespace |
| `Table.ParsedAppend` | test.py:18-30 | rows are handled independently: the output for `a + b` is the output for `a` followed by that for `b` |
| `Table.SkippedRowVanishes` | test.py:20-28 | a skipped row leaves no trace and does not stop the rows after it |
| `Table.ParsedMembers` | test.py:16-30 | an entry is in the output exactly when some row parses to it |
| `Table.ParseTable` | test.py:13-30 | the loop's output is exactly the kept rows' entries in order, and never longer than the row list |
| `Table.Parsed` | test.py:16-30 | the returned `data`: the kept rows' entries in row order; `Table.ParsedAppend`, `Table.SkippedRowVanishes` and `Table.ParsedMembers` state its properties |
| `Grid.MaxX` | test.py:33 | `max_x` bounds every entry's x and is some entry's x |
| `Grid.MaxY` | test.py:34 | `max_y` bounds every entry's y and is some entry's y |
| `Grid.Slot` | test.py:37 | a Python index in range denotes a position below the length: itself when non-negative, the index plus the length when negative |
| `Grid.UnwrittenIsBlank` | test.py:35 | a cell no entry writes keeps its blank |
| `Grid.LastWriteWins` | test.py:36-37 | a written cell holds the character of the last entry that writes it |
| `Grid.NonNegativeFits` | test.py:35-37 | with non-negative coordinates no assignment raises, and entry (x, c, y) writes row y, column x |
| `Grid.CellIsBlankOrEntry` | test.py:35-37 | every cell is blank or holds some entry's character |
| `Grid.CellAt` | test.py:36-37 | the character a cell holds after the ordered writes; `Grid.UnwrittenIsBlank`, `Grid.LastWriteWins` and `Grid.CellIsBlankOrEntry` state its properties |
| `Grid.BuildGrid` | test.py:32-38 | an empty list raises; otherwise the grid is `max_y + 1` by `max_x + 1`, the call succeeds exactly when every assignment is in range, and then each cell holds what the ordered writes leave there |
| `Grid.Picture` | test.py:35 | the built grid has `max_y + 1` rows of `max_x + 1` characters |
| `Grid.Extent` | test.py:35 | the length of `range(max_x + 1)` or `range(max_y + 1)`: m + 1, and 0 when m + 1 is not positive |
| `Grid.Indexable` | test.py:37 | the index range a Python list of the given length accepts; outside it `grid[y][x] = char` raises IndexError, which `Grid.BuildGrid` states |
| `Grid.Render` | test.py:40-42 | the text `print_grid` writes: each row joined, then a newline; `Grid.RenderSplits` states its inverse |
| `Grid.RenderSplits` | test.py:40-42 | the printed text splits back at its newlines into exactly the rows, when no row holds a newline |
| `Grid.PictureHasNoNewline` | test.py:24 | no cell of a grid built from parsed rows holds a newline |
| `Grid.PrintedGridSplits` | test.py:40-42 | the text printed for a parsed table splits back into exactly the grid's rows |
| `Grid.RenderData` | test.py:44-51 | no parsed rows print the error message; otherwise the grid's rows are printed, or IndexError is raised when some coordinate is out of range |

## Left out

- HTTP is not modelled. This covers `requests.get`, `raise_for_status`,
  `response.json()` and the timeouts at `downloader.py:35-37, 56-57, 82-84,
  102-103`, and `fetch_doc_data` at `test.py:5-11`. A search request's answer
  is the input `pages[k]`. An image fetch is the `retrievable` flag of its
  reference.
- The network is a finite sequence of answers. A request past its end
  answers an empty page, as an exhausted service does.
- The search parameters other than the cursor and the page size are not
  modelled: taxon name, `photos`, `mediaType` and taxon key.
- The JSON shape is not checked. `data.get('results', [])`,
  `result.get('photos', [])` and `result.get('media', [])` arrive as
  already-decoded lists. A missing list is the same as an empty one.
- PIL decoding and `img.save` are left out. A reference whose image would
  fail at fetch, decode or save has `retrievable == false`. Its failure is
  caught and skipped, as at `downloader.py:62-64`.
- Directory handling is left out. `os.makedirs` is not modelled,
  `os.listdir` is the input `listing`, and `os.path.join` is dropped: saved
  paths are bare file names in the output directory.
- HTML parsing is left out. BeautifulSoup's `find_all('tr')` and
  `find_all(['td', 'th'])` are replaced by each row's list of cell texts.
- `print` and `input` are left out. Progress and error messages are not
  modelled. `print_grid` and `render_data` are modelled as the text or the
  outcome they produce.
- `species_info` and `main` (`downloader.py:6-11, 114-123`) only call the two
  downloaders with constants. Since the two downloaders share an output
  directory, the GBIF run resumes after the iNaturalist files. That case is
  `DownloadImages` with `listing` holding those files.
- `PyText.Strip`, `PyText.ParseInt`: only ASCII is modelled. Whitespace is
  the ASCII characters for which `str.isspace()` holds: tab to carriage
  return, the separators 0x1C to 0x1F, and the space. Python's `strip` also
  removes Unicode whitespace such as U+0085 and U+00A0. Digits are '0'..'9'.
  Python's `int` also accepts other Unicode decimal digits and `_` between
  digits.
- `ResumeIndex.NextImageIndex`, `PyText.IsDigits`: Python's `isdigit` and
  `int` accept different sets. Superscripts such as '²' pass `isdigit()`, but
  `int('²')` raises ValueError. A listed name such as `X_².jpg` therefore
  makes `get_next_image_index` (`downloader.py:18`) raise an error that
  nothing catches, before either download loop starts. The model reads digits
  as '0'..'9' only, so `ResumeIndex.NextImageIndex` ignores that name.
- `PyText.ParseInt`: Python 3.11 and later raise ValueError in `int()` on a
  literal of more than 4300 digits, by default. Such a row is skipped in
  Python and kept by the model.
- `Grid.BuildGrid`: an exception is a `false` flag, not a raised error. On an
  exception the method returns an empty or partly written grid. What Python
  leaves behind in that case is not stated.
- `Download.Run`: the loop at `downloader.py:27` (and `:74`) can run forever.
  That happens when the service keeps answering non-empty pages none of whose
  images saves, for example by repeating its last page past the end. The
  model cannot express that case. Its network is finite, and a request past
  its end answers an empty page. That is what makes `Run` terminate.
