# IESE faculty scraper — a Dafny model

This project models the decision logic of the IESE faculty scraper and explorer and proves properties of it:

- **Listing discovery** (`get_all_professor_urls`) walks the paginated professor listing. It collects each profile link once and stops on the limit, a failed fetch, an empty page, a page with no new links, a missing "next" link, or after fifty pages.
- **Profile extraction** (`scrape_professor_details`) derives name, title, department, bio and image reference from the selector results of a profile page. It also derives the local image path `process_image` writes to.
- **Biography tagging** (`analyze_bio_for_industries`) covers:
  - the missing-key path;
  - the 4000-character prompt excerpt;
  - code-fence stripping with Python slice clamping;
  - result defaulting;
  - the three-attempt retry loop with its "model not found" short circuit.
- **The store** (`database.py`) has unique professor URLs, unique industry and sector names, and composite-key association tables. `init_db` decides which directory to create for a SQLite file.
- **Saving** (`save_professor`): a known URL only refreshes its image reference. A new URL is inserted with get-or-create tags. Any exception rolls back, leaving the store unchanged.
- **Browsing** (`app.py`) covers:
  - the backslash path migration;
  - department options;
  - the conjunctive filter query;
  - the bio preview;
  - the three-column card layout.

Everything is a pure function over immutable datatypes. I/O becomes a parameter:

- Fetching a listing page is a function from URL to parsed page.
- A fetched profile page is a datatype of optional selector results.
- The generative model and `json.loads` are oracle functions.
- Whether an image download and crop succeeded is a boolean.

Python's string operations are modelled with their exact semantics in `PyStr`:

- `split` cuts left to right without overlap;
- `strip` uses the `str.isspace` characters;
- slices clamp and accept negative bounds;
- `replace` is a join of a split.

Files: `Wrappers.dfy` (Option), `PyStr.dfy`, `Json.dfy` (decoded JSON and Python truthiness), `Discovery.dfy`, `Extraction.dfy`, `Analyzer.dfy`, `Database.dfy`, `Upsert.dfy`, `Browser.dfy`.

Three behaviours of the code that a reader might not expect:

- A stored image reference is overwritten by any non-empty value that differs from it (src/scraper.py:254-256). The comment on line 252 mentions replacing only a missing or remote reference, but line 253 and the code replace any. So a remote URL found on a later scrape replaces a saved local path; `Upsert.Save` states exactly this.
- The department is `title.split(" of ")[-1]` (src/scraper.py:184). Because `split` cuts left to right without overlap, this is not always the text after the last " of ": `Extraction.DepartmentOverlap` shows that "Professor of of Marketing" yields "of Marketing".
- The analyzer makes at most three attempts (src/analyzer.py:46-81). The only pause is a fixed two-second sleep between attempts (line 78), which the model leaves out.

## Model

| member | source | states |
|---|---|---|
| Discovery.PageUrlInjective | src/scraper.py:80 | page 1 is fetched from the base URL and page n > 1 from base + str(n) + "/", so no two pages share a URL |
| Discovery.ScanLinks | src/scraper.py:101-108 | scanning a page only appends non-empty hrefs not yet collected, keeps the collection duplicate-free, collects every href of the page unless the limit is hit, and never overshoots a positive limit |
| Discovery.WalkFrom | src/scraper.py:74-128 | at most 50 - page + 1 listing pages are fetched, in consecutive page order, and nothing collected is ever dropped; hitting the page cap means all of them were fetched |
| Discovery.Discover | src/scraper.py:69-128 | the whole walk fetches at most fifty pages, page i + 1 as the i-th fetch |
| Discovery.WalkNoDup | src/scraper.py:102-111 | the collection never holds a URL twice, a positive limit is never exceeded, and the walk ends with "limit reached" exactly when the limit is hit |
| Discovery.FoundOnIndex | src/scraper.py:102-105 | a URL counted as found on the fetched pages names the fetch position of the page it appears on |
| Discovery.WalkSound | src/scraper.py:102-105 | every collected URL is a profile link on one of the pages the walk fetched |
| Discovery.WalkComplete | src/scraper.py:102-121 | unless the limit cut the walk short, every profile link on any fetched page is collected |
| Discovery.GetAllProfessorUrls | src/scraper.py:69-130 | the returned set has exactly as many URLs as the walk collected, so none is lost when the list becomes a set |
| Discovery.DiscoveredAreListed | src/scraper.py:69-130 | every returned URL is a link on one of the first fifty listing pages |
| Discovery.DistinctCount | src/scraper.py:130 | turning the collection into a set loses nothing when it has no duplicates |
| Discovery.DiscoveryRespectsLimit | src/scraper.py:76-78 | a positive limit bounds the number of URLs returned; a negative limit returns nothing and fetches nothing; deduplication keeps every collected URL |
| Discovery.DiscoveryIsComplete | src/scraper.py:102-130 | when the limit did not stop the walk, every link on every fetched listing page is returned |
| Discovery.FetchedOnce | src/scraper.py:123-126 | no listing page is fetched twice |
| Discovery.StopsWithCollected | src/scraper.py:83-115 | a failed fetch, a page without links, or a page whose links are all known ends the walk with the collection unchanged |
| Discovery.NothingNew | src/scraper.py:101-106 | a page whose hrefs are all known or empty adds nothing |
| Discovery.ZeroLimitIsUnbounded | src/scraper.py:76 | a limit of 0 behaves exactly like no limit |
| Discovery.ZeroLimitScan | src/scraper.py:107 | within one page a limit of 0 never stops the scan |
| Discovery.NewHrefsAreNew | src/scraper.py:101-106 | the hrefs a page offers as new are non-empty, on the page and not yet collected, and every such href is among them |
| Discovery.ScanTakesFirstNew | src/scraper.py:101-108 | the inner loop keeps a prefix of the page's new hrefs in page order, stops short of them all only at the limit, and is below the limit before its last append |
| Discovery.WalkCollects | src/scraper.py:74-126 | the walk collects exactly what scanning its fetched pages one after another collects |
| Discovery.FetchesNone | src/scraper.py:76-78 | the walk fetches nothing exactly when the collection already meets the limit |
| Discovery.WalkProgress | src/scraper.py:83-126 | every fetched page but the last was a listing with links and a "next" link, was reached below the limit, and added at least one URL without reaching it |
| Discovery.FirstIsLast | src/scraper.py:83-126 | a walk that reads one page stops there for the reason that page gives, and stops at the page cap only on page fifty |
| Discovery.WalkExit | src/scraper.py:83-126 | the exit matches the last page: a failed fetch, no links, the limit met, nothing new, no "next" link, or a page that would have let the walk go on and so hit the cap |
| Discovery.DiscoveryStops | src/scraper.py:69-130 | for the whole walk: what it collects, when it fetches nothing, that every page but the last let it continue, and that the last page explains the exit |
| Extraction.ProfessorName | src/scraper.py:150-158 | the heading text wins unless it is absent or "Unknown"; otherwise the name is the stripped text before the first "\|" of the document title, which holds no bar and is no longer than the title; with neither source it is "Unknown" |
| Extraction.NameFromTitle | src/scraper.py:157-158 | a title "name \| site" with no bar in the name yields the stripped name |
| Extraction.NameFromBarlessTitle | src/scraper.py:157-158 | a title without a bar yields the whole title, stripped |
| Extraction.TitleParts | src/scraper.py:172-177 | title fragments are non-empty, stripped, and no more numerous than the children |
| Extraction.TitleOfOne | src/scraper.py:172-177 | one child contributes its stripped text exactly when it is neither `h1` nor `ul` and that text is non-empty |
| Extraction.TitlePartsConcat | src/scraper.py:172-177 | before the first `ul`, the fragments of consecutive children are the fragments of each, in order |
| Extraction.TitleIsParts | src/scraper.py:172-177 | the fragments are exactly, in order, what each child before the first `ul` contributes on its own, an `h1` or blank child contributing nothing |
| Extraction.TitleStopsAtList | src/scraper.py:175 | nothing from the first `ul` child on contributes to the title |
| Extraction.TitleSkipsHeading | src/scraper.py:174 | an `h1` child contributes nothing, wherever it stands |
| Extraction.ProfessorTitle | src/scraper.py:163-180 | without a faculty block, or when the block's text does not mention the name, the title is empty; otherwise it is the stripped fragments joined by single spaces, non-empty when some fragment exists |
| Extraction.Department | src/scraper.py:182-186 | the department is a suffix of the title that follows a " of " cut and holds no " of " (or, with no " of ", follows an " in " cut), and is empty when the title has neither |
| Extraction.DepartmentAfterOf | src/scraper.py:183-184 | for "role of dept" with a single non-overlapping " of ", the department is exactly dept |
| Extraction.DepartmentAfterIn | src/scraper.py:185-186 | for "role in dept" without any " of ", the department is exactly dept |
| Extraction.DepartmentOverlap | src/scraper.py:184 | on overlapping separators the department is not the text after the last " of " |
| Extraction.Bio | src/scraper.py:190-207 | a non-empty entry content wins; without it a non-empty article text is used; without both the bio is the main-area paragraphs joined by newlines; the bio is empty exactly when every source is absent or empty |
| Extraction.MainArea | src/scraper.py:204 | the `main` element is used when the page has one, and only otherwise the element with id `main` |
| Extraction.UnwrapBackground | src/scraper.py:215-218 | an unwrapped background holds no ")" and no "url("; a value without "url(" is kept whole |
| Extraction.UnwrapRoundTrip | src/scraper.py:216 | unwrapping `url(u)` gives back u for a URL without parentheses |
| Extraction.UnwrapFirst | src/scraper.py:215-218 | with several `url(...)` wrappers the first one is unwrapped |
| Extraction.ImageRef | src/scraper.py:211-224 | a non-empty unwrapped background wins; otherwise the reference is the thumbnail's src, None only for a thumbnail without src, and empty only without a usable thumbnail |
| Extraction.BackgroundWins | src/scraper.py:211-224 | a `url(...)` background is used whatever the thumbnail |
| Extraction.SafeName | src/scraper.py:53 | the safe name has the same length, only ASCII letters, digits and underscores, keeps every ASCII letter and digit in place and turns every other character into "_" |
| Extraction.SafeNameIdempotent | src/scraper.py:53 | a safe name is its own safe name |
| Extraction.SafeNameCollision | src/scraper.py:53 | names differing in one character that is not an ASCII letter or digit map to the same file name |
| Extraction.SafeNameAgree | src/scraper.py:53 | two names of equal length that agree at every position where either holds an ASCII letter or digit map to the same file name |
| Extraction.ImagePath | src/scraper.py:49-55 | the saved path lies directly in data/images/, ends in ".jpg" and holds no backslash |
| Extraction.ImagePathSameFile | src/scraper.py:53-55 | two professors share an image file exactly when their safe names agree |
| Extraction.ProcessImage | src/scraper.py:29-67 | a path comes back exactly when the download and crop succeed; it lies directly in data/images/, ends in ".jpg", and its file stem is the safe name |
| Extraction.StoredImage | src/scraper.py:227-230 | a usable found reference is replaced by exactly the professor's safe-name path in data/images/ when saving succeeded, and kept otherwise; an absent or empty reference is kept as it is |
| Extraction.StoredImageSettles | src/scraper.py:227-230 | applying the image choice to its own result changes nothing |
| Extraction.ScrapeDetails | src/scraper.py:132-237 | no record without a page; the record keeps its URL, and its name, title, department and bio are those the page's selector results give, with empty title and department without a faculty block |
| Extraction.ImageIsLocalOrFound | src/scraper.py:209-230 | the stored image reference is the professor's own saved file when a usable reference was found and saving succeeded, and the reference found on the page otherwise |
| Analyzer.BioExcerpt | src/analyzer.py:42 | at most the first 4000 characters of the bio reach the prompt, and a shorter bio goes in whole |
| Analyzer.StripFence | src/analyzer.py:51-54 | a "```json" opening drops seven characters in front and three at the end, a bare fence three and three, short texts clamp to empty, and unfenced text is kept |
| Analyzer.FenceRoundTrip | src/analyzer.py:51-52 | fencing a payload with "```json" and "```" and stripping gives the payload back |
| Analyzer.BareFenceRoundTrip | src/analyzer.py:53-54 | the same for a bare fence around a payload not starting with "json" |
| Analyzer.Normalize | src/analyzer.py:59-66 | the result is an object with truthy industries and a sectors key; a non-object becomes the default; present truthy industries, present sectors and every other key are kept |
| Analyzer.NormalizeIdempotent | src/analyzer.py:59-66 | normalizing twice is normalizing once |
| Analyzer.AttemptOutcome | src/analyzer.py:47-70 | an exception from the call is a failure carrying its message; a reply is stripped and unfenced, and then either decodes to a value whose normalized form is returned, or its decoding error is the failure |
| Analyzer.FencedReply | src/analyzer.py:49-56 | a reply fenced as "```json" ... "```" is decoded from exactly what is inside the fence |
| Analyzer.RetryFrom | src/analyzer.py:46-81 | the loop makes between one and three calls and always returns a well-formed tag object |
| Analyzer.AnalyzeBio | src/analyzer.py:12-81 | without an API key the result is the empty list and no call is made; with a key one to three calls produce a tag object |
| Analyzer.KeyedAnalysis | src/analyzer.py:46-81 | with a key, the first call to succeed after retryable failures gives its tags with that many calls; a "model not found" error after retryable failures gives the default tags at once; three retryable failures give the default after three calls |
| Analyzer.RetryStep | src/analyzer.py:75-78 | a retryable failure before the last attempt hands over to the next attempt |
| Analyzer.NotFoundStep | src/analyzer.py:71-73 | a "404 ... not found" failure returns the default at once |
| Analyzer.SkipRetryable | src/analyzer.py:46-78 | a run of retryable failures is skipped over |
| Analyzer.FirstSuccessWins | src/analyzer.py:56-68 | the first attempt that parses decides the result, after that many calls |
| Analyzer.NotFoundStopsRetrying | src/analyzer.py:71-73 | a model-not-found error stops the retries and returns the default tags |
| Analyzer.ExhaustedAttempts | src/analyzer.py:79-81 | three retryable failures give the default tags after three calls |
| Analyzer.OnlyExcerptMatters | src/analyzer.py:42 | bios agreeing on their first 4000 characters are tagged alike |
| Database.EmptyStore | src/database.py:57-67 | a freshly created database satisfies the key and foreign-key constraints |
| Database.DirName | src/database.py:62 | the folder is a prefix of the path, empty when the path has no slash, and carries no trailing slash unless made only of slashes |
| Database.DirNameJoin | src/database.py:62 | the folder of "dir/file" is dir |
| Database.DbDirectory | src/database.py:59-64 | a folder is created only for a sqlite:/// URL, and only when it is non-empty |
| Database.DbDirectoryOfPath | src/database.py:59-64 | "sqlite:///dir/file" creates dir |
| Database.DbDirectoryOfBareFile | src/database.py:62-63 | "sqlite:///file" creates nothing |
| Database.ReplacedPrefix | src/database.py:61 | removing "sqlite:///" from "sqlite:///path" leaves the path |
| Database.DefaultDbDirectory | src/database.py:57-64 | the default URL creates the data folder |
| Upsert.NewRow | src/scraper.py:262-269 | the inserted row has every text column set, and reads back as exactly the scraped record |
| Upsert.ListNames | src/scraper.py:281-294 | iterating a list yields tag names only when every element is a string, and then exactly the strings in it |
| Upsert.TagNames | src/scraper.py:281-294 | a string yields its characters, an object its keys, a scalar raises |
| Upsert.AnalysisTags | src/scraper.py:273-294 | tags are read only from an object whose industries and sectors can both be iterated as names, and are then the names of its "industries" and "sectors" entries, a missing entry reading as no names |
| Upsert.InsertTagged | src/scraper.py:281-297 | the new row is added; every named tag exists afterwards and is linked to it; nothing else is removed |
| Upsert.Save | src/scraper.py:246-302 | a known URL keeps its row set, vocabularies and links, and only its image reference can change: a non-empty new reference replaces it; a new URL is inserted or the store is left unchanged; a new URL without bio is inserted without tags |
| Upsert.SaveNewTagged | src/scraper.py:272-302 | a new profile with a bio is stored exactly when its analysis can be read, and is then linked to exactly the tags it names |
| Upsert.SavePreservesValid | src/database.py:7-50 | saving keeps the unique-key and foreign-key constraints |
| Upsert.SaveIdempotent | src/scraper.py:250-260 | saving the same profile twice is saving it once |
| Upsert.NoKeyDropsNewProfile | src/scraper.py:272-302 | as written, with no API key a new profile with a bio is never stored |
| Upsert.SaveTolerant | src/scraper.py:272-302 | the corrected save inserts a profile without tags when the analysis is not an object and otherwise agrees with the original |
| Upsert.NoKeyStillSaves | src/analyzer.py:17-20 | with the corrected save, a new profile is stored even without an API key, as its scraped record and with no industries or sectors |
| Upsert.SaveTolerantPreservesValid | src/database.py:7-50 | the corrected save keeps the constraints too |
| Browser.FixPath | src/app.py:11-15 | after migration a row holds no backslash; only its image reference changes, backslash by backslash to a slash; rows without a backslash are untouched |
| Browser.FixDbPaths | src/app.py:7-16 | the migration keeps every row, vocabulary and link, leaves no backslash anywhere and rewrites only the rows that had one |
| Browser.FixIdempotent | src/app.py:7-16 | running the migration twice is running it once |
| Browser.FixPreservesValid | src/app.py:7-16 | the migration keeps the store's constraints |
| Browser.DepartmentOptions | src/app.py:47-48 | the options are exactly the non-empty departments some professor has |
| Browser.Browse | src/app.py:64-76 | the listing is a set of stored professors |
| Browser.BrowseIsConjunction | src/app.py:67-74 | a professor is listed exactly when it passes every active filter |
| Browser.BrowseUnfiltered | src/app.py:65 | with nothing selected every professor is listed |
| Browser.BrowseOneIndustry | src/app.py:67-68 | one selected industry lists exactly the professors linked to it |
| Browser.BrowseMonotone | src/app.py:67-68 | selecting more industries never shrinks the listing |
| Browser.BioPreview | src/app.py:100 | a bio shows its first up to 500 characters followed by "...", and a missing or empty bio shows "No bio available." |
| Browser.ShortBioShownWhole | src/app.py:100 | a bio of at most 500 characters is shown whole |
| Browser.CardColumn | src/app.py:81-83 | every card lands in one of the three columns, the first three in order |
| Browser.ColumnsCycle | src/app.py:83 | cards three apart share a column |
| Browser.ColumnCounts | src/app.py:81-83 | of n cards, column c holds (n + 2 - c) / 3 |
| PyStr.Split | src/scraper.py:184 | the parts join back to the string, none holds the separator, and the last part is what follows the last cut |
| PyStr.SplitCutsFirst | src/scraper.py:184 | each cut of a split is at the first occurrence of the separator at or after the end of the previous cut, and the last part holds none |
| PyStr.FirstCutsUnique | src/scraper.py:184 | cutting at first occurrences leaves no choice: any parts cut that way are exactly what split returns |
| PyStr.BeforeFirst | src/scraper.py:158 | the first part of a split is the longest prefix without the separator: the whole string, or the text up to the first occurrence |
| PyStr.SplitSecond | src/scraper.py:216 | the second part of a split is the text after the first separator up to the next |
| PyStr.Strip | src/scraper.py:158 | the stripped text has no whitespace at either end and is unchanged if already stripped |
| PyStr.StripRemovesOnlySpace | src/scraper.py:177 | strip only removes whitespace at the two ends |
| PyStr.Slice | src/analyzer.py:52 | slicing counts negative bounds from the end and clamps both bounds into the string, so a bound past either end stops at that end |
| PyStr.ReplaceCharIsSwap | src/app.py:15 | replacing one character by another swaps exactly those characters |
| PyStr.ParseStr | src/scraper.py:80 | str(n) reads back as n |

## Left out

- HTTP fetching, HTML parsing and the selector mechanics (`get_soup`, BeautifulSoup): a listing page is a function from URL to hrefs plus a next flag, and a profile page is a datatype of optional selector results.
- The download, crop, RGB conversion and JPEG save in `process_image`, and `os.makedirs`: a boolean says whether saving succeeded; only the path is modelled.
- `time.sleep` pauses in discovery, the main loop and the analyzer's retry loop: they only affect timing.
- The Gemini client, the prompt text beyond the bio excerpt, and `json.loads`: they are oracle functions.
- SQLAlchemy sessions, integer surrogate ids and ORM relationship objects: commit is the new store and rollback the old one; links are keyed by professor URL and tag name.
- The Streamlit rendering, the sidebar widgets, the file-system debug expander and the per-card industry and sector lists: they are UI.
- The command-line main loop of the scraper, and the diagnostic scripts `debug_image_selector.py`, `src/review_industries.py` and `src/verify_db.py`: they only drive or print.
- Logging and printing throughout.
- Extraction.ScrapeDetails: the `try`/`except` around field extraction is not modelled; with abstract selector results none of the modelled steps can raise.
- Upsert.ListNames: a number or boolean inside the industries or sectors list is treated as making the save fail. SQLite would store such a value in the name column, but the model only stores string names.
- Upsert.InsertTagged: a tag named twice in one analysis is linked once. The ORM would append it twice and is likely to raise on the composite key; that behaviour is not modelled.
- Database.DirName: only POSIX `os.path.dirname` is modelled; Windows path rules are not.
- Browser.Browse: the result is a set of URLs; the order in which the database returns rows is not modelled.
- Browser.FixDbPaths: a failing commit, which the migration catches and prints, is not modelled.
- Browser.DepartmentOptions: the order of the options is not modelled.

## Findings

| source | as written | input that shows it | evidently intended | confidence | as-written member | corrected member |
|---|---|---|---|---|---|---|
| src/analyzer.py:17-20 | without `GEMINI_API_KEY` the analyzer returns the list `[]`; `save_professor` then calls `.get` on it (src/scraper.py:275), which raises, and the session rolls back | a profile URL not yet stored, with a non-empty bio, and no API key set | the profile is stored without industries or sectors | high (follows from Python semantics); not executed | Upsert.NoKeyDropsNewProfile | Upsert.NoKeyStillSaves |
