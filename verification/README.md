# Steam listing scraper: the pure rules, in Dafny

This project models the deterministic core of a Steam store scraper. It states and proves what each rule promises.

- **`src/utils.py`.** Digit extraction (`regex_get_num_from_str`). The skip-if-exists CSV export (`export_to_csv`), over a file system modelled as a map from path to contents.
- **`src/page_helpers.py`.** Reading the search-results pagination control (`get_pages`): the total listings, the maximum page, the current page and the navigable pages. Also the back/forward check (`check_movement`).
- **`src/failure_records.py`.** The two all-null failure records and the column sets they fix.
- **`src/bs4_helpers.py`.** Each per-field accessor of a listing page, as a pure function from a `ListingPage`. A `ListingPage` holds the texts and attribute values the accessor's selectors would find; `None` marks a selector that finds nothing. Also the record `scrape_game_listing` assembles, and the exceptions that escape it.
- **`src/page_scrapers.py:218-230`.** The record-level fallback: the scraped record, or the listing failure record. This part also appends the page and listing numbers.

Python's `None` and `np.nan` are one `Null` value. A float parsed from text is the opaque `Float(literal)`. An exception that escapes a function is the `Err` side of a `Result`.

Modules, one per source file, plus three shared ones:

- `Maybe`: `Option` and `Result`.
- `PyText`: Python's `str.partition`, `split`, `join`, `replace` and `strip`; `int()`; `os.path.basename`, `join` and `splitext`.
- `Records`: cells and rows.

## Model

| member | source | states |
|---|---|---|
| `Utils.NumFromStr` | src/utils.py:57-59 | the result holds only ASCII digits, is a subsequence of the input, and holds each digit exactly as often as the input does: it is the input's digits in order |
| `Utils.CommaReplaceIsNoOp` | src/utils.py:59 | the trailing `.replace(",", "")` never changes the result, because the `\D` substitution has already removed every comma |
| `Utils.NumFromStrIdempotent` | src/utils.py:59 | extracting digits from the extracted digits gives them back unchanged |
| `Utils.NumFromStrEmptyIff` | src/utils.py:59 | the result is the empty string exactly when the input has no digit (the empty input included), never a numeric null |
| `Utils.NumFromStrExamples` | src/utils.py:59 | `"1,234 reviews"` gives `"1234"` and `""` gives `""` |
| `Utils.CsvPath` | src/utils.py:64 | the target path is the name plus `.csv` alone when the name starts with `/`; `data_dir`, one `/` and the name plus `.csv` when `data_dir` is non-empty and does not end in `/`; their plain concatenation otherwise. It always ends with `fname_no_ext + ".csv"`, and a name without `/` is its base name |
| `PyText.JoinPath` | src/utils.py:64 | `os.path.join(a, b)` is `b` when `b` is absolute, `a + b` when `a` is empty or ends in `/`, and `a + "/" + b` otherwise |
| `Utils.ExportToCsv` | src/utils.py:62-69 | the path is added with the table only when it was absent; every existing file keeps its contents; no other path appears |
| `Utils.ExportTwiceIsOnce` | src/utils.py:65-69 | a second export to the same target, with any table, leaves the files as the first export left them |
| `PyText.ParseInt` | src/page_helpers.py:21 | `int()` succeeds exactly when the stripped text is ASCII digits with an optional `+` or `-` in front; the value is the number the digits denote, negated after `-`; on digits alone it is that number, and the empty string fails |
| `PageHelpers.PageOf` | src/page_helpers.py:23 | `ceil(n / 25)` is the page listing `n` falls on: 25 × (p - 1) < n <= 25 × p |
| `PageHelpers.MaxPage` | src/page_helpers.py:21-23 | the maximum page holds all listings, and one page fewer would not |
| `PageHelpers.ShowingListings` | src/page_helpers.py:25-28 | the shown numbers are the values of all digit runs of the left box except the last one, in order |
| `PageHelpers.PaginationBoxRoundTrip` | src/page_helpers.py:21-28 | reading a rendered box `"Showing a - b of t"` gives back `t` as the total (the last word) and `[a, b]` as the shown numbers |
| `PageHelpers.CurrentPageAsWritten` | src/page_helpers.py:30-36 | as the source computes it: fails on an empty list; 1 when some shown number is below 25; otherwise the largest truncated quotient of a shown number by 25 |
| `PageHelpers.CurrentPage` | src/page_helpers.py:30-36 | with the quotient rounded up: fails on an empty list; 1 when a 0 is shown; otherwise the page of some shown number, with every shown number on that page or before it |
| `PageHelpers.CurrentPageIsShownPage` | src/page_helpers.py:30-36 | for consecutive listings `first..last` on one page, the current page is that page |
| `PageHelpers.CurrentPageAsWrittenMissesPartialPage` | src/page_helpers.py:30-36 | on `"Showing 101 - 110 of 110"`, the last of 5 pages, the source's rule reports page 4 and the rounded-up rule reports page 5 |
| `PageHelpers.RangeFromZeroIsPageOne` | src/page_helpers.py:33-34 | a box whose range starts at 0 reads as page 1 |
| `PageHelpers.LinkPages` | src/page_helpers.py:38-44 | the numbers of the links other than `<` and `>`; the call fails exactly when one of those labels is not a number |
| `PageHelpers.SortedSet` | src/page_helpers.py:45-48 | `sorted(set(xs))` is strictly increasing and has exactly the members of `xs` |
| `PyText.Without` | src/page_helpers.py:45-47 | removing a value keeps exactly the other items and never lengthens the list |
| `PyText.WithoutAppend` | src/page_helpers.py:45-47 | removing a value from a concatenation removes it from each part, so the kept items stay in their order |
| `PageHelpers.WithoutIncreasing` | src/page_helpers.py:45-48 | removing the maximum page from a strictly increasing list leaves it strictly increasing, so the sorted set difference is the sorted set less that page |
| `PageHelpers.StrictlyIncreasingUnique` | src/page_helpers.py:45-48 | a strictly increasing list is fixed by its members, so the navigable pages are determined as a set |
| `PageHelpers.GetPages` | src/page_helpers.py:15-56 | the navigable pages are strictly increasing, and are exactly the numbered links plus the current page, less the maximum page; the per-number page list has one entry per shown number, the page that number falls on; the call fails exactly when the total is unreadable, no number is shown, or a link label is not a number; with `verbose`, a successful call has navigable pages |
| `PageHelpers.GetPagesVerbose` | src/page_helpers.py:50-56 | with `verbose`, `get_pages` returns what it returns without, except that it raises when there are no navigable pages |
| `PageHelpers.GetPagesOnBox` | src/page_helpers.py:15-56 | on a rendered box whose range lies on one page, `get_pages` under the rounded-up rule returns that page, its per-number pages, and the sorted linked pages plus that page less the maximum page |
| `PageHelpers.NavigablePagesExample` | src/page_helpers.py:45-48 | on page 2 of 5 with links 2, 3 and 5, the navigable pages are `[2, 3]` |
| `PageHelpers.CheckMovement` | src/page_helpers.py:59-83 | can move back exactly when there is a first button and it reads `<`; forward exactly when there is a last button and it reads `>`; no buttons gives neither, not an error |
| `FailureRecords.SearchResultsFailureRecord` | src/failure_records.py:11-31 | exactly the ten listed columns, all null, among them `page_num`, `title_listing` and `num_reviews_listing` |
| `FailureRecords.ListingFailureRecord` | src/failure_records.py:34-68 | exactly the twenty-four listed columns, all null, neither of them `page_num` or `listing_num` |
| `FailureRecords.ListingColumnsLeaveOutRowIndex` | src/failure_records.py:43-68 | the listing schema has no `page_num` and no `listing_num` column |
| `FailureRecords.FailureSchemasDisjoint` | src/failure_records.py:20-68 | the two failure schemas share no column |
| `Bs4Helpers.GetPriceFromListingsPage` | src/bs4_helpers.py:19-41 | price is null exactly when sale is; sale is false exactly when the regular cell exists with a non-empty price text, and true exactly when only the discounted cell exists with one; the price is that cell's text after the first `"$ "`, with `"CDN$ "` turned into `", "` |
| `Bs4Helpers.PriceOfOneAmount` | src/bs4_helpers.py:34 | a cell `"CDN$ 19.99"` gives back the amount `19.99` |
| `Bs4Helpers.PriceOfTwoAmounts` | src/bs4_helpers.py:34 | a sale cell `"CDN$ a" + "CDN$ b"` gives `"a, b"` |
| `Bs4Helpers.GetOverallReviewRating` | src/bs4_helpers.py:44-55 | the review summary text when present; otherwise the first summary span's text when the summary section has a span; null exactly when neither exists |
| `Bs4Helpers.ScoreFromTooltip` | src/bs4_helpers.py:58-92 | null for both values exactly when there is no tooltip or it asks for more reviews; raises exactly when the tooltip lacks `"for this game are "`; otherwise the percentage is the text before the first `%` and the threshold has no `.` |
| `Bs4Helpers.ThresholdBetweenMarkers` | src/bs4_helpers.py:69-71 | the threshold is the text between the first and the second marker, with every dot removed |
| `Bs4Helpers.ScoreOfTooltip` | src/bs4_helpers.py:58-92 | a tooltip `p% … for this game are q` gives back `p` as the percentage and `q` without dots as the threshold |
| `Bs4Helpers.OverallTooltip` | src/bs4_helpers.py:61-63 | the tooltip read is the first summary span's when that span exists, and none when the container is missing or has no span |
| `Bs4Helpers.FilteredTooltip` | src/bs4_helpers.py:78-82 | the tooltip read is the last language-filtered span's when there is one, and none when the container is missing or has no span |
| `Bs4Helpers.CountFromText` | src/bs4_helpers.py:128 | `int(...)` of the extracted digits: null exactly when there are none, otherwise the number they denote |
| `Bs4Helpers.CountOfLabel` | src/bs4_helpers.py:128 | a count written between two digit-free texts reads back as that count |
| `Bs4Helpers.ReviewCount` | src/bs4_helpers.py:103-109 | a review-type count is null exactly when its label or count span is missing; otherwise it is the digits of the count span's text, a digit string |
| `Bs4Helpers.GetAllReviewsCount` | src/bs4_helpers.py:115-131 | the all-reviews label's digit string when that label exists, and text only then; an integer exactly when it does not and the second summary span has digits; otherwise null |
| `Bs4Helpers.GetSteamAchievements` | src/bs4_helpers.py:205-218 | null exactly when the banner is missing or has no digits, otherwise the number its digits denote |
| `Bs4Helpers.SetEach` | src/bs4_helpers.py:136-156 | setting keys in a loop adds exactly those keys, gives each its value and keeps every other key |
| `Bs4Helpers.GetSubReviewCounts` | src/bs4_helpers.py:95-112 | exactly the three review-type keys are set, each null or a digit string; every other key keeps its value |
| `Bs4Helpers.ReleaseField` | src/bs4_helpers.py:152-155 | null exactly when nothing follows the first `"<field>: "`; otherwise the text up to the next line break, with no line break in it |
| `Bs4Helpers.ReleaseFieldOfFirstLine` | src/bs4_helpers.py:152-155 | a block opening with `"<field>: <value>"` and a line break gives `value` |
| `Bs4Helpers.ReleaseFieldAfter` | src/bs4_helpers.py:152-155 | a field read after text lacking the field's first letter gives the value on its line |
| `Bs4Helpers.FieldInsideLongerField` | src/bs4_helpers.py:152-155 | a field name that ends a longer field name reads the longer field's value when that line comes first |
| `Bs4Helpers.ReleaseDateReadsEarlyAccessLine` | src/bs4_helpers.py:136-155 | when the `Early Access Release Date` line comes first, `Release Date` reads the early-access date too |
| `Bs4Helpers.GetReleaseSummaryDetails` | src/bs4_helpers.py:134-157 | raises exactly when there is no details block; otherwise sets exactly the seven field keys, each its line of the normalised block or null, none with a line break, and keeps every other key |
| `Bs4Helpers.GetLanguages` | src/bs4_helpers.py:160-169 | raises exactly when there is no language table; otherwise sets only `languages`, the names joined by `", "`, and `num_languages`, their count |
| `Bs4Helpers.LanguagesRoundTrip` | src/bs4_helpers.py:166-168 | the joined languages split back into the table's names, as many as `num_languages` |
| `Bs4Helpers.PlatformNames` | src/bs4_helpers.py:178-183 | no name is `platform_img`, and every other class name of a span appears |
| `Bs4Helpers.PlatformNamesOfSpan` | src/bs4_helpers.py:178-183 | one span contributes its class list in order, less `platform_img` |
| `Bs4Helpers.PlatformNamesAppend` | src/bs4_helpers.py:178-183 | the names of consecutive spans are the earlier spans' names followed by the later ones', so the names come span by span in document order |
| `Bs4Helpers.GetPlatforms` | src/bs4_helpers.py:172-188 | `"Unknown"` when the container is missing or a span has no class; otherwise the platform class names joined by `", "` |
| `Bs4Helpers.PlatformsRoundTrip` | src/bs4_helpers.py:178-185 | the result splits back into exactly the platform class names, none of them `platform_img` |
| `Bs4Helpers.JoinStripped` | src/bs4_helpers.py:194-201 | null exactly when the container is missing or empty; otherwise the stripped texts joined by `", "` |
| `Bs4Helpers.JoinStrippedRoundTrip` | src/bs4_helpers.py:194-199 | the joined text splits back into the stripped texts, none with surrounding whitespace |
| `Bs4Helpers.GetUserDefinedTags` | src/bs4_helpers.py:191-202 | null exactly when there are no tags, otherwise the stripped tags joined by `", "` |
| `Bs4Helpers.GetDrm` | src/bs4_helpers.py:300-309 | null exactly when there are no notices, otherwise the stripped notices joined by `", "` |
| `Bs4Helpers.RatingName` | src/bs4_helpers.py:272 | the rating is a prefix of the URL's base name and holds no `/` |
| `Bs4Helpers.RatingOfIconUrl` | src/bs4_helpers.py:272 | an icon URL `dir/name.ext` rates as `name`, for every `name` without `/` that is not all dots, dots inside it included |
| `Bs4Helpers.GetRating` | src/bs4_helpers.py:261-276 | one key, `rating`: null exactly when there is no icon, otherwise the icon's file name without extension |
| `PyText.SplitExtExtension` | src/bs4_helpers.py:272 | an extension `os.path.splitext` splits off is a dot followed by no dot and no `/` |
| `PyText.SplitExtStem` | src/bs4_helpers.py:272 | an extension is preceded, within the base name, by some character other than a dot, so a leading dot never starts one |
| `PyText.SplitExtNoDot` | src/bs4_helpers.py:272 | a base name without a dot has no extension |
| `PyText.SplitExtOfName` | src/bs4_helpers.py:272 | `splitext(name + ext)` gives back `name` and `ext` whenever the name has no `/` and is not all dots |
| `Bs4Helpers.DescriptorsText` | src/bs4_helpers.py:290-294 | the descriptors text has no carriage return and no line break |
| `Bs4Helpers.DescriptorsTextOfOneLine` | src/bs4_helpers.py:290-294 | a text with no carriage return and no line break is only stripped |
| `Bs4Helpers.GetRatingDescriptors` | src/bs4_helpers.py:279-297 | one key, `rating_descriptors`: null exactly when the paragraph is missing, otherwise the paragraph's descriptors text, on one line |
| `Bs4Helpers.DescriptorLinesRoundTrip` | src/bs4_helpers.py:290-294 | descriptor lines separated by line breaks come back joined by `", "`, and split back into the lines |
| `Bs4Helpers.DescriptorCrLfLinesRoundTrip` | src/bs4_helpers.py:290-294 | descriptor lines separated by `"\r\n"` come back the same way: the carriage returns are dropped, the lines joined by `", "` and split back into them |
| `Bs4Helpers.RequirementList` | src/bs4_helpers.py:238-254 | `""` when the column is missing; otherwise the stripped items, each in brackets, joined by `", "`, which starts with `[` and ends with `]` when there are items |
| `Bs4Helpers.RequirementListRoundTrip` | src/bs4_helpers.py:238-254 | the list splits back into the bracketed stripped items when none of them holds `", "` |
| `Bs4Helpers.GetSystemRequirements` | src/bs4_helpers.py:221-258 | exactly the four keys minimum/recommended × win/mac; `""` for a platform without a section, otherwise the bracketed requirement lists |
| `Bs4Helpers.SystemRequirementsIgnorePlatform` | src/bs4_helpers.py:234-236 | with both platform sections present, win and mac report the same requirements, because the columns are looked up page-wide |
| `Bs4Helpers.BaseInfo` | src/bs4_helpers.py:327-338 | the initial dict has exactly the ten base columns, each holding the value `BaseValue` names for it |
| `Bs4Helpers.BaseValue` | src/bs4_helpers.py:315-338 | each base column holds the result of the accessor the source calls for it: the two percentage pairs split into `pct_overall`/`pct_overall_threshold` and their `_lang` twins, the platform names as text, and so on; any other name is null |
| `Bs4Helpers.RatedInfo` | src/bs4_helpers.py:327-343 | after the rating updates, the dict has the ten base columns plus `rating` and `rating_descriptors`; the base columns keep their values, and the two new ones hold what `get_rating` and `get_rating_descriptors` return |
| `Bs4Helpers.Assemble` | src/bs4_helpers.py:344-346 | raises exactly when the details block or the language table is missing; otherwise adds the three review counts, each the `ReviewCount` of its label, the seven release fields, each the `ReleaseField` of the normalised block, and the two language columns, the names joined by `", "` and their count; every other column keeps its value |
| `Bs4Helpers.AddDetails` | src/bs4_helpers.py:345-346 | raises exactly when the details block or the language table is missing; otherwise sets the seven release fields from the normalised block and the two language columns, and keeps every other column |
| `Bs4Helpers.AssembleKeepsRated` | src/bs4_helpers.py:339-346 | the last three calls never change a base or rating column |
| `Bs4Helpers.ScrapeGameListing` | src/bs4_helpers.py:312-347 | raises exactly when either percentage accessor raises or the details block or language table is missing; otherwise returns exactly the columns of the listing failure record, with the joined language names and their count |
| `Bs4Helpers.ScrapeGameListingKeepsRated` | src/bs4_helpers.py:312-347 | a scraped record holds, in each base column, the value the dict literal gives it from the page's accessors, and in `rating` and `rating_descriptors` what their accessors return |
| `Bs4Helpers.ScrapeGameListingSetsGroups` | src/bs4_helpers.py:312-347 | a scraped record holds in each review-type column the `ReviewCount` of its label, and in each release column the `ReleaseField` of the normalised details block |
| `Bs4Helpers.ListingColumnsByGroup` | src/failure_records.py:43-68 | the listing failure schema is the union of the column groups the accessors set |
| `PageScrapers.ListingDetails` | src/page_scrapers.py:218-223 | the row always has the failure schema's columns: the scraped record when scraping succeeds, the all-null record when it raises; it is all null exactly when scraping raised |
| `PageScrapers.ListingRow` | src/page_scrapers.py:226-231 | the written row has 26 columns: every detail keeps its value, and `page_num` and `listing_num` are added |
| `PageScrapers.WithRowIndex` | src/page_scrapers.py:229-230 | the two assignments add `page_num` and `listing_num`; when neither was a column before, the row grows by two and nothing else changes |

## Left out

- `src/webscraping_utils.py`, `src/selenium_helpers.py` and `src/single_page_navigation_helpers.py` are not part of this model. They hold user-agent tables, random choices, sleeps, mouse hovers and scrolling: randomness and browser calls with no pure rule to state.
- `papermill_runner.py` and `nbconverter.py` are not part of this model. They are notebook and subprocess plumbing.
- The display and Parquet helpers of `src/utils.py` are not part of this model: pandas display and file I/O.
- `src/page_scrapers.py` is modelled only at lines 218-231: the choice between the scraped record and the failure record, and the two appended columns. The rest is Selenium-driven and writes files. Its zero-listings branch (lines 153-168) reads `k`, which is unbound when no listing was visited. That branch raises rather than producing 25 null rows, so no property is claimed for it. Its search-result rows (lines 119-129) use keys other than the search failure schema, so no parity is claimed for search results.
- HTML is abstracted away. BeautifulSoup selectors and `pd.read_html` in `get_languages` are replaced by `ListingPage`, which holds what each selector would find. The language table is its first column of names.
- Selenium's `find_element_by_xpath` is abstracted away too. `get_pages` and `check_movement` take the box text and the link labels.
- `Bs4Helpers.ScoreFromTooltip`: `float(...)` of the percentage text is an opaque `Float(literal)`. The `ValueError` it raises on a non-numeric text, which would escape `scrape_game_listing`, is not modelled.
- Python's `\d` and `\D` are Unicode-aware; the model's digits are the ASCII digits only. Whitespace, for `strip()`, `split()` and `int()`, is Unicode `str.isspace` (`PyText.IsSpace`). `PyText.ParseInt` does not accept the underscores or non-ASCII digits that `int()` accepts.
- `np.nan` and `None` are one `Null`. The model does not show how pandas writes them to CSV. The CSV contents themselves are an opaque table value.
- The `print` calls, including the verbose message of `get_pages`, are not modelled. The `max()` of that message is modelled: it raises on an empty page list, as the `NoPageNumbersToShow` error.
- `PageHelpers.GetPagesOnBox`: states what `get_pages` returns under the rounded-up rule, not the source's truncated one, which differs on a partly filled last page (see Findings).
- `PageHelpers.GetPages` uses the rounded-up current page (see Findings). It also returns the rounded-up per-number page list in place of the source's truncated one. `PageHelpers.CurrentPageAsWritten` keeps the source's rule.
- `Bs4Helpers.NormalizeDetails` (stripping, then the three `replace` calls at src/bs4_helpers.py:147-150) is modelled. No property of the normalised text is proved beyond what `ReleaseField` states about any block.
- Column order is not modelled: records are maps. A scraped record and the listing failure record are proved to have the same columns, not the same order. The failure record lists `languages` and `num_languages` 13th and 14th, while `scrape_game_listing` adds them last, so the written rows order them differently.
- `Utils.ExportToCsv`: the write failure of `df.to_csv` (a missing `data_dir`, no write permission; src/utils.py:66) is not modelled. The model always adds the file when the path is absent.
- `.title()` and `re.sub(r"\W+", ...)` in the file-name logic of `src/page_scrapers.py` are not modelled (case mapping).

## Findings

| source | as written | input that shows it | evidently intended | confidence | as-written member | corrected member |
|---|---|---|---|---|---|---|
| src/page_helpers.py:30-36 | the current page is `int(x / 25)` for each shown number: the quotient is truncated | `"Showing 101 - 110 of 110"`: the quotients are 4 and 4, so page 4 is reported, but listings 101-110 are on page 5 of 5 | the page each shown listing is on, `ceil(x / 25)`, which also reads 1 for listings 1-25 | not executed | `PageHelpers.CurrentPageAsWritten`, `PageHelpers.CurrentPageAsWrittenMissesPartialPage` | `PageHelpers.CurrentPage`, `PageHelpers.CurrentPageIsShownPage` |
