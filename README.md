# King County inspection scraper, modelled in Dafny

`scraper.py` fetches King County's restaurant health-inspection results page.
It picks out one `div` per restaurant listing and turns each listing into a
dictionary. The dictionary holds two kinds of entry:
- the label/value rows of the listing's table, grouped by label;
- three score figures over its inspection rows: `Average Score`, `High Score` and `Total Inspections`.

This project models the extraction and aggregation layer on an abstract
document, with the HTML parser removed:

- **Elements** (`dom.dfy`):
  - a `Row` is an element: a tag and its direct children;
  - a `Cell` is a tag and its single text string, or `None` when it has none;
  - a `Block` is a candidate listing: a tag, an optional `id`, the direct children of its first `tbody` (if any), and its descendant elements in document order.
- **Python dictionaries** (`pydict.dfy`): insertion-ordered lists of entries.
  - Assigning to a present key replaces its value in place.
  - Assigning to a new key appends it at the end.
  - `update` assigns each entry of the argument in order.
- **`clean_data`** (`text.dfy`): `strip(" \n:-")`, with a missing string cleaned to `""`. `lower()` and `int()` are also here.
- **The request parameters** of `get_inspection_page` (`request.dfy`): the URL, and the copy of `INSPECTION_PARAMS` that only recognised keyword arguments override.
- **`extract_data_listings`** (`listings.dfy`): the search for `PR[\d]+~` in a `div`'s `id`.
- **`has_two_tds` and `extract_restaurant_metadata`** (`metadata.dfy`): a blank label continues the previous one, and values accumulate per label in row order.
- **`is_inspection_row` and `extract_score_data`** (`scores.dfy`): the sample count, sum, running maximum and average of the third cells that parse as integers.
- **The merge `data.update(extract_score_data(listing))`** for one listing (`record.dfy`).

The two exceptions the extraction code can raise on an unexpected page are
modelled as `Err` results:
- `NoTableBody`: a listing without `tbody` (an AttributeError at line 83);
- `NoFirstCell`: a `tr` without a direct `td`, reached by `is_inspection_row` (an IndexError at line 102).

The loops of the source are methods proved against specification functions.
- `MergeParams` is proved against the fold `Merged`, and `MergedOverrides` relates `Merged` to the overriding rule `Overridden`.
- `ExtractRestaurantMetadata` is proved against `CurrentLabel` and `Metadata`.
- `SummarizeRows` is proved against `Scores` and `Summary`.

Lemmas then state what those functions promise.

## Model

| member | source | states |
|---|---|---|
| Text.Strip | scraper.py:76 | the result has no strip character (space, newline, colon, hyphen) at either end, and it is a contiguous piece of the input with only strip characters cut away on each side |
| Text.StripLeading | scraper.py:76 | the leading cut removes only strip characters from the front, and what is left is empty or starts with a character that is not one |
| Text.StripTrailing | scraper.py:76 | the trailing cut removes only strip characters from the back, and what is left is empty or ends with a character that is not one |
| Text.StripLeadingPrefix | scraper.py:76 | strip characters put in front of a text do not change its leading cut |
| Text.StripTrailingSuffix | scraper.py:76 | strip characters put after a text do not change its trailing cut |
| Text.Clean | scraper.py:72-78 | a missing text cleans to ""; otherwise the result is stripped at both ends and is a substring of the text with only strip characters removed around it |
| Text.StripEnds | scraper.py:76 | cutting the leading run of strip characters and then the trailing run leaves a stripped middle piece of the input |
| Text.StripUnique | scraper.py:76 | stripping is determined by its specification: any stripped string obtained from `s` by cutting strip characters off both ends is `Strip(s)` |
| Text.CleanStable | scraper.py:72-78 | a text with no strip character at either end is left unchanged by cleaning |
| Text.CleanIdempotent | scraper.py:72-78 | cleaning an already cleaned text returns it unchanged |
| Text.CleanExample | scraper.py:76 | "  :-Score-:  " cleans to "Score" |
| Text.Lower | scraper.py:102 | the result has the input's length and each character lower-cased (ASCII) |
| Text.ParseInt | scraper.py:117-119 | `int()` accepts exactly an optional '+' followed by one or more decimal digits, and then yields a non-negative value |
| Text.ParseIntValue | scraper.py:117 | `int(s)` is `n` exactly when `s` is an optional '+', any number of leading zeros and the decimal writing of `n` |
| Text.ParseIntCanonical | scraper.py:117 | every text `int()` accepts is an optional '+', leading zeros and the decimal writing of its value |
| Text.ParseIntPadded | scraper.py:117 | an optional '+' and leading zeros before the decimal writing of `n` still read as `n` |
| Text.LeadingZeroExample | scraper.py:117 | `int("007")` is 7 and `int("+00")` is 0 |
| Text.ParseDecimal | scraper.py:117 | `int()` reads back the decimal writing of every natural number, with or without a leading '+' |
| Text.DecimalValue | scraper.py:117 | the digit value of a number's decimal writing is the number |
| Text.Decimal | scraper.py:117 | the decimal writing of a natural number is one or more digits |
| Text.DigitsCanonical | scraper.py:117 | every run of digits is some leading zeros followed by the decimal writing of its value |
| Text.DigitsValueConcat | scraper.py:117 | the value of two digit runs written one after the other is the first shifted left by the second's length plus the second |
| Text.ZerosValue | scraper.py:117 | a run of zeros has value 0 |
| Text.DecimalAppend | scraper.py:117 | appending a digit to the writing of a positive number writes ten times the number plus that digit |
| Seqs.Filter | scraper.py:84 | selection keeps no more elements than the input, every kept element passes the test, and an element is kept exactly when it is in the input and passes the test |
| Seqs.FilterConcat | scraper.py:109 | selection from a concatenation is the selection from the first part followed by the selection from the second, so document order is kept |
| PyDict.Keys | scraper.py:41 | a dictionary's keys, one per entry, in insertion order |
| PyDict.Get | scraper.py:92 | a lookup succeeds exactly for the present keys, and in a dictionary with distinct keys it returns the value stored under the key |
| PyDict.Put | scraper.py:44 | assignment keeps the keys and their order when the key is present, and appends the key otherwise |
| PyDict.PutGet | scraper.py:44 | after `d[k] = v`, `k` maps to `v` and every other key maps to what it mapped to before |
| PyDict.PutGetAll | scraper.py:44 | after `d[k] = v`, every key holds what `PutGet` says |
| PyDict.PutValid | scraper.py:44 | assignment never makes a key occur twice |
| PyDict.Update | scraper.py:147 | `update` keeps the existing keys in their places at the front, and the result's keys are those of either dictionary |
| PyDict.UpdateValid | scraper.py:147 | `update` never makes a key occur twice |
| PyDict.UpdateGet | scraper.py:147 | after `d.update(e)`, a key of `e` holds its value in `e` and every other key holds its value in `d` |
| PyDict.ValidFreshKey | scraper.py:42 | in a dictionary with distinct keys, an entry's key does not occur among the earlier entries, so each keyword argument is read once |
| PyDict.ValidSplitLast | scraper.py:42 | a dictionary with distinct keys is its earlier entries, still distinct, followed by an entry whose key is new |
| PyDict.GetAppend | scraper.py:42-44 | a lookup in a dictionary extended at the end finds the earlier entry, then the new one |
| Request.Assign | scraper.py:43-44 | one keyword argument: a name among the defaults takes the argument's value, every other key keeps what it held, and the keys stay the defaults' keys |
| Request.Merged | scraper.py:41-44 | however many keyword arguments are read, the parameters keep exactly the defaults' keys in their order |
| Request.MergeParams | scraper.py:41-44 | the merged parameters have exactly the defaults' keys in their order; a recognised keyword argument's value replaces the default, every other key keeps its default, and unrecognised keyword arguments have no effect |
| Request.MergedOverrides | scraper.py:41-44 | after all keyword arguments are read, the parameters have exactly the defaults' keys; a key named by both takes the keyword argument's value, and every other key keeps its default |
| Request.MergedOverridesAt | scraper.py:41-44 | the same overriding rule for one key, by induction on the keyword arguments read |
| Request.OverrideNewKey | scraper.py:42-44 | one keyword argument more, not read before: a recognised key takes its value and nothing else changes |
| Request.InspectionRequest | scraper.py:38-44 | the request goes to the domain followed by the results path, with the sixteen default parameters overridden by the recognised keyword arguments |
| Listings.SearchListingId | scraper.py:58 | a successful scan needs an id of at least four characters containing 'P' and 'R'; `SearchListingIdCorrect` gives the exact condition |
| Listings.SearchListingIdCorrect | scraper.py:58 | the left-to-right scan succeeds exactly when `PR`, one or more digits and `~` occur somewhere in the id (search, not full match) |
| Listings.DigitsThenTildeFinds | scraper.py:58 | a successful digits-then-tilde scan yields the position of the tilde after a run of digits |
| Listings.DigitsThenTildeAccepts | scraper.py:58 | a run of digits followed by a tilde is accepted by the scan |
| Listings.SearchListingIdFinds | scraper.py:58 | a successful scan yields a position where the pattern occurs |
| Listings.SearchListingIdAccepts | scraper.py:58 | every occurrence of the pattern is found by the scan |
| Listings.IsListing | scraper.py:58-59 | an element passes the test exactly when it is a `div` with an `id` in which the pattern occurs |
| Listings.ExtractDataListings | scraper.py:56-59 | no more listings than elements; an element is a listing exactly when it is a `div` whose `id` contains the pattern |
| Listings.ListingIdExamples | scraper.py:58 | "PR0084952~" is a listing id; "PR~" (no digit) and "pr12~" (lower case) are not |
| Dom.HasTwoTds | scraper.py:62-69 | the test holds exactly for a `tr` with two direct `td` children, and then both selected cells are `td`s among the row's children |
| MetadataExtractor.TableRows | scraper.py:83-85 | a row is read for metadata exactly when it is a direct row of the table body and a `tr` with exactly two direct `td` children |
| MetadataExtractor.Fields | scraper.py:89-92 | one pair per metadata row, in row order: field `i` is the cleaned first cell and the cleaned second cell of row `i` |
| MetadataExtractor.CurrentLabel | scraper.py:87-91 | the label in force is "" or the label of one of the rows read |
| MetadataExtractor.CurrentLabelBlank | scraper.py:87-91 | the label in force is "" exactly when every label read so far is blank |
| MetadataExtractor.CurrentLabelIsLastNonBlank | scraper.py:87-91 | a non-blank label in force is the label of some row after which every label is blank, that is, the last non-blank label |
| MetadataExtractor.SetDefaultAppend | scraper.py:92 | the key gets its old list with the value appended, or a one-element list if it was absent, in which case it is added last; every other key keeps its list |
| MetadataExtractor.Metadata | scraper.py:87-92 | no more keys than rows; the label in force after the last row is a key; every key is "" or the label of one of the rows |
| MetadataExtractor.KeysAreLabels | scraper.py:91-92 | adding the label in force to keys that are labels of earlier rows keeps every key a label |
| MetadataExtractor.MetadataStep | scraper.py:88-92 | reading one more row puts its label in force if it is not blank, and appends its value under the label in force |
| MetadataExtractor.ExtractRestaurantMetadata | scraper.py:81-93 | a listing without `tbody` raises `NoTableBody`; otherwise the loop's result is the dictionary `Metadata` builds from the two-cell rows |
| MetadataExtractor.MetadataValues | scraper.py:87-92 | each label maps to exactly the values of the rows it is in force for, in row order, and a label is a key exactly when it has a value |
| MetadataExtractor.MetadataValid | scraper.py:92 | no label is stored twice |
| MetadataExtractor.TotalValuesPut | scraper.py:92 | replacing or adding one list changes the value count by the difference in lengths |
| MetadataExtractor.MetadataCount | scraper.py:88-92 | the dictionary holds as many values as there are rows |
| MetadataExtractor.TableRowsCounted | scraper.py:83-92 | the values across all labels number the two-cell `tr` rows of the table body |
| MetadataExtractor.ContinuationExample | scraper.py:90-92 | a blank label after "Address" adds a second value under "Address" |
| MetadataExtractor.LeadingBlankLabel | scraper.py:87-92 | a row with a blank label before any labelled row stores its value under "" |
| ScoreExtractor.IsInspectionRow | scraper.py:96-104 | a `tr` without a direct `td` raises `NoFirstCell`; otherwise the test accepts exactly a `tr` with four direct `td`s whose cleaned, lower-cased first cell contains "inspection" but does not start with it |
| ScoreExtractor.SelectedWordNotAtStart | scraper.py:103-104 | an accepted row has four cells, and "inspection" occurs in its first cell's text at a position after the start |
| ScoreExtractor.SelectInspectionRows | scraper.py:109 | selection raises `NoFirstCell` exactly when some descendant is a `tr` without a direct `td`, and otherwise returns the accepted rows |
| ScoreExtractor.InspectionRows | scraper.py:109 | no more rows than elements; a row is selected exactly when it is among the descendants and accepted by the test; each has four direct cells |
| ScoreExtractor.Scores | scraper.py:115-122 | no more scores than texts, none of them negative |
| ScoreExtractor.ScoresOfParsed | scraper.py:115-122 | there are as many scores as third cells that `int()` accepts, and every score is the value of one of them |
| ScoreExtractor.ScoresStep | scraper.py:116-122 | one more row appends its value when its third cell parses and changes nothing otherwise |
| ScoreExtractor.HighScore | scraper.py:112-122 | the running maximum is non-negative, at least every score, and either 0 or one of the scores |
| ScoreExtractor.Summary | scraper.py:123-129 | `Total Inspections` is the number of scores and `High Score` their running maximum; the average is 0 without samples, and otherwise times the sample count gives the total |
| ScoreExtractor.SummarizeStep | scraper.py:116-122 | one more row adds one sample, its value to the total and raises the high score only when strictly greater, when its third cell parses, and changes nothing otherwise |
| ScoreExtractor.AccumulateStep | scraper.py:121-122 | one more score adds to the total and replaces the high score only when strictly greater |
| ScoreExtractor.SumBounded | scraper.py:121 | a total of scores none above `h` is between 0 and their number times `h` |
| ScoreExtractor.SummarizeRows | scraper.py:110-129 | the loop yields the summary of the parsed third cells: samples start at the row count and lose one per unparsable cell, total and maximum run over the parsed values |
| ScoreExtractor.ExtractScoreData | scraper.py:107-130 | a bare `tr` among the descendants raises `NoFirstCell`; otherwise the summary of the inspection rows' third cells |
| ScoreExtractor.SummaryBounds | scraper.py:110-128 | `Total Inspections` is the number of parsed scores, the high score bounds each of them, everything is 0 without samples, and the average lies between 0 and the high score |
| ScoreExtractor.MeanBounded | scraper.py:123-124 | a total between 0 and `n * h` over `n` samples gives an average between 0 and `h` |
| ScoreExtractor.ScoreExample | scraper.py:114-128 | third cells "90", "abc", "100" give scores 90 and 100, high score 100, two inspections and average 95 |
| ScoreExtractor.CleanExampleCells | scraper.py:115 | the example's cell texts are already clean |
| ScoreExtractor.ParseNinety | scraper.py:117 | `int("90")` is 90 |
| ScoreExtractor.ParseHundred | scraper.py:117 | `int("100")` is 100 |
| ScoreExtractor.SummaryExample | scraper.py:123-129 | the scores 90 and 100 summarise to average 95.0, high 100, two inspections |
| Record.ScoreDict | scraper.py:125-129 | the score dictionary has the three distinct keys in source order, each holding its figure |
| Record.FromMetadata | scraper.py:146 | the metadata lists as record values: same keys and order, each list kept |
| Record.ListingRecord | scraper.py:147 | the merge keeps every metadata key in its place and, apart from the three score keys, its value; the score keys hold the summary; no key occurs twice |
| Record.ProcessListing | scraper.py:145-147 | a missing `tbody` raises first, then a bare `tr`; otherwise the record is the metadata updated with the score summary |

## Left out

- HTTP fetching with `requests.get` and `raise_for_status` (scraper.py:45-47) is network I/O; only the URL and parameters it receives are modelled.
- `load_inspection_page` (scraper.py:31-35) reads a cached file; file I/O is not modelled.
- `parse_source` and BeautifulSoup/html5lib tree building (scraper.py:50-53) are a foreign parser. The document is given already as listing candidates, rows and cells. The two views of a `Block` (its `tbody` rows and its descendants) are not tied to a single tree.
- `.string` is taken as given: a cell's text is `None` exactly when BeautifulSoup's `.string` would be.
- ScoreExtractor.SummarizeRows: reads the third direct `td` where the source's `find_all('td')[2]` (scraper.py:115) also counts nested cells; the two agree when no `td` other than the row's first two direct `td`s comes before its third direct `td` in document order.
- Text.ParseInt: does not accept what Python's `int()` also accepts beyond an optional '+' and ASCII digits (underscores between digits, non-ASCII digits, surrounding tabs or other whitespace). A leading '-' cannot reach it, because cleaning strips '-'.
- Text.ParseInt: has no length limit. Since Python 3.11, `int()` raises ValueError for a text of more than 4300 digits; the source catches it (scraper.py:118-119) and drops the sample, whereas the model counts that score.
- Listings.SearchListingIdCorrect: `[\d]` is taken as the ASCII digits, whereas Python's `re` also matches other Unicode decimal digits.
- Text.Lower: lower-cases ASCII letters only; Python's `lower()` also maps other scripts.
- ScoreExtractor.Summary: the average `total / samples` and `float(average)` (scraper.py:124-126) are exact rationals here, not floating point.
- Listings.ExtractDataListings: states which elements are kept, not their order; order follows from `Seqs.Filter`, whose order is stated by `Seqs.FilterConcat`.
- Request.MergeParams: keyword-argument values are modelled as strings, which is what the script passes.
- The `__main__` driver (scraper.py:133-150) is command-line and console I/O: `sys.argv`, the choice between cached and live page, `pprint` and the final count. Only its per-listing merge (scraper.py:146-147) is modelled, as `Record.ProcessListing`.
- `setup.py` is packaging metadata and holds no behaviour.
