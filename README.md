# Course catalogue scraper, modelled in Dafny

This project models the decision logic of `web_scraping.py`, a scraper
that reads the course listing of mate.academy, fetches each course's
detail page and builds one record per course with six fields: name,
description, study options, number of modules, number of topics and
duration. The HTML queries (`soup.find`, `soup.find_all`) are replaced by
plain data describing what they return, and every fetch-and-parse by a
value that is either a parsed document or `FetchFailed` (any exception
either step raises).

Modules, one per component of the script:

- `Wrappers` (wrappers.dfy): the `Option` type.
- `PyStr`, `PyValue` (pystr.dfy): the Python operations the script
  applies to extracted text (`strip()`, `in`, `split(' ')[0]`,
  `", ".join`, `int()`), and the `str`/`int` values of a record with
  Python truthiness and `or`.
- `Pages` (pages.dfy): the detail document, the listing entries and the
  fetch oracle `Fetcher`. It maps (entry index, requesting helper, URL) to
  a page, so the three fetches of one entry can fail independently.
- `Extractors` (extractors.dfy): `get_course_description`
  (`CourseDescription`), `get_study_options` (`GetStudyOptions`, specified
  by `StudyOptionsOf`) and `get_course_details` (`GetCourseDetails`,
  specified by `CourseDetailsOf`, `TopicTotal` and `LastDuration`).
- `Records` (records.dfy): the record as a dictionary, the six-name header
  shared by `print_courses` and `save_to_csv`, and the row each of them
  derives from a record: `TableRow` for the table `print_courses` prints,
  `CsvRow` for the line `save_to_csv` writes (`Reread` reads it back).
- `Assembler` (assembler.dfy): `get_course_info` (`GetCourseInfo`,
  specified by `CourseInfoOf`), the `or`-based record assembly
  (`MakeRecord`) and the per-entry skip.

Behaviour of the code worth knowing:

- A topic total of 0 is stored as "Not found", because Python's `or`
  discards it. The Topics cell of a page without modules therefore holds
  the same "Not found" as that of a page whose modules total 0 topics; only
  the Modules cell tells them apart (`NoModulesRecord`,
  `UnlabelledModulesRecord`).
- A malformed topic label does not drop the entry. `get_course_details`
  catches the error and returns the "Error" triple, so the entry still
  yields a record.
- A missing name on the FIRST listing entry does not skip that entry. The
  except handler then reads `course_name` before anything assigned it, so
  `get_course_info` itself raises (`Crashed(UnboundCourseName)`). On any
  later entry the first entry's name is still bound, and the entry is
  skipped.
- A failed listing fetch is not caught, so it also makes `get_course_info`
  raise (`Crashed(ListingFetchError)`). A listing without course entries
  gives an empty catalogue.

## Model

| member | source | states |
|---|---|---|
| `PyStr.StripLeftSuffix` | web_scraping.py:52 | `lstrip` leaves the suffix after the leading whitespace, and that suffix does not start with whitespace |
| `PyStr.StripRightPrefix` | web_scraping.py:52 | `rstrip` leaves the prefix before the trailing whitespace, and that prefix does not end with whitespace |
| `PyStr.StripSlice` | web_scraping.py:52 | `strip()` returns a slice of the text with only whitespace outside it; the slice neither begins nor ends with whitespace |
| `PyStr.StripEmptyIff` | web_scraping.py:52 | `strip()` gives "" exactly when the text is all whitespace |
| `PyStr.ContainsAt` | web_scraping.py:121 | the `in` test on strings holds exactly when the pattern occurs at some position |
| `PyStr.FirstTokenPrefix` | web_scraping.py:102 | `split(' ')[0]` is the prefix without spaces that ends at the first space or at the end of the text |
| `PyStr.ParseDecimal` | web_scraping.py:102 | `int()` reads back the decimal notation of every n, unsigned, with "+" and with "-" |
| `PyStr.ParseIntRejects` | web_scraping.py:102 | an empty token, a lone sign, or a token with a non-digit anywhere after its optional sign makes `int()` raise |
| `Extractors.GluedLabelMalformed` | web_scraping.py:99-102 | a label "5тем", number glued to its word, has no parsable first token, so the module's topic count fails |
| `Extractors.DescriptionOutcome` | web_scraping.py:44-57 | stripped block text when found, "Description not found" without the block, "Error fetching description" on failure; the result is empty exactly when the block holds only whitespace |
| `Extractors.StudyOptionsOf` | web_scraping.py:60-81 | "Error fetching study options" on failure, "No study options available" with neither link, otherwise the present labels joined by ", " with the full-time label first; never empty |
| `Extractors.GetStudyOptions` | web_scraping.py:60-81 | the list-appending helper returns `StudyOptionsOf(page)` |
| `Extractors.StudyOptionsRoundTrip` | web_scraping.py:65-78 | the returned string determines which of the two links the page had, and the error string is told apart from all of them |
| `Extractors.TopicTotalFails` | web_scraping.py:98-102 | one malformed topic label makes the whole total fail, wherever it stands |
| `Extractors.TopicTotalNoneIff` | web_scraping.py:98-102 | the total fails exactly when some module has a label whose first token is not an integer |
| `Extractors.TopicTotalAppend` | web_scraping.py:97-102 | the total over two consecutive module lists is the sum of their totals, and fails if either fails |
| `Extractors.TopicTotalUnlabelled` | web_scraping.py:97-101 | modules without a topic label add nothing: their total is 0 |
| `Extractors.LabelTopics` | web_scraping.py:102 | a label "<n> <word>" adds n topics, whatever the word |
| `Extractors.FiveTopicsExample` | web_scraping.py:97-102 | a module labelled "5 тем" and a module without a label total 5 |
| `Extractors.LastDurationWins` | web_scraping.py:112-123 | the duration is the stripped content of the last row that has both cells and a title containing "Тривалість" |
| `Extractors.LastDurationAbsent` | web_scraping.py:108-126 | with no such row the duration is "Not found" |
| `Extractors.LastDurationExample` | web_scraping.py:112-123 | rows "6 months" then "9 months", both labelled, give "9 months" |
| `Extractors.CourseDetailsOutcome` | web_scraping.py:84-130 | the "Error" triple exactly when the fetch failed or a label is malformed; otherwise the module count is the number of items, or "Not found" when there are none; topics are the label total (0 without modules); duration is the last duration row |
| `Extractors.GetCourseDetails` | web_scraping.py:84-130 | the method with the counting and scanning loops returns `CourseDetailsOf(page)` |
| `Extractors.EmptyContainerLikeMissing` | web_scraping.py:90-94 | an empty module container gives the same details as a missing one: "Not found" modules and 0 topics |
| `Records.FieldNamesDistinct` | web_scraping.py:137 | the six header names are distinct |
| `Records.SinksAgree` | web_scraping.py:137-161 | for a record with exactly the header's keys, the table row and the CSV row are the same six cells in header order, and reading them back under the header gives the record |
| `Assembler.RecordKeys` | web_scraping.py:30-37 | the record's keys are exactly the six header names |
| `Assembler.AssembledValues` | web_scraping.py:30-37 | study options and module count pass through unchanged; an empty description becomes "Not available"; a topic total of 0 becomes "Not found"; every other value is stored as returned |
| `Assembler.NoModulesRecord` | web_scraping.py:34-35 | a page without modules yields "Not found" for both modules and topics |
| `Assembler.UnlabelledModulesRecord` | web_scraping.py:34-35 | a page whose modules carry no topic label yields its module count as Modules but "Not found" as Topics |
| `Assembler.EntryContributes` | web_scraping.py:17-19 | an entry contributes a record exactly when it has both a name and an anchor with `href` |
| `Assembler.CatalogOrder` | web_scraping.py:15-41 | one record per complete entry, in listing order; the record of entry i is built from entry i and its own pages alone, so skipped entries do not affect later ones |
| `Assembler.CatalogWellFormed` | web_scraping.py:30-37 | every record in the catalogue has exactly the six header keys |
| `Assembler.GetCourseInfo` | web_scraping.py:7-41 | the listing loop returns `CourseInfoOf(listing, fetch)` |
| `Assembler.CourseInfoOutcome` | web_scraping.py:9-41 | raises exactly when the listing fetch fails or the first entry has no name; otherwise returns as many records as there are complete entries |
| `Assembler.FailedDetailPages` | web_scraping.py:19-37 | when every fetch of "https://mate.academy" + href fails, the entry still yields a record holding the three helpers' error sentinels |

## Left out

- HTTP and HTML parsing: `requests.get`, BeautifulSoup and the class-name selectors are foreign code. Each query is replaced by the data it would return, and each fetch by a `Page`. The response status is never checked, so an error page is just a parsed document.
- Output: the debug `print` calls, PrettyTable's rendering, `csv.DictWriter`'s quoting and the file writing are I/O. Only the row each sink derives from a record is modelled. The `str()` conversion of integers in the CSV file is not modelled either.
- The top-level script (lines 165-167) is not modelled. `save_to_csv` is never called there.
- `int()` leniency: the model parses an optional sign followed by ASCII digits. Python also accepts surrounding whitespace, underscores between digits and non-ASCII digits.
- The duration dictionary `{"Duration": ...}` is kept as its string. Its only key is always present, so the `.get` default never applies.
- Time and request order: the fetch oracle gives each (entry, helper, URL) its own page. It does not model a server whose answers change between requests in some other way.
- Exceptions other than failed fetches and malformed topic labels (printing errors, interrupts) are not modelled.
