/**
 * The documents the scraper reads, reduced to what its queries return.
 * Each `soup.find` becomes an optional value and each `soup.find_all` a
 * sequence; the HTTP request and the parse become the `Page` wrapper,
 * whose `FetchFailed` stands for any exception either of them raises.
 */
module Pages {
  import opened Wrappers

  /** One `li` item of the module list: the text of its topic-count paragraph, if it has one. */
  datatype CourseModule = CourseModule(topicsLabel: Option<string>)

  /** One feature row of the course table: the texts of its title and content cells, if present. */
  datatype FeatureRow = FeatureRow(title: Option<string>, content: Option<string>)

  /** What a parsed detail page offers to the three extractors. */
  datatype Document = Document(
    description: Option<string>,           // text of the description block
    fullTimeLink: bool,                    // an anchor whose text is the full-time label
    flexTimeLink: bool,                    // an anchor whose text is the flexible-time label
    modulesList: Option<seq<CourseModule>>, // the module list container and its items
    featureRows: seq<FeatureRow>)

  /** The outcome of `requests.get(url)` followed by `BeautifulSoup(...)`. */
  datatype Page = FetchFailed | Fetched(doc: Document)

  /** One course entry of the listing page: its label text and the `href` of the first anchor that has one. */
  datatype Entry = Entry(name: Option<string>, href: Option<string>)

  /** The listing page: the fetch at the start of `get_course_info`, which nothing guards. */
  datatype Listing = ListingFetchFailed | ListingFetched(entries: seq<Entry>)

  /** Which helper issues a request; each helper fetches the detail page anew. */
  datatype Request = DescriptionRequest | StudyOptionsRequest | DetailsRequest

  /**
   * The network as seen by the scraper: the page that the request of kind
   * `r` for `url`, made while processing listing entry `i`, got back.
   */
  type Fetcher = (nat, Request, string) -> Page
}
