/**
 * The three per-page helpers of web_scraping.py: `get_course_description`,
 * `get_study_options` and `get_course_details`. Each receives the detail
 * page it fetched itself and turns every failure into a sentinel value
 * instead of raising.
 */
module Extractors {
  import opened Wrappers
  import opened PyStr
  import opened PyValue
  import opened Pages

  const DescriptionNotFound := "Description not found"
  const DescriptionError := "Error fetching description"
  const FullTimeLabel := "Навчатися повний день"
  const FlexTimeLabel := "Навчатися у вільний час"
  const NoStudyOptions := "No study options available"
  const StudyOptionsError := "Error fetching study options"
  const NotFound := "Not found"
  const DurationLabel := "Тривалість"

  // ---------------------------------------------------------------- description

  /** `get_course_description`. */
  function CourseDescription(page: Page): string {
    match page
    case FetchFailed => DescriptionError
    case Fetched(doc) => if doc.description.Some? then Strip(doc.description.value) else DescriptionNotFound
  }

  /**
   * The description is the stripped block text, "Description not found"
   * without the block and "Error fetching description" when the fetch
   * failed; it never begins or ends with whitespace, and it is empty
   * exactly when the block holds only whitespace.
   */
  lemma DescriptionOutcome(page: Page)
    ensures page.FetchFailed? ==> CourseDescription(page) == DescriptionError
    ensures page.Fetched? && page.doc.description.None? ==> CourseDescription(page) == DescriptionNotFound
    ensures page.Fetched? && page.doc.description.Some? ==> CourseDescription(page) == Strip(page.doc.description.value)
    ensures CourseDescription(page) == "" <==>
      page.Fetched? && page.doc.description.Some? && AllSpace(page.doc.description.value)
    ensures var r := CourseDescription(page); r == [] || (!IsSpace(r[0]) && !IsSpace(r[|r| - 1]))
  {
    if page.Fetched? && page.doc.description.Some? {
      var t := page.doc.description.value;
      StripEmptyIff(t);
      var _ := StripSlice(t);
    }
  }

  // ---------------------------------------------------------------- study options

  /** The labels of the links present on the page, full-time first, as the source checks them. */
  function OfferedLabels(doc: Document): seq<string> {
    (if doc.fullTimeLink then [FullTimeLabel] else []) + (if doc.flexTimeLink then [FlexTimeLabel] else [])
  }

  /** What `get_study_options` returns for a page. */
  function StudyOptionsOf(page: Page): (r: string)
    ensures page.FetchFailed? ==> r == StudyOptionsError
    ensures page.Fetched? && !page.doc.fullTimeLink && !page.doc.flexTimeLink ==> r == NoStudyOptions
    ensures page.Fetched? && page.doc.fullTimeLink && !page.doc.flexTimeLink ==> r == FullTimeLabel
    ensures page.Fetched? && !page.doc.fullTimeLink && page.doc.flexTimeLink ==> r == FlexTimeLabel
    ensures page.Fetched? && page.doc.fullTimeLink && page.doc.flexTimeLink ==> r == FullTimeLabel + ", " + FlexTimeLabel
    ensures r != ""
  {
    match page
    case FetchFailed => StudyOptionsError
    case Fetched(doc) =>
      var labels := OfferedLabels(doc);
      JoinPair(FullTimeLabel, FlexTimeLabel, ", ");
      if labels == [] then NoStudyOptions else Join(labels, ", ")
  }

  lemma JoinPair(a: string, b: string, sep: string)
    ensures Join([a, b], sep) == a + sep + b
  {
  }

  /** `get_study_options`: collect the labels of the links found, then join them. */
  method GetStudyOptions(page: Page) returns (s: string)
    ensures s == StudyOptionsOf(page)
  {
    if page.FetchFailed? {
      return StudyOptionsError;
    }
    var doc := page.doc;
    var options: seq<string> := [];
    if doc.fullTimeLink {
      options := options + [FullTimeLabel];
    }
    if doc.flexTimeLink {
      options := options + [FlexTimeLabel];
    }
    if options == [] {
      return NoStudyOptions;
    }
    s := Join(options, ", ");
  }

  /**
   * Reads the study-options string back: which links the page had, or None
   * for the fetch error. The six strings are told apart by their lengths.
   */
  function ParseStudyOptions(s: string): Option<(bool, bool)> {
    if s == NoStudyOptions then Some((false, false))
    else if s == FullTimeLabel then Some((true, false))
    else if s == FlexTimeLabel then Some((false, true))
    else if s == FullTimeLabel + ", " + FlexTimeLabel then Some((true, true))
    else None
  }

  /** The study-options string loses nothing: it determines which of the two links the page had. */
  lemma StudyOptionsRoundTrip(page: Page)
    ensures page.Fetched? ==> ParseStudyOptions(StudyOptionsOf(page)) == Some((page.doc.fullTimeLink, page.doc.flexTimeLink))
    ensures page.FetchFailed? ==> ParseStudyOptions(StudyOptionsOf(page)) == None
  {
  }

  // ---------------------------------------------------------------- modules and topics

  /** The module items: none when the container is missing, as `... if modules_list else []`. */
  function ModulesOf(doc: Document): seq<CourseModule> {
    if doc.modulesList.Some? then doc.modulesList.value else []
  }

  /** `int(text.strip().split(' ')[0])`, None when that raises. */
  function LabelNumber(text: string): Option<int> {
    ParseInt(FirstToken(Strip(text)))
  }

  /** The topics one module adds: 0 without a label, else the number its label starts with. */
  function ModuleTopics(m: CourseModule): Option<int> {
    match m.topicsLabel
    case None => Some(0)
    case Some(text) => LabelNumber(text)
  }

  /** The running topic total over a prefix of the modules, None once a label failed to parse. */
  function TopicTotal(ms: seq<CourseModule>): Option<int> {
    if ms == [] then Some(0)
    else
      match TopicTotal(ms[..|ms| - 1])
      case None => None
      case Some(t) =>
        match ModuleTopics(ms[|ms| - 1])
        case None => None
        case Some(k) => Some(t + k)
  }

  /** One more module extends the running total. */
  lemma TopicTotalStep(ms: seq<CourseModule>, i: nat)
    requires i < |ms|
    ensures TopicTotal(ms[..i + 1]) ==
      if TopicTotal(ms[..i]).Some? && ModuleTopics(ms[i]).Some? then Some(TopicTotal(ms[..i]).value + ModuleTopics(ms[i]).value) else None
  {
    assert ms[..i + 1][..i] == ms[..i];
  }

  /** A malformed label makes the total fail, whatever follows it. */
  lemma {:induction false} TopicTotalFails(ms: seq<CourseModule>, k: nat)
    requires k < |ms| && ModuleTopics(ms[k]).None?
    ensures TopicTotal(ms) == None
    decreases |ms|
  {
    if k < |ms| - 1 {
      TopicTotalFails(ms[..|ms| - 1], k);
    }
  }

  /** The total fails exactly when some module's label is present and does not parse. */
  lemma {:induction false} TopicTotalNoneIff(ms: seq<CourseModule>)
    ensures TopicTotal(ms) == None <==> exists k :: 0 <= k < |ms| && ModuleTopics(ms[k]).None?
    decreases |ms|
  {
    if ms != [] {
      var init := ms[..|ms| - 1];
      TopicTotalNoneIff(init);
      if exists k :: 0 <= k < |ms| && ModuleTopics(ms[k]).None? {
        var k :| 0 <= k < |ms| && ModuleTopics(ms[k]).None?;
        TopicTotalFails(ms, k);
      } else {
        assert forall k :: 0 <= k < |init| ==> ModuleTopics(init[k]).Some? by {
          forall k | 0 <= k < |init| ensures ModuleTopics(init[k]).Some? {
            assert init[k] == ms[k];
          }
        }
      }
    }
  }

  /** Totals over consecutive module lists add up. */
  lemma {:induction false} TopicTotalAppend(a: seq<CourseModule>, b: seq<CourseModule>)
    ensures TopicTotal(a + b) ==
      if TopicTotal(a).Some? && TopicTotal(b).Some? then Some(TopicTotal(a).value + TopicTotal(b).value) else None
    decreases |b|
  {
    if b == [] {
      assert a + b == a;
    } else {
      var b' := b[..|b| - 1];
      assert (a + b)[..|a + b| - 1] == a + b';
      TopicTotalAppend(a, b');
    }
  }

  /** Modules without a topic label add nothing: a list of them totals 0. */
  lemma {:induction false} TopicTotalUnlabelled(ms: seq<CourseModule>)
    requires forall k :: 0 <= k < |ms| ==> ms[k].topicsLabel.None?
    ensures TopicTotal(ms) == Some(0)
    decreases |ms|
  {
    if ms != [] {
      TopicTotalUnlabelled(ms[..|ms| - 1]);
    }
  }

  /** A label of the form "<n> <word>" counts n topics. */
  lemma LabelTopics(n: nat, word: string)
    ensures ModuleTopics(CourseModule(Some(Decimal(n) + " " + word))) == Some(n)
  {
    var d := Decimal(n);
    assert d + " " + word == d + (" " + word);
    StripDigitsHead(d, " " + word);
    FirstTokenOf(Strip(d + " " + word), d);
    ParseDecimal(n);
  }

  lemma DigitNotSpace(c: char)
    requires IsDigit(c)
    ensures !IsSpace(c)
  {
  }

  /** Stripping a text that starts with digits keeps those digits and what directly follows them. */
  lemma StripDigitsHead(d: string, rest: string)
    requires d != [] && AllDigits(d)
    ensures |d| <= |Strip(d + rest)| && Strip(d + rest)[..|d|] == d
    ensures |d| < |Strip(d + rest)| ==> Strip(d + rest)[|d|] == rest[0]
  {
    var s := d + rest;
    DigitNotSpace(d[0]);
    DigitNotSpace(d[|d| - 1]);
    assert s[0] == d[0] && s[|d| - 1] == d[|d| - 1];
    assert StripLeft(s) == s;
    StripRightKeeps(s, |d| - 1);
    StripRightPrefix(s);
  }

  /** The first token of a text that starts with a run of digits followed by a space or nothing. */
  lemma FirstTokenOf(t: string, d: string)
    requires AllDigits(d) && |d| <= |t| && t[..|d|] == d
    requires |t| == |d| || t[|d|] == ' '
    ensures FirstToken(t) == d
  {
    FirstTokenPrefix(t);
  }

  // ---------------------------------------------------------------- duration

  /** A row that has both cells and whose title mentions the duration label. */
  predicate IsDurationRow(row: FeatureRow) {
    row.title.Some? && row.content.Some? && Contains(Strip(row.title.value), DurationLabel)
  }

  /** The duration after scanning the rows: the last duration row's content, "Not found" if none. */
  function LastDuration(rows: seq<FeatureRow>): string {
    if rows == [] then NotFound
    else if IsDurationRow(rows[|rows| - 1]) then Strip(rows[|rows| - 1].content.value)
    else LastDuration(rows[..|rows| - 1])
  }

  /** One more row: a duration row replaces the value found so far. */
  lemma LastDurationStep(rows: seq<FeatureRow>, j: nat)
    requires j < |rows|
    ensures LastDuration(rows[..j + 1]) ==
      if IsDurationRow(rows[j]) then Strip(rows[j].content.value) else LastDuration(rows[..j])
  {
    assert rows[..j + 1][..j] == rows[..j];
  }

  /** The last duration row wins. */
  lemma {:induction false} LastDurationWins(rows: seq<FeatureRow>, k: nat)
    requires k < |rows| && IsDurationRow(rows[k])
    requires forall j :: k < j < |rows| ==> !IsDurationRow(rows[j])
    ensures LastDuration(rows) == Strip(rows[k].content.value)
    decreases |rows|
  {
    if k < |rows| - 1 {
      var init := rows[..|rows| - 1];
      assert init[k] == rows[k];
      LastDurationWins(init, k);
    }
  }

  /** Without a duration row the duration is "Not found". */
  lemma {:induction false} LastDurationAbsent(rows: seq<FeatureRow>)
    requires forall j :: 0 <= j < |rows| ==> !IsDurationRow(rows[j])
    ensures LastDuration(rows) == NotFound
    decreases |rows|
  {
    if rows != [] {
      LastDurationAbsent(rows[..|rows| - 1]);
    }
  }

  // ---------------------------------------------------------------- details

  /** The triple `get_course_details` returns; the one-key duration dictionary is kept as its string. */
  datatype Details = Details(modules: Value, topics: Value, duration: string)

  /** The triple returned when any exception is caught. */
  const ErrorDetails := Details(Text("Error"), Text("Error"), "Error")

  /** What `get_course_details` returns for a page. */
  function CourseDetailsOf(page: Page): Details {
    match page
    case FetchFailed => ErrorDetails
    case Fetched(doc) =>
      var ms := ModulesOf(doc);
      match TopicTotal(ms)
      case None => ErrorDetails
      case Some(t) => Details(if ms != [] then Int(|ms|) else Text(NotFound), Int(t), LastDuration(doc.featureRows))
  }

  /**
   * The error triple comes back exactly when the fetch failed or a module's
   * topic label is malformed; otherwise the module count, the topic total and
   * the duration are those of the page, and a page without modules reports
   * "Not found" modules but 0 topics.
   */
  lemma CourseDetailsOutcome(page: Page)
    ensures CourseDetailsOf(page) == ErrorDetails <==>
      page.FetchFailed? || exists k :: 0 <= k < |ModulesOf(page.doc)| && ModuleTopics(ModulesOf(page.doc)[k]).None?
    ensures CourseDetailsOf(page) != ErrorDetails ==>
      var r, ms := CourseDetailsOf(page), ModulesOf(page.doc);
      && (ms == [] ==> r.modules == Text(NotFound) && r.topics == Int(0))
      && (ms != [] ==> r.modules == Int(|ms|))
      && TopicTotal(ms).Some? && r.topics == Int(TopicTotal(ms).value)
      && r.duration == LastDuration(page.doc.featureRows)
  {
    if page.Fetched? {
      TopicTotalNoneIff(ModulesOf(page.doc));
    }
  }

  /** `get_course_details`: count the modules, sum their topics, scan the rows for the duration. */
  method GetCourseDetails(page: Page) returns (d: Details)
    ensures d == CourseDetailsOf(page)
  {
    if page.FetchFailed? {
      return ErrorDetails;
    }
    var doc := page.doc;
    var modules := if doc.modulesList.Some? then doc.modulesList.value else [];
    var numModules := if modules != [] then Int(|modules|) else Text(NotFound);

    var numTopics := 0;
    var i := 0;
    while i < |modules|
      invariant 0 <= i <= |modules|
      invariant TopicTotal(modules[..i]) == Some(numTopics)
    {
      var topicsText := modules[i].topicsLabel;
      if topicsText.Some? {
        var n := LabelNumber(topicsText.value);
        assert ModuleTopics(modules[i]) == n;
        if n.None? {
          TopicTotalFails(modules, i);
          return ErrorDetails;
        }
        numTopics := numTopics + n.value;
      } else {
        assert ModuleTopics(modules[i]) == Some(0);
      }
      TopicTotalStep(modules, i);
      i := i + 1;
    }
    assert modules[..i] == modules;

    var rows := doc.featureRows;
    var duration := NotFound;
    var j := 0;
    while j < |rows|
      invariant 0 <= j <= |rows|
      invariant duration == LastDuration(rows[..j])
    {
      var row := rows[j];
      if row.title.Some? && row.content.Some? {
        var titleText := Strip(row.title.value);
        var contentText := Strip(row.content.value);
        if Contains(titleText, DurationLabel) {
          duration := contentText;
        }
      }
      LastDurationStep(rows, j);
      j := j + 1;
    }
    assert rows[..j] == rows;
    d := Details(numModules, Int(numTopics), duration);
  }

  /** A module labelled "5 тем" and one without a label add up to 5 topics. */
  lemma FiveTopicsExample()
    ensures TopicTotal([CourseModule(Some("5 тем")), CourseModule(None)]) == Some(5)
  {
  }

  /** A label whose number is glued to its word, "5тем", is malformed: its first token "5тем" does not parse. */
  lemma GluedLabelMalformed()
    ensures ModuleTopics(CourseModule(Some("5тем"))) == None
  {
    var t := "5тем";
    assert StripLeft(t) == t && StripRight(t) == t;
    FirstTokenPrefix(t);
    assert FirstToken(t) == t;
    ParseIntRejects(t, 1);
  }

  /** Two duration rows, "6 months" then "9 months": the later one is kept. */
  lemma LastDurationExample()
    ensures LastDuration([FeatureRow(Some(DurationLabel), Some("6 months")), FeatureRow(Some(DurationLabel), Some("9 months"))])
      == "9 months"
  {
  }

  /** A missing module container and an empty one give the same details. */
  lemma EmptyContainerLikeMissing(doc: Document)
    requires doc.modulesList == Some([])
    ensures CourseDetailsOf(Fetched(doc)) == CourseDetailsOf(Fetched(doc.(modulesList := None)))
    ensures CourseDetailsOf(Fetched(doc)).modules == Text(NotFound)
    ensures CourseDetailsOf(Fetched(doc)).topics == Int(0)
  {
  }
}
