/**
 * `get_course_info`: walk the listing's course entries in order, fetch each
 * entry's detail page through the three helpers and append one record per
 * entry; an entry whose name or link is missing is skipped.
 */
module Assembler {
  import opened Wrappers
  import opened PyStr
  import opened PyValue
  import opened Pages
  import opened Extractors
  import opened Records

  const BaseOrigin := "https://mate.academy"
  const NotAvailable := "Not available"

  /** The detail page address built from an entry's `href`. */
  function DetailUrl(href: string): string {
    BaseOrigin + href
  }

  /** The record appended for one entry; falsy values give way to sentinels through Python's `or`. */
  function MakeRecord(name: string, description: string, options: string, details: Details): Record {
    map[
      "Course Name" := Text(name),
      "Course Description" := Or(Text(description), Text(NotAvailable)),
      "Study Options" := Or(Text(options), Text(NotAvailable)),
      "Modules" := Or(details.modules, Text(NotFound)),
      "Topics" := Or(details.topics, Text(NotFound)),
      "Duration" := Text(details.duration)]
  }

  /** The dictionary literal uses exactly the six names of the shared header. */
  lemma RecordKeys(name: string, description: string, options: string, details: Details)
    ensures MakeRecord(name, description, options, details).Keys == FieldSet()
  {
    FieldNamesDistinct();
  }

  /**
   * What a record holds, given the three pages its helpers fetched: the
   * study options and the module count pass through untouched (they are
   * never falsy), a whitespace-only description becomes "Not available",
   * and a topic total of 0 becomes "Not found".
   */
  lemma AssembledValues(name: string, descriptionPage: Page, optionsPage: Page, detailsPage: Page)
    ensures
      var description := CourseDescription(descriptionPage);
      var details := CourseDetailsOf(detailsPage);
      var r := MakeRecord(name, description, StudyOptionsOf(optionsPage), details);
      && r["Course Name"] == Text(name)
      && (description == "" ==> r["Course Description"] == Text(NotAvailable))
      && (description != "" ==> r["Course Description"] == Text(description))
      && r["Study Options"] == Text(StudyOptionsOf(optionsPage))
      && r["Modules"] == details.modules
      && (details.topics == Int(0) ==> r["Topics"] == Text(NotFound))
      && (details.topics != Int(0) ==> r["Topics"] == details.topics)
      && r["Duration"] == Text(details.duration)
  {
  }

  /**
   * A detail page without modules: the count is "Not found" and the topic
   * total 0, which the record's `or` also turns into "Not found".
   */
  lemma NoModulesRecord(name: string, description: string, options: string, doc: Document)
    requires ModulesOf(doc) == []
    ensures var r := MakeRecord(name, description, options, CourseDetailsOf(Fetched(doc)));
      r["Modules"] == Text(NotFound) && r["Topics"] == Text(NotFound)
  {
  }

  /**
   * A page whose modules carry no topic label also stores "Not found" as
   * its topics, since `or` discards the total 0; only its Modules cell,
   * the module count, tells it apart from a page without modules.
   */
  lemma UnlabelledModulesRecord(name: string, description: string, options: string, doc: Document)
    requires ModulesOf(doc) != []
    requires forall k :: 0 <= k < |ModulesOf(doc)| ==> ModulesOf(doc)[k].topicsLabel.None?
    ensures var r := MakeRecord(name, description, options, CourseDetailsOf(Fetched(doc)));
      r["Modules"] == Int(|ModulesOf(doc)|) && r["Topics"] == Text(NotFound)
  {
    var ms := ModulesOf(doc);
    TopicTotalUnlabelled(ms);
    TopicTotalNoneIff(ms);
    CourseDetailsOutcome(Fetched(doc));
  }

  /** An entry that yields a record: the name label and an anchor with `href` are both present. */
  predicate Complete(e: Entry) {
    e.name.Some? && e.href.Some?
  }

  /** The record entry `i` contributes, if any; each helper fetches the detail page itself. */
  function EntryRecord(e: Entry, i: nat, fetch: Fetcher): Option<Record> {
    if !Complete(e) then None
    else
      var url := DetailUrl(e.href.value);
      Some(MakeRecord(
        Strip(e.name.value),
        CourseDescription(fetch(i, DescriptionRequest, url)),
        StudyOptionsOf(fetch(i, StudyOptionsRequest, url)),
        CourseDetailsOf(fetch(i, DetailsRequest, url))))
  }

  /** What each listing entry contributes, position by position. */
  function EntryRecords(entries: seq<Entry>, fetch: Fetcher): (r: seq<Option<Record>>)
    ensures |r| == |entries|
  {
    seq(|entries|, i requires 0 <= i < |entries| => EntryRecord(entries[i], i, fetch))
  }

  /** The present values of `xs`, in order: the records appended, skipped entries left out. */
  function Somes<T>(xs: seq<Option<T>>): seq<T> {
    if xs == [] then []
    else Somes(xs[..|xs| - 1]) + (if xs[|xs| - 1].Some? then [xs[|xs| - 1].value] else [])
  }

  /** How many values of `xs` are present. */
  function CountSome<T>(xs: seq<Option<T>>): nat {
    if xs == [] then 0 else CountSome(xs[..|xs| - 1]) + (if xs[|xs| - 1].Some? then 1 else 0)
  }

  lemma SomesStep<T>(xs: seq<Option<T>>, i: nat)
    requires i < |xs|
    ensures Somes(xs[..i + 1]) == Somes(xs[..i]) + (if xs[i].Some? then [xs[i].value] else [])
    ensures CountSome(xs[..i + 1]) == CountSome(xs[..i]) + (if xs[i].Some? then 1 else 0)
  {
    assert xs[..i + 1][..i] == xs[..i];
  }

  /** One value per present entry. */
  lemma {:induction false} SomesSize<T>(xs: seq<Option<T>>)
    ensures |Somes(xs)| == CountSome(xs)
    decreases |xs|
  {
    if xs != [] {
      SomesSize(xs[..|xs| - 1]);
    }
  }

  /** The value of present entry `i` follows the values of the present entries before it. */
  lemma {:induction false} SomesAt<T>(xs: seq<Option<T>>, i: nat)
    requires i < |xs| && xs[i].Some?
    ensures CountSome(xs[..i]) < |Somes(xs)| && Somes(xs)[CountSome(xs[..i])] == xs[i].value
    decreases |xs|
  {
    var init := xs[..|xs| - 1];
    SomesSize(init);
    if i < |xs| - 1 {
      assert init[i] == xs[i] && init[..i] == xs[..i];
      SomesAt(init, i);
    } else {
      assert init == xs[..i];
    }
  }

  /** Why `get_course_info` raises instead of returning. */
  datatype Crash =
    | ListingFetchError   // the listing request or parse raised: it is outside any try
    | UnboundCourseName   // the except handler read `course_name` before any entry assigned it

  datatype Outcome = Catalog(courses: seq<Record>) | Crashed(reason: Crash)

  /**
   * What `get_course_info` returns. A missing name on the first entry makes
   * the handler's message raise, since `course_name` was never assigned;
   * on any later entry the first entry's name is still bound.
   */
  function CourseInfoOf(listing: Listing, fetch: Fetcher): Outcome {
    match listing
    case ListingFetchFailed => Crashed(ListingFetchError)
    case ListingFetched(entries) =>
      if entries != [] && entries[0].name.None? then Crashed(UnboundCourseName)
      else Catalog(Somes(EntryRecords(entries, fetch)))
  }

  /** `get_course_info`, with the loop of the source. */
  method GetCourseInfo(listing: Listing, fetch: Fetcher) returns (outcome: Outcome)
    ensures outcome == CourseInfoOf(listing, fetch)
  {
    if listing.ListingFetchFailed? {
      return Crashed(ListingFetchError);
    }
    var entries := listing.entries;
    var courses: seq<Record> := [];
    var nameBound := false;
    var i := 0;
    while i < |entries|
      invariant 0 <= i <= |entries|
      invariant courses == Somes(EntryRecords(entries, fetch)[..i])
      invariant nameBound <==> exists j :: 0 <= j < i && entries[j].name.Some?
      invariant i > 0 ==> entries[0].name.Some?
    {
      var e := entries[i];
      assert EntryRecords(entries, fetch)[i] == EntryRecord(e, i, fetch);
      if e.name.None? {
        if !nameBound {
          return Crashed(UnboundCourseName);
        }
      } else {
        var name := Strip(e.name.value);
        nameBound := true;
        if e.href.Some? {
          var url := DetailUrl(e.href.value);
          var description := CourseDescription(fetch(i, DescriptionRequest, url));
          var options := GetStudyOptions(fetch(i, StudyOptionsRequest, url));
          var details := GetCourseDetails(fetch(i, DetailsRequest, url));
          assert EntryRecord(e, i, fetch) == Some(MakeRecord(name, description, options, details));
          courses := courses + [MakeRecord(name, description, options, details)];
        }
      }
      SomesStep(EntryRecords(entries, fetch), i);
      i := i + 1;
    }
    assert EntryRecords(entries, fetch)[..i] == EntryRecords(entries, fetch);
    return Catalog(courses);
  }

  /**
   * Listing order and isolation: the catalog holds one record per complete
   * entry, and the record of complete entry `i` sits right after the records
   * of the complete entries before it and is built from that entry and its
   * own pages alone, whatever the other entries hold.
   */
  lemma CatalogOrder(entries: seq<Entry>, fetch: Fetcher, i: nat)
    requires i < |entries| && Complete(entries[i])
    ensures var rs := EntryRecords(entries, fetch);
      && |Somes(rs)| == CountSome(rs)
      && CountSome(rs[..i]) < |Somes(rs)|
      && Somes(rs)[CountSome(rs[..i])] == EntryRecord(entries[i], i, fetch).value
  {
    var rs := EntryRecords(entries, fetch);
    SomesSize(rs);
    SomesAt(rs, i);
  }

  /** An entry contributes a record exactly when it is complete. */
  lemma EntryContributes(entries: seq<Entry>, fetch: Fetcher, i: nat)
    requires i < |entries|
    ensures EntryRecords(entries, fetch)[i].Some? <==> Complete(entries[i])
  {
  }

  /** Every record carries exactly the six header names, so both sinks accept it and agree on its row. */
  lemma CatalogWellFormed(entries: seq<Entry>, fetch: Fetcher)
    ensures forall r :: r in Somes(EntryRecords(entries, fetch)) ==> r.Keys == FieldSet()
  {
    var rs := EntryRecords(entries, fetch);
    forall i | 0 <= i < |rs| && rs[i].Some? ensures rs[i].value.Keys == FieldSet() {
      var e := entries[i];
      var url := DetailUrl(e.href.value);
      RecordKeys(Strip(e.name.value), CourseDescription(fetch(i, DescriptionRequest, url)),
        StudyOptionsOf(fetch(i, StudyOptionsRequest, url)), CourseDetailsOf(fetch(i, DetailsRequest, url)));
    }
    SomesFrom(rs);
  }

  /** Each value of `Somes(xs)` is the value of a present entry of `xs`. */
  lemma {:induction false} SomesFrom<T>(xs: seq<Option<T>>)
    ensures forall v :: v in Somes(xs) ==> exists i :: 0 <= i < |xs| && xs[i] == Some(v)
    decreases |xs|
  {
    if xs != [] {
      var init := xs[..|xs| - 1];
      SomesFrom(init);
      forall v | v in Somes(xs) ensures exists i :: 0 <= i < |xs| && xs[i] == Some(v) {
        if v in Somes(init) {
          var i :| 0 <= i < |init| && init[i] == Some(v);
          assert xs[i] == Some(v);
        } else {
          assert xs[|xs| - 1] == Some(v);
        }
      }
    }
  }

  /**
   * The three ways `get_course_info` ends: it raises when the listing fetch
   * fails or when the first entry has no name, and otherwise returns one
   * record per complete entry.
   */
  lemma CourseInfoOutcome(listing: Listing, fetch: Fetcher)
    ensures CourseInfoOf(listing, fetch) == Crashed(ListingFetchError) <==> listing.ListingFetchFailed?
    ensures CourseInfoOf(listing, fetch) == Crashed(UnboundCourseName) <==>
      listing.ListingFetched? && listing.entries != [] && listing.entries[0].name.None?
    ensures CourseInfoOf(listing, fetch).Catalog? ==>
      |CourseInfoOf(listing, fetch).courses| == CountSome(EntryRecords(listing.entries, fetch))
  {
    if listing.ListingFetched? {
      SomesSize(EntryRecords(listing.entries, fetch));
    }
  }

  /**
   * When all three detail fetches of an entry fail, its record still comes
   * out, filled with the helpers' error sentinels.
   */
  lemma FailedDetailPages(e: Entry, i: nat, fetch: Fetcher)
    requires Complete(e)
    requires forall r :: fetch(i, r, DetailUrl(e.href.value)) == FetchFailed
    ensures EntryRecord(e, i, fetch) == Some(map[
      "Course Name" := Text(Strip(e.name.value)),
      "Course Description" := Text(DescriptionError),
      "Study Options" := Text(StudyOptionsError),
      "Modules" := Text("Error"),
      "Topics" := Text("Error"),
      "Duration" := Text("Error")])
  {
  }
}
