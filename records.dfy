/**
 * A course record is the dictionary `get_course_info` builds; its two
 * consumers, `print_courses` (a PrettyTable) and `save_to_csv` (a
 * `csv.DictWriter`), both lay it out by the same six-name header.
 */
module Records {
  import opened Wrappers
  import opened PyValue

  /** One course as the dictionary the scraper builds: field name to value. */
  type Record = map<string, Value>

  /** The header shared by `print_courses` and `save_to_csv`. */
  const FieldNames: seq<string> :=
    ["Course Name", "Course Description", "Study Options", "Modules", "Topics", "Duration"]

  function FieldSet(): set<string> {
    set k | 0 <= k < |FieldNames| :: FieldNames[k]
  }

  /** The header names are pairwise distinct, so a record keyed by them has six entries. */
  lemma FieldNamesDistinct()
    ensures forall i, j :: 0 <= i < j < |FieldNames| ==> FieldNames[i] != FieldNames[j]
    ensures FieldSet() == {"Course Name", "Course Description", "Study Options", "Modules", "Topics", "Duration"}
    ensures |FieldSet()| == 6
  {
    var names := {"Course Name", "Course Description", "Study Options", "Modules", "Topics", "Duration"};
    assert FieldNames[0] in FieldSet() && FieldNames[1] in FieldSet() && FieldNames[2] in FieldSet();
    assert FieldNames[3] in FieldSet() && FieldNames[4] in FieldSet() && FieldNames[5] in FieldSet();
    assert FieldSet() == names;
  }

  /**
   * The row `print_courses` adds for a course: `course[name]` for each header
   * name in order; a missing key raises KeyError (None).
   */
  function TableRow(course: Record): Option<seq<Value>> {
    if forall k :: 0 <= k < |FieldNames| ==> FieldNames[k] in course then
      Some(seq(|FieldNames|, k requires 0 <= k < |FieldNames| => course[FieldNames[k]]))
    else None
  }

  /**
   * The row `csv.DictWriter.writerow` writes for a course: a key outside the
   * header raises ValueError (None); a header name the course lacks gets "".
   */
  function CsvRow(course: Record): Option<seq<Value>> {
    if course.Keys <= FieldSet() then
      Some(seq(|FieldNames|, k requires 0 <= k < |FieldNames| =>
        if FieldNames[k] in course then course[FieldNames[k]] else Text("")))
    else None
  }

  /** Reading a row back under the header, as `csv.DictReader` pairs header names with cells. */
  function Reread(row: seq<Value>): Record
    requires |row| == |FieldNames|
  {
    FieldNamesDistinct();
    map k | 0 <= k < |FieldNames| :: FieldNames[k] := row[k]
  }

  /**
   * For a record with exactly the header's keys, the table and the file get
   * the same row, and that row holds the whole record: reading it back
   * under the header gives the record again.
   */
  lemma SinksAgree(course: Record)
    requires course.Keys == FieldSet()
    ensures TableRow(course).Some? && TableRow(course) == CsvRow(course)
    ensures |TableRow(course).value| == |FieldNames| && Reread(TableRow(course).value) == course
  {
    assert forall k :: 0 <= k < |FieldNames| ==> FieldNames[k] in FieldSet();
    var row := TableRow(course).value;
    assert CsvRow(course).Some?;
    assert CsvRow(course).value == row;
    var back := Reread(row);
    assert back.Keys == course.Keys;
    forall f | f in course ensures back[f] == course[f] {
      var k :| 0 <= k < |FieldNames| && FieldNames[k] == f;
      assert row[k] == course[f];
    }
  }
}
