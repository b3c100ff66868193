/**
 * zotero/get_paper_info.py: for every Zotero item whose title is exactly
 * the given one, collect its authors, year, kind and venue and write them
 * as CSV rows.
 *
 * The database is a parameter: `itemsByTitle` gives, for a title, the data
 * of the matching items in query order, each item's author rows in
 * `orderIndex` order, its fields by name and its type name.
 */
module PaperInfo {
  import opened Wrappers
  import opened Text

  /** One row of the author query: `(lastName, firstName)`; the first name may be NULL. */
  datatype Creator = Creator(lastName: string, firstName: Option<string>)

  /** Python truthiness of the first name: present and not empty. */
  predicate HasFirstName(c: Creator) {
    c.firstName.Some? && c.firstName.value != ""
  }

  /** How `get_authors` shows an author: "first last", or the last name alone without a first name. */
  function DisplayName(c: Creator): (name: string)
    ensures |c.lastName| <= |name| && name[|name| - |c.lastName|..] == c.lastName
    ensures HasFirstName(c) ==> StartsWith(name, c.firstName.value + " ")
    ensures !HasFirstName(c) ==> name == c.lastName
    ensures HasFirstName(c) ==> |name| == |c.firstName.value| + 1 + |c.lastName|
  {
    if HasFirstName(c) then
      var name := c.firstName.value + " " + c.lastName;
      assert name[..|c.firstName.value| + 1] == c.firstName.value + " ";
      name
    else c.lastName
  }

  /** `get_authors`: one display name per author row, in row order. */
  method GetAuthors(creators: seq<Creator>) returns (authors: seq<string>)
    ensures |authors| == |creators|
    ensures forall i :: 0 <= i < |creators| ==> authors[i] == DisplayName(creators[i])
  {
    authors := [];
    for i := 0 to |creators|
      invariant |authors| == i
      invariant forall j :: 0 <= j < i ==> authors[j] == DisplayName(creators[j])
    {
      var c := creators[i];
      if c.firstName.Some? && c.firstName.value != "" {
        authors := authors + [c.firstName.value + " " + c.lastName];
      } else {
        authors := authors + [c.lastName];
      }
    }
  }

  /** The display names of the author rows, as `get_authors` returns them. */
  function DisplayNames(creators: seq<Creator>): (names: seq<string>)
    ensures |names| == |creators|
    ensures forall i :: 0 <= i < |creators| ==> names[i] == DisplayName(creators[i])
  {
    seq(|creators|, i requires 0 <= i < |creators| => DisplayName(creators[i]))
  }

  /** The authors column lists every author, in order, each at its place in the "; "-joined string. */
  lemma AuthorsListed(creators: seq<Creator>, i: nat)
    requires i < |creators|
    ensures OccursAt(Join(DisplayNames(creators), "; "), DisplayName(creators[i]), JoinOffset(DisplayNames(creators), "; ", i))
  {
    JoinPartAt(DisplayNames(creators), "; ", i);
  }

  /**
   * The regular expression `\b(\d{4})\b` matches at `k`: four digits with
   * no word character just before or just after them.
   */
  predicate YearAt(s: string, k: nat) {
    && k + 4 <= |s|
    && IsDigit(s[k]) && IsDigit(s[k + 1]) && IsDigit(s[k + 2]) && IsDigit(s[k + 3])
    && (k == 0 || !IsWordChar(s[k - 1]))
    && (k + 4 == |s| || !IsWordChar(s[k + 4]))
  }

  /** `re.search` from position `k`: the leftmost match at or after it. */
  function FindYearFrom(s: string, k: nat): (m: Option<nat>)
    requires k <= |s|
    ensures m.Some? ==> k <= m.value && YearAt(s, m.value) && forall j :: k <= j < m.value ==> !YearAt(s, j)
    ensures m.None? ==> forall j :: k <= j <= |s| ==> !YearAt(s, j)
    decreases |s| - k
  {
    if YearAt(s, k) then Some(k)
    else if k == |s| then None
    else FindYearFrom(s, k + 1)
  }

  /**
   * `parse_year`: None for a missing or empty date, otherwise the four
   * digits of the leftmost match, or None when there is none.
   */
  function ParseYear(date: Option<string>): (year: Option<string>)
    ensures date.None? || date.value == "" ==> year.None?
    ensures date.Some? && date.value != "" ==> (year.Some? <==> exists k :: YearAt(date.value, k))
    ensures year.Some? ==> |year.value| == 4 && forall i :: 0 <= i < 4 ==> IsDigit(year.value[i])
  {
    if date.None? || date.value == "" then None
    else
      var s := date.value;
      var m := FindYearFrom(s, 0);
      if m.None? then None
      else
        var k := m.value;
        assert s[k..k + 4][1] == s[k + 1] && s[k..k + 4][2] == s[k + 2] && s[k..k + 4][3] == s[k + 3];
        Some(s[k..k + 4])
  }

  /** The year is the one at the leftmost match. */
  lemma ParseYearLeftmost(s: string, k: nat)
    requires YearAt(s, k) && forall j :: 0 <= j < k ==> !YearAt(s, j)
    ensures ParseYear(Some(s)) == Some(s[k..k + 4])
  {
    var m := FindYearFrom(s, 0);
    assert m.Some?;
    assert !(m.value < k) && !(k < m.value);
  }

  /** "2023-05-01" gives "2023". */
  lemma ParseYearIsoDate()
    ensures ParseYear(Some("2023-05-01")) == Some("2023")
  {
    var s := "2023-05-01";
    assert s[0] == '2' && s[1] == '0' && s[2] == '2' && s[3] == '3' && s[4] == '-';
    assert YearAt(s, 0);
    ParseYearLeftmost(s, 0);
    assert s[0..4] == "2023";
  }

  /** "May 2023" gives "2023". */
  lemma ParseYearMonthYear()
    ensures ParseYear(Some("May 2023")) == Some("2023")
  {
    var s := "May 2023";
    assert s[0] == 'M' && s[1] == 'a' && s[2] == 'y' && s[3] == ' ';
    assert s[4] == '2' && s[5] == '0' && s[6] == '2' && s[7] == '3';
    assert YearAt(s, 4);
    ParseYearLeftmost(s, 4);
    assert s[4..8] == "2023";
  }

  /** Five digits in a row hold no year: both four-digit runs touch a digit. */
  lemma ParseYearFiveDigits()
    ensures ParseYear(Some("12345")) == None
  {
    var s := "12345";
    assert !YearAt(s, 0) && !YearAt(s, 1);
  }

  /** `determine_type_and_venue`: the kind of the item and the field its venue comes from. */
  function DetermineTypeAndVenue(typeName: Option<string>, fields: map<string, string>): (r: (string, Option<string>))
    ensures typeName == Some("journalArticle") ==> r == ("journal", Lookup(fields, "publicationTitle"))
    ensures typeName == Some("conferencePaper") ==> r.0 == "conference"
    ensures typeName != Some("journalArticle") && typeName != Some("conferencePaper") ==> r == ("other", None)
  {
    if typeName == Some("journalArticle") then ("journal", Lookup(fields, "publicationTitle"))
    else if typeName == Some("conferencePaper") then
      var venue := Lookup(fields, "proceedingsTitle");
      if venue.None? || venue.value == "" then ("conference", Lookup(fields, "conferenceName"))
      else ("conference", venue)
    else ("other", None)
  }

  /**
   * A conference paper's venue is its proceedings title when that is
   * present and not empty, and its conference name otherwise.
   */
  lemma ConferenceVenue(fields: map<string, string>)
    ensures var venue := DetermineTypeAndVenue(Some("conferencePaper"), fields).1;
      && ("proceedingsTitle" in fields && fields["proceedingsTitle"] != "" ==> venue == Some(fields["proceedingsTitle"]))
      && (!("proceedingsTitle" in fields && fields["proceedingsTitle"] != "") ==> venue == Lookup(fields, "conferenceName"))
  {
  }

  /** The data of one matched item, as the queries return it. */
  datatype ItemData = ItemData(creators: seq<Creator>, fields: map<string, string>, typeName: Option<string>)

  /** One result row: `title`, `authors`, `year`, `type` and `venue`. */
  datatype PaperRow = PaperRow(title: string, authors: string, year: Option<string>, kind: string, venue: string)

  /** The row `main` builds for one item, with an empty venue in place of a missing or empty one. */
  function MakeRow(title: string, item: ItemData): PaperRow {
    var venue := DetermineTypeAndVenue(item.typeName, item.fields).1;
    PaperRow(title, Join(DisplayNames(item.creators), "; "), ParseYear(Lookup(item.fields, "date")),
             DetermineTypeAndVenue(item.typeName, item.fields).0, if venue.Some? then venue.value else "")
  }

  /** The loop of `main`: one row per matched item, in the order of the items. */
  method CollectRows(title: string, items: seq<ItemData>) returns (rows: seq<PaperRow>)
    ensures |rows| == |items|
    ensures forall i :: 0 <= i < |items| ==> rows[i] == MakeRow(title, items[i])
  {
    rows := [];
    for i := 0 to |items|
      invariant |rows| == i
      invariant forall j :: 0 <= j < i ==> rows[j] == MakeRow(title, items[j])
    {
      var item := items[i];
      var authorsList := GetAuthors(item.creators);
      assert authorsList == DisplayNames(item.creators);
      var authors := Join(authorsList, "; ");
      var year := ParseYear(Lookup(item.fields, "date"));
      var (kind, venue) := DetermineTypeAndVenue(item.typeName, item.fields);
      rows := rows + [PaperRow(title, authors, year, kind, if venue.Some? && venue.value != "" then venue.value else "")];
    }
  }

  /** The CSV header, `fieldnames`. */
  const Fieldnames: seq<string> := ["title", "authors", "year", "type", "venue"]

  /** The cells `csv.DictWriter` writes for a row, in header order: a missing year is the empty field. */
  function CsvCells(row: PaperRow): (cells: seq<string>)
    ensures |cells| == |Fieldnames|
  {
    [row.title, row.authors, row.year.GetOr(""), row.kind, row.venue]
  }

  /**
   * What each column of an item's CSV line holds, in terms of the item: the
   * searched title; the authors joined with "; "; the year of the date field,
   * left empty exactly when no year can be parsed; the kind, "journal" or
   * "conference" exactly for those two item types and "other" otherwise; and
   * the venue, left empty exactly when the venue field is missing or empty.
   */
  lemma CsvCellsOfItem(title: string, item: ItemData)
    ensures var cells, year := CsvCells(MakeRow(title, item)), ParseYear(Lookup(item.fields, "date"));
      var venue := DetermineTypeAndVenue(item.typeName, item.fields).1;
      && cells[0] == title
      && cells[1] == Join(DisplayNames(item.creators), "; ")
      && (cells[2] == "" <==> year.None?)
      && (cells[2] != "" ==> year == Some(cells[2]) && |cells[2]| == 4)
      && (cells[3] == "journal" <==> item.typeName == Some("journalArticle"))
      && (cells[3] == "conference" <==> item.typeName == Some("conferencePaper"))
      && (cells[3] == "journal" || cells[3] == "conference" || cells[3] == "other")
      && (cells[4] == "" <==> venue.None? || venue.value == "")
      && (cells[4] != "" ==> venue == Some(cells[4]))
  {
  }

  /** What `csv.DictWriter` writes: the header line, then one line per row, in order. */
  function CsvLines(rows: seq<PaperRow>): (lines: seq<seq<string>>)
    ensures |lines| == |rows| + 1 && lines[0] == Fieldnames
    ensures forall i :: 0 <= i < |rows| ==> lines[i + 1] == CsvCells(rows[i])
  {
    [Fieldnames] + seq(|rows|, i requires 0 <= i < |rows| => CsvCells(rows[i]))
  }

  /** The output path as written: `argv[3]` when there are more than three arguments, else "output.csv". */
  function OutputPath(argv: seq<string>): (path: string)
    ensures |argv| > 3 ==> path == argv[3]
    ensures |argv| <= 3 ==> path == "output.csv"
  {
    if |argv| > 3 then argv[3] else "output.csv"
  }

  /**
   * The usage line names the output file as the argument after the title,
   * `argv[2]`; with exactly that invocation the script still writes
   * "output.csv".
   */
  lemma OutputPathIgnoresDocumentedArgument()
    ensures OutputPath(["get_paper_info.py", "A Title", "papers.csv"]) == "output.csv"
  {
  }

  /** The output path of the usage line: `argv[2]` when given, else "output.csv". */
  function OutputPathCorrected(argv: seq<string>): (path: string)
    ensures |argv| > 2 ==> path == argv[2]
    ensures |argv| <= 2 ==> path == "output.csv"
  {
    if |argv| > 2 then argv[2] else "output.csv"
  }

  /** With the corrected reading, the argument after the title is the output file. */
  lemma OutputPathCorrectedUsesArgument(script: string, title: string, output: string)
    ensures OutputPathCorrected([script, title, output]) == output
    ensures OutputPath([script, title, output]) == "output.csv"
  {
  }

  /** How a run of the script ends. */
  datatype Outcome =
    /** `sys.exit(code)` without writing the CSV file */
    | Exited(code: int)
    /** the CSV file at `path`, header first */
    | Wrote(path: string, lines: seq<seq<string>>)

  /**
   * `main`: status 1 without a title argument, status 0 when no item has
   * the title, otherwise the header and one row per matched item.
   */
  method GetPaperInfo(argv: seq<string>, itemsByTitle: string -> seq<ItemData>) returns (outcome: Outcome)
    ensures |argv| < 2 ==> outcome == Exited(1)
    ensures |argv| >= 2 && itemsByTitle(argv[1]) == [] ==> outcome == Exited(0)
    ensures |argv| >= 2 && itemsByTitle(argv[1]) != [] ==>
      && outcome.Wrote? && outcome.path == OutputPathCorrected(argv)
      && |outcome.lines| == |itemsByTitle(argv[1])| + 1
      && outcome.lines[0] == Fieldnames
      && forall i :: 0 <= i < |itemsByTitle(argv[1])| ==>
           outcome.lines[i + 1] == CsvCells(MakeRow(argv[1], itemsByTitle(argv[1])[i]))
  {
    if |argv| < 2 {
      return Exited(1);
    }
    var title := argv[1];
    var outputCsv := OutputPathCorrected(argv);
    var items := itemsByTitle(title);
    if items == [] {
      return Exited(0);
    }
    var results := CollectRows(title, items);
    return Wrote(outputCsv, CsvLines(results));
  }
}
