/**
 * spreadscheets/add_abstract.py: the sequential variant of the abstract
 * harvester. For every `DOI<TAB>Title` row it fetches the DOI's landing
 * page, takes the text of the page's `abstracts` div, and writes
 * `DOI<TAB>Title<TAB>Abstract` rows in batches, in input order.
 *
 * The network is a parameter (`replies[i]` is what the request for entry
 * `i` produced) and the HTML parser is abstracted to the text of the
 * `abstracts` div, when there is one.
 */
module AddAbstract {
  import opened Wrappers
  import opened Seqs
  import opened TsvSink

  /** A fetched page, as far as the extractor looks at it: the text of its `<div id="abstracts">`, if any. */
  datatype Page = Page(abstractsDiv: Option<string>)

  /** What one request to `https://doi.org/{doi}` produced. */
  datatype DoiReply =
    /** the request raised */
    | RequestFailed
    | Response(status: int, page: Page)

  /** `extract_abstract_text`: the div's text, or "" when the page has no such div. */
  function ExtractAbstractText(page: Page): (text: string)
    ensures page.abstractsDiv.None? ==> text == ""
    ensures page.abstractsDiv.Some? ==> text == page.abstractsDiv.value
  {
    match page.abstractsDiv
    case None => ""
    case Some(divText) => divText
  }

  /** `get_abstract_from_html`: the extracted text on status 200, None on any other status. */
  function GetAbstractFromHtml(reply: DoiReply): (r: Try<Option<string>>)
    ensures r.Raised? <==> reply.RequestFailed?
    ensures r.Returned? ==> (r.value.Some? <==> reply.status == 200)
    ensures r.Returned? && r.value.Some? ==> r.value.value == ExtractAbstractText(reply.page)
  {
    match reply
    case RequestFailed => Raised
    case Response(status, page) => if status == 200 then Returned(Some(ExtractAbstractText(page))) else Returned(None)
  }

  /**
   * `process_entry`: an entry with fewer than two cells is skipped (None);
   * otherwise the DOI and title with the abstract, which is None when the
   * request raised or the status was not 200.
   */
  function ProcessEntry(entry: seq<string>, reply: DoiReply): (r: Option<Record>)
    ensures r.None? <==> |entry| < 2
    ensures r.Some? ==> r.value.doi == entry[0] && r.value.title == entry[1]
    ensures r.Some? ==> (r.value.abstractText.Some? <==> reply.Response? && reply.status == 200)
    ensures r.Some? && r.value.abstractText.Some? ==> r.value.abstractText.value == ExtractAbstractText(reply.page)
  {
    if |entry| < 2 then None
    else
      var abstractText := match GetAbstractFromHtml(reply) case Raised => None case Returned(a) => a;
      Some(Record(entry[0], entry[1], abstractText))
  }

  /** The result of every entry, in input order. */
  function Results(entries: seq<seq<string>>, replies: seq<DoiReply>): (rs: seq<Option<Record>>)
    requires |replies| == |entries|
    ensures |rs| == |entries|
    ensures forall i :: 0 <= i < |entries| ==> rs[i] == ProcessEntry(entries[i], replies[i])
  {
    seq(|entries|, i requires 0 <= i < |entries| => ProcessEntry(entries[i], replies[i]))
  }

  /** One valid result per entry of two or more cells: the rest are the skipped ones. */
  lemma {:induction false} ValidResultsCount(entries: seq<seq<string>>, replies: seq<DoiReply>)
    requires |replies| == |entries|
    ensures |Somes(Results(entries, replies))| == CountWide(entries)
  {
    var n := |entries|;
    SomesLength(Results(entries, replies));
    if n > 0 {
      ValidResultsCount(entries[..n - 1], replies[..n - 1]);
      SomesLength(Results(entries[..n - 1], replies[..n - 1]));
      assert Results(entries, replies)[..n - 1] == Results(entries[..n - 1], replies[..n - 1]);
    }
  }

  /**
   * `harvest_abstracts`: start the output with the header, then process the
   * entries one at a time, in input order, through the batching loop.
   */
  method HarvestAbstracts(out: OutputFile, entries: seq<seq<string>>, replies: seq<DoiReply>, batchSize: int)
    returns (ghost batches: seq<seq<Record>>)
    requires |replies| == |entries|
    modifies out
    ensures out.rows == [Header] + RowsOf(Flatten(batches))
    ensures Flatten(batches) == Somes(Results(entries, replies))
    ensures |Flatten(batches)| == CountWide(entries)
    ensures batchSize >= 1 ==> BatchShape(batches, batchSize)
  {
    out.WriteResults([], Write);
    batches := AppendInBatches(out, Results(entries, replies), batchSize);
    ValidResultsCount(entries, replies);
  }
}
