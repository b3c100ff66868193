/**
 * zotero/harvester.py: for every `DOI<TAB>Title` row of a TSV file, ask
 * the CrossRef works API for the abstract, then write
 * `DOI<TAB>Title<TAB>Abstract` rows to an output TSV file in batches, in
 * the order the concurrent requests complete.
 *
 * The network is a parameter: `replies[i]` is what the request for entry
 * `i` produced, and `order` is the order in which the requests completed.
 */
module Harvester {
  import opened Wrappers
  import opened Seqs
  import opened TsvSink

  /** What one request to `https://api.crossref.org/works/{doi}` produced. */
  datatype CrossrefReply =
    /** the request or the JSON decoding raised */
    | RequestFailed
    /** the HTTP status and, when the JSON body has one, its "message" object */
    | Response(status: int, message: Option<map<string, string>>)

  /**
   * `get_abstract_crossref`: on status 200 the "abstract" of the message
   * (None when it has none); on any other status None. A 200 body without
   * a "message" raises, as the request failure does.
   */
  function GetAbstractCrossref(reply: CrossrefReply): (r: Try<Option<string>>)
    ensures r.Raised? <==> reply.RequestFailed? || (reply.status == 200 && reply.message.None?)
    ensures r.Returned? && r.value.Some? <==>
      reply.Response? && reply.status == 200 && reply.message.Some? && "abstract" in reply.message.value
    ensures r.Returned? && r.value.Some? ==> r.value.value == reply.message.value["abstract"]
  {
    match reply
    case RequestFailed => Raised
    case Response(status, message) =>
      if status != 200 then Returned(None)
      else if message.None? then Raised
      else Returned(Lookup(message.value, "abstract"))
  }

  /**
   * `process_entry`: an entry with fewer than two cells is skipped (the
   * `(None, None, None)` result, here None); otherwise the DOI and title
   * with the abstract, which is None when fetching it raised.
   */
  function ProcessEntry(entry: seq<string>, reply: CrossrefReply): (r: Option<Record>)
    ensures r.None? <==> |entry| < 2
    ensures r.Some? ==> r.value.doi == entry[0] && r.value.title == entry[1]
    ensures r.Some? ==> (r.value.abstractText.Some? <==>
      reply.Response? && reply.status == 200 && reply.message.Some? && "abstract" in reply.message.value)
    ensures r.Some? && r.value.abstractText.Some? ==>
      r.value.abstractText.value == reply.message.value["abstract"]
  {
    if |entry| < 2 then None
    else
      var abstractText := match GetAbstractCrossref(reply) case Raised => None case Returned(a) => a;
      Some(Record(entry[0], entry[1], abstractText))
  }

  /** The result of every entry's task, in input order. */
  function Results(entries: seq<seq<string>>, replies: seq<CrossrefReply>): (rs: seq<Option<Record>>)
    requires |replies| == |entries|
    ensures |rs| == |entries|
    ensures forall i :: 0 <= i < |entries| ==> rs[i] == ProcessEntry(entries[i], replies[i])
  {
    seq(|entries|, i requires 0 <= i < |entries| => ProcessEntry(entries[i], replies[i]))
  }

  /** One valid result per entry of two or more cells: the rest are the skipped ones. */
  lemma {:induction false} ValidResultsCount(entries: seq<seq<string>>, replies: seq<CrossrefReply>)
    requires |replies| == |entries|
    ensures CountSome(Results(entries, replies)) == CountWide(entries)
  {
    var n := |entries|;
    if n > 0 {
      ValidResultsCount(entries[..n - 1], replies[..n - 1]);
      assert Results(entries, replies)[..n - 1] == Results(entries[..n - 1], replies[..n - 1]);
    }
  }

  /** What the flushes hold, once the tasks are done, against the results in input order. */
  lemma HarvestedRecords(entries: seq<seq<string>>, replies: seq<CrossrefReply>, order: seq<nat>)
    requires |replies| == |entries|
    requires IsPermutation(order, |entries|)
    ensures multiset(Somes(Reorder(Results(entries, replies), order))) == multiset(Somes(Results(entries, replies)))
    ensures |Somes(Reorder(Results(entries, replies), order))| == CountWide(entries)
  {
    SomesReorder(Results(entries, replies), order);
    ValidResultsCount(entries, replies);
    SomesLength(Results(entries, replies));
    assert |multiset(Somes(Reorder(Results(entries, replies), order)))| == |multiset(Somes(Results(entries, replies)))|;
  }

  /**
   * `harvest_abstracts`: start the output with the header, launch one
   * `process_entry` task per entry, and hand their results, in the order
   * the tasks complete, to the batching loop.
   */
  method HarvestAbstracts(out: OutputFile, entries: seq<seq<string>>, replies: seq<CrossrefReply>,
                          order: seq<nat>, batchSize: int)
    returns (ghost batches: seq<seq<Record>>)
    requires |replies| == |entries|
    requires IsPermutation(order, |entries|)
    modifies out
    ensures out.rows == [Header] + RowsOf(Flatten(batches))
    ensures Flatten(batches) == Somes(Reorder(Results(entries, replies), order))
    ensures multiset(Flatten(batches)) == multiset(Somes(Results(entries, replies)))
    ensures |Flatten(batches)| == CountWide(entries)
    ensures batchSize >= 1 ==> BatchShape(batches, batchSize)
  {
    out.WriteResults([], Write);
    var tasks := Results(entries, replies);
    var completed := Reorder(tasks, order);
    batches := AppendInBatches(out, completed, batchSize);
    HarvestedRecords(entries, replies, order);
  }
}
