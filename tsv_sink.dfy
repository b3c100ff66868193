/**
 * The output side of the two abstract harvesters (zotero/harvester.py and
 * spreadscheets/add_abstract.py, which define the same `write_results`):
 * a tab-separated file modelled as its sequence of rows, and the batches of
 * records appended to it.
 */
module TsvSink {
  import opened Wrappers
  import opened Seqs

  /** One harvested record `(doi, title, abstract)`; the abstract is None when none was obtained. */
  datatype Record = Record(doi: string, title: string, abstractText: Option<string>)

  /** The header row written when the file is opened in mode 'w'. */
  const Header: seq<string> := ["DOI", "Title", "Abstract"]

  /** The cells `csv.writer` writes for a record: None becomes the empty field. */
  function Cells(r: Record): (row: seq<string>)
    ensures |row| == 3 && row[0] == r.doi && row[1] == r.title
    ensures row[2] == r.abstractText.GetOr("")
  {
    [r.doi, r.title, r.abstractText.GetOr("")]
  }

  function RowsOf(records: seq<Record>): (rows: seq<seq<string>>)
    ensures |rows| == |records|
    ensures forall i :: 0 <= i < |records| ==> rows[i] == Cells(records[i])
  {
    seq(|records|, i requires 0 <= i < |records| => Cells(records[i]))
  }

  lemma RowsOfConcat(a: seq<Record>, b: seq<Record>)
    ensures RowsOf(a + b) == RowsOf(a) + RowsOf(b)
  {
  }

  /** The file modes `write_results` is called with. */
  datatype Mode = Write | Append

  /** The output file, as the rows it holds. */
  class OutputFile {
    var rows: seq<seq<string>>

    constructor (existing: seq<seq<string>>)
      ensures rows == existing
    {
      rows := existing;
    }

    /**
     * `write_results(results, output_file, mode)`: mode 'w' truncates the
     * file and writes the header; mode 'a' appends; both then add one row per
     * record.
     */
    method WriteResults(results: seq<Record>, mode: Mode)
      modifies this
      ensures rows == (if mode == Write then [Header] else old(rows)) + RowsOf(results)
    {
      if mode == Write {
        rows := [Header];
      }
      rows := rows + RowsOf(results);
    }
  }

  /** The records of all batches, in flush order. */
  function Flatten(batches: seq<seq<Record>>): seq<Record> {
    if batches == [] then [] else Flatten(batches[..|batches| - 1]) + batches[|batches| - 1]
  }

  /**
   * The shape of the flushes: every flush but the last holds exactly
   * `batchSize` records, and the last holds `batchSize` or, when it is the
   * final partial flush, between 1 and `batchSize - 1`.
   */
  predicate BatchShape(batches: seq<seq<Record>>, batchSize: int) {
    forall i :: 0 <= i < |batches| ==>
      |batches[i]| == batchSize || (i == |batches| - 1 && 0 < |batches[i]| < batchSize)
  }

  /** The number of input rows with at least two cells. */
  function CountWide(entries: seq<seq<string>>): nat {
    if entries == [] then 0
    else CountWide(entries[..|entries| - 1]) + (if |entries[|entries| - 1]| >= 2 then 1 else 0)
  }

  /** One more flushed batch: the file gains its rows, the flushes its records. */
  lemma FlushStep(batches: seq<seq<Record>>, buffer: seq<Record>)
    ensures Flatten(batches + [buffer]) == Flatten(batches) + buffer
    ensures [Header] + RowsOf(Flatten(batches + [buffer])) == [Header] + RowsOf(Flatten(batches)) + RowsOf(buffer)
  {
    assert (batches + [buffer])[..|batches|] == batches;
    RowsOfConcat(Flatten(batches), buffer);
  }

  /** One more completed task. */
  lemma CompleteStep(completed: seq<Option<Record>>, k: nat)
    requires k < |completed|
    ensures Somes(completed[..k + 1]) ==
      Somes(completed[..k]) + (if completed[k].Some? then [completed[k].value] else [])
  {
    assert completed[..k + 1][..k] == completed[..k];
  }

  /** What the buffer loop keeps after the first `k` completed tasks. */
  ghost predicate BufferInv(rows: seq<seq<string>>, batches: seq<seq<Record>>, buffer: seq<Record>,
                            completed: seq<Option<Record>>, k: nat, batchSize: int)
  {
    && k <= |completed|
    && rows == [Header] + RowsOf(Flatten(batches))
    && Flatten(batches) + buffer == Somes(completed[..k])
    && (batchSize >= 1 ==> |buffer| < batchSize)
    && (batchSize >= 1 ==> forall i :: 0 <= i < |batches| ==> |batches[i]| == batchSize)
  }

  /** The buffer after task `k` has been added to it. */
  function Buffered(buffer: seq<Record>, result: Option<Record>): seq<Record> {
    if result.Some? then buffer + [result.value] else buffer
  }

  /** One task of the buffer loop, with or without a flush, keeps the invariant. */
  lemma BufferStep(completed: seq<Option<Record>>, k: nat, batchSize: int,
                   rows: seq<seq<string>>, batches: seq<seq<Record>>, buffer: seq<Record>,
                   rows': seq<seq<string>>, batches': seq<seq<Record>>, buffer': seq<Record>)
    requires k < |completed| && BufferInv(rows, batches, buffer, completed, k, batchSize)
    requires var b := Buffered(buffer, completed[k]);
      if |b| >= batchSize then rows' == rows + RowsOf(b) && batches' == batches + [b] && buffer' == []
      else rows' == rows && batches' == batches && buffer' == b
    ensures BufferInv(rows', batches', buffer', completed, k + 1, batchSize)
  {
    CompleteStep(completed, k);
    var b := Buffered(buffer, completed[k]);
    if |b| >= batchSize {
      FlushStep(batches, b);
    }
  }

  /** The final partial flush completes the flushes. */
  lemma FinalFlush(completed: seq<Option<Record>>, batchSize: int,
                   rows: seq<seq<string>>, batches: seq<seq<Record>>, buffer: seq<Record>,
                   rows': seq<seq<string>>, batches': seq<seq<Record>>)
    requires BufferInv(rows, batches, buffer, completed, |completed|, batchSize)
    requires if buffer != [] then rows' == rows + RowsOf(buffer) && batches' == batches + [buffer]
             else rows' == rows && batches' == batches
    ensures rows' == [Header] + RowsOf(Flatten(batches'))
    ensures Flatten(batches') == Somes(completed)
    ensures batchSize >= 1 ==> BatchShape(batches', batchSize)
  {
    assert completed[..|completed|] == completed;
    if buffer != [] {
      FlushStep(batches, buffer);
    }
  }

  /**
   * The buffer loop of both `harvest_abstracts`, over the results in the
   * order they become available: buffer each valid result, flush the buffer
   * whenever it holds `batchSize` records, and flush what remains at the
   * end. The ghost `batches` are the flushes, in order.
   */
  method AppendInBatches(out: OutputFile, completed: seq<Option<Record>>, batchSize: int)
    returns (ghost batches: seq<seq<Record>>)
    requires out.rows == [Header]
    modifies out
    ensures out.rows == [Header] + RowsOf(Flatten(batches))
    ensures Flatten(batches) == Somes(completed)
    ensures batchSize >= 1 ==> BatchShape(batches, batchSize)
  {
    var buffer: seq<Record> := [];
    batches := [];
    for k := 0 to |completed|
      invariant BufferInv(out.rows, batches, buffer, completed, k, batchSize)
    {
      ghost var rowsBefore, batchesBefore, bufferBefore := out.rows, batches, buffer;
      var result := completed[k];
      if result.Some? {
        buffer := buffer + [result.value];
      }
      if |buffer| >= batchSize {
        out.WriteResults(buffer, Append);
        batches := batches + [buffer];
        buffer := [];
      }
      BufferStep(completed, k, batchSize, rowsBefore, batchesBefore, bufferBefore, out.rows, batches, buffer);
    }
    ghost var rowsBefore, batchesBefore := out.rows, batches;
    if buffer != [] {
      out.WriteResults(buffer, Append);
      batches := batches + [buffer];
    }
    FinalFlush(completed, batchSize, rowsBefore, batchesBefore, buffer, out.rows, batches);
  }
}
