// The trace of the basic blocks and thread events of one thread: its writer
// (x86_trace_generator/utils/dynamic_trace_writer.cpp) and its reader
// (src/tracer/sinuca/utils/dynamic_trace_reader.cpp).
module DynamicTraces {
  import opened TraceFiles

  class DynamicTraceWriter {
    const records: RecordWriter<DynamicRecord>

    ghost predicate Valid()
      reads this, records, records.recordArray
    {
      records.Valid()
    }

    constructor OpenFile()
      ensures Valid() && fresh(records) && fresh(records.recordArray)
      ensures records.Written() == []
    {
      records := new RecordWriter<DynamicRecord>.OpenFile();
    }

    method AddThreadEvent(event: ThreadEventType)
      requires Valid()
      modifies records, records.recordArray
      ensures Valid()
      ensures records.Written() == old(records.Written()) + [ThreadEvent(event)]
    {
      records.AddRecord(ThreadEvent(event));
    }

    method AddBasicBlockId(identifier: nat)
      requires Valid()
      modifies records, records.recordArray
      ensures Valid()
      ensures records.Written() == old(records.Written()) + [BasicBlockIdentifier(identifier)]
    {
      records.AddRecord(BasicBlockIdentifier(identifier));
    }
  }

  // A reader has consumed the first `position` records of its file; the last of them is
  // the record it stands on.
  datatype DynamicSource = DynamicSource(file: seq<DynamicRecord>, position: nat, reachedEnd: bool) {
    ghost predicate Valid() {
      position <= |file| && (reachedEnd ==> position == |file|)
    }

    function Read(): (DynamicSource, bool)
      requires position <= |file|
    {
      if reachedEnd then (this, true)
      else if position == |file| then (this.(reachedEnd := true), true)
      else (this.(position := position + 1), false)
    }
  }

  class DynamicTraceReader {
    const chunk: RecordChunk<DynamicRecord>
    var recordArrayIndex: nat
    var reachedEnd: bool

    ghost predicate Valid()
      reads this, chunk, chunk.recordArray
    {
      && chunk.Valid()
      && (chunk.numberOfRecordsRead != 0 ==> recordArrayIndex < chunk.numberOfRecordsRead)
      && (chunk.numberOfRecordsRead == 0 && !reachedEnd ==> chunk.filePosition == 0)
      && Source().Valid()
    }

    ghost function Source(): DynamicSource
      requires chunk.Valid()
      requires chunk.numberOfRecordsRead != 0 ==> recordArrayIndex < chunk.numberOfRecordsRead
      reads this, chunk, chunk.recordArray
    {
      DynamicSource(
        chunk.file,
        if chunk.numberOfRecordsRead == 0 then chunk.filePosition
        else chunk.filePosition - chunk.numberOfRecordsRead + recordArrayIndex + 1,
        reachedEnd)
    }

    constructor OpenFile(file: seq<DynamicRecord>)
      ensures Valid() && fresh(chunk) && fresh(chunk.recordArray)
      ensures Source() == DynamicSource(file, 0, false)
    {
      chunk := new RecordChunk<DynamicRecord>.OpenFile(file);
      recordArrayIndex := 0;
      reachedEnd := false;
    }

    method ReadDynamicRecord() returns (failed: bool)
      requires Valid()
      modifies this, chunk, chunk.recordArray
      ensures Valid()
      ensures (Source(), failed) == old(Source()).Read()
      ensures !failed ==> chunk.numberOfRecordsRead != 0
    {
      if reachedEnd {
        return true;
      }
      recordArrayIndex := if chunk.numberOfRecordsRead == 0 then 0 else recordArrayIndex + 1;
      if recordArrayIndex == chunk.numberOfRecordsRead {
        failed := chunk.LoadRecordArray();
        recordArrayIndex := 0;
        if failed {
          reachedEnd := true;
          return true;
        }
      }
      return false;
    }

    function Record(): DynamicRecord
      requires Valid() && chunk.numberOfRecordsRead != 0
      reads this, chunk, chunk.recordArray
      ensures Record() == Source().file[Source().position - 1]
    {
      chunk.recordArray[recordArrayIndex]
    }
  }

  // ------ The round trip

  // Writes the records one by one and closes the file.
  method Store(records: seq<DynamicRecord>) returns (file: seq<DynamicRecord>)
    ensures file == records
  {
    var writer := new DynamicTraceWriter.OpenFile();
    assert records[..0] == [];
    for i := 0 to |records|
      invariant writer.Valid() && fresh(writer.records) && fresh(writer.records.recordArray)
      invariant writer.records.Written() == records[..i]
    {
      assert records[..i + 1] == records[..i] + [records[i]];
      writer.records.AddRecord(records[i]);
    }
    assert records[..|records|] == records;
    writer.records.Close();
    file := writer.records.file;
  }

  // Reads until a read fails: every record of the file once, in order, and the read
  // after the last one is the first to fail and marks the end.
  method Replay(file: seq<DynamicRecord>) returns (records: seq<DynamicRecord>, atEnd: bool)
    ensures records == file && atEnd
  {
    var reader := new DynamicTraceReader.OpenFile(file);
    records := [];
    var failed := reader.ReadDynamicRecord();
    while !failed
      invariant reader.Valid() && fresh(reader) && fresh(reader.chunk) && fresh(reader.chunk.recordArray)
      invariant reader.reachedEnd == failed && reader.chunk.file == file
      invariant !failed ==> reader.chunk.numberOfRecordsRead != 0
      invariant reader.Source().position == |records| + if failed then 0 else 1
      invariant forall k :: 0 <= k < |records| ==> records[k] == file[k]
      decreases |file| - |records|, !failed
    {
      records := records + [reader.Record()];
      failed := reader.ReadDynamicRecord();
    }
    atEnd := reader.reachedEnd;
  }
}
