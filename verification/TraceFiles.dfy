// The records of the trace files (src/tracer/sinuca/file_handler.hpp) and the two ways
// they are buffered. A file is the sequence of its records behind the header.
module TraceFiles {

  const RECORD_ARRAY_SIZE: nat := 10000

  datatype ThreadEventType = BarrierSync | CriticalStart | CriticalEnd | AbruptEnd | UnknownEvent(code: nat)

  datatype DynamicRecord =
    | BasicBlockIdentifier(id: nat)
    | ThreadEvent(event: ThreadEventType)
    | UnknownDynamic(recordType: nat)

  datatype MemoryRecord =
    | MemoryHeader(numberOfMemoryOps: int)
    | MemoryLoad(address: nat, size: nat)
    | MemoryStore(address: nat, size: nat)
    | UnknownMemory(recordType: nat)

  // ------ Writing: AddRecord, CheckRecordArray and FlushRecordArray, which the dynamic
  // and the memory trace writer share word for word

  class RecordWriter<R(0)> {
    var file: seq<R>
    const recordArray: array<R>
    var recordArrayOccupation: nat

    ghost predicate Valid()
      reads this, recordArray
    {
      recordArray.Length == RECORD_ARRAY_SIZE && recordArrayOccupation < RECORD_ARRAY_SIZE
    }

    // Everything added so far, in the file or still in the buffer.
    ghost function Written(): seq<R>
      requires Valid()
      reads this, recordArray
    {
      file + recordArray[..recordArrayOccupation]
    }

    constructor OpenFile()
      ensures Valid() && fresh(recordArray)
      ensures Written() == []
    {
      file := [];
      recordArray := new R[RECORD_ARRAY_SIZE];
      recordArrayOccupation := 0;
    }

    method FlushRecordArray()
      requires recordArrayOccupation <= recordArray.Length
      modifies this`file
      ensures file == old(file) + recordArray[..recordArrayOccupation]
    {
      file := file + recordArray[..recordArrayOccupation];
    }

    method CheckRecordArray()
      requires recordArray.Length == RECORD_ARRAY_SIZE && recordArrayOccupation <= RECORD_ARRAY_SIZE
      modifies this
      ensures Valid()
      ensures Written() == old(file) + old(recordArray[..recordArrayOccupation])
    {
      if recordArrayOccupation == RECORD_ARRAY_SIZE {
        FlushRecordArray();
        recordArrayOccupation := 0;
      }
    }

    method AddRecord(record: R)
      requires Valid()
      modifies this, recordArray
      ensures Valid()
      ensures Written() == old(Written()) + [record]
    {
      ghost var buffered := recordArray[..recordArrayOccupation];
      recordArray[recordArrayOccupation] := record;
      recordArrayOccupation := recordArrayOccupation + 1;
      assert recordArray[..recordArrayOccupation] == buffered + [record];
      CheckRecordArray();
    }

    // The destructor of the writer: what is buffered reaches the file.
    method Close()
      requires Valid()
      modifies this
      ensures file == old(Written())
    {
      if recordArrayOccupation > 0 {
        FlushRecordArray();
      }
    }
  }

  // ------ Reading in chunks

  // A chunk of a file in memory: at most RECORD_ARRAY_SIZE records, refilled by fread.
  class RecordChunk<R(0)> {
    const file: seq<R>
    var filePosition: nat
    const recordArray: array<R>
    var numberOfRecordsRead: nat

    ghost predicate Valid()
      reads this, recordArray
    {
      && recordArray.Length == RECORD_ARRAY_SIZE
      && numberOfRecordsRead <= RECORD_ARRAY_SIZE
      && numberOfRecordsRead <= filePosition <= |file|
      && forall k :: 0 <= k < numberOfRecordsRead ==>
        recordArray[k] == file[filePosition - numberOfRecordsRead + k]
    }

    constructor OpenFile(file: seq<R>)
      ensures Valid() && fresh(recordArray)
      ensures this.file == file && numberOfRecordsRead == 0 && filePosition == 0
    {
      this.file := file;
      filePosition, numberOfRecordsRead := 0, 0;
      recordArray := new R[RECORD_ARRAY_SIZE];
    }

    // LoadRecordArray, once the chunk is used up; fails at the end of the file.
    method LoadRecordArray() returns (failed: bool)
      requires Valid()
      modifies this, recordArray
      ensures Valid()
      ensures filePosition - numberOfRecordsRead == old(filePosition)
      ensures failed <==> numberOfRecordsRead == 0
      ensures failed <==> old(filePosition) == |file|
    {
      var left := |file| - filePosition;
      numberOfRecordsRead := if left <= RECORD_ARRAY_SIZE then left else RECORD_ARRAY_SIZE;
      forall k | 0 <= k < numberOfRecordsRead {
        recordArray[k] := file[filePosition + k];
      }
      filePosition := filePosition + numberOfRecordsRead;
      failed := numberOfRecordsRead == 0;
    }
  }
}
