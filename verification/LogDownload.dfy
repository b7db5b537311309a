/** The chunked log download of src/ble/ble_log.c over the flash log: the stream
    as a step function, and the class that runs it in place. */
module LogDownload {
  import opened SmartTag
  import opened FlashRing
  import FlashLog

  const CHUNK_PAYLOAD_MAX: nat := 180
  const EVENT_LOG: nat := 0
  const SENSOR_LOG: nat := 1
  const OP_START: nat := 1
  const OP_ABORT: nat := 2

  /** A log that is not initialised answers every read with an error. */
  datatype Source = Unavailable | Available(ring: Ring)

  datatype Notify = Sent | NoMemory | Refused

  datatype Stream = Stream(active: bool, logId: nat, chunkIndex: nat, nextSeq: nat, remaining: nat)

  /** A notification: the chunk header and the records packed after it. */
  datatype Chunk = Chunk(index: nat, logId: nat, recordSize: nat, last: bool, firstSeq: nat, records: seq<Record>)

  /** Bytes per record: sensor_log_record_t and event_record_t. */
  function RecordSize(logId: nat): nat {
    if logId == SENSOR_LOG then 17 else 8
  }

  /** Records per full chunk. */
  function Capacity(logId: nat): (n: nat)
    ensures n == if logId == SENSOR_LOG then 10 else 22
  {
    CHUNK_PAYLOAD_MAX / RecordSize(logId)
  }

  function Fetch(source: Source, start: nat, max: nat): (records: seq<Record>)
    requires source.Available? ==> source.ring.Geometry()
    ensures |records| <= max
  {
    match source
    case Unavailable => []
    case Available(ring) => Read(ring, start, max)
  }

  /** What one run of the work item does: the stream after it, and the chunk that
      it hands to the radio, which answers `notify`. */
  function Work(s: Stream, source: Source, subscribed: bool, notify: Notify): (result: (Stream, Option<Chunk>))
    requires source.Available? ==> source.ring.Geometry()
  {
    if !s.active then (s, None)
    else if !subscribed then (s.(active := false), None)
    else
      var want := Min(s.remaining, Capacity(s.logId));
      var got := Fetch(source, s.nextSeq, want);
      if got == [] then
        (s.(active := false), Some(Chunk(s.chunkIndex, s.logId, RecordSize(s.logId), true, s.nextSeq, [])))
      else
        var left := s.remaining - Min(s.remaining, |got|);
        var chunk := Chunk(s.chunkIndex, s.logId, RecordSize(s.logId), left == 0, s.nextSeq, got);
        var charged := s.(remaining := left);
        match notify
        case NoMemory => (charged, Some(chunk))
        case Refused => (charged.(active := false), Some(chunk))
        case Sent =>
          (charged.(chunkIndex := Add16(s.chunkIndex, 1), nextSeq := Add32(s.nextSeq, |got|), active := left != 0),
           Some(chunk))
  }

  datatype RequestResult = Accepted | NotSupported | Invalid | AccessDenied

  function StartStream(logId: nat, start: nat, maxRecords: nat, recordCount: nat): Stream {
    Stream(true, logId, 0, start, if maxRecords == 0 then recordCount else maxRecords)
  }

  /** A log as a source of records. */
  ghost function SourceFrom(log: FlashLog.FlashLog): (s: Source)
    requires log.Valid()
    reads log, log.medium
    ensures s.Available? ==> s.ring.Geometry()
  {
    if log.ready then Available(log.State()) else Unavailable
  }

  class LogStream {
    const eventLog: FlashLog.FlashLog
    const sensorLog: FlashLog.FlashLog
    var active: bool
    var logId: nat
    var chunkIndex: nat
    var nextSeq: nat
    var remaining: nat

    ghost function State(): Stream
      reads this
    {
      Stream(active, logId, chunkIndex, nextSeq, remaining)
    }

    ghost predicate Ready()
      reads eventLog, sensorLog
    {
      eventLog.Valid() && sensorLog.Valid()
    }

    constructor (eventLog: FlashLog.FlashLog, sensorLog: FlashLog.FlashLog)
      ensures this.eventLog == eventLog && this.sensorLog == sensorLog
      ensures State() == Stream(false, EVENT_LOG, 0, 0, 0)
    {
      this.eventLog, this.sensorLog := eventLog, sensorLog;
      active, logId, chunkIndex, nextSeq, remaining := false, EVENT_LOG, 0, 0, 0;
    }

    method ReadRecords(id: nat, start: nat, max: nat) returns (records: seq<Record>)
      requires Ready()
      ensures records == Fetch(SourceFrom(if id == 1 then sensorLog else eventLog), start, max)
    {
      var log := if id == SENSOR_LOG then sensorLog else eventLog;
      var result := log.ReadRecords(start, max);
      match result {
        case NotReady => return [];
        case Done(out) => return out;
      }
    }

    /** One run of the work item. */
    method RunWork(subscribed: bool, notify: Notify) returns (chunk: Option<Chunk>)
      requires Ready()
      modifies this
      ensures (State(), chunk) ==
        Work(old(State()), old(SourceFrom(if logId == 1 then sensorLog else eventLog)), subscribed, notify)
    {
      hide Ring.Geometry, Fetch, Add16, Add32, Capacity;
      if !active {
        return None;
      }
      if !subscribed {
        active := false;
        return None;
      }
      var want := Min(remaining, Capacity(logId));
      var got := ReadRecords(logId, nextSeq, want);
      if got == [] {
        active := false;
        return Some(Chunk(chunkIndex, logId, RecordSize(logId), true, nextSeq, []));
      }
      remaining := remaining - Min(remaining, |got|);
      chunk := Some(Chunk(chunkIndex, logId, RecordSize(logId), remaining == 0, nextSeq, got));
      if notify == NoMemory {
        return;
      }
      if notify == Refused {
        active := false;
        return;
      }
      chunkIndex := Add16(chunkIndex, 1);
      nextSeq := Add32(nextSeq, |got|);
      if remaining == 0 {
        active := false;
      }
    }

    method Abort()
      modifies this
      ensures State() == old(State()).(active := false)
    {
      active := false;
    }

    method HandleRequest(opcode: nat, id: nat, start: nat, maxRecords: nat, subscribed: bool)
        returns (result: RequestResult)
      requires Ready()
      modifies this
      ensures result == if opcode == OP_ABORT then Accepted
                        else if opcode != OP_START then NotSupported
                        else if id > SENSOR_LOG then Invalid
                        else if !subscribed then AccessDenied
                        else Accepted
      ensures State() == if opcode == OP_ABORT then old(State()).(active := false)
                         else if result != Accepted then old(State())
                         else StartStream(id, start, maxRecords,
                                match old(SourceFrom(if id == 1 then sensorLog else eventLog))
                                case Unavailable => 0
                                case Available(ring) => GetInfo(ring).recordCount)
    {
      if opcode == OP_ABORT {
        Abort();
        return Accepted;
      }
      if opcode != OP_START {
        return NotSupported;
      }
      if id > SENSOR_LOG {
        return Invalid;
      }
      if !subscribed {
        return AccessDenied;
      }
      var log := if id == SENSOR_LOG then sensorLog else eventLog;
      var info := log.ReadInfo();
      active := true;
      logId := id;
      chunkIndex := 0;
      nextSeq := start;
      remaining := if maxRecords != 0 then maxRecords
                   else info.ring.recordCount;
      return Accepted;
    }
  }

  // ---- The log that is served ----

  ghost predicate Stored(r: Ring, record: Record) {
    exists i :: 0 <= i < |r.slots| && r.slots[i].Valid? && r.slots[i].record == record
  }

  lemma {:induction false} ReadIsStored(r: Ring, start: nat, i: nat, max: nat, record: Record)
    requires r.Geometry() && record in ReadFrom(r, start, i, max)
    ensures Stored(r, record)
    decreases r.used - i
  {
    var at := (r.tail + i) % |r.slots|;
    var slot := r.slots[at];
    if slot.Valid? && slot.seqno >= start {
      if record != slot.record {
        ReadIsStored(r, start, i + 1, max - 1, record);
      }
    } else {
      ReadIsStored(r, start, i + 1, max, record);
    }
  }

  /** The chunk bears the number of its log and the size of that log's records, and
      its records come from that log. */
  ghost predicate Serves(chunk: Chunk, id: nat, source: Source) {
    && chunk.logId == id && chunk.recordSize == (if id == 1 then 17 else 8)
    && (chunk.records != [] ==> source.Available?)
    && forall record :: record in chunk.records ==> source.Available? && Stored(source.ring, record)
  }

  lemma WorkServes(s: Stream, source: Source, subscribed: bool, notify: Notify)
    requires source.Available? ==> source.ring.Geometry()
    ensures var (s', chunk) := Work(s, source, subscribed, notify);
      s'.logId == s.logId && (chunk.Some? ==> Serves(chunk.value, s.logId, source))
  {
    var want := Min(s.remaining, Capacity(s.logId));
    forall record | record in Fetch(source, s.nextSeq, want) ensures source.Available? && Stored(source.ring, record) {
      ReadIsStored(source.ring, s.nextSeq, SeekOffset(source.ring, s.nextSeq), want, record);
    }
    hide Fetch, Stored, Ring.Geometry, Add16, Add32;
  }

  /** A client that asks for log `id` - 0 the events, 1 the sensor history - and lets
      the work item run: whatever the radio answers, every chunk is of that log. */
  method ServeRequest(stream: LogStream, id: nat, start: nat, maxRecords: nat, subscribed: bool,
                      answers: seq<(bool, Notify)>)
      returns (result: RequestResult, chunks: seq<Chunk>)
    requires stream.Ready()
    modifies stream
    ensures result == if id > 1 then Invalid else if !subscribed then AccessDenied else Accepted
    ensures forall chunk :: chunk in chunks ==>
      Serves(chunk, id, SourceFrom(if id == 1 then stream.sensorLog else stream.eventLog))
  {
    chunks := [];
    result := stream.HandleRequest(OP_START, id, start, maxRecords, subscribed);
    if result != Accepted {
      return;
    }
    ghost var source := SourceFrom(if id == 1 then stream.sensorLog else stream.eventLog);
    for i := 0 to |answers|
      invariant stream.Ready() && stream.logId == id
      invariant source == SourceFrom(if id == 1 then stream.sensorLog else stream.eventLog)
      invariant forall chunk :: chunk in chunks ==> Serves(chunk, id, source)
    {
      hide Work, Serves, Ring.Geometry;
      WorkServes(stream.State(), source, answers[i].0, answers[i].1);
      var chunk := stream.RunWork(answers[i].0, answers[i].1);
      if chunk.Some? {
        chunks := chunks + [chunk.value];
      }
    }
  }
}
