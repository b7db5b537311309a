/** The circular flash logger as a function of its medium and its cursors:
    what every operation of src/storage/flash_manager.c does to them, with the
    behaviour of the flash device as an argument. */
module FlashRing {
  import Modular

  const UINT32_MAX: nat := 0xffff_ffff

  type Record = seq<bv8>

  /** What slot_valid() can tell about a slot. */
  datatype Slot = Erased | Garbage | Valid(seqno: nat, record: Record)

  /** A partition of whole sectors and the cursors kept in RAM. */
  datatype Ring = Ring(slots: seq<Slot>, perSector: nat, head: nat, tail: nat, used: nat, nextSeq: nat)
  {
    ghost predicate Geometry() {
      && 0 < perSector <= |slots| <= UINT32_MAX
      && |slots| % perSector == 0
      && head < |slots|
      && tail < |slots|
    }

    /** The head is entering a sector, which is the only time one is erased. */
    predicate AtSectorStart()
      requires perSector > 0
    {
      head % perSector == 0
    }
  }

  // ---- The device ----

  /** What an interrupted or failed erase did to one slot. */
  datatype CellEffect = Intact | Cleared | Corrupted

  datatype EraseOutcome = EraseDone | EraseFailed(effect: nat -> CellEffect)

  /** What an interrupted or failed write left in its slot. */
  datatype Residue = Untouched | Torn | Complete

  /** `legible` is what programming over a slot that is not erased gives: always
      true on a medium whose writes replace, either way on NOR flash. */
  datatype WriteOutcome = WriteDone(legible: bool) | WriteFailed(residue: Residue)

  function Damage(slot: Slot, effect: CellEffect): (r: Slot) {
    match effect
    case Intact => slot
    case Cleared => Erased
    case Corrupted => Garbage
  }

  function EraseRange(slots: seq<Slot>, at: nat, n: nat): (r: seq<Slot>)
    ensures |r| == |slots|
    ensures forall i :: 0 <= i < |r| ==> r[i] == if at <= i < at + n then Erased else slots[i]
  {
    seq(|slots|, i requires 0 <= i < |slots| => if at <= i < at + n then Erased else slots[i])
  }

  function DamageRange(slots: seq<Slot>, at: nat, n: nat, effect: nat -> CellEffect): (r: seq<Slot>)
    ensures |r| == |slots|
    ensures forall i :: 0 <= i < |r| ==> r[i] == if at <= i < at + n then Damage(slots[i], effect(i)) else slots[i]
  {
    seq(|slots|, i requires 0 <= i < |slots| => if at <= i < at + n then Damage(slots[i], effect(i)) else slots[i])
  }

  function EraseSector(slots: seq<Slot>, at: nat, n: nat, outcome: EraseOutcome): (r: seq<Slot>)
    ensures |r| == |slots|
  {
    match outcome
    case EraseDone => EraseRange(slots, at, n)
    case EraseFailed(effect) => DamageRange(slots, at, n, effect)
  }

  function WriteSlot(slot: Slot, target: Slot, outcome: WriteOutcome): (r: Slot) {
    match outcome
    case WriteDone(legible) => if slot.Erased? || legible then target else Garbage
    case WriteFailed(Untouched) => slot
    case WriteFailed(Torn) => Garbage
    case WriteFailed(Complete) => target
  }

  // ---- Scanning ----

  function Next32(n: nat): nat {
    if n >= UINT32_MAX then 0 else n + 1
  }

  function CountValid(slots: seq<Slot>, low: nat, high: nat): (n: nat)
    requires low <= high <= |slots|
    ensures n <= high - low
    decreases high
  {
    if low == high then 0
    else CountValid(slots, low, high - 1) + if slots[high - 1].Valid? then 1 else 0
  }

  /** The running result of the scan loop. */
  datatype Scan = Scan(used: nat, newestSeq: nat, newestSlot: nat, oldestSeq: nat, tail: nat)

  function ScanSlot(scan: Scan, i: nat, slot: Slot): Scan {
    match slot
    case Valid(seqno, _) =>
      var newest := if seqno > scan.newestSeq
                    then scan.(newestSeq := seqno, newestSlot := i) else scan;
      var oldest := if seqno < newest.oldestSeq
                    then newest.(oldestSeq := seqno, tail := i) else newest;
      oldest.(used := Next32(scan.used))
    case _ => scan
  }

  function ScanTo(slots: seq<Slot>, n: nat): (s: Scan)
    requires n <= |slots|
    ensures if n == 0 then s.tail == s.newestSlot == 0 else s.tail < n && s.newestSlot < n
  {
    if n == 0 then Scan(0, 0, 0, UINT32_MAX, 0)
    else ScanSlot(ScanTo(slots, n - 1), n - 1, slots[n - 1])
  }

  /** The cursors that initialisation rebuilds from the medium alone. */
  function Boot(slots: seq<Slot>, perSector: nat): (r: Ring)
    requires |slots| > 0
    ensures r.slots == slots && r.perSector == perSector
    ensures r.head < |slots| && r.tail < |slots|
  {
    var scan := ScanTo(slots, |slots|);
    if scan.used == 0 then Ring(slots, perSector, 0, scan.tail, 0, 1)
    else Ring(slots, perSector, (scan.newestSlot + 1) % |slots|, scan.tail, scan.used, Next32(scan.newestSeq))
  }

  // ---- Appending ----

  function MakeRoom(r: Ring, erase: EraseOutcome): (result: (Ring, bool))
    requires r.Geometry()
    ensures |result.0.slots| == |r.slots| && result.0.perSector == r.perSector && result.0.Geometry()
    ensures result.0.head == r.head && result.0.nextSeq == r.nextSeq
  {
    if !r.AtSectorStart() then (r, true)
    else
      HeadSectorFits(r);
      var lost := CountValid(r.slots, r.head, r.head + r.perSector);
      var cleared := r.(slots := EraseSector(r.slots, r.head, r.perSector, erase));
      if erase.EraseFailed? then (cleared, false)
      else if lost == 0 then (cleared, true)
      else (cleared.(used := r.used - if r.used < lost then r.used else lost,
                     tail := (r.head + r.perSector) % |r.slots|), true)
  }

  lemma HeadSectorFits(r: Ring)
    requires r.Geometry() && r.AtSectorStart()
    ensures r.head + r.perSector <= |r.slots|
  {
    Modular.MultipleBelow(r.head, |r.slots|, r.perSector);
  }

  datatype AppendResult = Appended(seqno: nat) | EraseError | WriteError

  function Append(r: Ring, record: Record, erase: EraseOutcome, write: WriteOutcome): (result: (Ring, AppendResult))
    requires r.Geometry()
    ensures result.0.Geometry() && |result.0.slots| == |r.slots| && result.0.perSector == r.perSector
  {
    var (room, ok) := MakeRoom(r, erase);
    if !ok then (room, EraseError)
    else
      var target := Valid(room.nextSeq, record);
      var written := room.(slots := room.slots[room.head := WriteSlot(room.slots[room.head], target, write)]);
      if write.WriteFailed? then (written, WriteError)
      else
        (written.(tail := if room.used == 0 then room.head else room.tail,
                  nextSeq := Next32(room.nextSeq),
                  used := Next32(room.used),
                  head := (room.head + 1) % |room.slots|),
         Appended(room.nextSeq))
  }

  /** An append during which the device reports no error. */
  function AppendOk(r: Ring, record: Record, legible: bool): (r': Ring)
    requires r.Geometry()
    ensures r'.Geometry() && |r'.slots| == |r.slots| && r'.perSector == r.perSector
  {
    Append(r, record, EraseDone, WriteDone(legible)).0
  }

  // ---- Erasing the whole log ----

  /** Sector by sector from slot `at`, stopping at the first that fails. */
  function EraseSectors(slots: seq<Slot>, perSector: nat, at: nat, outcome: nat -> EraseOutcome)
    : (result: (seq<Slot>, bool))
    requires perSector > 0
    ensures |result.0| == |slots|
    decreases |slots| - at
  {
    if at >= |slots| then (slots, true)
    else
      var next := EraseSector(slots, at, perSector, outcome(at));
      if outcome(at).EraseFailed? then (next, false)
      else EraseSectors(next, perSector, at + perSector, outcome)
  }

  function EraseLog(r: Ring, outcome: nat -> EraseOutcome): (r': Ring)
    requires r.Geometry()
    ensures r'.Geometry() && |r'.slots| == |r.slots| && r'.perSector == r.perSector
  {
    var (slots, ok) := EraseSectors(r.slots, r.perSector, 0, outcome);
    if ok then Ring(slots, r.perSector, 0, 0, 0, 1) else r.(slots := slots)
  }

  // ---- Reading ----

  /** How far past the tail a read starts. */
  function SeekOffset(r: Ring, start: nat): nat
    requires r.Geometry()
  {
    match r.slots[r.tail]
    case Valid(seqno, _) => if r.used > 0 && start > seqno then start - seqno else 0
    case _ => 0
  }

  function ReadFrom(r: Ring, start: nat, i: nat, max: nat): (out: seq<Record>)
    requires r.Geometry()
    ensures |out| <= max
    decreases r.used - i
  {
    if i >= r.used || max == 0 then []
    else
      match r.slots[(r.tail + i) % |r.slots|]
      case Valid(seqno, record) =>
        if seqno < start then ReadFrom(r, start, i + 1, max)
        else [record] + ReadFrom(r, start, i + 1, max - 1)
      case _ => ReadFrom(r, start, i + 1, max)
  }

  /** Slots the read loop looks at. */
  function SlotsVisited(r: Ring, start: nat, i: nat, max: nat): nat
    requires r.Geometry()
    decreases r.used - i
  {
    if i >= r.used || max == 0 then 0
    else
      var slot := r.slots[(r.tail + i) % |r.slots|];
      1 + SlotsVisited(r, start, i + 1, if slot.Valid? && slot.seqno >= start then max - 1 else max)
  }

  lemma ReadHit(r: Ring, start: nat, i: nat, max: nat)
    requires r.Geometry() && i < r.used && max > 0
    requires var slot := r.slots[(r.tail + i) % |r.slots|]; slot.Valid? && slot.seqno >= start
    ensures ReadFrom(r, start, i, max) == [r.slots[(r.tail + i) % |r.slots|].record]
        + ReadFrom(r, start, i + 1, max - 1)
    ensures SlotsVisited(r, start, i, max) == 1 + SlotsVisited(r, start, i + 1, max - 1)
  {
  }

  lemma ReadEnd(r: Ring, start: nat, i: nat, max: nat)
    requires r.Geometry() && (i >= r.used || max == 0)
    ensures ReadFrom(r, start, i, max) == [] && SlotsVisited(r, start, i, max) == 0
  {
  }

  lemma ReadMiss(r: Ring, start: nat, i: nat, max: nat)
    requires r.Geometry() && i < r.used && max > 0
    requires var slot := r.slots[(r.tail + i) % |r.slots|]; !(slot.Valid? && slot.seqno >= start)
    ensures ReadFrom(r, start, i, max) == ReadFrom(r, start, i + 1, max)
    ensures SlotsVisited(r, start, i, max) == 1 + SlotsVisited(r, start, i + 1, max)
  {
  }

  function Read(r: Ring, start: nat, max: nat): (out: seq<Record>)
    requires r.Geometry()
    ensures |out| <= max
  {
    ReadFrom(r, start, SeekOffset(r, start), max)
  }

  function Oldest(r: Ring): (out: seq<Record>)
    requires r.Geometry()
    ensures |out| <= 1
  {
    match r.slots[r.tail]
    case Valid(_, record) => if r.used > 0 then [record] else []
    case _ => []
  }

  datatype Info = Info(recordCount: nat, capacity: nat, oldestSeq: nat, newestSeq: nat)

  function GetInfo(r: Ring): Info
    requires r.Geometry()
  {
    if r.used == 0 then Info(0, |r.slots|, 0, 0)
    else
      Info(r.used, |r.slots|,
           match r.slots[r.tail] { case Valid(seqno, _) => seqno case _ => 0 },
           if r.nextSeq == 0 then UINT32_MAX else r.nextSeq - 1)
  }

}
