/** The flash logger as the firmware has it: cursors in RAM updated in place over
    a medium, each operation proved to do what FlashRing says of it. */
module FlashLog {
  import opened FlashRing
  import opened FlashPlacement
  import opened FlashFifo
  import opened FlashQuery
  import Modular
  import SlotFormat

  /** What opening the partition and asking for its page size comes to. */
  datatype Device = CannotOpen(error: int) | DeviceNotReady | NoPageInfo(error: int) | Opened(pageSize: nat)

  datatype InitResult = InitOk | BadPayload | OpenFailed(error: int) | NoDevice | PageInfoFailed(error: int) | TooSmall

  /** What every other operation returns before a successful Init. */
  datatype Outcome<T> = NotReady | Done(value: T)

  datatype LogInfo = LogInfo(recordSize: nat, ready: bool, ring: Info)

  class FlashLog {
    const medium: array<Slot>
    const payloadSize: nat
    var ready: bool
    var perSector: nat
    var totalSlots: nat
    var headSlot: nat
    var tailSlot: nat
    var usedSlots: nat
    var nextSeq: nat

    ghost predicate Valid()
      reads this
    {
      && medium.Length <= UINT32_MAX
      && (ready ==>
            && 0 < perSector <= totalSlots <= medium.Length
            && totalSlots % perSector == 0
            && headSlot < totalSlots
            && tailSlot < totalSlots)
    }

    /** The part of the partition that makes up the ring, and the cursors. */
    ghost function State(): (r: Ring)
      requires Valid() && ready
      reads this, medium
      ensures r.Geometry()
    {
      Ring(medium[..totalSlots], perSector, headSlot, tailSlot, usedSlots, nextSeq)
    }

    constructor (medium: array<Slot>, payloadSize: nat)
      requires medium.Length <= UINT32_MAX
      ensures Valid() && !ready && this.medium == medium && this.payloadSize == payloadSize
    {
      this.medium := medium;
      this.payloadSize := payloadSize;
      ready := false;
      perSector, totalSlots, headSlot, tailSlot, usedSlots, nextSeq := 0, 0, 0, 0, 0, 0;
    }

    /** Opens the partition, whose medium has one entry for each whole slot, and
        rebuilds the cursors from what is on it. */
    method Init(device: Device) returns (result: InitResult)
      requires Valid()
      modifies this
      ensures Valid() && ready == result.InitOk?
      ensures result == if payloadSize == 0 || payloadSize > SlotFormat.MAX_PAYLOAD then BadPayload
                        else match device
                             case CannotOpen(error) => OpenFailed(error)
                             case DeviceNotReady => NoDevice
                             case NoPageInfo(error) => PageInfoFailed(error)
                             case Opened(pageSize) =>
                               if pageSize < SlotFormat.SLOT_SIZE || medium.Length < pageSize / SlotFormat.SLOT_SIZE
                                   then TooSmall else InitOk
      ensures ready ==>
        && perSector == device.pageSize / SlotFormat.SLOT_SIZE
        && State() == Boot(medium[..totalSlots], perSector)
        && totalSlots <= medium.Length < totalSlots + perSector
    {
      ready := false;
      if payloadSize == 0 || payloadSize > SlotFormat.MAX_PAYLOAD {
        return BadPayload;
      }
      match device {
        case CannotOpen(error) => return OpenFailed(error);
        case DeviceNotReady => return NoDevice;
        case NoPageInfo(error) => return PageInfoFailed(error);
        case Opened(_) =>
      }
      perSector := device.pageSize / SlotFormat.SLOT_SIZE;
      totalSlots := medium.Length;
      if perSector == 0 || totalSlots < perSector {
        return TooSmall;
      }
      Modular.RoundDown(totalSlots, perSector);
      totalSlots := totalSlots - totalSlots % perSector;
      ScanMedium();
      ready := true;
      return InitOk;
    }

    /** Finds the newest and the oldest record, wherever the ring has wrapped. */
    method ScanMedium()
      requires 0 < totalSlots <= medium.Length
      modifies this`headSlot, this`tailSlot, this`usedSlots, this`nextSeq
      ensures Ring(medium[..totalSlots], perSector, headSlot, tailSlot, usedSlots, nextSeq)
          == Boot(medium[..totalSlots], perSector)
    {
      var newestSeq, oldestSeq, newestSlot := 0, UINT32_MAX, 0;
      headSlot, tailSlot, usedSlots, nextSeq := 0, 0, 0, 1;
      ghost var slots := medium[..totalSlots];
      for i := 0 to totalSlots
        invariant headSlot == 0 && nextSeq == 1
        invariant Scan(usedSlots, newestSeq, newestSlot, oldestSeq, tailSlot) == ScanTo(slots, i)
      {
        assert slots[i] == medium[i];
        match medium[i] {
          case Valid(seqno, _) =>
            usedSlots := Next32(usedSlots);
            if seqno > newestSeq {
              newestSeq, newestSlot := seqno, i;
            }
            if seqno < oldestSeq {
              oldestSeq, tailSlot := seqno, i;
            }
          case _ =>
        }
      }
      if usedSlots == 0 {
        return;
      }
      headSlot := (newestSlot + 1) % totalSlots;
      nextSeq := Next32(newestSeq);
    }

    /** flash_area_erase() on one sector, with the outcome the device produces. */
    method EraseArea(at: nat, outcome: EraseOutcome) returns (ok: bool)
      requires at + perSector <= medium.Length
      modifies medium
      ensures ok == outcome.EraseDone?
      ensures medium[..] == EraseSector(old(medium[..]), at, perSector, outcome)
    {
      for i := at to at + perSector
        invariant forall k :: 0 <= k < medium.Length ==>
          medium[k] == if at <= k < i
                       then match outcome { case EraseDone => Erased case EraseFailed(effect) => Damage(old(medium[k]),
                           effect(k)) }
                       else old(medium[k])
      {
        match outcome {
          case EraseDone => medium[i] := Erased;
          case EraseFailed(effect) => medium[i] := Damage(medium[i], effect(i));
        }
      }
      return outcome.EraseDone?;
    }

    /** EraseArea on a sector of the ring, as the ring sees it. */
    method EraseRingSector(at: nat, outcome: EraseOutcome) returns (ok: bool)
      requires at + perSector <= totalSlots <= medium.Length
      modifies medium
      ensures ok == outcome.EraseDone?
      ensures medium[..totalSlots] == EraseSector(old(medium[..totalSlots]), at, perSector, outcome)
    {
      ok := EraseArea(at, outcome);
    }

    method CountHeadSector() returns (lost: nat)
      requires headSlot + perSector <= totalSlots <= medium.Length
      ensures lost == CountValid(medium[..totalSlots], headSlot, headSlot + perSector)
    {
      lost := 0;
      for i := 0 to perSector
        invariant lost == CountValid(medium[..totalSlots], headSlot, headSlot + i)
      {
        if medium[headSlot + i].Valid? {
          lost := lost + 1;
        }
      }
    }

    /** Mid-sector, nothing; at the start of a sector, clears it for the records to come. */
    method ClearHeadSector(erase: EraseOutcome) returns (ok: bool)
      requires Valid() && ready
      modifies medium, this`usedSlots, this`tailSlot
      ensures Valid() && ready
      ensures (State(), ok) == MakeRoom(old(State()), erase)
    {
      if headSlot % perSector != 0 {
        return true;
      }
      HeadSectorFits(State());
      var lost := CountHeadSector();
      ok := EraseRingSector(headSlot, erase);
      if !ok {
        return;
      }
      if lost > 0 {
        usedSlots := usedSlots - if usedSlots < lost then usedSlots else lost;
        tailSlot := (headSlot + perSector) % totalSlots;
      }
    }

    /** Programs the head's slot. */
    method WriteHead(record: Record, write: WriteOutcome) returns (ok: bool)
      requires Valid() && ready
      modifies medium
      ensures ok == write.WriteDone?
      ensures Valid() && State() == old(State()).(slots := old(State()).slots[headSlot :=
                WriteSlot(old(State()).slots[headSlot], Slot.Valid(nextSeq, record), write)])
    {
      ghost var slots := medium[..totalSlots];
      medium[headSlot] := WriteSlot(medium[headSlot], Slot.Valid(nextSeq, record), write);
      assert medium[..totalSlots] == slots[headSlot := medium[headSlot]];
      return write.WriteDone?;
    }

    method AppendRecord(record: Record, erase: EraseOutcome, write: WriteOutcome)
        returns (result: Outcome<AppendResult>)
      requires Valid() && |record| == payloadSize
      modifies this`headSlot, this`tailSlot, this`usedSlots, this`nextSeq, medium
      ensures Valid()
      ensures !ready ==> result == NotReady && unchanged(this) && medium[..] == old(medium[..])
      ensures ready ==> result.Done? && (State(), result.value) == Append(old(State()), record, erase, write)
    {
      if !ready {
        return NotReady;
      }
      hide MakeRoom, WriteSlot;
      var ok := ClearHeadSector(erase);
      if !ok {
        return Done(EraseError);
      }
      ok := WriteHead(record, write);
      if !ok {
        return Done(WriteError);
      }
      if usedSlots == 0 {
        tailSlot := headSlot;
      }
      result := Done(Appended(nextSeq));
      nextSeq := Next32(nextSeq);
      usedSlots := Next32(usedSlots);
      headSlot := (headSlot + 1) % totalSlots;
    }

    /** The i-th slot from the tail. */
    method ReadSlot(i: nat) returns (slot: Slot)
      requires Valid() && ready
      ensures slot == State().slots[(State().tail + i) % |State().slots|]
    {
      return medium[(tailSlot + i) % totalSlots];
    }

    lemma StateUsed()
      requires Valid() && ready
      ensures State().used == usedSlots
    {
    }

    /** The records from the i-th live slot on that are numbered `start` or more. */
    method CollectFrom(first: nat, start: nat, max: nat) returns (out: seq<Record>)
      requires Valid() && ready
      ensures out == ReadFrom(State(), start, first, max)
    {
      hide *;
      ghost var r := State();
      StateUsed();
      out := [];
      var i := first;
      while i < usedSlots && |out| < max
        invariant |out| <= max
        invariant out + ReadFrom(r, start, i, max - |out|) == ReadFrom(r, start, first, max)
        decreases usedSlots - i
      {
        var slot := ReadSlot(i);
        if slot.Valid? && slot.seqno >= start {
          ReadHit(r, start, i, max - |out|);
          out := out + [slot.record];
        } else {
          ReadMiss(r, start, i, max - |out|);
        }
        i := i + 1;
      }
      ReadEnd(r, start, i, max - |out|);
    }

    method ReadRecords(start: nat, max: nat) returns (result: Outcome<seq<Record>>)
      requires Valid()
      ensures result == if ready then Done(Read(State(), start, max)) else NotReady
    {
      if !ready {
        return NotReady;
      }
      var first := 0;
      if usedSlots > 0 && medium[tailSlot].Valid? && start > medium[tailSlot].seqno {
        first := start - medium[tailSlot].seqno;
      }
      var out := CollectFrom(first, start, max);
      return Done(out);
    }

    /** The oldest record of the history that is still held, if there is one: of a
        sound log the first that a read of all of it returns. */
    method GetOldest() returns (result: Outcome<seq<Record>>)
      requires Valid()
      ensures !ready ==> result == NotReady
      ensures ready ==> result == Done(Oldest(State()))
      ensures forall h :: ready && Gapless(State(), h) ==>
        && result == Done(if usedSlots == 0 then [] else [h[|h| - usedSlots]])
        && result == Done(Read(State(), 0, 1))
    {
      hide Read;
      forall h | ready && Gapless(State(), h)
        ensures Oldest(State()) == (if usedSlots == 0 then [] else [h[|h| - usedSlots]]) == Read(State(), 0, 1)
      {
        OldestIsFirst(State(), h);
      }
      if !ready {
        return NotReady;
      }
      if usedSlots > 0 && medium[tailSlot].Valid? {
        return Done([medium[tailSlot].record]);
      }
      return Done([]);
    }

    method ReadInfo() returns (result: LogInfo)
      requires Valid()
      ensures result == LogInfo(payloadSize, ready, if ready then GetInfo(State()) else Info(0, 0, 0, 0))
    {
      if !ready {
        return LogInfo(payloadSize, false, Info(0, 0, 0, 0));
      }
      var oldest, newest := 0, 0;
      if usedSlots > 0 {
        if medium[tailSlot].Valid? {
          oldest := medium[tailSlot].seqno;
        }
        newest := if nextSeq == 0 then UINT32_MAX else nextSeq - 1;
      }
      return LogInfo(payloadSize, true, Info(usedSlots, totalSlots, oldest, newest));
    }

    /** Stops at the first sector that the device cannot erase. */
    method EraseAllSectors(outcome: nat -> EraseOutcome) returns (ok: bool)
      requires 0 < perSector <= totalSlots <= medium.Length && totalSlots % perSector == 0
      modifies medium
      ensures (medium[..totalSlots], ok) == EraseSectors(old(medium[..totalSlots]), perSector, 0, outcome)
    {
      ghost var goal := EraseSectors(medium[..totalSlots], perSector, 0, outcome);
      var offset := 0;
      Modular.Unique(0, perSector, 0, 0);
      while offset < totalSlots
        invariant offset <= totalSlots && offset % perSector == 0
        invariant goal == EraseSectors(medium[..totalSlots], perSector, offset, outcome)
      {
        Modular.NextMultiple(offset, totalSlots, perSector);
        ok := EraseRingSector(offset, outcome(offset));
        if !ok {
          return;
        }
        offset := offset + perSector;
      }
      return true;
    }

    /** Erases the partition and restarts numbering at 1, or leaves the cursors
        as they were if a sector cannot be erased. */
    method EraseAll(outcome: nat -> EraseOutcome) returns (result: Outcome<bool>)
      requires Valid()
      modifies this`headSlot, this`tailSlot, this`usedSlots, this`nextSeq, medium
      ensures Valid()
      ensures !ready ==> result == NotReady && unchanged(this) && medium[..] == old(medium[..])
      ensures ready ==>
        && result.Done? && (result.value <==> ErasesAll(outcome, perSector, 0, totalSlots))
        && State() == EraseLog(old(State()), outcome)
    {
      if !ready {
        return NotReady;
      }
      EraseLogAnswers(State(), outcome);
      var ok := EraseAllSectors(outcome);
      if ok {
        headSlot, tailSlot, usedSlots, nextSeq := 0, 0, 0, 1;
      }
      return Done(ok);
    }
  }
}
