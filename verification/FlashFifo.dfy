/** The flash logger as a queue: a ring that `Holds` a history h keeps exactly
    the newest records of h, and every operation has a reading on h alone. */
module FlashFifo {
  import opened FlashRing
  import opened FlashPlacement
  import Modular

  /** The ring keeps, with no gap, the newest `used` records of the history h, in
      which record number q is h[q - 1]. */
  ghost predicate Gapless(r: Ring, h: seq<Record>) {
    && r.Geometry()
    && |h| + 1 < UINT32_MAX
    && r.nextSeq == |h| + 1
    && r.used <= |h| && r.used <= |r.slots|
    && r.head == |h| % |r.slots|
    && r.tail == (if r.used == 0 then 0 else (|h| - r.used) % |r.slots|)
    && Kept(r.slots, h, r.used)
  }

  /** Gapless, and only whole sectors have been dropped, no more than needed. */
  ghost predicate Holds(r: Ring, h: seq<Record>) {
    && Gapless(r, h)
    && (|h| - r.used) % r.perSector == 0
    && (r.used < |h| ==> |r.slots| - r.perSector <= r.used)
  }

  /** The records on the medium are the last n of h, each in its own slot. */
  ghost predicate Kept(slots: seq<Slot>, h: seq<Record>, n: nat)
    requires |slots| > 0 && n <= |h|
  {
    && (forall q :: |h| - n < q <= |h| ==> slots[SlotOf(q, |slots|)] == Valid(q, h[q - 1]))
    && (forall i :: 0 <= i < |slots| && slots[i].Valid? ==>
          |h| - n < slots[i].seqno <= |h| && SlotOf(slots[i].seqno, |slots|) == i)
  }

  /** The slot the next append will program comes out exact on any medium. */
  ghost predicate Writable(r: Ring)
    requires r.Geometry()
  {
    !r.AtSectorStart() ==>
      forall i :: r.head <= i < |r.slots| && Sector(i, r.perSector) == Sector(r.head, r.perSector)
          ==> r.slots[i] == Erased
  }

  /** The part of Holds that says nothing about remainders. */
  lemma HoldsBasics(r: Ring, h: seq<Record>)
    requires Holds(r, h)
    ensures Gapless(r, h)
    ensures r.Geometry() && r.used <= |h| && r.used <= |r.slots| && r.nextSeq == |h| + 1 < UINT32_MAX
  {
  }

  /** Where a record that is kept is. */
  lemma KeptSlot(r: Ring, h: seq<Record>, q: nat)
    requires Gapless(r, h) && |h| - r.used < q <= |h|
    ensures r.slots[SlotOf(q, |r.slots|)] == Valid(q, h[q - 1])
  {
    hide SlotOf;
  }

  // ---- Counting ----

  lemma {:induction false} CountNone(slots: seq<Slot>, low: nat, high: nat)
    requires low <= high <= |slots|
    requires forall i :: low <= i < high ==> !slots[i].Valid?
    ensures CountValid(slots, low, high) == 0
    decreases high
  {
    if low < high {
      CountNone(slots, low, high - 1);
    }
  }

  lemma {:induction false} CountAll(slots: seq<Slot>, low: nat, high: nat)
    requires low <= high <= |slots|
    requires forall i :: low <= i < high ==> slots[i].Valid?
    ensures CountValid(slots, low, high) == high - low
    decreases high
  {
    if low < high {
      CountAll(slots, low, high - 1);
    }
  }

  lemma {:induction false} CountRemove(slots: seq<Slot>, low: nat, high: nat, at: nat, slot: Slot)
    requires low <= high <= |slots| && at < |slots| && slots[at].Valid? && !slot.Valid?
    ensures CountValid(slots[at := slot], low, high) == CountValid(slots, low, high) - if low <= at < high then 1 else 0
    decreases high
  {
    if low < high {
      CountRemove(slots, low, high - 1, at, slot);
    }
  }

  /** The whole partition holds exactly the n kept records. */
  lemma {:induction false} CountKept(slots: seq<Slot>, h: seq<Record>, n: nat)
    requires 0 < |slots| && n <= |slots| && n <= |h| && Kept(slots, h, n)
    ensures CountValid(slots, 0, |slots|) == n
    decreases n
  {
    if n == 0 {
      CountNone(slots, 0, |slots|);
    } else {
      var oldest := |h| - n + 1;
      var i := SlotOf(oldest, |slots|);
      var rest := slots[i := Erased];
      forall q | oldest < q <= |h|
        ensures rest[SlotOf(q, |slots|)] == Valid(q, h[q - 1])
      {
        Modular.WindowInjective(oldest - 1, q - 1, |slots|);
      }
      CountKept(rest, h, n - 1);
      CountRemove(slots, 0, |slots|, i, Erased);
    }
  }

  // ---- Restarting ----

  lemma HoldsIsPlaced(r: Ring, h: seq<Record>)
    requires Holds(r, h)
    ensures Placed(r.slots)
  {
  }

  /** The ends of what is kept. */
  lemma KeptEnds(slots: seq<Slot>, h: seq<Record>, n: nat)
    requires 0 < |slots| && 0 < n <= |h| && Kept(slots, h, n)
    ensures slots[SlotOf(|h|, |slots|)] == Valid(|h|, h[|h| - 1])
    ensures slots[SlotOf(|h| - n + 1, |slots|)] == Valid(|h| - n + 1, h[|h| - n])
    ensures forall i :: 0 <= i < |slots| && slots[i].Valid? ==>
      |h| - n < slots[i].seqno <= |h| && SlotOf(slots[i].seqno, |slots|) == i
  {
  }

  /** What the scan finds on such a medium. */
  lemma ScanOfKept(slots: seq<Slot>, h: seq<Record>, n: nat)
    requires 0 < |slots| <= UINT32_MAX && 0 < n <= |slots| && n <= |h| && |h| + 1 < UINT32_MAX && Kept(slots, h, n)
    ensures ScanTo(slots, |slots|) == Scan(n, |h|, SlotOf(|h|, |slots|), |h| - n + 1, SlotOf(|h| - n + 1, |slots|))
  {
    KeptEnds(slots, h, n);
    CountKept(slots, h, n);
    hide CountValid, ScanTo, Kept, SlotOf;
    ScanFinds(slots, |slots|);
    var scan := ScanTo(slots, |slots|);
    assert scan.newestSeq == |h| && scan.oldestSeq == |h| - n + 1;
  }

  /** What a restart makes of a medium that keeps the newest n records of h. */
  lemma BootOfKept(slots: seq<Slot>, perSector: nat, h: seq<Record>, n: nat)
    requires 0 < |slots| <= UINT32_MAX && n <= |slots| && n <= |h| && |h| + 1 < UINT32_MAX && Kept(slots, h, n)
    ensures Boot(slots, perSector) == if n == 0 then Ring(slots, perSector, 0, 0, 0, 1)
      else Ring(slots, perSector, |h| % |slots|, (|h| - n) % |slots|, n, |h| + 1)
  {
    hide CountValid, ScanTo, Kept;
    if n > 0 {
      ScanOfKept(slots, h, n);
      NextSlot(|h|, |slots|, 1);
    } else {
      CountKept(slots, h, 0);
      NothingKeptIsBlank(slots, h);
      ScanFinds(slots, |slots|);
    }
  }

  lemma NothingKeptIsBlank(slots: seq<Slot>, h: seq<Record>)
    requires 0 < |slots| && Kept(slots, h, 0)
    ensures Placed(slots)
  {
  }

  /** A restart rebuilds the very same cursors, wherever the ring has wrapped,
      exactly when some record is left or none was ever written. */
  lemma PowerCycleInvisible(r: Ring, h: seq<Record>)
    requires Holds(r, h)
    ensures Boot(r.slots, r.perSector) == r <==> r.used > 0 || h == []
  {
    hide Boot;
    BootOfKept(r.slots, r.perSector, h, r.used);
    if h == [] {
      Modular.Unique(0, |r.slots|, 0, 0);
    }
  }

  // ---- Appending ----

  /** A full ring is aligned; otherwise a head entering a sector leaves room for it. */
  lemma FullOrRoomy(r: Ring, h: seq<Record>)
    requires Holds(r, h)
    ensures r.used == |r.slots| ==> r.AtSectorStart()
    ensures r.AtSectorStart() && r.used < |r.slots| ==> r.used + r.perSector <= |r.slots|
  {
    var total, sector := |r.slots|, r.perSector;
    Modular.ModMod(|h|, total, sector);
    if r.used == total {
      Modular.Decompose(total, sector);
      Modular.AddMultiple(|h| - total, sector, total / sector);
    }
    if r.AtSectorStart() && r.used < total {
      Modular.SameRemainder(|h| - r.used, |h|, sector);
      Modular.MultipleBelow(r.used, total, sector);
    }
  }

  /** The d-th slot of the head's sector belongs to record |h| + 1 + d and, one
      lap earlier, to record |h| + 1 + d - total. */
  lemma HeadSectorSlot(r: Ring, h: seq<Record>, d: nat)
    requires Holds(r, h) && r.head + d < |r.slots|
    ensures (|h| + d) % |r.slots| == r.head + d
    ensures |h| + d >= |r.slots| ==> (|h| + d - |r.slots|) % |r.slots| == r.head + d
  {
    Modular.AddMod(|h|, d, |r.slots|);
    Modular.Unique(r.head + d, |r.slots|, 0, r.head + d);
    if |h| + d >= |r.slots| {
      Modular.AddMultiple(|h| + d - |r.slots|, |r.slots|, 1);
    }
  }

  /** Which records the sector that the head is entering still holds: none,
      unless the ring is full, and then its oldest `perSector` ones. */
  lemma HeadSectorRecord(r: Ring, h: seq<Record>, d: nat)
    requires Holds(r, h) && r.AtSectorStart() && d < r.perSector && r.head + d < |r.slots|
    ensures if r.used == |r.slots| then r.slots[r.head + d] == Valid(|h| - |r.slots| + d + 1, h[|h| - |r.slots| + d])
            else !r.slots[r.head + d].Valid?
  {
    FullOrRoomy(r, h);
    HeadSectorSlot(r, h, d);
    if r.used == |r.slots| {
      var q := |h| - |r.slots| + d + 1;
      assert SlotOf(q, |r.slots|) == r.head + d;
    } else if r.slots[r.head + d].Valid? {
      Modular.WindowInjective(r.slots[r.head + d].seqno - 1, |h| + d, |r.slots|);
    }
  }

  lemma LostCount(r: Ring, h: seq<Record>)
    requires Holds(r, h) && r.AtSectorStart() && r.head + r.perSector <= |r.slots|
    ensures CountValid(r.slots, r.head, r.head + r.perSector) == if r.used == |r.slots| then r.perSector else 0
  {
    forall i | r.head <= i < r.head + r.perSector
      ensures r.slots[i].Valid? <==> r.used == |r.slots|
    {
      HeadSectorRecord(r, h, i - r.head);
    }
    if r.used == |r.slots| {
      CountAll(r.slots, r.head, r.head + r.perSector);
    } else {
      CountNone(r.slots, r.head, r.head + r.perSector);
    }
  }

  /** Erasing the head's sector drops the oldest `perSector` records of a full
      ring and nothing of any other. */
  lemma EvictedMedium(r: Ring, h: seq<Record>)
    requires Holds(r, h) && r.AtSectorStart() && r.head + r.perSector <= |r.slots|
    ensures Kept(EraseRange(r.slots, r.head, r.perSector), h,
                 if r.used == |r.slots| then |r.slots| - r.perSector else r.used)
  {
    var total := |r.slots|;
    var slots := EraseRange(r.slots, r.head, r.perSector);
    var n := if r.used == total then total - r.perSector else r.used;
    FullOrRoomy(r, h);
    forall q | |h| - n < q <= |h|
      ensures slots[SlotOf(q, total)] == Valid(q, h[q - 1])
    {
      var i := SlotOf(q, total);
      assert r.slots[i] == Valid(q, h[q - 1]);
      if r.head <= i < r.head + r.perSector {
        HeadSectorRecord(r, h, i - r.head);
      }
    }
    forall i | 0 <= i < total && slots[i].Valid?
      ensures |h| - n < slots[i].seqno <= |h| && SlotOf(slots[i].seqno, total) == i
    {
      var q := slots[i].seqno;
      if r.used == total && q <= |h| - n {
        HeadSectorSlot(r, h, q - 1 - (|h| - total));
      }
    }
  }

  lemma EvictedCursors(r: Ring, h: seq<Record>)
    requires Holds(r, h) && r.used == |r.slots| && r.AtSectorStart()
    ensures |h| >= |r.slots| - r.perSector && (|h| - (|r.slots| - r.perSector)) % r.perSector == 0
    ensures r.perSector < |r.slots| ==>
      (r.head + r.perSector) % |r.slots| == (|h| - (|r.slots| - r.perSector)) % |r.slots|
    ensures r.perSector == |r.slots| ==> (r.head + r.perSector) % |r.slots| == 0
  {
    var total, sector := |r.slots|, r.perSector;
    Modular.AddMultiple(|h| - total, sector, 1);
    if sector < total {
      Modular.AddMod(|h|, sector, total);
      Modular.AddMultiple(|h| - (total - sector), total, 1);
    } else {
      Modular.Unique(r.head, sector, 0, r.head);
      Modular.Unique(r.head + sector, total, 1, 0);
    }
  }

  /** Making room keeps the queue, less its `perSector` oldest records when full. */
  lemma MakeRoomHolds(r: Ring, h: seq<Record>)
    requires Holds(r, h)
    ensures var room := MakeRoom(r, EraseDone).0;
      && Holds(room, h) && room.used < |r.slots|
      && room.used == (if r.used == |r.slots| then |r.slots| - r.perSector else r.used)
      && (if r.AtSectorStart() then
            forall i :: r.head <= i < r.head + r.perSector <= |r.slots| ==> room.slots[i] == Erased
          else room == r)
  {
    FullOrRoomy(r, h);
    if r.AtSectorStart() {
      HeadSectorFits(r);
      LostCount(r, h);
      EvictedMedium(r, h);
      if r.used == |r.slots| {
        EvictedCursors(r, h);
      }
    }
  }

  /** Writing the next record into the head's slot extends what is kept by it. */
  lemma WriteExtends(slots: seq<Slot>, h: seq<Record>, n: nat, record: Record)
    requires 0 < |slots| && n < |slots| && n <= |h| && Kept(slots, h, n)
    ensures Kept(slots[SlotOf(|h| + 1, |slots|) := Valid(|h| + 1, record)], h + [record], n + 1)
  {
    var h' := h + [record];
    var slots' := slots[SlotOf(|h| + 1, |slots|) := Valid(|h| + 1, record)];
    forall q | |h'| - (n + 1) < q <= |h'|
      ensures slots'[SlotOf(q, |slots|)] == Valid(q, h'[q - 1])
    {
      if q <= |h| {
        Modular.WindowInjective(q - 1, |h|, |slots|);
      }
    }
  }

  /** What an append does after room has been made, cursor by cursor. */
  lemma AppendCursors(r: Ring, h: seq<Record>, record: Record, legible: bool)
    requires Holds(r, h) && |h| + 2 < UINT32_MAX
    ensures var room := MakeRoom(r, EraseDone).0;
      var r' := AppendOk(r, record, legible);
      && r'.used == room.used + 1
      && r'.used == (if r.used == |r.slots| then |r.slots| - r.perSector + 1 else r.used + 1)
      && r'.nextSeq == |h| + 2
      && r'.head == (|h| + 1) % |r.slots|
      && r'.tail == (|h| - room.used) % |r.slots|
      && r'.slots == room.slots[r.head := WriteSlot(room.slots[r.head], Valid(|h| + 1, record), WriteDone(legible))]
      && Append(r, record, EraseDone, WriteDone(legible)).1 == Appended(|h| + 1)
  {
    MakeRoomHolds(r, h);
    NextSlot(|h| + 1, |r.slots|, r.perSector);
  }

  /** Append refines the queue: after an append that the device carries out, the
      ring holds h + [record], having dropped the oldest sector if it was full -
      exactly when the record's slot was erased, is about to be, or the medium
      replaces on write. */
  lemma AppendHolds(r: Ring, h: seq<Record>, record: Record, legible: bool)
    requires Holds(r, h) && |h| + 2 < UINT32_MAX
    ensures Holds(AppendOk(r, record, legible), h + [record]) <==>
      r.AtSectorStart() || r.slots[r.head].Erased? || legible
    ensures AppendOk(r, record, legible).used == if r.used == |r.slots| then |r.slots| - r.perSector + 1 else r.used + 1
    ensures Append(r, record, EraseDone, WriteDone(legible)).1 == Appended(|h| + 1)
  {
    AppendCursors(r, h, record, legible);
    if r.AtSectorStart() || r.slots[r.head].Erased? || legible {
      AppendExtends(r, h, record, legible);
    } else {
      MakeRoomHolds(r, h);
      assert AppendOk(r, record, legible).slots[SlotOf(|h| + 1, |r.slots|)] == Garbage;
    }
  }

  lemma AppendExtends(r: Ring, h: seq<Record>, record: Record, legible: bool)
    requires Holds(r, h) && |h| + 2 < UINT32_MAX
    requires r.AtSectorStart() || r.slots[r.head].Erased? || legible
    ensures Holds(AppendOk(r, record, legible), h + [record])
  {
    var room := MakeRoom(r, EraseDone).0;
    MakeRoomHolds(r, h);
    AppendCursors(r, h, record, legible);
    if r.AtSectorStart() {
      HeadSectorFits(r);
    }
    assert r.head == SlotOf(|h| + 1, |r.slots|);
    hide MakeRoom, AppendOk, SlotOf, Kept;
    WriteExtends(room.slots, h, room.used, record);
  }

  lemma AppendWritable(r: Ring, record: Record, legible: bool)
    requires r.Geometry() && Writable(r)
    ensures Writable(AppendOk(r, record, legible))
  {
    var r' := AppendOk(r, record, legible);
    Modular.Successor(r.head, r.perSector);
    Modular.Successor(r.head, |r.slots|);
    Modular.Unique(r.head, |r.slots|, 0, r.head);
    Modular.Unique(0, r.perSector, 0, 0);
    if r.AtSectorStart() {
      HeadSectorFits(r);
      forall i | r'.head <= i < |r.slots| && Sector(i, r.perSector) == Sector(r.head, r.perSector)
        ensures i < r.head + r.perSector
      {
        Modular.Block(r.head, i, r.perSector);
      }
    }
  }

  // ---- Failed operations ----

  /** A failed write leaves the queue as it was, and the next append exact, if
      and only if it left no complete record and, mid-sector, no trace at all. */
  lemma FailedWrite(r: Ring, h: seq<Record>, record: Record, residue: Residue)
    requires Holds(r, h) && Writable(r)
    ensures var r' := Append(r, record, EraseDone, WriteFailed(residue)).0;
      Holds(r', h) && Writable(r') <==> residue == Untouched || (residue == Torn && r.AtSectorStart())
  {
    var room := MakeRoom(r, EraseDone).0;
    var r' := Append(r, record, EraseDone, WriteFailed(residue)).0;
    MakeRoomHolds(r, h);
    match residue
    case Untouched =>
      assert r'.slots == room.slots;
    case Torn =>
      if r.AtSectorStart() {
        HeadSectorFits(r);
        KeptWithout(room.slots, h, room.used, r.head, Garbage);
      } else {
        assert r'.slots[r.head] == Garbage;
      }
    case Complete =>
      assert r'.slots[r.head] == Valid(|h| + 1, record);
  }

  /** After a failed write the next record gets the same number, and is programmed
      over a record if and only if the failed one got there complete, mid-sector;
      on NOR flash that can cost both. */
  lemma RewritesNumber(r: Ring, h: seq<Record>, record: Record, residue: Residue, next: Record, legible: bool)
    requires Holds(r, h) && |h| + 2 < UINT32_MAX
    ensures var failed := Append(r, record, EraseDone, WriteFailed(residue)).0;
      var retried := Append(failed, next, EraseDone, WriteDone(legible));
      && retried.1 == Appended(|h| + 1)
      && (MakeRoom(failed, EraseDone).0.slots[r.head].Valid? <==> residue == Complete && !r.AtSectorStart())
      && (residue == Complete && !r.AtSectorStart() ==>
            failed.slots[r.head] == Valid(|h| + 1, record)
            && retried.0.slots[r.head] == if legible then Valid(|h| + 1, next) else Garbage)
  {
    var failed := Append(r, record, EraseDone, WriteFailed(residue)).0;
    MakeRoomHolds(r, h);
    if r.AtSectorStart() {
      HeadSectorFits(r);
    } else {
      HeadSlotFree(r, h);
    }
  }

  /** Once room has been made, no record is in the way of the next one. */
  lemma HeadSlotFree(r: Ring, h: seq<Record>)
    requires Holds(r, h)
    ensures !MakeRoom(r, EraseDone).0.slots[r.head].Valid?
  {
    var room := MakeRoom(r, EraseDone).0;
    MakeRoomHolds(r, h);
    if room.slots[r.head].Valid? {
      Modular.WindowInjective(room.slots[r.head].seqno - 1, |h|, |r.slots|);
    }
  }

  /** Overwriting a slot that holds no record with something that is none. */
  lemma KeptWithout(slots: seq<Slot>, h: seq<Record>, n: nat, at: nat, slot: Slot)
    requires 0 < |slots| && n <= |h| && Kept(slots, h, n)
    requires at < |slots| && !slots[at].Valid? && !slot.Valid?
    ensures Kept(slots[at := slot], h, n)
  {
  }

  /** An erase that fails is harmless if and only if it destroyed no record. */
  lemma FailedErase(r: Ring, h: seq<Record>, record: Record, effect: nat -> CellEffect, write: WriteOutcome)
    requires Holds(r, h) && r.AtSectorStart()
    ensures Append(r, record, EraseFailed(effect), write).1 == EraseError
    ensures Holds(Append(r, record, EraseFailed(effect), write).0, h) <==> Spares(r, effect)
  {
    HeadSectorFits(r);
    var r' := Append(r, record, EraseFailed(effect), write).0;
    if Spares(r, effect) {
      forall i | 0 <= i < |r.slots|
        ensures r.slots[i].Valid? ==> r'.slots[i] == r.slots[i]
        ensures r'.slots[i].Valid? ==> r'.slots[i] == r.slots[i]
      {
      }
    } else {
      var i :| r.head <= i < r.head + r.perSector && r.slots[i].Valid? && effect(i) != Intact;
      assert !r'.slots[i].Valid?;
      assert r.slots[SlotOf(r.slots[i].seqno, |r.slots|)].Valid?;
    }
  }

  ghost predicate Spares(r: Ring, effect: nat -> CellEffect)
    requires r.Geometry()
  {
    forall i :: r.head <= i < r.head + r.perSector && i < |r.slots| && r.slots[i].Valid? ==> effect(i) == Intact
  }

  /** Retrying after a failed erase, with no restart in between, makes a proper
      queue of the log again if and only if that erase destroyed no record: the
      cursors still count the ones that were lost. */
  lemma RetryAfterFailedErase(r: Ring, h: seq<Record>, first: Record, record: Record, effect: nat -> CellEffect,
                              write: WriteOutcome)
    requires Holds(r, h) && |h| + 2 < UINT32_MAX && r.AtSectorStart()
    ensures var failed := Append(r, first, EraseFailed(effect), write).0;
      Holds(AppendOk(failed, record, true), h + [record]) <==> Spares(r, effect)
  {
    HeadSectorFits(r);
    var failed := Append(r, first, EraseFailed(effect), write).0;
    FailedErase(r, h, first, effect, write);
    if Spares(r, effect) {
      AppendHolds(failed, h, record, true);
    } else {
      RetryMiscounts(r, h, failed, record);
    }
  }

  /** The head's sector has lost a record but the cursors have not noticed. */
  lemma RetryMiscounts(r: Ring, h: seq<Record>, failed: Ring, record: Record)
    requires Holds(r, h) && |h| + 2 < UINT32_MAX && r.AtSectorStart() && r.head + r.perSector <= |r.slots|
    requires failed == r.(slots := failed.slots) && Shrinks(r.slots, failed.slots)
    requires exists i :: r.head <= i < r.head + r.perSector && r.slots[i].Valid? && !failed.slots[i].Valid?
    ensures !Holds(AppendOk(failed, record, true), h + [record])
  {
    var i :| r.head <= i < r.head + r.perSector && r.slots[i].Valid? && !failed.slots[i].Valid?;
    HeadSectorRecord(r, h, i - r.head);
    CountLess(r.slots, failed.slots, r.head, r.head + r.perSector, i);
    LostCount(r, h);
    AppendToStaleCount(failed, record);
    CountTooHigh(r, h, AppendOk(failed, record, true), h + [record]);
  }

  /** A ring that has just emptied the head's sector cannot claim so many records. */
  lemma CountTooHigh(r: Ring, h: seq<Record>, r': Ring, h': seq<Record>)
    requires Holds(r, h) && r.used == |r.slots| && r.head + r.perSector <= |r.slots|
    requires |r'.slots| == |r.slots| && |h'| == |h| + 1
    requires r'.used > |r.slots| - r.perSector + 1
    requires forall i :: r.head < i < r.head + r.perSector ==> r'.slots[i] == Erased
    ensures !Holds(r', h')
  {
    if Holds(r', h') {
      OldestRecord(r', h');
      HeadSectorSlot(r, h, |h'| - r'.used - (|h| - |r.slots|));
    }
  }

  lemma OldestRecord(r: Ring, h: seq<Record>)
    requires Holds(r, h) && r.used > 0
    ensures r.slots[(|h| - r.used) % |r.slots|] == Valid(|h| - r.used + 1, h[|h| - r.used])
  {
    assert SlotOf(|h| - r.used + 1, |r.slots|) == (|h| - r.used) % |r.slots|;
  }

  lemma AppendToStaleCount(r: Ring, record: Record)
    requires r.Geometry() && r.AtSectorStart() && r.head + r.perSector <= |r.slots|
    requires r.used == |r.slots| && CountValid(r.slots, r.head, r.head + r.perSector) < r.perSector
    ensures |r.slots| < UINT32_MAX ==> AppendOk(r, record, true).used > |r.slots| - r.perSector + 1
    ensures forall i :: r.head < i < r.head + r.perSector ==> AppendOk(r, record, true).slots[i] == Erased
  {
  }

  /** Slots that lose their record only lower the count. */
  lemma {:induction false} CountLess(slots: seq<Slot>, fewer: seq<Slot>, low: nat, high: nat, i: nat)
    requires low <= high <= |slots| && Shrinks(slots, fewer)
    requires i < |slots| && slots[i].Valid? && !fewer[i].Valid?
    ensures CountValid(fewer, low, high) + (if low <= i < high then 1 else 0) <= CountValid(slots, low, high)
    decreases high
  {
    if low < high {
      CountLess(slots, fewer, low, high - 1, i);
    }
  }
}
