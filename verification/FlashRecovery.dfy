/** Power cuts: what a restart makes of the log after an operation was cut short,
    and what is left of a history after a whole run with cuts anywhere in it. */
module FlashRecovery {
  import opened FlashRing
  import opened FlashPlacement
  import opened FlashFifo
  import Modular

  // ---- A cut inside the erase of an eviction ----

  /** A medium on which some of the head sector's records have gone. */
  ghost predicate DamagedHead(r: Ring, slots: seq<Slot>)
    requires r.Geometry()
  {
    && Shrinks(r.slots, slots)
    && forall i :: 0 <= i < |slots| && !(r.head <= i < r.head + r.perSector) ==> slots[i] == r.slots[i]
  }

  lemma {:induction false} CountSplit(slots: seq<Slot>, low: nat, mid: nat, high: nat)
    requires low <= mid <= high <= |slots|
    ensures CountValid(slots, low, high) == CountValid(slots, low, mid) + CountValid(slots, mid, high)
    decreases high
  {
    if mid < high {
      CountSplit(slots, low, mid, high - 1);
    }
  }

  lemma {:induction false} CountSame(slots: seq<Slot>, others: seq<Slot>, low: nat, high: nat)
    requires low <= high <= |slots| == |others|
    requires forall i :: low <= i < high ==> slots[i] == others[i]
    ensures CountValid(slots, low, high) == CountValid(others, low, high)
    decreases high
  {
    if low < high {
      CountSame(slots, others, low, high - 1);
    }
  }

  lemma CountErased(slots: seq<Slot>, at: nat, n: nat)
    requires at + n <= |slots|
    ensures CountValid(EraseRange(slots, at, n), 0, |slots|) + CountValid(slots, at, at + n)
        == CountValid(slots, 0, |slots|)
  {
    hide CountValid;
    var erased := EraseRange(slots, at, n);
    CountSplit(slots, 0, at, |slots|);
    CountSplit(slots, at, at + n, |slots|);
    CountSplit(erased, 0, at, |slots|);
    CountSplit(erased, at, at + n, |slots|);
    CountSame(slots, erased, 0, at);
    CountSame(slots, erased, at + n, |slots|);
    CountNone(erased, at, at + n);
  }

  /** What a restart finds on such a medium: the same head and next number, and
      as many records as the damage left. */
  lemma BootDamaged(r: Ring, h: seq<Record>, slots: seq<Slot>)
    requires Holds(r, h) && r.AtSectorStart() && 2 * r.perSector <= |r.slots| && DamagedHead(r, slots)
    ensures var booted := Boot(slots, r.perSector);
      && booted.Geometry() && booted.head == r.head && booted.nextSeq == r.nextSeq
      && booted.used == CountValid(slots, 0, |slots|)
  {
    hide CountValid, ScanTo, MakeRoom;
    HoldsIsPlaced(r, h);
    ScanFinds(slots, |slots|);
    if h == [] {
      Modular.Unique(0, |slots|, 0, 0);
    } else {
      var i := SlotOf(|h|, |slots|);
      NewestOutsideHead(r, h);
      assert slots[i] == Valid(|h|, h[|h| - 1]);
      assert ScanTo(slots, |slots|).newestSeq == |h|;
      NextSlot(|h|, |slots|, r.perSector);
    }
  }

  /** With two sectors or more, the newest record is not in the one to be erased. */
  lemma NewestOutsideHead(r: Ring, h: seq<Record>)
    requires Holds(r, h) && r.AtSectorStart() && 2 * r.perSector <= |r.slots| && h != []
    ensures r.slots[SlotOf(|h|, |r.slots|)] == Valid(|h|, h[|h| - 1])
    ensures !(r.head <= SlotOf(|h|, |r.slots|) < r.head + r.perSector)
  {
    var i := SlotOf(|h|, |r.slots|);
    assert r.slots[i] == Valid(|h|, h[|h| - 1]);
    if r.head <= i < r.head + r.perSector {
      HeadSectorRecord(r, h, i - r.head);
    }
  }

  /** If nothing valid is left in the sector, a restart also finds the right tail. */
  lemma BootCleared(r: Ring, h: seq<Record>, slots: seq<Slot>)
    requires Holds(r, h) && r.AtSectorStart() && DamagedHead(r, slots)
    requires r.head + r.perSector <= |r.slots| && CountValid(slots, r.head, r.head + r.perSector) == 0
    ensures Boot(slots, r.perSector).tail == MakeRoom(r, EraseDone).0.tail
  {
    var room := MakeRoom(r, EraseDone).0;
    MakeRoomHolds(r, h);
    ClearedIsKept(r, h, slots, room);
    BootOfKept(slots, r.perSector, h, room.used);
  }

  lemma ClearedIsKept(r: Ring, h: seq<Record>, slots: seq<Slot>, room: Ring)
    requires r.Geometry() && DamagedHead(r, slots) && Holds(room, h) && |room.slots| == |r.slots|
    requires r.head + r.perSector <= |r.slots| && CountValid(slots, r.head, r.head + r.perSector) == 0
    requires room.slots == EraseRange(r.slots, r.head, r.perSector)
    ensures Kept(slots, h, room.used)
  {
    CountedNone(slots, r.head, r.head + r.perSector);
    hide CountValid, SlotOf;
    assert forall i :: 0 <= i < |slots| ==> slots[i].Valid? == room.slots[i].Valid?;
    assert forall i :: 0 <= i < |slots| && slots[i].Valid? ==> slots[i] == room.slots[i];
    assert forall i :: 0 <= i < |slots| && room.slots[i].Valid? ==> slots[i] == room.slots[i];
  }

  lemma {:induction false} CountedNone(slots: seq<Slot>, low: nat, high: nat)
    requires low <= high <= |slots| && CountValid(slots, low, high) == 0
    ensures forall i :: low <= i < high ==> !slots[i].Valid?
    decreases high
  {
    if low < high {
      CountedNone(slots, low, high - 1);
    }
  }

  /** Records counted on a damaged medium, once its sector has been erased. */
  lemma DamagedCount(r: Ring, h: seq<Record>, slots: seq<Slot>)
    requires Holds(r, h) && r.AtSectorStart() && r.head + r.perSector <= |r.slots| && DamagedHead(r, slots)
    ensures EraseRange(slots, r.head, r.perSector) == MakeRoom(r, EraseDone).0.slots
    ensures CountValid(slots, 0, |slots|) == MakeRoom(r, EraseDone).0.used
        + CountValid(slots, r.head, r.head + r.perSector)
  {
    hide CountValid;
    var room := MakeRoom(r, EraseDone).0;
    assert room.slots == EraseRange(r.slots, r.head, r.perSector);
    hide MakeRoom;
    assert EraseRange(slots, r.head, r.perSector) == EraseRange(r.slots, r.head, r.perSector);
    CountErased(slots, r.head, r.perSector);
    MakeRoomHolds(r, h);
    CountKept(room.slots, h, room.used);
  }

  lemma MakeRoomFields(r: Ring)
    requires r.Geometry() && r.AtSectorStart() && r.head + r.perSector <= |r.slots|
    ensures var lost := CountValid(r.slots, r.head, r.head + r.perSector);
      MakeRoom(r, EraseDone) ==
        (Ring(EraseRange(r.slots, r.head, r.perSector), r.perSector, r.head,
              if lost == 0 then r.tail else (r.head + r.perSector) % |r.slots|,
              if r.used < lost then 0 else r.used - lost, r.nextSeq), true)
  {
  }

  lemma HealedRoom(r: Ring, h: seq<Record>, slots: seq<Slot>)
    requires Holds(r, h) && r.AtSectorStart() && 2 * r.perSector <= |r.slots| && DamagedHead(r, slots)
    ensures Boot(slots, r.perSector).Geometry()
    ensures MakeRoom(Boot(slots, r.perSector), EraseDone) == MakeRoom(r, EraseDone)
  {
    var booted := Boot(slots, r.perSector);
    var room := MakeRoom(r, EraseDone).0;
    HeadSectorFits(r);
    BootDamaged(r, h, slots);
    DamagedCount(r, h, slots);
    MakeRoomFields(booted);
    MakeRoomFields(r);
    assert room.tail == MakeRoom(booted, EraseDone).0.tail by {
      if CountValid(slots, r.head, r.head + r.perSector) == 0 {
        BootCleared(r, h, slots);
      } else {
        SurvivorsMeanFull(r, h, slots);
        LostCount(r, h);
      }
    }
  }

  /** Self-healing: however often the eviction was cut short and whatever records
      of the sector that left, after a restart the next append produces the very
      same ring as if there had been no power cut. */
  lemma SelfHealing(r: Ring, h: seq<Record>, slots: seq<Slot>, record: Record, write: WriteOutcome)
    requires Holds(r, h) && r.AtSectorStart() && 2 * r.perSector <= |r.slots| && DamagedHead(r, slots)
    ensures Boot(slots, r.perSector).Geometry()
    ensures Append(Boot(slots, r.perSector), record, EraseDone, write) == Append(r, record, EraseDone, write)
  {
    HealedRoom(r, h, slots);
  }

  lemma SurvivorsMeanFull(r: Ring, h: seq<Record>, slots: seq<Slot>)
    requires Holds(r, h) && r.AtSectorStart() && r.head + r.perSector <= |r.slots| && DamagedHead(r, slots)
    requires CountValid(slots, r.head, r.head + r.perSector) > 0
    ensures r.used == |r.slots|
  {
    if forall i :: r.head <= i < r.head + r.perSector ==> !slots[i].Valid? {
      CountNone(slots, r.head, r.head + r.perSector);
    } else {
      var i :| r.head <= i < r.head + r.perSector && slots[i].Valid?;
      HeadSectorRecord(r, h, i - r.head);
    }
  }

  // ---- A cut inside the write ----

  /** A power cut while a record is being written is atomic: after the restart the
      log is exactly as if the append had succeeded, if the record got there
      complete, and otherwise still holds the same history. */
  lemma CutInWriteIsAtomic(r: Ring, h: seq<Record>, record: Record, residue: Residue)
    requires Holds(r, h) && |h| + 2 < UINT32_MAX && 2 * r.perSector <= |r.slots|
    ensures var cut := Append(r, record, EraseDone, WriteFailed(residue)).0;
      if residue == Complete then
        Boot(cut.slots, r.perSector) == AppendOk(r, record, true) && Holds(AppendOk(r, record, true), h + [record])
      else
        Boot(cut.slots, r.perSector) == cut && Holds(cut, h)
  {
    var cut := Append(r, record, EraseDone, WriteFailed(residue)).0;
    var room := MakeRoom(r, EraseDone).0;
    MakeRoomHolds(r, h);
    if residue == Complete {
      AppendCursors(r, h, record, true);
      AppendExtends(r, h, record, true);
      PowerCycleInvisible(AppendOk(r, record, true), h + [record]);
      assert cut.slots == AppendOk(r, record, true).slots;
    } else {
      HeadSlotFree(r, h);
      if residue == Torn {
        KeptWithout(room.slots, h, room.used, r.head, Garbage);
      } else {
        assert cut.slots == room.slots;
      }
      PowerCycleInvisible(cut, h);
    }
  }

  // ---- Runs with power cuts ----

  /** `legible` and the effects are the device's; every cut ends in a restart. */
  datatype Action =
    | Log(record: Record, legible: bool)
    | CutInErase(record: Record, effect: nat -> CellEffect)
    | CutInWrite(record: Record, residue: Residue)
    | PowerCycle

  function Perform(r: Ring, action: Action): (r': Ring)
    requires r.Geometry()
    ensures r'.Geometry() && |r'.slots| == |r.slots| && r'.perSector == r.perSector
  {
    match action
    case Log(record, legible) => AppendOk(r, record, legible)
    case CutInErase(record, effect) => Boot(Append(r, record, EraseFailed(effect), WriteFailed(Untouched)).0.slots,
                                            r.perSector)
    case CutInWrite(record, residue) => Boot(Append(r, record, EraseDone, WriteFailed(residue)).0.slots, r.perSector)
    case PowerCycle => Boot(r.slots, r.perSector)
  }

  function PerformAll(r: Ring, actions: seq<Action>): (r': Ring)
    requires r.Geometry()
    ensures r'.Geometry() && |r'.slots| == |r.slots| && r'.perSector == r.perSector
  {
    if actions == [] then r
    else Perform(PerformAll(r, actions[..|actions| - 1]), actions[|actions| - 1])
  }

  /** The records that ought to survive: those appended, and those whose write was
      cut after the last byte. No ring, no medium, no cursors. */
  function History(actions: seq<Action>): (h: seq<Record>)
    ensures |h| <= |actions|
  {
    if actions == [] then []
    else History(actions[..|actions| - 1]) + Recorded(actions[|actions| - 1])
  }

  function Recorded(action: Action): (h: seq<Record>)
    ensures |h| <= 1
  {
    match action
    case Log(record, _) => [record]
    case CutInWrite(record, Complete) => [record]
    case _ => []
  }

  /** The device did not program over the remains of a torn write illegibly. */
  ghost predicate Exact(r: Ring, action: Action)
    requires r.Geometry()
  {
    action.Log? ==> r.AtSectorStart() || r.slots[r.head].Erased? || action.legible
  }

  ghost predicate AllExact(r: Ring, actions: seq<Action>)
    requires r.Geometry()
  {
    forall k :: 0 <= k < |actions| ==> Exact(PerformAll(r, actions[..k]), actions[k])
  }

  /** Holding h, or being about to heal into a ring that does. */
  ghost predicate Recoverable(r: Ring, h: seq<Record>) {
    exists ideal: Ring :: Holds(ideal, h) && HealsInto(r, ideal)
  }

  ghost predicate HealsInto(r: Ring, ideal: Ring)
    requires ideal.Geometry()
  {
    r == ideal || (ideal.AtSectorStart() && DamagedHead(ideal, r.slots) && r == Boot(r.slots, ideal.perSector))
  }

  /** Nothing can be told apart from the undamaged ring by an append that gets
      past the erase. */
  lemma HealedAppend(r: Ring, ideal: Ring, h: seq<Record>, record: Record, write: WriteOutcome)
    requires Holds(ideal, h) && HealsInto(r, ideal) && 2 * ideal.perSector <= |ideal.slots|
    ensures r.Geometry() && r.perSector == ideal.perSector && r.head == ideal.head && |r.slots| == |ideal.slots|
    ensures Append(r, record, EraseDone, write) == Append(ideal, record, EraseDone, write)
  {
    if r != ideal {
      BootDamaged(ideal, h, r.slots);
      SelfHealing(ideal, h, r.slots, record, write);
    }
  }

  lemma LogRecovers(r: Ring, ideal: Ring, h: seq<Record>, record: Record, legible: bool)
    requires Holds(ideal, h) && HealsInto(r, ideal) && 2 * ideal.perSector <= |ideal.slots| && |h| + 2 < UINT32_MAX
    requires r.Geometry() && Exact(r, Log(record, legible))
    ensures Holds(AppendOk(r, record, legible), h + [record])
  {
    HealedAppend(r, ideal, h, record, WriteDone(legible));
    AppendHolds(ideal, h, record, legible);
  }

  /** What the medium is like after a cut inside an append's erase, or just before
      its write if nothing has to be erased. */
  lemma CutMedium(r: Ring, record: Record, effect: nat -> CellEffect)
    requires r.Geometry()
    ensures Append(r, record, EraseFailed(effect), WriteFailed(Untouched)).0.slots
         == if r.AtSectorStart() then DamageRange(r.slots, r.head, r.perSector, effect) else r.slots
  {
  }

  lemma CutInEraseRecovers(r: Ring, ideal: Ring, h: seq<Record>, record: Record, effect: nat -> CellEffect)
    requires Holds(ideal, h) && HealsInto(r, ideal) && 2 * ideal.perSector <= |ideal.slots| && r.Geometry()
    ensures HealsInto(Perform(r, CutInErase(record, effect)), ideal)
  {
    HealedAppend(r, ideal, h, record, WriteFailed(Untouched));
    CutMedium(r, record, effect);
    hide Append, Boot;
    if r.AtSectorStart() {
      assert DamagedHead(ideal, DamageRange(r.slots, r.head, r.perSector, effect));
    } else {
      PowerCycleInvisible(ideal, h);
    }
  }

  lemma PowerCycleRecovers(r: Ring, ideal: Ring, h: seq<Record>)
    requires Holds(ideal, h) && HealsInto(r, ideal) && 2 * ideal.perSector <= |ideal.slots|
    ensures Boot(r.slots, r.perSector) == r
  {
    PowerCycleInvisible(ideal, h);
  }

  lemma ActionRecovers(r: Ring, h: seq<Record>, action: Action)
    requires Recoverable(r, h) && r.Geometry() && 2 * r.perSector <= |r.slots| && |h| + 2 < UINT32_MAX
        && Exact(r, action)
    ensures Recoverable(Perform(r, action), h + Recorded(action))
  {
    var ideal :| Holds(ideal, h) && HealsInto(r, ideal);
    assert h + [] == h;
    match action
    case Log(record, legible) =>
      LogRecovers(r, ideal, h, record, legible);
    case CutInErase(record, effect) =>
      CutInEraseRecovers(r, ideal, h, record, effect);
    case CutInWrite(record, residue) =>
      HealedAppend(r, ideal, h, record, WriteFailed(residue));
      CutInWriteIsAtomic(ideal, h, record, residue);
    case PowerCycle =>
      PowerCycleRecovers(r, ideal, h);
  }

  /** Crash safety: from a blank partition of two sectors or more, whatever power
      cuts and restarts happen between and inside appends, the log always holds
      the newest records of the history or heals into holding them. */
  lemma {:induction false} CrashSafety(slots: seq<Slot>, perSector: nat, actions: seq<Action>)
    requires 0 < perSector && 2 * perSector <= |slots| <= UINT32_MAX && |slots| % perSector == 0
    requires forall i :: 0 <= i < |slots| ==> slots[i] == Erased
    requires |actions| + 2 < UINT32_MAX && AllExact(Boot(slots, perSector), actions)
    ensures Recoverable(PerformAll(Boot(slots, perSector), actions), History(actions))
  {
    var blank := Boot(slots, perSector);
    if actions == [] {
      BlankHolds(slots, perSector);
    } else {
      var before := actions[..|actions| - 1];
      assert forall k :: 0 <= k < |before| ==> before[..k] == actions[..k];
      CrashSafety(slots, perSector, before);
      ActionRecovers(PerformAll(blank, before), History(before), actions[|actions| - 1]);
    }
  }

  lemma BlankHolds(slots: seq<Slot>, perSector: nat)
    requires 0 < perSector <= |slots| <= UINT32_MAX && |slots| % perSector == 0
    requires forall i :: 0 <= i < |slots| ==> slots[i] == Erased
    ensures Holds(Boot(slots, perSector), []) && Writable(Boot(slots, perSector))
    ensures Boot(slots, perSector) == Ring(slots, perSector, 0, 0, 0, 1)
  {
    ScanFinds(slots, |slots|);
    CountNone(slots, 0, |slots|);
    Modular.Unique(0, |slots|, 0, 0);
    Modular.Unique(0, perSector, 0, 0);
  }

  // ---- Runs without faults ----

  /** Every slot that does not hold a live record is erased. */
  ghost predicate Clean(r: Ring, h: seq<Record>)
    requires r.used <= |h|
  {
    forall i :: 0 <= i < |r.slots| && r.slots[i] != Erased ==>
      r.slots[i].Valid? && |h| - r.used < r.slots[i].seqno <= |h|
  }

  lemma CleanLog(r: Ring, h: seq<Record>, record: Record, legible: bool)
    requires Holds(r, h) && Clean(r, h) && |h| + 2 < UINT32_MAX
    ensures Exact(r, Log(record, legible))
    ensures var r' := AppendOk(r, record, legible);
      Holds(r', h + [record]) && Clean(r', h + [record]) && r'.used > 0
  {
    HeadSlotFree(r, h);
    MakeRoomHolds(r, h);
    AppendHolds(r, h, record, legible);
    AppendCursors(r, h, record, legible);
    CleanRoom(r, h);
    hide Holds;
  }

  lemma CleanRoom(r: Ring, h: seq<Record>)
    requires Holds(r, h) && Clean(r, h)
    ensures var room := MakeRoom(r, EraseDone).0;
      && (forall i :: 0 <= i < |r.slots| && room.slots[i] != Erased ==> room.slots[i].Valid?)
      && room.slots[r.head] == Erased
  {
    HeadSlotFree(r, h);
    if r.AtSectorStart() {
      HeadSectorFits(r);
    }
  }

  /** With power cycles but no device faults and no cuts, the log holds its history
      on any medium, one sector being enough, and whatever is not live is erased. */
  lemma {:induction false} FaultFreeRun(slots: seq<Slot>, perSector: nat, actions: seq<Action>)
    requires 0 < perSector <= |slots| <= UINT32_MAX && |slots| % perSector == 0
    requires forall i :: 0 <= i < |slots| ==> slots[i] == Erased
    requires |actions| + 2 < UINT32_MAX && forall k :: 0 <= k < |actions| ==> actions[k].Log? || actions[k].PowerCycle?
    ensures var r, h := PerformAll(Boot(slots, perSector), actions), History(actions);
      Holds(r, h) && Clean(r, h) && (h != [] ==> r.used > 0)
  {
    if actions == [] {
      BlankHolds(slots, perSector);
    } else {
      var before, last := actions[..|actions| - 1], actions[|actions| - 1];
      FaultFreeRun(slots, perSector, before);
      var r, h := PerformAll(Boot(slots, perSector), before), History(before);
      if last.Log? {
        CleanLog(r, h, last.record, last.legible);
      } else {
        PowerCycleInvisible(r, h);
        assert h + [] == h;
      }
    }
  }

  // ---- How much is kept ----

  /** The number of records left after the k-th append. */
  function Retained(k: nat, total: nat, perSector: nat): (n: nat)
    requires 0 < perSector <= total
    ensures n <= k && n <= total
    ensures k >= total ==> total - perSector < n
  {
    if k <= total then k else total - perSector + 1 + (k - total - 1) % perSector
  }

  lemma RetainedUnique(k: nat, used: nat, total: nat, perSector: nat)
    requires 0 < perSector <= total && used <= k && used <= total
    requires (k - used) % perSector == 0 && (used < k ==> total - perSector < used)
    ensures used == Retained(k, total, perSector)
  {
    var sectors := (k - used) / perSector;
    Modular.Decompose(k - used, perSector);
    if k <= total {
      Modular.ProductGap(perSector, sectors);
    } else {
      var x := used - (total - perSector + 1);
      assert perSector * (sectors - 1) == perSector * sectors - perSector;
      Modular.Unique(k - total - 1, perSector, sectors - 1, x);
    }
  }

  /** After every append the ring keeps exactly this many of the newest records:
      all of them until it wraps, then between one sector less than full, plus
      the new record, and full. */
  lemma RetentionLaw(r: Ring, h: seq<Record>, record: Record, legible: bool)
    requires Holds(r, h) && |h| + 2 < UINT32_MAX && Exact(r, Log(record, legible))
    ensures Holds(AppendOk(r, record, legible), h + [record])
    ensures AppendOk(r, record, legible).used == Retained(|h| + 1, |r.slots|, r.perSector)
  {
    AppendHolds(r, h, record, legible);
    RetainedUnique(|h| + 1, AppendOk(r, record, legible).used, |r.slots|, r.perSector);
  }
}
