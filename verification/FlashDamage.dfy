/** Reading after a power cut has left holes, and small rings on which things go wrong. */
module FlashDamage {
  import opened FlashRing
  import opened FlashPlacement
  import opened FlashFifo
  import opened FlashRecovery
  import opened FlashQuery
  import opened FlashHoles

  /** The records that are left of the head's sector are its newest ones. */
  ghost predicate NoHole(r: Ring, slots: seq<Slot>)
    requires |slots| == |r.slots|
  {
    forall i, j :: r.head <= i < j < r.head + r.perSector && j < |slots| && slots[i].Valid? ==> slots[j].Valid?
  }

  /** Slots without a record. */
  function Holes(slots: seq<Slot>, low: nat, high: nat): nat
    requires low <= high <= |slots|
  {
    high - low - CountValid(slots, low, high)
  }

  lemma {:induction false} NoHoles(slots: seq<Slot>, low: nat, high: nat)
    requires low <= high <= |slots|
    ensures Holes(slots, low, high) == 0 <==> forall i :: low <= i < high ==> slots[i].Valid?
    decreases high
  {
    if low < high {
      NoHoles(slots, low, high - 1);
    }
  }

  /** Where the survivors of the head's sector stand in the history. */
  lemma SurvivorNumber(r: Ring, h: seq<Record>, slots: seq<Slot>, i: nat)
    requires Holds(r, h) && r.used == |r.slots| && r.AtSectorStart() && r.head + r.perSector <= |r.slots|
    requires DamagedHead(r, slots) && i < |slots| && slots[i].Valid?
    ensures slots[i] == r.slots[i] && SlotOf(slots[i].seqno, |r.slots|) == i && slots[i].seqno <= |h|
    ensures if r.head <= i < r.head + r.perSector then slots[i].seqno == |h| - |r.slots| + 1 + (i - r.head)
            else slots[i].seqno > |h| - |r.slots| + r.perSector
  {
    var q := slots[i].seqno;
    if r.head <= i < r.head + r.perSector {
      HeadSectorRecord(r, h, i - r.head);
    } else if q <= |h| - |r.slots| + r.perSector {
      HeadSectorSlot(r, h, q - 1 - (|h| - |r.slots|));
    }
  }

  /** What is left on the medium is numbered within the last lap. */
  lemma DamagedIsWindowed(r: Ring, h: seq<Record>, slots: seq<Slot>)
    requires Holds(r, h) && r.used == |r.slots| && DamagedHead(r, slots)
    ensures Windowed(slots, |h| - |r.slots| + 1)
  {
  }

  /** After a restart the tail is the oldest survivor. */
  lemma TailIsOldestSurvivor(r: Ring, h: seq<Record>, slots: seq<Slot>, i: nat)
    requires Holds(r, h) && r.used == |r.slots| && r.AtSectorStart() && 2 * r.perSector <= |r.slots|
        && DamagedHead(r, slots)
    requires r.head <= i < r.head + r.perSector <= |r.slots| && slots[i].Valid?
    ensures r.head <= Boot(slots, r.perSector).tail <= i && slots[Boot(slots, r.perSector).tail].Valid?
  {
    HoldsIsPlaced(r, h);
    ScanFinds(slots, |slots|);
    var tail := Boot(slots, r.perSector).tail;
    SurvivorNumber(r, h, slots, i);
    SurvivorNumber(r, h, slots, tail);
  }

  /** Before it the sector holds nothing. */
  lemma SurvivorsFromTail(r: Ring, h: seq<Record>, slots: seq<Slot>, i: nat)
    requires Holds(r, h) && r.used == |r.slots| && r.AtSectorStart() && 2 * r.perSector <= |r.slots|
        && DamagedHead(r, slots)
    requires r.head <= i < r.head + r.perSector <= |r.slots| && slots[i].Valid?
    ensures var tail := Boot(slots, r.perSector).tail;
      && r.head <= tail < r.head + r.perSector && slots[tail].Valid?
      && CountValid(slots, r.head, r.head + r.perSector) == CountValid(slots, tail, r.head + r.perSector)
      && (NoHole(r, slots) <==> Holes(slots, tail, r.head + r.perSector) == 0)
  {
    hide *;
    HoldsBasics(r, h);
    DamagedSize(r, slots);
    TailIsOldestSurvivor(r, h, slots, i);
    var tail := Boot(slots, r.perSector).tail;
    forall j | r.head <= j < tail ensures !slots[j].Valid? {
      if slots[j].Valid? {
        TailIsOldestSurvivor(r, h, slots, j);
      }
    }
    NothingBeforeTail(r, slots, tail);
  }

  lemma NothingBeforeTail(r: Ring, slots: seq<Slot>, tail: nat)
    requires r.Geometry() && |slots| == |r.slots| && r.head <= tail < r.head + r.perSector <= |slots|
    requires slots[tail].Valid? && forall j :: r.head <= j < tail ==> !slots[j].Valid?
    ensures CountValid(slots, r.head, r.head + r.perSector) == CountValid(slots, tail, r.head + r.perSector)
    ensures NoHole(r, slots) <==> Holes(slots, tail, r.head + r.perSector) == 0
  {
    hide CountValid, Holes;
    CountSplit(slots, r.head, tail, r.head + r.perSector);
    CountNone(slots, r.head, tail);
    NoHoles(slots, tail, r.head + r.perSector);
  }

  /** If the whole sector has gone, the oldest record is the next sector's first. */
  lemma TailWithoutSurvivors(r: Ring, h: seq<Record>, slots: seq<Slot>)
    requires Holds(r, h) && r.used == |r.slots| && r.AtSectorStart() && 2 * r.perSector <= |r.slots|
    requires DamagedHead(r, slots) && r.head + r.perSector <= |r.slots|
    requires forall i :: r.head <= i < r.head + r.perSector ==> !slots[i].Valid?
    ensures slots[Boot(slots, r.perSector).tail].Valid?
    ensures slots[Boot(slots, r.perSector).tail].seqno == |h| - |r.slots| + r.perSector + 1
  {
    HoldsIsPlaced(r, h);
    hide Holds, SlotOf, ScanTo, CountValid;
    HoldsBasics(r, h);
    SlotOutside(r, h, slots, |h| - |r.slots| + r.perSector + 1);
    ScanFinds(slots, |slots|);
    SurvivorNumber(r, h, slots, Boot(slots, r.perSector).tail);
  }

  lemma SlotOutside(r: Ring, h: seq<Record>, slots: seq<Slot>, q: nat)
    requires Holds(r, h) && r.used == |r.slots| && r.AtSectorStart() && DamagedHead(r, slots)
    requires |h| - |r.slots| + r.perSector < q <= |h|
    ensures slots[SlotOf(q, |slots|)] == Valid(q, h[q - 1])
  {
    KeptSlot(r, h, q);
    var i := SlotOf(q, |slots|);
    hide Holds, SlotOf;
    HeadSectorFits(r);
    if r.head <= i < r.head + r.perSector {
      HeadSectorRecord(r, h, i - r.head);
    }
  }

  /** Outside the head's sector every record is found. */
  lemma {:induction false} RestIsFound(r: Ring, h: seq<Record>, slots: seq<Slot>, low: nat)
    requires Holds(r, h) && r.used == |r.slots| && r.AtSectorStart() && r.head + r.perSector <= |r.slots|
        && DamagedHead(r, slots)
    requires |h| - |r.slots| + r.perSector < low <= |h| + 1
    ensures |Search(slots, low, |h| + 1)| == |h| + 1 - low
    decreases |h| + 1 - low
  {
    hide *;
    HoldsBasics(r, h);
    if low <= |h| {
      RestIsFound(r, h, slots, low + 1);
      RestIsPresent(r, h, slots, low);
      SearchOne(slots, low, |h| + 1);
    } else {
      SearchEmpty(slots, low, |h| + 1);
    }
  }

  lemma RestIsPresent(r: Ring, h: seq<Record>, slots: seq<Slot>, q: nat)
    requires Holds(r, h) && r.used == |r.slots| && r.AtSectorStart() && DamagedHead(r, slots)
    requires |h| - |r.slots| + r.perSector < q <= |h|
    ensures FindSeq(slots, q, 0) < |slots|
  {
    DamagedIsWindowed(r, h, slots);
    SlotOutside(r, h, slots, q);
    FindWindowed(slots, |h| - |r.slots| + 1, q);
  }

  /** How many of the newest records a read misses. */
  function Missed(r: Ring, slots: seq<Slot>): (n: nat)
    requires |slots| > 0
  {
    var tail := Boot(slots, r.perSector).tail;
    if r.head <= tail < r.head + r.perSector <= |slots| && slots[tail].Valid?
        then Holes(slots, tail, r.head + r.perSector)
    else 0
  }

  /** The numbers that the cursors span after the restart end short of the newest
      one by the holes that the cut left. */
  lemma SpanEndsShort(r: Ring, h: seq<Record>, slots: seq<Slot>)
    requires Holds(r, h) && r.used == |r.slots| && r.AtSectorStart() && 2 * r.perSector <= |r.slots|
        && DamagedHead(r, slots)
    requires r.head + r.perSector <= |r.slots|
    ensures var booted := Boot(slots, r.perSector);
      && booted.slots[booted.tail].Valid?
      && booted.slots[booted.tail].seqno + booted.used + Missed(r, slots) == |h| + 1
      && booted.slots[booted.tail].seqno + booted.used > |h| - |r.slots| + r.perSector
      && (Missed(r, slots) == 0 <==> NoHole(r, slots))
  {
    hide *;
    HoldsBasics(r, h);
    DamagedSize(r, slots);
    BootDamaged(r, h, slots);
    DamagedCounted(r, h, slots);
    if i: nat :| r.head <= i < r.head + r.perSector && slots[i].Valid? {
      SurvivorsFromTail(r, h, slots, i);
      SurvivorNumber(r, h, slots, Boot(slots, r.perSector).tail);
      MissedHoles(r, slots);
      HolesAre(slots, Boot(slots, r.perSector).tail, r.head + r.perSector);
    } else {
      TailWithoutSurvivors(r, h, slots);
      CountNone(slots, r.head, r.head + r.perSector);
      TailOutside(r, h, slots);
      NothingIsNoHole(r, slots);
    }
  }

  lemma HolesAre(slots: seq<Slot>, low: nat, high: nat)
    requires low <= high <= |slots|
    ensures Holes(slots, low, high) == high - low - CountValid(slots, low, high)
  {
  }

  lemma MissedHoles(r: Ring, slots: seq<Slot>)
    requires r.Geometry() && |slots| == |r.slots| && r.head + r.perSector <= |slots|
    ensures var tail := Boot(slots, r.perSector).tail;
      Missed(r, slots) == if r.head <= tail < r.head + r.perSector && slots[tail].Valid?
          then Holes(slots, tail, r.head + r.perSector) else 0
  {
  }

  lemma TailOutside(r: Ring, h: seq<Record>, slots: seq<Slot>)
    requires r.Geometry() && |slots| == |r.slots| && r.head + r.perSector <= |slots|
    requires forall i :: r.head <= i < r.head + r.perSector ==> !slots[i].Valid?
    ensures Missed(r, slots) == 0
  {
  }

  lemma NothingIsNoHole(r: Ring, slots: seq<Slot>)
    requires r.Geometry() && |slots| == |r.slots| && r.head + r.perSector <= |slots|
    requires forall i :: r.head <= i < r.head + r.perSector ==> !slots[i].Valid?
    ensures NoHole(r, slots)
  {
  }

  /** After a power cut inside an eviction and a restart, reading the log returns
      all the records on the medium but the newest ones, as many as the cut has
      left holes between the oldest survivor and the end of its sector; so it is
      complete if and only if there is no such hole. */
  lemma ReadIsCompleteIffNoHole(r: Ring, h: seq<Record>, slots: seq<Slot>)
    requires Holds(r, h) && r.used == |r.slots| && r.AtSectorStart() && 2 * r.perSector <= |r.slots|
    requires DamagedHead(r, slots)
    ensures Boot(slots, r.perSector).Geometry() && Boot(slots, r.perSector).nextSeq == |h| + 1
    ensures var all := Search(slots, 0, Boot(slots, r.perSector).nextSeq);
      && Missed(r, slots) <= |all|
      && Read(Boot(slots, r.perSector), 0, |slots|) == all[..|all| - Missed(r, slots)]
      && (Read(Boot(slots, r.perSector), 0, |slots|) == all <==> NoHole(r, slots))
  {
    hide *;
    HoldsBasics(r, h);
    HeadSectorFits(r);
    DamagedSize(r, slots);
    BootDamaged(r, h, slots);
    SpanEndsShort(r, h, slots);
    DamagedIsWindowed(r, h, slots);
    DamagedCounted(r, h, slots);
    RestartedRead(slots, r.perSector, |h| - |r.slots| + 1, 0, |slots|);
    var booted := Boot(slots, r.perSector);
    RestIsFound(r, h, slots, booted.slots[booted.tail].seqno + booted.used);
  }

  lemma DamagedSize(r: Ring, slots: seq<Slot>)
    requires r.Geometry() && DamagedHead(r, slots)
    ensures |slots| == |r.slots| > 0 && |slots| % r.perSector == 0 && r.perSector > 0
  {
  }

  lemma DamagedCounted(r: Ring, h: seq<Record>, slots: seq<Slot>)
    requires Holds(r, h) && r.used == |r.slots| && r.AtSectorStart() && 2 * r.perSector <= |r.slots|
        && DamagedHead(r, slots)
    requires r.head + r.perSector <= |r.slots|
    ensures CountValid(slots, 0, |slots|) == |r.slots| - r.perSector + CountValid(slots, r.head, r.head + r.perSector)
  {
    DamagedCount(r, h, slots);
    MakeRoomHolds(r, h);
  }

  // ---- Small rings ----

  /** Four slots in two sectors, full of the records 1 to 4. */
  function FullRing(record: Record): (r: Ring)
    ensures r.Geometry()
  {
    Ring([Valid(1, record), Valid(2, record), Valid(3, record), Valid(4, record)], 2, 0, 0, 4, 5)
  }

  /** A failed erase that cleared its sector, retried without a restart, leaves a
      log of four slots that claims to hold five records. */
  lemma RetryClaimsTooMany(record: Record)
    ensures var failed := Append(FullRing(record), record, EraseFailed(i => Cleared), WriteDone(true)).0;
      AppendOk(failed, record, true).used == 5
  {
    var r := FullRing(record);
    var failed := Append(r, record, EraseFailed(i => Cleared), WriteDone(true)).0;
    assert failed.slots[0] == Erased && failed.slots[1] == Erased;
    assert CountValid(failed.slots, 0, 2) == 0 by {
      CountNone(failed.slots, 0, 2);
    }
  }

  /** One sector of two slots, holding the records 1 and 2. */
  function SingleSector(record: Record): (r: Ring)
    ensures r.Geometry() && r.AtSectorStart()
  {
    Ring([Valid(1, record), Valid(2, record)], 2, 0, 0, 2, 3)
  }

  /** With a single sector a power cut inside the eviction can lose everything, and
      numbering starts again at 1. */
  lemma SingleSectorForgets(record: Record)
    ensures Boot(Append(SingleSector(record), record, EraseFailed(i => Cleared), WriteFailed(Untouched)).0.slots,
                 2).nextSeq == 1
  {
    var slots := Append(SingleSector(record), record, EraseFailed(i => Cleared), WriteFailed(Untouched)).0.slots;
    assert slots[0] == Erased && slots[1] == Erased;
    CountNone(slots, 0, 2);
    ScanFinds(slots, 2);
  }

  // ---- Erasing the log ----

  /** A log erase during which the device erases every sector leaves the empty
      history, ready for record 1, and says that it has succeeded. */
  lemma EraseLogForgets(r: Ring, h: seq<Record>, outcome: nat -> EraseOutcome)
    requires Holds(r, h) && ErasesAll(outcome, r.perSector, 0, |r.slots|)
    ensures Holds(EraseLog(r, outcome), []) && Writable(EraseLog(r, outcome))
    ensures EraseSectors(r.slots, r.perSector, 0, outcome).1
  {
    var erased := EraseLog(r, outcome);
    EraseLogAnswers(r, outcome);
    BlankHolds(erased.slots, r.perSector);
  }
}
