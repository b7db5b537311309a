/** The placement law of the flash logger: where a record can be found, over
    every run of appends, device failures, power cuts and restarts. */
module FlashPlacement {
  import opened FlashRing
  import Modular

  /** The slot that record number `seqno` belongs in, and its trip round the ring. */
  function SlotOf(seqno: int, total: nat): (i: nat)
    requires seqno >= 1 && total > 0
    ensures i < total
  {
    (seqno - 1) % total
  }

  lemma SlotShift(seqno: nat, i: nat, total: nat)
    requires seqno >= 1 && total > 0
    ensures (SlotOf(seqno, total) + i) % total == SlotOf(seqno + i, total)
  {
    Modular.AddMod(seqno - 1, i, total);
  }

  function Lap(seqno: int, total: nat): nat
    requires seqno >= 1 && total > 0
  {
    (seqno - 1) / total
  }

  function Sector(i: nat, perSector: nat): nat
    requires perSector > 0
  {
    i / perSector
  }

  ghost predicate Placed(slots: seq<Slot>)
    requires |slots| > 0
  {
    forall i :: 0 <= i < |slots| && slots[i].Valid? ==>
      1 <= slots[i].seqno < UINT32_MAX && SlotOf(slots[i].seqno, |slots|) == i
  }

  /** Records that share a sector were written on the same trip round the ring. */
  ghost predicate OneLapPerSector(slots: seq<Slot>, perSector: nat)
    requires |slots| > 0 && perSector > 0 && Placed(slots)
  {
    forall i, j :: 0 <= i < |slots| && 0 <= j < |slots| && slots[i].Valid? && slots[j].Valid?
                   && Sector(i, perSector) == Sector(j, perSector) ==>
      Lap(slots[i].seqno, |slots|) == Lap(slots[j].seqno, |slots|)
  }

  ghost predicate Lawful(r: Ring) {
    && r.Geometry()
    && 1 <= r.nextSeq < UINT32_MAX
    && r.head == SlotOf(r.nextSeq, |r.slots|)
    && Placed(r.slots)
    && OneLapPerSector(r.slots, r.perSector)
    && (forall i :: 0 <= i < |r.slots| && r.slots[i].Valid? ==> r.slots[i].seqno <= r.nextSeq)
    && (!r.AtSectorStart() ==> HeadSectorCurrent(r))
  }

  /** Mid-sector, everything in the head's sector is from the current lap. */
  ghost predicate HeadSectorCurrent(r: Ring)
    requires r.Geometry() && r.nextSeq >= 1 && Placed(r.slots)
  {
    forall i :: 0 <= i < |r.slots| && r.slots[i].Valid? && Sector(i, r.perSector) == Sector(r.head, r.perSector) ==>
      Lap(r.slots[i].seqno, |r.slots|) == Lap(r.nextSeq, |r.slots|)
  }

  /** No slot of `after` holds a record that `before` did not. */
  ghost predicate Shrinks(before: seq<Slot>, after: seq<Slot>) {
    && |before| == |after|
    && forall i :: 0 <= i < |after| && after[i].Valid? ==> after[i] == before[i]
  }

  lemma ShrunkStaysLawful(r: Ring, r': Ring)
    requires Lawful(r) && r'.Geometry() && Shrinks(r.slots, r'.slots)
    requires r'.perSector == r.perSector && r'.head == r.head && r'.nextSeq == r.nextSeq
    ensures Lawful(r')
  {
    forall i, j | 0 <= i < |r'.slots| && 0 <= j < |r'.slots| && r'.slots[i].Valid? && r'.slots[j].Valid?
                  && Sector(i, r.perSector) == Sector(j, r.perSector)
      ensures Lap(r'.slots[i].seqno, |r.slots|) == Lap(r'.slots[j].seqno, |r.slots|)
    {
      assert r.slots[i].Valid? && r.slots[j].Valid?;
    }
  }

  lemma {:induction false} EraseSectorsShrinks(slots: seq<Slot>, perSector: nat, at: nat, outcome: nat -> EraseOutcome)
    requires perSector > 0
    ensures Shrinks(slots, EraseSectors(slots, perSector, at, outcome).0)
    ensures EraseSectors(slots, perSector, at, outcome).1 ==>
      forall i :: at <= i < |slots| ==> EraseSectors(slots, perSector, at, outcome).0[i] == Erased
    ensures forall i :: 0 <= i < at && i < |slots| ==> EraseSectors(slots, perSector, at, outcome).0[i] == slots[i]
    decreases |slots| - at
  {
    if at < |slots| {
      var next := EraseSector(slots, at, perSector, outcome(at));
      if outcome(at).EraseDone? {
        EraseSectorsShrinks(next, perSector, at + perSector, outcome);
      }
    }
  }

  // ---- What the scan finds ----

  ghost predicate ScanMeaning(slots: seq<Slot>, n: nat, s: Scan)
    requires n <= |slots| <= UINT32_MAX
  {
    && s.used == CountValid(slots, 0, n)
    && (s.used == 0 ==> s == Scan(0, 0, 0, UINT32_MAX, 0))
    && (forall i :: 0 <= i < n && slots[i].Valid? ==>
          s.used > 0 && s.oldestSeq <= slots[i].seqno <= s.newestSeq)
    && (s.used > 0 ==>
          && s.newestSlot < n && slots[s.newestSlot].Valid? && slots[s.newestSlot].seqno == s.newestSeq
          && s.tail < n && slots[s.tail].Valid? && slots[s.tail].seqno == s.oldestSeq)
  }

  lemma {:induction false} ScanFinds(slots: seq<Slot>, n: nat)
    requires 0 < |slots| <= UINT32_MAX && n <= |slots| && Placed(slots)
    ensures ScanMeaning(slots, n, ScanTo(slots, n))
  {
    if n > 0 {
      ScanFinds(slots, n - 1);
    }
  }

  /** One slot further on: the same sector and lap, or the start of a sector. */
  lemma NextSlot(seqno: nat, total: nat, perSector: nat)
    requires seqno >= 1 && 0 < perSector <= total && total % perSector == 0
    ensures (SlotOf(seqno, total) + 1) % total == SlotOf(seqno + 1, total)
    ensures SlotOf(seqno + 1, total) % perSector != 0 ==>
      && SlotOf(seqno + 1, total) == SlotOf(seqno, total) + 1
      && Sector(SlotOf(seqno + 1, total), perSector) == Sector(SlotOf(seqno, total), perSector)
      && Lap(seqno + 1, total) == Lap(seqno, total)
  {
    var i := SlotOf(seqno, total);
    Modular.Successor(seqno - 1, total);
    Modular.Successor(i, total);
    Modular.Unique(i, total, 0, i);
    Modular.Successor(i, perSector);
  }

  lemma BootIsLawful(slots: seq<Slot>, perSector: nat)
    requires 0 < perSector <= |slots| <= UINT32_MAX && |slots| % perSector == 0
    requires Placed(slots) && OneLapPerSector(slots, perSector)
    requires forall i :: 0 <= i < |slots| && slots[i].Valid? ==> slots[i].seqno < UINT32_MAX - 1
    ensures Lawful(Boot(slots, perSector))
    ensures forall i :: 0 <= i < |slots| && slots[i].Valid? ==> slots[i].seqno < Boot(slots, perSector).nextSeq
  {
    ScanFinds(slots, |slots|);
    var scan := ScanTo(slots, |slots|);
    if scan.used > 0 {
      NextSlot(scan.newestSeq, |slots|, perSector);
    } else {
      Modular.Unique(0, |slots|, 0, 0);
      Modular.Unique(0, perSector, 0, 0);
    }
  }

  // ---- Appending ----

  /** Eviction keeps the law and, when it succeeds at a sector start, empties
      exactly the head's sector. */
  lemma MakeRoomLawful(r: Ring, erase: EraseOutcome)
    requires Lawful(r)
    ensures Lawful(MakeRoom(r, erase).0)
    ensures Shrinks(r.slots, MakeRoom(r, erase).0.slots)
    ensures forall i :: 0 <= i < |r.slots| && (!r.AtSectorStart()
                                               || Sector(i, r.perSector) != Sector(r.head, r.perSector)) ==>
      MakeRoom(r, erase).0.slots[i] == r.slots[i]
    ensures MakeRoom(r, erase).1 && r.AtSectorStart() ==>
      forall i :: 0 <= i < |r.slots| && Sector(i, r.perSector) == Sector(r.head, r.perSector) ==>
        MakeRoom(r, erase).0.slots[i] == Erased
  {
    var room := MakeRoom(r, erase).0;
    if r.AtSectorStart() {
      HeadSectorFits(r);
      forall i | 0 <= i < |r.slots|
        ensures Sector(i, r.perSector) == Sector(r.head, r.perSector) <==> r.head <= i < r.head + r.perSector
      {
        Modular.Block(r.head, i, r.perSector);
      }
    }
    ShrunkStaysLawful(r, room);
  }

  /** A record is programmed over another one if and only if, mid-sector, an
      earlier write of this very number was reported failed but left its record
      behind; never over an acknowledged record, which has a smaller number. */
  lemma OverwritesSameNumberOnly(r: Ring, erase: EraseOutcome)
    requires Lawful(r) && MakeRoom(r, erase).1
    ensures var target := MakeRoom(r, erase).0.slots[r.head];
      && (target.Valid? <==> !r.AtSectorStart() && r.slots[r.head].Valid?)
      && (target.Valid? ==> target == r.slots[r.head] && target.seqno == r.nextSeq)
  {
    MakeRoomLawful(r, erase);
    var slot := MakeRoom(r, erase).0.slots[r.head];
    if slot.Valid? {
      Modular.Decompose(slot.seqno - 1, |r.slots|);
      Modular.Decompose(r.nextSeq - 1, |r.slots|);
    }
  }

  /** The write keeps the law whatever it leaves in the slot. */
  lemma WriteLawful(r: Ring, slot: Slot)
    requires Lawful(r)
    requires r.AtSectorStart() ==>
      forall i :: 0 <= i < |r.slots| && Sector(i, r.perSector) == Sector(r.head, r.perSector) ==> r.slots[i] == Erased
    requires slot.Valid? ==> slot == r.slots[r.head] || slot.seqno == r.nextSeq
    ensures Lawful(r.(slots := r.slots[r.head := slot]))
  {
    var r' := r.(slots := r.slots[r.head := slot]);
    if slot.Valid? {
      assert forall i :: 0 <= i < |r.slots| && r'.slots[i].Valid?
                         && Sector(i, r.perSector) == Sector(r.head, r.perSector) ==>
        Lap(r'.slots[i].seqno, |r.slots|) == Lap(r.nextSeq, |r.slots|);
    }
  }

  /** Moving the head on keeps the law. */
  lemma AdvanceLawful(r: Ring, r': Ring)
    requires Lawful(r) && r.nextSeq + 1 < UINT32_MAX && r'.Geometry()
    requires r'.slots == r.slots && r'.perSector == r.perSector
    requires r'.nextSeq == r.nextSeq + 1 && r'.head == (r.head + 1) % |r.slots|
    requires r.AtSectorStart() ==>
      forall i :: 0 <= i < |r.slots| && r.slots[i].Valid? && Sector(i, r.perSector) == Sector(r.head, r.perSector) ==>
        r.slots[i].seqno == r.nextSeq
    ensures Lawful(r')
  {
    NextSlot(r.nextSeq, |r.slots|, r.perSector);
  }

  lemma AppendLawful(r: Ring, record: Record, erase: EraseOutcome, write: WriteOutcome)
    requires Lawful(r) && r.nextSeq + 1 < UINT32_MAX
    ensures Lawful(Append(r, record, erase, write).0)
    ensures r.nextSeq <= Append(r, record, erase, write).0.nextSeq <= r.nextSeq + 1
  {
    MakeRoomLawful(r, erase);
    var (room, ok) := MakeRoom(r, erase);
    if ok {
      var slot := WriteSlot(room.slots[room.head], Valid(room.nextSeq, record), write);
      WriteLawful(room, slot);
      var written := room.(slots := room.slots[room.head := slot]);
      if write.WriteDone? {
        AdvanceLawful(written, Append(r, record, erase, write).0);
      }
    }
  }

  /** Whatever happens during an append, records outside the head's sector stay
      where they are, and mid-sector so does every acknowledged record. */
  lemma AppendSparesTheRest(r: Ring, record: Record, erase: EraseOutcome, write: WriteOutcome, i: nat)
    requires Lawful(r) && i < |r.slots| && r.slots[i].Valid? && r.slots[i].seqno < r.nextSeq
    requires r.AtSectorStart() ==> Sector(i, r.perSector) != Sector(r.head, r.perSector)
    ensures Append(r, record, erase, write).0.slots[i] == r.slots[i]
  {
    MakeRoomLawful(r, erase);
    if MakeRoom(r, erase).1 {
      OverwritesSameNumberOnly(r, erase);
    }
  }

  lemma EraseLogLawful(r: Ring, outcome: nat -> EraseOutcome)
    requires Lawful(r)
    ensures Lawful(EraseLog(r, outcome)) && EraseLog(r, outcome).nextSeq <= r.nextSeq
  {
    EraseSectorsShrinks(r.slots, r.perSector, 0, outcome);
    if EraseSectors(r.slots, r.perSector, 0, outcome).1 {
      Modular.Unique(0, |r.slots|, 0, 0);
      Modular.Unique(0, r.perSector, 0, 0);
    } else {
      ShrunkStaysLawful(r, EraseLog(r, outcome));
    }
  }

  // ---- Runs ----

  /** What can happen to a log. A power cut is an operation whose device outcome
      is a failure, followed by a restart. */
  datatype Op =
    | AppendOp(record: Record, erase: EraseOutcome, write: WriteOutcome)
    | EraseOp(outcome: nat -> EraseOutcome)
    | Restart

  function Step(r: Ring, op: Op): (r': Ring)
    requires r.Geometry()
    ensures r'.Geometry() && |r'.slots| == |r.slots| && r'.perSector == r.perSector
  {
    match op
    case AppendOp(record, erase, write) => Append(r, record, erase, write).0
    case EraseOp(outcome) => EraseLog(r, outcome)
    case Restart => Boot(r.slots, r.perSector)
  }

  function Run(r: Ring, ops: seq<Op>): (r': Ring)
    requires r.Geometry()
    ensures r'.Geometry() && |r'.slots| == |r.slots| && r'.perSector == r.perSector
  {
    if ops == [] then r else Step(Run(r, ops[..|ops| - 1]), ops[|ops| - 1])
  }

  lemma StepLawful(r: Ring, op: Op)
    requires Lawful(r) && r.nextSeq + 1 < UINT32_MAX
    ensures Lawful(Step(r, op)) && Step(r, op).nextSeq <= r.nextSeq + 1
  {
    match op
    case AppendOp(record, erase, write) => AppendLawful(r, record, erase, write);
    case EraseOp(outcome) => EraseLogLawful(r, outcome);
    case Restart =>
      BootIsLawful(r.slots, r.perSector);
      ScanFinds(r.slots, |r.slots|);
  }

  /** The placement law: on a partition that starts with no records, every run
      short enough not to exhaust the 32-bit sequence numbers is lawful. */
  lemma {:induction false} PlacementLaw(slots: seq<Slot>, perSector: nat, ops: seq<Op>)
    requires 0 < perSector <= |slots| <= UINT32_MAX && |slots| % perSector == 0
    requires forall i :: 0 <= i < |slots| ==> !slots[i].Valid?
    requires |ops| + 2 < UINT32_MAX
    ensures Lawful(Run(Boot(slots, perSector), ops))
    ensures Run(Boot(slots, perSector), ops).nextSeq <= |ops| + 1
  {
    if ops == [] {
      BootIsLawful(slots, perSector);
      ScanFinds(slots, |slots|);
    } else {
      PlacementLaw(slots, perSector, ops[..|ops| - 1]);
      StepLawful(Run(Boot(slots, perSector), ops[..|ops| - 1]), ops[|ops| - 1]);
    }
  }

  /** The operation neither erases the log nor lets the head enter slot i's sector. */
  ghost predicate SparesSlot(r: Ring, op: Op, i: nat)
    requires r.Geometry()
  {
    match op
    case AppendOp(_, _, _) => r.AtSectorStart() ==> Sector(i, r.perSector) != Sector(r.head, r.perSector)
    case EraseOp(_) => false
    case Restart => true
  }

  /** Durability: through every device failure, power cut and restart an
      acknowledged record stays in its slot, and acknowledged, until an append
      enters its sector or the log is erased. */
  lemma {:induction false} AcknowledgedIsDurable(r: Ring, ops: seq<Op>, i: nat)
    requires Lawful(r) && r.nextSeq + |ops| + 1 < UINT32_MAX
    requires i < |r.slots| && r.slots[i].Valid? && r.slots[i].seqno < r.nextSeq
    requires forall k :: 0 <= k < |ops| ==> SparesSlot(Run(r, ops[..k]), ops[k], i)
    ensures var r' := Run(r, ops);
      Lawful(r') && r'.nextSeq <= r.nextSeq + |ops| && r'.slots[i] == r.slots[i] && r.slots[i].seqno < r'.nextSeq
  {
    if ops != [] {
      var n := |ops| - 1;
      assert forall k :: 0 <= k < n ==> ops[..n][..k] == ops[..k];
      AcknowledgedIsDurable(r, ops[..n], i);
      var before := Run(r, ops[..n]);
      assert SparesSlot(before, ops[n], i);
      hide Lawful, SparesSlot;
      StepSpares(before, ops[n], i);
    }
  }

  lemma StepSpares(r: Ring, op: Op, i: nat)
    requires Lawful(r) && r.nextSeq + 1 < UINT32_MAX && r.Geometry() && SparesSlot(r, op, i)
    requires i < |r.slots| && r.slots[i].Valid? && r.slots[i].seqno < r.nextSeq
    ensures var r' := Step(r, op);
      Lawful(r') && r'.nextSeq <= r.nextSeq + 1 && r'.slots[i] == r.slots[i] && r.slots[i].seqno < r'.nextSeq
  {
    StepLawful(r, op);
    match op
    case AppendOp(record, erase, write) =>
      AppendSparesTheRest(r, record, erase, write, i);
      AppendLawful(r, record, erase, write);
    case Restart => BootIsLawful(r.slots, r.perSector);
  }

  // ---- Answers ----

  /** The erase is not needed, or the device carries it out. */
  predicate RoomIsMade(r: Ring, erase: EraseOutcome)
    requires r.perSector > 0
  {
    r.AtSectorStart() ==> erase.EraseDone?
  }

  /** What an append tells its caller, for every device outcome. It acknowledges
      the record if and only if room was made and the write was done, and then the
      number is the next one, the cursors have moved past it, and the slot holds the
      record, unless the device has programmed illegibly over what was there. It
      reports a failed write if and only if the write failed after room was made,
      and a failed erase if and only if that was needed and failed; neither moves
      the head or uses up a number. */
  lemma AppendAnswers(r: Ring, record: Record, erase: EraseOutcome, write: WriteOutcome)
    requires Lawful(r) && r.nextSeq + 1 < UINT32_MAX
    ensures var answer := Append(r, record, erase, write).1;
      && (answer.Appended? <==> RoomIsMade(r, erase) && write.WriteDone?)
      && (answer == WriteError <==> RoomIsMade(r, erase) && write.WriteFailed?)
      && (answer == EraseError <==> !RoomIsMade(r, erase))
    ensures var (r', answer) := Append(r, record, erase, write);
      if answer.Appended? then
        && answer.seqno == r.nextSeq && r'.nextSeq == r.nextSeq + 1 && r'.head == (r.head + 1) % |r.slots|
        && r'.slots[r.head] ==
             (if r.AtSectorStart() || r.slots[r.head] == Erased || write.legible then Valid(r.nextSeq, record)
              else Garbage)
      else r'.nextSeq == r.nextSeq && r'.head == r.head
    ensures var (r', answer) := Append(r, record, erase, write);
      var room := MakeRoom(r, erase).0;
      && (answer == EraseError ==> r' == r.(slots := r'.slots))
      && (answer == WriteError ==>
            && r' == room.(slots := r'.slots)
            && r'.slots[r.head] == match write.residue { case Untouched => room.slots[r.head] case Torn => Garbage
                                                          case Complete => Valid(r.nextSeq, record) })
      && forall i :: 0 <= i < |r.slots| && i != r.head ==> r'.slots[i] == room.slots[i]
  {
    MakeRoomLawful(r, erase);
  }

  /** Durability, from the answer on: a record that an append has acknowledged, and
      that was not programmed illegibly, is in its slot under the number given
      through every device failure, power cut and restart, until an append enters
      its sector or the log is erased. */
  lemma AcknowledgedSurvives(r: Ring, record: Record, erase: EraseOutcome, write: WriteOutcome, ops: seq<Op>)
    requires Lawful(r) && r.nextSeq + |ops| + 2 < UINT32_MAX
    requires Append(r, record, erase, write).1.Appended?
    requires r.AtSectorStart() || r.slots[r.head] == Erased || write.legible
    requires var r' := Append(r, record, erase, write).0;
      forall k :: 0 <= k < |ops| ==> SparesSlot(Run(r', ops[..k]), ops[k], r.head)
    ensures var (r', answer) := Append(r, record, erase, write);
      Run(r', ops).slots[r.head] == Valid(answer.seqno, record)
  {
    AppendAnswers(r, record, erase, write);
    AppendLawful(r, record, erase, write);
    hide Append, Lawful;
    AcknowledgedIsDurable(Append(r, record, erase, write).0, ops, r.head);
  }

  /** The device erases every sector of the ring from slot `at` on. */
  ghost predicate ErasesAll(outcome: nat -> EraseOutcome, perSector: nat, at: nat, total: nat)
    requires perSector > 0
  {
    forall start: nat :: at <= start < total && start % perSector == 0 ==> outcome(start).EraseDone?
  }

  /** No sector starts inside another one. */
  lemma NextSectorStart(at: nat, start: nat, perSector: nat)
    requires perSector > 0 && at % perSector == 0 && start % perSector == 0 && at < start
    ensures at + perSector <= start && (at + perSector) % perSector == 0
  {
    Modular.NextMultiple(at, start, perSector);
  }

  lemma ErasesAllStep(outcome: nat -> EraseOutcome, perSector: nat, at: nat, total: nat)
    requires perSector > 0 && at % perSector == 0 && at < total
    ensures (at + perSector) % perSector == 0
    ensures ErasesAll(outcome, perSector, at, total)
       <==> outcome(at).EraseDone? && ErasesAll(outcome, perSector, at + perSector, total)
  {
    Modular.AddMultiple(at, perSector, 1);
    forall start: nat | at < start && start % perSector == 0 ensures at + perSector <= start {
      NextSectorStart(at, start, perSector);
    }
  }

  /** Erasing sector by sector succeeds if and only if the device erases each. */
  lemma {:induction false} EraseSucceeds(slots: seq<Slot>, perSector: nat, at: nat, outcome: nat -> EraseOutcome)
    requires perSector > 0 && at % perSector == 0
    ensures EraseSectors(slots, perSector, at, outcome).1 <==> ErasesAll(outcome, perSector, at, |slots|)
    decreases |slots| - at
  {
    if at < |slots| {
      ErasesAllStep(outcome, perSector, at, |slots|);
      EraseSucceeds(EraseSector(slots, at, perSector, outcome(at)), perSector, at + perSector, outcome);
    }
  }

  /** A log erase succeeds if and only if the device erases every sector; then
      nothing is left and numbering restarts at 1, and otherwise the cursors stay
      as they were. */
  lemma EraseLogAnswers(r: Ring, outcome: nat -> EraseOutcome)
    requires r.Geometry()
    ensures EraseSectors(r.slots, r.perSector, 0, outcome).1 <==> ErasesAll(outcome, r.perSector, 0, |r.slots|)
    ensures var r' := EraseLog(r, outcome);
      if ErasesAll(outcome, r.perSector, 0, |r.slots|) then
        && r' == Ring(r'.slots, r.perSector, 0, 0, 0, 1)
        && forall i :: 0 <= i < |r.slots| ==> r'.slots[i] == Erased
      else r' == r.(slots := r'.slots)
  {
    Modular.Unique(0, r.perSector, 0, 0);
    EraseSucceeds(r.slots, r.perSector, 0, outcome);
    EraseSectorsShrinks(r.slots, r.perSector, 0, outcome);
  }

  /** What it leaves: the sectors before the first failure erased, that one as the
      device left it, the ones behind it untouched. */
  lemma {:induction false} EraseSectorsLeaves(slots: seq<Slot>, perSector: nat, at: nat, outcome: nat -> EraseOutcome,
                                              failed: nat)
    requires perSector > 0 && at % perSector == 0 && failed % perSector == 0 && at <= failed < |slots|
    requires ErasesAll(outcome, perSector, at, failed) && outcome(failed).EraseFailed?
    ensures var left := EraseSectors(slots, perSector, at, outcome).0;
      forall i :: at <= i < |slots| ==>
        left[i] == if i < failed then Erased
                   else if i < failed + perSector then Damage(slots[i], outcome(failed).effect(i))
                   else slots[i]
    decreases |slots| - at
  {
    var next := EraseSector(slots, at, perSector, outcome(at));
    if at < failed {
      ErasesAllStep(outcome, perSector, at, failed);
      NextSectorStart(at, failed, perSector);
      EraseSectorsLeaves(next, perSector, at + perSector, outcome, failed);
      EraseSectorsShrinks(next, perSector, at + perSector, outcome);
      var left := EraseSectors(slots, perSector, at, outcome).0;
      assert left == EraseSectors(next, perSector, at + perSector, outcome).0;
      hide EraseSectors;
      forall i | at <= i < |slots|
        ensures left[i] == if i < failed then Erased
                           else if i < failed + perSector then Damage(slots[i], outcome(failed).effect(i))
                           else slots[i]
      {
        if i < at + perSector {
          assert left[i] == next[i] == Erased;
        } else {
          assert next[i] == slots[i];
        }
      }
    }
  }
}
