/** Reading the flash log: the computed seek returns what a search of the whole
    partition would. */
module FlashQuery {
  import opened FlashRing
  import opened FlashPlacement
  import opened FlashFifo
  import opened FlashRecovery
  import Modular

  // ---- The reference: search the partition, ignoring every cursor ----

  /** The first slot from i on that holds record number q, or the partition size. */
  function FindSeq(slots: seq<Slot>, q: nat, i: nat): (at: nat)
    requires i <= |slots|
    ensures i <= at <= |slots|
    ensures at < |slots| ==> slots[at].Valid? && slots[at].seqno == q
    ensures forall j :: i <= j < at ==> !(slots[j].Valid? && slots[j].seqno == q)
    decreases |slots| - i
  {
    if i == |slots| || (slots[i].Valid? && slots[i].seqno == q) then i
    else FindSeq(slots, q, i + 1)
  }

  /** The records numbered low..high - 1 that are anywhere on the partition, in
      order of their numbers. */
  function Search(slots: seq<Slot>, low: nat, high: nat): seq<Record>
    decreases high - low
  {
    if low >= high then []
    else
      var at := FindSeq(slots, low, 0);
      (if at < |slots| then [slots[at].record] else []) + Search(slots, low + 1, high)
  }

  function Take<T>(s: seq<T>, n: nat): seq<T> {
    if n <= |s| then s[..n] else s
  }

  // ---- What a read returns ----

  lemma GaplessBasics(r: Ring, h: seq<Record>)
    requires Gapless(r, h)
    ensures r.Geometry() && r.used <= |h| && r.used <= |r.slots| && r.nextSeq == |h| + 1 < UINT32_MAX
  {
  }

  lemma TailIs(r: Ring, h: seq<Record>)
    requires Gapless(r, h) && r.used > 0
    ensures r.used <= |h| && r.tail == SlotOf(|h| - r.used + 1, |r.slots|)
  {
    hide Kept;
  }

  lemma GeometryPositive(r: Ring)
    requires r.Geometry()
    ensures |r.slots| > 0
  {
  }

  lemma TailSlot(r: Ring, h: seq<Record>, i: nat)
    requires Gapless(r, h) && i < r.used
    ensures r.slots[(r.tail + i) % |r.slots|] == Valid(|h| - r.used + i + 1, h[|h| - r.used + i])
  {
    hide *;
    GaplessBasics(r, h);
    GeometryPositive(r);
    TailIs(r, h);
    KeptSlot(r, h, |h| - r.used + i + 1);
    SlotShift(|h| - r.used + 1, i, |r.slots|);
  }

  lemma TakeOne<T>(s: seq<T>, k: nat, n: nat)
    requires k < |s| && n > 0
    ensures Take(s[k..], n) == [s[k]] + Take(s[k + 1..], n - 1)
  {
    assert s[k..] == [s[k]] + s[k + 1..];
  }

  lemma {:induction false} ReadFromIsSlice(r: Ring, h: seq<Record>, start: nat, i: nat, max: nat)
    requires Gapless(r, h) && i <= r.used && start <= |h| - r.used + i + 1
    ensures ReadFrom(r, start, i, max) == Take(h[|h| - r.used + i..], max)
    ensures SlotsVisited(r, start, i, max) == |ReadFrom(r, start, i, max)|
    decreases r.used - i
  {
    hide *;
    GaplessBasics(r, h);
    if i < r.used && max > 0 {
      TailSlot(r, h, i);
      ReadFromIsSlice(r, h, start, i + 1, max - 1);
      TakeOne(h, |h| - r.used + i, max);
      ReadHit(r, start, i, max);
    } else {
      TakeNone(h[|h| - r.used + i..], max);
      ReadEnd(r, start, i, max);
    }
  }

  lemma TakeNone<T>(s: seq<T>, n: nat)
    requires s == [] || n == 0
    ensures Take(s, n) == []
  {
  }

  lemma SeekIsExact(r: Ring, h: seq<Record>, start: nat)
    requires Gapless(r, h)
    ensures SeekOffset(r, start) == if r.used > 0 && start > |h| - r.used + 1 then start - (|h| - r.used + 1) else 0
  {
    if r.used > 0 {
      TailSlot(r, h, 0);
      Modular.Unique(r.tail, |r.slots|, 0, r.tail);
    }
  }

  /** A read returns the history from `start` on, or from the oldest record left
      if that is later, cut to `max` records, and looks at no other slot. */
  lemma ReadIsSlice(r: Ring, h: seq<Record>, start: nat, max: nat)
    requires Gapless(r, h)
    ensures Read(r, start, max) ==
      if start > |h| then [] else Take(h[if start > |h| - r.used then start - 1 else |h| - r.used..], max)
    ensures SlotsVisited(r, start, SeekOffset(r, start), max) == |Read(r, start, max)|
  {
    SeekIsExact(r, h, start);
    var i := SeekOffset(r, start);
    if start > |h| {
      assert i >= r.used;
    } else {
      ReadFromIsSlice(r, h, start, i, max);
      assert |h| - r.used + i == if start > |h| - r.used then start - 1 else |h| - r.used;
    }
  }

  lemma FindKept(r: Ring, h: seq<Record>, q: nat)
    requires Gapless(r, h)
    ensures var at := FindSeq(r.slots, q, 0);
      if |h| - r.used < q <= |h| then at < |r.slots| && r.slots[at].record == h[q - 1] else at == |r.slots|
  {
    if |h| - r.used < q <= |h| {
      assert r.slots[SlotOf(q, |r.slots|)] == Valid(q, h[q - 1]);
    }
  }

  /** The search finds record q exactly when it is one of the newest n. */
  ghost predicate Findable(slots: seq<Slot>, h: seq<Record>, n: nat)
    requires n <= |h|
  {
    forall q :: 0 <= q <= |h| ==>
      var at := FindSeq(slots, q, 0);
      if |h| - n < q then at < |slots| && slots[at].record == h[q - 1] else at == |slots|
  }

  lemma AllFindable(r: Ring, h: seq<Record>)
    requires Gapless(r, h)
    ensures Findable(r.slots, h, r.used)
  {
    forall q: nat {
      FindKept(r, h, q);
    }
  }

  lemma {:induction false} SearchIsSlice(slots: seq<Slot>, h: seq<Record>, n: nat, low: nat)
    requires n <= |h| && Findable(slots, h, n) && low <= |h| + 1
    ensures Search(slots, low, |h| + 1) == h[if low > |h| - n then low - 1 else |h| - n..]
    decreases |h| + 1 - low
  {
    if low <= |h| {
      SearchIsSlice(slots, h, n, low + 1);
      if low > |h| - n {
        assert h[low - 1..] == [h[low - 1]] + h[low..];
      }
    }
  }

  /** The computed seek is exact: a read gives the first `max` of all the records
      on the partition numbered `start` or more, oldest first, one slot each. */
  lemma ReadIsSearch(r: Ring, h: seq<Record>, start: nat, max: nat)
    requires Gapless(r, h)
    ensures Read(r, start, max) == Take(Search(r.slots, start, r.nextSeq), max)
    ensures SlotsVisited(r, start, SeekOffset(r, start), max) == |Read(r, start, max)|
  {
    ReadIsSlice(r, h, start, max);
    AllFindable(r, h);
    if start <= |h| + 1 {
      SearchIsSlice(r.slots, h, r.used, start);
    }
  }

  lemma InfoIsExact(r: Ring, h: seq<Record>)
    requires Gapless(r, h)
    ensures GetInfo(r) == if r.used == 0 then Info(0, |r.slots|, 0, 0)
                          else Info(r.used, |r.slots|, |h| - r.used + 1, |h|)
  {
    if r.used > 0 {
      TailSlot(r, h, 0);
      Modular.Unique(r.tail, |r.slots|, 0, r.tail);
    }
  }

  /** The j-th slot from the tail. */
  function FromTail(r: Ring, j: nat): Slot
    requires r.Geometry()
  {
    r.slots[(r.tail + j) % |r.slots|]
  }

  lemma ReadStep(r: Ring, start: nat, i: nat, max: nat)
    requires r.Geometry()
    ensures ReadFrom(r, start, i, max) ==
      if i >= r.used || max == 0 then []
      else
        var slot := FromTail(r, i);
        if slot.Valid? && slot.seqno >= start then [slot.record] + ReadFrom(r, start, i + 1, max - 1)
        else ReadFrom(r, start, i + 1, max)
  {
    hide ReadFrom, Ring.Geometry;
    if i >= r.used || max == 0 {
      ReadEnd(r, start, i, max);
    } else if FromTail(r, i).Valid? && FromTail(r, i).seqno >= start {
      ReadHit(r, start, i, max);
    } else {
      ReadMiss(r, start, i, max);
    }
  }

  lemma {:induction false} SameReads(r: Ring, r': Ring, start: nat, i: nat, max: nat)
    requires r.Geometry() && r'.Geometry() && r'.used == r.used
    requires forall j :: 0 <= j < r.used ==> FromTail(r', j) == FromTail(r, j)
    ensures ReadFrom(r', start, i, max) == ReadFrom(r, start, i, max)
    decreases r.used - i
  {
    hide ReadFrom, Ring.Geometry, FromTail;
    ReadStep(r, start, i, max);
    ReadStep(r', start, i, max);
    if i < r.used && max > 0 {
      var slot := FromTail(r, i);
      if slot.Valid? && slot.seqno >= start {
        SameReads(r, r', start, i + 1, max - 1);
      } else {
        SameReads(r, r', start, i + 1, max);
      }
    }
  }

  /** Whatever a failed write has left, complete records included, no reader sees it
      until the next restart: every query answers as if only room had been made. */
  lemma FailedWriteInvisible(r: Ring, h: seq<Record>, record: Record, residue: Residue, start: nat, max: nat)
    requires Holds(r, h)
    ensures var room := MakeRoom(r, EraseDone).0;
      var r' := Append(r, record, EraseDone, WriteFailed(residue)).0;
      Read(r', start, max) == Read(room, start, max) && Oldest(r') == Oldest(room) && GetInfo(r') == GetInfo(room)
  {
    hide Holds, Gapless, ReadFrom, MakeRoom, Ring.Geometry, FromTail;
    HoldsGapless(r, h);
    var room := MakeRoom(r, EraseDone).0;
    var r' := Append(r, record, EraseDone, WriteFailed(residue)).0;
    MakeRoomHolds(r, h);
    HeadSlotFree(r, h);
    HoldsGapless(room, h);
    LiveSlotsKept(room, r', h);
    SameReads(room, r', start, SeekOffset(room, start), max);
  }

  lemma HoldsGapless(r: Ring, h: seq<Record>)
    requires Holds(r, h)
    ensures Gapless(r, h) && r.Geometry()
  {
  }

  lemma TailFirst(r: Ring)
    requires r.Geometry()
    ensures FromTail(r, 0) == r.slots[r.tail]
  {
    Modular.Unique(r.tail, |r.slots|, 0, r.tail);
  }

  /** Nothing but a free slot has changed. */
  lemma LiveSlotsKept(r: Ring, r': Ring, h: seq<Record>)
    requires Gapless(r, h) && r.Geometry() && !r.slots[r.head].Valid?
    requires r'.Geometry() && |r'.slots| == |r.slots| && r' == r.(slots := r'.slots)
    requires forall i :: 0 <= i < |r.slots| && i != r.head ==> r'.slots[i] == r.slots[i]
    ensures forall j :: 0 <= j < r.used ==> FromTail(r', j) == FromTail(r, j)
    ensures r.used > 0 ==> r'.slots[r.tail] == r.slots[r.tail]
  {
    hide Gapless, Ring.Geometry;
    forall j | 0 <= j < r.used ensures FromTail(r', j) == FromTail(r, j) {
      TailSlot(r, h, j);
      hide *;
    }
    TailFirst(r);
    TailFirst(r');
  }

  /** The oldest record is the first of those still held, and the first that a
      read of the whole log returns. */
  lemma OldestIsFirst(r: Ring, h: seq<Record>)
    requires Gapless(r, h)
    ensures Oldest(r) == if r.used == 0 then [] else [h[|h| - r.used]]
    ensures Oldest(r) == Read(r, 0, 1)
  {
    ReadIsSlice(r, h, 0, 1);
    hide Read;
    if r.used > 0 {
      TailSlot(r, h, 0);
      Modular.Unique(r.tail, |r.slots|, 0, r.tail);
    }
  }

  lemma RecoveredAppend(r: Ring, h: seq<Record>, record: Record, legible: bool)
    requires Recoverable(r, h) && r.Geometry() && 2 * r.perSector <= |r.slots| && |h| + 2 < UINT32_MAX
    requires Exact(r, Log(record, legible))
    ensures Holds(AppendOk(r, record, legible), h + [record])
    ensures AppendOk(r, record, legible).used == Retained(|h| + 1, |r.slots|, r.perSector)
  {
    var ideal :| Holds(ideal, h) && HealsInto(r, ideal);
    HealedAppend(r, ideal, h, record, WriteDone(legible));
    RetentionLaw(ideal, h, record, legible);
  }

  /** What a log that has recovered reads back after its next append. */
  lemma RecoveredRead(r: Ring, h: seq<Record>, record: Record, legible: bool, start: nat, max: nat)
    requires Recoverable(r, h) && r.Geometry() && 2 * r.perSector <= |r.slots| && |h| + 2 < UINT32_MAX
    requires Exact(r, Log(record, legible))
    ensures Read(AppendOk(r, record, legible), start, max) == Newest(h + [record], |r.slots|, r.perSector, start, max)
  {
    RecoveredAppend(r, h, record, legible);
    ReadIsSlice(AppendOk(r, record, legible), h + [record], start, max);
  }

  /** The first `max` records of h from number `start` on, among those retained. */
  function Newest(h: seq<Record>, total: nat, perSector: nat, start: nat, max: nat): seq<Record>
    requires 0 < perSector <= total
  {
    var lost := |h| - Retained(|h|, total, perSector);
    if start > |h| then [] else Take(h[if start > lost then start - 1 else lost..], max)
  }

  /** End to end: after any run from a blank partition, power cuts included, and
      one more append, the log reads back as the newest records of the history. */
  lemma ReadsBackHistory(slots: seq<Slot>, perSector: nat, actions: seq<Action>, record: Record, legible: bool,
                         start: nat, max: nat)
    requires 0 < perSector && 2 * perSector <= |slots| <= UINT32_MAX && |slots| % perSector == 0
    requires forall i :: 0 <= i < |slots| ==> slots[i] == Erased
    requires |actions| + 2 < UINT32_MAX && AllExact(Boot(slots, perSector), actions)
    requires Exact(PerformAll(Boot(slots, perSector), actions), Log(record, legible))
    ensures Read(AppendOk(PerformAll(Boot(slots, perSector), actions), record, legible), start, max)
         == Newest(History(actions) + [record], |slots|, perSector, start, max)
  {
    CrashSafety(slots, perSector, actions);
    RecoveredRead(PerformAll(Boot(slots, perSector), actions), History(actions), record, legible, start, max);
  }
}
