/** Reading a log with holes: what a read returns when some of the records between
    the oldest and the newest are missing, before a restart and after it. */
module FlashHoles {
  import opened FlashRing
  import opened FlashPlacement
  import opened FlashFifo
  import opened FlashQuery
  import opened FlashRecovery
  import Modular

  /** Every record on the medium is in its slot and numbered within one lap from
      `low` on; any number may be missing. */
  ghost predicate Windowed(slots: seq<Slot>, low: nat) {
    && 0 < |slots| && 1 <= low
    && forall i :: 0 <= i < |slots| && slots[i].Valid? ==>
         low <= slots[i].seqno < low + |slots| && slots[i].seqno < UINT32_MAX && SlotOf(slots[i].seqno, |slots|) == i
  }

  /** Whether a number is found depends on its own slot alone. */
  lemma FindWindowed(slots: seq<Slot>, low: nat, q: nat)
    requires Windowed(slots, low) && low <= q < low + |slots|
    ensures var i := SlotOf(q, |slots|);
      && (slots[i].Valid? ==> slots[i].seqno == q)
      && FindSeq(slots, q, 0) == if slots[i].Valid? then i else |slots|
  {
    var i := SlotOf(q, |slots|);
    if slots[i].Valid? {
      var other := slots[i].seqno;
      if other < q {
        Modular.WindowInjective(other - 1, q - 1, |slots|);
      } else if other > q {
        Modular.WindowInjective(q - 1, other - 1, |slots|);
      }
    }
  }

  // ---- Searching ----

  lemma {:induction false} SearchSplit(slots: seq<Slot>, low: nat, mid: nat, high: nat)
    requires low <= mid <= high
    ensures Search(slots, low, high) == Search(slots, low, mid) + Search(slots, mid, high)
    decreases mid - low
  {
    if low < mid {
      SearchSplit(slots, low + 1, mid, high);
    }
  }

  lemma {:induction false} NoneBelow(slots: seq<Slot>, low: nat, high: nat)
    requires low <= high && forall i :: 0 <= i < |slots| && slots[i].Valid? ==> slots[i].seqno >= high
    ensures Search(slots, low, high) == []
    decreases high - low
  {
    if low < high {
      NoneBelow(slots, low + 1, high);
    }
  }

  lemma {:induction false} SearchBound(slots: seq<Slot>, low: nat, high: nat)
    requires low <= high
    ensures |Search(slots, low, high)| <= high - low
    decreases high - low
  {
    if low < high {
      SearchBound(slots, low + 1, high);
    }
  }

  /** A slot that holds none of the numbers searched for does not matter. */
  lemma {:induction false} SearchWithout(slots: seq<Slot>, base: nat, i: nat, low: nat, high: nat)
    requires Windowed(slots, base) && i < |slots| && slots[i].Valid? && slots[i].seqno < low
    requires base <= low && high <= base + |slots|
    ensures Search(slots[i := Erased], low, high) == Search(slots, low, high)
    decreases high - low
  {
    hide Search, FindSeq;
    if low < high {
      SearchWithout(slots, base, i, low + 1, high);
      FindWindowed(slots, base, low);
      FindWindowed(slots[i := Erased], base, low);
      SearchOne(slots, low, high);
      SearchOne(slots[i := Erased], low, high);
    } else {
      SearchEmpty(slots, low, high);
      SearchEmpty(slots[i := Erased], low, high);
    }
  }

  /** A search of the whole range finds as many records as a count of the slots. */
  lemma {:induction false} SearchFindsAll(slots: seq<Slot>, base: nat, low: nat, high: nat)
    requires Windowed(slots, base) && base <= low <= high <= base + |slots|
    requires forall i :: 0 <= i < |slots| && slots[i].Valid? ==> low <= slots[i].seqno < high
    ensures |Search(slots, low, high)| == CountValid(slots, 0, |slots|)
    decreases high - low
  {
    hide CountValid, Search;
    if low == high {
      CountNone(slots, 0, |slots|);
      NoneBelow(slots, low, high);
    } else {
      SearchOne(slots, low, high);
      FindWindowed(slots, base, low);
      var i := SlotOf(low, |slots|);
      if slots[i].Valid? {
        CountRemove(slots, 0, |slots|, i, Erased);
        SearchWithout(slots, base, i, low + 1, high);
        SearchFindsAll(slots[i := Erased], base, low + 1, high);
      } else {
        SearchFindsAll(slots, base, low + 1, high);
      }
    }
  }

  lemma SearchOne(slots: seq<Slot>, low: nat, high: nat)
    requires low < high
    ensures var at := FindSeq(slots, low, 0);
      Search(slots, low, high) == (if at < |slots| then [slots[at].record] else []) + Search(slots, low + 1, high)
  {
  }

  // ---- Reading ----

  /** A ring whose tail is the slot of number `base`, whether or not that record is
      still there, and which takes `used` numbers from there on to be live. */
  ghost predicate Spanning(r: Ring, base: nat) {
    && r.Geometry() && 0 < r.used <= |r.slots|
    && Windowed(r.slots, base)
    && r.tail == SlotOf(base, |r.slots|)
  }

  /** One whose tail is the oldest record, as it is after a restart. */
  ghost predicate Anchored(r: Ring, oldest: nat) {
    Spanning(r, oldest) && r.slots[r.tail].Valid?
  }

  lemma SpanningBasics(r: Ring, base: nat)
    requires Spanning(r, base)
    ensures base >= 1 && r.Geometry() && 0 < r.used <= |r.slots| && Windowed(r.slots, base)
    ensures forall i :: 0 <= i < |r.slots| && r.slots[i].Valid? ==> base <= r.slots[i].seqno < base + |r.slots|
    ensures r.slots[r.tail].Valid? ==> r.slots[r.tail].seqno == base
    ensures Anchored(r, base) <==> r.slots[r.tail].Valid?
  {
    FindWindowed(r.slots, base, base);
  }

  /** What the log reports of itself: the first number that the cursors span, if its
      record is still there, and 0 if it has been lost. */
  lemma InfoOfSpan(r: Ring, base: nat)
    requires Spanning(r, base) && r.nextSeq > 0
    ensures var info := GetInfo(r);
      && info.recordCount == r.used && info.capacity == |r.slots| && info.newestSeq == r.nextSeq - 1
      && (info.oldestSeq == base || info.oldestSeq == 0)
      && (info.oldestSeq == base <==> r.slots[r.tail].Valid?)
  {
    SpanningBasics(r, base);
    hide Spanning;
  }

  lemma SlotFromTail(r: Ring, base: nat, i: nat)
    requires Spanning(r, base)
    ensures (r.tail + i) % |r.slots| == SlotOf(base + i, |r.slots|)
  {
    SlotShift(base, i, |r.slots|);
  }

  /** The slot that the i-th step of a read looks at. */
  lemma StepOfRead(r: Ring, base: nat, i: nat)
    requires Spanning(r, base) && i < r.used
    ensures var slot, at := r.slots[(r.tail + i) % |r.slots|], FindSeq(r.slots, base + i, 0);
      && (slot.Valid? ==> slot.seqno == base + i && at < |r.slots| && r.slots[at] == slot)
      && (!slot.Valid? ==> at == |r.slots|)
  {
    SlotFromTail(r, base, i);
    FindWindowed(r.slots, base, base + i);
  }

  lemma TakeCons<T>(x: T, s: seq<T>, n: nat)
    requires n > 0
    ensures Take([x] + s, n) == [x] + Take(s, n - 1)
  {
  }

  lemma {:induction false} ReadFromIsSearch(r: Ring, base: nat, start: nat, i: nat, max: nat)
    requires Spanning(r, base) && i <= r.used && start <= base + i
    ensures ReadFrom(r, start, i, max) == Take(Search(r.slots, base + i, base + r.used), max)
    decreases r.used - i
  {
    hide *;
    SpanningBasics(r, base);
    if i == r.used || max == 0 {
      ReadEnd(r, start, i, max);
      SearchEmpty(r.slots, base + r.used, base + r.used);
      TakeNone(Search(r.slots, base + i, base + r.used), max);
    } else {
      StepOfRead(r, base, i);
      SearchOne(r.slots, base + i, base + r.used);
      var slot := r.slots[(r.tail + i) % |r.slots|];
      if slot.Valid? {
        ReadFromIsSearch(r, base, start, i + 1, max - 1);
        TakeCons(slot.record, Search(r.slots, base + i + 1, base + r.used), max);
        ReadHit(r, start, i, max);
      } else {
        ReadFromIsSearch(r, base, start, i + 1, max);
        ReadMiss(r, start, i, max);
        assert [] + Search(r.slots, base + i + 1, base + r.used) == Search(r.slots, base + i + 1, base + r.used);
      }
    }
  }

  lemma SearchEmpty(slots: seq<Slot>, low: nat, high: nat)
    requires low >= high
    ensures Search(slots, low, high) == []
  {
  }

  /** Numbers below `start` are passed over one by one. */
  lemma {:induction false} ReadSkips(r: Ring, base: nat, start: nat, i: nat, max: nat)
    requires Spanning(r, base) && i <= r.used && base + i <= start
    ensures ReadFrom(r, start, i, max) == ReadFrom(r, start, if start - base < r.used then start - base else r.used,
                                                   max)
    decreases r.used - i
  {
    hide *;
    SpanningBasics(r, base);
    if max == 0 {
      ReadEnd(r, start, i, max);
      ReadEnd(r, start, if start - base < r.used then start - base else r.used, max);
    } else if i < r.used && base + i < start {
      StepOfRead(r, base, i);
      ReadMiss(r, start, i, max);
      ReadSkips(r, base, start, i + 1, max);
    }
  }

  /** Where a read starts: if the tail's record has gone, at the tail. */
  lemma ReadStarts(r: Ring, base: nat, start: nat, max: nat)
    requires Spanning(r, base)
    ensures Read(r, start, max)
         == ReadFrom(r, start, if r.slots[r.tail].Valid? && start > base then start - base else 0, max)
  {
    SpanningBasics(r, base);
    hide ReadFrom, Windowed;
  }

  /** What a read returns, holes or not: of the numbers from `start` on, those that
      are found among the `used` from the tail on. */
  lemma ReadSeesSpan(r: Ring, base: nat, start: nat, max: nat)
    requires Spanning(r, base)
    ensures Read(r, start, max) == Take(Search(r.slots, start, base + r.used), max)
  {
    hide *;
    SpanningBasics(r, base);
    ReadStarts(r, base, start, max);
    if start >= base + r.used {
      SearchEmpty(r.slots, start, base + r.used);
      TakeNone<Record>([], max);
      ReadSkips(r, base, start, 0, max);
      ReadEnd(r, start, start - base, max);
      ReadEnd(r, start, r.used, max);
    } else if start > base {
      ReadFromIsSearch(r, base, start, start - base, max);
      ReadSkips(r, base, start, 0, max);
    } else {
      ReadFromIsSearch(r, base, start, 0, max);
      SearchSplit(r.slots, start, base, base + r.used);
      NoneBelow(r.slots, start, base);
      assert [] + Search(r.slots, base, base + r.used) == Search(r.slots, base, base + r.used);
    }
  }

  // ---- With stale cursors ----

  /** The cursors of a ring without a gap, over a medium that has lost records. */
  lemma LossKeepsSpan(r: Ring, h: seq<Record>, slots: seq<Slot>)
    requires Gapless(r, h) && r.used > 0 && Shrinks(r.slots, slots)
    ensures Spanning(r.(slots := slots), |h| - r.used + 1)
  {
  }

  /** What is left is read back, all of it and in order, as long as the cursors are
      those from before the loss. */
  lemma StaleCursorsRead(r: Ring, h: seq<Record>, slots: seq<Slot>, start: nat, max: nat)
    requires Gapless(r, h) && Shrinks(r.slots, slots)
    ensures r.(slots := slots).Geometry()
    ensures Read(r.(slots := slots), start, max) == Take(Search(slots, start, r.nextSeq), max)
  {
    hide *;
    GaplessBasics(r, h);
    if r.used > 0 {
      LossKeepsSpan(r, h, slots);
      SpanningBasics(r.(slots := slots), |h| - r.used + 1);
      ReadSeesSpan(r.(slots := slots), |h| - r.used + 1, start, max);
    } else {
      NothingLive(r, h, slots, start, max);
    }
  }

  lemma NothingLive(r: Ring, h: seq<Record>, slots: seq<Slot>, start: nat, max: nat)
    requires Gapless(r, h) && Shrinks(r.slots, slots) && r.used == 0
    ensures r.(slots := slots).Geometry()
    ensures Read(r.(slots := slots), start, max) == [] == Take(Search(slots, start, r.nextSeq), max)
  {
    NothingKept(slots, start, r.nextSeq);
  }

  lemma {:induction false} NothingKept(slots: seq<Slot>, low: nat, high: nat)
    requires forall i :: 0 <= i < |slots| ==> !slots[i].Valid?
    ensures Search(slots, low, high) == []
    decreases high - low
  {
    if low < high {
      NothingKept(slots, low + 1, high);
    }
  }

  /** After a failed eviction, and after a log erase that stopped half way, a read
      still returns every record that is left, until the next restart. */
  lemma FailedErasesRead(r: Ring, h: seq<Record>, record: Record, effect: nat -> CellEffect, write: WriteOutcome,
                         outcome: nat -> EraseOutcome, start: nat, max: nat)
    requires Gapless(r, h)
    ensures r.AtSectorStart() ==>
      var failed := Append(r, record, EraseFailed(effect), write).0;
      Read(failed, start, max) == Take(Search(failed.slots, start, failed.nextSeq), max)
    ensures !ErasesAll(outcome, r.perSector, 0, |r.slots|) ==>
      var erased := EraseLog(r, outcome);
      Read(erased, start, max) == Take(Search(erased.slots, start, erased.nextSeq), max)
  {
    hide Read, Search, Gapless, EraseSectors;
    GaplessBasics(r, h);
    if r.AtSectorStart() {
      var failed := Append(r, record, EraseFailed(effect), write).0;
      assert failed == r.(slots := failed.slots) && Shrinks(r.slots, failed.slots);
      StaleCursorsRead(r, h, failed.slots, start, max);
    }
    EraseSectorsShrinks(r.slots, r.perSector, 0, outcome);
    EraseLogAnswers(r, outcome);
    StaleCursorsRead(r, h, EraseSectors(r.slots, r.perSector, 0, outcome).0, start, max);
  }

  // ---- After a restart ----

  lemma BootIsAnchored(slots: seq<Slot>, perSector: nat, low: nat)
    requires 0 < perSector <= |slots| <= UINT32_MAX && |slots| % perSector == 0
    requires Windowed(slots, low) && CountValid(slots, 0, |slots|) > 0
    ensures var booted := Boot(slots, perSector);
      && booted.slots[booted.tail].Valid?
      && booted.used == CountValid(slots, 0, |slots|)
      && Anchored(booted, booted.slots[booted.tail].seqno)
      && (forall i :: 0 <= i < |slots| && slots[i].Valid? ==> slots[i].seqno < booted.nextSeq)
      && exists i :: 0 <= i < |slots| && slots[i].Valid? && slots[i].seqno + 1 == booted.nextSeq
  {
    ScanFinds(slots, |slots|);
    hide CountValid, ScanTo, SlotOf;
  }

  /** The cursors after a restart: the count never exceeds the numbers there are. */
  lemma RestartedCursors(slots: seq<Slot>, perSector: nat, low: nat)
    requires 0 < perSector <= |slots| <= UINT32_MAX && |slots| % perSector == 0
    requires Windowed(slots, low) && CountValid(slots, 0, |slots|) > 0
    ensures var r := Boot(slots, perSector);
      && r.slots[r.tail].Valid? && Anchored(r, r.slots[r.tail].seqno)
      && r.used == |Search(slots, r.slots[r.tail].seqno, r.nextSeq)|
      && r.slots[r.tail].seqno + r.used <= r.nextSeq <= r.slots[r.tail].seqno + |slots|
  {
    BootIsAnchored(slots, perSector, low);
    hide CountValid, Boot, Search, SlotOf;
    var r := Boot(slots, perSector);
    var oldest := r.slots[r.tail].seqno;
    WindowEnd(slots, oldest, r.nextSeq);
    SearchFindsAll(slots, oldest, oldest, r.nextSeq);
    SearchBound(slots, oldest, r.nextSeq);
  }

  /** All the records on the medium are those a read returns and, after them, those
      that it does not get to. */
  lemma ReadAndRest(r: Ring, base: nat)
    requires Spanning(r, base) && base + r.used <= r.nextSeq
    ensures Read(r, 0, |r.slots|) == Search(r.slots, base, base + r.used)
    ensures Search(r.slots, 0, r.nextSeq) == Read(r, 0, |r.slots|) + Search(r.slots, base + r.used, r.nextSeq)
    ensures Search(r.slots, base, r.nextSeq) == Read(r, 0, |r.slots|) + Search(r.slots, base + r.used, r.nextSeq)
  {
    hide *;
    SpanningBasics(r, base);
    var end := base + r.used;
    ReadSeesSpan(r, base, 0, |r.slots|);
    NoneBelow(r.slots, 0, base);
    SearchSplit(r.slots, 0, base, end);
    SearchSplit(r.slots, 0, base, r.nextSeq);
    SearchSplit(r.slots, base, end, r.nextSeq);
    SearchBound(r.slots, base, end);
    assert [] + Search(r.slots, base, end) == Search(r.slots, base, end);
    assert [] + Search(r.slots, base, r.nextSeq) == Search(r.slots, base, r.nextSeq);
    TakeAll(Search(r.slots, base, end), |r.slots|);
  }

  /** What a log with holes reads back after a restart: the cursors count records
      but reading counts slots, so of all the records on the medium a read gets to
      those numbered below `oldest + count`, and misses as many of the newest as
      there are holes before - none if and only if there is no hole at all. */
  lemma RestartedRead(slots: seq<Slot>, perSector: nat, low: nat, start: nat, max: nat)
    requires 0 < perSector <= |slots| <= UINT32_MAX && |slots| % perSector == 0
    requires Windowed(slots, low) && CountValid(slots, 0, |slots|) > 0
    ensures var r := Boot(slots, perSector);
      r.Geometry() && r.used == CountValid(slots, 0, |slots|) && r.slots[r.tail].Valid?
    ensures var r := Boot(slots, perSector);
      var end := r.slots[r.tail].seqno + r.used;
      && Read(r, start, max) == Take(Search(slots, start, end), max)
      && Search(slots, 0, r.nextSeq) == Read(r, 0, |slots|) + Search(slots, end, r.nextSeq)
      && |Search(slots, end, r.nextSeq)| == r.used - |Read(r, 0, |slots|)|
      && (Read(r, 0, |slots|) == Search(slots, 0, r.nextSeq) <==> end == r.nextSeq)
  {
    hide *;
    BootIsAnchored(slots, perSector, low);
    RestartedCursors(slots, perSector, low);
    var r := Boot(slots, perSector);
    var oldest := r.slots[r.tail].seqno;
    AnchoredSpans(r, oldest);
    SpanningBasics(r, oldest);
    ReadSeesSpan(r, oldest, start, max);
    ReadAndRest(r, oldest);
    NewestFound(slots, oldest, oldest + r.used, r.nextSeq);
    JoinsWhole(Search(slots, 0, r.nextSeq), Read(r, 0, |slots|), Search(slots, oldest + r.used, r.nextSeq));
  }

  lemma AnchoredSpans(r: Ring, oldest: nat)
    requires Anchored(r, oldest)
    ensures Spanning(r, oldest)
  {
  }

  lemma JoinsWhole<T>(whole: seq<T>, first: seq<T>, rest: seq<T>)
    requires whole == first + rest
    ensures |whole| == |first| + |rest|
    ensures first == whole <==> rest == []
  {
  }

  lemma TakeAll<T>(s: seq<T>, n: nat)
    requires |s| <= n
    ensures Take(s, n) == s
  {
  }

  lemma WindowEnd(slots: seq<Slot>, low: nat, high: nat)
    requires Windowed(slots, low)
    requires exists i :: 0 <= i < |slots| && slots[i].Valid? && slots[i].seqno + 1 == high
    ensures low < high <= low + |slots|
  {
  }

  lemma NewestFound(slots: seq<Slot>, low: nat, end: nat, high: nat)
    requires Windowed(slots, low) && low <= end <= high <= low + |slots|
    requires exists i :: 0 <= i < |slots| && slots[i].Valid? && slots[i].seqno + 1 == high
    ensures Search(slots, end, high) == [] <==> end == high
  {
    if end < high {
      SearchSplit(slots, end, high - 1, high);
      SearchOne(slots, high - 1, high);
      FindWindowed(slots, low, high - 1);
    } else {
      SearchEmpty(slots, end, end);
    }
  }

  // ---- An illegible append ----

  lemma {:induction false} KeptIsSearched(slots: seq<Slot>, base: nat, h: seq<Record>, low: nat)
    requires Windowed(slots, base) && base <= low <= |h| + 1 <= base + |slots|
    requires forall q :: low <= q <= |h| ==> slots[SlotOf(q, |slots|)] == Valid(q, h[q - 1])
    ensures Search(slots, low, |h| + 1) == h[low - 1..]
    decreases |h| + 1 - low
  {
    hide Search, SlotOf;
    if low <= |h| {
      KeptIsSearched(slots, base, h, low + 1);
      FindWindowed(slots, base, low);
      SearchOne(slots, low, |h| + 1);
      assert h[low - 1..] == [h[low - 1]] + h[low..];
    } else {
      SearchEmpty(slots, low, low);
    }
  }

  /** A medium of which record |h| + 1 was programmed illegibly and the next one is whole. */
  ghost predicate OneLost(slots: seq<Slot>, h: seq<Record>, n: nat, next: Record)
    requires 0 < |slots|
  {
    && 0 < n <= |h| && n + 2 <= |slots|
    && Windowed(slots, |h| - n + 1)
    && (forall q :: |h| - n < q <= |h| ==> slots[SlotOf(q, |slots|)] == Valid(q, h[q - 1]))
    && !slots[SlotOf(|h| + 1, |slots|)].Valid?
    && slots[SlotOf(|h| + 2, |slots|)] == Valid(|h| + 2, next)
    && forall i :: 0 <= i < |slots| && slots[i].Valid? ==> slots[i].seqno <= |h| + 2
  }

  lemma OneLostFinds(slots: seq<Slot>, h: seq<Record>, n: nat, next: Record)
    requires 0 < |slots| && OneLost(slots, h, n, next)
    ensures 0 < n <= |h|
    ensures forall i :: 0 <= i < |slots| && slots[i].Valid? ==> slots[i].seqno >= |h| - n + 1
    ensures Search(slots, |h| - n + 1, |h| + 1) == h[|h| - n..]
    ensures FindSeq(slots, |h| + 1, 0) == |slots|
    ensures FindSeq(slots, |h| + 2, 0) < |slots| && slots[FindSeq(slots, |h| + 2, 0)].record == next
  {
    hide Search, SlotOf, FindSeq;
    var low := |h| - n + 1;
    KeptIsSearched(slots, low, h, low);
    FindWindowed(slots, low, |h| + 1);
    FindWindowed(slots, low, |h| + 2);
  }

  /** What a read finds on such a medium, up to the newest record and without it. */
  lemma OneLostSearch(slots: seq<Slot>, h: seq<Record>, n: nat, next: Record)
    requires 0 < |slots| && OneLost(slots, h, n, next)
    ensures 0 < n <= |h|
    ensures Search(slots, 0, |h| + 2) == h[|h| - n..] == Search(slots, |h| - n + 1, |h| + 2)
    ensures Search(slots, 0, |h| + 3) == h[|h| - n..] + [next] == Search(slots, |h| - n + 1, |h| + 3)
  {
    hide *;
    OneLostFinds(slots, h, n, next);
    var low := |h| - n + 1;
    NoneBelow(slots, 0, low);
    SearchSplit(slots, 0, low, |h| + 2);
    SearchSplit(slots, 0, low, |h| + 3);
    SearchSplit(slots, low, |h| + 1, |h| + 2);
    SearchSplit(slots, low, |h| + 2, |h| + 3);
    SearchOne(slots, |h| + 1, |h| + 2);
    SearchOne(slots, |h| + 2, |h| + 3);
    SearchEmpty(slots, |h| + 2, |h| + 2);
    SearchEmpty(slots, |h| + 3, |h| + 3);
    assert Search(slots, low, |h| + 2) == h[|h| - n..] + [];
    assert Search(slots, low, |h| + 3) == h[|h| - n..] + [next];
    assert [] + Search(slots, low, |h| + 2) == Search(slots, low, |h| + 2);
    assert [] + Search(slots, low, |h| + 3) == Search(slots, low, |h| + 3);
  }

  lemma OneLostBoot(slots: seq<Slot>, perSector: nat, h: seq<Record>, n: nat, next: Record)
    requires 0 < perSector <= |slots| <= UINT32_MAX && |slots| % perSector == 0
    requires OneLost(slots, h, n, next)
    ensures var r := Boot(slots, perSector);
      r.used == n + 1 && r.nextSeq == |h| + 3 && Anchored(r, |h| - n + 1)
  {
    hide *;
    OneLostEnds(slots, h, n, next);
    OneLostSearch(slots, h, n, next);
    BootIsAnchored(slots, perSector, |h| - n + 1);
    RestartedCursors(slots, perSector, |h| - n + 1);
    var r := Boot(slots, perSector);
    AnchoredSpans(r, r.slots[r.tail].seqno);
    SpanningBasics(r, r.slots[r.tail].seqno);
  }

  lemma OneLostEnds(slots: seq<Slot>, h: seq<Record>, n: nat, next: Record)
    requires 0 < |slots| && OneLost(slots, h, n, next)
    ensures 0 < n <= |h| && Windowed(slots, |h| - n + 1) && CountValid(slots, 0, |slots|) > 0
    ensures exists i :: 0 <= i < |slots| && slots[i].Valid? && slots[i].seqno == |h| - n + 1
    ensures exists i :: 0 <= i < |slots| && slots[i].Valid? && slots[i].seqno == |h| + 2
    ensures forall i :: 0 <= i < |slots| && slots[i].Valid? ==> |h| - n + 1 <= slots[i].seqno <= |h| + 2
  {
    CountSome(slots, SlotOf(|h| + 2, |slots|), 0, |slots|);
    assert slots[SlotOf(|h| - n + 1, |slots|)] == Valid(|h| - n + 1, h[|h| - n]);
    assert slots[SlotOf(|h| + 2, |slots|)] == Valid(|h| + 2, next);
  }

  lemma {:induction false} CountSome(slots: seq<Slot>, i: nat, low: nat, high: nat)
    requires low <= i < high <= |slots| && slots[i].Valid?
    ensures CountValid(slots, low, high) > 0
    decreases high
  {
    if i < high - 1 {
      CountSome(slots, i, low, high - 1);
    }
  }

  /** The slot just left is not in the sector that the head is about to enter. */
  lemma LeftSlotOutside(r: Ring, i: nat)
    requires r.Geometry() && i < |r.slots| && r.head == (i + 1) % |r.slots|
    requires r.AtSectorStart() && 2 * r.perSector <= |r.slots|
    ensures !(r.head <= i < r.head + r.perSector)
  {
    if i + 1 < |r.slots| {
      Modular.Unique(i + 1, |r.slots|, 0, i + 1);
    } else {
      Modular.Unique(i + 1, |r.slots|, 1, 0);
    }
  }

  /** Making room takes no notice of a slot outside the sector it clears. */
  lemma MakeRoomBeside(r: Ring, i: nat)
    requires r.Geometry() && i < |r.slots| && (r.AtSectorStart() ==> !(r.head <= i < r.head + r.perSector))
    ensures var beside := r.(slots := r.slots[i := Garbage]);
      var room := MakeRoom(r, EraseDone).0;
      MakeRoom(beside, EraseDone) == (room.(slots := room.slots[i := Garbage]), true)
  {
    var beside := r.(slots := r.slots[i := Garbage]);
    if r.AtSectorStart() {
      HeadSectorFits(r);
      MakeRoomFields(r);
      MakeRoomFields(beside);
      CountSame(r.slots, beside.slots, r.head, r.head + r.perSector);
      assert EraseRange(beside.slots, r.head, r.perSector) == EraseRange(r.slots, r.head, r.perSector)[i := Garbage];
    }
  }

  /** Nor does an append, if it programs another slot and comes out legible. */
  lemma AppendBeside(r: Ring, i: nat, record: Record, legible: bool)
    requires r.Geometry() && i < |r.slots| && i != r.head
    requires r.AtSectorStart() ==> !(r.head <= i < r.head + r.perSector)
    requires r.AtSectorStart() || r.slots[r.head].Erased? || legible
    ensures var beside, r' := r.(slots := r.slots[i := Garbage]), AppendOk(r, record, true);
      AppendOk(beside, record, legible) == r'.(slots := r'.slots[i := Garbage])
  {
    MakeRoomBeside(r, i);
    var room := MakeRoom(r, EraseDone).0;
    if r.AtSectorStart() {
      HeadSectorFits(r);
    }
    var target := Valid(r.nextSeq, record);
    assert room.slots[i := Garbage][r.head := target] == room.slots[r.head := target][i := Garbage];
  }

  /** An illegible append differs from a proper one by its own slot. */
  lemma IllegibleBeside(r: Ring, h: seq<Record>, record: Record)
    requires Holds(r, h) && |h| + 2 < UINT32_MAX && !r.AtSectorStart() && !r.slots[r.head].Erased?
    ensures var proper := AppendOk(r, record, true);
      && AppendOk(r, record, false) == proper.(slots := proper.slots[r.head := Garbage])
      && Holds(proper, h + [record]) && proper.used == r.used + 1 && proper.head != r.head
      && proper.head == (r.head + 1) % |r.slots|
      && 0 < r.used < |r.slots| && r.perSector >= 2
  {
    AppendHolds(r, h, record, true);
    FullOrRoomy(r, h);
    NotAtStart(r);
    if r.used == 0 {
      Modular.ModMod(|h|, |r.slots|, r.perSector);
    }
    assert r.slots[r.head := Garbage]
        == r.slots[r.head := Valid(r.nextSeq, record)][r.head := Garbage];
  }

  lemma NotAtStart(r: Ring)
    requires r.Geometry() && !r.AtSectorStart()
    ensures r.perSector >= 2 && (r.head + 1) % |r.slots| != r.head
  {
    if r.head + 1 < |r.slots| {
      Modular.Unique(r.head + 1, |r.slots|, 0, r.head + 1);
    } else {
      Modular.Unique(r.head + 1, |r.slots|, 1, 0);
    }
  }

  /** Losing the record before the newest one from a ring without a gap. */
  lemma LosingOne(r: Ring, h: seq<Record>, record: Record, next: Record, i: nat)
    requires Holds(r, h + [record] + [next]) && r.used > 2 && i == SlotOf(|h| + 1, |r.slots|)
    ensures OneLost(r.slots[i := Garbage], h, r.used - 2, next)
    ensures r.tail == SlotOf(|h| - (r.used - 2) + 1, |r.slots|)
  {
    var h', n, total := h + [record] + [next], r.used - 2, |r.slots|;
    var slots := r.slots[i := Garbage];
    forall q | |h| - n < q <= |h| ensures slots[SlotOf(q, total)] == Valid(q, h[q - 1]) {
      assert r.slots[SlotOf(q, total)] == Valid(q, h'[q - 1]);
      Modular.WindowInjective(q - 1, |h|, total);
    }
    assert r.slots[SlotOf(|h| + 2, total)] == Valid(|h| + 2, h'[|h| + 1]);
    Modular.WindowInjective(|h|, |h| + 1, total);
  }

  /** On NOR flash, an append that comes out illegible over the remains of a torn
      write costs its own record as long as the tag runs: the next record is read
      back. After a restart it costs that one as well: the count is one short, and
      a read stops before the newest record until another one is dropped. */
  lemma IllegibleHidesNewest(r: Ring, h: seq<Record>, record: Record, next: Record, legible: bool)
    requires Holds(r, h) && |h| + 3 < UINT32_MAX && !r.AtSectorStart() && !r.slots[r.head].Erased?
    requires var r1 := AppendOk(r, record, false);
      if r1.AtSectorStart() then 2 * r.perSector <= |r.slots| else r1.slots[r1.head].Erased? || legible
    ensures var running := AppendOk(AppendOk(r, record, false), next, legible);
      var restarted := Boot(running.slots, r.perSector);
      var n := if r.used + 1 < |r.slots| then r.used else |r.slots| - r.perSector - 1;
      && 0 < n <= |h| && running.used == n + 2
      && Read(running, 0, |r.slots|) == h[|h| - n..] + [next]
      && restarted.Geometry() && restarted.nextSeq == running.nextSeq && restarted.used == running.used - 1
      && Read(restarted, 0, |r.slots|) == h[|h| - n..]
  {
    var proper := AppendOk(r, record, true);
    IllegibleBeside(r, h, record);
    hide AppendOk, Read, Boot, SlotOf, Holds;
    HoldsBasics(proper, h + [record]);
    IllegibleThenProper(r, h, proper, record, next, legible);
  }

  lemma IllegibleThenProper(r: Ring, h: seq<Record>, proper: Ring, record: Record, next: Record, legible: bool)
    requires r.Geometry() && !r.AtSectorStart() && 0 < r.used < |r.slots| && r.head == SlotOf(|h| + 1, |r.slots|)
    requires Holds(proper, h + [record]) && |h| + 3 < UINT32_MAX && r.perSector >= 2
    requires |proper.slots| == |r.slots| && proper.perSector == r.perSector && proper.used == r.used + 1
    requires proper.head == (r.head + 1) % |r.slots| && proper.head != r.head
    requires if proper.AtSectorStart() then 2 * r.perSector <= |r.slots|
             else proper.slots[proper.head].Erased? || legible
    ensures var running := AppendOk(proper.(slots := proper.slots[r.head := Garbage]), next, legible);
      var restarted := Boot(running.slots, r.perSector);
      var n := if r.used + 1 < |r.slots| then r.used else |r.slots| - r.perSector - 1;
      && 0 < n <= |h| && running.used == n + 2
      && Read(running, 0, |r.slots|) == h[|h| - n..] + [next]
      && restarted.Geometry() && restarted.nextSeq == running.nextSeq && restarted.used == running.used - 1
      && Read(restarted, 0, |r.slots|) == h[|h| - n..]
  {
    hide *;
    RunningLostOne(r, h, proper, record, next, legible);
    var running := AppendOk(proper.(slots := proper.slots[r.head := Garbage]), next, legible);
    OneLostSpans(running, h, running.used - 2, next);
    OneLostReads(running, h, running.used - 2, next);
  }

  lemma RunningLostOne(r: Ring, h: seq<Record>, proper: Ring, record: Record, next: Record, legible: bool)
    requires r.Geometry() && !r.AtSectorStart() && 0 < r.used < |r.slots| && r.head == SlotOf(|h| + 1, |r.slots|)
    requires Holds(proper, h + [record]) && |h| + 3 < UINT32_MAX && r.perSector >= 2
    requires |proper.slots| == |r.slots| && proper.perSector == r.perSector && proper.used == r.used + 1
    requires proper.head == (r.head + 1) % |r.slots| && proper.head != r.head
    requires if proper.AtSectorStart() then 2 * r.perSector <= |r.slots|
             else proper.slots[proper.head].Erased? || legible
    ensures proper.(slots := proper.slots[r.head := Garbage]).Geometry()
    ensures var running := AppendOk(proper.(slots := proper.slots[r.head := Garbage]), next, legible);
      && running.used == (if r.used + 1 < |r.slots| then r.used else |r.slots| - r.perSector - 1) + 2 > 2
      && OneLost(running.slots, h, running.used - 2, next)
      && running.tail == SlotOf(|h| - (running.used - 2) + 1, |running.slots|)
      && running.nextSeq == |h| + 3
  {
    hide AppendOk, SlotOf, Holds, OneLost;
    HoldsBasics(proper, h + [record]);
    if proper.AtSectorStart() {
      LeftSlotOutside(proper, r.head);
    }
    AppendBeside(proper, r.head, next, legible);
    FullOrRoomy(proper, h + [record]);
    AppendHolds(proper, h + [record], next, true);
    var ideal := AppendOk(proper, next, true);
    HoldsBasics(ideal, h + [record] + [next]);
    LosingOne(ideal, h, record, next, r.head);
  }

  lemma OneLostReads(running: Ring, h: seq<Record>, n: nat, next: Record)
    requires running.Geometry() && OneLost(running.slots, h, n, next)
    requires running.used == n + 2 && running.tail == SlotOf(|h| - n + 1, |running.slots|)
    ensures var restarted := Boot(running.slots, running.perSector);
      && Read(running, 0, |running.slots|) == h[|h| - n..] + [next]
      && restarted.Geometry() && restarted.nextSeq == |h| + 3 && restarted.used == n + 1
      && Read(restarted, 0, |running.slots|) == h[|h| - n..]
  {
    hide *;
    var total := |running.slots|;
    OneLostSpans(running, h, n, next);
    OneLostSearch(running.slots, h, n, next);
    OneLostBoot(running.slots, running.perSector, h, n, next);
    var restarted := Boot(running.slots, running.perSector);
    AnchoredSpans(restarted, |h| - n + 1);
    SpanningBasics(restarted, |h| - n + 1);
    SpanningBasics(running, |h| - n + 1);
    ReadSeesSpan(running, |h| - n + 1, 0, total);
    ReadSeesSpan(restarted, |h| - n + 1, 0, total);
    TakeAll(h[|h| - n..] + [next], total);
    TakeAll(h[|h| - n..], total);
  }

  lemma OneLostSpans(running: Ring, h: seq<Record>, n: nat, next: Record)
    requires running.Geometry() && OneLost(running.slots, h, n, next)
    requires running.used == n + 2 && running.tail == SlotOf(|h| - n + 1, |running.slots|)
    ensures 0 < running.perSector <= |running.slots| <= UINT32_MAX && |running.slots| % running.perSector == 0
    ensures 0 < n <= |h| && n + 2 <= |running.slots|
    ensures Spanning(running, |h| - n + 1)
  {
  }
}
