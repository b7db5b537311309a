/** Downloads of a log with holes: what a chunk holds and what its label says, which
    records are sent twice, and what a whole download brings. */
module DownloadHoles {
  import opened SmartTag
  import opened FlashRing
  import opened FlashPlacement
  import opened FlashFifo
  import opened FlashRecovery
  import opened FlashQuery
  import opened FlashHoles
  import opened LogDownload
  import DownloadSession

  // ---- Numbers found ----

  predicate Present(slots: seq<Slot>, q: nat) {
    FindSeq(slots, q, 0) < |slots|
  }

  /** The numbers from `low` up to `high` that are on the medium, in order. */
  function Found(slots: seq<Slot>, low: nat, high: nat): (numbers: seq<nat>)
    decreases high - low
  {
    if low >= high then []
    else (if Present(slots, low) then [low] else []) + Found(slots, low + 1, high)
  }

  lemma {:induction false} FoundMeans(slots: seq<Slot>, low: nat, high: nat)
    ensures forall q: nat :: q in Found(slots, low, high) <==> low <= q < high && Present(slots, q)
    ensures forall k :: 0 <= k < |Found(slots, low, high)| ==> low + k <= Found(slots, low, high)[k] < high
    ensures forall j, k :: 0 <= j < k < |Found(slots, low, high)| ==>
      Found(slots, low, high)[j] < Found(slots, low, high)[k]
    decreases high - low
  {
    hide Present;
    if low < high {
      FoundMeans(slots, low + 1, high);
    }
  }

  /** The records are those with these numbers. */
  ghost predicate Carries(records: seq<Record>, slots: seq<Slot>, numbers: seq<nat>) {
    && |records| == |numbers|
    && forall k :: 0 <= k < |numbers| ==>
         var at := FindSeq(slots, numbers[k], 0);
         at < |slots| && records[k] == slots[at].record
  }

  lemma {:induction false} SearchCarries(slots: seq<Slot>, low: nat, high: nat)
    ensures Carries(Search(slots, low, high), slots, Found(slots, low, high))
    decreases high - low
  {
    hide FindSeq;
    if low < high {
      SearchCarries(slots, low + 1, high);
    }
  }

  lemma CarriesTake(records: seq<Record>, slots: seq<Slot>, numbers: seq<nat>, n: nat)
    requires Carries(records, slots, numbers)
    ensures Carries(Take(records, n), slots, Take(numbers, n))
  {
    hide FindSeq;
  }

  lemma CarriesJoin(records: seq<Record>, more: seq<Record>, slots: seq<Slot>, numbers: seq<nat>, others: seq<nat>)
    requires Carries(records, slots, numbers) && Carries(more, slots, others)
    ensures Carries(records + more, slots, numbers + others)
  {
    hide FindSeq;
  }

  // ---- One chunk ----

  /** The numbers of the records that a run fetches. */
  function Fetched(r: Ring, end: nat, s: Stream): seq<nat> {
    Take(Found(r.slots, s.nextSeq, end), Min(s.remaining, Capacity(s.logId)))
  }

  lemma FetchCarries(r: Ring, base: nat, s: Stream)
    requires Spanning(r, base)
    ensures r.Geometry()
    ensures Carries(Fetch(Available(r), s.nextSeq, Min(s.remaining, Capacity(s.logId))), r.slots,
                    Fetched(r, base + r.used, s))
  {
    hide *;
    SpanningBasics(r, base);
    var want := Min(s.remaining, Capacity(s.logId));
    ReadSeesSpan(r, base, s.nextSeq, want);
    SearchCarries(r.slots, s.nextSeq, base + r.used);
    CarriesTake(Search(r.slots, s.nextSeq, base + r.used), r.slots, Found(r.slots, s.nextSeq, base + r.used), want);
    FetchIsRead(r, s.nextSeq, want);
    FetchedIs(r, base + r.used, s);
  }

  lemma FetchIsRead(r: Ring, start: nat, max: nat)
    requires r.Geometry()
    ensures Fetch(Available(r), start, max) == Read(r, start, max)
  {
  }

  lemma FetchedIs(r: Ring, end: nat, s: Stream)
    ensures Fetched(r, end, s) == Take(Found(r.slots, s.nextSeq, end), Min(s.remaining, Capacity(s.logId)))
  {
  }

  lemma FetchedMeans(r: Ring, end: nat, s: Stream)
    ensures var numbers := Fetched(r, end, s);
      && |numbers| <= s.remaining && |numbers| <= Capacity(s.logId)
      && (forall k :: 0 <= k < |numbers| ==> s.nextSeq + k <= numbers[k] < end && Present(r.slots, numbers[k]))
      && (forall j, k :: 0 <= j < k < |numbers| ==> numbers[j] < numbers[k])
      && (numbers == [] <==> s.remaining == 0 || forall q: nat :: s.nextSeq <= q < end ==> !Present(r.slots, q))
      && (numbers != [] ==> forall q: nat ::
            q in numbers <==> s.nextSeq <= q <= numbers[|numbers| - 1] && Present(r.slots, q))
  {
    hide *;
    var found := Found(r.slots, s.nextSeq, end);
    FoundMeans(r.slots, s.nextSeq, end);
    FetchedIs(r, end, s);
    WantMeans(s);
    PrefixMeans(found, Min(s.remaining, Capacity(s.logId)));
    if found != [] {
      assert found[0] in found;
    }
  }

  lemma WantMeans(s: Stream)
    ensures var want := Min(s.remaining, Capacity(s.logId));
      want <= s.remaining && want <= Capacity(s.logId) && (want == 0 <==> s.remaining == 0)
  {
  }

  lemma PrefixMeans(numbers: seq<nat>, n: nat)
    requires forall j, k :: 0 <= j < k < |numbers| ==> numbers[j] < numbers[k]
    ensures |Take(numbers, n)| <= n && |Take(numbers, n)| <= |numbers|
    ensures Take(numbers, n) == [] <==> n == 0 || numbers == []
    ensures forall k :: 0 <= k < |Take(numbers, n)| ==>
      Take(numbers, n)[k] == numbers[k] && Take(numbers, n)[k] in numbers
    ensures Take(numbers, n) != [] ==>
      forall q: nat :: q in Take(numbers, n) <==> q in numbers && q <= Take(numbers, n)[|Take(numbers, n)| - 1]
  {
  }

  /** No number is missing up to the last one of the chunk. */
  lemma DenseIff(slots: seq<Slot>, low: nat, numbers: seq<nat>)
    requires numbers != [] && forall k :: 0 <= k < |numbers| ==> low + k <= numbers[k]
    requires forall j, k :: 0 <= j < k < |numbers| ==> numbers[j] < numbers[k]
    requires forall q: nat :: q in numbers <==> low <= q <= numbers[|numbers| - 1] && Present(slots, q)
    ensures numbers[|numbers| - 1] < low + |numbers|
       <==> forall q: nat :: low <= q <= numbers[|numbers| - 1] ==> Present(slots, q)
  {
    hide Present;
    var last := numbers[|numbers| - 1];
    if last < low + |numbers| {
      CountsUp(numbers, low);
      forall q: nat | low <= q <= last ensures Present(slots, q) {
        assert numbers[q - low] == q;
      }
    } else if forall q: nat :: low <= q <= last ==> Present(slots, q) {
      StepsByOne(numbers, low, last);
      assert false;
    }
  }

  lemma {:induction false} CountsUp(numbers: seq<nat>, low: nat)
    requires numbers != [] && numbers[|numbers| - 1] < low + |numbers|
    requires forall k :: 0 <= k < |numbers| ==> low + k <= numbers[k]
    requires forall j, k :: 0 <= j < k < |numbers| ==> numbers[j] < numbers[k]
    ensures forall k :: 0 <= k < |numbers| ==> numbers[k] == low + k
  {
    if |numbers| > 1 {
      CountsUp(numbers[..|numbers| - 1], low);
    }
  }

  lemma NextToLast(numbers: seq<nat>, k: nat)
    requires k < |numbers| && numbers[k] + 1 == numbers[|numbers| - 1]
    requires forall i, j :: 0 <= i < j < |numbers| ==> numbers[i] < numbers[j]
    ensures k == |numbers| - 2
  {
    assert numbers[k] < numbers[k + 1];
  }

  /** Numbers in order that leave none out from `low` to `last` are as many. */
  lemma {:induction false} StepsByOne(numbers: seq<nat>, low: nat, last: nat)
    requires numbers != [] && numbers[|numbers| - 1] == last
    requires forall k :: 0 <= k < |numbers| ==> low + k <= numbers[k]
    requires forall j, k :: 0 <= j < k < |numbers| ==> numbers[j] < numbers[k]
    requires forall q: nat :: low <= q <= last ==> q in numbers
    ensures last == low + |numbers| - 1
  {
    if last > low {
      var before := numbers[..|numbers| - 1];
      assert last - 1 in numbers;
      var k :| 0 <= k < |numbers| && numbers[k] == last - 1;
      NextToLast(numbers, k);
      assert before[k] == last - 1;
      forall q: nat | low <= q <= last - 1 ensures q in before {
        assert q in numbers;
      }
      StepsByOne(before, low, last - 1);
    }
  }

  lemma CarriesSome(records: seq<Record>, slots: seq<Slot>, numbers: seq<nat>)
    requires Carries(records, slots, numbers)
    ensures |records| == |numbers| && (records == [] <==> numbers == [])
  {
  }

  /** What a delivered chunk does to the stream, and what is in it. */
  lemma WorkOnSpan(r: Ring, base: nat, s: Stream)
    requires Spanning(r, base) && base + r.used <= UINT32_MAX && s.active
    requires Fetched(r, base + r.used, s) != []
    ensures r.Geometry()
    ensures var numbers := Fetched(r, base + r.used, s);
      var (s', chunk) := Work(s, Available(r), true, Sent);
      && chunk.Some? && Carries(chunk.value.records, r.slots, numbers)
      && chunk.value.firstSeq == s.nextSeq && chunk.value.last == (s.remaining == |numbers|)
      && |numbers| <= s.remaining && s.nextSeq + |numbers| <= base + r.used
      && s' == s.(active := s.remaining != |numbers|, chunkIndex := Add16(s.chunkIndex, 1),
                  nextSeq := s.nextSeq + |numbers|, remaining := s.remaining - |numbers|)
  {
    hide Spanning, Fetched, Fetch, Carries, Capacity, Add16, Present;
    SpanningBasics(r, base);
    hide Ring.Geometry;
    FetchCarries(r, base, s);
    CarriesSome(Fetch(Available(r), s.nextSeq, Min(s.remaining, Capacity(s.logId))), r.slots,
                Fetched(r, base + r.used, s));
    FetchedMeans(r, base + r.used, s);
  }

  /** The label of a chunk is the number of its first record if and only if the
      record the stream asks for is there: neither dropped nor a hole. */
  lemma LabelIsRightIffPresent(r: Ring, base: nat, s: Stream)
    requires Spanning(r, base) && base + r.used <= UINT32_MAX && s.active
    requires Fetched(r, base + r.used, s) != []
    ensures r.Geometry()
    ensures var numbers, chunk := Fetched(r, base + r.used, s), Work(s, Available(r), true, Sent).1;
      && chunk.Some? && Carries(chunk.value.records, r.slots, numbers)
      && (chunk.value.firstSeq == numbers[0] <==> Present(r.slots, s.nextSeq))
  {
    hide Spanning, Fetched, Carries, Work, Present;
    WorkOnSpan(r, base, s);
    FetchedMeans(r, base + r.used, s);
    if Present(r.slots, s.nextSeq) {
      var numbers := Fetched(r, base + r.used, s);
      assert s.nextSeq in numbers;
      var k :| 0 <= k < |numbers| && numbers[k] == s.nextSeq;
    }
  }

  /** The next chunk begins with a record of this one, which is sent twice, if and
      only if a number is missing between what the stream asked for and the last
      record of this chunk: if a dropped record or a hole was passed over. */
  lemma RepeatsIffHole(r: Ring, base: nat, s: Stream)
    requires Spanning(r, base) && base + r.used <= UINT32_MAX && s.active
    requires Fetched(r, base + r.used, s) != []
    ensures r.Geometry()
    ensures var numbers, s' := Fetched(r, base + r.used, s), Work(s, Available(r), true, Sent).0;
      var last := numbers[|numbers| - 1];
      && (s'.nextSeq > last <==> forall q: nat :: s.nextSeq <= q <= last ==> Present(r.slots, q))
      && (s'.active ==>
            var next := Fetched(r, base + r.used, s');
            (next != [] && next[0] <= last) <==> !(forall q: nat :: s.nextSeq <= q <= last ==> Present(r.slots, q)))
  {
    hide Spanning, Fetched, Carries, Work, Present, Add16;
    WorkOnSpan(r, base, s);
    var numbers, s' := Fetched(r, base + r.used, s), Work(s, Available(r), true, Sent).0;
    var last := numbers[|numbers| - 1];
    FetchedMeans(r, base + r.used, s);
    DenseIff(r.slots, s.nextSeq, numbers);
    if s'.active {
      FetchedMeans(r, base + r.used, s');
      var next := Fetched(r, base + r.used, s');
      if s'.nextSeq <= last {
        assert Present(r.slots, last) && last < base + r.used;
        if next[0] > last {
          LeastFirst(next, last);
        }
      }
    }
  }

  lemma LeastFirst(numbers: seq<nat>, q: nat)
    requires numbers != [] && numbers[0] > q
    requires forall j, k :: 0 <= j < k < |numbers| ==> numbers[j] < numbers[k]
    ensures q !in numbers
  {
  }

  /** In a log that holds a history without a gap the numbers present are those
      from the oldest record to the newest: there a label is wrong, and a record
      sent twice, only if the stream is below the oldest record. */
  lemma GaplessHasNoHole(r: Ring, h: seq<Record>)
    requires Gapless(r, h) && r.used > 0
    ensures r.used <= |h| && Spanning(r, |h| - r.used + 1)
    ensures forall q: nat :: Present(r.slots, q) <==> |h| - r.used < q <= |h|
  {
    LossKeepsSpan(r, h, r.slots);
    forall q: nat ensures Present(r.slots, q) <==> |h| - r.used < q <= |h| {
      FindKept(r, h, q);
    }
  }

  // ---- A whole download ----

  function Runs(r: Ring, n: nat): (turns: seq<DownloadSession.Turn>)
    ensures |turns| == n && forall k :: 0 <= k < n ==> turns[k] == DownloadSession.Turn(Available(r), true, Sent)
  {
    seq(n, _ => DownloadSession.Turn(Available(r), true, Sent))
  }

  /** The stream and what it has sent after n runs, all of them delivered. */
  function After(t: DownloadSession.Tally, r: Ring, n: nat): DownloadSession.Tally
    requires r.Geometry()
  {
    if n == 0 then t else DownloadSession.TakeTurn(After(t, r, n - 1), DownloadSession.Turn(Available(r), true, Sent))
  }

  /** The numbers of the records that these runs send. */
  function Sends(t: DownloadSession.Tally, r: Ring, end: nat, n: nat): seq<nat>
    requires r.Geometry()
  {
    if n == 0 then []
    else
      var before := After(t, r, n - 1).stream;
      Sends(t, r, end, n - 1) + if before.active then Fetched(r, end, before) else []
  }

  /** A download on its way: it has sent just what is present from `start` up to a
      border, which is at least as far as its position. */
  ghost predicate Underway(t: DownloadSession.Tally, r: Ring, end: nat, start: nat, asked: nat, numbers: seq<nat>,
                           border: nat) {
    && t.charged == 0 && |numbers| <= asked
    && t.stream.nextSeq == start + |numbers| && t.stream.remaining == asked - |numbers|
    && Min(start + |numbers|, end) <= border <= end
    && (t.stream.active || |numbers| == asked || border == end)
    && (forall q: nat :: q in numbers <==> start <= q < border && Present(r.slots, q))
    && Carries(DownloadSession.Payload(t.sent), r.slots, numbers)
  }

  /** A run that sends a chunk. */
  lemma ChunkUnderway(t: DownloadSession.Tally, r: Ring, base: nat, start: nat, asked: nat, numbers: seq<nat>,
                      border: nat)
    returns (border': nat)
    requires Spanning(r, base) && base + r.used <= UINT32_MAX
    requires Underway(t, r, base + r.used, start, asked, numbers, border) && t.stream.active
    requires Fetched(r, base + r.used, t.stream) != []
    ensures r.Geometry()
    ensures Underway(DownloadSession.TakeTurn(t, DownloadSession.Turn(Available(r), true, Sent)), r, base + r.used,
                     start, asked,
                     numbers + Fetched(r, base + r.used, t.stream), border')
  {
    hide Spanning, Fetched, Carries, Work, Present, DownloadSession.Payload, Add16, Ring.Geometry;
    var end, more := base + r.used, Fetched(r, base + r.used, t.stream);
    WorkOnSpan(r, base, t.stream);
    FetchedMeans(r, end, t.stream);
    var last := more[|more| - 1];
    border' := if last + 1 > border then last + 1 else border;
    var chunk := Work(t.stream, Available(r), true, Sent).1.value;
    DownloadSession.PayloadPush(t.sent, chunk);
    CarriesJoin(DownloadSession.Payload(t.sent), chunk.records, r.slots, numbers, more);
    forall q: nat
      ensures q in numbers + more <==> start <= q < border' && Present(r.slots, q)
    {
    }
  }

  /** A run that finds nothing, or comes after the end. */
  lemma IdleUnderway(t: DownloadSession.Tally, r: Ring, base: nat, start: nat, asked: nat, numbers: seq<nat>,
                     border: nat)
    returns (border': nat)
    requires Spanning(r, base) && base + r.used <= UINT32_MAX
    requires Underway(t, r, base + r.used, start, asked, numbers, border)
    requires t.stream.active ==> Fetched(r, base + r.used, t.stream) == []
    ensures r.Geometry()
    ensures Underway(DownloadSession.TakeTurn(t, DownloadSession.Turn(Available(r), true, Sent)), r, base + r.used,
                     start, asked,
                     numbers, border')
  {
    hide Spanning, Fetched, Carries, Present, Fetch, DownloadSession.Payload;
    SpanningBasics(r, base);
    hide Ring.Geometry;
    border' := border;
    if t.stream.active {
      FetchCarries(r, base, t.stream);
      CarriesSome(Fetch(Available(r), t.stream.nextSeq, Min(t.stream.remaining, Capacity(t.stream.logId))), r.slots,
                  Fetched(r, base + r.used, t.stream));
      FetchedMeans(r, base + r.used, t.stream);
      border' := if t.stream.remaining == 0 then border else base + r.used;
      var t' := DownloadSession.TakeTurn(t, DownloadSession.Turn(Available(r), true, Sent));
      DownloadSession.PayloadPush(t.sent, t'.sent[|t.sent|]);
      assert DownloadSession.Payload(t.sent) + [] == DownloadSession.Payload(t.sent);
    }
  }

  ghost predicate Started(t: DownloadSession.Tally, start: nat, asked: nat) {
    t.stream.active && t.stream.nextSeq == start && t.stream.remaining == asked && t.sent == [] && t.charged == 0
  }

  lemma {:induction false} StaysUnderway(t: DownloadSession.Tally, r: Ring, base: nat, start: nat, asked: nat, n: nat)
    returns (border: nat)
    requires Spanning(r, base) && base + r.used <= UINT32_MAX && Started(t, start, asked)
    ensures r.Geometry()
    ensures Underway(After(t, r, n), r, base + r.used, start, asked, Sends(t, r, base + r.used, n), border)
  {
    hide Spanning, Fetched, Carries, Present, Underway, DownloadSession.TakeTurn;
    SpanningBasics(r, base);
    if n == 0 {
      border := StartsUnderway(t, r, base + r.used, start, asked);
    } else {
      var before := StaysUnderway(t, r, base, start, asked, n - 1);
      var t0, numbers := After(t, r, n - 1), Sends(t, r, base + r.used, n - 1);
      if t0.stream.active && Fetched(r, base + r.used, t0.stream) != [] {
        border := ChunkUnderway(t0, r, base, start, asked, numbers, before);
      } else {
        border := IdleUnderway(t0, r, base, start, asked, numbers, before);
        assert numbers + [] == numbers;
      }
    }
  }

  lemma StartsUnderway(t: DownloadSession.Tally, r: Ring, end: nat, start: nat, asked: nat) returns (border: nat)
    requires Started(t, start, asked)
    ensures Underway(t, r, end, start, asked, [], border)
  {
    border := Min(start, end);
  }

  /** A download of a log that does not change, with every notification taken, that
      asks for at least as many records as there are numbers from its start to the
      end of the span, brings just the records that are there, holes or not; those
      behind a hole more than once. */
  lemma WholeDownload(t: DownloadSession.Tally, r: Ring, base: nat, start: nat, asked: nat, n: nat)
    requires Spanning(r, base) && base + r.used <= UINT32_MAX && Started(t, start, asked)
    requires start + asked >= base + r.used
    ensures r.Geometry()
    ensures !After(t, r, n).stream.active ==>
      var numbers := Sends(t, r, base + r.used, n);
      && Carries(DownloadSession.Payload(After(t, r, n).sent), r.slots, numbers)
      && forall q: nat :: q in numbers <==> start <= q < base + r.used && Present(r.slots, q)
  {
    var border := StaysUnderway(t, r, base, start, asked, n);
    hide Spanning, Fetched, Carries, Present, Sends, After;
  }

  /** After a restart, the default request from the oldest record on - as many
      records as the log counts - brings every record on the medium if and only if
      there is no hole in the numbers; otherwise the newest record is missing. */
  lemma RestartedDownload(slots: seq<Slot>, perSector: nat, low: nat, logId: nat, n: nat)
    requires 0 < perSector <= |slots| <= UINT32_MAX && |slots| % perSector == 0
    requires Windowed(slots, low) && CountValid(slots, 0, |slots|) > 0
    ensures Boot(slots, perSector).Geometry() && slots[Boot(slots, perSector).tail].Valid?
    ensures var r := Boot(slots, perSector);
      var oldest := slots[r.tail].seqno;
      var t := DownloadSession.Tally(StartStream(logId, oldest, 0, GetInfo(r).recordCount), [], 0);
      !After(t, r, n).stream.active ==>
        var numbers := Sends(t, r, oldest + r.used, n);
        && Carries(DownloadSession.Payload(After(t, r, n).sent), slots, numbers)
        && (forall q: nat :: q in numbers <==> q < oldest + r.used && Present(slots, q))
        && ((forall q: nat :: Present(slots, q) ==> q in numbers) <==> oldest + r.used == r.nextSeq)
  {
    hide CountValid, Boot, Search, SlotOf, FindSeq, Carries, Present, After, Sends, Windowed;
    BootIsAnchored(slots, perSector, low);
    RestartedCursors(slots, perSector, low);
    var r := Boot(slots, perSector);
    var oldest := r.slots[r.tail].seqno;
    AnchoredSpans(r, oldest);
    SpanningBasics(r, oldest);
    PresentRange(slots, oldest, r.nextSeq);
    NewestPresent(slots, oldest, r.nextSeq);
    NumbersFit(slots, perSector, low);
    var t := DownloadSession.Tally(StartStream(logId, oldest, 0, GetInfo(r).recordCount), [], 0);
    WholeDownload(t, r, oldest, oldest, r.used, n);
  }

  lemma NumbersFit(slots: seq<Slot>, perSector: nat, low: nat)
    requires 0 < perSector <= |slots| <= UINT32_MAX && |slots| % perSector == 0
    requires Windowed(slots, low) && CountValid(slots, 0, |slots|) > 0
    ensures Boot(slots, perSector).nextSeq <= UINT32_MAX
  {
    BootIsAnchored(slots, perSector, low);
    hide Boot, CountValid, SlotOf;
  }

  /** Every record on the medium is numbered within these bounds. */
  lemma PresentRange(slots: seq<Slot>, low: nat, high: nat)
    requires forall i :: 0 <= i < |slots| && slots[i].Valid? ==> low <= slots[i].seqno < high
    ensures forall q: nat :: Present(slots, q) ==> low <= q < high
  {
  }

  lemma NewestPresent(slots: seq<Slot>, low: nat, high: nat)
    requires Windowed(slots, low) && high <= low + |slots|
    requires exists i :: 0 <= i < |slots| && slots[i].Valid? && slots[i].seqno + 1 == high
    ensures Present(slots, high - 1)
  {
    FindWindowed(slots, low, high - 1);
  }

  // ---- A small log ----

  /** A power cut that clears one slot of a full log of four, and the restart. */
  lemma CutLeavesHole(a: Record, b: Record, c: Record, d: Record, record: Record)
    ensures var full := Ring([Slot.Valid(1, a), Slot.Valid(2, b), Slot.Valid(3, c), Slot.Valid(4, d)], 2, 0, 0, 4, 5);
      && full.Geometry()
      && Perform(full, CutInErase(record, i => if i == 1 then Cleared else Intact)) == LogWithHole(a, c, d)
  {
    var full := Ring([Slot.Valid(1, a), Slot.Valid(2, b), Slot.Valid(3, c), Slot.Valid(4, d)], 2, 0, 0, 4, 5);
    var effect := i => if i == 1 then Cleared else Intact;
    var slots := Append(full, record, EraseFailed(effect), WriteFailed(Untouched)).0.slots;
    assert slots == LogWithHole(a, c, d).slots;
    BootsWithHole(a, c, d);
  }

  function LogWithHole(a: Record, c: Record, d: Record): (r: Ring)
    ensures r.Geometry()
  {
    Ring([Slot.Valid(1, a), Erased, Slot.Valid(3, c), Slot.Valid(4, d)], 2, 0, 0, 3, 5)
  }

  lemma BootsWithHole(a: Record, c: Record, d: Record)
    ensures Boot(LogWithHole(a, c, d).slots, 2) == LogWithHole(a, c, d)
  {
    var slots := LogWithHole(a, c, d).slots;
    assert ScanTo(slots, 1) == Scan(1, 1, 0, 1, 0);
    assert ScanTo(slots, 2) == Scan(1, 1, 0, 1, 0);
    assert ScanTo(slots, 3) == Scan(2, 3, 2, 1, 0);
    assert ScanTo(slots, 4) == Scan(3, 4, 3, 1, 0);
  }

  /** The default download of the sensor log from its oldest record on sends records
      1 and 3 labelled 1, so that a client takes record 3 for record 2, then record
      3 again as the last one, and never record 4. */
  lemma HoleRepeatsAndHides(a: Record, c: Record, d: Record)
    ensures var r := LogWithHole(a, c, d);
      var t := DownloadSession.Tally(StartStream(SENSOR_LOG, GetInfo(r).oldestSeq, 0, GetInfo(r).recordCount), [], 0);
      After(t, r, 2) == DownloadSession.Tally(Stream(false, SENSOR_LOG, 2, 4, 0),
        [Chunk(0, SENSOR_LOG, 17, false, 1, [a, c]), Chunk(1, SENSOR_LOG, 17, true, 3, [c])], 0)
  {
    var r := LogWithHole(a, c, d);
    var t := DownloadSession.Tally(StartStream(SENSOR_LOG, 1, 0, 3), [], 0);
    assert Read(r, 1, 3) == [a, c] by {
      ReadEnd(r, 1, 3, 1);
      ReadHit(r, 1, 2, 2);
      ReadMiss(r, 1, 1, 2);
      ReadHit(r, 1, 0, 3);
    }
    assert Read(r, 3, 1) == [c] by {
      ReadEnd(r, 3, 3, 0);
      ReadHit(r, 3, 2, 1);
    }
    hide Read;
    assert Work(t.stream, Available(r), true, Sent)
        == (Stream(true, SENSOR_LOG, 1, 3, 1), Some(Chunk(0, SENSOR_LOG, 17, false, 1, [a, c])));
    assert Work(Stream(true, SENSOR_LOG, 1, 3, 1), Available(r), true, Sent)
        == (Stream(false, SENSOR_LOG, 2, 4, 0), Some(Chunk(1, SENSOR_LOG, 17, true, 3, [c])));
    hide Work;
    assert After(t, r, 0) == t;
    var t1 := After(t, r, 1);
    assert t1 == DownloadSession.Tally(Stream(true, SENSOR_LOG, 1, 3, 1), [Chunk(0, SENSOR_LOG, 17, false, 1, [a, c])],
                                       0);
  }
}
