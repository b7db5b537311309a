/** Whole downloads: what a client receives over any run of work items, radio
    answers and appends to the log in between. */
module DownloadSession {
  import opened SmartTag
  import opened FlashRing
  import opened FlashFifo
  import opened FlashQuery
  import opened LogDownload

  // ---- Whatever the log and the radio do ----

  /** One run of the work item: the log as it is then, and the radio's answer. */
  datatype Turn = Turn(source: Source, subscribed: bool, notify: Notify)

  /** The stream, what has been delivered, and how many records were charged to
      notifications that were not delivered. */
  datatype Tally = Tally(stream: Stream, sent: seq<Chunk>, charged: nat)

  function Payload(chunks: seq<Chunk>): seq<Record> {
    if chunks == [] then [] else Payload(chunks[..|chunks| - 1]) + chunks[|chunks| - 1].records
  }

  function TakeTurn(t: Tally, turn: Turn): Tally
    requires turn.source.Available? ==> turn.source.ring.Geometry()
  {
    var (stream, chunk) := Work(t.stream, turn.source, turn.subscribed, turn.notify);
    if chunk == None then t.(stream := stream)
    else if turn.notify == Sent then Tally(stream, t.sent + [chunk.value], t.charged)
    else Tally(stream, t.sent, t.charged + |chunk.value.records|)
  }

  ghost predicate Sound(turns: seq<Turn>) {
    forall k :: 0 <= k < |turns| && turns[k].source.Available? ==> turns[k].source.ring.Geometry()
  }

  function TakeTurns(t: Tally, turns: seq<Turn>): Tally
    requires Sound(turns)
  {
    if turns == [] then t else TakeTurn(TakeTurns(t, turns[..|turns| - 1]), turns[|turns| - 1])
  }

  lemma PayloadPush(chunks: seq<Chunk>, chunk: Chunk)
    ensures Payload(chunks + [chunk]) == Payload(chunks) + chunk.records
  {
    assert (chunks + [chunk])[..|chunks|] == chunks;
  }

  /** What one run keeps: every record asked for is delivered, charged to a failed
      notification, or still owed; and a run that does not end the stream uses up
      at least one of those owed. */
  lemma TurnConserves(t: Tally, turn: Turn)
    requires turn.source.Available? ==> turn.source.ring.Geometry()
    ensures var t' := TakeTurn(t, turn);
      && |Payload(t'.sent)| + t'.charged + t'.stream.remaining == |Payload(t.sent)| + t.charged + t.stream.remaining
      && (t'.stream.active ==> t.stream.active && t'.stream.remaining < t.stream.remaining)
  {
    hide Payload, Fetch, Ring.Geometry;
    var chunk := Work(t.stream, turn.source, turn.subscribed, turn.notify).1;
    if chunk.Some? {
      PayloadPush(t.sent, chunk.value);
    }
  }

  /** Conservation and termination: whatever the log holds at each run and however
      the radio answers, delivered + charged + remaining is what was asked for,
      and after one run more than that the stream has ended. */
  lemma {:induction false} DownloadConserves(stream: Stream, turns: seq<Turn>)
    requires Sound(turns)
    ensures var t := TakeTurns(Tally(stream, [], 0), turns);
      && |Payload(t.sent)| + t.charged + t.stream.remaining == stream.remaining
      && (t.stream.active ==> t.stream.remaining + |turns| <= stream.remaining)
    ensures |turns| > stream.remaining ==> !TakeTurns(Tally(stream, [], 0), turns).stream.active
  {
    if turns != [] {
      DownloadConserves(stream, turns[..|turns| - 1]);
      TurnConserves(TakeTurns(Tally(stream, [], 0), turns[..|turns| - 1]), turns[|turns| - 1]);
    }
  }

  // ---- Over a log that holds a history ----

  datatype Event = Logged(record: Record, legible: bool) | Ran(subscribed: bool, notify: Notify)

  /** `seen` is the length of the history when the active stream last ran. */
  datatype Session = Session(tally: Tally, log: Ring, history: seq<Record>, seen: nat)

  function Next(s: Session, event: Event): (s': Session)
    requires s.log.Geometry()
    ensures s'.log.Geometry()
  {
    match event
    case Logged(record, legible) => s.(log := AppendOk(s.log, record, legible), history := s.history + [record])
    case Ran(subscribed, notify) =>
      s.(tally := TakeTurn(s.tally, Turn(Available(s.log), subscribed, notify)),
         seen := if s.tally.stream.active then |s.history| else s.seen)
  }

  function RunAll(s: Session, events: seq<Event>): (s': Session)
    requires s.log.Geometry()
    ensures s'.log.Geometry()
  {
    if events == [] then s else Next(RunAll(s, events[..|events| - 1]), events[|events| - 1])
  }

  /** No record that the stream has still to deliver has been dropped. */
  ghost predicate InWindow(s: Session) {
    s.tally.stream.active ==> |s.history| < s.tally.stream.nextSeq + s.log.used
  }

  /** The device does not program illegibly over what a torn write has left. */
  ghost predicate Legible(s: Session, event: Event)
    requires s.log.Geometry()
  {
    event.Logged? ==> s.log.AtSectorStart() || s.log.slots[s.log.head].Erased? || event.legible
  }

  /** So it is over a whole run. */
  ghost predicate Undisturbed(s: Session, events: seq<Event>)
    requires s.log.Geometry()
  {
    && (forall k :: 0 <= k <= |events| ==> InWindow(RunAll(s, events[..k])))
    && (forall k :: 0 <= k < |events| ==> Legible(RunAll(s, events[..k]), events[k]))
  }

  /** The chunks number the records from `start` on without gap or repeat, count
      themselves from 0, and none but the last is marked last. */
  ghost predicate WellNumbered(chunks: seq<Chunk>, start: nat, logId: nat) {
    forall k :: 0 <= k < |chunks| ==>
      && chunks[k].index == k
      && chunks[k].logId == logId && chunks[k].recordSize == RecordSize(logId)
      && chunks[k].firstSeq == start + |Payload(chunks[..k])|
      && (chunks[k].last ==> k == |chunks| - 1)
      && (chunks[k].records == [] ==> chunks[k].last)
      && |chunks[k].records| * chunks[k].recordSize <= CHUNK_PAYLOAD_MAX
  }

  /** Every record asked for is accounted for, and those that were delivered are
      the ones from `start` on. */
  ghost predicate Accounted(t: Tally, h: seq<Record>, start: nat, asked: nat) {
    var n := |Payload(t.sent)|;
    && n + t.charged + t.stream.remaining == asked
    && t.stream.nextSeq == start + n
    && (n > 0 ==> start >= 1 && start - 1 + n <= |h| && Payload(t.sent) == h[start - 1..start - 1 + n])
  }

  ghost predicate Framed(t: Tally, start: nat) {
    && WellNumbered(t.sent, start, t.stream.logId)
    && |t.sent| <= |Payload(t.sent)| + 1
    && (t.stream.active ==> t.stream.chunkIndex == |t.sent| <= |Payload(t.sent)| && NoneLast(t.sent))
  }

  ghost predicate NoneLast(chunks: seq<Chunk>) {
    forall k :: 0 <= k < |chunks| ==> !chunks[k].last
  }

  ghost predicate Delivering(s: Session, start: nat, asked: nat) {
    && Holds(s.log, s.history)
    && Accounted(s.tally, s.history, start, asked)
    && Framed(s.tally, start)
  }

  lemma LoggedKeeps(s: Session, record: Record, legible: bool, start: nat, asked: nat)
    requires Delivering(s, start, asked) && |s.history| + 2 < UINT32_MAX && Legible(s, Logged(record, legible))
    ensures Delivering(Next(s, Logged(record, legible)), start, asked)
  {
    hide Payload, WellNumbered, AppendOk;
    AppendHolds(s.log, s.history, record, legible);
  }

  /** The records that one run fetches. */
  function Wanted(s: Session): nat {
    Min(s.tally.stream.remaining, Capacity(s.tally.stream.logId))
  }

  lemma FetchIsSlice(s: Session)
    requires Holds(s.log, s.history) && s.tally.stream.active && InWindow(s)
    ensures var from := s.tally.stream.nextSeq;
      Fetch(Available(s.log), from, Wanted(s)) == if from > |s.history| then []
          else Take(s.history[from - 1..], Wanted(s))
    ensures s.tally.stream.nextSeq >= 1
  {
    ReadIsSlice(s.log, s.history, s.tally.stream.nextSeq, Wanted(s));
  }

  lemma NumberedPush(chunks: seq<Chunk>, start: nat, logId: nat, chunk: Chunk)
    requires WellNumbered(chunks, start, logId) && NoneLast(chunks)
    requires chunk.index == |chunks| && chunk.logId == logId && chunk.recordSize == RecordSize(logId)
    requires chunk.firstSeq == start + |Payload(chunks)| && (chunk.records == [] ==> chunk.last)
    requires |chunk.records| <= Capacity(logId)
    ensures WellNumbered(chunks + [chunk], start, logId)
  {
    hide Payload;
    var more := chunks + [chunk];
    assert more[..|chunks|] == chunks;
    assert forall k :: 0 <= k < |chunks| ==> more[..k] == chunks[..k];
    assert |chunk.records| * chunk.recordSize <= CHUNK_PAYLOAD_MAX;
  }

  /** What a delivering run changes. */
  lemma DeliveredStep(s: Session)
    requires s.log.Geometry() && s.tally.stream.active
    requires Fetch(Available(s.log), s.tally.stream.nextSeq, Wanted(s)) != []
    ensures var stream := s.tally.stream;
      var got := Fetch(Available(s.log), stream.nextSeq, Wanted(s));
      var left := stream.remaining - |got|;
      |got| <= stream.remaining && |got| <= Capacity(stream.logId) &&
      Next(s, Ran(true, Sent)) ==
        s.(tally := Tally(Stream(left != 0, stream.logId, Add16(stream.chunkIndex, 1), Add32(stream.nextSeq, |got|),
                                 left),
                          s.tally.sent + [Chunk(stream.chunkIndex, stream.logId, RecordSize(stream.logId), left == 0,
                                                stream.nextSeq, got)],
                          s.tally.charged),
           seen := |s.history|)
  {
    hide Ring.Geometry, Fetch, Capacity, Add16, Add32;
  }

  /** A delivered chunk is accounted for ... */
  lemma AccountedPush(t: Tally, t': Tally, h: seq<Record>, start: nat, asked: nat, chunk: Chunk, max: nat)
    requires Accounted(t, h, start, asked) && t.stream.nextSeq >= 1 && t.stream.nextSeq <= |h|
    requires t'.sent == t.sent + [chunk] && t'.charged == t.charged
    requires t'.stream.remaining + |chunk.records| == t.stream.remaining
    requires t'.stream.nextSeq == t.stream.nextSeq + |chunk.records|
    requires chunk.records == Take(h[t.stream.nextSeq - 1..], max)
    ensures Accounted(t', h, start, asked)
  {
    hide Payload, Take;
    PayloadPush(t.sent, chunk);
    if start >= 1 {
      SliceJoin(h, start, |Payload(t.sent)|, chunk.records, max);
    }
  }

  /** ... and properly framed. */
  lemma FramedPush(t: Tally, t': Tally, start: nat, chunk: Chunk)
    requires Framed(t, start) && t.stream.active && t'.sent == t.sent + [chunk] && t'.stream.logId == t.stream.logId
    requires chunk.index == t.stream.chunkIndex && chunk.logId == t.stream.logId
        && chunk.recordSize == RecordSize(chunk.logId)
    requires chunk.firstSeq == start + |Payload(t.sent)| && (chunk.records == [] ==> chunk.last)
    requires |chunk.records| <= Capacity(chunk.logId)
    requires t'.stream.active ==> !chunk.last && t'.stream.chunkIndex == t.stream.chunkIndex + 1
    ensures Framed(t', start)
  {
    hide Payload, WellNumbered, Capacity, RecordSize;
    PayloadPush(t.sent, chunk);
    NumberedPush(t.sent, start, t.stream.logId, chunk);
  }

  /** What it fetches is a slice of the history, and no counter wraps. */
  lemma FetchedFits(s: Session, start: nat, asked: nat)
    requires Delivering(s, start, asked) && InWindow(s) && asked < 0x1_0000 && s.tally.stream.active
    requires Fetch(Available(s.log), s.tally.stream.nextSeq, Wanted(s)) != []
    ensures var stream := s.tally.stream;
      var got := Fetch(Available(s.log), stream.nextSeq, Wanted(s));
      && 1 <= stream.nextSeq <= |s.history|
      && got == Take(s.history[stream.nextSeq - 1..], Wanted(s))
      && Add32(stream.nextSeq, |got|) == stream.nextSeq + |got|
      && Add16(stream.chunkIndex, 1) == stream.chunkIndex + 1
      && stream.nextSeq == start + |Payload(s.tally.sent)|
  {
    hide Fetch, Holds, Payload, WellNumbered, InWindow, Take, Ring.Geometry, Capacity;
    FetchIsSlice(s);
    HoldsBasics(s.log, s.history);
    TakeBound(s.history, s.tally.stream.nextSeq - 1, Wanted(s));
  }

  /** A run that delivers a chunk with records. */
  lemma DeliveredKeeps(s: Session, start: nat, asked: nat)
    requires Delivering(s, start, asked) && InWindow(s) && asked < 0x1_0000 && s.tally.stream.active
    requires Fetch(Available(s.log), s.tally.stream.nextSeq, Wanted(s)) != []
    ensures Delivering(Next(s, Ran(true, Sent)), start, asked)
  {
    hide Fetch, Holds, Payload, WellNumbered, Next, Accounted, Framed, Add16, Add32, InWindow, TakeTurn, Work, Wanted,
        Take, RecordSize, Capacity;
    HoldsBasics(s.log, s.history);
    hide Ring.Geometry;
    var stream := s.tally.stream;
    var got := Fetch(Available(s.log), stream.nextSeq, Wanted(s));
    var chunk := Chunk(stream.chunkIndex, stream.logId, RecordSize(stream.logId), stream.remaining == |got|,
                       stream.nextSeq, got);
    DeliveredStep(s);
    FetchedFits(s, start, asked);
    AccountedPush(s.tally, Next(s, Ran(true, Sent)).tally, s.history, start, asked, chunk, Wanted(s));
    FramedPush(s.tally, Next(s, Ran(true, Sent)).tally, start, chunk);
  }

  lemma TakeBound(h: seq<Record>, from: nat, max: nat)
    requires from <= |h|
    ensures from + |Take(h[from..], max)| <= |h|
  {
  }

  lemma SliceJoin(h: seq<Record>, start: nat, n: nat, got: seq<Record>, max: nat)
    requires start >= 1 && start + n <= |h| && got == Take(h[start + n - 1..], max)
    ensures start - 1 + n + |got| <= |h|
    ensures h[start - 1..start - 1 + n] + got == h[start - 1..start - 1 + n + |got|]
  {
  }

  /** A run that fetches records but does not get them to the client. */
  lemma UndeliveredKeeps(s: Session, notify: Notify, start: nat, asked: nat)
    requires Delivering(s, start, asked) && s.tally.stream.active && notify != Sent
    ensures Delivering(Next(s, Ran(true, notify)), start, asked)
  {
    TurnConserves(s.tally, Turn(Available(s.log), true, notify));
    hide Fetch, Holds, Payload, WellNumbered;
  }

  /** What a terminating run changes. */
  lemma TerminatorStep(s: Session)
    requires s.log.Geometry() && s.tally.stream.active
    requires Fetch(Available(s.log), s.tally.stream.nextSeq, Wanted(s)) == []
    ensures var stream := s.tally.stream;
      Next(s, Ran(true, Sent)) ==
        s.(tally := Tally(stream.(active := false),
                          s.tally.sent + [Chunk(stream.chunkIndex, stream.logId, RecordSize(stream.logId), true,
                                                stream.nextSeq, [])],
                          s.tally.charged),
           seen := |s.history|)
  {
    hide Ring.Geometry, Fetch, Capacity, Add16, Add32;
  }

  /** A run that finds nothing left and sends the empty last chunk. */
  lemma TerminatorKeeps(s: Session, start: nat, asked: nat)
    requires Delivering(s, start, asked) && s.tally.stream.active
    requires Fetch(Available(s.log), s.tally.stream.nextSeq, Wanted(s)) == []
    ensures Delivering(Next(s, Ran(true, Sent)), start, asked)
  {
    hide Fetch, Holds, Payload, WellNumbered, Next, Wanted, Framed;
    HoldsBasics(s.log, s.history);
    hide Ring.Geometry;
    var stream := s.tally.stream;
    var chunk := Chunk(stream.chunkIndex, stream.logId, RecordSize(stream.logId), true, stream.nextSeq, []);
    TerminatorStep(s);
    PayloadPush(s.tally.sent, chunk);
    FramedPush(s.tally, Next(s, Ran(true, Sent)).tally, start, chunk);
  }

  lemma RanKeeps(s: Session, subscribed: bool, notify: Notify, start: nat, asked: nat)
    requires Delivering(s, start, asked) && InWindow(s) && asked < 0x1_0000
    ensures Delivering(Next(s, Ran(subscribed, notify)), start, asked)
  {
    if s.tally.stream.active && subscribed {
      if notify != Sent {
        UndeliveredKeeps(s, notify, start, asked);
      } else if Fetch(Available(s.log), s.tally.stream.nextSeq, Wanted(s)) == [] {
        TerminatorKeeps(s, start, asked);
      } else {
        DeliveredKeeps(s, start, asked);
      }
    }
  }

  /** A download as a request leaves it: the log holds a history, the stream is
      about to fetch record `start`, nothing has been sent. */
  ghost predicate Begins(s: Session, start: nat, asked: nat) {
    && Holds(s.log, s.history) && s.seen == |s.history|
    && s.tally == Tally(Stream(true, s.tally.stream.logId, 0, start, asked), [], 0)
  }

  lemma PrefixRuns(s: Session, events: seq<Event>)
    requires s.log.Geometry() && events != [] && Undisturbed(s, events)
    ensures var n := |events| - 1;
      && Undisturbed(s, events[..n])
      && InWindow(RunAll(s, events[..n])) && Legible(RunAll(s, events[..n]), events[n])
  {
    hide RunAll, InWindow, Legible, Ring.Geometry;
    var before := events[..|events| - 1];
    assert forall k :: 0 <= k <= |before| ==> before[..k] == events[..k];
  }

  lemma {:induction false} HistoryGrows(s: Session, events: seq<Event>)
    requires s.log.Geometry()
    ensures |s.history| <= |RunAll(s, events).history| <= |s.history| + |events|
  {
    if events != [] {
      HistoryGrows(s, events[..|events| - 1]);
    }
  }

  /** Prefix download: under any radio answers and any legible appends that do not
      evict what is still to be sent, the records delivered are exactly
      start, start + 1, ... with no gap or repeat, in well-numbered chunks. */
  lemma {:induction false} DownloadIsPrefix(s: Session, events: seq<Event>, start: nat, asked: nat)
    requires Begins(s, start, asked) && asked < 0x1_0000 && Undisturbed(s, events)
    requires |s.history| + |events| + 2 < UINT32_MAX
    ensures Delivering(RunAll(s, events), start, asked)
  {
    if events != [] {
      var before, last := events[..|events| - 1], events[|events| - 1];
      PrefixRuns(s, events);
      DownloadIsPrefix(s, before, start, asked);
      HistoryGrows(s, before);
      match last
      case Logged(record, legible) => LoggedKeeps(RunAll(s, before), record, legible, start, asked);
      case Ran(subscribed, notify) => RanKeeps(RunAll(s, before), subscribed, notify, start, asked);
    }
  }

  // ---- With a radio that takes everything ----

  ghost predicate AllSent(events: seq<Event>) {
    forall k :: 0 <= k < |events| && events[k].Ran? ==> events[k] == Ran(true, Sent)
  }

  /** How many records from `start` on the log had when the stream last ran. */
  function Supply(s: Session, start: nat): nat {
    if s.seen + 1 > start then s.seen + 1 - start else 0
  }

  /** Nothing is lost, and once the stream has ended, the last chunk and no other
      is marked so and everything asked for that was in the log has arrived. */
  ghost predicate Faultless(s: Session, start: nat, asked: nat) {
    var sent := s.tally.sent;
    && s.tally.charged == 0
    && (!s.tally.stream.active ==>
          && sent != [] && sent[|sent| - 1].last
          && |Payload(sent)| == Min(asked, Supply(s, start)))
  }

  lemma SentKeepsFaultless(s: Session, start: nat, asked: nat)
    requires Delivering(s, start, asked) && Faultless(s, start, asked) && InWindow(s) && asked < 0x1_0000
    ensures Faultless(Next(s, Ran(true, Sent)), start, asked)
  {
    if s.tally.stream.active {
      if Fetch(Available(s.log), s.tally.stream.nextSeq, Wanted(s)) == [] {
        TerminatorFaultless(s, start, asked);
      } else {
        DeliveredFaultless(s, start, asked);
      }
    }
  }

  lemma DeliveredFaultless(s: Session, start: nat, asked: nat)
    requires Delivering(s, start, asked) && Faultless(s, start, asked) && InWindow(s) && asked < 0x1_0000
        && s.tally.stream.active
    requires Fetch(Available(s.log), s.tally.stream.nextSeq, Wanted(s)) != []
    ensures Faultless(Next(s, Ran(true, Sent)), start, asked)
  {
    hide Fetch, Holds, Payload, WellNumbered, Next, Framed, InWindow, Wanted, Add16, Add32, RecordSize, Take;
    HoldsBasics(s.log, s.history);
    hide Ring.Geometry;
    DeliveredStep(s);
    DeliveredKeeps(s, start, asked);
  }

  lemma TerminatorFaultless(s: Session, start: nat, asked: nat)
    requires Delivering(s, start, asked) && Faultless(s, start, asked) && InWindow(s) && s.tally.stream.active
    requires Fetch(Available(s.log), s.tally.stream.nextSeq, Wanted(s)) == []
    ensures Faultless(Next(s, Ran(true, Sent)), start, asked)
  {
    hide Fetch, Holds, Payload, WellNumbered, Next, Framed, InWindow;
    HoldsBasics(s.log, s.history);
    hide Ring.Geometry;
    TerminatorStep(s);
    FetchIsSlice(s);
    TerminatorKeeps(s, start, asked);
    PayloadPush(s.tally.sent, Next(s, Ran(true, Sent)).tally.sent[|s.tally.sent|]);
  }

  /** Exact download: with every notification taken, the client receives the
      records start, start + 1, ... up to what it asked for or what the log held
      at the last run; chunks are numbered 0, 1, 2, ...; exactly the final one is
      marked last; and the stream has ended after one run more than records. */
  lemma {:induction false} ExactDownload(s: Session, events: seq<Event>, start: nat, asked: nat)
    requires Begins(s, start, asked) && asked < 0x1_0000 && Undisturbed(s, events) && AllSent(events)
    requires |s.history| + |events| + 2 < UINT32_MAX
    ensures Delivering(RunAll(s, events), start, asked) && Faultless(RunAll(s, events), start, asked)
  {
    hide *;
    BeginsBasics(s, start, asked);
    DownloadIsPrefix(s, events, start, asked);
    if events == [] {
      BeginsFaultless(s, start, asked);
    } else {
      var before, last := events[..|events| - 1], events[|events| - 1];
      PrefixRuns(s, events);
      AllSentPrefix(events);
      ExactDownload(s, before, start, asked);
      RunAllPush(s, events);
      if last.Ran? {
        SentKeepsFaultless(RunAll(s, before), start, asked);
      } else {
        LoggedKeepsFaultless(RunAll(s, before), last, start, asked);
      }
    }
  }

  lemma BeginsBasics(s: Session, start: nat, asked: nat)
    requires Begins(s, start, asked)
    ensures s.log.Geometry()
  {
  }

  lemma BeginsFaultless(s: Session, start: nat, asked: nat)
    requires Begins(s, start, asked) && s.log.Geometry()
    ensures RunAll(s, []) == s && Faultless(s, start, asked)
  {
  }

  lemma AllSentPrefix(events: seq<Event>)
    requires events != [] && AllSent(events)
    ensures AllSent(events[..|events| - 1])
    ensures events[|events| - 1].Ran? ==> events[|events| - 1] == Ran(true, Sent)
  {
  }

  lemma RunAllPush(s: Session, events: seq<Event>)
    requires s.log.Geometry() && events != []
    ensures RunAll(s, events) == Next(RunAll(s, events[..|events| - 1]), events[|events| - 1])
  {
  }

  lemma LoggedKeepsFaultless(s: Session, event: Event, start: nat, asked: nat)
    requires s.log.Geometry() && event.Logged? && Faultless(s, start, asked)
    ensures Faultless(Next(s, event), start, asked)
  {
  }

  /** Runs of the work item in a list of events. */
  function Runs(events: seq<Event>): (n: nat) {
    if events == [] then 0
    else Runs(events[..|events| - 1]) + if events[|events| - 1].Ran? then 1 else 0
  }

  /** Whatever happens, a download has ended after one run more than records. */
  lemma {:induction false} DownloadEnds(s: Session, events: seq<Event>)
    requires s.log.Geometry()
    ensures RunAll(s, events).tally.stream.active ==>
      RunAll(s, events).tally.stream.remaining + Runs(events) <= s.tally.stream.remaining
    ensures Runs(events) > s.tally.stream.remaining ==> !RunAll(s, events).tally.stream.active
  {
    if events != [] {
      var before := RunAll(s, events[..|events| - 1]);
      DownloadEnds(s, events[..|events| - 1]);
      match events[|events| - 1]
      case Logged(_, _) =>
      case Ran(subscribed, notify) => TurnConserves(before.tally, Turn(Available(before.log), subscribed, notify));
    }
  }

  // ---- With a radio that fails ----

  /** A run that ends the stream although there are records to send: the radio
      refuses them, or the client has unsubscribed. */
  ghost predicate Cut(s: Session, event: Event) {
    && event.Ran? && (!event.subscribed || event.notify == Refused)
    && s.tally.stream.active && s.tally.stream.remaining > 0 && s.tally.stream.nextSeq <= |s.history|
  }

  ghost predicate WasCut(s: Session, events: seq<Event>)
    requires s.log.Geometry()
  {
    events != [] && (WasCut(s, events[..|events| - 1]) || Cut(RunAll(s, events[..|events| - 1]), events[|events| - 1]))
  }

  /** An ended stream has delivered all that the charges have left of what was
      asked for, as far as the log had it - or, if it was cut, not even that. */
  ghost predicate Ending(s: Session, start: nat, asked: nat, cut: bool) {
    var n := |Payload(s.tally.sent)|;
    && s.tally.charged <= asked
    && (s.tally.stream.active ==> !cut)
    && (!s.tally.stream.active ==>
          if cut then n < Min(asked, Supply(s, start)) else n == Min(asked - s.tally.charged, Supply(s, start)))
  }

  /** What there is to fetch, if anything. */
  lemma FetchedIfAny(s: Session, start: nat, asked: nat)
    requires Delivering(s, start, asked) && InWindow(s) && s.tally.stream.active
    ensures var got := Fetch(Available(s.log), s.tally.stream.nextSeq, Wanted(s));
      && (got == [] <==> s.tally.stream.remaining == 0 || s.tally.stream.nextSeq > |s.history|)
      && |got| <= s.tally.stream.remaining
      && s.tally.stream.nextSeq + |got| <= if got == [] then s.tally.stream.nextSeq else |s.history| + 1
  {
    hide Holds, Payload, WellNumbered, Framed, InWindow, Ring.Geometry, Fetch;
    FetchIsSlice(s);
  }

  lemma SentEnding(s: Session, start: nat, asked: nat)
    requires Delivering(s, start, asked) && InWindow(s) && asked < 0x1_0000 && s.tally.stream.active
    requires Ending(s, start, asked, false)
    ensures Ending(Next(s, Ran(true, Sent)), start, asked, false)
  {
    hide Fetch, Holds, Payload, WellNumbered, Next, Framed, InWindow, Wanted, Add16, Add32, RecordSize, Take;
    HoldsBasics(s.log, s.history);
    hide Ring.Geometry;
    FetchedIfAny(s, start, asked);
    if Fetch(Available(s.log), s.tally.stream.nextSeq, Wanted(s)) == [] {
      TerminatorStep(s);
      PayloadPush(s.tally.sent, Next(s, Ran(true, Sent)).tally.sent[|s.tally.sent|]);
    } else {
      DeliveredStep(s);
      DeliveredKeeps(s, start, asked);
    }
  }

  lemma UnsentEnding(s: Session, subscribed: bool, notify: Notify, start: nat, asked: nat)
    requires Delivering(s, start, asked) && InWindow(s) && s.tally.stream.active
    requires Ending(s, start, asked, false) && (!subscribed || notify != Sent)
    ensures Ending(Next(s, Ran(subscribed, notify)), start, asked, Cut(s, Ran(subscribed, notify)))
  {
    FetchedIfAny(s, start, asked);
    hide Fetch, Holds, Payload, WellNumbered, Framed, InWindow, Wanted, Add16, Add32, RecordSize, Take, Ring.Geometry;
  }

  lemma RanEnding(s: Session, subscribed: bool, notify: Notify, start: nat, asked: nat, cut: bool)
    requires Delivering(s, start, asked) && InWindow(s) && asked < 0x1_0000
    requires Ending(s, start, asked, cut)
    ensures Ending(Next(s, Ran(subscribed, notify)), start, asked, cut || Cut(s, Ran(subscribed, notify)))
  {
    hide Holds, Payload, WellNumbered, Framed, InWindow, Fetch;
    if s.tally.stream.active {
      if subscribed && notify == Sent {
        SentEnding(s, start, asked);
      } else {
        UnsentEnding(s, subscribed, notify, start, asked);
      }
    }
  }

  lemma {:induction false} EndingHolds(s: Session, events: seq<Event>, start: nat, asked: nat)
    requires Begins(s, start, asked) && asked < 0x1_0000 && Undisturbed(s, events)
    requires |s.history| + |events| + 2 < UINT32_MAX
    ensures Ending(RunAll(s, events), start, asked, WasCut(s, events))
  {
    if events != [] {
      var n := |events| - 1;
      PrefixRuns(s, events);
      EndingHolds(s, events[..n], start, asked);
      DownloadIsPrefix(s, events[..n], start, asked);
      HistoryGrows(s, events[..n]);
      hide Delivering, InWindow, Undisturbed, Ending;
      match events[n]
      case Logged(_, _) => LoggedEnding(RunAll(s, events[..n]), events[n], start, asked, WasCut(s, events[..n]));
      case Ran(subscribed, notify) => RanEnding(RunAll(s, events[..n]), subscribed, notify, start, asked,
                                                WasCut(s, events[..n]));
    }
  }

  lemma LoggedEnding(s: Session, event: Event, start: nat, asked: nat, cut: bool)
    requires s.log.Geometry() && event.Logged? && Ending(s, start, asked, cut)
    ensures Ending(Next(s, event), start, asked, cut)
  {
  }

  /** What a download that has ended has delivered, whatever the radio and the
      client did: unless it was cut short it is all that the log had of what was
      asked for, less what was charged to lost notifications, since that is not
      asked for again. So it is complete if and only if it was not cut short and
      the charges are no more than what was asked for beyond what the log had. */
  lemma CompleteIffChargesSpared(s: Session, events: seq<Event>, start: nat, asked: nat)
    requires Begins(s, start, asked) && asked < 0x1_0000 && Undisturbed(s, events)
    requires |s.history| + |events| + 2 < UINT32_MAX
    requires !RunAll(s, events).tally.stream.active
    ensures var ended := RunAll(s, events);
      var n, charged, supply := |Payload(ended.tally.sent)|, ended.tally.charged, Supply(ended, start);
      && charged <= asked
      && (!WasCut(s, events) ==> n == Min(asked - charged, supply))
      && (n == Min(asked, supply) <==> !WasCut(s, events) && charged <= asked - Min(asked, supply))
  {
    EndingHolds(s, events, start, asked);
    hide RunAll, WasCut, Payload, Supply, Begins, Undisturbed;
  }

  /** Charges come from the runs that fetch records for which the radio has no
      memory, or which it refuses; other runs charge nothing. */
  lemma ChargedByFailures(s: Session, event: Event)
    requires s.log.Geometry()
    ensures var fetched := Fetch(Available(s.log), s.tally.stream.nextSeq, Wanted(s));
      Next(s, event).tally.charged == s.tally.charged
        + if event.Ran? && event.subscribed && event.notify != Sent && s.tally.stream.active then |fetched| else 0
  {
    hide Ring.Geometry, Fetch;
  }

  // ---- Starting below the oldest record ----

  /** The number of the first record that a run puts into its chunk. */
  function FirstNumber(s: Session): nat {
    if s.tally.stream.nextSeq + s.log.used > |s.history| then s.tally.stream.nextSeq
    else |s.history| - s.log.used + 1
  }

  lemma FetchFirst(s: Session)
    requires Holds(s.log, s.history) && s.log.used > 0
    ensures Fetch(Available(s.log), s.tally.stream.nextSeq, Wanted(s))
         == if s.tally.stream.nextSeq > |s.history| then [] else Take(s.history[FirstNumber(s) - 1..], Wanted(s))
    ensures 1 <= FirstNumber(s) && (s.tally.stream.nextSeq <= |s.history| ==> FirstNumber(s) <= |s.history|)
  {
    HoldsBasics(s.log, s.history);
    ReadIsSlice(s.log, s.history, s.tally.stream.nextSeq, Wanted(s));
    hide Holds, Gapless, Read;
  }

  function Count(first: nat, n: nat): (numbers: seq<nat>)
    ensures |numbers| == n && forall k :: 0 <= k < n ==> numbers[k] == first + k
  {
    seq(n, k => first + k)
  }

  /** The numbers of the records that a run fetches. */
  function Fetched(s: Session): seq<nat>
    requires s.log.Geometry()
  {
    if s.tally.stream.active then Count(FirstNumber(s), |Fetch(Available(s.log), s.tally.stream.nextSeq, Wanted(s))|)
        else []
  }

  /** The numbers of the records delivered by runs that all succeed, in order. */
  function Numbers(s: Session, events: seq<Event>): seq<nat>
    requires s.log.Geometry()
  {
    if events == [] then []
    else Numbers(s, events[..|events| - 1]) + Fetched(RunAll(s, events[..|events| - 1]))
  }

  /** The payload is the records of the history with these numbers. */
  ghost predicate Carries(payload: seq<Record>, h: seq<Record>, numbers: seq<nat>) {
    && |payload| == |numbers|
    && forall k :: 0 <= k < |numbers| ==> 1 <= numbers[k] <= |h| && payload[k] == h[numbers[k] - 1]
  }

  function OldestNumber(s: Session): int {
    |s.history| - s.log.used + 1
  }

  /** Records in the first chunk of a stale download. */
  function FirstChunk(s: Session, asked: nat): nat {
    Min(Min(Capacity(s.tally.stream.logId), s.log.used), asked)
  }

  /** How far a stale download has got after n records. */
  function Reached(s: Session, start: nat, asked: nat, n: nat): int {
    if n == 0 then OldestNumber(s)
    else if start + n > OldestNumber(s) + FirstChunk(s, asked) then start + n
    else OldestNumber(s) + FirstChunk(s, asked)
  }

  ghost predicate Interval(numbers: seq<nat>, low: int, high: int) {
    forall m: nat :: m in numbers <==> low <= m < high
  }

  lemma IntervalPush(numbers: seq<nat>, low: int, high: int, first: nat, n: nat, high': int)
    requires Interval(numbers, low, high) && low <= first <= high <= high'
    requires high' == if first + n > high then first + n else high
    ensures Interval(numbers + Count(first, n), low, high')
  {
    forall m: nat
      ensures m in numbers + Count(first, n) <==> low <= m < high'
    {
      assert m in Count(first, n) <==> first <= m < first + n by {
        if first <= m < first + n {
          assert Count(first, n)[m - first] == m;
        }
      }
    }
  }

  /** A stale download on the way: what it has sent is an interval of the log, with
      repetitions, and it owes the rest of what was asked for. */
  ghost predicate GoingStale(s: Session, t: Session, start: nat, asked: nat, numbers: seq<nat>) {
    var n := |numbers|;
    && t.log == s.log && t.history == s.history && t.tally.stream.logId == s.tally.stream.logId
    && t.tally.stream.nextSeq == start + n <= |s.history| + 1
    && n <= asked && t.tally.stream.remaining == asked - n
    && (n == 0 || n >= FirstChunk(s, asked))
    && (if t.tally.stream.active then n < asked else n == asked || start + n > |s.history|)
    && Interval(numbers, OldestNumber(s), Reached(s, start, asked, n))
    && Carries(Payload(t.tally.sent), s.history, numbers)
  }

  lemma CarriesPush(payload: seq<Record>, h: seq<Record>, numbers: seq<nat>, first: nat, records: seq<Record>, max: nat)
    requires Carries(payload, h, numbers) && 1 <= first <= |h| && records == Take(h[first - 1..], max)
    ensures Carries(payload + records, h, numbers + Count(first, |records|))
  {
  }

  /** One more chunk extends the interval that has been sent. */
  lemma StaleReach(s: Session, start: nat, asked: nat, numbers: seq<nat>, first: nat, got: nat)
    requires s.log.used <= |s.history| && start < OldestNumber(s) && FirstChunk(s, asked) > 0
    requires Interval(numbers, OldestNumber(s), Reached(s, start, asked, |numbers|))
    requires first == if start + |numbers| > OldestNumber(s) then start + |numbers| else OldestNumber(s)
    requires |numbers| > 0 ==> |numbers| >= FirstChunk(s, asked)
    requires got >= 1 && (|numbers| == 0 ==> got == FirstChunk(s, asked))
    requires start + |numbers| < OldestNumber(s) ==> got <= FirstChunk(s, asked)
    ensures Interval(numbers + Count(first, got), OldestNumber(s), Reached(s, start, asked, |numbers| + got))
  {
    hide Interval, FirstChunk;
    IntervalPush(numbers, OldestNumber(s), Reached(s, start, asked, |numbers|), first, got,
                 Reached(s, start, asked, |numbers| + got));
  }

  /** One more chunk of a stale download. */
  lemma StaleChunk(s: Session, t: Session, start: nat, asked: nat, numbers: seq<nat>)
    requires Holds(s.log, s.history) && s.log.used > 0 && start < OldestNumber(s)
        && GoingStale(s, t, start, asked, numbers)
    requires t.tally.stream.active && t.tally.stream.nextSeq <= |s.history|
    ensures GoingStale(s, Next(t, Ran(true, Sent)), start, asked, numbers + Fetched(t))
  {
    hide Holds, Gapless, Fetch, Add16, Payload, Ring.Geometry, Next, Work, Capacity, Carries, Interval, Take, Count,
        Reached;
    HoldsBasics(s.log, s.history);
    var first, got := FirstNumber(t), Fetch(Available(t.log), t.tally.stream.nextSeq, Wanted(t));
    FetchFirst(t);
    FetchedCount(s.history, first, Wanted(t));
    CapacityPositive(t);
    DeliveredStep(t);
    var t' := Next(t, Ran(true, Sent));
    PayloadPush(t.tally.sent, t'.tally.sent[|t.tally.sent|]);
    CarriesPush(Payload(t.tally.sent), s.history, numbers, first, got, Wanted(t));
    StaleReach(s, start, asked, numbers, first, |got|);
  }

  lemma CapacityPositive(s: Session)
    ensures Capacity(s.tally.stream.logId) > 0
  {
  }

  lemma FetchedCount(h: seq<Record>, first: nat, max: nat)
    requires 1 <= first <= |h|
    ensures |Take(h[first - 1..], max)| == Min(max, |h| + 1 - first)
  {
  }

  /** A run of a stale download that has caught up, or has ended. */
  lemma StaleEnd(s: Session, t: Session, start: nat, asked: nat, numbers: seq<nat>)
    requires Holds(s.log, s.history) && s.log.used > 0 && GoingStale(s, t, start, asked, numbers)
    requires t.tally.stream.active ==> t.tally.stream.nextSeq > |s.history|
    ensures GoingStale(s, Next(t, Ran(true, Sent)), start, asked, numbers + Fetched(t))
  {
    hide Holds, Gapless, Fetch, Payload, Ring.Geometry, Capacity, Carries, Interval, Count;
    HoldsBasics(s.log, s.history);
    assert numbers + [] == numbers;
    if t.tally.stream.active {
      FetchFirst(t);
      TerminatorStep(t);
      PayloadPush(t.tally.sent, Next(t, Ran(true, Sent)).tally.sent[|t.tally.sent|]);
      assert Payload(t.tally.sent) + [] == Payload(t.tally.sent);
    }
  }

  lemma {:induction false} StaysStale(s: Session, events: seq<Event>, start: nat, asked: nat)
    requires Begins(s, start, asked) && asked > 0 && s.log.used > 0 && start < OldestNumber(s)
    requires forall k :: 0 <= k < |events| ==> events[k] == Ran(true, Sent)
    ensures GoingStale(s, RunAll(s, events), start, asked, Numbers(s, events))
  {
    if events != [] {
      var before := events[..|events| - 1];
      StaysStale(s, before, start, asked);
      var t := RunAll(s, before);
      if t.tally.stream.active && t.tally.stream.nextSeq <= |s.history| {
        StaleChunk(s, t, start, asked, Numbers(s, before));
      } else {
        StaleEnd(s, t, start, asked, Numbers(s, before));
      }
    }
  }

  /** A whole download that starts below the oldest record, of a log that does not
      change and with every notification taken: when it ends it has sent just the
      records from the oldest one up to `start + asked`, or up to the end of its
      first chunk if that is further - with repetitions, since each record counts
      against what was asked for as often as it is sent. */
  lemma StaleDownload(s: Session, events: seq<Event>, start: nat, asked: nat)
    requires Begins(s, start, asked) && asked > 0 && s.log.used > 0 && start < OldestNumber(s)
    requires forall k :: 0 <= k < |events| ==> events[k] == Ran(true, Sent)
    requires !RunAll(s, events).tally.stream.active
    ensures Carries(Payload(RunAll(s, events).tally.sent), s.history, Numbers(s, events))
    ensures var end := if start + asked > OldestNumber(s) + FirstChunk(s, asked) then start + asked
        else OldestNumber(s) + FirstChunk(s, asked);
      Interval(Numbers(s, events), OldestNumber(s), Min(end, |s.history| + 1))
  {
    StaysStale(s, events, start, asked);
    hide Interval, Carries, Capacity;
  }

  /** A request for the whole log from below its oldest record, as with a first
      number of 0, misses its newest records: as many as the start was too low, but
      none of the first chunk. */
  lemma StaleDownloadMissesNewest(s: Session, events: seq<Event>, start: nat, m: nat)
    requires Begins(s, start, s.log.used) && s.log.used > 0 && start < OldestNumber(s)
    requires forall k :: 0 <= k < |events| ==> events[k] == Ran(true, Sent)
    requires !RunAll(s, events).tally.stream.active
    requires OldestNumber(s) <= m <= |s.history|
    ensures m in Numbers(s, events) <==> m <= |s.history| - Min(s.log.used - FirstChunk(s, s.log.used),
                                                                OldestNumber(s) - start)
  {
    StaleDownload(s, events, start, s.log.used);
  }

  // ---- Requests ----

  /** An accepted request begins a download; with no limit given it asks for as
      many records as the log has, and from the oldest one they are all there. */
  lemma RequestBegins(log: Ring, h: seq<Record>, logId: nat, start: nat, maxRecords: nat)
    requires Holds(log, h)
    ensures var stream := StartStream(logId, start, maxRecords, GetInfo(log).recordCount);
      var asked := if maxRecords == 0 then log.used else maxRecords;
      && Begins(Session(Tally(stream, [], 0), log, h, |h|), start, asked)
      && stream.logId == logId
      && (maxRecords == 0 && log.used > 0 && start == GetInfo(log).oldestSeq ==> start - 1 + asked == |h|)
  {
    InfoIsExact(log, h);
  }
}
