// streaming_cache: requested and downloaded sets, a piece cache, and a session
// that delivers alerts in any order. Every locked body is one step.
module StreamingCache {
  import opened Wrappers
  import opened Bytes
  import opened PieceRange

  // cache_piece_data_t; None is the null buffer of a default entry.
  datatype CachePiece = CachePiece(buffer: Option<seq<byte>>, piece: int, dataSize: int, startOffset: int) {
    predicate IsValid() { dataSize != -1 && buffer.Some? }
  }

  const EmptyPiece := CachePiece(None, 0, -1, 0)

  // A piece as a successful read delivers it.
  function TruePiece(truth: int -> seq<byte>, p: int): CachePiece {
    CachePiece(Some(truth(p)), p, |truth(p)|, 0)
  }

  // The fields under the mutex, and what the session has been asked for:
  // deadlines set and reads not yet answered.
  datatype State = State(
    cache: map<int, CachePiece>, downloaded: set<int>, requested: set<int>,
    deadlines: set<int>, pending: multiset<int>)

  const Start := State(map[], {}, {}, {}, multiset{})

  // cache_map_[piece]: looking a piece up inserts a default entry.
  function Touch(s: State, p: int): State {
    if p in s.cache then s else s.(cache := s.cache[p := EmptyPiece])
  }

  predicate InCache(s: State, p: int) { p in s.cache && s.cache[p].IsValid() }

  // ----- the locked bodies -----

  function AfterRequest(s: State, p: int): State {
    var s1 := Touch(s, p);
    if InCache(s1, p) then s1
    else if p in s1.downloaded then s1.(pending := s1.pending + multiset{p})
    else s1.(requested := s1.requested + {p}, deadlines := s1.deadlines + {p})
  }

  function AfterFinished(s: State, p: int): State {
    var s1 := s.(downloaded := s.downloaded + {p});
    if p in s1.requested then s1.(pending := s1.pending + multiset{p}, requested := s1.requested - {p}) else s1
  }

  function AfterRead(s: State, p: int, buffer: Option<seq<byte>>, size: int): State {
    s.(cache := s.cache[p := CachePiece(buffer, p, size, 0)], pending := s.pending - multiset{p})
  }

  // ----- runs -----

  // An alert of the session, or a request from any thread.
  datatype Event =
    | Request(p: int)
    | Finished(p: int)
    | Read(p: int)        // a successful read
    | ReadFailed(p: int)  // a null buffer of size 0

  function Next(s: State, e: Event, truth: int -> seq<byte>): State {
    match e
    case Request(p) => AfterRequest(s, p)
    case Finished(p) => AfterFinished(s, p)
    case Read(p) => AfterRead(s, p, Some(truth(p)), |truth(p)|)
    case ReadFailed(p) => AfterRead(s, p, None, 0)
  }

  function Run(s: State, events: seq<Event>, truth: int -> seq<byte>): State {
    if events == [] then s else Next(Run(s, events[..|events| - 1], truth), events[|events| - 1], truth)
  }

  lemma RunSnoc(s: State, events: seq<Event>, e: Event, truth: int -> seq<byte>)
    ensures Run(s, events + [e], truth) == Next(Run(s, events, truth), e, truth)
  {
    assert (events + [e])[..|events|] == events;
  }

  function Requests(events: seq<Event>): set<int> {
    set e | e in events && e.Request? :: e.p
  }

  // The session has been asked to announce p, and has not done so.
  predicate Awaited(s: State, p: int) { p in s.requested && p in s.deadlines && p !in s.downloaded }

  // Nobody waits in vain for p: it is cached, a read is outstanding, or the
  // session has been asked to announce it.
  ghost predicate Served(s: State, p: int) {
    InCache(s, p) || p in s.pending || Awaited(s, p)
  }

  ghost predicate Consistent(s: State, truth: int -> seq<byte>) {
    && s.requested !! s.downloaded
    && s.requested <= s.deadlines
    && forall p :: InCache(s, p) ==> s.cache[p] == TruePiece(truth, p)
  }

  ghost predicate NoRequestLost(s: State, asked: set<int>) {
    forall p :: p in asked ==> Served(s, p)
  }

  lemma NextConsistent(s: State, e: Event, truth: int -> seq<byte>)
    requires Consistent(s, truth)
    ensures Consistent(Next(s, e, truth), truth)
  {
    hide AfterRequest, AfterRead, Consistent;
    match e
    case Request(p) => RequestConsistent(s, p, truth);
    case Finished(p) => FinishedConsistent(s, p, truth);
    case Read(p) => ReadConsistent(s, p, Some(truth(p)), |truth(p)|, truth);
    case ReadFailed(p) => ReadConsistent(s, p, None, 0, truth);
  }

  lemma RequestConsistent(s: State, p: int, truth: int -> seq<byte>)
    requires Consistent(s, truth)
    ensures Consistent(AfterRequest(s, p), truth)
  {
  }

  lemma FinishedConsistent(s: State, p: int, truth: int -> seq<byte>)
    requires Consistent(s, truth)
    ensures Consistent(AfterFinished(s, p), truth)
  {
  }

  lemma ReadConsistent(s: State, p: int, buffer: Option<seq<byte>>, size: int, truth: int -> seq<byte>)
    requires Consistent(s, truth)
    requires buffer.Some? ==> buffer.value == truth(p) && size == |truth(p)|
    ensures Consistent(AfterRead(s, p, buffer, size), truth)
  {
  }

  function Asked(e: Event): set<int> { if e.Request? then {e.p} else {} }

  lemma RequestKeeps(s: State, q: int, p: int)
    requires s.requested <= s.deadlines && (Served(s, p) || p == q)
    ensures Served(AfterRequest(s, q), p)
  {
  }

  lemma FinishedKeeps(s: State, q: int, p: int)
    requires Served(s, p)
    ensures Served(AfterFinished(s, q), p)
  {
  }

  lemma OtherReadKeeps(s: State, q: int, p: int, buffer: Option<seq<byte>>, size: int)
    requires Served(s, p) && p != q
    ensures Served(AfterRead(s, q, buffer, size), p)
  {
  }

  // Every step but a failed read of p itself keeps p served.
  lemma StaysServed(s: State, e: Event, truth: int -> seq<byte>, p: int)
    requires s.requested <= s.deadlines && (Served(s, p) || p in Asked(e))
    requires e != ReadFailed(p)
    ensures Served(Next(s, e, truth), p)
  {
    hide AfterRequest, AfterFinished;
    match e
    case Request(q) => RequestKeeps(s, q, p);
    case Finished(q) => FinishedKeeps(s, q, p);
    case Read(q) => if p != q { OtherReadKeeps(s, q, p, Some(truth(q)), |truth(q)|); }
    case ReadFailed(q) => OtherReadKeeps(s, q, p, None, 0);
  }

  lemma AfterFailedRead(s: State, p: int, truth: int -> seq<byte>)
    requires s.requested <= s.deadlines && s.requested !! s.downloaded
    ensures Served(Next(s, ReadFailed(p), truth), p) <==> p in s.requested || s.pending[p] > 1
  {
  }

  // A step loses a request exactly when it is a failed read of a piece that was
  // asked for, is no longer in requested, and has no second read outstanding.
  lemma StepLosesExactly(s: State, e: Event, truth: int -> seq<byte>, asked: set<int>)
    requires Consistent(s, truth) && NoRequestLost(s, asked)
    ensures NoRequestLost(Next(s, e, truth), asked + Asked(e))
            <==> !(e.ReadFailed? && e.p in asked && e.p !in s.requested && s.pending[e.p] <= 1)
  {
    hide Next, Served;
    forall p | p in asked + Asked(e) && e != ReadFailed(p) ensures Served(Next(s, e, truth), p) {
      StaysServed(s, e, truth, p);
    }
    if e.ReadFailed? { AfterFailedRead(s, e.p, truth); }
  }

  lemma StartIsSafe(truth: int -> seq<byte>)
    ensures Consistent(Start, truth) && NoRequestLost(Start, Requests([]))
  {
  }

  lemma RequestsGrow(before: seq<Event>, e: Event)
    ensures Requests(before + [e]) == Requests(before) + Asked(e)
  {
  }

  // Over every interleaving of requests, finished pieces and successful reads,
  // no request is lost, requested and downloaded stay disjoint, and valid
  // entries hold the true bytes from offset 0.
  lemma {:induction false} RunsAreSafe(events: seq<Event>, truth: int -> seq<byte>)
    requires forall e :: e in events ==> !e.ReadFailed?
    ensures var s := Run(Start, events, truth);
            Consistent(s, truth) && NoRequestLost(s, Requests(events))
  {
    hide Next, Consistent, Served;
    if events == [] {
      StartIsSafe(truth);
    } else {
      var before, e := events[..|events| - 1], events[|events| - 1];
      RunsAreSafe(before, truth);
      var s := Run(Start, before, truth);
      NextConsistent(s, e, truth);
      StepLosesExactly(s, e, truth, Requests(before));
      RequestsGrow(before, e);
      assert events == before + [e];
    }
  }

  // Once a requested piece has been announced and every read answered, it is in
  // the cache.
  lemma AnsweredRequestIsCached(events: seq<Event>, truth: int -> seq<byte>, p: int)
    requires forall e :: e in events ==> !e.ReadFailed?
    requires p in Requests(events)
    requires p in Run(Start, events, truth).downloaded && p !in Run(Start, events, truth).pending
    ensures InCache(Run(Start, events, truth), p)
  {
    RunsAreSafe(events, truth);
    assert Served(Run(Start, events, truth), p);
  }

  // ----- what the sets and the cache mean -----

  // Over any run, failed reads included: exactly the announced pieces are
  // downloaded, and the session is only waited for where it has not announced.
  lemma {:induction false} DownloadedExactly(events: seq<Event>, truth: int -> seq<byte>, p: int)
    ensures p in Run(Start, events, truth).downloaded <==> Finished(p) in events
    ensures p in Run(Start, events, truth).requested ==> Finished(p) !in events && Request(p) in events
  {
    hide Next;
    if events != [] {
      var before, e := events[..|events| - 1], events[|events| - 1];
      assert events == before + [e];
      DownloadedExactly(before, truth, p);
      SetsStep(Run(Start, before, truth), e, truth, p);
    }
  }

  lemma SetsStep(s: State, e: Event, truth: int -> seq<byte>, p: int)
    ensures var t := Next(s, e, truth);
            && (p in t.downloaded <==> p in s.downloaded || e == Finished(p))
            && (p in t.requested ==> e != Finished(p)
                                     && (p in s.requested || (e == Request(p) && p !in s.downloaded)))
  {
  }

  // What the reads of p so far left in the cache.
  function LatestAnswer(events: seq<Event>, p: int): bool {
    if events == [] then false
    else
      var e := events[|events| - 1];
      if e == Read(p) then true
      else if e == ReadFailed(p) then false
      else LatestAnswer(events[..|events| - 1], p)
  }

  // Over any run a piece is in the cache exactly when the latest answer for it
  // was a success.
  lemma {:induction false} CachedExactly(events: seq<Event>, truth: int -> seq<byte>, p: int)
    ensures InCache(Run(Start, events, truth), p) <==> LatestAnswer(events, p)
  {
    if events != [] {
      var before, e := events[..|events| - 1], events[|events| - 1];
      CachedExactly(before, truth, p);
      CachedStep(Run(Start, before, truth), e, truth, p);
    }
  }

  lemma CachedStep(s: State, e: Event, truth: int -> seq<byte>, p: int)
    ensures InCache(Next(s, e, truth), p) <==> e == Read(p) || (InCache(s, p) && e != ReadFailed(p))
  {
  }

  // Reads of p under way or still to be issued.
  function Owed(s: State, p: int): nat { s.pending[p] + if p in s.requested then 1 else 0 }

  // No piece is read more often than it was asked for.
  lemma {:induction false} ReadsAreAskedFor(events: seq<Event>, truth: int -> seq<byte>, p: int)
    ensures Owed(Run(Start, events, truth), p) <= multiset(events)[Request(p)]
  {
    hide Next;
    if events != [] {
      var before, e := events[..|events| - 1], events[|events| - 1];
      assert events == before + [e];
      ReadsAreAskedFor(before, truth, p);
      PendingStep(Run(Start, before, truth), e, truth, p);
    }
  }

  lemma PendingStep(s: State, e: Event, truth: int -> seq<byte>, p: int)
    ensures Owed(Next(s, e, truth), p) <= Owed(s, p) + if e == Request(p) then 1 else 0
  {
    hide Owed, AfterRequest, AfterFinished, AfterRead;
    match e
    case Request(q) => OwedAfterRequest(s, q, p);
    case Finished(q) => OwedAfterFinished(s, q, p);
    case Read(q) => OwedAfterRead(s, q, Some(truth(q)), |truth(q)|, p);
    case ReadFailed(q) => OwedAfterRead(s, q, None, 0, p);
  }

  lemma OwedAfterRequest(s: State, q: int, p: int)
    ensures Owed(AfterRequest(s, q), p) <= Owed(s, p) + if p == q then 1 else 0
  {
  }

  lemma OwedAfterFinished(s: State, q: int, p: int)
    ensures Owed(AfterFinished(s, q), p) == Owed(s, p)
  {
  }

  lemma OwedAfterRead(s: State, q: int, buffer: Option<seq<byte>>, size: int, p: int)
    ensures Owed(AfterRead(s, q, buffer, size), p) <= Owed(s, p)
  {
  }

  // Asked for, announced, read; and announced before it is asked for.
  lemma OrdinaryRuns(p: int, truth: int -> seq<byte>)
    ensures Run(Start, [Request(p)], truth)
            == State(map[p := CachePiece(None, 0, -1, 0)], {}, {p}, {p}, multiset{})
    ensures Run(Start, [Request(p), Finished(p)], truth)
            == State(map[p := CachePiece(None, 0, -1, 0)], {p}, {}, {p}, multiset{p})
    ensures Run(Start, [Request(p), Finished(p), Read(p)], truth)
            == State(map[p := CachePiece(Some(truth(p)), p, |truth(p)|, 0)], {p}, {}, {p}, multiset{})
    ensures Run(Start, [Finished(p), Request(p)], truth)
            == State(map[p := CachePiece(None, 0, -1, 0)], {p}, {}, {}, multiset{p})
  {
    hide Run;
    RunNothing(truth);
    RunSnoc(Start, [], Request(p), truth);
    RunSnoc(Start, [Request(p)], Finished(p), truth);
    RunSnoc(Start, [Request(p), Finished(p)], Read(p), truth);
    RunSnoc(Start, [], Finished(p), truth);
    RunSnoc(Start, [Finished(p)], Request(p), truth);
    assert [] + [Request(p)] == [Request(p)] && [Request(p)] + [Finished(p)] == [Request(p), Finished(p)];
    assert [Request(p), Finished(p)] + [Read(p)] == [Request(p), Finished(p), Read(p)];
    assert [] + [Finished(p)] == [Finished(p)] && [Finished(p)] + [Request(p)] == [Finished(p), Request(p)];
  }

  lemma RunNothing(truth: int -> seq<byte>)
    ensures Run(Start, [], truth) == Start
  {
  }

  // A failed read does lose a request: the piece is downloaded, not cached, not
  // requested, and nothing is outstanding for it.
  lemma FailedReadLosesRequest(truth: int -> seq<byte>)
    ensures var s := Run(Start, [Request(0), Finished(0), ReadFailed(0)], truth);
            !Served(s, 0) && 0 in s.downloaded
  {
    var e := [Request(0), Finished(0), ReadFailed(0)];
    assert e[..2] == [Request(0), Finished(0)] && e[..2][..1] == [Request(0)] && e[..2][..1][..0] == [];
    assert Run(Start, [], truth) == Start;
    assert Run(Start, [Request(0)], truth) == AfterRequest(Start, 0);
    assert Run(Start, [Request(0), Finished(0)], truth) == AfterFinished(AfterRequest(Start, 0), 0);
  }

  // ----- collecting a range -----

  datatype CachePieces = CachePieces(pieces: seq<CachePiece>, dataSize: nat, abortRequested: bool) {
    predicate IsValid() { !abortRequested && pieces != [] }
  }

  const NoPieces := CachePieces([], 0, false)
  const AbortPieces := CachePieces([], 0, true)

  // request_pieces takes the lock for each piece; between(p) is what happens
  // before the request of p.
  function RequestAll(s: State, begin: int, end: int, between: int -> seq<Event>, truth: int -> seq<byte>): State
    requires begin <= end
    decreases end - begin
  {
    if begin == end then s
    else AfterRequest(Run(RequestAll(s, begin, end - 1, between, truth), between(end - 1), truth), end - 1)
  }

  lemma NothingRequested(s: State, begin: int, between: int -> seq<Event>, truth: int -> seq<byte>)
    ensures RequestAll(s, begin, begin, between, truth) == s
  {
  }

  lemma OneMoreRequest(s: State, begin: int, end: int, between: int -> seq<Event>, truth: int -> seq<byte>)
    requires begin <= end
    ensures RequestAll(s, begin, end + 1, between, truth)
            == AfterRequest(Run(RequestAll(s, begin, end, between, truth), between(end), truth), end)
  {
  }

  // The lookups of try_get_pieces_data_impl, up to the first piece missing.
  function TouchUntil(s: State, begin: int, end: int): State
    requires begin <= end
    decreases end - begin
  {
    if begin == end then s
    else
      var s1 := Touch(s, begin);
      if InCache(s1, begin) then TouchUntil(s1, begin + 1, end) else s1
  }

  predicate AllInCache(s: State, begin: int, end: int) {
    forall p :: begin <= p < end ==> InCache(s, p)
  }

  function Entry(s: State, p: int): CachePiece { if p in s.cache then s.cache[p] else EmptyPiece }

  // The cached pieces of a range; the first carries the range's start offset.
  function Collect(s: State, range: PiecesRange): CachePieces
    requires range.begin <= range.end
  {
    var ps := seq(range.end - range.begin, i requires 0 <= i < range.end - range.begin => Entry(s, range.begin + i));
    if ps == [] then NoPieces
    else CachePieces(ps[0 := ps[0].(startOffset := range.startOffset)], range.dataSize, false)
  }

  // What the environment does before one look at the cache: alerts and requests
  // of other threads, the answer of the progress callback, a cancel request.
  datatype Poll = Poll(events: seq<Event>, abort: bool, cancel: bool)

  // The wait loop of get_pieces_data, one poll per turn; the timeout ends it.
  function Wait(s: State, range: PiecesRange, polls: seq<Poll>, truth: int -> seq<byte>): (State, CachePieces)
    requires range.begin <= range.end && polls != []
    decreases |polls|
  {
    var s1 := Run(s, polls[0].events, truth);
    if polls[0].abort || polls[0].cancel then (s1, AbortPieces)
    else
      var s2 := TouchUntil(s1, range.begin, range.end);
      if AllInCache(s1, range.begin, range.end) && range.begin < range.end then (s2, Collect(s1, range))
      else if |polls| == 1 then (s2, NoPieces)
      else Wait(s2, range, polls[1..], truth)
  }

  // What a range holds when every piece is true.
  function TruePieces(truth: int -> seq<byte>, range: PiecesRange): CachePieces
    requires range.begin < range.end
  {
    var n := range.end - range.begin;
    var ps := seq(n, i requires 0 <= i < n => TruePiece(truth, range.begin + i));
    CachePieces(ps[0 := ps[0].(startOffset := range.startOffset)], range.dataSize, false)
  }

  lemma {:induction false} RunConsistent(s: State, events: seq<Event>, truth: int -> seq<byte>)
    requires Consistent(s, truth)
    ensures Consistent(Run(s, events, truth), truth)
  {
    hide Consistent, Next;
    if events != [] {
      RunConsistent(s, events[..|events| - 1], truth);
      NextConsistent(Run(s, events[..|events| - 1], truth), events[|events| - 1], truth);
    }
  }

  lemma {:induction false} RequestAllConsistent(s: State, begin: int, end: int, between: int -> seq<Event>,
                                                truth: int -> seq<byte>)
    requires begin <= end && Consistent(s, truth)
    ensures Consistent(RequestAll(s, begin, end, between, truth), truth)
    decreases end - begin
  {
    hide Consistent, Run;
    if begin < end {
      var before := RequestAll(s, begin, end - 1, between, truth);
      RequestAllConsistent(s, begin, end - 1, between, truth);
      RunConsistent(before, between(end - 1), truth);
      NextConsistent(Run(before, between(end - 1), truth), Request(end - 1), truth);
    }
  }

  lemma {:induction false} TouchUntilKeeps(s: State, begin: int, end: int)
    requires begin <= end
    ensures var t := TouchUntil(s, begin, end);
            && t == s.(cache := t.cache)
            && (forall p :: InCache(t, p) <==> InCache(s, p))
            && (forall p :: InCache(s, p) ==> t.cache[p] == s.cache[p])
    decreases end - begin
  {
    if begin < end {
      var s1 := Touch(s, begin);
      assert forall p :: InCache(s1, p) <==> InCache(s, p);
      if InCache(s1, begin) { TouchUntilKeeps(s1, begin + 1, end); }
    }
  }

  lemma CollectTrue(s: State, range: PiecesRange, truth: int -> seq<byte>)
    requires Consistent(s, truth) && range.begin < range.end && AllInCache(s, range.begin, range.end)
    ensures Collect(s, range) == TruePieces(truth, range)
  {
    var n := range.end - range.begin;
    var cached := seq(n, i requires 0 <= i < n => Entry(s, range.begin + i));
    var genuine := seq(n, i requires 0 <= i < n => TruePiece(truth, range.begin + i));
    forall i | 0 <= i < n ensures cached[i] == genuine[i] {
      var p := range.begin + i;
      assert InCache(s, p) && cached[i] == Entry(s, p) && genuine[i] == TruePiece(truth, p);
    }
    assert cached == genuine;
    assert Collect(s, range).pieces == cached[0 := cached[0].(startOffset := range.startOffset)];
    assert TruePieces(truth, range).pieces == genuine[0 := genuine[0].(startOffset := range.startOffset)];
  }

  lemma CollectIsValid(s: State, range: PiecesRange)
    requires range.begin <= range.end
    ensures Collect(s, range).IsValid() <==> range.begin < range.end
    ensures range.begin == range.end ==> Collect(s, range) == NoPieces
    ensures range.begin < range.end ==>
              && Collect(s, range).dataSize == range.dataSize
              && Collect(s, range).pieces[0].startOffset == range.startOffset
  {
  }

  // Whatever happens while waiting, failed reads included: pieces are delivered
  // only whole and true, an abort only when asked for, and the cache stays
  // consistent.
  lemma {:induction false} WaitDelivers(s: State, range: PiecesRange, polls: seq<Poll>, truth: int -> seq<byte>)
    requires Consistent(s, truth) && range.begin <= range.end && polls != []
    ensures var (s2, r) := Wait(s, range, polls, truth);
            && Consistent(s2, truth)
            && (r.IsValid() ==> range.begin < range.end && r == TruePieces(truth, range))
            && (r.abortRequested ==> exists i :: 0 <= i < |polls| && (polls[i].abort || polls[i].cancel))
            && (!r.IsValid() ==> r == NoPieces || r == AbortPieces)
    decreases |polls|
  {
    hide Collect, TruePieces, TouchUntil, Run;
    RunConsistent(s, polls[0].events, truth);
    var s1 := Run(s, polls[0].events, truth);
    if !(polls[0].abort || polls[0].cancel) {
      var s2 := TouchUntil(s1, range.begin, range.end);
      TouchUntilKeeps(s1, range.begin, range.end);
      assert Consistent(s2, truth);
      if AllInCache(s1, range.begin, range.end) && range.begin < range.end {
        CollectTrue(s1, range, truth);
        CollectIsValid(s1, range);
      } else if |polls| > 1 {
        WaitDelivers(s2, range, polls[1..], truth);
        if i :| 0 <= i < |polls[1..]| && (polls[1..][i].abort || polls[1..][i].cancel) {
          assert polls[i + 1] == polls[1..][i];
        }
      }
    }
  }

  // ----- when a wait ends -----

  // A poll that asks for an abort, and the state poll i finds when no poll before
  // it ended the wait.
  predicate Stops(p: Poll) { p.abort || p.cancel }

  function StateAt(s: State, range: PiecesRange, polls: seq<Poll>, i: nat, truth: int -> seq<byte>): State
    requires range.begin <= range.end && i < |polls|
  {
    var before := if i == 0 then s else TouchUntil(StateAt(s, range, polls, i - 1, truth), range.begin, range.end);
    Run(before, polls[i].events, truth)
  }

  // Poll i finds a non-empty range whole.
  ghost predicate WholeAt(s: State, range: PiecesRange, polls: seq<Poll>, i: nat, truth: int -> seq<byte>)
    requires range.begin <= range.end && i < |polls|
  {
    range.begin < range.end && AllInCache(StateAt(s, range, polls, i, truth), range.begin, range.end)
  }

  lemma {:induction false} StateShifts(s: State, range: PiecesRange, polls: seq<Poll>, i: nat, truth: int -> seq<byte>)
    requires range.begin <= range.end && i + 1 < |polls|
    ensures var s2 := TouchUntil(StateAt(s, range, polls, 0, truth), range.begin, range.end);
            StateAt(s, range, polls, i + 1, truth) == StateAt(s2, range, polls[1..], i, truth)
  {
    hide TouchUntil, Run;
    if i > 0 { StateShifts(s, range, polls, i - 1, truth); }
  }

  // The first poll that asks for an abort or finds the range whole decides: an
  // abort if it asks for one, the pieces otherwise. Without one the time is up.
  lemma {:induction false} WaitDecides(s: State, range: PiecesRange, polls: seq<Poll>, truth: int -> seq<byte>, k: nat)
    requires range.begin <= range.end && polls != [] && k <= |polls|
    requires forall i :: 0 <= i < k ==> !Stops(polls[i]) && !WholeAt(s, range, polls, i, truth)
    requires k < |polls| ==> Stops(polls[k]) || WholeAt(s, range, polls, k, truth)
    ensures var r := Wait(s, range, polls, truth).1;
            && (k == |polls| ==> r == NoPieces)
            && (k < |polls| ==> if Stops(polls[k]) then r == AbortPieces else r.IsValid())
    decreases |polls|
  {
    hide TouchUntil, Run, Collect;
    var s1 := StateAt(s, range, polls, 0, truth);
    if k == 0 {
      CollectIsValid(s1, range);
    } else {
      var s2 := TouchUntil(s1, range.begin, range.end);
      assert !Stops(polls[0]) && !WholeAt(s, range, polls, 0, truth);
      if |polls| > 1 {
        var rest := polls[1..];
        forall i | 0 <= i < k && i < |rest|
          ensures rest[i] == polls[i + 1]
          ensures WholeAt(s2, range, rest, i, truth) <==> WholeAt(s, range, polls, i + 1, truth)
        {
          StateShifts(s, range, polls, i, truth);
        }
        forall i | 0 <= i < k - 1 ensures !Stops(rest[i]) && !WholeAt(s2, range, rest, i, truth) {
          assert !Stops(polls[i + 1]) && !WholeAt(s, range, polls, i + 1, truth);
        }
        WaitDecides(s2, range, rest, truth, k - 1);
      }
    }
  }

  // An abort is returned exactly when one is asked for before the range is whole.
  lemma AbortsExactly(s: State, range: PiecesRange, polls: seq<Poll>, truth: int -> seq<byte>)
    requires range.begin <= range.end && polls != []
    ensures Wait(s, range, polls, truth).1.abortRequested
            <==> exists k :: 0 <= k < |polls| && Stops(polls[k])
                   && forall i :: 0 <= i < k ==> !Stops(polls[i]) && !WholeAt(s, range, polls, i, truth)
  {
    hide Wait, WholeAt, Stops;
    var k := Deciding(s, range, polls, truth, 0);
    WaitDecides(s, range, polls, truth, k);
    if j :| 0 <= j < |polls| && Stops(polls[j])
            && forall i :: 0 <= i < j ==> !Stops(polls[i]) && !WholeAt(s, range, polls, i, truth) {
      WaitDecides(s, range, polls, truth, j);
    }
  }

  lemma {:induction false} Deciding(s: State, range: PiecesRange, polls: seq<Poll>, truth: int -> seq<byte>, from: nat)
      returns (k: nat)
    requires range.begin <= range.end && from <= |polls|
    requires forall i :: 0 <= i < from ==> !Stops(polls[i]) && !WholeAt(s, range, polls, i, truth)
    ensures k <= |polls| && (k < |polls| ==> Stops(polls[k]) || WholeAt(s, range, polls, k, truth))
    ensures forall i :: 0 <= i < k ==> !Stops(polls[i]) && !WholeAt(s, range, polls, i, truth)
    decreases |polls| - from
  {
    hide WholeAt, Stops;
    if from == |polls| || Stops(polls[from]) || WholeAt(s, range, polls, from, truth) {
      k := from;
    } else {
      k := Deciding(s, range, polls, truth, from + 1);
    }
  }

  // ----- what a timeout means -----

  ghost predicate NoFailure(events: seq<Event>) { forall e :: e in events ==> !e.ReadFailed? }

  // p is still to come: it is being read, or to be announced.
  ghost predicate Outstanding(s: State, p: int) {
    !InCache(s, p) && (p in s.pending || Awaited(s, p))
  }

  lemma {:induction false} RunKeepsServed(s: State, events: seq<Event>, truth: int -> seq<byte>, p: int)
    requires Consistent(s, truth) && NoFailure(events) && Served(s, p)
    ensures Served(Run(s, events, truth), p)
  {
    hide Served, Next;
    if events != [] {
      var before, e := events[..|events| - 1], events[|events| - 1];
      assert e in events;
      RunKeepsServed(s, before, truth, p);
      RunConsistent(s, before, truth);
      StaysServed(Run(s, before, truth), e, truth, p);
    }
  }

  // Once a range has been requested, all its pieces are served.
  lemma {:induction false} RequestAllServes(s: State, begin: int, end: int, between: int -> seq<Event>,
                                            truth: int -> seq<byte>, p: int)
    requires begin <= p < end && Consistent(s, truth)
    requires forall q :: begin <= q < end ==> NoFailure(between(q))
    ensures Served(RequestAll(s, begin, end, between, truth), p)
    decreases end - begin
  {
    hide Served, Run, RequestAll, Consistent, NoFailure, AfterRequest;
    var before := RequestAll(s, begin, end - 1, between, truth);
    OneMoreRequest(s, begin, end - 1, between, truth);
    RequestAllConsistent(s, begin, end - 1, between, truth);
    RunConsistent(before, between(end - 1), truth);
    if p < end - 1 {
      RequestAllServes(s, begin, end - 1, between, truth, p);
      RunKeepsServed(before, between(end - 1), truth, p);
    }
    RequestServes(Run(before, between(end - 1), truth), end - 1, p, truth);
  }

  lemma RequestServes(s: State, q: int, p: int, truth: int -> seq<byte>)
    requires Consistent(s, truth) && (Served(s, p) || p == q)
    ensures Served(AfterRequest(s, q), p)
  {
    RequestKeeps(s, q, p);
  }

  // Without failed reads a wait for served pieces ends with all of them in the
  // cache, in an abort, or with a piece outstanding.
  lemma {:induction false} WaitEnds(s: State, range: PiecesRange, polls: seq<Poll>, truth: int -> seq<byte>)
    requires Consistent(s, truth) && range.begin <= range.end && polls != []
    requires forall i :: 0 <= i < |polls| ==> NoFailure(polls[i].events)
    requires forall p :: range.begin <= p < range.end ==> Served(s, p)
    ensures var (s2, r) := Wait(s, range, polls, truth);
            && (r.IsValid() ==> AllInCache(s2, range.begin, range.end))
            && (r == NoPieces && range.begin < range.end ==>
                  exists p :: range.begin <= p < range.end && Outstanding(s2, p))
    decreases |polls|
  {
    hide Collect, TouchUntil, Run, Served, InCache, NoFailure;
    var s1 := Run(s, polls[0].events, truth);
    RunConsistent(s, polls[0].events, truth);
    forall p | range.begin <= p < range.end ensures Served(s1, p) {
      RunKeepsServed(s, polls[0].events, truth, p);
    }
    if !(polls[0].abort || polls[0].cancel) {
      var s2 := TouchUntil(s1, range.begin, range.end);
      TouchedTheSame(s1, range.begin, range.end, truth);
      if AllInCache(s1, range.begin, range.end) {
        CollectIsValid(s1, range);
      } else {
        var p :| range.begin <= p < range.end && !InCache(s1, p);
        NotCachedIsOutstanding(s1, s2, p);
      }
      if |polls| > 1 && !(AllInCache(s1, range.begin, range.end) && range.begin < range.end) {
        WaitEnds(s2, range, polls[1..], truth);
      }
    }
  }

  lemma TouchedTheSame(s: State, begin: int, end: int, truth: int -> seq<byte>)
    requires begin <= end && Consistent(s, truth)
    ensures var t := TouchUntil(s, begin, end);
            && Consistent(t, truth) && t == s.(cache := t.cache)
            && (forall p :: InCache(t, p) <==> InCache(s, p)) && (forall p :: Served(t, p) <==> Served(s, p))
  {
    TouchUntilKeeps(s, begin, end);
  }

  lemma NotCachedIsOutstanding(s: State, t: State, p: int)
    requires Served(s, p) && !InCache(s, p) && t == s.(cache := t.cache) && !InCache(t, p)
    ensures Outstanding(t, p)
  {
  }

  // ----- the class -----

  datatype CancelState = NotRequested | Requested | Completed

  class StreamingCache {
    var cacheMap: map<int, CachePiece>
    var piecesDownloaded: set<int>
    var piecesRequested: set<int>
    var cancelIoState: CancelState
    // the session's side
    var deadlines: set<int>
    var pending: multiset<int>

    function Abs(): State
      reads this
    {
      State(cacheMap, piecesDownloaded, piecesRequested, deadlines, pending)
    }

    constructor ()
      ensures Abs() == Start
    {
      cacheMap, piecesDownloaded, piecesRequested := map[], {}, {};
      deadlines, pending, cancelIoState := {}, multiset{}, NotRequested;
    }

    method IsPieceInCache(piece: int) returns (b: bool)
      modifies `cacheMap
      ensures Abs() == Touch(old(Abs()), piece) && b == InCache(Abs(), piece)
    {
      if piece !in cacheMap {
        cacheMap := cacheMap[piece := EmptyPiece];
      }
      b := cacheMap[piece].IsValid();
    }

    method RequestPiece(piece: int)
      modifies this
      ensures Abs() == AfterRequest(old(Abs()), piece) && cancelIoState == old(cancelIoState)
    {
      var cached := IsPieceInCache(piece);
      if cached {
        return;
      }
      if piece in piecesDownloaded {
        pending := pending + multiset{piece};
        return;
      }
      piecesRequested := piecesRequested + {piece};
      deadlines := deadlines + {piece};
    }

    method RequestPieces(range: PiecesRange, between: int -> seq<Event>, truth: int -> seq<byte>)
      requires range.begin <= range.end
      modifies this
      ensures Abs() == RequestAll(old(Abs()), range.begin, range.end, between, truth)
      ensures cancelIoState == old(cancelIoState)
    {
      var piece := range.begin;
      hide AfterRequest, Run, RequestAll;
      NothingRequested(Abs(), piece, between, truth);
      while piece != range.end
        invariant range.begin <= piece <= range.end
        invariant Abs() == RequestAll(old(Abs()), range.begin, piece, between, truth)
        invariant cancelIoState == old(cancelIoState)
        decreases range.end - piece
      {
        OneMoreRequest(old(Abs()), range.begin, piece, between, truth);
        RequestAmong(piece, between(piece), truth);
        piece := piece + 1;
      }
    }

    // One turn of its loop: what happens before the lock is taken, then the request.
    method RequestAmong(piece: int, events: seq<Event>, truth: int -> seq<byte>)
      modifies this
      ensures Abs() == AfterRequest(Run(old(Abs()), events, truth), piece) && cancelIoState == old(cancelIoState)
    {
      hide AfterRequest, Run;
      Deliver(events, truth);
      RequestPiece(piece);
    }

    method HandlePieceFinished(piece: int)
      modifies this
      ensures Abs() == AfterFinished(old(Abs()), piece) && cancelIoState == old(cancelIoState)
    {
      piecesDownloaded := piecesDownloaded + {piece};
      if piece in piecesRequested {
        pending := pending + multiset{piece};
        piecesRequested := piecesRequested - {piece};
      }
    }

    // The alert answers one outstanding read.
    method HandlePieceRead(piece: int, buffer: Option<seq<byte>>, size: int)
      modifies this
      ensures Abs() == AfterRead(old(Abs()), piece, buffer, size) && cancelIoState == old(cancelIoState)
    {
      pending := pending - multiset{piece};
      cacheMap := cacheMap[piece := CachePiece(buffer, piece, size, 0)];
    }

    // try_get_pieces_data_impl
    method TryGetPiecesData(range: PiecesRange) returns (r: CachePieces)
      requires range.begin <= range.end
      modifies `cacheMap
      ensures Abs() == TouchUntil(old(Abs()), range.begin, range.end)
      ensures r == if AllInCache(old(Abs()), range.begin, range.end) then Collect(old(Abs()), range) else NoPieces
    {
      r := NoPieces;
      var piece := range.begin;
      while piece != range.end
        invariant range.begin <= piece <= range.end && r.dataSize == 0 && !r.abortRequested
        invariant TouchUntil(Abs(), piece, range.end) == TouchUntil(old(Abs()), range.begin, range.end)
        invariant Abs() == old(Abs()) && AllInCache(Abs(), range.begin, piece)
        invariant |r.pieces| == piece - range.begin
        invariant forall i :: 0 <= i < |r.pieces| ==> r.pieces[i] == Entry(Abs(), range.begin + i)
        decreases range.end - piece
      {
        var cached := IsPieceInCache(piece);
        if !cached {
          assert !InCache(old(Abs()), piece);
          return NoPieces;
        }
        r := r.(pieces := r.pieces + [cacheMap[piece]]);
        piece := piece + 1;
      }
      if !r.IsValid() {
        return;
      }
      r := r.(pieces := r.pieces[0 := r.pieces[0].(startOffset := range.startOffset)], dataSize := range.dataSize);
    }

    // Alerts of the session and requests of other threads, as they come;
    // truth is the content a successful read delivers.
    method Deliver(events: seq<Event>, truth: int -> seq<byte>)
      modifies this
      ensures Abs() == Run(old(Abs()), events, truth) && cancelIoState == old(cancelIoState)
    {
      hide AfterRequest, AfterFinished, AfterRead;
      assert events[..0] == [];
      for i := 0 to |events|
        invariant Abs() == Run(old(Abs()), events[..i], truth) && cancelIoState == old(cancelIoState)
      {
        assert events[..i + 1][..i] == events[..i];
        match events[i]
        case Request(p) => RequestPiece(p);
        case Finished(p) => HandlePieceFinished(p);
        case Read(p) => HandlePieceRead(p, Some(truth(p)), |truth(p)|);
        case ReadFailed(p) => HandlePieceRead(p, None, 0);
      }
      assert events[..|events|] == events;
    }

    // get_pieces_data: ask for the range, then poll until it is there, an abort
    // is asked for, or the time is up.
    method GetPiecesData(range: PiecesRange, between: int -> seq<Event>, polls: seq<Poll>, truth: int -> seq<byte>)
      returns (r: CachePieces)
      requires range.begin <= range.end && polls != []
      modifies this
      ensures (Abs(), r) == Wait(RequestAll(old(Abs()), range.begin, range.end, between, truth), range, polls, truth)
      ensures !r.abortRequested ==> cancelIoState == NotRequested
      ensures r.abortRequested ==> cancelIoState == Completed || exists i :: 0 <= i < |polls| && polls[i].abort
    {
      hide RequestAll, TouchUntil, Collect, Run;
      cancelIoState := NotRequested;
      RequestPieces(range, between, truth);
      ghost var asked := Abs();
      var i := 0;
      assert polls[0..] == polls;
      while true
        invariant i < |polls| && cancelIoState == NotRequested
        invariant Wait(Abs(), range, polls[i..], truth) == Wait(asked, range, polls, truth)
        decreases |polls| - i
      {
        assert polls[i..][0] == polls[i] && polls[i..][1..] == polls[i + 1..];
        Deliver(polls[i].events, truth);
        if polls[i].cancel {
          cancelIoState := Requested;
        }
        if polls[i].abort {
          return AbortPieces;
        }
        if cancelIoState != NotRequested {
          cancelIoState := Completed;
          return AbortPieces;
        }
        CollectIsValid(Abs(), range);
        r := TryGetPiecesData(range);
        if r.IsValid() {
          return;
        }
        i := i + 1;
        if i == |polls| {
          return NoPieces;
        }
      }
    }
  }
}
