/**
 The pull half of replication (client/src/space.rs, client/src/meta.rs).

 The admit log retains a window of the server's log. Batches are captured in
 pages at its tail, applied in order at its neck and discarded from its head.
 */
module Pull {
  import opened Types
  import opened Wire
  import opened MetaLog
  import MetaStore
  import SpaceServer

  const DEFAULT_PULL_CAP: nat := 256

  // ----- the protocol -----------------------------------------------------------------

  /** `applied` lists the batches handed to the application, in the order they were marked. */
  datatype System = System(s: SpaceState, log: seq<LogBatch>, applied: seq<LogBatch>)

  datatype Step =
    | Admitted(batch: LogBatch)
    | Captured(through: nat)
    | MarkedApplied(to: nat)
    | Discarded(to: nat)

  const BOOT := System(FRESH, [], [])

  /** The honest page of the log after the admit tail. */
  function Page(y: System, through: nat): PullResponse
    requires 1 <= y.s.admitCursors.tail <= through + 1 && through <= |y.log|
  {
    PullResponse(y.s.admitCursors.tail - 1, through, y.log[y.s.admitCursors.tail - 1..through])
  }

  predicate Enabled(y: System, step: Step) {
    match step
    case Admitted(b) => b.admissionSeq == |y.log| + 1 && WellFormed(b)
    case Captured(through) =>
      && 1 <= y.s.admitCursors.tail <= through + 1 && through <= |y.log|
      && AppendFault(y.s, Page(y, through)).None?
    case MarkedApplied(to) => MarkApplied(y.s, to).Ok?
    case Discarded(to) => TrimAdmits(y.s, to).Ok?
  }

  /** The captured batches in `[from, to)`. */
  function Between(admits: map<nat, LogBatch>, from: nat, to: nat): seq<LogBatch> {
    if to <= from then [] else Between(admits, from, to - 1) + if to - 1 in admits then [admits[to - 1]] else []
  }

  function Next(y: System, step: Step): System
    requires Enabled(y, step)
  {
    match step
    case Admitted(b) => y.(log := y.log + [b])
    case Captured(through) => y.(s := AppendAdmits(y.s, Page(y, through)))
    case MarkedApplied(to) =>
      y.(s := MarkApplied(y.s, to).value, applied := y.applied + Between(y.s.admits, y.s.admitCursors.neck, to))
    case Discarded(to) => y.(s := TrimAdmits(y.s, to).value)
  }

  /** The admit log is a window of the server's log, and what was applied is that log up to the neck. */
  ghost predicate Mirrors(s: SpaceState, log: seq<LogBatch>) {
    && s.admitCursors.Ordered() && 1 <= s.admitCursors.head && s.admitCursors.tail <= |log| + 1
    && (forall q :: q in s.admits <==> s.admitCursors.head <= q < s.admitCursors.tail)
    && (forall q :: q in s.admits ==> s.admits[q] == log[q - 1])
  }

  ghost predicate LogOk(log: seq<LogBatch>) {
    forall i :: 0 <= i < |log| ==> log[i].admissionSeq == i + 1 && WellFormed(log[i])
  }

  ghost predicate Inv(y: System) {
    && LogOk(y.log) && Mirrors(y.s, y.log)
    && y.applied == y.log[..y.s.admitCursors.neck - 1]
  }

  lemma {:induction false} PageIsDense(log: seq<LogBatch>, after: nat, through: nat)
    requires LogOk(log) && after <= through <= |log|
    ensures Dense(PullResponse(after, through, log[after..through]))
  {
    var batches := log[after..through];
    forall i | 0 <= i < |batches| ensures batches[i].admissionSeq == after + i + 1 && WellFormed(batches[i]) {
      assert batches[i] == log[after + i];
    }
  }

  lemma {:induction false} CaptureMirrors(s: SpaceState, log: seq<LogBatch>, through: nat)
    requires LogOk(log) && Mirrors(s, log) && s.admitCursors.tail - 1 <= through <= |log|
    ensures var page := PullResponse(s.admitCursors.tail - 1, through, log[s.admitCursors.tail - 1..through]);
      Dense(page) && Mirrors(AppendAdmits(s, page), log)
        && AppendAdmits(s, page).admitCursors == s.admitCursors.(tail := through + 1)
  {
    var after := s.admitCursors.tail - 1;
    var page := PullResponse(after, through, log[after..through]);
    var s' := AppendAdmits(s, page);
    PageIsDense(log, after, through);
    if page.batches != [] {
      forall q: nat
        ensures q in s'.admits <==> s'.admitCursors.head <= q < s'.admitCursors.tail
        ensures q in s'.admits ==> s'.admits[q] == log[q - 1]
      {
        WithBatchesAt(s.admits, after, page.batches, q);
        assert after < q <= through ==> page.batches[q - after - 1] == log[q - 1];
      }
    }
  }

  lemma {:induction false} BetweenIsLog(s: SpaceState, log: seq<LogBatch>, from: nat, to: nat)
    requires Mirrors(s, log) && s.admitCursors.head <= from <= to <= s.admitCursors.tail
    ensures Between(s.admits, from, to) == log[from - 1..to - 1]
  {
    if from < to {
      BetweenIsLog(s, log, from, to - 1);
    }
  }

  lemma {:induction false} DiscardMirrors(s: SpaceState, log: seq<LogBatch>, to: nat)
    requires Mirrors(s, log) && TrimAdmits(s, to).Ok?
    ensures Mirrors(TrimAdmits(s, to).value, log)
  {}

  lemma {:induction false} AppendMirrors(s: SpaceState, log: seq<LogBatch>, b: LogBatch)
    requires Mirrors(s, log)
    ensures Mirrors(s, log + [b]) && (log + [b])[..s.admitCursors.neck - 1] == log[..s.admitCursors.neck - 1]
  {}

  lemma {:induction false} MarkApplies(s: SpaceState, log: seq<LogBatch>, applied: seq<LogBatch>, to: nat)
    requires Mirrors(s, log) && applied == log[..s.admitCursors.neck - 1] && MarkApplied(s, to).Ok?
    ensures Mirrors(MarkApplied(s, to).value, log)
    ensures applied + Between(s.admits, s.admitCursors.neck, to) == log[..to - 1]
  {
    BetweenIsLog(s, log, s.admitCursors.neck, to);
  }

  lemma {:induction false} NextKeeps(y: System, step: Step)
    requires Inv(y) && Enabled(y, step)
    ensures Inv(Next(y, step))
  {
    match step
    case Admitted(b) => AppendMirrors(y.s, y.log, b);
    case Captured(through) => CaptureMirrors(y.s, y.log, through);
    case MarkedApplied(to) => MarkApplies(y.s, y.log, y.applied, to);
    case Discarded(to) => DiscardMirrors(y.s, y.log, to);
  }

  ghost predicate IsRun(run: seq<System>, steps: seq<Step>) {
    && |run| == |steps| + 1 && run[0] == BOOT
    && forall i :: 0 <= i < |steps| ==> Enabled(run[i], steps[i]) && run[i + 1] == Next(run[i], steps[i])
  }

  /**
   Over every interleaving of appends, captures, apply marks and discards: the
   retained batches are the server's own, nothing unapplied is discarded, and
   the batches applied so far are exactly the server's log, once each and in
   order, up to the neck.
   */
  lemma {:induction false} EveryRunMirrors(run: seq<System>, steps: seq<Step>, i: nat)
    requires IsRun(run, steps) && i < |run|
    ensures Inv(run[i])
  {
    if i > 0 {
      EveryRunMirrors(run, steps, i - 1);
      NextKeeps(run[i - 1], steps[i - 1]);
    }
  }

  /** What has been applied stays applied, and the next mark continues where the last one stopped. */
  lemma {:induction false} AppliedOnlyGrows(run: seq<System>, steps: seq<Step>, i: nat, j: nat)
    requires IsRun(run, steps) && i <= j < |run|
    ensures run[i].applied <= run[j].applied && run[i].log <= run[j].log
  {
    if i < j {
      AppliedOnlyGrows(run, steps, i, j - 1);
    }
  }

  // ----- the paging loop ----------------------------------------------------------------

  datatype PullRun = Caught(through: nat) | NoAnswer | MalformedResponse | Unreadable | StoreFault(error: StoreError)

  /** Whether every operation of a page decrypts. */
  method OpensAll(batches: seq<LogBatch>, opens: AdmittedEntry -> bool) returns (ok: bool)
    ensures ok <==> forall b, e :: b in batches && e in b.entries ==> opens(e)
  {
    for i := 0 to |batches|
      invariant forall b, e :: b in batches[..i] && e in b.entries ==> opens(e)
    {
      var entries := batches[i].entries;
      for j := 0 to |entries|
        invariant forall e :: e in entries[..j] ==> opens(e)
      {
        if !opens(entries[j]) {
          assert batches[i] in batches && entries[j] in batches[i].entries;
          return false;
        }
        assert entries[..j + 1] == entries[..j] + [entries[j]];
      }
      assert entries[..|entries|] == entries;
      assert batches[..i + 1] == batches[..i] + [batches[i]];
    }
    assert batches[..|batches|] == batches;
    return true;
  }

  /** One request for a page: the cursor it asked after, the log it met and what came back. */
  datatype Ask = Ask(after: nat, met: seq<LogBatch>, page: Option<PullResponse>)

  /**
   Where pages come from: the server's log, or, if not `honest`, anything at all. Unless it `answers` every
   request, one may stay unanswered. `asks` lists the requests.
   */
  class Source {
    const server: SpaceServer.Server
    const honest: bool
    const answers: bool
    ghost var asks: seq<Ask>

    constructor (s: SpaceServer.Server, h: bool, a: bool)
      ensures server == s && honest == h && answers == a && asks == []
    {
      server, honest, answers, asks := s, h, a, [];
    }

    /** The request itself, which may not be answered. */
    method Serve(after: nat, cap: nat) returns (page: Option<PullResponse>)
      requires server.Valid()
      ensures honest && answers && after <= |server.log| ==> page.Some?
      ensures honest && after <= |server.log| && page.Some? ==>
                var through := Min(|server.log|, after + cap);
                page.value == PullResponse(after, through, server.log[after..through])
    {
      var lost: bool := *;
      if lost && !answers {
        return None;
      }
      if honest {
        page := server.Pull(after, Some(cap));
      } else {
        page := *;
      }
    }

    /** `served` is the log the request met; any requests of any device are served before and after it. */
    method Pull(after: nat, cap: nat) returns (page: Option<PullResponse>, ghost served: seq<LogBatch>)
      requires server.Valid()
      modifies server, this`asks
      ensures server.Valid() && old(server.log) <= served <= server.log
      ensures asks == old(asks) + [Ask(after, served, page)]
      ensures honest && answers && after <= |served| ==> page.Some?
      ensures honest && after <= |served| && page.Some? ==>
                var through := Min(|served|, after + cap);
                page.value == PullResponse(after, through, served[after..through])
    {
      SpaceServer.Meanwhile(server, None);
      served := server.log;
      page := Serve(after, cap);
      SpaceServer.Meanwhile(server, None);
      asks := asks + [Ask(after, served, page)];
    }
  }

  /** The last request made since `before`. */
  function LastAsk(before: seq<Ask>, asks: seq<Ask>): Option<Ask> {
    if |before| < |asks| then Some(asks[|asks| - 1]) else None
  }

  /** What capturing does: extend the tail, and mirror an honest log, which itself may have grown. */
  ghost predicate Capturing(s: SpaceState, s': SpaceState, honest: bool, log: seq<LogBatch>, log': seq<LogBatch>) {
    && s'.cursors == s.cursors && s'.oplog == s.oplog && s'.checksum == s.checksum
    && s'.admitCursors == s.admitCursors.(tail := s'.admitCursors.tail) && s.admitCursors.tail <= s'.admitCursors.tail
    && (Certified(s) ==> Certified(s'))
    && (honest && Mirrors(s, log) ==> Mirrors(s', log'))
  }

  /** A window of a log is a window of every longer one. */
  lemma {:induction false} MirrorsLonger(s: SpaceState, log: seq<LogBatch>, longer: seq<LogBatch>)
    requires Mirrors(s, log) && log <= longer
    ensures Mirrors(s, longer)
  {}

  lemma {:induction false} PageIsCaptured(s: SpaceState, page: PullResponse, honest: bool, log: seq<LogBatch>,
                                          log': seq<LogBatch>)
    requires Dense(page) && AppendFault(s, page).None?
    requires honest && Mirrors(s, log) ==> Mirrors(AppendAdmits(s, page), log')
    ensures Capturing(s, AppendAdmits(s, page), honest, log, log')
    ensures page.batches != [] ==>
            AppendAdmits(s, page).admitCursors.tail == s.admitCursors.tail + |page.batches| <= MAX_U64
  {
    if Certified(s) {
      AppendKeeps(s, page);
    }
  }

  lemma {:induction false} ServerLogOk(log: seq<LogBatch>)
    requires SpaceServer.LogValid(log)
    ensures LogOk(log)
  {
    forall i | 0 <= i < |log| ensures log[i].admissionSeq == i + 1 && WellFormed(log[i]) {
      SpaceServer.LinkIsWellFormed(log, i);
    }
  }

  datatype PageResult = More | Stop(run: PullRun)

  /** Some operation of the log does not decrypt. */
  ghost predicate SomeClosed(log: seq<LogBatch>, opens: AdmittedEntry -> bool) {
    exists b, e :: b in log && e in b.entries && !opens(e)
  }

  /** Ask for the next page and check it before anything is stored. */
  method FetchPage(source: Source, after: nat, opens: AdmittedEntry -> bool)
    returns (page: Option<PullResponse>, stop: PullRun, ghost served: seq<LogBatch>, ghost ask: Ask)
    requires source.server.Valid()
    modifies source.server, source`asks
    ensures source.server.Valid() && old(source.server.log) <= served <= source.server.log && LogOk(served)
    ensures source.asks == old(source.asks) + [ask] && ask.after == after && ask.met == served
    ensures page.None? && stop.NoAnswer? ==> ask.page.None?
    ensures page.Some? ==> page.value.after == after && Dense(page.value) && |page.value.batches| <= DEFAULT_PULL_CAP
    ensures source.honest && after <= |served| ==>
              var through := Min(|served|, after + DEFAULT_PULL_CAP);
              if page.Some? then page.value == PullResponse(after, through, served[after..through])
              else (stop.NoAnswer? && !source.answers) || (stop.Unreadable? && SomeClosed(served, opens))
  {
    page, served := source.Pull(after, DEFAULT_PULL_CAP);
    ask := Ask(after, served, page);
    ServerLogOk(source.server.log);
    OkPrefix(served, source.server.log);
    if page.None? {
      return None, NoAnswer, served, ask;
    }
    if source.honest && after <= |served| {
      PageIsDense(served, after, Min(|served|, after + DEFAULT_PULL_CAP));
    }
    if page.value.after != after {
      return None, MalformedResponse, served, ask;
    }
    var malformed := ValidateDense(page.value);
    if malformed.Some? {
      return None, MalformedResponse, served, ask;
    }
    if |page.value.batches| > DEFAULT_PULL_CAP {
      return None, MalformedResponse, served, ask;
    }
    var ok := OpensAll(page.value.batches, opens);
    if !ok {
      return None, Unreadable, served, ask;
    }
    stop := NoAnswer;
  }

  lemma {:induction false} OkPrefix(log: seq<LogBatch>, longer: seq<LogBatch>)
    requires LogOk(longer) && log <= longer
    ensures LogOk(log)
  {
    forall i | 0 <= i < |log| ensures log[i].admissionSeq == i + 1 && WellFormed(log[i]) {
      assert log[i] == longer[i];
    }
  }

  /** An honest page of the served log is accepted, and the store then mirrors it and every longer log. */
  lemma {:induction false} ServedPageFits(s: SpaceState, log: seq<LogBatch>, served: seq<LogBatch>,
                                          longer: seq<LogBatch>, page: PullResponse)
    requires Mirrors(s, log) && log <= served <= longer && LogOk(served)
    requires page == PageOf(served, s.admitCursors.tail - 1)
    ensures Mirrors(s, longer) && Mirrors(AppendAdmits(s, page), longer)
    ensures |served| < MAX_U64 ==> AppendFault(s, page).None?
    ensures |page.batches| < DEFAULT_PULL_CAP ==> page.through == |served|
    ensures page.batches != [] ==> AppendAdmits(s, page).admitCursors.tail == page.through + 1
    ensures page.batches == [] ==> AppendAdmits(s, page) == s && page.through == s.admitCursors.tail - 1
  {
    MirrorsLonger(s, log, served);
    MirrorsLonger(s, served, longer);
    CaptureMirrors(s, served, page.through);
    MirrorsLonger(AppendAdmits(s, page), served, longer);
  }

  /** The page an honest server serves after a cursor. */
  function PageOf(log: seq<LogBatch>, after: nat): PullResponse
    requires after <= |log|
  {
    var through := Min(|log|, after + DEFAULT_PULL_CAP);
    PullResponse(after, through, log[after..through])
  }

  /** Capture one checked page; a short one is the last. */
  method StorePage(store: MetaStore.MetaStore, page: PullResponse, ghost honest: bool, ghost log: seq<LogBatch>,
                   ghost served: seq<LogBatch>, ghost longer: seq<LogBatch>)
    returns (result: PageResult)
    requires Dense(page) && page.after + 1 == store.admitCursors.tail
    requires honest && Mirrors(store.State(), log) ==>
               log <= served <= longer && LogOk(served) && page == PageOf(served, page.after)
    modifies store
    ensures Capturing(old(store.State()), store.State(), honest, log, longer)
    ensures result.More? ==> old(store.admitCursors.tail) < store.admitCursors.tail <= MAX_U64
    ensures honest && old(Mirrors(store.State(), log)) && |served| < MAX_U64 && result.Stop? ==>
              result.run == Caught(|served|) && store.admitCursors.tail == |served| + 1
  {
    ghost var s := store.State();
    if honest && Mirrors(s, log) {
      ServedPageFits(s, log, served, longer, page);
    }
    var error := store.Append(page);
    if error.Some? {
      return Stop(StoreFault(error.value));
    }
    PageIsCaptured(s, page, honest, log, longer);
    if |page.batches| < DEFAULT_PULL_CAP {
      return Stop(Caught(page.through));
    }
    return More;
  }

  /** Request, check and capture one page. */
  method PullPage(store: MetaStore.MetaStore, source: Source, opens: AdmittedEntry -> bool)
    returns (result: PageResult, ghost served: seq<LogBatch>)
    requires source.server.Valid()
    modifies store, source.server, source`asks
    ensures source.server.Valid() && old(source.server.log) <= served <= source.server.log
    ensures Capturing(old(store.State()), store.State(), source.honest, old(source.server.log), source.server.log)
    ensures result.More? ==> old(store.admitCursors.tail) < store.admitCursors.tail <= MAX_U64
    ensures old(source.asks) <= source.asks
    ensures source.honest && old(Mirrors(store.State(), source.server.log)) && |served| < MAX_U64 && result.Stop? ==>
              FaithfulStop(store.State(), served, source.answers, LastAsk(old(source.asks), source.asks), opens,
                           result.run)
  {
    ghost var s, log := store.State(), source.server.log;
    if store.admitCursors.tail == 0 {
      return Stop(MalformedResponse), log;
    }
    var page, stop;
    ghost var ask;
    page, stop, served, ask := FetchPage(source, store.admitCursors.tail - 1, opens);
    if source.honest && Mirrors(s, log) {
      MirrorsLonger(s, log, source.server.log);
    }
    if page.None? {
      return Stop(stop), served;
    }
    result := StorePage(store, page.value, source.honest, log, served, source.server.log);
  }

  /**
   Against an honest server a pull ends caught up with the log its last page was served from, at an operation
   that does not decrypt, or, only where answers can be lost, with a last request that was not answered.
   */
  ghost predicate FaithfulStop(s: SpaceState, served: seq<LogBatch>, answers: bool, ask: Option<Ask>,
                               opens: AdmittedEntry -> bool, run: PullRun)
  {
    && ask.Some? && ask.value.met == served
    && match run
      case Caught(through) => through == |served| == s.admitCursors.tail - 1
      case NoAnswer => !answers && ask.value.after == s.admitCursors.tail - 1 && ask.value.page.None?
      case Unreadable => SomeClosed(served, opens)
      case _ => false
  }

  /**
   Capture pages until a short one, while the log may grow before and after every page. Against an honest
   server that captures all of the log the last page was served from, and mirrors the final log.
   */
  method PullInner(store: MetaStore.MetaStore, source: Source, opens: AdmittedEntry -> bool)
    returns (run: PullRun, ghost served: seq<LogBatch>)
    requires source.server.Valid()
    modifies store, source.server, source`asks
    ensures source.server.Valid() && old(source.server.log) <= served <= source.server.log
    ensures Capturing(old(store.State()), store.State(), source.honest, old(source.server.log), source.server.log)
    ensures source.honest && old(Mirrors(store.State(), source.server.log)) && |served| < MAX_U64 ==>
              && FaithfulStop(store.State(), served, source.answers, LastAsk(old(source.asks), source.asks), opens, run)
              && (source.answers && !SomeClosed(served, opens) ==>
                run == Caught(|served|) && store.admitCursors.tail == |served| + 1)
  {
    var result;
    result, served := PullPage(store, source, opens);
    while result.More?
      invariant source.server.Valid() && old(source.server.log) <= served <= source.server.log
      invariant Capturing(old(store.State()), store.State(), source.honest, old(source.server.log), source.server.log)
      invariant result.More? ==> store.admitCursors.tail <= MAX_U64
      invariant old(source.asks) <= source.asks
      invariant source.honest && old(Mirrors(store.State(), source.server.log)) && |served| < MAX_U64 ==>
                  result.Stop? ==> FaithfulStop(store.State(), served, source.answers,
                                                LastAsk(old(source.asks), source.asks), opens, result.run)
      decreases result.More?, MAX_U64 - store.admitCursors.tail
    {
      result, served := PullPage(store, source, opens);
    }
    return result.run, served;
  }
}
