/**
 The per-space permit of a client session (client/src/coordination.rs).

 One loop owns the queues of waiters. A grant is a message to a waiter that may
 have gone away; a permit is held by whoever received its grant and returns a
 message when dropped. The model takes every interleaving of entering,
 cancelling, receiving, dropping and handling messages.
 */
module Coordination {
  import opened Types

  type Space = nat
  type Waiter = nat

  /** `from` names the permit a Leave comes from; the loop never looks at it. */
  datatype Command = Enter(space: Space, waiter: Waiter) | Leave(space: Space, from: Waiter)

  /**
   `active` is the loop's own state. The rest is the world around it: which waiters
   have been dropped, which grants were sent, which permits are held, and for
   each space who asked, in order, and who has been dealt with.
   */
  datatype System = System(
    active: map<Space, seq<Waiter>>, inbox: seq<Command>, owner: map<Waiter, Space>,
    cancelled: set<Waiter>, granted: set<Waiter>, open: set<Waiter>, received: set<Waiter>, holding: set<Waiter>,
    arrived: map<Space, seq<Waiter>>, settled: map<Space, seq<Waiter>>)

  const IDLE := System(map[], [], map[], {}, {}, {}, {}, {}, map[], map[])

  function At(m: map<Space, seq<Waiter>>, s: Space): seq<Waiter> { if s in m then m[s] else [] }

  /** How many waiters at the front of a queue have gone away. */
  function Gone(queue: seq<Waiter>, cancelled: set<Waiter>): (n: nat)
    ensures n <= |queue| && (forall i :: 0 <= i < n ==> queue[i] in cancelled)
            && (n < |queue| ==> queue[n] !in cancelled)
  {
    if queue == [] || queue[0] !in cancelled then 0 else 1 + Gone(queue[1..], cancelled)
  }

  /** The waiters a release takes off the queue. */
  function Taken(queue: seq<Waiter>, cancelled: set<Waiter>): seq<Waiter> {
    var n := Gone(queue, cancelled);
    if n < |queue| then queue[..n + 1] else queue
  }

  // ----- the loop ------------------------------------------------------------------------------

  /** The queues after a space is released, and the waiter its grant goes to. */
  function Released(active: map<Space, seq<Waiter>>, s: Space, cancelled: set<Waiter>): (map<Space, seq<Waiter>>,
                    Option<Waiter>) {
    if s !in active then (active, None)
    else
      var n := Gone(active[s], cancelled);
      if n < |active[s]| then (active[s := active[s][n + 1..]], Some(active[s][n])) else (active - {s}, None)
  }

  function Entered(active: map<Space, seq<Waiter>>, s: Space, w: Waiter,
                   cancelled: set<Waiter>): (map<Space, seq<Waiter>>, Option<Waiter>) {
    if s in active then (active[s := active[s] + [w]], None)
    else if w !in cancelled then (active[s := []], Some(w))
    else (active, None)
  }

  class CoordinationLoop {
    var active: map<Space, seq<Waiter>>

    constructor ()
      ensures active == map[]
    {
      active := map[];
    }

    /** Pass the space to the first waiter still there; forget it when none is. */
    method GrantNext(s: Space, cancelled: set<Waiter>) returns (grant: Option<Waiter>)
      modifies this
      ensures (active, grant) == Released(old(active), s, cancelled)
    {
      if s !in active {
        return None;
      }
      var waiters := active[s];
      ghost var all, popped := waiters, 0;
      active := active - {s};
      while waiters != []
        invariant 0 <= popped <= |all| && waiters == all[popped..] && popped <= Gone(all, cancelled)
        invariant active == old(active) - {s}
        decreases |waiters|
      {
        var waiter := waiters[0];
        waiters := waiters[1..];
        assert waiters == all[popped + 1..];
        if waiter !in cancelled {
          assert Gone(all, cancelled) == popped;
          active := active[s := waiters];
          assert active == old(active)[s := waiters];
          return Some(waiter);
        }
        popped := popped + 1;
      }
      return None;
    }

    method Handle(command: Command, cancelled: set<Waiter>) returns (grant: Option<Waiter>)
      modifies this
      ensures (active, grant) == match command
                                 case Enter(s, w) => Entered(old(active), s, w, cancelled)
                                 case Leave(s, _) => Released(old(active), s, cancelled)
    {
      match command
      case Enter(s, w) =>
        if s in active {
          active := active[s := active[s] + [w]];
          return None;
        }
        if w !in cancelled {
          active := active[s := []];
          return Some(w);
        }
        return None;
      case Leave(s, _) =>
        grant := GrantNext(s, cancelled);
    }
  }

  // ----- the world -----------------------------------------------------------------------------

  datatype Step =
    | Ask(space: Space, waiter: Waiter)
    | Cancel(waiter: Waiter)
    | Receive(waiter: Waiter)
    | Drop(waiter: Waiter)
    | HandleNext

  predicate Enabled(y: System, step: Step) {
    match step
    case Ask(_, w) => w !in y.owner
    case Cancel(w) => w in y.owner && w !in y.received
    case Receive(w) => w in y.granted && w !in y.received && w !in y.cancelled
    case Drop(w) => w in y.holding
    case HandleNext => y.inbox != []
  }

  function Sent(granted: set<Waiter>, grant: Option<Waiter>): set<Waiter> {
    if grant.Some? then granted + {grant.value} else granted
  }

  function Next(y: System, step: Step): System
    requires Enabled(y, step)
  {
    match step
    case Ask(s, w) =>
      y.(inbox := y.inbox + [Enter(s, w)], owner := y.owner[w := s], arrived := y.arrived[s := At(y.arrived, s) + [w]])
    case Cancel(w) => y.(cancelled := y.cancelled + {w})
    case Receive(w) => y.(received := y.received + {w}, holding := y.holding + {w})
    case Drop(w) =>
      y.(holding := y.holding - {w}, inbox := y.inbox + [Leave(if w in y.owner then y.owner[w] else 0, w)])
    case HandleNext => Handled(y)
  }

  function Handled(y: System): System
    requires y.inbox != []
  {
    match y.inbox[0]
    case Enter(s, w) =>
      var (active, grant) := Entered(y.active, s, w, y.cancelled);
      y.(active := active, inbox := y.inbox[1..], granted := Sent(y.granted, grant), open := Sent(y.open, grant),
         settled := if s in y.active then y.settled else y.settled[s := At(y.settled, s) + [w]])
    case Leave(s, from) =>
      var (active, grant) := Released(y.active, s, y.cancelled);
      y.(active := active, inbox := y.inbox[1..], granted := Sent(y.granted, grant),
        open := Sent(y.open - {from}, grant),
         settled := y.settled[s := At(y.settled, s) + Taken(At(y.active, s), y.cancelled)])
  }

  // ----- mutual exclusion -----------------------------------------------------------------------

  /**
   A grant stays open from the moment it is sent until the loop has handled the Leave
   of its permit. There is at most one open grant per space.
   */
  ghost predicate Exclusive(y: System) {
    && y.open <= y.granted && y.granted <= y.owner.Keys && y.received <= y.granted
    && (forall w :: w in y.open ==> y.owner[w] in y.active)
    && (forall v, w :: v in y.open && w in y.open && y.owner[v] == y.owner[w] ==> v == w)
    && y.holding <= y.open && y.holding <= y.received
    && (forall w :: w in y.granted && w !in y.received ==> w in y.open)
    && (forall i :: 0 <= i < |y.inbox| && y.inbox[i].Leave? ==>
          var w := y.inbox[i].from; w in y.open && w in y.received && w !in y.holding && y.owner[w] == y.inbox[i].space)
    && (forall i, j :: 0 <= i < j < |y.inbox| && y.inbox[i].Leave? && y.inbox[j].Leave? ==>
      y.inbox[i].from != y.inbox[j].from)
  }

  /** Somebody has an open grant for the space. */
  ghost predicate OpenAt(y: System, s: Space) {
    exists w :: w in y.open && w in y.owner && y.owner[w] == s
  }

  /** A space is kept only while a grant for it is open. */
  ghost predicate Occupied(y: System) {
    forall s :: s in y.active ==> OpenAt(y, s)
  }

  // ----- order ------------------------------------------------------------------------------

  /** The waiters of one space whose request is still in the inbox. */
  function Pending(inbox: seq<Command>, s: Space): seq<Waiter> {
    if inbox == [] then []
    else (if inbox[0].Enter? && inbox[0].space == s then [inbox[0].waiter] else []) + Pending(inbox[1..], s)
  }

  lemma {:induction false} PendingAppend(inbox: seq<Command>, c: Command, s: Space)
    ensures Pending(inbox + [c], s) == Pending(inbox, s) + if c.Enter? && c.space == s then [c.waiter] else []
  {
    if inbox == [] {
      assert (inbox + [c])[1..] == [];
    } else {
      PendingAppend(inbox[1..], c, s);
      assert (inbox + [c])[1..] == inbox[1..] + [c];
    }
  }

  predicate NoRepeats(ws: seq<Waiter>) { forall i, j :: 0 <= i < j < |ws| ==> ws[i] != ws[j] }

  /** Everyone who asked for a space is dealt with, queued, or still in the inbox, in that order. */
  ghost predicate LinedAt(y: System, s: Space) {
    && At(y.arrived, s) == At(y.settled, s) + At(y.active, s) + Pending(y.inbox, s)
    && NoRepeats(At(y.arrived, s))
    && (forall w :: w in At(y.arrived, s) ==> w in y.owner && y.owner[w] == s)
    && (forall w :: w in At(y.settled, s) ==> w in y.granted || w in y.cancelled)
    && (forall w :: w in y.granted && w in y.owner && y.owner[w] == s ==> w in At(y.settled, s))
  }

  ghost predicate Inv(y: System) { Exclusive(y) && Occupied(y) && forall s :: LinedAt(y, s) }

  lemma {:induction false} Apart(a: seq<Waiter>, b: seq<Waiter>, w: Waiter)
    requires NoRepeats(a + b) && w in b
    ensures w !in a
  {
    var i :| 0 <= i < |b| && b[i] == w;
    assert (a + b)[|a| + i] == w;
    forall j | 0 <= j < |a| ensures a[j] != w {
      assert (a + b)[j] == a[j];
    }
  }

  lemma {:induction false} NotYetGranted(y: System, s: Space, w: Waiter)
    requires LinedAt(y, s) && (w in At(y.active, s) || w in Pending(y.inbox, s))
    ensures w in y.owner && y.owner[w] == s && w !in y.granted
  {
    var a, b := At(y.settled, s), At(y.active, s) + Pending(y.inbox, s);
    assert w in b;
    assert At(y.arrived, s) == a + b;
    assert w in a + b;
    Apart(a, b, w);
  }

  lemma {:induction false} NoRepeatsAppend(ws: seq<Waiter>, w: Waiter)
    requires NoRepeats(ws) && w !in ws
    ensures NoRepeats(ws + [w])
  {}

  lemma {:induction false} AskLines(y: System, s: Space, w: Waiter, t: Space)
    requires LinedAt(y, t) && Enabled(y, Ask(s, w)) && y.granted <= y.owner.Keys
    ensures LinedAt(Next(y, Ask(s, w)), t)
  {
    var y' := Next(y, Ask(s, w));
    PendingAppend(y.inbox, Enter(s, w), t);
    if t == s {
      Associate(At(y.settled, t) + At(y.active, t), Pending(y.inbox, t), [w]);
      NoRepeatsAppend(At(y.arrived, t), w);
    } else {
      assert At(y'.arrived, t) == At(y.arrived, t);
      Associate(At(y.settled, t) + At(y.active, t), Pending(y.inbox, t), []);
    }
  }

  lemma {:induction false} AskExcludes(y: System, s: Space, w: Waiter)
    requires Exclusive(y) && Enabled(y, Ask(s, w))
    ensures Exclusive(Next(y, Ask(s, w)))
  {}

  lemma {:induction false} AskOccupies(y: System, s: Space, w: Waiter)
    requires Exclusive(y) && Occupied(y) && Enabled(y, Ask(s, w))
    ensures Occupied(Next(y, Ask(s, w)))
  {
    var y' := Next(y, Ask(s, w));
    forall t | t in y'.active ensures OpenAt(y', t) {
      var v :| v in y.open && v in y.owner && y.owner[v] == t;
      assert v in y'.open && y'.owner[v] == t;
    }
  }

  lemma {:induction false} DropLines(y: System, w: Waiter, t: Space)
    requires LinedAt(y, t) && Enabled(y, Drop(w))
    ensures LinedAt(Next(y, Drop(w)), t)
  {
    PendingAppend(y.inbox, Leave(if w in y.owner then y.owner[w] else 0, w), t);
    assert Pending(y.inbox, t) + [] == Pending(y.inbox, t);
  }

  lemma {:induction false} DropExcludes(y: System, w: Waiter)
    requires Exclusive(y) && Enabled(y, Drop(w))
    ensures Exclusive(Next(y, Drop(w)))
  {}

  /** The front of one queue has been settled: everyone moved was granted or had gone away. */
  ghost predicate Moves(y: System, y': System, s: Space, moved: seq<Waiter>) {
    && y'.owner == y.owner && y'.cancelled == y.cancelled && At(y'.arrived, s) == At(y.arrived, s)
    && At(y'.settled, s) == At(y.settled, s) + moved && At(y.active, s) == moved + At(y'.active, s)
    && Pending(y'.inbox, s) == Pending(y.inbox, s) && y.granted <= y'.granted
    && (forall w :: w in moved ==> w in y'.granted || w in y.cancelled)
    && (forall w :: w in y'.granted && w !in y.granted && w in y.owner && y.owner[w] == s ==> w in moved)
  }

  lemma {:induction false} MovesKeepLine(y: System, y': System, s: Space, moved: seq<Waiter>)
    requires LinedAt(y, s) && Moves(y, y', s, moved)
    ensures LinedAt(y', s)
  {
    Associate(At(y.settled, s), moved, At(y'.active, s));
  }

  lemma {:induction false} PendingRest(inbox: seq<Command>, s: Space)
    requires inbox != [] && (inbox[0].Leave? || inbox[0].space != s)
    ensures Pending(inbox[1..], s) == Pending(inbox, s)
  {
    assert [] + Pending(inbox[1..], s) == Pending(inbox[1..], s);
  }

  lemma {:induction false} NothingMoves(a: seq<Waiter>)
    ensures a + [] == a && [] + a == a
  {}

  /** Handling a message about one space leaves the lines of the others alone. */
  lemma {:induction false} OtherLines(y: System, t: Space)
    requires LinedAt(y, t) && y.inbox != [] && y.inbox[0].space != t
    requires forall w :: w in Handled(y).granted && w !in y.granted ==> w in y.owner && y.owner[w] != t
    ensures LinedAt(Handled(y), t)
  {
    PendingRest(y.inbox, t);
    NothingMoves(At(y.settled, t));
    NothingMoves(At(y.active, t));
    MovesKeepLine(y, Handled(y), t, []);
  }

  lemma {:induction false} MoveUp(a: seq<Waiter>, b: seq<Waiter>, w: Waiter, c: seq<Waiter>)
    ensures a + b + ([w] + c) == a + (b + [w]) + c && a + [] + ([w] + c) == (a + [w]) + [] + c
  {}

  lemma {:induction false} EnterQueues(y: System)
    requires y.inbox != [] && y.inbox[0].Enter? && y.inbox[0].space in y.active && LinedAt(y, y.inbox[0].space)
    ensures LinedAt(Handled(y), y.inbox[0].space)
  {
    var s, w := y.inbox[0].space, y.inbox[0].waiter;
    MoveUp(At(y.settled, s), At(y.active, s), w, Pending(y.inbox[1..], s));
  }

  lemma {:induction false} EnterSettles(y: System)
    requires y.inbox != [] && y.inbox[0].Enter? && y.inbox[0].space !in y.active && LinedAt(y, y.inbox[0].space)
    ensures LinedAt(Handled(y), y.inbox[0].space)
  {
    var s, w := y.inbox[0].space, y.inbox[0].waiter;
    MoveUp(At(y.settled, s), [], w, Pending(y.inbox[1..], s));
    assert w in Pending(y.inbox, s);
    NotYetGranted(y, s, w);
  }

  lemma {:induction false} EnterExcludes(y: System)
    requires Exclusive(y) && y.inbox != [] && y.inbox[0].Enter? && LinedAt(y, y.inbox[0].space)
    ensures Exclusive(Handled(y))
    ensures forall w :: w in Handled(y).granted && w !in y.granted ==> w in y.owner && y.owner[w] == y.inbox[0].space
  {
    assert y.inbox[0].waiter in Pending(y.inbox, y.inbox[0].space);
    NotYetGranted(y, y.inbox[0].space, y.inbox[0].waiter);
  }

  lemma {:induction false} TakenSplits(queue: seq<Waiter>, cancelled: set<Waiter>)
    ensures var n := Gone(queue, cancelled);
      && queue == Taken(queue, cancelled) + (if n < |queue| then queue[n + 1..] else [])
      && (n < |queue| ==> queue[n] in Taken(queue, cancelled))
      && forall w :: w in Taken(queue, cancelled) ==> w in cancelled || (n < |queue| && w == queue[n])
  {
    var n := Gone(queue, cancelled);
    if n < |queue| {
      assert queue[..n + 1][n] == queue[n];
    }
  }

  lemma {:induction false} ReleaseMoves(y: System)
    requires y.inbox != [] && y.inbox[0].Leave?
    ensures Moves(y, Handled(y), y.inbox[0].space, Taken(At(y.active, y.inbox[0].space), y.cancelled))
  {
    var s := y.inbox[0].space;
    TakenSplits(At(y.active, s), y.cancelled);
    PendingRest(y.inbox, s);
  }

  lemma {:induction false} LeaveLines(y: System)
    requires y.inbox != [] && y.inbox[0].Leave? && LinedAt(y, y.inbox[0].space)
    ensures LinedAt(Handled(y), y.inbox[0].space)
  {
    ReleaseMoves(y);
    MovesKeepLine(y, Handled(y), y.inbox[0].space, Taken(At(y.active, y.inbox[0].space), y.cancelled));
  }

  lemma {:induction false} LeaveExcludes(y: System)
    requires Exclusive(y) && y.inbox != [] && y.inbox[0].Leave? && LinedAt(y, y.inbox[0].space)
    ensures Exclusive(Handled(y))
    ensures forall w :: w in Handled(y).granted && w !in y.granted ==> w in y.owner && y.owner[w] == y.inbox[0].space
  {
    var s := y.inbox[0].space;
    var (active, grant) := Released(y.active, s, y.cancelled);
    if grant.Some? {
      assert grant.value in At(y.active, s);
      NotYetGranted(y, s, grant.value);
    }
  }

  lemma {:induction false} StaysOpen(y: System, y': System, s: Space)
    requires OpenAt(y, s) && y'.owner == y.owner
    requires forall w :: w in y.open && w in y.owner && y.owner[w] == s ==> w in y'.open
    ensures OpenAt(y', s)
  {
    var w :| w in y.open && w in y.owner && y.owner[w] == s;
    assert w in y'.open;
  }

  lemma {:induction false} EnterOccupies(y: System)
    requires Exclusive(y) && Occupied(y) && y.inbox != [] && y.inbox[0].Enter? && LinedAt(y, y.inbox[0].space)
    ensures Occupied(Handled(y))
  {
    var s, w, y' := y.inbox[0].space, y.inbox[0].waiter, Handled(y);
    assert w in Pending(y.inbox, s);
    NotYetGranted(y, s, w);
    forall t | t in y'.active ensures OpenAt(y', t) {
      if t in y.active {
        StaysOpen(y, y', t);
      } else {
        assert w in y'.open && y'.owner[w] == t;
      }
    }
  }

  lemma {:induction false} LeaveOccupies(y: System)
    requires Exclusive(y) && Occupied(y) && y.inbox != [] && y.inbox[0].Leave? && LinedAt(y, y.inbox[0].space)
    ensures Occupied(Handled(y))
  {
    var s, y' := y.inbox[0].space, Handled(y);
    var grant := Released(y.active, s, y.cancelled).1;
    assert y.owner[y.inbox[0].from] == s && s in y.active;
    forall t | t in y'.active ensures OpenAt(y', t) {
      if t == s {
        assert grant.Some? && grant.value in At(y.active, s);
        NotYetGranted(y, s, grant.value);
        assert grant.value in y'.open && y'.owner[grant.value] == s;
      } else {
        StaysOpen(y, y', t);
      }
    }
  }

  lemma {:induction false} HandleKeeps(y: System)
    requires Inv(y) && y.inbox != []
    ensures Inv(Handled(y))
  {
    var s := y.inbox[0].space;
    assert LinedAt(y, s);
    if y.inbox[0].Enter? {
      EnterExcludes(y);
      EnterOccupies(y);
      if s in y.active {
        EnterQueues(y);
      } else {
        EnterSettles(y);
      }
    } else {
      LeaveExcludes(y);
      LeaveOccupies(y);
      LeaveLines(y);
    }
    forall t | t != s ensures LinedAt(Handled(y), t) {
      assert LinedAt(y, t);
      OtherLines(y, t);
    }
  }

  lemma {:induction false} NextKeeps(y: System, step: Step)
    requires Inv(y) && Enabled(y, step)
    ensures Inv(Next(y, step))
  {
    match step
    case Ask(s, w) =>
      AskExcludes(y, s, w);
      AskOccupies(y, s, w);
      forall t ensures LinedAt(Next(y, step), t) {
        AskLines(y, s, w, t);
      }
    case Cancel(w) => CancelKeeps(y, w);
    case Receive(w) => ReceiveKeeps(y, w);
    case Drop(w) =>
      DropExcludes(y, w);
      SameOpenings(y, Next(y, step));
      forall t ensures LinedAt(Next(y, step), t) {
        DropLines(y, w, t);
      }
    case HandleNext => HandleKeeps(y);
  }

  lemma {:induction false} SameOpenings(y: System, y': System)
    requires Occupied(y) && y'.active == y.active && y'.open == y.open && y'.owner == y.owner
    ensures Occupied(y')
  {
    forall s | s in y'.active ensures OpenAt(y', s) {
      StaysOpen(y, y', s);
    }
  }

  lemma {:induction false} CancelKeeps(y: System, w: Waiter)
    requires Inv(y) && Enabled(y, Cancel(w))
    ensures Inv(Next(y, Cancel(w)))
  {
    SameOpenings(y, Next(y, Cancel(w)));
    forall t ensures LinedAt(Next(y, Cancel(w)), t) {
      assert LinedAt(y, t);
    }
  }

  lemma {:induction false} ReceiveKeeps(y: System, w: Waiter)
    requires Inv(y) && Enabled(y, Receive(w))
    ensures Inv(Next(y, Receive(w)))
  {
    SameOpenings(y, Next(y, Receive(w)));
    forall t ensures LinedAt(Next(y, Receive(w)), t) {
      assert LinedAt(y, t);
    }
  }

  // ----- every run -------------------------------------------------------------------------------

  ghost predicate StepAt(run: seq<System>, steps: seq<Step>, i: nat)
    requires i < |steps| < |run|
  {
    Enabled(run[i], steps[i]) && run[i + 1] == Next(run[i], steps[i])
  }

  ghost predicate IsRun(run: seq<System>, steps: seq<Step>) {
    && |run| == |steps| + 1 && run[0] == IDLE
    && forall i :: 0 <= i < |steps| ==> StepAt(run, steps, i)
  }

  lemma {:induction false} RunKeeps(run: seq<System>, steps: seq<Step>, i: nat)
    requires IsRun(run, steps) && i < |run|
    ensures Inv(run[i])
  {
    if i > 0 {
      RunKeeps(run, steps, i - 1);
      assert StepAt(run, steps, i - 1);
      NextKeeps(run[i - 1], steps[i - 1]);
    }
  }

  /** At most one permit per space is held at any moment. */
  lemma {:induction false} OnePermitPerSpace(run: seq<System>, steps: seq<Step>, i: nat, v: Waiter, w: Waiter)
    requires IsRun(run, steps) && i < |run| && v in run[i].holding && w in run[i].holding
    ensures v in run[i].owner && w in run[i].owner && (run[i].owner[v] == run[i].owner[w] ==> v == w)
  {
    RunKeeps(run, steps, i);
  }

  /** A grant goes out only to a waiter that has never had one. */
  lemma {:induction false} GrantedOnce(run: seq<System>, steps: seq<Step>, i: nat)
    requires IsRun(run, steps) && i < |steps| && steps[i] == HandleNext
    ensures run[i].inbox != []
    ensures var y := run[i]; match y.inbox[0]
      case Enter(s, w) =>
        Entered(y.active, s, w, y.cancelled).1.Some? ==> Entered(y.active, s, w, y.cancelled).1.value !in y.granted
      case Leave(s, _) =>
        Released(y.active, s, y.cancelled).1.Some? ==> Released(y.active, s, y.cancelled).1.value !in y.granted
  {
    RunKeeps(run, steps, i);
    assert StepAt(run, steps, i);
    var y := run[i];
    var s := y.inbox[0].space;
    assert LinedAt(y, s);
    match y.inbox[0]
    case Enter(_, w) =>
      assert w in Pending(y.inbox, s);
      NotYetGranted(y, s, w);
    case Leave(_, _) =>
      var grant := Released(y.active, s, y.cancelled).1;
      if grant.Some? {
        assert grant.value in At(y.active, s);
        NotYetGranted(y, s, grant.value);
      }
  }

  /** Only the loop sends grants, one at a time, and only to waiters that are still there. */
  lemma {:induction false} GrantsReachSomebody(run: seq<System>, steps: seq<Step>, i: nat, w: Waiter)
    requires IsRun(run, steps) && i < |steps| && w in run[i + 1].granted && w !in run[i].granted
    ensures steps[i] == HandleNext && w !in run[i].cancelled && w in run[i + 1].open
    ensures forall v :: v in run[i + 1].granted && v !in run[i].granted ==> v == w
  {
    assert StepAt(run, steps, i);
  }

  /** A waiter that is still there and asks for a space nobody has an open grant for gets it at once. */
  lemma {:induction false} FreeSpaceIsGranted(run: seq<System>, steps: seq<Step>, i: nat, s: Space, w: Waiter)
    requires IsRun(run, steps) && i < |steps| && steps[i] == HandleNext && run[i].inbox != []
    requires run[i].inbox[0] == Enter(s, w) && w !in run[i].cancelled
    requires forall v :: v in run[i].open ==> v !in run[i].owner || run[i].owner[v] != s
    ensures w !in run[i].granted && w in run[i + 1].granted && w in run[i + 1].open
  {
    RunKeeps(run, steps, i);
    assert StepAt(run, steps, i);
    var y := run[i];
    assert s !in y.active;
    assert LinedAt(y, s) && w in Pending(y.inbox, s);
    NotYetGranted(y, s, w);
  }

  /** A space that is given back goes at once to the first waiter in its queue that is still there. */
  lemma {:induction false} ReleasedSpaceMovesOn(run: seq<System>, steps: seq<Step>, i: nat, s: Space, from: Waiter,
                                                k: nat)
    requires IsRun(run, steps) && i < |steps| && steps[i] == HandleNext && run[i].inbox != []
    requires run[i].inbox[0] == Leave(s, from) && k < |At(run[i].active, s)|
    requires At(run[i].active, s)[k] !in run[i].cancelled
    requires forall j :: 0 <= j < k ==> At(run[i].active, s)[j] in run[i].cancelled
    ensures var w := At(run[i].active, s)[k];
      w !in run[i].granted && w in run[i + 1].granted && w in run[i + 1].open && from !in run[i + 1].open
  {
    RunKeeps(run, steps, i);
    assert StepAt(run, steps, i);
    var y := run[i];
    var w := At(y.active, s)[k];
    assert LinedAt(y, s) && w in At(y.active, s);
    NotYetGranted(y, s, w);
    assert Gone(y.active[s], y.cancelled) == k;
  }

  /** Whoever asked for a space before a granted waiter has been granted it too, or has gone away. */
  lemma {:induction false} GrantsFollowArrival(run: seq<System>, steps: seq<Step>, i: nat, s: Space, a: nat, b: nat)
    requires IsRun(run, steps) && i < |run|
    requires a < b < |At(run[i].arrived, s)| && At(run[i].arrived, s)[b] in run[i].granted
    ensures At(run[i].arrived, s)[a] in run[i].granted || At(run[i].arrived, s)[a] in run[i].cancelled
  {
    RunKeeps(run, steps, i);
    var y := run[i];
    assert LinedAt(y, s);
    var all, done := At(y.arrived, s), At(y.settled, s);
    assert all[b] in all;
    assert all[b] in done;
    var j :| 0 <= j < |done| && done[j] == all[b];
    assert all[j] == done[j];
    assert j == b;
    assert all[a] == done[a] && done[a] in done;
  }
}
