/**
 One live IMAP connection per account (ios/Mailrs/Accounts/ImapPool.swift).

 The pool is an actor: a call runs without interruption up to its next `await`, and there
 any other call may run.  `Table` is what the actor holds, the class `ImapPool` is the actor
 with one method for each piece of code between two awaits, and `World` adds the calls that
 are suspended, the sessions that were ever opened, and the clock.
 */
module ImapPool {
  import opened Basics

  const FRESH_WINDOW := 30.0

  datatype Held = Held(session: nat, lastUsed: real)

  datatype Candidate = NoCandidate | Fresh(session: nat) | Idle(session: nat)

  /** The state of the actor. */
  datatype Table = Table(held: map<string, Held>, busy: set<string>, waiting: map<string, seq<nat>>) {

    function Queue(id: string): seq<nat> {
      if id in waiting then waiting[id] else []
    }

    function Enqueue(id: string, task: nat): Table {
      this.(waiting := waiting[id := Queue(id) + [task]])
    }

    function Occupy(id: string): Table {
      this.(busy := busy + {id})
    }

    function Release(id: string): Table {
      var queue := Queue(id);
      this.(busy := busy - {id}, waiting := if queue == [] then waiting else waiting[id := queue[1..]])
    }

    /** The call that a release wakes. */
    function Woken(id: string): Option<nat> {
      if Queue(id) == [] then None else Some(Queue(id)[0])
    }

    function Look(id: string, now: real): Candidate {
      if id !in held then NoCandidate
      else if now - held[id].lastUsed <= FRESH_WINDOW then Fresh(held[id].session)
      else Idle(held[id].session)
    }

    function Keep(id: string, session: nat, now: real): Table {
      this.(held := held[id := Held(session, now)])
    }

    function Forget(id: string): Table {
      this.(held := held - {id})
    }
  }

  class ImapPool {
    var held: map<string, Held>
    var busy: set<string>
    var waiting: map<string, seq<nat>>

    function State(): Table
      reads this
    {
      Table(held, busy, waiting)
    }

    constructor ()
      ensures State() == Table(map[], {}, map[])
    {
      held, busy, waiting := map[], {}, map[];
    }

    /** One turn of the loop in `acquire`: go in, or wait to be woken. */
    method Acquire(id: string, task: nat) returns (entered: bool)
      modifies this
      ensures entered == (id !in old(busy))
      ensures State() == if entered then old(State()).Occupy(id) else old(State()).Enqueue(id, task)
    {
      if id in busy {
        var queue := if id in waiting then waiting[id] else [];
        waiting := waiting[id := queue + [task]];
        return false;
      }
      busy := busy + {id};
      return true;
    }

    method Release(id: string) returns (woken: Option<nat>)
      modifies this
      ensures State() == old(State()).Release(id) && woken == old(State()).Woken(id)
    {
      busy := busy - {id};
      if id !in waiting || waiting[id] == [] {
        return None;
      }
      var queue := waiting[id];
      waiting := waiting[id := queue[1..]];
      return Some(queue[0]);
    }

    /** What `reusable` finds before it asks the server anything. */
    method Reusable(id: string, now: real) returns (c: Candidate)
      ensures c == State().Look(id, now)
    {
      if id !in held {
        return NoCandidate;
      }
      var candidate := held[id];
      if now - candidate.lastUsed <= FRESH_WINDOW {
        return Fresh(candidate.session);
      }
      return Idle(candidate.session);
    }

    /** The probe failed, or the action threw. */
    method Forget(id: string)
      modifies this
      ensures State() == old(State()).Forget(id)
    {
      held := held - {id};
    }

    /** A connection was opened and signed in. */
    method SignedIn(id: string, session: nat, now: real)
      modifies this
      ensures State() == old(State()).Keep(id, session, now)
    {
      held := held[id := Held(session, now)];
    }

    /** The action returned: put back only what `drop` has not taken away. */
    method Returned(id: string, session: nat, now: real)
      modifies this
      ensures State() == if id in old(held) then old(State()).Keep(id, session, now) else old(State())
    {
      if id in held {
        held := held[id := Held(session, now)];
      }
    }

    /** The first half of `drop`: what is left to be closed. */
    method Drop(id: string) returns (gone: Option<nat>)
      modifies this
      ensures gone == if id in old(held) then Some(old(held)[id].session) else None
      ensures State() == old(State()).Forget(id)
    {
      if id !in held {
        assert held - {id} == held;
        return None;
      }
      gone := Some(held[id].session);
      held := held - {id};
    }
  }

  // ----- calls in flight

  /** Where a call is suspended.  The argument is the session it has in hand. */
  datatype Phase =
    | Waiting                       // in `acquire`, queued
    | Awake                         // in `acquire`, resumed but not yet running
    | Probing(s: nat)               // awaiting the answer to NOOP
    | ClosingStale(s: nat)          // the probe failed, closing; a new connection comes next
    | Connecting(s: nat)            // awaiting connection and sign-in
    | ClosingRefused(s: nat)        // sign-in failed, closing
    | Running(s: nat)               // inside the action
    | ClosingFailed(s: nat)         // the action threw, closing
    | ClosingDropped(s: nat)        // in `drop`

  datatype Call = Call(id: string, phase: Phase) {
    predicate HasSession() {
      !phase.Waiting? && !phase.Awake?
    }

    /** Inside `use`, past `acquire`. */
    predicate Inside() {
      HasSession() && !phase.ClosingDropped?
    }

    predicate Closing() {
      phase.ClosingStale? || phase.ClosingRefused? || phase.ClosingFailed? || phase.ClosingDropped?
    }

    /** Inside `use` with the connection that the table keeps, or kept until it was dropped. */
    predicate OnKept() {
      phase.Probing? || phase.Running?
    }
  }

  /** `owner[s]` is the account that session `s` was opened for. */
  datatype World = World(table: Table, calls: map<nat, Call>, owner: seq<string>, closed: set<nat>, clock: real)

  /** What happens next to one call.  `Tick` moves the clock, forwards or back, and concerns no call. */
  datatype Act =
    | CallUse(id: string)
    | Resume
    | ProbeAnswered
    | ProbeFailed
    | StaleClosed
    | SignedIn
    | SignInFailed
    | RefusedClosed
    | ActionReturned
    | ActionThrew
    | FailedClosed
    | CallDrop(id: string)
    | DropClosed
    | Tick(now: real)

  datatype Event = Event(t: nat, act: Act)

  const START := World(Table(map[], {}, map[]), map[], [], {}, 0.0)

  predicate Possible(w: World, e: Event) {
    match e.act
    case CallUse(_) => e.t !in w.calls
    case CallDrop(_) => e.t !in w.calls
    case Tick(_) => true
    case Resume => e.t in w.calls && w.calls[e.t].phase.Awake?
    case ProbeAnswered => e.t in w.calls && w.calls[e.t].phase.Probing?
    case ProbeFailed => e.t in w.calls && w.calls[e.t].phase.Probing?
    case StaleClosed => e.t in w.calls && w.calls[e.t].phase.ClosingStale?
    case SignedIn => e.t in w.calls && w.calls[e.t].phase.Connecting?
    case SignInFailed => e.t in w.calls && w.calls[e.t].phase.Connecting?
    case RefusedClosed => e.t in w.calls && w.calls[e.t].phase.ClosingRefused?
    case ActionReturned => e.t in w.calls && w.calls[e.t].phase.Running?
    case ActionThrew => e.t in w.calls && w.calls[e.t].phase.Running?
    case FailedClosed => e.t in w.calls && w.calls[e.t].phase.ClosingFailed?
    case DropClosed => e.t in w.calls && w.calls[e.t].phase.ClosingDropped?
  }

  function Moved(w: World, t: nat, id: string, phase: Phase): World {
    w.(calls := w.calls[t := Call(id, phase)])
  }

  /** Open a session for `id` and start signing in. */
  function Opening(w: World, t: nat, id: string): World {
    Moved(w, t, id, Connecting(|w.owner|)).(owner := w.owner + [id])
  }

  /** `use` up to its first real suspension. */
  function Enter(w: World, t: nat, id: string): World {
    if id in w.table.busy then
      Moved(w, t, id, Waiting).(table := w.table.Enqueue(id, t))
    else
      var v := w.(table := w.table.Occupy(id));
      match w.table.Look(id, w.clock)
      case NoCandidate => Opening(v, t, id)
      case Fresh(s) => Moved(v, t, id, Running(s))
      case Idle(s) => Moved(v, t, id, Probing(s))
  }

  /** The call `t` ends, and the first waiting call is woken. */
  function Leave(w: World, t: nat, id: string): World {
    var calls := w.calls - {t};
    var woken := w.table.Woken(id);
    w.(table := w.table.Release(id),
       calls := if woken.Some? then calls[woken.value := Call(id, Awake)] else calls)
  }

  function Close(w: World, s: nat): World {
    w.(closed := w.closed + {s})
  }

  function Drop(w: World, t: nat, id: string): World {
    if id in w.table.held then
      Moved(w, t, id, ClosingDropped(w.table.held[id].session)).(table := w.table.Forget(id))
    else w
  }

  /** The account that an event concerns. */
  function Account(w: World, e: Event): string
    requires Possible(w, e)
  {
    match e.act
    case CallUse(id) => id
    case CallDrop(id) => id
    case Tick(_) => ""
    case _ => w.calls[e.t].id
  }

  function Step(w: World, e: Event): World
    requires Possible(w, e)
  {
    var (t, id) := (e.t, Account(w, e));
    match e.act
    case CallUse(_) => Enter(w, t, id)
    case Resume => Enter(w, t, id)
    case ProbeAnswered => Moved(w, t, id, Running(w.calls[t].phase.s))
    case ProbeFailed => Moved(w, t, id, ClosingStale(w.calls[t].phase.s)).(table := w.table.Forget(id))
    case StaleClosed => Opening(Close(w, w.calls[t].phase.s), t, id)
    case SignedIn =>
      var s := w.calls[t].phase.s;
      Moved(w, t, id, Running(s)).(table := w.table.Keep(id, s, w.clock))
    case SignInFailed => Moved(w, t, id, ClosingRefused(w.calls[t].phase.s))
    case RefusedClosed => Leave(Close(w, w.calls[t].phase.s), t, id)
    case ActionReturned =>
      var kept := w.(table := w.table.Keep(id, w.calls[t].phase.s, w.clock));
      Leave(if id in w.table.held then kept else w, t, id)
    case ActionThrew => Moved(w, t, id, ClosingFailed(w.calls[t].phase.s)).(table := w.table.Forget(id))
    case FailedClosed => Leave(Close(w, w.calls[t].phase.s), t, id)
    case CallDrop(_) => Drop(w, t, id)
    case DropClosed => Close(w, w.calls[t].phase.s).(calls := w.calls - {t})
    case Tick(now) => w.(clock := now)
  }

  // ----- what every step keeps

  /** One call: the account it is inside of is busy, and its session is the account's. */
  predicate GoodCall(w: World, t: nat) {
    t in w.calls ==>
      var c := w.calls[t];
      && (c.Inside() ==> c.id in w.table.busy)
      && (c.HasSession() ==> c.phase.s < |w.owner| && w.owner[c.phase.s] == c.id)
      // a kept session is what its account's call works with, and nobody closes it
      && (c.HasSession() && c.id in w.table.held ==> (c.OnKept() <==> c.phase.s == w.table.held[c.id].session))
      && (c.Inside() && !c.OnKept() ==> c.id !in w.table.held)
      && (c.phase.Connecting? ==> c.phase.s !in w.closed)
      && (c.phase.Waiting? ==> t in w.table.Queue(c.id))
  }

  /** Two calls: never both inside one account, never both with a connection being signed in. */
  predicate Apart(w: World, t: nat, u: nat) {
    t in w.calls && u in w.calls && t != u ==>
      && (w.calls[t].Inside() && w.calls[u].Inside() ==> w.calls[t].id != w.calls[u].id)
      && (w.calls[t].phase.Connecting? && w.calls[u].HasSession() ==> w.calls[t].phase.s != w.calls[u].phase.s)
  }

  /** One account: what is kept is its own and open, and its queue is in order. */
  predicate GoodAccount(w: World, id: string) {
    && (id in w.table.held ==>
          var s := w.table.held[id].session;
          s < |w.owner| && w.owner[s] == id && s !in w.closed)
    && GoodQueue(w.calls, id, w.table.Queue(id))
  }

  /** The queue `q` of an account holds waiting calls, each once. */
  predicate GoodQueue(calls: map<nat, Call>, id: string, q: seq<nat>) {
    && (forall i, j :: 0 <= i < j < |q| ==> q[i] != q[j])
    && (forall i :: 0 <= i < |q| ==> q[i] in calls && calls[q[i]] == Call(id, Waiting))
  }

  /** A session: closed ones were opened once, and an opened one is closed, kept or in some call's hands. */
  ghost predicate GoodSession(w: World, s: nat) {
    && (s in w.closed ==> s < |w.owner|)
    && (s < |w.owner| ==> s in w.closed || Kept(w, s) || InHand(w, s))
  }

  predicate Kept(w: World, s: nat) {
    s < |w.owner| && w.owner[s] in w.table.held && w.table.held[w.owner[s]].session == s
  }

  predicate HasInHand(w: World, t: nat, s: nat) {
    t in w.calls && w.calls[t].HasSession() && w.calls[t].phase.s == s
  }

  ghost predicate InHand(w: World, s: nat) {
    exists t :: HasInHand(w, t, s)
  }

  predicate Closes(w: World, t: nat, s: nat) {
    t in w.calls && w.calls[t].Closing() && w.calls[t].phase.s == s
  }

  /** Given up: closed, or about to be. */
  ghost predicate Retired(w: World, s: nat) {
    s in w.closed || exists t :: Closes(w, t, s)
  }

  /** A call that works with a connection no longer kept has seen it dropped. */
  ghost predicate GoodLoss(w: World, t: nat) {
    t in w.calls && w.calls[t].OnKept() && w.calls[t].id !in w.table.held ==> Retired(w, w.calls[t].phase.s)
  }

  predicate IsInside(w: World, t: nat, id: string) {
    t in w.calls && w.calls[t].Inside() && w.calls[t].id == id
  }

  predicate IsAwake(w: World, t: nat, id: string) {
    t in w.calls && w.calls[t] == Call(id, Awake)
  }

  /** A busy account has a call inside, and whoever waits for a free one has a call awake before it. */
  ghost predicate GoodTurn(w: World, id: string) {
    && (id in w.table.busy ==> exists t :: IsInside(w, t, id))
    && (w.table.Queue(id) != [] && id !in w.table.busy ==> exists t :: IsAwake(w, t, id))
  }

  predicate Enters(e: Event) {
    e.act.CallUse? || e.act.Resume?
  }

  predicate Leaves(e: Event) {
    e.act.RefusedClosed? || e.act.ActionReturned? || e.act.FailedClosed?
  }

  lemma GoodCallEnter(w: World, e: Event, t: nat)
    requires Possible(w, e) && Enters(e)
    requires GoodCall(w, t) && GoodCall(w, e.t) && Apart(w, t, e.t) && Apart(w, e.t, t)
    requires GoodAccount(w, Account(w, e)) && GoodSession(w, |w.owner|)
    ensures GoodCall(Step(w, e), t)
  {
  }

  lemma GoodCallLeave(w: World, e: Event, t: nat)
    requires Possible(w, e) && Leaves(e)
    requires GoodCall(w, t) && GoodCall(w, e.t) && Apart(w, t, e.t) && Apart(w, e.t, t)
    requires GoodAccount(w, Account(w, e)) && GoodSession(w, |w.owner|)
    ensures GoodCall(Step(w, e), t)
  {
  }

  lemma GoodCallWithin(w: World, e: Event, t: nat)
    requires Possible(w, e) && !Enters(e) && !Leaves(e)
    requires GoodCall(w, t) && GoodCall(w, e.t) && Apart(w, t, e.t) && Apart(w, e.t, t)
    requires GoodAccount(w, Account(w, e)) && GoodSession(w, |w.owner|)
    ensures GoodCall(Step(w, e), t)
  {
  }

  lemma GoodCallStep(w: World, e: Event, t: nat)
    requires Possible(w, e)
    requires GoodCall(w, t) && GoodCall(w, e.t) && Apart(w, t, e.t) && Apart(w, e.t, t)
    requires GoodAccount(w, Account(w, e)) && GoodSession(w, |w.owner|)
    ensures GoodCall(Step(w, e), t)
  {
    hide *;
    if Enters(e) {
      GoodCallEnter(w, e, t);
    } else if Leaves(e) {
      GoodCallLeave(w, e, t);
    } else {
      GoodCallWithin(w, e, t);
    }
  }

  lemma ApartEnter(w: World, e: Event, t: nat, u: nat)
    requires Possible(w, e) && Enters(e)
    requires GoodCall(w, t) && GoodCall(w, u) && GoodCall(w, e.t)
    requires Apart(w, t, u) && Apart(w, t, e.t) && Apart(w, e.t, u)
    requires GoodAccount(w, Account(w, e))
    ensures Apart(Step(w, e), t, u)
  {
  }

  lemma ApartLeave(w: World, e: Event, t: nat, u: nat)
    requires Possible(w, e) && Leaves(e)
    requires GoodCall(w, t) && GoodCall(w, u) && GoodCall(w, e.t)
    requires Apart(w, t, u) && Apart(w, t, e.t) && Apart(w, e.t, u)
    requires GoodAccount(w, Account(w, e))
    ensures Apart(Step(w, e), t, u)
  {
  }

  lemma ApartWithin(w: World, e: Event, t: nat, u: nat)
    requires Possible(w, e) && !Enters(e) && !Leaves(e)
    requires GoodCall(w, t) && GoodCall(w, u) && GoodCall(w, e.t)
    requires Apart(w, t, u) && Apart(w, t, e.t) && Apart(w, e.t, u)
    requires GoodAccount(w, Account(w, e))
    ensures Apart(Step(w, e), t, u)
  {
  }

  lemma ApartStep(w: World, e: Event, t: nat, u: nat)
    requires Possible(w, e)
    requires GoodCall(w, t) && GoodCall(w, u) && GoodCall(w, e.t)
    requires Apart(w, t, u) && Apart(w, t, e.t) && Apart(w, e.t, u)
    requires GoodAccount(w, Account(w, e))
    ensures Apart(Step(w, e), t, u)
  {
    hide *;
    if Enters(e) {
      ApartEnter(w, e, t, u);
    } else if Leaves(e) {
      ApartLeave(w, e, t, u);
    } else {
      ApartWithin(w, e, t, u);
    }
  }

  /** A queue stays in order when the calls in it are left alone. */
  lemma QueueFrame(calls: map<nat, Call>, calls': map<nat, Call>, id: string, q: seq<nat>, t: nat)
    requires GoodQueue(calls, id, q)
    requires t in calls ==> calls[t] != Call(id, Waiting)
    requires forall x :: x in calls && x != t && calls[x] == Call(id, Waiting) ==> x in calls' && calls'[x] == calls[x]
    ensures GoodQueue(calls', id, q)
  {
  }

  lemma GoodAccountEnter(w: World, e: Event, id: string)
    requires Possible(w, e) && Enters(e)
    requires GoodCall(w, e.t) && GoodAccount(w, Account(w, e)) && GoodAccount(w, id)
    ensures GoodAccount(Step(w, e), id)
  {
    QueueFrame(w.calls, Step(w, e).calls, id, w.table.Queue(id), e.t);
  }

  lemma GoodAccountLeave(w: World, e: Event, id: string)
    requires Possible(w, e) && Leaves(e)
    requires GoodCall(w, e.t) && GoodAccount(w, Account(w, e)) && GoodAccount(w, id)
    ensures GoodAccount(Step(w, e), id)
  {
    var line := w.table.Queue(Account(w, e));
    var q := if id == Account(w, e) && line != [] then line[1..] else w.table.Queue(id);
    var rest := if line == [] then w.calls else w.calls - {line[0]};
    assert GoodQueue(rest, id, q);
    QueueFrame(rest, Step(w, e).calls, id, q, e.t);
    assert Step(w, e).table.Queue(id) == q;
  }

  lemma GoodAccountWithin(w: World, e: Event, id: string)
    requires Possible(w, e) && !Enters(e) && !Leaves(e)
    requires GoodCall(w, e.t) && GoodAccount(w, Account(w, e)) && GoodAccount(w, id)
    ensures GoodAccount(Step(w, e), id)
  {
    if !e.act.Tick? {
      QueueFrame(w.calls, Step(w, e).calls, id, w.table.Queue(id), e.t);
    }
  }

  lemma GoodAccountStep(w: World, e: Event, id: string)
    requires Possible(w, e)
    requires GoodCall(w, e.t) && GoodAccount(w, Account(w, e)) && GoodAccount(w, id)
    ensures GoodAccount(Step(w, e), id)
  {
    hide *;
    if Enters(e) {
      GoodAccountEnter(w, e, id);
    } else if Leaves(e) {
      GoodAccountLeave(w, e, id);
    } else {
      GoodAccountWithin(w, e, id);
    }
  }

  lemma GoodTurnEnter(w: World, e: Event, id: string)
    requires Possible(w, e) && Enters(e)
    requires GoodCall(w, e.t) && GoodAccount(w, Account(w, e)) && GoodTurn(w, id)
    requires forall u :: Apart(w, u, e.t)
    ensures GoodTurn(Step(w, e), id)
  {
    var v := Step(w, e);
    if id == Account(w, e) {
      if id !in w.table.busy {
        assert IsInside(v, e.t, id);
      }
    }
    if id in w.table.busy {
      var t :| IsInside(w, t, id);
      assert IsInside(v, t, id);
    } else if w.table.Queue(id) != [] && id != Account(w, e) {
      var t :| IsAwake(w, t, id);
      assert IsAwake(v, t, id);
    }
  }

  lemma GoodTurnLeave(w: World, e: Event, id: string)
    requires Possible(w, e) && Leaves(e)
    requires GoodCall(w, e.t) && GoodAccount(w, Account(w, e)) && GoodTurn(w, id)
    requires forall u :: Apart(w, u, e.t)
    ensures GoodTurn(Step(w, e), id)
  {
    var v := Step(w, e);
    if id == Account(w, e) {
      if w.table.Queue(id) != [] {
        assert IsAwake(v, w.table.Queue(id)[0], id);
      }
    } else if id in w.table.busy {
      var t :| IsInside(w, t, id);
      assert IsInside(v, t, id);
    } else if w.table.Queue(id) != [] {
      var t :| IsAwake(w, t, id);
      assert IsAwake(v, t, id);
    }
  }

  lemma GoodTurnWithin(w: World, e: Event, id: string)
    requires Possible(w, e) && !Enters(e) && !Leaves(e)
    requires GoodCall(w, e.t) && GoodAccount(w, Account(w, e)) && GoodTurn(w, id)
    requires forall u :: Apart(w, u, e.t)
    ensures GoodTurn(Step(w, e), id)
  {
    var v := Step(w, e);
    if id in w.table.busy {
      var t :| IsInside(w, t, id);
      assert IsInside(v, t, id);
    } else if w.table.Queue(id) != [] {
      var t :| IsAwake(w, t, id);
      assert IsAwake(v, t, id);
    }
  }

  lemma GoodTurnStep(w: World, e: Event, id: string)
    requires Possible(w, e)
    requires GoodCall(w, e.t) && GoodAccount(w, Account(w, e)) && GoodTurn(w, id)
    requires forall u :: Apart(w, u, e.t)
    ensures GoodTurn(Step(w, e), id)
  {
    hide *;
    if Enters(e) {
      GoodTurnEnter(w, e, id);
    } else if Leaves(e) {
      GoodTurnLeave(w, e, id);
    } else {
      GoodTurnWithin(w, e, id);
    }
  }

  /** What is given up stays given up. */
  lemma RetiredStays(w: World, e: Event, s: nat)
    requires Possible(w, e) && GoodAccount(w, Account(w, e))
    requires Retired(w, s)
    ensures Retired(Step(w, e), s)
  {
    if s !in w.closed {
      var u :| Closes(w, u, s);
      if u == e.t && !e.act.Tick? {
        assert s in Step(w, e).closed;
      } else {
        assert Closes(Step(w, e), u, s);
      }
    }
  }

  lemma GoodLossStep(w: World, e: Event, t: nat)
    requires Possible(w, e)
    requires GoodCall(w, t) && GoodCall(w, e.t) && Apart(w, t, e.t) && GoodLoss(w, t)
    requires GoodAccount(w, Account(w, e))
    ensures GoodLoss(Step(w, e), t)
  {
    var v := Step(w, e);
    if t in v.calls && v.calls[t].OnKept() && v.calls[t].id !in v.table.held {
      var s := v.calls[t].phase.s;
      if e.act.CallDrop? && v.calls[t].id in w.table.held {
        assert Closes(v, e.t, s);
      } else {
        LossBefore(w, e, t);
        RetiredStays(w, e, s);
      }
    }
  }

  /** Only a drop takes a connection from a call that works with it. */
  lemma LossBefore(w: World, e: Event, t: nat)
    requires Possible(w, e)
    requires GoodCall(w, t) && GoodCall(w, e.t) && Apart(w, t, e.t)
    requires GoodAccount(w, Account(w, e))
    requires var v := Step(w, e);
      t in v.calls && v.calls[t].OnKept() && v.calls[t].id !in v.table.held
      && !(e.act.CallDrop? && v.calls[t].id in w.table.held)
    ensures t in w.calls && w.calls[t].OnKept() && w.calls[t].id !in w.table.held
    ensures w.calls[t].phase.s == Step(w, e).calls[t].phase.s
  {
    hide Step;
    if t == e.t {
      LossByActor(w, e);
    } else {
      LossByOther(w, e, t);
    }
  }

  lemma LossByOther(w: World, e: Event, t: nat)
    requires Possible(w, e) && t != e.t
    requires GoodCall(w, t) && GoodCall(w, e.t) && Apart(w, t, e.t)
    requires GoodAccount(w, Account(w, e))
    requires var v := Step(w, e);
      t in v.calls && v.calls[t].OnKept() && v.calls[t].id !in v.table.held
      && !(e.act.CallDrop? && v.calls[t].id in w.table.held)
    ensures t in w.calls && w.calls[t].OnKept() && w.calls[t].id !in w.table.held
    ensures w.calls[t].phase.s == Step(w, e).calls[t].phase.s
  {
  }

  lemma LossByActor(w: World, e: Event)
    requires Possible(w, e) && GoodCall(w, e.t) && GoodAccount(w, Account(w, e))
    requires var v := Step(w, e);
      e.t in v.calls && v.calls[e.t].OnKept() && v.calls[e.t].id !in v.table.held
    ensures e.t in w.calls && w.calls[e.t].OnKept() && w.calls[e.t].id !in w.table.held
    ensures w.calls[e.t].phase.s == Step(w, e).calls[e.t].phase.s
  {
  }

  lemma GoodSessionStep(w: World, e: Event, s: nat)
    requires Possible(w, e)
    requires GoodSession(w, s) && GoodLoss(w, e.t) && GoodCall(w, e.t)
    requires GoodAccount(w, Account(w, e))
    ensures GoodSession(Step(w, e), s)
  {
    var v := Step(w, e);
    if s < |v.owner| && s !in v.closed && !Kept(v, s) {
      if s == |w.owner| || Kept(w, s) {
        KeptThenInHand(w, e, s);
      } else {
        var u :| HasInHand(w, u, s);
        if u == e.t && e.act.ActionReturned? {
          var x :| Closes(w, x, s);
          assert HasInHand(v, x, s);
        } else {
          assert HasInHand(v, u, s);
        }
      }
    }
  }

  lemma KeptThenInHand(w: World, e: Event, s: nat)
    requires Possible(w, e) && GoodCall(w, e.t) && GoodAccount(w, Account(w, e))
    requires s < |Step(w, e).owner| && !Kept(Step(w, e), s)
    requires s == |w.owner| || Kept(w, s)
    ensures HasInHand(Step(w, e), e.t, s)
  {
  }

  // ----- every run

  ghost predicate Invariant(w: World) {
    && (forall t :: GoodCall(w, t))
    && (forall t, u :: Apart(w, t, u))
    && (forall id :: GoodAccount(w, id))
    && (forall id :: GoodTurn(w, id))
    && (forall t :: GoodLoss(w, t))
    && (forall s :: GoodSession(w, s))
  }

  lemma StepKeeps(w: World, e: Event)
    requires Invariant(w) && Possible(w, e)
    ensures Invariant(Step(w, e))
  {
    hide GoodCall, Apart, GoodAccount, GoodTurn, GoodLoss, GoodSession, Step;
    forall t ensures GoodCall(Step(w, e), t) { GoodCallStep(w, e, t); }
    forall t, u ensures Apart(Step(w, e), t, u) { ApartStep(w, e, t, u); }
    forall id ensures GoodAccount(Step(w, e), id) { GoodAccountStep(w, e, id); }
    forall id ensures GoodTurn(Step(w, e), id) { GoodTurnStep(w, e, id); }
    forall t ensures GoodLoss(Step(w, e), t) { GoodLossStep(w, e, t); }
    forall s ensures GoodSession(Step(w, e), s) { GoodSessionStep(w, e, s); }
  }

  /** The worlds that a run from `w` passes through are all possible. */
  predicate IsRun(w: World, es: seq<Event>)
    decreases |es|
  {
    es == [] || (Possible(w, es[0]) && IsRun(Step(w, es[0]), es[1..]))
  }

  function After(w: World, es: seq<Event>): World
    requires IsRun(w, es)
    decreases |es|
  {
    if es == [] then w else After(Step(w, es[0]), es[1..])
  }

  /** Over every interleaving of calls, answers, failures, drops and clock changes, the invariant holds. */
  lemma {:induction false} RunKeeps(w: World, es: seq<Event>)
    requires Invariant(w) && IsRun(w, es)
    ensures Invariant(After(w, es))
    decreases |es|
  {
    hide Invariant, Step;
    if es != [] {
      StepKeeps(w, es[0]);
      RunKeeps(Step(w, es[0]), es[1..]);
    }
  }

  lemma StartHolds()
    ensures Invariant(START)
  {
  }

  /** A session that is open and not about to be closed. */
  ghost predicate Live(w: World, s: nat) {
    s < |w.owner| && !Retired(w, s)
  }

  /** Whatever happens, an account never has two live connections. */
  lemma OneLivePerAccount(es: seq<Event>, s1: nat, s2: nat)
    requires IsRun(START, es)
    requires var w := After(START, es); Live(w, s1) && Live(w, s2) && w.owner[s1] == w.owner[s2]
    ensures s1 == s2
  {
    var w := After(START, es);
    StartHolds();
    RunKeeps(START, es);
    LiveIsUsedOrKept(w, s1);
    LiveIsUsedOrKept(w, s2);
    if !Kept(w, s1) && !Kept(w, s2) {
      var t, u :| HasInHand(w, t, s1) && w.calls[t].Inside() && HasInHand(w, u, s2) && w.calls[u].Inside();
      assert GoodCall(w, t) && GoodCall(w, u);
      assert Apart(w, t, u);
    } else if !Kept(w, s1) {
      KeptAndInHand(w, s2, s1);
    } else if !Kept(w, s2) {
      KeptAndInHand(w, s1, s2);
    }
  }

  lemma LiveIsUsedOrKept(w: World, s: nat)
    requires Invariant(w) && Live(w, s)
    ensures Kept(w, s) || exists t :: HasInHand(w, t, s) && w.calls[t].Inside()
  {
    assert GoodSession(w, s);
    if !Kept(w, s) {
      var t :| HasInHand(w, t, s);
      assert !Closes(w, t, s);
    }
  }

  /** A live connection in a call's hands is the kept one, if one is kept. */
  lemma KeptAndInHand(w: World, k: nat, s: nat)
    requires Invariant(w) && Kept(w, k) && s < |w.owner| && w.owner[s] == w.owner[k]
    requires exists t :: HasInHand(w, t, s) && w.calls[t].Inside()
    ensures s == k
  {
    var t :| HasInHand(w, t, s) && w.calls[t].Inside();
    assert GoodCall(w, t);
  }

  /** Every session ever opened is kept, in some call's hands, or closed. */
  lemma NoneForgotten(es: seq<Event>, s: nat)
    requires IsRun(START, es) && s < |After(START, es).owner|
    ensures var w := After(START, es); s in w.closed || Kept(w, s) || InHand(w, s)
  {
    StartHolds();
    RunKeeps(START, es);
    assert GoodSession(After(START, es), s);
  }

  /** No two calls are ever inside `use` for one account, so no two ever speak on one connection. */
  lemma CallsExcludeEachOther(es: seq<Event>, t: nat, u: nat)
    requires IsRun(START, es)
    requires var w := After(START, es);
      t in w.calls && u in w.calls && w.calls[t].Inside() && w.calls[u].Inside()
      && (w.calls[t].id == w.calls[u].id || w.calls[t].phase.s == w.calls[u].phase.s)
    ensures t == u
  {
    var w := After(START, es);
    StartHolds();
    RunKeeps(START, es);
    assert Apart(w, t, u);
    assert GoodCall(w, t) && GoodCall(w, u);
  }

  /** Nobody waits for ever without cause: a call is inside, or one has been woken and is still to run. */
  lemma NobodyStranded(es: seq<Event>, t: nat)
    requires IsRun(START, es)
    requires t in After(START, es).calls && After(START, es).calls[t].phase.Waiting?
    ensures var w := After(START, es);
      exists u :: IsInside(w, u, w.calls[t].id) || IsAwake(w, u, w.calls[t].id)
  {
    var w := After(START, es);
    StartHolds();
    RunKeeps(START, es);
    assert GoodCall(w, t) && GoodTurn(w, w.calls[t].id);
  }

  // ----- every waiting call can get in

  /** How many steps a call inside has to go at most, when all goes well. */
  function ToGo(p: Phase): nat {
    match p
    case Running(_) => 1
    case ClosingRefused(_) => 1
    case ClosingFailed(_) => 1
    case Probing(_) => 2
    case Connecting(_) => 2
    case ClosingStale(_) => 3
    case _ => 0
  }

  /** The next step of a call inside, when all goes well. */
  function GoesOn(u: nat, p: Phase): Event
    requires ToGo(p) > 0
  {
    Event(u, match p
      case Running(_) => ActionReturned
      case ClosingRefused(_) => RefusedClosed
      case ClosingFailed(_) => FailedClosed
      case Probing(_) => ProbeAnswered
      case Connecting(_) => SignedIn
      case ClosingStale(_) => StaleClosed)
  }

  predicate Pending(w: World, t: nat, id: string) {
    t in w.calls && (w.calls[t] == Call(id, Waiting) || w.calls[t] == Call(id, Awake))
  }

  function Place(q: seq<nat>, t: nat): (k: nat)
    ensures k <= |q| && (t in q ==> k < |q| && q[k] == t)
  {
    if q == [] || q[0] == t then 0 else 1 + Place(q[1..], t)
  }

  /** How many others are woken before `t`. */
  function AheadOf(w: World, t: nat): nat
    requires t in w.calls
  {
    if w.calls[t].phase.Waiting? then 1 + Place(w.table.Queue(w.calls[t].id), t) else 0
  }

  /** A step of the call inside brings it nearer to leaving, or wakes the next one. */
  lemma InsideGoesOn(w: World, t: nat, u: nat, id: string)
    requires Invariant(w) && Pending(w, t, id) && IsInside(w, u, id)
    ensures ToGo(w.calls[u].phase) > 0
    ensures var e := GoesOn(u, w.calls[u].phase);
      && Possible(w, e)
      && var v := Step(w, e);
         && Pending(v, t, id)
         && (if id in v.table.busy
             then IsInside(v, u, id) && ToGo(v.calls[u].phase) < ToGo(w.calls[u].phase)
                  && AheadOf(v, t) == AheadOf(w, t)
             else AheadOf(v, t) == if AheadOf(w, t) == 0 then 0 else AheadOf(w, t) - 1)
  {
    assert GoodCall(w, u) && GoodCall(w, t) && GoodAccount(w, id);
  }

  /** A woken call that finds the account free goes in, and those who wait keep their place. */
  lemma AwakeGoesIn(w: World, t: nat, a: nat, id: string)
    requires Invariant(w) && IsAwake(w, a, id) && id !in w.table.busy && Pending(w, t, id)
    ensures var v := Step(w, Event(a, Resume));
      && IsInside(v, a, id) && id in v.table.busy
      && (t != a ==> Pending(v, t, id) && AheadOf(v, t) == AheadOf(w, t))
  {
  }

  lemma SomeoneAwake(w: World, t: nat, id: string) returns (a: nat)
    requires Invariant(w) && t in w.calls && w.calls[t] == Call(id, Waiting) && id !in w.table.busy
    ensures IsAwake(w, a, id)
  {
    assert GoodCall(w, t) && GoodTurn(w, id);
    a :| IsAwake(w, a, id);
  }

  /** From wherever a run has got to, whoever waits can still get in. */
  lemma {:induction false} WaitingGetsIn(w: World, t: nat, u: nat, id: string) returns (es: seq<Event>)
    requires Invariant(w) && Pending(w, t, id) && (id in w.table.busy ==> IsInside(w, u, id))
    ensures IsRun(w, es) && IsInside(After(w, es), t, id)
    decreases AheadOf(w, t),
      if id in w.table.busy then ToGo(w.calls[u].phase) else if w.calls[t].phase.Awake? then 0 else 4
  {
    hide Invariant, Step, GoesOn;
    if id in w.table.busy {
      InsideGoesOn(w, t, u, id);
      var e := GoesOn(u, w.calls[u].phase);
      StepKeeps(w, e);
      var rest := WaitingGetsIn(Step(w, e), t, u, id);
      es := [e] + rest;
      assert es[1..] == rest;
    } else {
      var a := t;
      if w.calls[t].phase.Waiting? {
        a := SomeoneAwake(w, t, id);
      }
      var e := Event(a, Resume);
      AwakeGoesIn(w, t, a, id);
      StepKeeps(w, e);
      if a == t {
        es := [e];
        assert es[1..] == [];
      } else {
        var rest := WaitingGetsIn(Step(w, e), t, a, id);
        es := [e] + rest;
        assert es[1..] == rest;
      }
    }
  }
  /** Over every run: a call that waits is never shut out, whatever has happened before. */
  lemma WaitingCanGetIn(es: seq<Event>, t: nat) returns (more: seq<Event>)
    requires IsRun(START, es)
    requires t in After(START, es).calls && After(START, es).calls[t].phase.Waiting?
    ensures var w := After(START, es);
      IsRun(w, more) && IsInside(After(w, more), t, w.calls[t].id)
  {
    var w := After(START, es);
    StartHolds();
    RunKeeps(START, es);
    var id, u := w.calls[t].id, t;
    if id in w.table.busy {
      assert GoodTurn(w, id);
      u :| IsInside(w, u, id);
    }
    more := WaitingGetsIn(w, t, u, id);
  }

  predicate Waits(w: World, t: nat, id: string) {
    t in w.calls && w.calls[t] == Call(id, Waiting)
  }

  /** `t` waits in every world of the run. */
  predicate WaitsThroughout(w: World, es: seq<Event>, t: nat, id: string)
    requires IsRun(w, es)
    decreases |es|
  {
    Waits(w, t, id) && (es == [] || WaitsThroughout(Step(w, es[0]), es[1..], t, id))
  }

  ghost predicate Behind(w: World, id: string, t: nat, u: nat) {
    exists i, j :: 0 <= i < j < |w.table.Queue(id)| && w.table.Queue(id)[i] == t && w.table.Queue(id)[j] == u
  }

  /** Behind a call that keeps waiting one keeps its place, whatever happens. */
  lemma BehindStep(w: World, e: Event, id: string, t: nat, u: nat)
    requires Invariant(w) && Possible(w, e) && Behind(w, id, t, u) && Waits(Step(w, e), t, id)
    ensures Behind(Step(w, e), id, t, u)
  {
    assert GoodAccount(w, id) && GoodCall(w, e.t);
    var q, r := w.table.Queue(id), Step(w, e).table.Queue(id);
    var i, j :| 0 <= i < j < |q| && q[i] == t && q[j] == u;
    if Leaves(e) && Account(w, e) == id {
      assert q[0] != t;
      assert r == q[1..] && r[i - 1] == t && r[j - 1] == u;
    } else {
      assert q <= r && r[i] == t && r[j] == u;
    }
  }

  lemma {:induction false} BehindThroughout(w: World, es: seq<Event>, id: string, t: nat, u: nat)
    requires Invariant(w) && IsRun(w, es) && Behind(w, id, t, u) && WaitsThroughout(w, es, t, id)
    ensures Waits(After(w, es), u, id)
    decreases |es|
  {
    hide Step, Behind, Invariant;
    if es == [] {
      BehindWaits(w, id, t, u);
    } else {
      StepKeeps(w, es[0]);
      assert Waits(Step(w, es[0]), t, id);
      BehindStep(w, es[0], id, t, u);
      BehindThroughout(Step(w, es[0]), es[1..], id, t, u);
    }
  }

  lemma BehindWaits(w: World, id: string, t: nat, u: nat)
    requires Invariant(w) && Behind(w, id, t, u)
    ensures Waits(w, u, id)
  {
    assert GoodAccount(w, id);
  }

  /** First come, first woken: who begins to wait while `t` waits is not woken as long as `t` waits on. */
  lemma FirstComeFirstWoken(es: seq<Event>, e: Event, more: seq<Event>, t: nat, id: string)
    requires IsRun(START, es) && Possible(After(START, es), e) && e.t != t
    requires var w := After(START, es);
      Waits(w, t, id) && Enters(e) && Account(w, e) == id && id in w.table.busy
    requires IsRun(Step(After(START, es), e), more) && WaitsThroughout(Step(After(START, es), e), more, t, id)
    ensures Waits(After(Step(After(START, es), e), more), e.t, id)
  {
    var w := After(START, es);
    StartHolds();
    RunKeeps(START, es);
    assert GoodCall(w, t) && GoodCall(w, e.t);
    var v := Step(w, e);
    var q, r := w.table.Queue(id), v.table.Queue(id);
    assert r == q + [e.t];
    var i :| 0 <= i < |q| && q[i] == t;
    assert r[i] == t && r[|q|] == e.t;
    StepKeeps(w, e);
    BehindThroughout(v, more, id, t, e.t);
  }

  // ----- what is kept

  function Numbers(n: nat): (ns: set<nat>)
    ensures |ns| == n && forall s: nat :: s in ns <==> s < n
  {
    if n == 0 then {} else Numbers(n - 1) + {n - 1}
  }

  function Sessions(held: map<string, Held>): set<nat> {
    set id | id in held :: held[id].session
  }

  lemma {:induction false} SessionsSize(held: map<string, Held>)
    requires forall id, jd :: id in held && jd in held && held[id].session == held[jd].session ==> id == jd
    ensures |Sessions(held)| == |held|
    decreases |held|
  {
    if held != map[] {
      var id :| id in held;
      var rest := held - {id};
      SessionsSize(rest);
      var s := held[id].session;
      assert s !in Sessions(rest);
      forall x | x in Sessions(held) ensures x in Sessions(rest) + {s} {
        var jd :| jd in held && held[jd].session == x;
        assert jd != id ==> jd in rest && rest[jd].session == x;
      }
      forall x | x in Sessions(rest) + {s} ensures x in Sessions(held) {
        var jd :| jd in held && held[jd].session == x && (jd in rest || jd == id);
      }
      assert Sessions(held) == Sessions(rest) + {s};
    }
  }

  lemma CountedAreOpen(w: World)
    requires Invariant(w)
    ensures |Sessions(w.table.held)| == |w.table.held|
    ensures Sessions(w.table.held) + w.closed <= Numbers(|w.owner|)
    ensures Sessions(w.table.held) !! w.closed
  {
    forall id | id in w.table.held
      ensures var s := w.table.held[id].session; s < |w.owner| && w.owner[s] == id && s !in w.closed {
      assert GoodAccount(w, id);
    }
    SessionsSize(w.table.held);
    forall s | s in w.closed ensures s < |w.owner| {
      assert GoodSession(w, s);
    }
  }

  lemma AllAreCounted(w: World)
    requires Invariant(w) && w.calls == map[]
    ensures Numbers(|w.owner|) <= Sessions(w.table.held) + w.closed
  {
    forall s | s in Numbers(|w.owner|) ensures s in Sessions(w.table.held) + w.closed {
      assert GoodSession(w, s);
      assert Kept(w, s) ==> w.table.held[w.owner[s]].session in Sessions(w.table.held);
    }
  }

  /**
   Over every run the connections counted are open ones and each account's own, so that counted
   and closed ones are never more than were opened; and when no call is left they are all of them.
   */
  lemma CountedAndClosed(es: seq<Event>)
    requires IsRun(START, es)
    ensures var w := After(START, es);
      && |w.table.held| + |w.closed| <= |w.owner|
      && (w.calls == map[] ==> |w.table.held| + |w.closed| == |w.owner|)
  {
    var w := After(START, es);
    StartHolds();
    RunKeeps(START, es);
    hide Invariant, Sessions;
    CountedAreOpen(w);
    var counted := Sessions(w.table.held) + w.closed;
    assert |Numbers(|w.owner|) - counted| == |Numbers(|w.owner|)| - |counted|;
    if w.calls == map[] {
      AllAreCounted(w);
    }
  }

  // ----- handing out

  /** The event gives session `s` to the action of its call. */
  predicate HandsOut(w: World, e: Event, s: nat)
    requires Possible(w, e)
  {
    && e.t in Step(w, e).calls && Step(w, e).calls[e.t].phase == Running(s)
    && !(e.t in w.calls && w.calls[e.t].phase == Running(s))
  }

  /** What a call that gets to run hands out: the kept connection within the window; past it, it probes. */
  lemma EnterHandsOut(w: World, e: Event, s: nat)
    requires Invariant(w) && Possible(w, e) && Enters(e)
    ensures var id := Account(w, e);
      && (HandsOut(w, e, s) <==> id !in w.table.busy && w.table.Look(id, w.clock) == Fresh(s))
      && (HandsOut(w, e, s) ==> w.clock - w.table.held[id].lastUsed <= FRESH_WINDOW)
      && (id !in w.table.busy && w.table.Look(id, w.clock) == Idle(s) ==>
            Step(w, e).calls[e.t].phase == Probing(s))
  {
    assert GoodCall(w, e.t);
  }

  /** The event ends a sign-in on session `s`, or an action that returned. */
  predicate Uses(w: World, e: Event, s: nat)
    requires Possible(w, e)
  {
    (e.act.SignedIn? || e.act.ActionReturned?) && w.calls[e.t].phase.s == s
  }

  /** When session `s` was last used in the run, `last` being what is known before it. */
  function LastUse(w: World, es: seq<Event>, s: nat, last: Option<real>): Option<real>
    requires IsRun(w, es)
    decreases |es|
  {
    if es == [] then last
    else LastUse(Step(w, es[0]), es[1..], s, if Uses(w, es[0], s) then Some(w.clock) else last)
  }

  predicate ConnectsTo(w: World, t: nat, s: nat) {
    t in w.calls && w.calls[t].phase == Connecting(s)
  }

  /** The table knows when a kept session was last used, and one that was used is past signing in. */
  ghost predicate KnowsUse(w: World, s: nat, last: Option<real>) {
    && (Kept(w, s) ==> last == Some(w.table.held[w.owner[s]].lastUsed))
    && (last.Some? ==> s < |w.owner| && forall t :: !ConnectsTo(w, t, s))
  }

  lemma UseKept(w: World, e: Event, s: nat, last: Option<real>)
    requires Invariant(w) && Possible(w, e) && KnowsUse(w, s, last) && Kept(Step(w, e), s)
    ensures var v := Step(w, e);
      Some(v.table.held[v.owner[s]].lastUsed) == if Uses(w, e, s) then Some(w.clock) else last
  {
    assert GoodCall(w, e.t) && GoodAccount(w, Account(w, e));
  }

  lemma UsedIsSignedIn(w: World, e: Event, s: nat, t: nat)
    requires Invariant(w) && Possible(w, e) && s < |w.owner|
    requires Uses(w, e, s) || !ConnectsTo(w, t, s)
    ensures !ConnectsTo(Step(w, e), t, s)
  {
    assert Apart(w, t, e.t);
  }

  lemma UseStep(w: World, e: Event, s: nat, last: Option<real>)
    requires Invariant(w) && Possible(w, e) && KnowsUse(w, s, last)
    ensures KnowsUse(Step(w, e), s, if Uses(w, e, s) then Some(w.clock) else last)
  {
    var v := Step(w, e);
    assert Uses(w, e, s) ==> s < |w.owner| by { assert GoodCall(w, e.t); }
    assert |w.owner| <= |v.owner|;
    hide Step, Uses, Invariant, Kept;
    if Kept(v, s) {
      UseKept(w, e, s, last);
    }
    if Uses(w, e, s) || last.Some? {
      forall t ensures !ConnectsTo(v, t, s) {
        UsedIsSignedIn(w, e, s, t);
      }
    }
  }

  lemma {:induction false} UseKnown(w: World, es: seq<Event>, s: nat, last: Option<real>)
    requires Invariant(w) && IsRun(w, es) && KnowsUse(w, s, last)
    ensures KnowsUse(After(w, es), s, LastUse(w, es, s, last))
    decreases |es|
  {
    hide Invariant, Step, Uses, KnowsUse;
    if es != [] {
      StepKeeps(w, es[0]);
      UseStep(w, es[0], s, last);
      UseKnown(Step(w, es[0]), es[1..], s, if Uses(w, es[0], s) then Some(w.clock) else last);
    }
  }

  /**
   Over every run: whenever a connection is handed out past the window since its last use, its
   probe has just been answered.
   */
  lemma IdleIsProbed(es: seq<Event>, e: Event, s: nat)
    requires IsRun(START, es) && Possible(After(START, es), e) && HandsOut(After(START, es), e, s)
    requires var last := LastUse(START, es, s, None);
      last.Some? && After(START, es).clock - last.value > 30.0
    ensures e.act.ProbeAnswered?
  {
    var w := After(START, es);
    StartHolds();
    RunKeeps(START, es);
    UseKnown(START, es, s, None);
    HandOutSource(w, e, s);
    assert GoodAccount(w, Account(w, e));
    assert e.act.SignedIn? ==> ConnectsTo(w, e.t, w.calls[e.t].phase.s);
    if Enters(e) {
      EnterHandsOut(w, e, s);
    }
  }

  /** What a call goes on with: its account busy, a connection kept and used `last`, or nothing kept. */
  function Onward(w: World, id: string, last: Option<real>): Phase {
    if id in w.table.busy then Waiting
    else if id !in w.table.held || last.None? then Connecting(|w.owner|)
    else if w.clock - last.value <= 30.0 then Running(w.table.held[id].session)
    else Probing(w.table.held[id].session)
  }

  /**
   Over every run, what a call gets: it waits when another one is inside; else it goes on at once
   with the kept connection if that was last used within 30 seconds, probes it if it was not,
   and opens a new one, once, if none is kept.
   */
  lemma CallGetsKept(es: seq<Event>, e: Event)
    requires IsRun(START, es) && Possible(After(START, es), e) && Enters(e)
    ensures var w := After(START, es);
      var id := Account(w, e);
      var last := if id in w.table.held then LastUse(START, es, w.table.held[id].session, None) else None;
      && (id in w.table.held ==> last.Some?)
      && var v := Step(w, e);
         && e.t in v.calls && v.calls[e.t] == Call(id, Onward(w, id, last))
         && v.owner == (if Onward(w, id, last).Connecting? then w.owner + [id] else w.owner)
  {
    var w := After(START, es);
    var id := Account(w, e);
    StartHolds();
    RunKeeps(START, es);
    assert GoodAccount(w, id);
    if id in w.table.held {
      UseKnown(START, es, w.table.held[id].session, None);
    }
  }

  lemma KeptIsNotRetired(w: World, id: string)
    requires Invariant(w) && id in w.table.held
    ensures !Retired(w, w.table.held[id].session)
  {
    var s := w.table.held[id].session;
    assert GoodAccount(w, id);
    forall u ensures !Closes(w, u, s) {
      assert GoodCall(w, u);
    }
  }

  lemma NewIsNotRetired(w: World, t: nat)
    requires Invariant(w) && t in w.calls && w.calls[t].phase.Connecting?
    ensures !Retired(w, w.calls[t].phase.s)
  {
    var s := w.calls[t].phase.s;
    assert GoodCall(w, t);
    forall u ensures !Closes(w, u, s) {
      assert Apart(w, t, u);
    }
  }

  /**
   A connection that was given up is handed out in exactly one case: it was dropped while
   a call was waiting for the answer to its probe, and the answer came.
   */
  lemma HandedOutRetiredIff(w: World, e: Event, s: nat)
    requires Invariant(w) && Possible(w, e) && HandsOut(w, e, s)
    ensures Retired(w, s) <==> e.act.ProbeAnswered? && Account(w, e) !in w.table.held
  {
    hide Invariant, Retired;
    HandOutSource(w, e, s);
    if e.act.SignedIn? {
      NewIsNotRetired(w, e.t);
    } else if Account(w, e) in w.table.held {
      KeptIsNotRetired(w, Account(w, e));
    }
  }

  lemma HandOutSource(w: World, e: Event, s: nat)
    requires Invariant(w) && Possible(w, e) && HandsOut(w, e, s)
    ensures var id := Account(w, e);
      || (e.act.SignedIn? && w.calls[e.t].phase.s == s)
      || (id in w.table.held && w.table.held[id].session == s && (Enters(e) || e.act.ProbeAnswered?))
      || (e.act.ProbeAnswered? && w.calls[e.t].phase.s == s && id !in w.table.held && Retired(w, s))
  {
    assert GoodCall(w, e.t) && GoodLoss(w, e.t) && GoodAccount(w, Account(w, e));
  }

  predicate ProbedBy(w: World, u: nat, s: nat) {
    u in w.calls && w.calls[u].phase == Probing(s)
  }

  /** Given up, and no call is waiting for an answer on it. */
  ghost predicate Gone(w: World, s: nat) {
    Retired(w, s) && forall u :: !ProbedBy(w, u, s)
  }

  lemma GoneStays(w: World, e: Event, s: nat)
    requires Invariant(w) && Possible(w, e) && Gone(w, s)
    ensures Gone(Step(w, e), s) && !HandsOut(w, e, s)
  {
    assert GoodAccount(w, Account(w, e));
    RetiredStays(w, e, s);
    forall u ensures !ProbedBy(Step(w, e), u, s) {
      assert !ProbedBy(w, u, s);
      if ProbedBy(Step(w, e), u, s) {
        ProbeBegins(w, e, u, s);
        KeptIsNotRetired(w, Account(w, e));
      }
    }
    if HandsOut(w, e, s) {
      HandedOutRetiredIff(w, e, s);
      assert GoodCall(w, e.t);
      assert ProbedBy(w, e.t, s);
    }
  }

  lemma ProbeBegins(w: World, e: Event, u: nat, s: nat)
    requires Possible(w, e) && GoodAccount(w, Account(w, e))
    requires !ProbedBy(w, u, s) && ProbedBy(Step(w, e), u, s)
    ensures Account(w, e) in w.table.held && w.table.held[Account(w, e)].session == s
  {
  }

  /** Some event of the run hands out `s`. */
  predicate RunHandsOut(w: World, es: seq<Event>, s: nat)
    requires IsRun(w, es)
    decreases |es|
  {
    es != [] && (HandsOut(w, es[0], s) || RunHandsOut(Step(w, es[0]), es[1..], s))
  }

  lemma {:induction false} NeverAgain(w: World, es: seq<Event>, s: nat)
    requires Invariant(w) && IsRun(w, es) && Gone(w, s)
    ensures !RunHandsOut(w, es, s)
    decreases |es|
  {
    hide Invariant, Gone, Step, HandsOut;
    if es != [] {
      StepKeeps(w, es[0]);
      GoneStays(w, es[0], s);
      NeverAgain(Step(w, es[0]), es[1..], s);
    }
  }

  /** A connection that failed, in its probe, its sign-in or its action, is never handed out again. */
  lemma FailedNeverHandedOut(w: World, e: Event, es: seq<Event>)
    requires Invariant(w) && Possible(w, e)
    requires e.act.ActionThrew? || e.act.ProbeFailed? || e.act.SignInFailed?
    requires IsRun(Step(w, e), es)
    ensures !RunHandsOut(Step(w, e), es, w.calls[e.t].phase.s)
  {
    var s := w.calls[e.t].phase.s;
    var v := Step(w, e);
    StepKeeps(w, e);
    assert Closes(v, e.t, s);
    forall u ensures !ProbedBy(v, u, s) {
      assert GoodCall(w, e.t) && GoodCall(w, u) && Apart(w, u, e.t) && Apart(w, e.t, u);
    }
    NeverAgain(v, es, s);
  }

  /** A dropped connection can be handed out again exactly when a call was probing it at the time. */
  lemma DroppedHandedOutIff(w: World, e: Event)
    requires Invariant(w) && Possible(w, e) && e.act.CallDrop? && e.act.id in w.table.held
    ensures var s := w.table.held[e.act.id].session;
      (exists es :: IsRun(Step(w, e), es) && RunHandsOut(Step(w, e), es, s)) <==> exists u :: ProbedBy(w, u, s)
  {
    var s := w.table.held[e.act.id].session;
    var v := Step(w, e);
    StepKeeps(w, e);
    assert Closes(v, e.t, s);
    if u :| ProbedBy(w, u, s) {
      AnswerHandsOut(v, u, s);
    } else {
      assert Gone(v, s) by {
        forall u ensures !ProbedBy(v, u, s) {
          assert !ProbedBy(w, u, s);
        }
      }
      forall es | IsRun(v, es) ensures !RunHandsOut(v, es, s) {
        NeverAgain(v, es, s);
      }
    }
  }

  lemma AnswerHandsOut(v: World, u: nat, s: nat)
    requires ProbedBy(v, u, s)
    ensures exists es :: IsRun(v, es) && RunHandsOut(v, es, s)
  {
    var e := Event(u, ProbeAnswered);
    assert [e][1..] == [];
    assert IsRun(v, [e]) && RunHandsOut(v, [e], s);
  }

  // ----- dropping

  /** The call has not yet put a connection of its own into the table, and still may. */
  predicate MaySignIn(c: Call) {
    c.phase.Probing? || c.phase.ClosingStale? || c.phase.Connecting?
  }

  /** The call `u` is there before every event of the run. */
  predicate StaysFor(w: World, es: seq<Event>, u: nat)
    requires IsRun(w, es)
    decreases |es|
  {
    es == [] || (u in w.calls && StaysFor(Step(w, es[0]), es[1..], u))
  }

  /** While the account's call is past signing in, nothing puts a connection back. */
  lemma StaysAway(w: World, e: Event, id: string, u: nat)
    requires Invariant(w) && Possible(w, e) && IsInside(w, u, id) && !MaySignIn(w.calls[u])
    requires id !in w.table.held
    ensures var v := Step(w, e);
      id !in v.table.held && (u in v.calls ==> IsInside(v, u, id) && !MaySignIn(v.calls[u]))
  {
    assert Apart(w, e.t, u) && GoodAccount(w, Account(w, e)) && GoodCall(w, e.t);
  }

  lemma {:induction false} StaysAwayThroughout(w: World, es: seq<Event>, id: string, u: nat)
    requires Invariant(w) && IsRun(w, es) && StaysFor(w, es, u)
    requires u in w.calls ==> IsInside(w, u, id) && !MaySignIn(w.calls[u])
    requires id !in w.table.held
    ensures id !in After(w, es).table.held
    decreases |es|
  {
    hide Invariant, Step;
    if es != [] {
      StepKeeps(w, es[0]);
      StaysAway(w, es[0], id, u);
      StaysAwayThroughout(Step(w, es[0]), es[1..], id, u);
    }
  }

  ghost predicate CanComeBack(v: World, id: string, u: nat) {
    exists es :: IsRun(v, es) && StaysFor(v, es, u) && u !in After(v, es).calls && id in After(v, es).table.held
  }

  /**
   An account dropped while a call is inside `use` can have a connection again when that call
   is done exactly when the drop came before the call had signed in or been handed the kept one.
   */
  lemma DroppedComesBackIff(w: World, e: Event, u: nat)
    requires Invariant(w) && Possible(w, e) && e.act.CallDrop? && IsInside(w, u, e.act.id)
    ensures CanComeBack(Step(w, e), e.act.id, u) <==> MaySignIn(w.calls[u])
  {
    var id := e.act.id;
    var v := Step(w, e);
    StepKeeps(w, e);
    assert v.calls[u] == w.calls[u] && id !in v.table.held;
    if MaySignIn(w.calls[u]) {
      SignsInAfter(v, id, u);
    } else {
      forall es | IsRun(v, es) && StaysFor(v, es, u) ensures id !in After(v, es).table.held {
        StaysAwayThroughout(v, es, id, u);
      }
    }
  }

  lemma {:induction false} SignsInAfter(v: World, id: string, u: nat)
    requires Invariant(v) && IsInside(v, u, id) && MaySignIn(v.calls[u])
    ensures CanComeBack(v, id, u)
    decreases if v.calls[u].phase.Probing? then 2 else if v.calls[u].phase.ClosingStale? then 1 else 0
  {
    if v.calls[u].phase.Connecting? {
      SignInSucceeds(v, id, u);
    } else {
      var e := Event(u, if v.calls[u].phase.Probing? then ProbeFailed else StaleClosed);
      StepKeeps(v, e);
      SignsInAfter(Step(v, e), id, u);
      var es :| IsRun(Step(v, e), es) && StaysFor(Step(v, e), es, u)
                && u !in After(Step(v, e), es).calls && id in After(Step(v, e), es).table.held;
      assert ([e] + es)[1..] == es;
      assert IsRun(v, [e] + es);
    }
  }

  lemma SignInSucceeds(v: World, id: string, u: nat)
    requires Invariant(v) && IsInside(v, u, id) && v.calls[u].phase.Connecting?
    ensures CanComeBack(v, id, u)
  {
    var e, f := Event(u, SignedIn), Event(u, ActionReturned);
    var x := Step(v, e);
    var y := Step(x, f);
    assert GoodAccount(v, id);
    assert u !in y.calls && id in y.table.held;
    var es := [e, f];
    assert es[1..] == [f] && [f][1..] == [];
    assert After(y, []) == y && After(x, [f]) == After(y, [f][1..]);
    assert IsRun(x, [f]) && StaysFor(x, [f], u) && After(x, [f]) == y;
    assert IsRun(v, es) && StaysFor(v, es, u) && After(v, es) == y;
  }

  // ----- the two races, from the start

  lemma RunExtends(w: World, es: seq<Event>, e: Event)
    requires IsRun(w, es) && Possible(After(w, es), e)
    ensures IsRun(w, es + [e]) && After(w, es + [e]) == Step(After(w, es), e)
    decreases |es|
  {
    if es == [] {
      assert es + [e] == [e] && [e][1..] == [];
    } else {
      RunExtends(Step(w, es[0]), es[1..], e);
      assert (es + [e])[1..] == es[1..] + [e];
    }
  }

  /**
   The account is dropped while its only call is connecting, and the connection that the call
   then signs in with is still kept when nobody is left.
   */
  lemma DropDuringSignIn(id: string) returns (es: seq<Event>, later: seq<Event>)
    ensures IsRun(START, es) && After(START, es).calls == map[0 := Call(id, Connecting(0))]
    ensures var w, drop := After(START, es), Event(1, CallDrop(id));
      && Possible(w, drop) && IsRun(Step(w, drop), later)
      && var v := After(Step(w, drop), later);
         v.calls == map[] && id in v.table.held && v.table.held[id].session == 0
  {
    hide IsRun, After;
    RunNothing(START);
    RunExtends(START, [], Event(0, CallUse(id)));
    es := [] + [Event(0, CallUse(id))];
    var w := After(START, es);
    assert w.calls == map[0 := Call(id, Connecting(0))];
    var v := Step(w, Event(1, CallDrop(id)));
    RunNothing(v);
    RunExtends(v, [], Event(0, SignedIn));
    later := [] + [Event(0, SignedIn)];
    RunExtends(v, later, Event(0, ActionReturned));
    later := later + [Event(0, ActionReturned)];
    assert After(v, later).calls == map[];
  }

  /**
   The account is dropped while the probe of its kept connection is in flight, and the answer
   to the probe then hands the dropped connection to the action.
   */
  lemma DropDuringProbe(id: string) returns (es: seq<Event>)
    ensures IsRun(START, es) && After(START, es).calls == map[1 := Call(id, Probing(0))]
    ensures var w, drop, answer := After(START, es), Event(2, CallDrop(id)), Event(1, ProbeAnswered);
      && Kept(w, 0) && Possible(w, drop)
      && var v := Step(w, drop);
         Retired(v, 0) && Possible(v, answer) && HandsOut(v, answer, 0)
  {
    hide IsRun, After;
    es := OneKept(id);
    RunExtends(START, es, Event(0, Tick(31.0)));
    es := es + [Event(0, Tick(31.0))];
    RunExtends(START, es, Event(1, CallUse(id)));
    es := es + [Event(1, CallUse(id))];
    var w := After(START, es);
    assert w == World(Table(map[id := Held(0, 0.0)], {id}, map[]), map[1 := Call(id, Probing(0))], [id], {}, 31.0);
    assert Closes(Step(w, Event(2, CallDrop(id))), 2, 0);
  }

  /** A first call opens a connection and leaves it kept. */
  lemma OneKept(id: string) returns (es: seq<Event>)
    ensures IsRun(START, es)
    ensures After(START, es) == World(Table(map[id := Held(0, 0.0)], {}, map[]), map[], [id], {}, 0.0)
  {
    hide IsRun, After;
    RunNothing(START);
    RunExtends(START, [], Event(0, CallUse(id)));
    es := [] + [Event(0, CallUse(id))];
    RunExtends(START, es, Event(0, SignedIn));
    es := es + [Event(0, SignedIn)];
    RunExtends(START, es, Event(0, ActionReturned));
    es := es + [Event(0, ActionReturned)];
    assert After(START, es).calls == map[];
  }

  lemma RunNothing(w: World)
    ensures IsRun(w, []) && After(w, []) == w
  {
  }
}
