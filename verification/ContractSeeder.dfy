/**
 The seeder that posts every record over a connection the server may drop at any time
 (scripts/bench-seed-over-contract.py).  What the network does is an oracle: for each
 attempt it says whether the request took effect and whether a reply came back.
 */
module ContractSeeder {
  import opened Basics

  /** A line of the input.  `Other` is a blank line or a record of another kind. */
  datatype Record = Account(address: string) | Message(id: string) | Other

  /** One request: the reply lost or received, and in either case applied or not. */
  datatype Attempt = Lost(applied: bool) | Reply(status: int, applied: bool)

  datatype Exit = Code(n: nat) | Raised

  type Network = nat -> Attempt

  predicate Accepted(r: Record, status: int) {
    status in {200, 201, 204} || (r.Account? && status == 409)
  }

  // ----- one record

  /** What posting one record comes to: how often it was sent, the final status, and how often it took effect. */
  datatype Posted = Posted(times: nat, status: Option<int>, effects: nat)

  function Once(took: bool): nat {
    if took then 1 else 0
  }

  /** The attempt `n` of the network, and the one after it if its reply is lost. */
  function PostOf(net: Network, n: nat): (p: Posted)
    ensures 1 <= p.times <= 2
    ensures p.status.None? ==> p.times == 2
  {
    match net(n)
    case Reply(status, applied) => Posted(1, Some(status), Once(applied))
    case Lost(first) =>
      match net(n + 1)
      case Reply(status, second) => Posted(2, Some(status), Once(first) + Once(second))
      case Lost(second) => Posted(2, None, Once(first) + Once(second))
  }

  function Repeated(r: Record, times: nat): seq<Record> {
    seq(times, _ => r)
  }

  /** The server after a request has taken effect that many times. */
  function Turned<S>(apply: (S, Record) -> S, s: S, r: Record, effects: nat): S {
    if effects == 0 then s else Turned(apply, apply(s, r), r, effects - 1)
  }

  lemma {:induction false} TurnedAgain<S>(apply: (S, Record) -> S, s: S, r: Record, effects: nat)
    ensures Turned(apply, s, r, effects + 1) == apply(Turned(apply, s, r, effects), r)
  {
    if effects > 0 {
      TurnedAgain(apply, apply(s, r), r, effects - 1);
    }
  }

  class Core<S> {
    const net: Network
    const apply: (S, Record) -> S
    var server: S
    var sent: seq<Record>        // every request that was written
    var connections: nat         // how many connections were opened

    constructor (net: Network, apply: (S, Record) -> S, server: S)
      ensures this.net == net && this.apply == apply && this.server == server
      ensures sent == [] && connections == 1
    {
      this.net, this.apply, this.server := net, apply, server;
      sent, connections := [], 1;
    }

    /** Status of the reply, or nothing when the second failure is raised. */
    method Post(r: Record) returns (status: Option<int>)
      modifies this
      ensures var p := PostOf(net, |old(sent)|);
        && status == p.status
        && sent == old(sent) + Repeated(r, p.times)
        && server == Turned(apply, old(server), r, p.effects)
        && connections == old(connections) + p.times - 1
    {
      var n := |sent|;
      var attempt := 1;
      while attempt <= 2
        invariant 1 <= attempt <= 2
        invariant sent == old(sent) + Repeated(r, attempt - 1)
        invariant attempt == 2 ==> net(n).Lost?
        invariant server == Turned(apply, old(server), r, if attempt == 2 then Once(net(n).applied) else 0)
        invariant connections == old(connections) + attempt - 1
        decreases 2 - attempt
      {
        var a := net(|sent|);
        sent := sent + [r];
        if a.applied {
          TurnedAgain(apply, old(server), r, if attempt == 2 then Once(net(n).applied) else 0);
          server := apply(server, r);
        }
        match a
        case Reply(code, _) =>
          return Some(code);
        case Lost(_) =>
          if attempt == 2 {
            return None;
          }
          connections := connections + 1;
          attempt := attempt + 1;
      }
      assert false;
    }
  }

  // ----- the whole input

  function Posts(rs: seq<Record>): seq<Record> {
    if rs == [] then [] else (if rs[0].Other? then [] else [rs[0]]) + Posts(rs[1..])
  }

  /** What becomes of each record, from attempt `n` of the network on, up to a raised failure. */
  function Fates(net: Network, n: nat, rs: seq<Record>): (ps: seq<Posted>)
    ensures |ps| <= |rs|
    decreases |rs|
  {
    if rs == [] then []
    else
      var p := PostOf(net, n);
      [p] + if p.status.None? then [] else Fates(net, n + p.times, rs[1..])
  }

  predicate Ended(ps: seq<Posted>) {
    ps != [] && ps[|ps| - 1].status.None?
  }

  /** The server after the turns of the first `i` records. */
  function StateAt<S>(apply: (S, Record) -> S, s: S, rs: seq<Record>, ps: seq<Posted>, i: nat): S
    requires i <= |ps| <= |rs|
    decreases i
  {
    if i == 0 then s
    else Turned(apply, StateAt(apply, s, rs, ps, i - 1), rs[i - 1], ps[i - 1].effects)
  }

  function Requests(rs: seq<Record>, ps: seq<Posted>): seq<Record>
    requires |ps| <= |rs|
    decreases |ps|
  {
    if ps == [] then [] else Repeated(rs[0], ps[0].times) + Requests(rs[1..], ps[1..])
  }

  predicate Refused(r: Record, p: Posted) {
    p.status.Some? && !Accepted(r, p.status.value)
  }

  function Failures(rs: seq<Record>, ps: seq<Posted>): nat
    requires |ps| <= |rs|
    decreases |ps|
  {
    if ps == [] then 0
    else (if Refused(rs[0], ps[0]) then 1 else 0) + Failures(rs[1..], ps[1..])
  }

  function Accounts(rs: seq<Record>): nat {
    if rs == [] then 0 else (if rs[0].Account? then 1 else 0) + Accounts(rs[1..])
  }

  function Messages(rs: seq<Record>): nat {
    if rs == [] then 0 else (if rs[0].Message? then 1 else 0) + Messages(rs[1..])
  }

  function ExitOf(rs: seq<Record>, ps: seq<Posted>): Exit
    requires |ps| <= |rs|
  {
    if Ended(ps) then Raised else Code(if Failures(rs, ps) > 0 then 1 else 0)
  }

  /** What is left of a run: how it ends, the server at the end, and the requests still to come. */
  datatype Ending<S> = Ending(exit: Exit, server: S, requests: seq<Record>)

  function Run<S>(net: Network, apply: (S, Record) -> S, s: S, n: nat, failures: nat, rs: seq<Record>): Ending<S>
    decreases |rs|
  {
    if rs == [] then Ending(Code(if failures > 0 then 1 else 0), s, [])
    else
      var (r, p) := (rs[0], PostOf(net, n));
      var next := Turned(apply, s, r, p.effects);
      match p.status
      case None => Ending(Raised, next, Repeated(r, p.times))
      case Some(status) =>
        var e := Run(net, apply, next, n + p.times, if Accepted(r, status) then failures else failures + 1, rs[1..]);
        e.(requests := Repeated(r, p.times) + e.requests)
  }

  /** The `main` loop.  Nothing of it runs after a raised failure. */
  method Seed<S>(core: Core<S>, lines: seq<Record>) returns (exit: Exit, accounts: nat, messages: nat)
    requires core.sent == []
    modifies core
    ensures Ending(exit, core.server, core.sent) == Run(core.net, core.apply, old(core.server), 0, 0, Posts(lines))
    ensures exit != Raised ==> accounts == Accounts(lines) && messages == Messages(lines)
  {
    hide PostOf, Accepted, Run, Repeated, Turned;
    accounts, messages := 0, 0;
    var failures := 0;
    ghost var whole := Run(core.net, core.apply, core.server, 0, 0, Posts(lines));
    assert lines[0..] == lines;
    for i := 0 to |lines|
      invariant var e := Run(core.net, core.apply, core.server, |core.sent|, failures, Posts(lines[i..]));
        e.(requests := core.sent + e.requests) == whole
      invariant accounts + Accounts(lines[i..]) == Accounts(lines)
      invariant messages + Messages(lines[i..]) == Messages(lines)
    {
      var rec := lines[i];
      assert lines[i..][1..] == lines[i + 1..];
      if rec.Other? {
        assert Posts(lines[i..]) == Posts(lines[i + 1..]);
        continue;
      }
      PostsFirst(lines[i..]);
      RunStep(core.net, core.apply, core.server, |core.sent|, failures, Posts(lines[i..]));
      RepeatedLength(rec, PostOf(core.net, |core.sent|).times);
      var status := core.Post(rec);
      if status.None? {
        return Raised, accounts, messages;
      }
      if !Accepted(rec, status.value) {
        failures := failures + 1;
      }
      if rec.Account? {
        accounts := accounts + 1;
      } else {
        messages := messages + 1;
      }
    }
    exit := Code(if failures > 0 then 1 else 0);
    RunStep(core.net, core.apply, core.server, |core.sent|, failures, []);
    assert core.sent + [] == core.sent;
  }

  lemma RepeatedLength(r: Record, times: nat)
    ensures |Repeated(r, times)| == times
  {
  }

  lemma RunStep<S>(net: Network, apply: (S, Record) -> S, s: S, n: nat, failures: nat, rs: seq<Record>)
    ensures rs == [] ==> Run(net, apply, s, n, failures, rs) == Ending(Code(if failures > 0 then 1 else 0), s, [])
    ensures rs != [] ==>
      var (r, p) := (rs[0], PostOf(net, n));
      var next := Turned(apply, s, r, p.effects);
      Run(net, apply, s, n, failures, rs) ==
        match p.status
        case None => Ending(Raised, next, Repeated(r, p.times))
        case Some(status) =>
          var e := Run(net, apply, next, n + p.times, if Accepted(r, status) then failures else failures + 1, rs[1..]);
          e.(requests := Repeated(r, p.times) + e.requests)
  {
    hide PostOf, Accepted, Repeated, Turned;
  }

  lemma PostsFirst(rs: seq<Record>)
    requires rs != [] && !rs[0].Other?
    ensures Posts(rs) != [] && Posts(rs)[0] == rs[0] && Posts(rs)[1..] == Posts(rs[1..])
  {
  }

  // ----- what a run means

  lemma {:induction false} StateAtFirst<S>(
      apply: (S, Record) -> S, s: S, rs: seq<Record>, ps: seq<Posted>, i: nat)
    requires 0 < i <= |ps| <= |rs|
    ensures StateAt(apply, s, rs, ps, i)
         == StateAt(apply, Turned(apply, s, rs[0], ps[0].effects), rs[1..], ps[1..], i - 1)
  {
    hide Turned;
    if i == 1 {
      assert StateAt(apply, s, rs, ps, 0) == s;
    } else {
      StateAtFirst(apply, s, rs, ps, i - 1);
    }
  }

  lemma FatesStep(net: Network, n: nat, rs: seq<Record>)
    ensures Fates(net, n, rs) ==
      if rs == [] then []
      else [PostOf(net, n)] + if PostOf(net, n).status.None? then [] else Fates(net, n + PostOf(net, n).times, rs[1..])
  {
    hide PostOf;
  }

  /** What one more record in front adds to the accounts of a run. */
  lemma AccountsStep(rs: seq<Record>, p: Posted, more: seq<Posted>)
    requires |more| < |rs|
    ensures var ps := [p] + more;
      && Requests(rs, ps) == Repeated(rs[0], p.times) + Requests(rs[1..], more)
      && Failures(rs, ps) == (if Refused(rs[0], p) then 1 else 0) + Failures(rs[1..], more)
      && Ended(ps) == (if more == [] then p.status.None? else Ended(more))
  {
    hide Repeated, Accepted;
    assert ([p] + more)[1..] == more;
  }

  lemma NoAccounts(rs: seq<Record>)
    ensures Requests(rs, []) == [] && Failures(rs, []) == 0 && !Ended([])
  {
  }

  lemma {:induction false} RunMeans<S>(
      net: Network, apply: (S, Record) -> S, s: S, n: nat, failures: nat, rs: seq<Record>)
    ensures var ps := Fates(net, n, rs);
      Run(net, apply, s, n, failures, rs) ==
        Ending(if Ended(ps) then Raised else Code(if failures + Failures(rs, ps) > 0 then 1 else 0),
               StateAt(apply, s, rs, ps, |ps|), Requests(rs, ps))
    decreases |rs|
  {
    hide PostOf, Accepted, Repeated, Turned, Run, Fates, Requests, Failures, Ended;
    RunStep(net, apply, s, n, failures, rs);
    FatesStep(net, n, rs);
    NoAccounts(rs);
    if rs != [] {
      var (r, p) := (rs[0], PostOf(net, n));
      var next := Turned(apply, s, r, p.effects);
      NoAccounts(rs[1..]);
      if p.status.Some? {
        var more := Fates(net, n + p.times, rs[1..]);
        AccountsStep(rs, p, more);
        assert ([p] + more)[1..] == more;
        StateAtFirst(apply, s, rs, [p] + more, |more| + 1);
        var failed := if Accepted(r, p.status.value) then failures else failures + 1;
        RunMeans(net, apply, next, n + p.times, failed, rs[1..]);
      } else {
        AccountsStep(rs, p, []);
        assert [p] + [] == [p];
        StateAtFirst(apply, s, rs, [p], 1);
        assert [p][1..] == [];
        assert Repeated(r, p.times) + [] == Repeated(r, p.times);
      }
    }
  }

  /** The run ends early or covers every record; only the last one sent can have raised. */
  lemma {:induction false} FatesCover(net: Network, n: nat, rs: seq<Record>)
    ensures var ps := Fates(net, n, rs);
      && (!Ended(ps) ==> |ps| == |rs|)
      && (forall i :: 0 <= i < |ps| - 1 ==> ps[i].status.Some?)
    decreases |rs|
  {
    hide PostOf, Fates;
    FatesStep(net, n, rs);
    if rs != [] && PostOf(net, n).status.Some? {
      FatesCover(net, n + PostOf(net, n).times, rs[1..]);
    }
  }

  /** No record is sent more than twice, and one that is sent twice is sent again at once. */
  lemma {:induction false} AtMostTwice(net: Network, n: nat, rs: seq<Record>)
    ensures var ps := Fates(net, n, rs);
      && (forall i :: 0 <= i < |ps| ==> 1 <= ps[i].times <= 2)
      && |Requests(rs, ps)| <= 2 * |ps|
    decreases |rs|
  {
    hide Repeated;
    if rs != [] {
      var p := PostOf(net, n);
      RepeatedLength(rs[0], p.times);
      var more := if p.status.None? then [] else Fates(net, n + p.times, rs[1..]);
      assert ([p] + more)[1..] == more;
      if p.status.Some? {
        AtMostTwice(net, n + p.times, rs[1..]);
      }
    }
  }

  /** Zero is returned exactly when every record of the input was answered with an accepted status. */
  lemma {:induction false} ZeroIff(rs: seq<Record>, ps: seq<Posted>)
    requires |ps| <= |rs| && (!Ended(ps) ==> |ps| == |rs|)
    requires forall i :: 0 <= i < |ps| - 1 ==> ps[i].status.Some?
    ensures ExitOf(rs, ps) == Code(0) <==>
      |ps| == |rs| && forall i :: 0 <= i < |rs| ==> ps[i].status.Some? && Accepted(rs[i], ps[i].status.value)
    decreases |ps|
  {
    if ps != [] {
      if ps[0].status.Some? {
        assert Ended(ps) <==> Ended(ps[1..]);
        ZeroIff(rs[1..], ps[1..]);
        assert rs == [rs[0]] + rs[1..] && ps == [ps[0]] + ps[1..];
      } else {
        assert Ended(ps);
      }
    }
  }

  // ----- what the server has

  function Prefix<S>(apply: (S, Record) -> S, s: S, rs: seq<Record>): S {
    if rs == [] then s else Prefix(apply, apply(s, rs[0]), rs[1..])
  }

  /** Every effect of a record, in order. */
  function Effects(rs: seq<Record>, ps: seq<Posted>): seq<Record>
    requires |ps| <= |rs|
    decreases |ps|
  {
    if ps == [] then [] else Repeated(rs[0], ps[0].effects) + Effects(rs[1..], ps[1..])
  }

  /** The records that took effect, in order. */
  function Taken(rs: seq<Record>, ps: seq<Posted>): seq<Record>
    requires |ps| <= |rs|
    decreases |ps|
  {
    if ps == [] then [] else (if ps[0].effects > 0 then [rs[0]] else []) + Taken(rs[1..], ps[1..])
  }

  lemma {:induction false} PrefixRepeated<S>(apply: (S, Record) -> S, s: S, r: Record, n: nat, more: seq<Record>)
    ensures Prefix(apply, s, Repeated(r, n) + more) == Prefix(apply, Turned(apply, s, r, n), more)
    decreases n
  {
    if n == 0 {
      assert Repeated(r, 0) + more == more;
    } else {
      assert (Repeated(r, n) + more)[1..] == Repeated(r, n - 1) + more;
      PrefixRepeated(apply, apply(s, r), r, n - 1, more);
    }
  }

  /** Whatever is lost or refused, the server ends with every effect that a request had, in order. */
  lemma {:induction false} ServerHasEffects<S>(apply: (S, Record) -> S, s: S, rs: seq<Record>, ps: seq<Posted>)
    requires |ps| <= |rs|
    ensures StateAt(apply, s, rs, ps, |ps|) == Prefix(apply, s, Effects(rs, ps))
    decreases |ps|
  {
    hide Turned, Repeated;
    if ps != [] {
      StateAtFirst(apply, s, rs, ps, |ps|);
      ServerHasEffects(apply, Turned(apply, s, rs[0], ps[0].effects), rs[1..], ps[1..]);
      PrefixRepeated(apply, s, rs[0], ps[0].effects, Effects(rs[1..], ps[1..]));
    }
  }

  /** Repeating the record it has just applied changes nothing on such a server. */
  ghost predicate Repeatable<S(!new)>(apply: (S, Record) -> S) {
    forall s, r :: apply(apply(s, r), r) == apply(s, r)
  }

  lemma {:induction false} TurnedOnce<S(!new)>(apply: (S, Record) -> S, s: S, r: Record, n: nat)
    requires Repeatable(apply) && n > 0
    ensures Turned(apply, s, r, n) == apply(s, r)
  {
    if n > 1 {
      TurnedOnce(apply, apply(s, r), r, n - 1);
    }
  }

  /** A server on which a repeated record is a no-op ends with the records that took effect, once each. */
  lemma {:induction false} ServerHasTaken<S(!new)>(apply: (S, Record) -> S, s: S, rs: seq<Record>, ps: seq<Posted>)
    requires Repeatable(apply) && |ps| <= |rs|
    ensures StateAt(apply, s, rs, ps, |ps|) == Prefix(apply, s, Taken(rs, ps))
    decreases |ps|
  {
    hide Turned;
    if ps != [] {
      var later := Taken(rs[1..], ps[1..]);
      StateAtFirst(apply, s, rs, ps, |ps|);
      ServerHasTaken(apply, Turned(apply, s, rs[0], ps[0].effects), rs[1..], ps[1..]);
      if ps[0].effects > 0 {
        TurnedOnce(apply, s, rs[0], ps[0].effects);
        assert ([rs[0]] + later)[1..] == later;
      } else {
        TurnedNever(apply, s, rs[0]);
        assert [] + later == later;
      }
    }
  }

  lemma TurnedNever<S>(apply: (S, Record) -> S, s: S, r: Record)
    ensures Turned(apply, s, r, 0) == s
  {
  }

  // ----- when it is a prefix

  /** After its turn record `i` is on the server as if it had been applied once, which may change nothing. */
  ghost predicate Stands<S>(apply: (S, Record) -> S, s: S, rs: seq<Record>, ps: seq<Posted>, i: nat)
    requires i < |ps| <= |rs|
  {
    StateAt(apply, s, rs, ps, i + 1) == apply(StateAt(apply, s, rs, ps, i), rs[i])
  }

  ghost predicate Changes<S>(apply: (S, Record) -> S, s: S, rs: seq<Record>, ps: seq<Posted>, i: nat)
    requires i < |ps| <= |rs|
  {
    StateAt(apply, s, rs, ps, i + 1) != StateAt(apply, s, rs, ps, i)
  }

  /** A record whose turn changes the server stands, and so do all before it. */
  ghost predicate NoGap<S>(apply: (S, Record) -> S, s: S, rs: seq<Record>, ps: seq<Posted>)
    requires |ps| <= |rs|
  {
    forall i: nat, j: nat :: i <= j < |ps| && Changes(apply, s, rs, ps, j) ==> Stands(apply, s, rs, ps, i)
  }

  lemma {:induction false} PrefixSnoc<S>(apply: (S, Record) -> S, s: S, rs: seq<Record>, r: Record)
    ensures Prefix(apply, s, rs + [r]) == apply(Prefix(apply, s, rs), r)
    decreases |rs|
  {
    if rs == [] {
      assert ([] + [r])[1..] == [];
    } else {
      assert (rs + [r])[1..] == rs[1..] + [r];
      PrefixSnoc(apply, apply(s, rs[0]), rs[1..], r);
    }
  }

  /** As long as every record stands the server has exactly the records so far. */
  lemma {:induction false} StandingSoFar<S>(apply: (S, Record) -> S, s: S, rs: seq<Record>, ps: seq<Posted>, k: nat)
    requires k <= |ps| <= |rs| && forall i: nat :: i < k ==> Stands(apply, s, rs, ps, i)
    ensures StateAt(apply, s, rs, ps, k) == Prefix(apply, s, rs[..k])
    decreases k
  {
    if k > 0 {
      StandingSoFar(apply, s, rs, ps, k - 1);
      assert Stands(apply, s, rs, ps, k - 1);
      assert rs[..k] == rs[..k - 1] + [rs[k - 1]];
      PrefixSnoc(apply, s, rs[..k - 1], rs[k - 1]);
    }
  }

  lemma {:induction false} NothingChanges<S>(
      apply: (S, Record) -> S, s: S, rs: seq<Record>, ps: seq<Posted>, k: nat, n: nat)
    requires k <= n <= |ps| <= |rs| && forall j: nat :: k <= j < n ==> !Changes(apply, s, rs, ps, j)
    ensures StateAt(apply, s, rs, ps, n) == StateAt(apply, s, rs, ps, k)
    decreases n
  {
    if k < n {
      NothingChanges(apply, s, rs, ps, k, n - 1);
      assert !Changes(apply, s, rs, ps, n - 1);
    }
  }

  lemma {:induction false} StandingUpTo<S>(apply: (S, Record) -> S, s: S, rs: seq<Record>, ps: seq<Posted>, from: nat)
      returns (k: nat)
    requires from <= |ps| <= |rs| && forall i: nat :: i < from ==> Stands(apply, s, rs, ps, i)
    ensures k <= |ps| && forall i: nat :: i < k ==> Stands(apply, s, rs, ps, i)
    ensures k < |ps| ==> !Stands(apply, s, rs, ps, k)
    decreases |ps| - from
  {
    hide Stands;
    k := from;
    if from < |ps| && Stands(apply, s, rs, ps, from) {
      k := StandingUpTo(apply, s, rs, ps, from + 1);
    }
  }

  /** Without a gap the server has the records up to the first that does not stand, and nothing else. */
  lemma ServerHasPrefix<S>(apply: (S, Record) -> S, s: S, rs: seq<Record>, ps: seq<Posted>) returns (k: nat)
    requires |ps| <= |rs| && NoGap(apply, s, rs, ps)
    ensures k <= |ps| && StateAt(apply, s, rs, ps, |ps|) == Prefix(apply, s, rs[..k])
    ensures forall i: nat :: i < k ==> Stands(apply, s, rs, ps, i)
    ensures k < |ps| ==> !Stands(apply, s, rs, ps, k)
  {
    hide Stands, Changes, StateAt, Prefix;
    k := StandingUpTo(apply, s, rs, ps, 0);
    StandingSoFar(apply, s, rs, ps, k);
    NothingChanges(apply, s, rs, ps, k, |ps|);
  }

  /**
   In terms of a run: whatever connections and replies are lost, the server ends with a prefix
   of the input when there is no gap.  If every answered record stands, it is all of the input,
   or all up to the record that raised.
   */
  lemma SeedingKeepsAPrefix<S>(net: Network, apply: (S, Record) -> S, s: S, rs: seq<Record>) returns (k: nat)
    requires NoGap(apply, s, rs, Fates(net, 0, rs))
    ensures var e, ps := Run(net, apply, s, 0, 0, rs), Fates(net, 0, rs);
      && k <= |ps| && e.server == Prefix(apply, s, rs[..k])
      && ((forall i: nat :: i < |ps| && ps[i].status.Some? ==> Stands(apply, s, rs, ps, i)) ==>
            if e.exit == Raised then k == |ps| || k == |ps| - 1 else k == |rs|)
  {
    hide Run, Fates, StateAt, Prefix, Stands, Changes;
    k := ServerHasPrefix(apply, s, rs, Fates(net, 0, rs));
    RunMeans(net, apply, s, 0, 0, rs);
    FatesCover(net, 0, rs);
  }

  /** An accepted reply means that the record is on the server. */
  ghost predicate AcceptedStands<S>(apply: (S, Record) -> S, s: S, rs: seq<Record>, ps: seq<Posted>)
    requires |ps| <= |rs|
  {
    forall i: nat :: i < |ps| && ps[i].status.Some? && Accepted(rs[i], ps[i].status.value) ==>
      Stands(apply, s, rs, ps, i)
  }

  /** A run that returns zero leaves the server with every record of the input, once each and in order. */
  lemma ZeroMeansAll<S>(net: Network, apply: (S, Record) -> S, s: S, rs: seq<Record>)
    requires AcceptedStands(apply, s, rs, Fates(net, 0, rs))
    requires Run(net, apply, s, 0, 0, rs).exit == Code(0)
    ensures Run(net, apply, s, 0, 0, rs).server == Prefix(apply, s, rs)
  {
    hide Run, Fates, StateAt, Prefix, Stands;
    var ps := Fates(net, 0, rs);
    RunMeans(net, apply, s, 0, 0, rs);
    FatesCover(net, 0, rs);
    ZeroIff(rs, ps);
    StandingSoFar(apply, s, rs, ps, |rs|);
    assert rs[..|rs|] == rs;
  }

  predicate Distinct(rs: seq<Record>) {
    forall i, j :: 0 <= i < j < |rs| ==> rs[i] != rs[j]
  }

  // ----- a server that ignores what it has

  /** A record that is there already is ignored, as the server does with a message id it knows. */
  const KeepOnce: (seq<Record>, Record) -> seq<Record> := (s, r) => if r in s then s else s + [r]

  lemma KeepOnceIsRepeatable()
    ensures Repeatable(KeepOnce)
  {
  }

  lemma {:induction false} KeptInPrefix(s: seq<Record>, rs: seq<Record>, r: Record)
    ensures r in Prefix(KeepOnce, s, rs) <==> r in s || r in rs
    decreases |rs|
  {
    if rs != [] {
      KeptInPrefix(KeepOnce(s, rs[0]), rs[1..], r);
      assert rs == [rs[0]] + rs[1..];
    }
  }

  predicate TookAt(rs: seq<Record>, ps: seq<Posted>, m: int, r: Record)
    requires |ps| <= |rs|
  {
    0 <= m < |ps| && rs[m] == r && ps[m].effects > 0
  }

  lemma KeepOnceTurn(s: seq<Record>, r: Record, n: nat)
    ensures Turned(KeepOnce, s, r, n) == if n > 0 then KeepOnce(s, r) else s
  {
    if n > 0 {
      KeepOnceIsRepeatable();
      TurnedOnce(KeepOnce, s, r, n);
    }
  }

  lemma {:induction false} KeptAt(s: seq<Record>, rs: seq<Record>, ps: seq<Posted>, i: nat, r: Record)
    requires i <= |ps| <= |rs|
    ensures r in StateAt(KeepOnce, s, rs, ps, i) <==> r in s || exists m :: m < i && TookAt(rs, ps, m, r)
    decreases i
  {
    hide Turned;
    if i > 0 {
      KeptAt(s, rs, ps, i - 1, r);
      KeepOnceTurn(StateAt(KeepOnce, s, rs, ps, i - 1), rs[i - 1], ps[i - 1].effects);
      assert rs[i - 1] == r && ps[i - 1].effects > 0 ==> TookAt(rs, ps, i - 1, r);
    }
  }

  /** A record is on the server after its turn when it was there before or took effect. */
  predicate Arrived(s: seq<Record>, rs: seq<Record>, ps: seq<Posted>, i: nat)
    requires i < |ps| <= |rs|
  {
    rs[i] in s || ps[i].effects > 0
  }

  /** No new record took effect after one that has not arrived. */
  ghost predicate InOrder(s: seq<Record>, rs: seq<Record>, ps: seq<Posted>)
    requires |ps| <= |rs|
  {
    forall i: nat, j: nat :: i < j < |ps| && rs[j] !in s && ps[j].effects > 0 ==> Arrived(s, rs, ps, i)
  }

  lemma KeepOnceAt(s: seq<Record>, rs: seq<Record>, ps: seq<Posted>, i: nat)
    requires Distinct(rs) && i < |ps| <= |rs|
    ensures Stands(KeepOnce, s, rs, ps, i) <==> Arrived(s, rs, ps, i)
    ensures Changes(KeepOnce, s, rs, ps, i) <==> rs[i] !in s && ps[i].effects > 0
  {
    hide Turned;
    var before := StateAt(KeepOnce, s, rs, ps, i);
    KeptAt(s, rs, ps, i, rs[i]);
    KeepOnceTurn(before, rs[i], ps[i].effects);
    assert |before + [rs[i]]| == |before| + 1;
  }

  /** The records on such a server begin the input exactly when they took effect in order. */
  lemma KeptInOrderIff(s: seq<Record>, rs: seq<Record>, ps: seq<Posted>)
    requires Distinct(rs) && |ps| <= |rs|
    ensures (exists k: nat :: k <= |rs| && StateAt(KeepOnce, s, rs, ps, |ps|) == Prefix(KeepOnce, s, rs[..k]))
      <==> InOrder(s, rs, ps)
  {
    hide StateAt, Prefix, Stands, Changes;
    if InOrder(s, rs, ps) {
      forall i: nat, j: nat | i <= j < |ps| && Changes(KeepOnce, s, rs, ps, j) ensures Stands(KeepOnce, s, rs, ps, i) {
        KeepOnceAt(s, rs, ps, i);
        KeepOnceAt(s, rs, ps, j);
      }
      var k := ServerHasPrefix(KeepOnce, s, rs, ps);
    }
    if k: nat :| k <= |rs| && StateAt(KeepOnce, s, rs, ps, |ps|) == Prefix(KeepOnce, s, rs[..k]) {
      forall i: nat, j: nat | i < j < |ps| && rs[j] !in s && ps[j].effects > 0 ensures Arrived(s, rs, ps, i) {
        assert TookAt(rs, ps, j, rs[j]);
        KeptAt(s, rs, ps, |ps|, rs[j]);
        KeptInPrefix(s, rs[..k], rs[j]);
        assert rs[i] in rs[..k];
        KeptInPrefix(s, rs[..k], rs[i]);
        KeptAt(s, rs, ps, |ps|, rs[i]);
      }
    }
  }

  /** What a run of the seeder over `lines` leaves begins the input exactly when the records took effect in order. */
  lemma PrefixIff(net: Network, s: seq<Record>, lines: seq<Record>)
    requires Distinct(Posts(lines))
    ensures var rs := Posts(lines);
      (exists k: nat :: k <= |rs| && Run(net, KeepOnce, s, 0, 0, rs).server == Prefix(KeepOnce, s, rs[..k]))
      <==> InOrder(s, rs, Fates(net, 0, rs))
  {
    hide Run, Fates, StateAt, Prefix, InOrder, Posts;
    RunMeans(net, KeepOnce, s, 0, 0, Posts(lines));
    KeptInOrderIff(s, Posts(lines), Fates(net, 0, Posts(lines)));
  }

  /** A first message refused and a second one accepted: what the server has begins no part of the input. */
  lemma RefusedThenAccepted(id: string, next: string) returns (net: Network)
    requires id != next
    ensures var rs := [Message(id), Message(next)];
      var e := Run(net, KeepOnce, [], 0, 0, rs);
      && e.exit == Code(1) && e.server == [Message(next)]
      && forall k: nat :: k <= |rs| ==> e.server != Prefix(KeepOnce, [], rs[..k])
  {
    net := n => if n == 0 then Reply(500, false) else Reply(201, true);
    var rs, tail := [Message(id), Message(next)], [Message(next)];
    assert PostOf(net, 0) == Posted(1, Some(500), 0) && PostOf(net, 1) == Posted(1, Some(201), 1);
    assert !Accepted(Message(id), 500) && Accepted(Message(next), 201);
    assert rs[1..] == tail && tail[1..] == [];
    hide Run, PostOf, Accepted;
    RunStep(net, KeepOnce, [], 0, 0, rs);
    KeepOnceTurn([], Message(id), 0);
    RunStep(net, KeepOnce, [], 1, 1, tail);
    KeepOnceTurn([], Message(next), 1);
    RunStep(net, KeepOnce, KeepOnce([], Message(next)), 2, 1, []);
    forall k: nat | k <= |rs| ensures tail != Prefix(KeepOnce, [], rs[..k]) {
      KeptInPrefix([], rs[..k], Message(id));
      KeptInPrefix([], rs[..k], Message(next));
      assert k > 0 ==> rs[..k][0] == Message(id);
    }
  }

  // ----- a server that takes what it is sent

  /** Every request that takes effect is written down, a repeated one too. */
  const Log: (seq<Record>, Record) -> seq<Record> := (s, r) => s + [r]

  lemma {:induction false} LogHas(s: seq<Record>, rs: seq<Record>)
    ensures Prefix(Log, s, rs) == s + rs
    decreases |rs|
  {
    if rs != [] {
      LogHas(s + [rs[0]], rs[1..]);
      assert s + [rs[0]] + rs[1..] == s + rs;
    }
  }

  lemma LogTurn(s: seq<Record>, r: Record, n: nat)
    ensures Turned(Log, s, r, n) == s + Repeated(r, n)
  {
    PrefixRepeated(Log, s, r, n, []);
    assert Repeated(r, n) + [] == Repeated(r, n);
    LogHas(s, Repeated(r, n));
  }

  lemma LogAt(s: seq<Record>, rs: seq<Record>, ps: seq<Posted>, i: nat)
    requires i < |ps| <= |rs|
    ensures Stands(Log, s, rs, ps, i) <==> ps[i].effects == 1
    ensures Changes(Log, s, rs, ps, i) <==> ps[i].effects > 0
  {
    hide Turned;
    var before := StateAt(Log, s, rs, ps, i);
    LogTurn(before, rs[i], ps[i].effects);
    assert |before + Repeated(rs[i], ps[i].effects)| == |before| + ps[i].effects;
    assert Repeated(rs[i], 1) == [rs[i]] && Repeated(rs[i], 0) == [] && before + [] == before;
  }

  lemma {:induction false} CountRepeated(r: Record, n: nat, x: Record)
    ensures multiset(Repeated(r, n))[x] == if x == r then n else 0
  {
    if n > 0 {
      CountRepeated(r, n - 1, x);
      assert Repeated(r, n) == [r] + Repeated(r, n - 1);
    }
  }

  lemma {:induction false} NoEffectOfOthers(rs: seq<Record>, ps: seq<Posted>, x: Record)
    requires |ps| <= |rs| && x !in rs
    ensures multiset(Effects(rs, ps))[x] == 0
    decreases |ps|
  {
    hide Repeated;
    if ps != [] {
      CountRepeated(rs[0], ps[0].effects, x);
      NoEffectOfOthers(rs[1..], ps[1..], x);
    }
  }

  /** Of different records each has its own effects. */
  lemma {:induction false} CountEffects(rs: seq<Record>, ps: seq<Posted>, i: nat)
    requires Distinct(rs) && i < |ps| <= |rs|
    ensures multiset(Effects(rs, ps))[rs[i]] == ps[i].effects
    decreases |ps|
  {
    hide Repeated;
    CountRepeated(rs[0], ps[0].effects, rs[i]);
    if i == 0 {
      NoEffectOfOthers(rs[1..], ps[1..], rs[0]);
    } else {
      CountEffects(rs[1..], ps[1..], i - 1);
    }
  }

  lemma {:induction false} CountDistinct(rs: seq<Record>, k: nat, i: nat)
    requires Distinct(rs) && k <= |rs| && i < |rs|
    ensures multiset(rs[..k])[rs[i]] == if i < k then 1 else 0
  {
    if k > 0 {
      CountDistinct(rs, k - 1, i);
      assert rs[..k] == rs[..k - 1] + [rs[k - 1]];
    }
  }

  /** A server that takes repeats has a prefix of the input exactly when, besides, no record took effect twice. */
  lemma LogPrefixIff(net: Network, lines: seq<Record>)
    requires Distinct(Posts(lines))
    ensures var rs := Posts(lines);
      var ps := Fates(net, 0, rs);
      (exists k: nat :: k <= |rs| && Run(net, Log, [], 0, 0, rs).server == rs[..k])
      <==> forall i: nat, j: nat :: i <= j < |ps| && ps[j].effects > 0 ==> ps[i].effects == 1
  {
    hide Run, Fates, StateAt, Prefix, Stands, Changes, Posts, Effects;
    var rs := Posts(lines);
    var ps := Fates(net, 0, rs);
    RunMeans(net, Log, [], 0, 0, rs);
    if forall i: nat, j: nat :: i <= j < |ps| && ps[j].effects > 0 ==> ps[i].effects == 1 {
      forall i: nat | i < |ps|
        ensures Stands(Log, [], rs, ps, i) <==> ps[i].effects == 1
        ensures Changes(Log, [], rs, ps, i) <==> ps[i].effects > 0 {
        LogAt([], rs, ps, i);
      }
      var k := ServerHasPrefix(Log, [], rs, ps);
      LogHas([], rs[..k]);
      assert [] + rs[..k] == rs[..k];
    }
    if k: nat :| k <= |rs| && Run(net, Log, [], 0, 0, rs).server == rs[..k] {
      ServerHasEffects(Log, [], rs, ps);
      LogHas([], Effects(rs, ps));
      assert [] + Effects(rs, ps) == Effects(rs, ps);
      forall i: nat | i < |ps| ensures ps[i].effects == if i < k then 1 else 0 {
        CountEffects(rs, ps, i);
        CountDistinct(rs, k, i);
      }
    }
  }

  // ----- failures reported of what was delivered, and records that took effect twice

  /** The number of the first attempt at record `i`. */
  function AttemptOf(net: Network, n: nat, rs: seq<Record>, i: nat): nat
    requires i < |rs|
    decreases i
  {
    if i == 0 then n else AttemptOf(net, n + PostOf(net, n).times, rs[1..], i - 1)
  }

  /** The request took effect, its reply was lost, and the second request was refused. */
  predicate LostThenRefused(net: Network, n: nat, r: Record) {
    net(n) == Lost(true) && net(n + 1).Reply? && !Accepted(r, net(n + 1).status)
  }

  /** A refused request has no effect. */
  ghost predicate RefusalsDoNothing(net: Network, rs: seq<Record>) {
    forall n, r :: r in rs && net(n).Reply? && !Accepted(r, net(n).status) ==> !net(n).applied
  }

  lemma {:induction false} FateAt(net: Network, n: nat, rs: seq<Record>, i: nat)
    requires i < |Fates(net, n, rs)|
    ensures Fates(net, n, rs)[i] == PostOf(net, AttemptOf(net, n, rs, i))
    decreases i
  {
    hide PostOf;
    if i > 0 {
      FateAt(net, n + PostOf(net, n).times, rs[1..], i - 1);
    }
  }

  /** A record takes effect twice exactly when its first reply is lost although both requests take effect. */
  lemma TwiceIff(net: Network, n: nat, rs: seq<Record>, i: nat)
    requires i < |Fates(net, n, rs)|
    ensures var k := AttemptOf(net, n, rs, i);
      Fates(net, n, rs)[i].effects > 1 <==> net(k) == Lost(true) && net(k + 1).applied
  {
    FateAt(net, n, rs, i);
  }

  /**
   A record that took effect is reported as failed exactly when its first reply was lost and
   the second request refused.
   */
  lemma DeliveredYetReportedIff(net: Network, n: nat, rs: seq<Record>, i: nat)
    requires RefusalsDoNothing(net, rs) && i < |Fates(net, n, rs)|
    ensures var p := Fates(net, n, rs)[i];
      p.effects > 0 && Refused(rs[i], p) <==> LostThenRefused(net, AttemptOf(net, n, rs, i), rs[i])
  {
    FateAt(net, n, rs, i);
    var k := AttemptOf(net, n, rs, i);
    assert rs[i] in rs;
    assert net(k).Reply? && !Accepted(rs[i], net(k).status) ==> !net(k).applied;
    assert net(k + 1).Reply? && !Accepted(rs[i], net(k + 1).status) ==> !net(k + 1).applied;
  }

  /**
   A run whose every record took effect returns 1 exactly when some record's first reply was
   lost and its second request refused.
   */
  lemma FalseAlarmIff<S>(net: Network, apply: (S, Record) -> S, s: S, rs: seq<Record>)
    requires RefusalsDoNothing(net, rs) && Run(net, apply, s, 0, 0, rs).exit != Raised
    requires forall i :: 0 <= i < |Fates(net, 0, rs)| ==> Fates(net, 0, rs)[i].effects > 0
    ensures Run(net, apply, s, 0, 0, rs).exit == Code(1)
      <==> exists i :: 0 <= i < |rs| && LostThenRefused(net, AttemptOf(net, 0, rs, i), rs[i])
  {
    hide Run, Fates, PostOf, Accepted, LostThenRefused, RefusalsDoNothing, StateAt;
    var ps := Fates(net, 0, rs);
    RunMeans(net, apply, s, 0, 0, rs);
    FatesCover(net, 0, rs);
    ZeroIff(rs, ps);
    forall i | 0 <= i < |rs| ensures LostThenRefused(net, AttemptOf(net, 0, rs, i), rs[i]) <==> Refused(rs[i], ps[i]) {
      DeliveredYetReportedIff(net, 0, rs, i);
    }
  }

  /** A message delivered by a request whose reply was lost, and then refused as a duplicate. */
  lemma DeliveredYetReported<S>(apply: (S, Record) -> S, s: S, id: string) returns (net: Network)
    ensures var e := Run(net, apply, s, 0, 0, [Message(id)]);
      e.server == Prefix(apply, s, [Message(id)]) && e.exit == Code(1)
  {
    net := n => if n == 0 then Lost(true) else Reply(409, false);
    assert PostOf(net, 0) == Posted(2, Some(409), 1);
    assert Turned(apply, s, Message(id), 1) == Turned(apply, apply(s, Message(id)), Message(id), 0);
    assert [Message(id)][1..] == [];
  }

  // ----- the exit code, by statuses

  /** The reply that counts for a record whose first attempt is `k`: the second one if the first is lost. */
  function FinalReply(net: Network, k: nat): Attempt {
    if net(k).Lost? then net(k + 1) else net(k)
  }

  lemma FinalIsPost(net: Network, k: nat)
    ensures FinalReply(net, k).Reply? <==> PostOf(net, k).status.Some?
    ensures FinalReply(net, k).Reply? ==> PostOf(net, k).status == Some(FinalReply(net, k).status)
  {
  }

  lemma FinalReplies(net: Network, rs: seq<Record>)
    ensures var ps := Fates(net, 0, rs);
      forall i: nat :: i < |ps| ==>
        var f := FinalReply(net, AttemptOf(net, 0, rs, i));
        (f.Reply? <==> ps[i].status.Some?) && (f.Reply? ==> ps[i].status == Some(f.status))
  {
    hide Fates, PostOf, FinalReply;
    var ps := Fates(net, 0, rs);
    forall i: nat | i < |ps|
      ensures var f := FinalReply(net, AttemptOf(net, 0, rs, i));
        (f.Reply? <==> ps[i].status.Some?) && (f.Reply? ==> ps[i].status == Some(f.status)) {
      FateAt(net, 0, rs, i);
      FinalIsPost(net, AttemptOf(net, 0, rs, i));
    }
  }

  /** A status that the seeder takes for success: 200, 201 or 204, or 409 for an account. */
  lemma AcceptedIs(r: Record, status: int)
    ensures Accepted(r, status) <==>
      status == 200 || status == 201 || status == 204 || (status == 409 && r.Account?)
  {
  }

  predicate Succeeds(r: Record, f: Attempt) {
    f.Reply? && (f.status == 200 || f.status == 201 || f.status == 204 || (f.status == 409 && r.Account?))
  }

  /**
   The run returns 0 exactly when each record's final reply came with 200, 201 or 204, or with 409
   for an account; a failure is raised exactly when some record's final reply did not come.
   */
  lemma ExitIff<S>(net: Network, apply: (S, Record) -> S, s: S, rs: seq<Record>)
    ensures var exit := Run(net, apply, s, 0, 0, rs).exit;
      && (exit == Code(0) <==>
            forall i: nat :: i < |rs| ==> Succeeds(rs[i], FinalReply(net, AttemptOf(net, 0, rs, i))))
      && (exit == Raised <==> exists i: nat :: i < |rs| && FinalReply(net, AttemptOf(net, 0, rs, i)).Lost?)
      && exit in {Code(0), Code(1), Raised}
  {
    hide Run, Fates, FinalReply, Accepted, StateAt, Requests;
    var ps := Fates(net, 0, rs);
    RunMeans(net, apply, s, 0, 0, rs);
    FatesCover(net, 0, rs);
    ZeroIff(rs, ps);
    FinalReplies(net, rs);
    forall i: nat | i < |ps|
      ensures Succeeds(rs[i], FinalReply(net, AttemptOf(net, 0, rs, i))) <==>
        ps[i].status.Some? && Accepted(rs[i], ps[i].status.value) {
      if ps[i].status.Some? {
        AcceptedIs(rs[i], ps[i].status.value);
      }
    }
    if Ended(ps) {
      var last: nat := |ps| - 1;
      assert FinalReply(net, AttemptOf(net, 0, rs, last)).Lost?;
    }
  }

  /** An account that is there already is no failure; a message that is there already is one. */
  lemma DuplicateExample<S>(apply: (S, Record) -> S, s: S, name: string)
    ensures Run((n: nat) => Reply(409, false), apply, s, 0, 0, [Account(name)]).exit == Code(0)
    ensures Run((n: nat) => Reply(409, false), apply, s, 0, 0, [Message(name)]).exit == Code(1)
  {
    var net: Network := (n: nat) => Reply(409, false);
    ExitIff(net, apply, s, [Account(name)]);
    ExitIff(net, apply, s, [Message(name)]);
    assert !Succeeds([Message(name)][0], FinalReply(net, AttemptOf(net, 0, [Message(name)], 0)));
  }

  // ----- the counts

  /** What is posted and counted of an input is what is of its parts, and of one line what it is. */
  lemma {:induction false} CountsOfParts(a: seq<Record>, b: seq<Record>)
    ensures Posts(a + b) == Posts(a) + Posts(b)
    ensures Accounts(a + b) == Accounts(a) + Accounts(b) && Messages(a + b) == Messages(a) + Messages(b)
  {
    if a == [] {
      assert a + b == b;
    } else {
      assert (a + b)[1..] == a[1..] + b;
      CountsOfParts(a[1..], b);
    }
  }

  lemma CountsOfOne(r: Record)
    ensures Posts([r]) == if r.Other? then [] else [r]
    ensures Accounts([r]) == (if r.Account? then 1 else 0) && Messages([r]) == (if r.Message? then 1 else 0)
    ensures Posts([]) == [] && Accounts([]) == 0 && Messages([]) == 0
  {
    assert [r][1..] == [];
  }
}
