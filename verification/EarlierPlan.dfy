/**
 Reaching back for the mail before what is held: the plan (EarlierPlan.swift), and the pass
 that asks the server and moves the stored mark (`earlier` in MailboxSyncRunner.swift).
 */
module EarlierPlan {
  import opened Basics
  import opened Decimal
  import opened RowCap

  const FIRST_SPAN := 200
  const MAX_SPAN := 5_000
  const THIN := 10
  const PER_ACCOUNT := 5_000

  // ----- the plan

  datatype Ask = Ask(range: Option<string>, span: int)

  function Max(a: int, b: int): int {
    if a >= b then a else b
  }

  function Min(a: int, b: int): int {
    if a <= b then a else b
  }

  predicate AtCeiling(held: nat) {
    held >= PER_ACCOUNT
  }

  /** The lowest uid of the next range. */
  function Bottom(lowest: nat, span: int): (b: nat)
    ensures b >= 1
  {
    Max(1, lowest - 1 - span + 1)
  }

  function Decide(lowest: nat, span: int): Ask {
    if lowest <= 1 then Ask(None, span)
    else Ask(Some(Show(Bottom(lowest, span)) + ":" + Show(lowest - 1)), span)
  }

  function NextSpan(span: int, returned: nat): int {
    if returned >= THIN then span else Min(MAX_SPAN, span * 4)
  }

  predicate Exhausted(ask: Ask) {
    ask.range.Some? && |ask.range.value| >= 2 && ask.range.value[..2] == "1:"
  }

  /** The number before the colon of a range. */
  function ReadBottom(range: string): Option<nat> {
    Read(Split(range, ':')[0])
  }

  lemma {:induction false} ShowIsOne(n: nat)
    ensures Show(n) == "1" <==> n == 1
  {
    ReadShow(n);
    ReadShow(1);
    assert Show(1) == [Digit(1)] == "1";
  }

  /** The text of a range carries both its ends, and begins with `1:` exactly when it reaches uid 1. */
  lemma RangeText(lowest: nat, span: int)
    requires lowest > 1
    ensures var ask := Decide(lowest, span);
      && Split(ask.range.value, ':') == [Show(Bottom(lowest, span)), Show(lowest - 1)]
      && ReadBottom(ask.range.value) == Some(Bottom(lowest, span))
      && (Exhausted(ask) <==> Bottom(lowest, span) == 1)
  {
    var b := Show(Bottom(lowest, span));
    var r := b + ":" + Show(lowest - 1);
    SplitFirst(b, Show(lowest - 1), ':');
    SplitPlain(Show(lowest - 1), ':');
    ReadShow(Bottom(lowest, span));
    ShowIsOne(Bottom(lowest, span));
    if r[..2] == "1:" {
      assert r[0] == '1' && r[1] == ':';
      assert |b| == 1;
      assert b == [r[0]];
    }
    if b == "1" {
      assert r[..2] == "1:";
    }
  }

  lemma AskText(lowest: nat, span: int)
    ensures Decide(lowest, span).range.None? <==> lowest <= 1
    ensures lowest > 1 ==> ReadBottom(Decide(lowest, span).range.value) == Some(Bottom(lowest, span))
  {
    if lowest > 1 {
      RangeText(lowest, span);
    }
  }

  predicate GoodSpan(span: int) {
    1 <= span <= MAX_SPAN
  }

  lemma SpanStaysGood(span: int, returned: nat)
    requires GoodSpan(span)
    ensures GoodSpan(NextSpan(span, returned)) && span <= NextSpan(span, returned)
  {
  }

  // ----- a whole walk

  datatype Range = Range(lo: nat, hi: nat) {
    predicate Has(u: nat) {
      lo <= u <= hi
    }
  }

  /** The ranges asked for, when the passes return this many messages each. */
  function Walk(lowest: nat, span: int, returned: seq<nat>): seq<Range>
    decreases |returned|
  {
    if returned == [] || lowest <= 1 then []
    else [Range(Bottom(lowest, span), lowest - 1)]
         + Walk(Bottom(lowest, span), NextSpan(span, returned[0]), returned[1..])
  }

  /** The lowest uid that the walk has asked about, which the mark then holds. */
  function Reached(lowest: nat, span: int, returned: seq<nat>): nat
    decreases |returned|
  {
    if returned == [] || lowest <= 1 then lowest
    else Reached(Bottom(lowest, span), NextSpan(span, returned[0]), returned[1..])
  }

  function Count(rs: seq<Range>, u: nat): nat {
    if rs == [] then 0 else (if rs[0].Has(u) then 1 else 0) + Count(rs[1..], u)
  }

  /**
   Whatever the answers, every uid from where the walk has got to up to the start is asked
   about exactly once, and no other.
   */
  lemma {:induction false} EachUidOnce(lowest: nat, span: int, returned: seq<nat>, u: nat)
    requires GoodSpan(span)
    ensures Reached(lowest, span, returned) <= lowest
    ensures Count(Walk(lowest, span, returned), u) ==
      if Reached(lowest, span, returned) <= u < lowest then 1 else 0
    decreases |returned|
  {
    if returned != [] && lowest > 1 {
      SpanStaysGood(span, returned[0]);
      EachUidOnce(Bottom(lowest, span), NextSpan(span, returned[0]), returned[1..], u);
      assert Walk(lowest, span, returned)[1..]
          == Walk(Bottom(lowest, span), NextSpan(span, returned[0]), returned[1..]);
    }
  }

  /** Each range begins right below the one before it. */
  lemma {:induction false} RangesAdjoin(lowest: nat, span: int, returned: seq<nat>, i: nat)
    requires GoodSpan(span) && i < |Walk(lowest, span, returned)|
    ensures var rs := Walk(lowest, span, returned);
      1 <= rs[i].lo <= rs[i].hi && rs[i].hi + 1 == if i == 0 then lowest else rs[i - 1].lo
    decreases |returned|
  {
    SpanStaysGood(span, returned[0]);
    if i > 0 {
      RangesAdjoin(Bottom(lowest, span), NextSpan(span, returned[0]), returned[1..], i - 1);
    }
  }

  /** As many passes as spans fit into the folder reach the first uid, whatever gaps the answers have. */
  lemma {:induction false} WalkEnds(lowest: nat, span: int, returned: seq<nat>)
    requires GoodSpan(span) && lowest >= 1 && |returned| * span >= lowest - 1
    ensures Reached(lowest, span, returned) == 1
    decreases |returned|
  {
    if lowest > 1 {
      var n := |returned| - 1;
      assert (n + 1) * span == n * span + span;
      SpanStaysGood(span, returned[0]);
      var next := NextSpan(span, returned[0]);
      assert n * next >= n * span by { MulMonotone(n, span, next); }
      WalkEnds(Bottom(lowest, span), next, returned[1..]);
    }
  }

  lemma MulMonotone(n: nat, a: int, b: int)
    requires a <= b
    ensures n * a <= n * b
  {
  }

  // ----- the pass

  datatype Mark = Mark(uidValidity: nat, highestUid: nat, lowestUid: nat, earlierSpan: int)

  datatype Message = Message(uid: nat, date: Option<int>)

  /** What the server says: nothing, or the validity of the folder and the messages it sends for the range. */
  datatype Answer = Unreachable | Answered(validity: nat, fetched: seq<Message>)

  datatype Failure = NotFetchedYet | DeviceFull | Rebuilt | NoServer

  datatype Outcome = Done(fetched: nat) | Failed(why: Failure)

  /** One account on the device: its marks, its rows, and the ranges that were answered so far. */
  datatype Store = Store(marks: map<string, Mark>, rows: Rows, answered: seq<(string, Range)>)

  function Upserted(rows: Rows, folder: string, fetched: seq<Message>): Rows
    decreases |fetched|
  {
    if fetched == [] then rows
    else Upserted(rows[(folder, fetched[0].uid) := fetched[0].date], folder, fetched[1..])
  }

  function Uids(rows: Rows, folder: string): set<nat> {
    set k | k in rows && k.0 == folder :: k.1
  }

  lemma {:induction false} LeastExists(s: set<nat>, y: nat)
    requires y in s
    ensures exists m :: m in s && forall x :: x in s ==> m <= x
    decreases y
  {
    if x :| x in s && x < y {
      LeastExists(s, x);
    }
  }

  function Least(s: set<nat>): (m: nat)
    requires s != {}
    ensures m in s && forall x :: x in s ==> m <= x
  {
    var y :| y in s;
    LeastExists(s, y);
    var m :| m in s && forall x :: x in s ==> m <= x;
    m
  }

  /** What is decided before the network is asked. */
  datatype Plan = Refuse(out: Outcome) | Reach(anchor: nat, mark: Mark) {
    /** The range to ask for. */
    function Asked(): Range
      requires Reach? && anchor > 1
    {
      Range(Bottom(anchor, mark.earlierSpan), anchor - 1)
    }
  }

  /** A mark without a lowest uid is anchored at the smallest uid held. */
  function PlanFor(s: Store, folder: string): (p: Plan)
    ensures p.Reach? ==> p.anchor > 1 && folder in s.marks && p.mark == s.marks[folder] && |s.rows| < PER_ACCOUNT
  {
    if folder !in s.marks then Refuse(Failed(NotFetchedYet))
    else if AtCeiling(|s.rows|) then Refuse(Failed(DeviceFull))
    else
      var mark := s.marks[folder];
      if mark.lowestUid == 0 && Uids(s.rows, folder) == {} then Refuse(Failed(NotFetchedYet))
      else
        var anchor := if mark.lowestUid == 0 then Least(Uids(s.rows, folder)) else mark.lowestUid;
        if anchor <= 1 then Refuse(Done(0)) else Reach(anchor, mark)
  }

  /** The server answers, and the folder is still the one that the mark is about. */
  predicate Answers(mark: Mark, answer: Answer) {
    answer.Answered? && answer.validity == mark.uidValidity
  }

  /** The mark after a pass from `anchor` that brought `returned` messages. */
  function Moved(mark: Mark, anchor: nat, returned: nat): Mark {
    mark.(lowestUid := Bottom(anchor, mark.earlierSpan), earlierSpan := NextSpan(mark.earlierSpan, returned))
  }

  /** The store after a pass that was answered. */
  function Stored(s: Store, folder: string, p: Plan, fetched: seq<Message>): Store
    requires p.Reach? && p.anchor > 1
  {
    Store(s.marks[folder := Moved(p.mark, p.anchor, |fetched|)],
          Capped(Upserted(s.rows, folder, fetched), PER_ACCOUNT),
          s.answered + [(folder, p.Asked())])
  }

  /** How a pass ends, and what it leaves: only a pass that was answered changes anything. */
  function PassOf(s: Store, folder: string, answer: Answer): (Outcome, Store) {
    var p := PlanFor(s, folder);
    if p.Refuse? then (p.out, s)
    else if answer.Unreachable? then (Failed(NoServer), s)
    else if !Answers(p.mark, answer) then (Failed(Rebuilt), s)
    else (Done(|answer.fetched|), Stored(s, folder, p, answer.fetched))
  }

  // ----- the ordinary pass

  function Highest(from: nat, fetched: seq<Message>): nat
    decreases |fetched|
  {
    if fetched == [] then from
    else Highest(if from >= fetched[0].uid then from else fetched[0].uid, fetched[1..])
  }

  /** The lowest uid after new messages, 0 standing for none. */
  function Lowest(from: nat, fetched: seq<Message>): nat
    decreases |fetched|
  {
    if fetched == [] then from
    else Lowest(if from == 0 || fetched[0].uid <= from then fetched[0].uid else from, fetched[1..])
  }

  /** The mark that an ordinary pass leaves: it starts over in a folder that was renumbered, but for the span. */
  function Refreshed(was: Option<Mark>, validity: nat, fetched: seq<Message>): Mark {
    var same := was.Some? && was.value.uidValidity == validity;
    Mark(validity,
         Highest(if same then was.value.highestUid else 0, fetched),
         Lowest(if same then was.value.lowestUid else 0, fetched),
         if was.Some? then was.value.earlierSpan else FIRST_SPAN)
  }

  function MarkOf(marks: map<string, Mark>, folder: string): Option<Mark> {
    if folder in marks then Some(marks[folder]) else None
  }

  class Device {
    var marks: map<string, Mark>
    var rows: Rows
    ghost var answered: seq<(string, Range)>

    ghost function Contents(): Store
      reads this
    {
      Store(marks, rows, answered)
    }

    constructor (marks: map<string, Mark>, rows: Rows)
      ensures Contents() == Store(marks, rows, [])
    {
      this.marks, this.rows, this.answered := marks, rows, [];
    }

    /** One pass of "load earlier". */
    method Earlier(folder: string, answer: Answer) returns (out: Outcome)
      modifies this
      ensures (out, Contents()) == PassOf(old(Contents()), folder, answer)
    {
      hide Decide, ReadBottom, Capped, Upserted, Bottom, NextSpan, Uids;
      if folder !in marks {
        return Failed(NotFetchedYet);
      }
      var mark := marks[folder];
      if AtCeiling(|rows|) {
        return Failed(DeviceFull);
      }
      var anchor := mark.lowestUid;
      if anchor == 0 {
        var held := Uids(rows, folder);
        if held == {} {
          return Failed(NotFetchedYet);
        }
        anchor := Least(held);
      }
      var ask := Decide(anchor, mark.earlierSpan);
      AskText(anchor, mark.earlierSpan);
      if ask.range.None? {
        return Done(0);
      }
      match answer
      case Unreachable =>
        return Failed(NoServer);
      case Answered(validity, fetched) =>
        if validity != mark.uidValidity {
          return Failed(Rebuilt);
        }
        rows := Capped(Upserted(rows, folder, fetched), PER_ACCOUNT);
        var bottom := ReadBottom(ask.range.value);
        var reached := if bottom.Some? then bottom.value else anchor;
        marks := marks[folder := Mark(mark.uidValidity, mark.highestUid, reached,
                                      NextSpan(mark.earlierSpan, |fetched|))];
        answered := answered + [(folder, Range(Bottom(anchor, mark.earlierSpan), anchor - 1))];
        return Done(|fetched|);
    }

    /** What an ordinary pass makes of one folder; `kept` are the rows the store has afterwards. */
    method Refresh(folder: string, validity: nat, fetched: seq<Message>, kept: Rows)
      modifies this
      ensures Contents() == Store(old(marks)[folder := Refreshed(MarkOf(old(marks), folder), validity, fetched)],
                                  kept, old(answered))
    {
      var mark := MarkOf(marks, folder);
      var highest: nat := if mark.Some? then mark.value.highestUid else 0;
      var lowest: nat := if mark.Some? then mark.value.lowestUid else 0;
      if mark.Some? && mark.value.uidValidity != validity {
        highest, lowest := 0, 0;
      }
      ghost var (high, low) := (highest, lowest);
      assert fetched[0..] == fetched;
      for i := 0 to |fetched|
        invariant Highest(highest, fetched[i..]) == Highest(high, fetched)
        invariant Lowest(lowest, fetched[i..]) == Lowest(low, fetched)
      {
        assert fetched[i..][1..] == fetched[i + 1..];
        var uid := fetched[i].uid;
        highest := if highest >= uid then highest else uid;
        lowest := if lowest == 0 || uid <= lowest then uid else lowest;
      }
      var span := if mark.Some? then mark.value.earlierSpan else FIRST_SPAN;
      marks := marks[folder := Mark(validity, highest, lowest, span)];
      rows := kept;
    }
  }

  // ----- what a pass does, in numbers

  /** The smallest uid held of the folder. */
  predicate IsLeastHeld(rows: Rows, folder: string, u: nat) {
    (folder, u) in rows && forall k :: k in rows && k.0 == folder ==> u <= k.1
  }

  lemma UidsAre(rows: Rows, folder: string)
    ensures Uids(rows, folder) == {} <==> forall k :: k in rows ==> k.0 != folder
    ensures Uids(rows, folder) != {} ==> IsLeastHeld(rows, folder, Least(Uids(rows, folder)))
  {
    assert forall k :: k in rows && k.0 == folder ==> k.1 in Uids(rows, folder);
    if Uids(rows, folder) != {} {
      var u := Least(Uids(rows, folder));
      var k :| k in rows && k.0 == folder && k.1 == u;
      assert k == (folder, u);
    }
  }

  /** Where a pass starts from: the mark, or the smallest uid held when the mark has none. */
  ghost predicate StartsFrom(s: Store, folder: string, anchor: nat)
    requires folder in s.marks
  {
    if s.marks[folder].lowestUid != 0 then anchor == s.marks[folder].lowestUid
    else IsLeastHeld(s.rows, folder, anchor)
  }

  /** Which passes ask the server, and how each other one is refused. */
  lemma PlanIff(s: Store, folder: string)
    ensures var p := PlanFor(s, folder);
      && (p.Reach? <==> folder in s.marks && |s.rows| < 5_000 && exists a: nat :: StartsFrom(s, folder, a) && a > 1)
      && (p.Reach? ==> StartsFrom(s, folder, p.anchor))
      && (p == Refuse(Failed(DeviceFull)) <==> folder in s.marks && |s.rows| >= 5_000)
      && (p == Refuse(Failed(NotFetchedYet)) <==>
            folder !in s.marks ||
            (|s.rows| < 5_000 && s.marks[folder].lowestUid == 0 && forall k :: k in s.rows ==> k.0 != folder))
      && (p == Refuse(Done(0)) <==> folder in s.marks && |s.rows| < 5_000
                                    && exists a: nat :: StartsFrom(s, folder, a) && a <= 1)
  {
    UidsAre(s.rows, folder);
    hide Uids;
    if folder in s.marks {
      var mark := s.marks[folder];
      if mark.lowestUid != 0 {
        assert StartsFrom(s, folder, mark.lowestUid);
      } else if Uids(s.rows, folder) != {} {
        assert StartsFrom(s, folder, Least(Uids(s.rows, folder)));
      }
    }
  }

  /** How a pass that asks ends. */
  lemma OutcomeIff(s: Store, folder: string, answer: Answer)
    requires PlanFor(s, folder).Reach?
    ensures var out := PassOf(s, folder, answer).0;
      && (out == Failed(NoServer) <==> answer.Unreachable?)
      && (out == Failed(Rebuilt) <==> answer.Answered? && answer.validity != s.marks[folder].uidValidity)
      && (out.Done? <==> answer.Answered? && answer.validity == s.marks[folder].uidValidity)
      && (out.Done? ==> out.fetched == |answer.fetched|)
      && (out.Failed? ==> out.why == NoServer || out.why == Rebuilt)
  {
    hide PlanFor;
  }

  /**
   What an answered pass leaves of the mark: the range asked goes down by the span, and the
   span is four times what it was, up to 5,000, when fewer than ten messages came.
   */
  lemma AnsweredPass(s: Store, folder: string, answer: Answer)
    requires Moves(s, Tap(folder, answer), folder)
    ensures var (v, was, anchor) := (PassOf(s, folder, answer).1, s.marks[folder], PlanFor(s, folder).anchor);
      && v.marks.Keys == s.marks.Keys
      && (forall f :: f in s.marks && f != folder ==> v.marks[f] == s.marks[f])
      && v.marks[folder].uidValidity == was.uidValidity && v.marks[folder].highestUid == was.highestUid
      && v.marks[folder].lowestUid == (if anchor - was.earlierSpan >= 1 then anchor - was.earlierSpan else 1)
      && v.marks[folder].earlierSpan ==
           (if |answer.fetched| >= 10 then was.earlierSpan
            else if 4 * was.earlierSpan <= 5_000 then 4 * was.earlierSpan else 5_000)
      && v.answered == s.answered + [(folder, Range(v.marks[folder].lowestUid, anchor - 1))]
  {
    hide PlanFor, Capped, Upserted;
  }

  /** Every other pass leaves everything as it was. */
  lemma OtherPass(s: Store, folder: string, answer: Answer)
    requires !Moves(s, Tap(folder, answer), folder)
    ensures PassOf(s, folder, answer).1 == s
  {
    hide PlanFor;
  }

  /** The date of a row after a pass is that of the last message fetched for it, or what it was. */
  lemma {:induction false} UpsertedValue(rows: Rows, folder: string, fetched: seq<Message>, k: Key)
    requires k in Upserted(rows, folder, fetched)
    ensures (forall i :: 0 <= i < |fetched| ==> (folder, fetched[i].uid) != k) ==>
      k in rows && Upserted(rows, folder, fetched)[k] == rows[k]
    ensures forall i :: 0 <= i < |fetched| && (folder, fetched[i].uid) == k
                        && (forall j :: i < j < |fetched| ==> (folder, fetched[j].uid) != k) ==>
      Upserted(rows, folder, fetched)[k] == fetched[i].date
    decreases |fetched|
  {
    if fetched != [] {
      var (m, more) := (fetched[0], fetched[1..]);
      UpsertedValue(rows[(folder, m.uid) := m.date], folder, more, k);
      assert forall i :: 0 < i < |fetched| ==> fetched[i] == more[i - 1];
      forall i | 0 <= i < |fetched| && (folder, fetched[i].uid) == k
                 && (forall j :: i < j < |fetched| ==> (folder, fetched[j].uid) != k)
        ensures Upserted(rows, folder, fetched)[k] == fetched[i].date {
        if i > 0 {
          assert more[i - 1] == fetched[i];
        }
        forall j | i - 1 < j < |more| && 0 <= j ensures (folder, more[j].uid) != k {
          assert more[j] == fetched[j + 1];
        }
      }
    }
  }

  // ----- what an ordinary pass does, in numbers

  predicate IsUid(fetched: seq<Message>, u: nat) {
    exists i :: 0 <= i < |fetched| && fetched[i].uid == u
  }

  lemma {:induction false} HighestIs(from: nat, fetched: seq<Message>)
    ensures var h := Highest(from, fetched);
      h >= from && (forall i :: 0 <= i < |fetched| ==> fetched[i].uid <= h) && (h == from || IsUid(fetched, h))
    decreases |fetched|
  {
    if fetched != [] {
      var next := if from >= fetched[0].uid then from else fetched[0].uid;
      HighestIs(next, fetched[1..]);
      UidFirst(fetched, Highest(from, fetched));
      assert forall i :: 0 < i < |fetched| ==> fetched[i] == fetched[1..][i - 1];
    }
  }

  lemma UidFirst(fetched: seq<Message>, u: nat)
    requires fetched != []
    ensures IsUid(fetched, u) <==> fetched[0].uid == u || IsUid(fetched[1..], u)
  {
    if IsUid(fetched[1..], u) {
      var i :| 0 <= i < |fetched[1..]| && fetched[1..][i].uid == u;
      assert fetched[i + 1].uid == u;
    }
    if IsUid(fetched, u) && fetched[0].uid != u {
      var i :| 0 <= i < |fetched| && fetched[i].uid == u;
      assert fetched[1..][i - 1].uid == u;
    }
  }

  /** The lowest of the uids and of `from`, unless that is 0 for none. */
  lemma {:induction false} LowestIs(from: nat, fetched: seq<Message>)
    requires forall i :: 0 <= i < |fetched| ==> fetched[i].uid >= 1
    ensures var l := Lowest(from, fetched);
      && (from != 0 ==> 1 <= l <= from)
      && (fetched != [] ==> l >= 1) && (forall i :: 0 <= i < |fetched| ==> l <= fetched[i].uid)
      && (l == from || IsUid(fetched, l))
    decreases |fetched|
  {
    if fetched != [] {
      var next := if from == 0 || fetched[0].uid <= from then fetched[0].uid else from;
      LowestIs(next, fetched[1..]);
      UidFirst(fetched, Lowest(from, fetched));
      assert forall i :: 0 < i < |fetched| ==> fetched[i] == fetched[1..][i - 1];
    }
  }

  /**
   The mark after an ordinary pass holds the highest and the lowest uid of what it knew and what
   came; what it knew counts only if the folder still has its numbers, but for the span.
   */
  lemma RefreshedIs(was: Option<Mark>, validity: nat, fetched: seq<Message>)
    requires forall i :: 0 <= i < |fetched| ==> fetched[i].uid >= 1
    ensures var m := Refreshed(was, validity, fetched);
      var same := was.Some? && was.value.uidValidity == validity;
      var high, low := if same then was.value.highestUid else 0, if same then was.value.lowestUid else 0;
      && m.uidValidity == validity
      && m.earlierSpan == (if was.Some? then was.value.earlierSpan else 200)
      && m.highestUid >= high && (m.highestUid == high || IsUid(fetched, m.highestUid))
      && (m.lowestUid == low || IsUid(fetched, m.lowestUid)) && (low != 0 ==> 1 <= m.lowestUid <= low)
      && (fetched != [] ==> m.lowestUid >= 1)
      && forall i :: 0 <= i < |fetched| ==> m.lowestUid <= fetched[i].uid <= m.highestUid
  {
    hide Highest, Lowest, IsUid;
    var same := was.Some? && was.value.uidValidity == validity;
    var high, low := if same then was.value.highestUid else 0, if same then was.value.lowestUid else 0;
    HighestIs(high, fetched);
    LowestIs(low, fetched);
    var m := Refreshed(was, validity, fetched);
    assert m.highestUid == Highest(high, fetched) && m.lowestUid == Lowest(low, fetched);
  }

  // ----- runs of the device

  /** What happens to an account: a pass that reaches back, an ordinary pass over a folder, or its rows change. */
  datatype Happening =
    | Tap(folder: string, answer: Answer)
    | Ordinary(folder: string, validity: nat, fetched: seq<Message>, rows: Rows)
    | Changed(rows: Rows)

  function Happen(s: Store, h: Happening): Store {
    match h
    case Tap(folder, answer) => PassOf(s, folder, answer).1
    case Ordinary(folder, validity, fetched, rows) =>
      s.(marks := s.marks[folder := Refreshed(MarkOf(s.marks, folder), validity, fetched)], rows := rows)
    case Changed(rows) => s.(rows := rows)
  }

  function Run(s: Store, hs: seq<Happening>): Store
    decreases |hs|
  {
    if hs == [] then s else Run(Happen(s, hs[0]), hs[1..])
  }

  /** The pass gets an answer and moves the mark of the folder. */
  predicate Moves(s: Store, h: Happening, folder: string) {
    h.Tap? && h.folder == folder && PlanFor(s, folder).Reach? && Answers(PlanFor(s, folder).mark, h.answer)
  }

  /** How many messages each answered pass over the folder brought. */
  function Brought(s: Store, hs: seq<Happening>, folder: string): seq<nat>
    decreases |hs|
  {
    if hs == [] then []
    else (if Moves(s, hs[0], folder) then [|hs[0].answer.fetched|] else [])
         + Brought(Happen(s, hs[0]), hs[1..], folder)
  }

  /** The ranges answered for one folder. */
  function Of(answered: seq<(string, Range)>, folder: string): seq<Range> {
    if answered == [] then []
    else (if answered[0].0 == folder then [answered[0].1] else []) + Of(answered[1..], folder)
  }

  lemma OfStep(answered: seq<(string, Range)>, folder: string)
    ensures Of([], folder) == []
    ensures answered != [] ==>
      Of(answered, folder) == (if answered[0].0 == folder then [answered[0].1] else []) + Of(answered[1..], folder)
  {
  }

  lemma {:induction false} OfSnoc(answered: seq<(string, Range)>, a: (string, Range), folder: string)
    ensures Of(answered + [a], folder) == Of(answered, folder) + if a.0 == folder then [a.1] else []
  {
    hide Of;
    OfStep([], folder);
    if answered == [] {
      OfStep([a], folder);
      assert [] + [a] == [a] && [a][1..] == [];
    } else {
      OfStep(answered, folder);
      OfStep(answered + [a], folder);
      assert (answered + [a])[1..] == answered[1..] + [a];
      OfSnoc(answered[1..], a, folder);
    }
  }

  /** An ordinary pass over the folder finds it as it was numbered, with uids that are not 0. */
  predicate SameNumbers(s: Store, h: Happening, folder: string)
    requires folder in s.marks
  {
    h.Ordinary? && h.folder == folder ==>
      h.validity == s.marks[folder].uidValidity && forall i :: 0 <= i < |h.fetched| ==> h.fetched[i].uid >= 1
  }

  lemma {:induction false} LowestFalls(from: nat, fetched: seq<Message>)
    requires from >= 1 && forall i :: 0 <= i < |fetched| ==> fetched[i].uid >= 1
    ensures 1 <= Lowest(from, fetched) <= from
    decreases |fetched|
  {
    if fetched != [] {
      LowestFalls(if fetched[0].uid <= from then fetched[0].uid else from, fetched[1..]);
    }
  }

  /** What one happening does to the mark of a folder, and to the ranges answered for it. */
  lemma HappenStep(s: Store, h: Happening, folder: string)
    requires folder in s.marks && s.marks[folder].lowestUid >= 1 && SameNumbers(s, h, folder)
    ensures var v, mark, p := Happen(s, h), s.marks[folder], PlanFor(s, folder);
      && folder in v.marks
      && v.marks[folder].uidValidity == mark.uidValidity
      && 1 <= v.marks[folder].lowestUid
      && Of(v.answered, folder) == Of(s.answered, folder) + (if Moves(s, h, folder) then [p.Asked()] else [])
      && (if Moves(s, h, folder)
          then v.marks[folder] == Moved(mark, p.anchor, |h.answer.fetched|)
               && p.anchor == mark.lowestUid && p.mark == mark
          else v.marks[folder].lowestUid <= mark.lowestUid && v.marks[folder].earlierSpan == mark.earlierSpan)
  {
    hide Of, Capped, Upserted, Uids, Bottom, NextSpan, Lowest, Highest;
    assert Of(s.answered, folder) + [] == Of(s.answered, folder);
    if h.Tap? && Moves(s, h, h.folder) {
      OfSnoc(s.answered, (h.folder, PlanFor(s, h.folder).Asked()), folder);
    }
    if h.Ordinary? && h.folder == folder {
      LowestFalls(s.marks[folder].lowestUid, h.fetched);
    }
  }

  /** The folder is not renumbered during the run. */
  predicate StaysNumbered(s: Store, hs: seq<Happening>, folder: string)
    decreases |hs|
  {
    hs == [] || (folder in s.marks && SameNumbers(s, hs[0], folder) && StaysNumbered(Happen(s, hs[0]), hs[1..], folder))
  }

  /** No ordinary pass of the run brings a message from below the mark. */
  predicate OnlyNewer(s: Store, hs: seq<Happening>, folder: string)
    decreases |hs|
  {
    hs == [] ||
    (folder in s.marks && folder in Happen(s, hs[0]).marks
     && (!hs[0].Tap? ==> Happen(s, hs[0]).marks[folder].lowestUid == s.marks[folder].lowestUid)
     && OnlyNewer(Happen(s, hs[0]), hs[1..], folder))
  }

  /**
   Whatever passes succeed, fail or are refused, and however the rows change between them:
   the ranges answered for a folder are those of the walk, and its mark is where the walk is,
   as long as ordinary passes bring newer mail only.
   */
  lemma {:induction false} RunWalks(s: Store, hs: seq<Happening>, folder: string)
    requires folder in s.marks && s.marks[folder].lowestUid >= 1
    requires StaysNumbered(s, hs, folder) && OnlyNewer(s, hs, folder)
    ensures var m, v, brought := s.marks[folder], Run(s, hs), Brought(s, hs, folder);
      && folder in v.marks
      && v.marks[folder].lowestUid == Reached(m.lowestUid, m.earlierSpan, brought)
      && Of(v.answered, folder) == Of(s.answered, folder) + Walk(m.lowestUid, m.earlierSpan, brought)
    decreases |hs|
  {
    hide Of, Happen, SameNumbers, PlanFor;
    if hs != [] {
      var m, v, h := s.marks[folder], Happen(s, hs[0]), hs[0];
      HappenStep(s, h, folder);
      RunWalks(v, hs[1..], folder);
      var later := Brought(v, hs[1..], folder);
      if Moves(s, h, folder) {
        assert ([|h.answer.fetched|] + later)[1..] == later;
      } else {
        if h.Tap? { TapStays(s, h, folder); }
        assert [] + later == later;
      }
    }
  }

  /** A pass that is not answered leaves the mark of the folder alone. */
  lemma TapStays(s: Store, h: Happening, folder: string)
    requires h.Tap? && folder in s.marks && !Moves(s, h, folder)
    ensures folder in Happen(s, h).marks && Happen(s, h).marks[folder] == s.marks[folder]
  {
    hide PlanFor, Capped, Upserted;
  }

  /** An ordinary pass of the run lowered the mark past `u`. */
  predicate SteppedOver(s: Store, hs: seq<Happening>, folder: string, u: nat)
    decreases |hs|
  {
    hs != [] &&
    ((folder in s.marks && folder in Happen(s, hs[0]).marks && !hs[0].Tap?
      && Happen(s, hs[0]).marks[folder].lowestUid <= u < s.marks[folder].lowestUid)
     || SteppedOver(Happen(s, hs[0]), hs[1..], folder, u))
  }

  lemma {:induction false} CountAppend(a: seq<Range>, b: seq<Range>, u: nat)
    ensures Count(a + b, u) == Count(a, u) + Count(b, u)
  {
    if a == [] {
      assert a + b == b;
    } else {
      assert (a + b)[1..] == a[1..] + b;
      CountAppend(a[1..], b, u);
    }
  }

  /**
   Over any run every uid that the mark passes is in one more answered range, unless an
   ordinary pass stepped over it, and no other uid is in one.
   */
  lemma {:induction false} PassedUidsOnce(s: Store, hs: seq<Happening>, folder: string, u: nat)
    requires folder in s.marks && s.marks[folder].lowestUid >= 1 && GoodSpan(s.marks[folder].earlierSpan)
    requires StaysNumbered(s, hs, folder)
    ensures var v := Run(s, hs);
      && folder in v.marks && v.marks[folder].lowestUid <= s.marks[folder].lowestUid
      && (SteppedOver(s, hs, folder, u) ==> v.marks[folder].lowestUid <= u < s.marks[folder].lowestUid)
      && Count(Of(v.answered, folder), u) == Count(Of(s.answered, folder), u)
         + (if v.marks[folder].lowestUid <= u < s.marks[folder].lowestUid && !SteppedOver(s, hs, folder, u)
            then 1 else 0)
    decreases |hs|
  {
    hide Of, Happen, SameNumbers, PlanFor, Count;
    if hs != [] {
      var m, v, h := s.marks[folder], Happen(s, hs[0]), hs[0];
      HappenStep(s, h, folder);
      if Moves(s, h, folder) {
        SpanStaysGood(m.earlierSpan, |h.answer.fetched|);
        CountAppend(Of(s.answered, folder), [PlanFor(s, folder).Asked()], u);
        CountOne(PlanFor(s, folder).Asked(), u);
      } else {
        assert Of(s.answered, folder) + [] == Of(s.answered, folder);
        if h.Tap? { TapStays(s, h, folder); }
      }
      PassedUidsOnce(v, hs[1..], folder, u);
    }
  }

  lemma CountOne(r: Range, u: nat)
    ensures Count([r], u) == if r.Has(u) then 1 else 0
  {
    assert [r][1..] == [];
  }

  /** A run with enough answered passes reaches uid 1, however many others fail in between. */
  lemma RunEnds(s: Store, hs: seq<Happening>, folder: string)
    requires folder in s.marks && s.marks[folder].lowestUid >= 1 && GoodSpan(s.marks[folder].earlierSpan)
    requires StaysNumbered(s, hs, folder) && OnlyNewer(s, hs, folder)
    requires |Brought(s, hs, folder)| * s.marks[folder].earlierSpan >= s.marks[folder].lowestUid - 1
    ensures folder in Run(s, hs).marks && Run(s, hs).marks[folder].lowestUid == 1
  {
    RunWalks(s, hs, folder);
    WalkEnds(s.marks[folder].lowestUid, s.marks[folder].earlierSpan, Brought(s, hs, folder));
  }

  // ----- what the cap does to the walk

  predicate Within(fetched: seq<Message>, r: Range) {
    forall i :: 0 <= i < |fetched| ==> r.Has(fetched[i].uid)
  }

  /** Every row held and every message fetched is there after the pass. */
  predicate KeepsAll(s: Store, folder: string, answer: Answer)
    requires answer.Answered?
  {
    PassOf(s, folder, answer).1.rows == Upserted(s.rows, folder, answer.fetched)
  }

  /** The uids of the range that the device does not hold. */
  function Missing(rows: Rows, folder: string, r: Range): set<nat> {
    set u: nat | r.lo <= u <= r.hi && (folder, u) !in rows
  }

  function Keyed(folder: string, us: set<nat>): set<Key> {
    set u | u in us :: (folder, u)
  }

  lemma {:induction false} KeyedSize(folder: string, us: set<nat>)
    ensures |Keyed(folder, us)| == |us|
  {
    if us != {} {
      var u :| u in us;
      KeyedSize(folder, us - {u});
      assert Keyed(folder, us) == Keyed(folder, us - {u}) + {(folder, u)};
    }
  }

  lemma {:induction false} UpsertedKeys(rows: Rows, folder: string, fetched: seq<Message>)
    ensures Upserted(rows, folder, fetched).Keys == rows.Keys + set m | m in fetched :: (folder, m.uid)
    decreases |fetched|
  {
    if fetched != [] {
      var m := fetched[0];
      UpsertedKeys(rows[(folder, m.uid) := m.date], folder, fetched[1..]);
      assert fetched == [m] + fetched[1..];
    }
  }

  /** An answer that brings every message the range can hold. */
  function Everything(r: Range): (ms: seq<Message>)
    requires r.lo <= r.hi
    ensures Within(ms, r) && forall u: nat :: r.Has(u) ==> Message(u, None) in ms
  {
    var ms := seq(r.hi + 1 - r.lo, i requires 0 <= i < r.hi + 1 - r.lo => Message(r.lo + i, None));
    assert forall u: nat :: r.Has(u) ==> ms[u - r.lo] == Message(u, None);
    ms
  }

  lemma UpsertedWithin(rows: Rows, folder: string, fetched: seq<Message>, r: Range)
    requires Within(fetched, r)
    ensures Upserted(rows, folder, fetched).Keys <= rows.Keys + Keyed(folder, Missing(rows, folder, r))
  {
    hide Upserted;
    UpsertedKeys(rows, folder, fetched);
  }

  lemma UpsertedAll(rows: Rows, folder: string, fetched: seq<Message>, r: Range)
    requires forall u: nat :: r.Has(u) ==> Message(u, None) in fetched
    ensures rows.Keys + Keyed(folder, Missing(rows, folder, r)) <= Upserted(rows, folder, fetched).Keys
  {
    hide Upserted;
    UpsertedKeys(rows, folder, fetched);
    forall u | u in Missing(rows, folder, r) ensures (folder, u) in Upserted(rows, folder, fetched).Keys {
      assert (folder, Message(u, None).uid) in Upserted(rows, folder, fetched).Keys;
    }
  }

  lemma UpsertedSize(rows: Rows, folder: string, fetched: seq<Message>, r: Range)
    requires Within(fetched, r)
    ensures |Upserted(rows, folder, fetched)| <= |rows| + |Missing(rows, folder, r)|
    ensures (forall u: nat :: r.Has(u) ==> Message(u, None) in fetched) ==>
      |Upserted(rows, folder, fetched)| == |rows| + |Missing(rows, folder, r)|
  {
    var missing := Keyed(folder, Missing(rows, folder, r));
    var all := Upserted(rows, folder, fetched).Keys;
    assert rows.Keys !! missing;
    KeyedSize(folder, Missing(rows, folder, r));
    hide Upserted, Missing, Keyed, Within;
    assert |rows.Keys + missing| == |rows.Keys| + |missing|;
    UpsertedWithin(rows, folder, fetched, r);
    SubsetSize(all, rows.Keys + missing);
    if forall u: nat :: r.Has(u) ==> Message(u, None) in fetched {
      UpsertedAll(rows, folder, fetched, r);
      SubsetSize(rows.Keys + missing, all);
    }
  }

  /**
   Before the pass it can be told whether it may lose mail: no answer within the range loses a
   row, held or fetched, exactly when the rows held and the uids of the range not held are
   together within the limit.
   */
  lemma NothingLostIff(s: Store, folder: string)
    requires PlanFor(s, folder).Reach?
    ensures var p := PlanFor(s, folder);
      (forall answer :: Answers(p.mark, answer) && Within(answer.fetched, p.Asked()) ==> KeepsAll(s, folder, answer))
      <==> |s.rows| + |Missing(s.rows, folder, p.Asked())| <= PER_ACCOUNT
  {
    var p := PlanFor(s, folder);
    var r := p.Asked();
    assert r.lo > r.hi ==> Missing(s.rows, folder, r) == {};
    hide Upserted, Capped, Missing, PlanFor;
    forall answer | Answers(p.mark, answer) && Within(answer.fetched, r)
      ensures KeepsAll(s, folder, answer) <==> |Upserted(s.rows, folder, answer.fetched)| <= PER_ACCOUNT
      ensures |Upserted(s.rows, folder, answer.fetched)| <= |s.rows| + |Missing(s.rows, folder, r)| {
      NothingDroppedIff(Upserted(s.rows, folder, answer.fetched), PER_ACCOUNT);
      UpsertedSize(s.rows, folder, answer.fetched, r);
    }
    if |s.rows| + |Missing(s.rows, folder, r)| > PER_ACCOUNT && r.lo <= r.hi {
      var answer := Answered(p.mark.uidValidity, Everything(r));
      assert Answers(p.mark, answer) && Within(answer.fetched, r);
      UpsertedSize(s.rows, folder, answer.fetched, r);
    }
  }

  /**
   A uid in an answered range is in no later one while the folder keeps its numbers, whatever
   passes and changes follow and whether or not the cap left its row.
   */
  lemma NeverAskedAgain(s: Store, folder: string, answer: Answer, u: nat, hs: seq<Happening>)
    requires Moves(s, Tap(folder, answer), folder) && GoodSpan(s.marks[folder].earlierSpan)
    requires PlanFor(s, folder).Asked().Has(u)
    requires StaysNumbered(PassOf(s, folder, answer).1, hs, folder)
    ensures var v := PassOf(s, folder, answer).1;
      Count(Of(Run(v, hs).answered, folder), u) == Count(Of(v.answered, folder), u)
  {
    hide PlanFor, Bottom, Capped, Upserted, StaysNumbered;
    var v := PassOf(s, folder, answer).1;
    SpanStaysGood(s.marks[folder].earlierSpan, |answer.fetched|);
    PassedUidsOnce(v, hs, folder, u);
  }

  /** `n` rows of the inbox, dated as they are numbered, from 1001 on. */
  function Held(n: nat): (rows: Rows)
    ensures |rows| == n
    ensures forall k :: k in rows ==> k.0 == "INBOX" && 1001 <= k.1 <= 1000 + n && rows[k] == Some(k.1)
  {
    if n == 0 then map[] else Held(n - 1)[("INBOX", 1000 + n) := Some(1000 + n)]
  }

  /** The store of the next lemma after its pass. */
  lemma OldestIsDropped()
    ensures var all := Held(4999)[("INBOX", 900) := Some(900)][("INBOX", 901) := Some(901)];
      ("INBOX", 900) !in Capped(all, PER_ACCOUNT)
  {
    hide Held;
    var all := Held(4999)[("INBOX", 900) := Some(900)][("INBOX", 901) := Some(901)];
    hide Capped;
    LastIsDropped(all, PER_ACCOUNT, ("INBOX", 900));
  }

  /**
   With 4999 rows held two older messages arrive: the older one is dropped in the same pass,
   and until the folder is renumbered no pass asks for it.
   */
  lemma LostForGood() returns (s: Store, answer: Answer)
    ensures |s.rows| == 4999 && Moves(s, Tap("INBOX", answer), "INBOX")
    ensures PlanFor(s, "INBOX").Asked() == Range(801, 1000)
    ensures Within(answer.fetched, PlanFor(s, "INBOX").Asked()) && Message(900, Some(900)) in answer.fetched
    ensures var v := PassOf(s, "INBOX", answer).1;
      && ("INBOX", 900) !in v.rows
      && forall hs :: StaysNumbered(v, hs, "INBOX") ==> Count(Of(Run(v, hs).answered, "INBOX"), 900) == 1
  {
    hide Held, Run, StaysNumbered;
    var fetched := [Message(900, Some(900)), Message(901, Some(901))];
    s := Store(map["INBOX" := Mark(42, 5999, 1001, FIRST_SPAN)], Held(4999), []);
    answer := Answered(42, fetched);
    assert fetched[1..][1..] == [];
    assert Upserted(s.rows, "INBOX", fetched) == s.rows[("INBOX", 900) := Some(900)][("INBOX", 901) := Some(901)];
    assert PlanFor(s, "INBOX").Asked() == Range(801, 1000);
    var v := PassOf(s, "INBOX", answer).1;
    assert Of(v.answered, "INBOX") == [Range(801, 1000)];
    assert Count([Range(801, 1000)], 900) == 1;
    hide PlanFor, Of, Count, Capped, Upserted, Bottom;
    OldestIsDropped();
    forall hs | StaysNumbered(v, hs, "INBOX") ensures Count(Of(Run(v, hs).answered, "INBOX"), 900) == 1 {
      NeverAskedAgain(s, "INBOX", answer, 900, hs);
    }
  }
}
