/**
 Uids as the sequence-set of an IMAP command (section 9 of RFC 3501): UidRanges.swift
 collapses them to runs and splits the runs over commands that are not too long.
 */
module UidRanges {
  import opened Basics
  import opened Decimal

  const MAX_CHARS := 900

  type Uid = u: nat | u < 0x1_0000_0000

  // ----- sorting

  predicate Ascending(s: seq<Uid>) {
    forall i, j :: 0 <= i < j < |s| ==> s[i] < s[j]
  }

  function Inserted(u: Uid, s: seq<Uid>): seq<Uid> {
    if s == [] || u < s[0] then [u] + s
    else if u == s[0] then s
    else [s[0]] + Inserted(u, s[1..])
  }

  /** `Array(Set(uids)).sorted()`. */
  function Sorted(uids: seq<Uid>): seq<Uid> {
    if uids == [] then [] else Inserted(uids[0], Sorted(uids[1..]))
  }

  lemma {:induction false} InsertedKeeps(u: Uid, s: seq<Uid>)
    requires Ascending(s)
    ensures Ascending(Inserted(u, s))
    ensures forall x :: x in Inserted(u, s) <==> x == u || x in s
  {
    if s != [] && u > s[0] {
      InsertedKeeps(u, s[1..]);
      assert s == [s[0]] + s[1..];
      var r := Inserted(u, s[1..]);
      forall i, j | 0 <= i < j < |r| + 1 ensures ([s[0]] + r)[i] < ([s[0]] + r)[j] {
        assert r[j - 1] in r;
      }
    }
  }

  lemma {:induction false} SortedIsSet(uids: seq<Uid>)
    ensures Ascending(Sorted(uids))
    ensures forall x :: x in Sorted(uids) <==> x in uids
  {
    if uids != [] {
      SortedIsSet(uids[1..]);
      InsertedKeeps(uids[0], Sorted(uids[1..]));
    }
  }

  // ----- runs

  datatype Run = Run(lo: nat, hi: nat) {
    predicate Has(u: nat) {
      lo <= u <= hi
    }

    function Text(): (t: string)
      ensures t != ""
    {
      if lo == hi then Show(lo) else Show(lo) + ":" + Show(hi)
    }
  }

  /** The runs of `start..previous` followed by `rest`. */
  function RunsFrom(start: nat, previous: nat, rest: seq<Uid>): (rs: seq<Run>)
    ensures rs != []
    decreases |rest|
  {
    if rest == [] then [Run(start, previous)]
    else if rest[0] == previous + 1 then RunsFrom(start, rest[0], rest[1..])
    else [Run(start, previous)] + RunsFrom(rest[0], rest[0], rest[1..])
  }

  function Runs(uids: seq<Uid>): seq<Run> {
    var s := Sorted(uids);
    if s == [] then [] else RunsFrom(s[0], s[0], s[1..])
  }

  function Texts(rs: seq<Run>): (ts: seq<string>)
    ensures |ts| == |rs| && forall i :: 0 <= i < |rs| ==> ts[i] == rs[i].Text()
  {
    seq(|rs|, i requires 0 <= i < |rs| => rs[i].Text())
  }

  /** One more uid either extends the run that is open or closes it. */
  lemma RunsFromStep(done: seq<Run>, start: nat, previous: nat, rest: seq<Uid>)
    requires rest != []
    ensures done + RunsFrom(start, previous, rest) ==
      if rest[0] == previous + 1 then done + RunsFrom(start, rest[0], rest[1..])
      else (done + [Run(start, previous)]) + RunsFrom(rest[0], rest[0], rest[1..])
  {
    if rest[0] != previous + 1 {
      var more := RunsFrom(rest[0], rest[0], rest[1..]);
      assert done + ([Run(start, previous)] + more) == (done + [Run(start, previous)]) + more;
    }
  }

  lemma RunsFromLast(start: nat, previous: nat)
    ensures RunsFrom(start, previous, []) == [Run(start, previous)]
  {
  }

  lemma TextsSnoc(rs: seq<Run>, start: nat, previous: nat)
    ensures Texts(rs + [Run(start, previous)]) ==
      Texts(rs) + [if start == previous then Show(start) else Show(start) + ":" + Show(previous)]
  {
    var r := Run(start, previous);
    assert r.Text() == if start == previous then Show(start) else Show(start) + ":" + Show(previous);
    hide Run.Text, Show;
  }

  lemma LargerFollows(s: seq<Uid>, i: nat)
    requires Ascending(s) && 0 < i < |s|
    ensures s[i - 1] < s[i]
  {
  }

  method Collapse(uids: seq<Uid>) returns (text: string)
    ensures text == Join(Texts(Runs(uids)), ",")
  {
    var sorted := Sorted(uids);
    SortedIsSet(uids);
    if sorted == [] {
      return "";
    }
    ghost var runs := Runs(uids);
    assert runs == RunsFrom(sorted[0], sorted[0], sorted[1..]);
    hide Sorted, Runs, RunsFrom, Texts, Show, Ascending, Join;
    var out: seq<string> := [];
    var start, previous := sorted[0], sorted[0];
    ghost var done: seq<Run> := [];
    TextsNothing();
    for i := 1 to |sorted|
      invariant previous == sorted[i - 1] && start <= previous
      invariant out == Texts(done) && done + RunsFrom(start, previous, sorted[i..]) == runs
    {
      var uid := sorted[i];
      LargerFollows(sorted, i);
      var next: Uid := previous + 1;   // within 32 bits, since a larger uid follows
      assert sorted[i..][1..] == sorted[i + 1..];
      RunsFromStep(done, start, previous, sorted[i..]);
      if uid == next {
        previous := uid;
      } else {
        TextsSnoc(done, start, previous);
        out := out + [if start == previous then Show(start) else Show(start) + ":" + Show(previous)];
        done := done + [Run(start, previous)];
        start, previous := uid, uid;
      }
    }
    RunsFromLast(start, previous);
    TextsSnoc(done, start, previous);
    out := out + [if start == previous then Show(start) else Show(start) + ":" + Show(previous)];
    assert sorted[|sorted|..] == [];
    text := Join(out, ",");
  }

  lemma TextsNothing()
    ensures Texts([]) == []
  {
  }

  /** The runs do not touch: between two of them at least one uid is missing. */
  predicate Separate(rs: seq<Run>) {
    && (forall i :: 0 <= i < |rs| ==> rs[i].lo <= rs[i].hi)
    && (forall i, j :: 0 <= i < j < |rs| ==> rs[i].hi + 1 < rs[j].lo)
  }

  predicate Covers(rs: seq<Run>, u: nat) {
    exists i :: 0 <= i < |rs| && rs[i].Has(u)
  }

  lemma CoversCons(r: Run, rs: seq<Run>, u: nat)
    ensures Covers([r] + rs, u) <==> r.Has(u) || Covers(rs, u)
  {
    var all := [r] + rs;
    if Covers(rs, u) {
      var i :| 0 <= i < |rs| && rs[i].Has(u);
      assert all[i + 1].Has(u);
    }
    if r.Has(u) {
      assert all[0].Has(u);
    }
  }

  lemma {:induction false} RunsFromExact(start: nat, previous: nat, rest: seq<Uid>)
    requires start <= previous && Ascending(rest) && (rest != [] ==> previous < rest[0])
    ensures var rs := RunsFrom(start, previous, rest);
      && Separate(rs) && rs[0].lo == start
      && forall u: nat :: Covers(rs, u) <==> start <= u <= previous || u in rest
    decreases |rest|
  {
    var rs := RunsFrom(start, previous, rest);
    if rest == [] {
      forall u: nat ensures Covers(rs, u) <==> start <= u <= previous {
        CoversCons(rs[0], [], u);
      }
    } else if rest[0] == previous + 1 {
      RunsFromExact(start, rest[0], rest[1..]);
      assert rest == [rest[0]] + rest[1..];
    } else {
      RunsFromExact(rest[0], rest[0], rest[1..]);
      assert rest == [rest[0]] + rest[1..];
      var more := RunsFrom(rest[0], rest[0], rest[1..]);
      forall u: nat ensures Covers(rs, u) <==> start <= u <= previous || u in rest {
        CoversCons(Run(start, previous), more, u);
      }
      forall i, j | 0 <= i < j < |rs| ensures rs[i].hi + 1 < rs[j].lo {
        if i == 0 && j > 1 {
          assert more[0].hi + 1 < more[j - 1].lo;
        }
      }
    }
  }

  /** The runs are sorted and apart from each other, and hold exactly the uids that were given. */
  lemma RunsExact(uids: seq<Uid>)
    ensures Separate(Runs(uids))
    ensures forall u: nat :: Covers(Runs(uids), u) <==> u in uids
  {
    SortedIsSet(uids);
    var s := Sorted(uids);
    if s != [] {
      RunsFromExact(s[0], s[0], s[1..]);
      assert s == [s[0]] + s[1..];
    } else {
      assert forall u: Uid :: u !in uids;
    }
  }

  lemma SeparateTail(rs: seq<Run>)
    requires Separate(rs) && rs != []
    ensures Separate(rs[1..])
    ensures forall u: nat :: Covers(rs[1..], u) <==> Covers(rs, u) && u > rs[0].hi
  {
    forall u: nat ensures Covers(rs[1..], u) <==> Covers(rs, u) && u > rs[0].hi {
      CoversCons(rs[0], rs[1..], u);
      assert [rs[0]] + rs[1..] == rs;
    }
  }

  /** Runs that are apart are determined by what they cover, so they are the longest possible. */
  lemma {:induction false} RunsUnique(rs: seq<Run>, qs: seq<Run>)
    requires Separate(rs) && Separate(qs)
    requires forall u: nat :: Covers(rs, u) <==> Covers(qs, u)
    ensures rs == qs
    decreases |rs|
  {
    if rs == [] && qs != [] {
      assert qs[0].Has(qs[0].lo) && Covers(qs, qs[0].lo);
    } else if rs != [] && qs == [] {
      assert rs[0].Has(rs[0].lo) && Covers(rs, rs[0].lo);
    } else if rs != [] {
      SameStart(rs, qs);
      SameStart(qs, rs);
      SameEnd(rs, qs);
      SameEnd(qs, rs);
      SeparateTail(rs);
      SeparateTail(qs);
      RunsUnique(rs[1..], qs[1..]);
      assert rs == [rs[0]] + rs[1..] && qs == [qs[0]] + qs[1..];
    }
  }

  lemma SameStart(rs: seq<Run>, qs: seq<Run>)
    requires Separate(rs) && Separate(qs) && rs != [] && qs != []
    requires forall u: nat :: Covers(rs, u) <==> Covers(qs, u)
    ensures qs[0].lo <= rs[0].lo
  {
    assert rs[0].Has(rs[0].lo) && Covers(qs, rs[0].lo);
    var i :| 0 <= i < |qs| && qs[i].Has(rs[0].lo);
  }

  lemma SameEnd(rs: seq<Run>, qs: seq<Run>)
    requires Separate(rs) && Separate(qs) && rs != [] && qs != [] && rs[0].lo == qs[0].lo
    requires forall u: nat :: Covers(rs, u) <==> Covers(qs, u)
    ensures qs[0].hi <= rs[0].hi
  {
    assert !Covers(rs, rs[0].hi + 1);
    assert !Covers(qs, rs[0].hi + 1);
    assert !qs[0].Has(rs[0].hi + 1);
  }

  /** Neither order nor repetition matters to the text. */
  lemma OrderDoesNotMatter(uids: seq<Uid>, others: seq<Uid>)
    requires forall u :: u in uids <==> u in others
    ensures Runs(uids) == Runs(others)
  {
    RunsExact(uids);
    RunsExact(others);
    RunsUnique(Runs(uids), Runs(others));
  }

  // ----- what a server reads

  /** One element of a sequence-set: a number, or two that bound a range in either order. */
  function ReadRun(t: string): Option<Run> {
    var ps := Split(t, ':');
    if |ps| == 1 then
      match Read(ps[0])
      case None => None
      case Some(n) => Some(Run(n, n))
    else if |ps| == 2 then
      match (Read(ps[0]), Read(ps[1]))
      case (Some(a), Some(b)) => Some(if a <= b then Run(a, b) else Run(b, a))
      case _ => None
    else None
  }

  function ReadRuns(ts: seq<string>): Option<seq<Run>> {
    if ts == [] then Some([])
    else
      match (ReadRun(ts[0]), ReadRuns(ts[1..]))
      case (Some(r), Some(rs)) => Some([r] + rs)
      case _ => None
  }

  function ReadSet(t: string): Option<seq<Run>> {
    ReadRuns(Split(t, ','))
  }

  lemma ReadText(r: Run)
    requires r.lo <= r.hi
    ensures ReadRun(r.Text()) == Some(r)
    ensures ',' !in r.Text()
  {
    ReadShow(r.lo);
    ReadShow(r.hi);
    SplitPlain(Show(r.lo), ':');
    SplitPlain(Show(r.hi), ':');
    SplitFirst(Show(r.lo), Show(r.hi), ':');
  }

  lemma {:induction false} ReadTexts(rs: seq<Run>)
    requires forall i :: 0 <= i < |rs| ==> rs[i].lo <= rs[i].hi
    ensures ReadRuns(Texts(rs)) == Some(rs)
    ensures forall i :: 0 <= i < |rs| ==> ',' !in Texts(rs)[i]
  {
    if rs != [] {
      ReadText(rs[0]);
      hide ReadRun, Run.Text;
      ReadTexts(rs[1..]);
      hide Texts;
      assert rs == [rs[0]] + rs[1..];
      assert Texts(rs)[1..] == Texts(rs[1..]);
      assert forall i :: 1 <= i < |rs| ==> Texts(rs)[i] == Texts(rs[1..])[i - 1];
    }
  }

  /** A server reads in the text exactly the uids that were given. */
  lemma ServerReadsTheUids(uids: seq<Uid>)
    requires uids != []
    ensures ReadSet(Join(Texts(Runs(uids)), ",")) == Some(Runs(uids))
    ensures forall u: nat :: Covers(Runs(uids), u) <==> u in uids
  {
    RunsExact(uids);
    var rs := Runs(uids);
    assert uids[0] in uids && Covers(rs, uids[0]);
    ReadTexts(rs);
    SplitJoin(Texts(rs), ',');
  }

  // ----- commands that are not too long

  /** How many of the fields still fit behind a command of length `len`. */
  function Fill(len: nat, ts: seq<string>, max: int): (k: nat)
    ensures k <= |ts|
    decreases |ts|
  {
    if ts == [] || len + 1 + |ts[0]| > max then 0 else 1 + Fill(len + 1 + |ts[0]|, ts[1..], max)
  }

  /** The fields, cut greedily into the groups that make one command each. */
  function Groups(ts: seq<string>, max: int): seq<seq<string>>
    decreases |ts|
  {
    if ts == [] then []
    else
      var k := 1 + Fill(|ts[0]|, ts[1..], max);
      [ts[..k]] + Groups(ts[k..], max)
  }

  function Commands(gs: seq<seq<string>>): (cs: seq<string>)
    ensures |cs| == |gs| && forall i :: 0 <= i < |gs| ==> cs[i] == Join(gs[i], ",")
  {
    seq(|gs|, i requires 0 <= i < |gs| => Join(gs[i], ","))
  }

  lemma {:induction false} FillWhole(len: nat, ts: seq<string>, max: int, head: seq<string>)
    requires head != [] && len == |Join(head, ",")|
    requires |Join(head + ts, ",")| <= max
    ensures Fill(len, ts, max) == |ts|
    decreases |ts|
  {
    if ts != [] {
      JoinSnoc(head, ts[0], ",");
      assert head + ts == head + [ts[0]] + ts[1..];
      if ts[1..] != [] {
        JoinAppend(head + [ts[0]], ts[1..], ",");
      } else {
        assert head + ts == head + [ts[0]];
      }
      FillWhole(len + 1 + |ts[0]|, ts[1..], max, head + [ts[0]]);
    }
  }

  /** A text that fits as a whole is one command. */
  lemma OneGroup(ts: seq<string>, max: int)
    requires ts != [] && |Join(ts, ",")| <= max
    ensures Groups(ts, max) == [ts]
  {
    assert [ts[0]] + ts[1..] == ts;
    FillWhole(|ts[0]|, ts[1..], max, [ts[0]]);
    assert ts[..|ts|] == ts && ts[|ts|..] == [];
  }

  /** The groups still to come when `group` is being filled and `rest` is left. */
  function Pending(group: seq<string>, rest: seq<string>, max: int): seq<seq<string>> {
    var k := Fill(|Join(group, ",")|, rest, max);
    [group + rest[..k]] + Groups(rest[k..], max)
  }

  lemma PendingStarts(rest: seq<string>, max: int)
    requires rest != []
    ensures Groups(rest, max) == Pending([rest[0]], rest[1..], max)
  {
    var k := Fill(|rest[0]|, rest[1..], max);
    assert [rest[0]] + rest[1..][..k] == rest[..1 + k] && rest[1..][k..] == rest[1 + k..];
  }

  lemma PendingFlushes(group: seq<string>, rest: seq<string>, max: int)
    requires group != [] && rest != [] && |Join(group, ",")| + 1 + |rest[0]| > max
    ensures Pending(group, rest, max) == [group] + Pending([rest[0]], rest[1..], max)
  {
    PendingStarts(rest, max);
    hide Groups, Join;
    assert group + rest[..0] == group && rest[0..] == rest;
  }

  lemma PendingGrows(group: seq<string>, rest: seq<string>, max: int)
    requires group != [] && rest != [] && |Join(group, ",")| + 1 + |rest[0]| <= max
    ensures Pending(group, rest, max) == Pending(group + [rest[0]], rest[1..], max)
  {
    hide Groups, Join;
    JoinSnoc(group, rest[0], ",");
    var k := Fill(|Join(group, ",")| + 1 + |rest[0]|, rest[1..], max);
    assert group + rest[..1 + k] == group + [rest[0]] + rest[1..][..k];
    assert rest[1..][k..] == rest[1 + k..];
  }

  lemma PendingEnds(group: seq<string>, max: int)
    ensures Pending(group, [], max) == [group]
  {
    assert group + [] == group;
  }

  lemma CommandsSnoc(gs: seq<seq<string>>, g: seq<string>)
    ensures Commands(gs + [g]) == Commands(gs) + [Join(g, ",")]
  {
  }

  /** The splitting loop, on the fields of a text that is too long. */
  method SplitRuns(fields: seq<string>, maxChars: int) returns (out: seq<string>)
    requires fields != [] && forall i :: 0 <= i < |fields| ==> fields[i] != ""
    ensures out == Commands(Groups(fields, maxChars))
  {
    hide Groups, Pending, Join, Commands;
    out := [];
    var current := "";
    ghost var group: seq<string> := [];
    ghost var done: seq<seq<string>> := [];
    CommandsNothing();
    assert fields[0..] == fields;
    for i := 0 to |fields|
      invariant out == Commands(done)
      invariant current == Join(group, ",") && (current == "" <==> i == 0) && (group == [] <==> i == 0)
      invariant i == 0 ==> done == []
      invariant i > 0 ==> done + Pending(group, fields[i..], maxChars) == Groups(fields, maxChars)
    {
      var run := fields[i];
      assert fields[i..][1..] == fields[i + 1..] && fields[i..][0] == run;
      JoinOne(run);
      if i == 0 {
        PendingStarts(fields, maxChars);
        assert [] + Pending([run], fields[1..], maxChars) == Pending([run], fields[1..], maxChars);
      }
      if current != "" && |current| + 1 + |run| > maxChars {
        PendingFlushes(group, fields[i..], maxChars);
        CommandsSnoc(done, group);
        assert done + ([group] + Pending([run], fields[i + 1..], maxChars))
            == done + [group] + Pending([run], fields[i + 1..], maxChars);
        out := out + [current];
        done := done + [group];
        current := "";
        group := [];
      }
      if current != "" {
        PendingGrows(group, fields[i..], maxChars);
        JoinSnoc(group, run, ",");
        current := current + ",";
      } else {
        assert [] + [run] == [run];
      }
      current := current + run;
      group := group + [run];
    }
    PendingEnds(group, maxChars);
    CommandsSnoc(done, group);
    if current != "" {
      out := out + [current];
    }
  }

  lemma JoinOne(t: string)
    ensures Join([t], ",") == t && Join([], ",") == ""
  {
  }

  lemma CommandsNothing()
    ensures Commands([]) == [] && Join([], ",") == ""
  {
  }

  method Batches(uids: seq<Uid>, maxChars: int) returns (out: seq<string>)
    ensures out == Commands(Groups(Texts(Runs(uids)), maxChars))
  {
    hide Fill, Runs;
    var whole := Collapse(uids);
    ghost var all := Texts(Runs(uids));
    NotEmptyText(uids);
    if whole == "" {
      return [];
    }
    if |whole| <= maxChars {
      OneGroup(all, maxChars);
      return [whole];
    }
    RunsExact(uids);
    ReadTexts(Runs(uids));
    SplitJoin(all, ',');
    out := SplitRuns(Split(whole, ','), maxChars);
  }

  lemma NotEmptyText(uids: seq<Uid>)
    ensures Join(Texts(Runs(uids)), ",") == "" <==> Texts(Runs(uids)) == []
    ensures forall i :: 0 <= i < |Runs(uids)| ==> Texts(Runs(uids))[i] != ""
  {
  }

  // ----- what the commands say

  predicate Fits(g: seq<string>, max: int) {
    |Join(g, ",")| <= max
  }

  /** Nothing is cut, nothing is empty, and only a single field ever fails to fit. */
  predicate GoodGroups(gs: seq<seq<string>>, max: int) {
    forall i :: 0 <= i < |gs| ==> gs[i] != [] && (Fits(gs[i], max) || |gs[i]| == 1)
  }

  /** The groups are the fields in order. */
  lemma {:induction false} GroupsExact(ts: seq<string>, max: int)
    ensures Flat(Groups(ts, max)) == ts
    ensures GoodGroups(Groups(ts, max), max)
    decreases |ts|
  {
    hide Fill, Join;
    if ts != [] {
      var k := 1 + Fill(|ts[0]|, ts[1..], max);
      GroupsExact(ts[k..], max);
      JoinOne(ts[0]);
      FilledFits(|ts[0]|, ts[1..], max, [ts[0]]);
      assert ts[..k] == [ts[0]] + ts[1..][..k - 1];
      assert ts[..k] + ts[k..] == ts;
      assert Groups(ts, max)[1..] == Groups(ts[k..], max);
    }
  }

  lemma {:induction false} FilledFits(len: nat, ts: seq<string>, max: int, head: seq<string>)
    requires head != [] && len == |Join(head, ",")|
    ensures var k := Fill(len, ts, max); k > 0 ==> Fits(head + ts[..k], max)
    decreases |ts|
  {
    var k := Fill(len, ts, max);
    if k > 0 {
      JoinSnoc(head, ts[0], ",");
      FilledFits(len + 1 + |ts[0]|, ts[1..], max, head + [ts[0]]);
      assert head + ts[..k] == head + [ts[0]] + ts[1..][..k - 1];
      if k == 1 {
        assert head + ts[..k] == head + [ts[0]];
      }
    }
  }

  /** Joined by commas, the commands are the collapsed text: nothing lost, nothing invented. */
  lemma {:induction false} CommandsJoin(gs: seq<seq<string>>)
    requires forall i :: 0 <= i < |gs| ==> gs[i] != []
    ensures Join(Commands(gs), ",") == Join(Flat(gs), ",")
  {
    if gs != [] {
      CommandsJoin(gs[1..]);
      assert Commands(gs)[1..] == Commands(gs[1..]);
      if |gs| == 1 {
        assert Flat(gs) == gs[0] + Flat([]) && gs[0] + [] == gs[0];
      } else {
        assert gs[1] != [] && Flat(gs[1..]) == gs[1] + Flat(gs[1..][1..]);
        JoinAppend(gs[0], Flat(gs[1..]), ",");
      }
    }
  }

  /** The commands of a list of uids say together what the collapsed text says, and cut no run. */
  lemma BatchesExact(uids: seq<Uid>, max: int)
    ensures var gs := Groups(Texts(Runs(uids)), max);
      && Join(Commands(gs), ",") == Join(Texts(Runs(uids)), ",")
      && Flat(gs) == Texts(Runs(uids))
      && GoodGroups(gs, max)
  {
    GroupsExact(Texts(Runs(uids)), max);
    CommandsJoin(Groups(Texts(Runs(uids)), max));
  }

  lemma {:induction false} FieldLength(g: seq<string>, i: nat)
    requires i < |g|
    ensures |g[i]| <= |Join(g, ",")|
  {
    if i > 0 {
      FieldLength(g[1..], i - 1);
    }
  }

  lemma {:induction false} FlatHas(gs: seq<seq<string>>, i: nat, j: nat)
    requires i < |gs| && j < |gs[i]|
    ensures gs[i][j] in Flat(gs)
  {
    if i > 0 {
      FlatHas(gs[1..], i - 1, j);
    }
  }

  lemma {:induction false} FlatFrom(gs: seq<seq<string>>, t: string)
    requires t in Flat(gs)
    ensures exists i :: 0 <= i < |gs| && t in gs[i]
  {
    if t !in gs[0] {
      FlatFrom(gs[1..], t);
      var i :| 0 <= i < |gs[1..]| && t in gs[1..][i];
      assert t in gs[i + 1];
    }
  }

  predicate AllFit(gs: seq<seq<string>>, max: int) {
    forall i :: 0 <= i < |gs| ==> Fits(gs[i], max)
  }

  /** Every command fits exactly when every single field does. */
  lemma AllFitIff(ts: seq<string>, max: int)
    ensures AllFit(Groups(ts, max), max) <==> (forall i :: 0 <= i < |ts| ==> |ts[i]| <= max)
  {
    hide Groups, Join, Flat;
    GroupsExact(ts, max);
    var gs := Groups(ts, max);
    if AllFit(gs, max) {
      forall n | 0 <= n < |ts| ensures |ts[n]| <= max {
        assert ts[n] in Flat(gs);
        FlatFrom(gs, ts[n]);
        var i :| 0 <= i < |gs| && ts[n] in gs[i];
        var j :| 0 <= j < |gs[i]| && gs[i][j] == ts[n];
        FieldLength(gs[i], j);
      }
    }
    if forall i :: 0 <= i < |ts| ==> |ts[i]| <= max {
      forall i | 0 <= i < |gs| ensures Fits(gs[i], max) {
        if |gs[i]| == 1 {
          FlatHas(gs, i, 0);
          JoinOne(gs[i][0]);
          assert gs[i] == [gs[i][0]];
        }
      }
    }
  }

  /** A command is closed only when the next field would not fit: greedily, from the first field on. */
  lemma {:induction false} GroupsAreFull(ts: seq<string>, max: int, i: nat)
    requires i + 1 < |Groups(ts, max)|
    ensures var gs := Groups(ts, max);
      gs[i + 1] != [] && |Join(gs[i] + [gs[i + 1][0]], ",")| > max
    decreases |ts|
  {
    hide Fill, Join;
    var k := 1 + Fill(|ts[0]|, ts[1..], max);
    var gs := Groups(ts, max);
    assert gs == [ts[..k]] + Groups(ts[k..], max);
    GroupsExact(ts[k..], max);
    if i > 0 {
      GroupsAreFull(ts[k..], max, i - 1);
    } else {
      JoinOne(ts[0]);
      FillStops(|ts[0]|, ts[1..], max, [ts[0]]);
      assert ts[..k] == [ts[0]] + ts[1..][..k - 1];
      assert gs[1] == Groups(ts[k..], max)[0] && gs[1][0] == ts[k];
      assert ts[..k] + [ts[k]] == [ts[0]] + ts[1..][..k];
    }
  }

  lemma {:induction false} FillStops(len: nat, ts: seq<string>, max: int, head: seq<string>)
    requires head != [] && len == |Join(head, ",")|
    ensures var k := Fill(len, ts, max); k < |ts| ==> |Join(head + ts[..k + 1], ",")| > max
    decreases |ts|
  {
    var k := Fill(len, ts, max);
    if ts != [] {
      JoinSnoc(head, ts[0], ",");
      if k == 0 {
        assert head + ts[..1] == head + [ts[0]];
      } else {
        FillStops(len + 1 + |ts[0]|, ts[1..], max, head + [ts[0]]);
        assert k < |ts| ==> head + [ts[0]] + ts[1..][..k] == head + ts[..k + 1];
      }
    }
  }

  /** The default limit is 900 characters: every command keeps to it, and could not hold one more run. */
  lemma DefaultLimit(uids: seq<Uid>, i: nat)
    requires i < |Groups(Texts(Runs(uids)), MAX_CHARS)|
    ensures var gs := Groups(Texts(Runs(uids)), MAX_CHARS);
      && |Join(gs[i], ",")| <= 900
      && (i + 1 < |gs| ==> gs[i + 1] != [] && |Join(gs[i] + [gs[i + 1][0]], ",")| > 900)
  {
    var ts := Texts(Runs(uids));
    DefaultFits(uids);
    if i + 1 < |Groups(ts, MAX_CHARS)| {
      GroupsAreFull(ts, MAX_CHARS, i);
    }
  }

  /** With the default limit every command fits, whatever the uids. */
  lemma DefaultFits(uids: seq<Uid>)
    ensures AllFit(Groups(Texts(Runs(uids)), MAX_CHARS), MAX_CHARS)
  {
    var ts := Texts(Runs(uids));
    RunsExact(uids);
    forall i | 0 <= i < |ts| ensures |ts[i]| <= MAX_CHARS {
      var r := Runs(uids)[i];
      assert r.Has(r.lo) && r.Has(r.hi);
      assert Covers(Runs(uids), r.lo) && Covers(Runs(uids), r.hi);
      TenDigits();
      ShowLength(r.lo, 10);
      ShowLength(r.hi, 10);
    }
    AllFitIff(ts, MAX_CHARS);
  }

  lemma TenDigits()
    ensures Power10(10) == 10_000_000_000
  {
    assert Power10(3) == 1000;
    assert Power10(6) == 1_000_000;
    assert Power10(9) == 1_000_000_000;
  }

  // ----- as few as possible

  lemma {:induction false} JoinPrefix(g: seq<string>, k: nat)
    requires 0 < k <= |g|
    ensures |Join(g[..k], ",")| <= |Join(g, ",")|
  {
    if k < |g| {
      JoinAppend(g[..k], g[k..], ",");
      assert g[..k] + g[k..] == g;
    } else {
      assert g[..k] == g;
    }
  }

  lemma {:induction false} JoinSuffix(g: seq<string>, k: nat)
    requires k < |g|
    ensures |Join(g[k..], ",")| <= |Join(g, ",")|
  {
    if k > 0 {
      JoinAppend(g[..k], g[k..], ",");
      assert g[..k] + g[k..] == g;
    } else {
      assert g[0..] == g;
    }
  }

  /** The greedy group takes in whatever fits. */
  lemma {:induction false} FillReaches(len: nat, ts: seq<string>, max: int, head: seq<string>, k: nat)
    requires head != [] && len == |Join(head, ",")| && k <= |ts|
    requires Fits(head + ts[..k], max)
    ensures Fill(len, ts, max) >= k
    decreases |ts|
  {
    if k > 0 {
      var more := head + [ts[0]];
      JoinSnoc(head, ts[0], ",");
      assert head + ts[..k] == more + ts[1..][..k - 1];
      JoinPrefix(head + ts[..k], |more|);
      assert (head + ts[..k])[..|more|] == more;
      FillReaches(len + 1 + |ts[0]|, ts[1..], max, more, k - 1);
    }
  }

  /**
   However else the fields are cut into commands that fit, it takes at least as many: stated
   for a tail of the fields, since the greedy cut is always at least as far along.
   */
  lemma {:induction false} GreedyIsFewest(all: seq<string>, from: nat, hs: seq<seq<string>>, max: int)
    requires Flat(hs) == all && from <= |all|
    requires forall i :: 0 <= i < |hs| ==> hs[i] != [] && Fits(hs[i], max)
    ensures |Groups(all[from..], max)| <= |hs|
    decreases |hs|
  {
    hide Groups, Flat, Join;
    var ts := all[from..];
    FlatHead(hs);
    GroupsHead(ts, max);
    if ts != [] {
      var h, tail := hs[0], Flat(hs[1..]);
      if from >= |h| {
        assert tail[from - |h|..] == ts;
        GreedyIsFewest(tail, from - |h|, hs[1..], max);
      } else {
        var y := h[from..];
        assert ts == y + tail;
        var k := FirstReaches(ts, h, from, max);
        assert tail[k - |y|..] == ts[k..];
        GreedyIsFewest(tail, k - |y|, hs[1..], max);
      }
    }
  }

  lemma FlatHead(gs: seq<seq<string>>)
    ensures if gs == [] then Flat(gs) == [] else Flat(gs) == gs[0] + Flat(gs[1..])
  {
  }

  lemma GroupsHead(ts: seq<string>, max: int)
    ensures if ts == [] then Groups(ts, max) == []
            else var k := 1 + Fill(|ts[0]|, ts[1..], max); |Groups(ts, max)| == 1 + |Groups(ts[k..], max)|
  {
  }

  /** The first greedy group reaches at least to the end of a group `h` that fits and is partly behind it. */
  lemma FirstReaches(ts: seq<string>, h: seq<string>, from: nat, max: int) returns (k: nat)
    requires from < |h| && Fits(h, max) && h[from..] <= ts
    ensures k == 1 + Fill(|ts[0]|, ts[1..], max) && k >= |h| - from
  {
    hide Join, Fill;
    var y := h[from..];
    JoinSuffix(h, from);
    JoinOne(ts[0]);
    assert [ts[0]] + ts[1..][..|y| - 1] == y;
    FillReaches(|ts[0]|, ts[1..], max, [ts[0]], |y| - 1);
    k := 1 + Fill(|ts[0]|, ts[1..], max);
  }

  /** No other cut into commands that fit takes fewer of them. */
  lemma FewestCommands(ts: seq<string>, hs: seq<seq<string>>, max: int)
    requires Flat(hs) == ts
    requires forall i :: 0 <= i < |hs| ==> hs[i] != [] && Fits(hs[i], max)
    ensures |Commands(Groups(ts, max))| <= |hs|
  {
    assert ts[0..] == ts;
    GreedyIsFewest(ts, 0, hs, max);
  }
}
