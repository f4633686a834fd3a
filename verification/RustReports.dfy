/**
 What is reported of a blanked Rust source, by counting characters and matching patterns: the
 same test items and functions that `RustItems` finds by scanning.
 */
module RustReports {
  import opened RustLexer
  import opened RustLexerLaws
  import opened RustTokens
  import opened RustItems
  import opened RustPatterns

  // ----- counting

  /** How often `c` stands in `x`. */
  function Num(x: string, c: char): nat {
    multiset(x)[c]
  }

  lemma NumSnoc(t: string, a: nat, b: nat, c: char)
    requires a < b <= |t|
    ensures Num(t[a..b], c) == Num(t[a..b - 1], c) + if t[b - 1] == c then 1 else 0
  {
    assert t[a..b] == t[a..b - 1] + [t[b - 1]];
  }

  lemma {:induction false} BracesCounted(t: string, a: nat, b: nat)
    requires a <= b <= |t|
    ensures Net(Braces, t, a, b) == Num(t[a..b], '{') - Num(t[a..b], '}')
    decreases b - a
  {
    hide Num;
    if a < b {
      BracesCounted(t, a, b - 1);
      NumSnoc(t, a, b, '{');
      NumSnoc(t, a, b, '}');
    } else {
      NumNothing(t[a..b]);
    }
  }

  lemma {:induction false} SquaresCounted(t: string, a: nat, b: nat)
    requires a <= b <= |t|
    ensures Net(Squares, t, a, b) == Num(t[a..b], '[') - Num(t[a..b], ']')
    decreases b - a
  {
    hide Num;
    if a < b {
      SquaresCounted(t, a, b - 1);
      NumSnoc(t, a, b, '[');
      NumSnoc(t, a, b, ']');
    } else {
      NumNothing(t[a..b]);
    }
  }

  lemma {:induction false} RoundsCounted(t: string, a: nat, b: nat)
    requires a <= b <= |t|
    ensures Net(Rounds, t, a, b)
         == Num(t[a..b], '(') + Num(t[a..b], '[') - Num(t[a..b], ')') - Num(t[a..b], ']')
    decreases b - a
  {
    hide Num;
    if a < b {
      RoundsCounted(t, a, b - 1);
      NumSnoc(t, a, b, '(');
      NumSnoc(t, a, b, '[');
      NumSnoc(t, a, b, ')');
      NumSnoc(t, a, b, ']');
    } else {
      NumNothing(t[a..b]);
    }
  }

  lemma {:induction false} NewlinesCounted(t: string, a: nat, b: nat)
    requires a <= b <= |t|
    ensures Newlines(t, a, b) == Num(t[a..b], '\n')
    decreases b - a
  {
    hide Num;
    if a < b {
      NewlinesCounted(t, a, b - 1);
      NumSnoc(t, a, b, '\n');
    } else {
      NumNothing(t[a..b]);
    }
  }

  lemma NumNothing(x: string)
    requires x == ""
    ensures forall c :: Num(x, c) == 0
  {
  }

  // ----- blocks and items

  /** `t[i..e]` ends in `close`, and has as many of the one as of the other. */
  predicate Closes(t: string, i: nat, e: nat, open: char, close: char) {
    i < e <= |t| && t[e - 1] == close && Num(t[i..e], open) == Num(t[i..e], close)
  }

  /** `e` is where the first such text ends, or the end of `t` when there is none. */
  predicate Ends(t: string, i: nat, e: nat, open: char, close: char) {
    && i <= e <= |t|
    && (forall k :: i < k < e ==> !Closes(t, i, k, open, close))
    && (Closes(t, i, e, open, close) || e == |t|)
  }

  lemma BraceEndIff(t: string, i: nat, e: nat)
    requires i < |t|
    ensures e == BlockEnd(Braces, t, i) <==> Ends(t, i, e, '{', '}')
  {
    hide Num, Net;
    forall k | i < k <= |t| ensures ClosesAt(Braces, t, i, k) <==> Closes(t, i, k, '{', '}') {
      BracesCounted(t, i, k);
    }
    OneEnd(Braces, t, i, e, '{', '}');
  }

  lemma SquareEndIff(t: string, i: nat, e: nat)
    requires i < |t|
    ensures e == BlockEnd(Squares, t, i) <==> Ends(t, i, e, '[', ']')
  {
    hide Num, Net;
    forall k | i < k <= |t| ensures ClosesAt(Squares, t, i, k) <==> Closes(t, i, k, '[', ']') {
      SquaresCounted(t, i, k);
    }
    OneEnd(Squares, t, i, e, '[', ']');
  }

  lemma OneEnd(p: Pairing, t: string, i: nat, e: nat, open: char, close: char)
    requires i < |t| && forall k :: i < k <= |t| ==> (ClosesAt(p, t, i, k) <==> Closes(t, i, k, open, close))
    ensures e == BlockEnd(p, t, i) <==> Ends(t, i, e, open, close)
  {
    hide Closes, ClosesAt;
    var b := BlockEnd(p, t, i);
    assert ClosesAt(p, t, i, b) ==> Closes(t, i, b, open, close);
    if Ends(t, i, e, open, close) {
      NothingBefore(t, i, open, close);
      assert e != i;
      assert !(e < b) && !(b < e);
    }
  }

  lemma NothingBefore(t: string, i: nat, open: char, close: char)
    ensures !Closes(t, i, i, open, close)
  {
  }

  /** A `;` or `{` with as many brackets closed as opened since `i`. */
  predicate TopLevel(t: string, i: nat, j: nat) {
    && i <= j < |t| && (t[j] == ';' || t[j] == '{')
    && Num(t[i..j], '(') + Num(t[i..j], '[') == Num(t[i..j], ')') + Num(t[i..j], ']')
  }

  predicate FirstTopLevel(t: string, i: nat, j: nat) {
    TopLevel(t, i, j) && forall k :: i <= k < j ==> !TopLevel(t, i, k)
  }

  /** An item ends past its first top-level `;`, or with the block at its first top-level `{`, or with the text. */
  ghost predicate ItemEnds(t: string, i: nat, e: nat) {
    || (exists j: nat :: FirstTopLevel(t, i, j) && if t[j] == ';' then e == j + 1 else Ends(t, j, e, '{', '}'))
    || ((forall j: nat :: !TopLevel(t, i, j)) && e == |t|)
  }

  lemma StopIff(t: string, i: nat, j: nat)
    requires i <= |t|
    ensures StopsAt(t, i, j) <==> TopLevel(t, i, j)
  {
    if i <= j <= |t| {
      RoundsCounted(t, i, j);
    }
  }

  lemma ItemEndIff(t: string, i: nat, e: nat)
    requires i <= |t|
    ensures e == ItemEndOf(t, i) <==> ItemEnds(t, i, e)
  {
    forall j: nat ensures StopsAt(t, i, j) <==> TopLevel(t, i, j) {
      StopIff(t, i, j);
    }
    hide TopLevel, StopsAt, Ends, BlockEnd;
    var s := ItemStop(t, i, i);
    if s < |t| {
      assert FirstTopLevel(t, i, s);
      forall j: nat | FirstTopLevel(t, i, j) ensures j == s {
        TopLevelWithin(t, i, j);
        assert !(j < s) && !(s < j);
      }
      BraceEndIff(t, s, e);
    } else {
      forall j: nat ensures !TopLevel(t, i, j) {
        if TopLevel(t, i, j) {
          TopLevelWithin(t, i, j);
        }
      }
    }
  }

  lemma TopLevelWithin(t: string, i: nat, j: nat)
    requires TopLevel(t, i, j)
    ensures i <= j < |t|
  {
  }

  // ----- attributes

  predicate WhiteUpTo(t: string, j: nat, k: nat) {
    j <= k <= |t| && (forall q :: j <= q < k ==> t[q] in WHITE) && (k == |t| || t[k] !in WHITE)
  }

  lemma WhiteUpToIff(t: string, j: nat, k: nat)
    requires j <= |t|
    ensures k == SkipSpace(t, j) <==> WhiteUpTo(t, j, k)
  {
    forall q | 0 <= q < |t| ensures t[q] in WHITE <==> IsSpace(t[q]) {
      WhiteIff(t[q]);
    }
    hide WHITE;
    SkipSpaceIff(t, j, k);
  }

  predicate OpensAttribute(t: string, k: nat) {
    k + 2 <= |t| && t[k..k + 2] == "#["
  }

  lemma OpensIff(t: string, k: nat)
    ensures OpensAttribute(t, k) <==> StartsAt(t, k, '#', '[')
  {
    if k + 2 <= |t| {
      assert t[k..k + 2][0] == t[k] && t[k..k + 2][1] == t[k + 1];
    }
  }

  /** From `j` on stand the attributes `ats`, with white space between them, and then at `k` the item. */
  ghost predicate LeadsTo(t: string, j: nat, ats: seq<nat>, k: nat)
    decreases |ats|
  {
    if ats == [] then WhiteUpTo(t, j, k) && !OpensAttribute(t, k)
    else
      && WhiteUpTo(t, j, ats[0]) && OpensAttribute(t, ats[0])
      && exists e: nat :: Ends(t, ats[0], e, '[', ']') && LeadsTo(t, e, ats[1..], k)
  }

  lemma {:induction false} LeadsToIff(t: string, j: nat, ats: seq<nat>, k: nat)
    requires j <= |t|
    ensures LeadsTo(t, j, ats, k) <==> IsAttrRun(t, j, ats, k)
    decreases |ats|
  {
    hide WhiteUpTo, OpensAttribute, Ends, WHITE;
    if ats == [] {
      WhiteUpToIff(t, j, k);
      OpensIff(t, k);
    } else {
      WhiteUpToIff(t, j, ats[0]);
      OpensIff(t, ats[0]);
      if StartsAt(t, ats[0], '#', '[') {
        var b := BlockEnd(Squares, t, ats[0]);
        forall e: nat ensures Ends(t, ats[0], e, '[', ']') <==> e == b {
          SquareEndIff(t, ats[0], e);
        }
        LeadsToIff(t, b, ats[1..], k);
      }
    }
  }

  // ----- test items

  ghost predicate Marks(t: string, a: nat) {
    MatchesAt(TEST_CFG, t, a) || MatchesAt(TEST_ATTR, t, a)
  }

  /** The attribute at `a` ends at `j`, `ats` follow it, and the item at `k` ends at `e`. */
  ghost predicate Covers(t: string, a: nat, j: nat, ats: seq<nat>, k: nat, e: nat) {
    Ends(t, a, j, '[', ']') && LeadsTo(t, j, ats, k) && ItemEnds(t, k, e)
  }

  /** A test marker stands at `a`, and the item that it is put on ends at `e`. */
  ghost predicate IsTestItem(t: string, a: nat, e: nat) {
    a < |t| && Marks(t, a) && exists j: nat, ats: seq<nat>, k: nat :: Covers(t, a, j, ats, k, e)
  }

  lemma SpanOfIff(t: string, a: nat, e: nat)
    requires a < |t|
    ensures SpanOf(t, a) == Span(a, e) <==> exists j: nat, ats: seq<nat>, k: nat :: Covers(t, a, j, ats, k, e)
  {
    hide Ends, LeadsTo, ItemEnds, IsAttrRun, BlockEnd, ItemEndOf, AttrRunEnd;
    var b := BlockEnd(Squares, t, a);
    forall j: nat ensures Ends(t, a, j, '[', ']') <==> j == b {
      SquareEndIff(t, a, j);
    }
    var k := AttrRunEnd(t, b);
    ItemEndIff(t, k, e);
    if SpanOf(t, a) == Span(a, e) {
      var ats := RunExists(t, b);
      LeadsToIff(t, b, ats, k);
      assert Covers(t, a, b, ats, k, e);
    }
    if j: nat, ats: seq<nat>, k': nat :| Covers(t, a, j, ats, k', e) {
      LeadsToIff(t, b, ats, k');
      MarkerCoversItem(t, b, ats, k');
    }
  }

  /** The spans are those of the test items: each covers its item from the marker to the item's end. */
  lemma TestItemIff(t: string, a: nat, e: nat)
    ensures Span(a, e) in SpansFrom(t, 0) <==> IsTestItem(t, a, e)
  {
    hide SpanOf, IsMarker, Covers, TEST_CFG, TEST_ATTR;
    SpansExact(t, 0, Span(a, e));
    if a < |t| {
      MarkerIff(t, a);
      SpanOfIff(t, a, e);
    }
  }

  // ----- functions

  /** The pattern of a function matches at `p`, with the name `t[s..e]`. */
  ghost predicate Heads(t: string, p: nat, s: nat, e: nat) {
    && Matches(FN_HEAD, t, p, s)
    && s < e <= |t| && t[s] in NAME_START && (forall k :: s <= k < e ==> t[k] in WORD)
    && (e == |t| || t[e] !in WORD)
  }

  /** Matches are found from left to right and do not overlap. */
  ghost predicate Found(t: string, p: nat)
    decreases p
  {
    && (exists s: nat, e: nat :: Heads(t, p, s, e))
    && forall q: nat, s: nat, e: nat :: q < p && Found(t, q) && Heads(t, q, s, e) ==> e <= p
  }

  lemma HeadsIff(t: string, p: nat, s: nat, e: nat)
    requires p <= |t|
    ensures Heads(t, p, s, e) <==> FnAt(t, p) == Header(s, e)
  {
    HeaderIff(t, p, s, e);
  }

  lemma HeadsWithin(t: string, p: nat, s: nat, e: nat)
    requires Heads(t, p, s, e)
    ensures p <= s < e <= |t|
  {
  }

  lemma {:induction false} FoundIff(t: string, p: nat)
    ensures Found(t, p) <==> Taken(t, p)
    decreases p
  {
    hide Heads, FnAt;
    forall q: nat, s: nat, e: nat | q <= |t| ensures Heads(t, q, s, e) <==> FnAt(t, q) == Header(s, e) {
      HeadsIff(t, q, s, e);
    }
    forall q: nat | q < p ensures Found(t, q) <==> Taken(t, q) {
      FoundIff(t, q);
    }
    if Found(t, p) {
      var s: nat, e: nat :| Heads(t, p, s, e);
      HeadsWithin(t, p, s, e);
      forall q: nat | q < p && Taken(t, q) ensures FnAt(t, q).end <= p {
        var h := FnAt(t, q);
        assert Heads(t, q, h.name, h.end);
      }
    }
    if Taken(t, p) {
      var h := FnAt(t, p);
      assert Heads(t, p, h.name, h.end);
    }
  }

  /** A function with a body: its item, from its name on, ends in a brace at `e`. */
  ghost predicate IsFunction(t: string, p: nat, s: nat, h: nat, e: nat) {
    Found(t, p) && Heads(t, p, s, h) && ItemEnds(t, h, e) && 0 < e <= |t| && t[e - 1] == '}'
  }

  lemma FunctionIff(t: string, p: nat, s: nat, h: nat, e: nat)
    requires Heads(t, p, s, h)
    ensures Fn(t[s..h], p, e) in FnsFrom(t, 0) <==> IsFunction(t, p, s, h, e)
  {
    HeadsWithin(t, p, s, h);
    hide Heads, Found, ItemEnds, FnAt, ItemEndOf, FnsFrom, Taken;
    FunctionsExact(t, Fn(t[s..h], p, e));
    FoundIff(t, p);
    HeadsIff(t, p, s, h);
    ItemEndIff(t, h, e);
  }

  lemma ListedHasHeads(t: string, f: Fn) returns (s: nat, h: nat)
    requires f in FnsFrom(t, 0)
    ensures IsFunction(t, f.start, s, h, f.end) && s <= h <= |t| && f.name == t[s..h]
  {
    hide Heads, Found, ItemEnds, ItemEndOf, FnsFrom;
    FunctionsExact(t, f);
    var header := FnAt(t, f.start);
    s, h := header.name, header.end;
    HeadsIff(t, f.start, s, h);
    FoundIff(t, f.start);
    ItemEndIff(t, h, f.end);
  }

  // ----- the report

  /** The function stands in a test item. */
  ghost predicate InTest(t: string, p: nat) {
    exists a: nat, e: nat :: a <= p < e && IsTestItem(t, a, e)
  }

  lemma InTestIff(t: string, f: Fn)
    ensures IsTestCode(SpansFrom(t, 0), f) <==> InTest(t, f.start)
  {
    hide IsTestItem, SpansFrom;
    if s :| s in SpansFrom(t, 0) && s.Covers(f.start) {
      TestItemIff(t, s.start, s.end);
      assert s == Span(s.start, s.end);
    }
    if a: nat, e: nat :| a <= f.start < e && IsTestItem(t, a, e) {
      TestItemIff(t, a, e);
      assert Span(a, e).Covers(f.start);
    }
  }

  /** The function `t[p..e]` is outside all test items and has more lines than the limit. */
  ghost predicate IsLong(t: string, p: nat, e: nat, limit: int) {
    p <= e <= |t| && !InTest(t, p) && Num(t[p..e], '\n') + 1 > limit
  }

  /** The line that is reported: the number of lines, the name, and the line of its `fn`. */
  function LineOf(t: string, p: nat, s: nat, h: nat, e: nat): Long
    requires p <= e <= |t| && s <= h <= |t|
  {
    Long(Num(t[p..e], '\n') + 1, t[s..h], Num(t[..p], '\n') + 1)
  }

  lemma MeasuredIs(t: string, f: Fn)
    requires f.start < f.end <= |t| && t[f.end - 1] == '}'
    ensures Measured(t, f) == Long(Num(t[f.start..f.end], '\n') + 1, f.name, Num(t[..f.start], '\n') + 1)
  {
    MeasuredLines(t, f);
    NewlinesCounted(t, f.start, f.end);
    NewlinesCounted(t, 0, f.start);
    assert t[0..f.start] == t[..f.start];
  }

  /** The line `r` is that of a function outside all test items and over the limit. */
  ghost predicate IsReported(t: string, limit: int, r: Long, p: nat, s: nat, h: nat, e: nat) {
    IsFunction(t, p, s, h, e) && IsLong(t, p, e, limit) && s <= h <= |t| && r == LineOf(t, p, s, h, e)
  }

  lemma ReportedHas(t: string, limit: int, f: Fn)
    requires f in FnsFrom(t, 0) && !IsTestCode(SpansFrom(t, 0), f) && Newlines(t, f.start, f.end) >= limit
    ensures exists p: nat, s: nat, h: nat, e: nat :: IsReported(t, limit, Measured(t, f), p, s, h, e)
  {
    assert f.start < f.end <= |t| && t[f.end - 1] == '}';
    hide FnsFrom, SpansFrom, Measured, IsTestCode, Newlines, InTest, Num, IsFunction;
    var s, h := ListedHasHeads(t, f);
    InTestIff(t, f);
    NewlinesCounted(t, f.start, f.end);
    MeasuredIs(t, f);
    assert IsReported(t, limit, Measured(t, f), f.start, s, h, f.end);
  }

  lemma IsReportedIn(t: string, limit: int, r: Long, p: nat, s: nat, h: nat, e: nat) returns (f: Fn)
    requires IsReported(t, limit, r, p, s, h, e)
    ensures f in FnsFrom(t, 0) && !IsTestCode(SpansFrom(t, 0), f)
    ensures Newlines(t, f.start, f.end) >= limit && r == Measured(t, f)
  {
    FunctionHeads(t, p, s, h, e);
    f := Fn(t[s..h], p, e);
    FunctionIff(t, p, s, h, e);
    assert f.start < f.end <= |t| && t[f.end - 1] == '}';
    hide FnsFrom, SpansFrom, Measured, IsTestCode, Newlines, InTest, Num, IsFunction;
    InTestIff(t, f);
    NewlinesCounted(t, p, e);
    MeasuredIs(t, f);
  }

  /** A line is reported exactly when it is that of a function outside all test items and over the limit. */
  lemma ReportedIff(t: string, limit: int, r: Long)
    ensures r in Report(t, FnsFrom(t, 0), SpansFrom(t, 0), limit) <==>
      exists p: nat, s: nat, h: nat, e: nat :: IsReported(t, limit, r, p, s, h, e)
  {
    hide Report, FnsFrom, SpansFrom, Measured, IsTestCode, Newlines, IsReported;
    var fns := FnsFrom(t, 0);
    ReportExact(t, fns, SpansFrom(t, 0), limit, r);
    if f :| f in fns && !IsTestCode(SpansFrom(t, 0), f) && Newlines(t, f.start, f.end) >= limit && r == Measured(t, f) {
      ReportedHas(t, limit, f);
    }
    if p: nat, s: nat, h: nat, e: nat :| IsReported(t, limit, r, p, s, h, e) {
      var f := IsReportedIn(t, limit, r, p, s, h, e);
    }
  }

  lemma FunctionHeads(t: string, p: nat, s: nat, h: nat, e: nat)
    requires IsFunction(t, p, s, h, e)
    ensures Heads(t, p, s, h) && p <= s < h <= |t|
  {
    HeadsWithin(t, p, s, h);
  }

  predicate IsOver(t: string, spans: seq<Span>, limit: int, f: Fn)
    requires f.start < f.end <= |t|
  {
    !IsTestCode(spans, f) && Measured(t, f).lines > limit
  }

  /** `ks` are the numbers of the functions that are reported, in order. */
  predicate Picks(t: string, fns: seq<Fn>, spans: seq<Span>, limit: int, r: seq<Long>, ks: seq<nat>)
    requires InText(t, fns)
  {
    && |ks| == |r|
    && (forall i :: 0 <= i < |ks| ==> ks[i] < |fns| && r[i] == Measured(t, fns[ks[i]]))
    && (forall i, j :: 0 <= i < j < |ks| ==> ks[i] < ks[j])
    && forall k: nat :: k < |fns| ==> (Picked(ks, k) <==> IsOver(t, spans, limit, fns[k]))
  }

  predicate Picked(ks: seq<nat>, k: nat) {
    exists i :: 0 <= i < |ks| && ks[i] == k
  }

  /** The numbers `ks` moved up by one, and 0 in front if `first`. */
  function Renumbered(ks: seq<nat>, first: bool): (r: seq<nat>)
    ensures var n := if first then 1 else 0;
      |r| == n + |ks| && (first ==> r[0] == 0) && forall i :: n <= i < |r| ==> r[i] == ks[i - n] + 1
  {
    (if first then [0] else []) + seq(|ks|, i requires 0 <= i < |ks| => ks[i] + 1)
  }

  lemma RenumberedPicks(ks: seq<nat>, first: bool, k: nat)
    ensures Picked(Renumbered(ks, first), k) <==> if k == 0 then first else Picked(ks, k - 1)
  {
    var r, n := Renumbered(ks, first), if first then 1 else 0;
    hide Renumbered;
    if i :| 0 <= i < |r| && r[i] == k && k > 0 {
      assert ks[i - n] == k - 1;
    }
    if k > 0 && Picked(ks, k - 1) {
      var i :| 0 <= i < |ks| && ks[i] == k - 1;
      assert r[i + n] == k;
    }
  }

  lemma PicksCons(t: string, fns: seq<Fn>, spans: seq<Span>, limit: int, r: seq<Long>, ks: seq<nat>)
    requires InText(t, fns) && fns != [] && Picks(t, fns[1..], spans, limit, r, ks)
    ensures var over := IsOver(t, spans, limit, fns[0]);
      Picks(t, fns, spans, limit, (if over then [Measured(t, fns[0])] else []) + r, Renumbered(ks, over))
  {
    hide Measured, IsOver, Picked, Renumbered;
    var over := IsOver(t, spans, limit, fns[0]);
    forall k: nat | k < |fns| ensures Picked(Renumbered(ks, over), k) <==> IsOver(t, spans, limit, fns[k]) {
      RenumberedPicks(ks, over, k);
      assert k > 0 ==> fns[1..][k - 1] == fns[k];
    }
  }

  /** The lines come in the order of their functions, each of which is reported once if at all. */
  lemma {:induction false} ReportInOrder(t: string, fns: seq<Fn>, spans: seq<Span>, limit: int) returns (ks: seq<nat>)
    requires InText(t, fns)
    ensures Picks(t, fns, spans, limit, Report(t, fns, spans, limit), ks)
  {
    if fns == [] {
      ks := [];
    } else {
      var rest := ReportInOrder(t, fns[1..], spans, limit);
      PicksCons(t, fns, spans, limit, Report(t, fns[1..], spans, limit), rest);
      ks := Renumbered(rest, IsOver(t, spans, limit, fns[0]));
      hide Picks, Measured, IsTestCode;
    }
  }
}
