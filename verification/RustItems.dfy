/**
 The span arithmetic of scripts/fn-size.py on a blanked source: brace and attribute
 matching, the end of an item, the spans of test code, and the functions that are too long.
 */
module RustItems {
  import opened RustLexer
  import opened RustLexerLaws

  // ----- matching

  datatype Pairing = Braces | Squares | Rounds

  /** +1 for what opens, -1 for what closes; `Rounds` counts both `()` and `[]`. */
  function Weight(p: Pairing, c: char): int {
    match p
    case Braces => if c == '{' then 1 else if c == '}' then -1 else 0
    case Squares => if c == '[' then 1 else if c == ']' then -1 else 0
    case Rounds => if c == '(' || c == '[' then 1 else if c == ')' || c == ']' then -1 else 0
  }

  /** How many more are opened than closed in `t[a..b]`. */
  function Net(p: Pairing, t: string, a: nat, b: nat): int
    requires a <= b <= |t|
    decreases b - a
  {
    if a == b then 0 else Net(p, t, a, b - 1) + Weight(p, t[b - 1])
  }

  predicate ClosesAt(p: Pairing, t: string, i: nat, e: nat)
    requires i <= |t|
  {
    i < e <= |t| && Weight(p, t[e - 1]) == -1 && Net(p, t, i, e) == 0
  }

  /** The first closing position after `j`, or the end of the text. */
  function BlockEndFrom(p: Pairing, t: string, i: nat, j: nat): (e: nat)
    requires i <= j <= |t|
    ensures j <= e <= |t| && (j < |t| ==> j < e)
    ensures forall k :: j < k < e ==> !ClosesAt(p, t, i, k)
    ensures (ClosesAt(p, t, i, e) && j < e) || e == |t|
    decreases |t| - j
  {
    if j == |t| then |t|
    else if ClosesAt(p, t, i, j + 1) then j + 1
    else BlockEndFrom(p, t, i, j + 1)
  }

  /** Just past the block that opens at `i`, or the end of the text if it never closes. */
  function BlockEnd(p: Pairing, t: string, i: nat): (e: nat)
    requires i <= |t|
    ensures i <= e <= |t| && (i < |t| ==> i < e)
    ensures forall k :: i < k < e ==> !ClosesAt(p, t, i, k)
    ensures ClosesAt(p, t, i, e) || e == |t|
  {
    BlockEndFrom(p, t, i, i)
  }

  method MatchBrace(text: string, i: nat) returns (e: nat)
    requires i < |text| && text[i] == '{'
    ensures e == BlockEnd(Braces, text, i)
  {
    var depth := 0;
    for j := i to |text|
      invariant depth == Net(Braces, text, i, j)
      invariant BlockEnd(Braces, text, i) == BlockEndFrom(Braces, text, i, j)
    {
      if text[j] == '{' {
        depth := depth + 1;
      } else if text[j] == '}' {
        depth := depth - 1;
        if depth == 0 {
          return j + 1;
        }
      }
    }
    return |text|;
  }

  method AttrEnd(text: string, i: nat) returns (e: nat)
    requires i <= |text|
    ensures e == BlockEnd(Squares, text, i)
  {
    var depth := 0;
    for j := i to |text|
      invariant depth == Net(Squares, text, i, j)
      invariant BlockEnd(Squares, text, i) == BlockEndFrom(Squares, text, i, j)
    {
      if text[j] == '[' {
        depth := depth + 1;
      } else if text[j] == ']' {
        depth := depth - 1;
        if depth == 0 {
          return j + 1;
        }
      }
    }
    return |text|;
  }

  lemma {:induction false} NetSplits(p: Pairing, t: string, a: nat, b: nat, c: nat)
    requires a <= b <= c <= |t|
    ensures Net(p, t, a, c) == Net(p, t, a, b) + Net(p, t, b, c)
    decreases c - b
  {
    if b < c {
      NetSplits(p, t, a, b, c - 1);
    }
  }

  /** From an opener, everything strictly inside the block is still open. */
  lemma {:induction false} InsideIsOpen(p: Pairing, t: string, i: nat, k: nat)
    requires i < |t| && Weight(p, t[i]) == 1 && i < k < BlockEnd(p, t, i)
    ensures Net(p, t, i, k) > 0
    decreases k
  {
    if k > i + 1 {
      InsideIsOpen(p, t, i, k - 1);
      assert !ClosesAt(p, t, i, k);
    } else {
      assert Net(p, t, i, i) == 0;
    }
  }

  /** A text that has closed more than it opened since `k` has closed everything opened at `k`. */
  lemma {:induction false} MustHaveClosed(p: Pairing, t: string, k: nat, e: nat)
    requires k < |t| && Weight(p, t[k]) == 1 && k < e <= |t|
    requires Net(p, t, k, e) <= 0
    ensures BlockEnd(p, t, k) <= e
  {
    if e < BlockEnd(p, t, k) {
      InsideIsOpen(p, t, k, e);
    }
  }

  /** `t[i..e]` is balanced, and no shorter text from `i` is. */
  predicate Shortest(p: Pairing, t: string, i: nat, e: nat)
    requires i < e <= |t|
  {
    Net(p, t, i, e) == 0 && forall k :: i < k < e ==> Net(p, t, i, k) > 0
  }

  /** The block of an opener is the shortest balanced text that starts there. */
  lemma ShortestBalanced(p: Pairing, t: string, i: nat, e: nat)
    requires i < e <= |t| && Weight(p, t[i]) == 1
    ensures Shortest(p, t, i, e) <==> e == BlockEnd(p, t, i) && ClosesAt(p, t, i, e)
  {
    var b := BlockEnd(p, t, i);
    assert Net(p, t, i, i) == 0;
    assert Net(p, t, i, i + 1) == 1;
    if Shortest(p, t, i, e) {
      assert e > i + 1;
      assert Net(p, t, i, e - 1) > 0;
      assert ClosesAt(p, t, i, e);
    }
    if e == b && ClosesAt(p, t, i, e) {
      forall k | i < k < e ensures Net(p, t, i, k) > 0 {
        InsideIsOpen(p, t, i, k);
      }
    }
  }

  /** The blocks of two openers are nested or disjoint, balanced text or not. */
  lemma BlocksAreLaminar(p: Pairing, t: string, i: nat, k: nat)
    requires i < k < |t| && Weight(p, t[i]) == 1 && Weight(p, t[k]) == 1
    ensures BlockEnd(p, t, i) <= k || BlockEnd(p, t, k) <= BlockEnd(p, t, i)
  {
    var e := BlockEnd(p, t, i);
    if k < e && ClosesAt(p, t, i, e) {
      InsideIsOpen(p, t, i, k);
      NetSplits(p, t, i, k, e);
      MustHaveClosed(p, t, k, e);
    }
  }

  // ----- items

  predicate StopsAt(t: string, i: nat, j: nat)
    requires i <= |t|
  {
    i <= j < |t| && Net(Rounds, t, i, j) == 0 && (t[j] == ';' || t[j] == '{')
  }

  /** The first `;` or `{` outside round and square brackets, or the end of the text. */
  function ItemStop(t: string, i: nat, j: nat): (s: nat)
    requires i <= j <= |t|
    ensures j <= s <= |t|
    ensures forall k :: j <= k < s ==> !StopsAt(t, i, k)
    ensures s < |t| ==> StopsAt(t, i, s)
    decreases |t| - j
  {
    if j == |t| || StopsAt(t, i, j) then j else ItemStop(t, i, j + 1)
  }

  function ItemEndOf(t: string, i: nat): (e: nat)
    requires i <= |t|
    ensures i <= e <= |t| && (i < |t| ==> i < e)
  {
    var s := ItemStop(t, i, i);
    if s == |t| then |t| else if t[s] == ';' then s + 1 else BlockEnd(Braces, t, s)
  }

  method ItemEnd(text: string, i: nat) returns (e: nat)
    requires i <= |text|
    ensures e == ItemEndOf(text, i)
  {
    var depth := 0;
    for j := i to |text|
      invariant depth == Net(Rounds, text, i, j)
      invariant ItemStop(text, i, i) == ItemStop(text, i, j)
    {
      var c := text[j];
      if c == '(' || c == '[' {
        depth := depth + 1;
      } else if c == ')' || c == ']' {
        depth := depth - 1;
      } else if depth == 0 && c == ';' {
        return j + 1;
      } else if depth == 0 && c == '{' {
        e := MatchBrace(text, j);
        return;
      }
    }
    return |text|;
  }

  // ----- attributes

  predicate IsSpace(c: char) {
    c == ' ' || '\t' <= c <= '\r' || '\U{1c}' <= c <= '\U{1f}'
  }

  /** The first position from `j` on that holds no white space. */
  function SkipSpace(t: string, j: nat): (k: nat)
    requires j <= |t|
    ensures j <= k <= |t|
    ensures forall q :: j <= q < k ==> IsSpace(t[q])
    ensures k < |t| ==> !IsSpace(t[k])
    decreases |t| - j
  {
    if j == |t| || !IsSpace(t[j]) then j else SkipSpace(t, j + 1)
  }

  /** Past the attributes and white space that stand at `j`. */
  function AttrRunEnd(t: string, j: nat): (k: nat)
    requires j <= |t|
    ensures j <= k <= |t|
    decreases |t| - j
  {
    var k := SkipSpace(t, j);
    if StartsAt(t, k, '#', '[') then AttrRunEnd(t, BlockEnd(Squares, t, k)) else k
  }

  /** The loop of `test_spans` that steps over the attributes between a marker and its item. */
  method SkipAttributes(text: string, start: nat) returns (j: nat)
    requires start <= |text|
    ensures j == AttrRunEnd(text, start)
  {
    j := start;
    while true
      invariant start <= j <= |text|
      invariant AttrRunEnd(text, start) == AttrRunEnd(text, j)
      decreases |text| - j
    {
      var k := SkipSpace(text, j);
      if StartsAt(text, k, '#', '[') {
        j := AttrEnd(text, k);
      } else {
        return k;
      }
    }
  }

  /** `ats` are the attributes that follow each other from `j` on, and `k` is where the item starts. */
  predicate IsAttrRun(t: string, j: nat, ats: seq<nat>, k: nat)
    decreases |ats|
  {
    j <= |t| &&
    if ats == [] then SkipSpace(t, j) == k && !StartsAt(t, k, '#', '[')
    else ats[0] == SkipSpace(t, j) && StartsAt(t, ats[0], '#', '[')
         && IsAttrRun(t, BlockEnd(Squares, t, ats[0]), ats[1..], k)
  }

  /** Every text has a run of attributes, perhaps empty, and the loop stops right after it. */
  lemma {:induction false} RunExists(t: string, j: nat) returns (ats: seq<nat>)
    requires j <= |t|
    ensures IsAttrRun(t, j, ats, AttrRunEnd(t, j))
    decreases |t| - j
  {
    var k := SkipSpace(t, j);
    if StartsAt(t, k, '#', '[') {
      var rest := RunExists(t, BlockEnd(Squares, t, k));
      ats := [k] + rest;
      assert ats[1..] == rest;
    } else {
      ats := [];
    }
  }

  /** However many attributes stand between a marker and its item, each of them leads to the same item. */
  lemma {:induction false} MarkerCoversItem(t: string, j: nat, ats: seq<nat>, k: nat)
    requires IsAttrRun(t, j, ats, k)
    ensures AttrRunEnd(t, j) == k
    ensures forall n :: 0 <= n < |ats| ==>
      ats[n] < |t| && AttrRunEnd(t, BlockEnd(Squares, t, ats[n])) == k
    decreases |ats|
  {
    if ats != [] {
      MarkerCoversItem(t, BlockEnd(Squares, t, ats[0]), ats[1..], k);
      forall n | 0 <= n < |ats| ensures ats[n] < |t| && AttrRunEnd(t, BlockEnd(Squares, t, ats[n])) == k {
        if n > 0 {
          assert ats[n] == ats[1..][n - 1];
        }
      }
    }
  }

  // ----- test code

  /** The position after the literal `w` at `i`, or -1 when it is not there or `i` is -1. */
  function Lit(t: string, i: int, w: string): (j: int)
    requires i <= |t|
    ensures -1 <= j <= |t|
  {
    if 0 <= i && i + |w| <= |t| && t[i..i + |w|] == w then i + |w| else -1
  }

  /** The pattern `\s*` at `i`. */
  function Sp(t: string, i: int): (j: int)
    requires -1 <= i <= |t|
    ensures -1 <= j <= |t|
  {
    if i < 0 then -1 else SkipSpace(t, i)
  }

  predicate WordEnds(t: string, i: int)
    requires i <= |t|
  {
    i >= 0 && (i == |t| || !IsIdent(t[i]))
  }

  /** `#[cfg(test)]`, or `#[cfg(all(test` and a word boundary. */
  predicate IsTestCfg(t: string, a: nat)
    requires a <= |t|
  {
    var p := Lit(t, Sp(t, Lit(t, Sp(t, Lit(t, a, "#[")), "cfg")), "(");
    var plain := Lit(t, Sp(t, p), "test");
    var all := Lit(t, Sp(t, Lit(t, Sp(t, Lit(t, Sp(t, p), "all")), "(")), "test");
    Lit(t, Sp(t, plain), ")") >= 0 || WordEnds(t, all)
  }

  predicate IsPathChar(c: char) {
    'a' <= c <= 'z' || 'A' <= c <= 'Z' || c == '_' || c == ':'
  }

  /** `#[test]` or `#[a::b::test]`. */
  predicate IsTestAttr(t: string, a: nat)
    requires a <= |t|
  {
    var p := Sp(t, Lit(t, a, "#["));
    && p >= 0
    && (|| WordEnds(t, Lit(t, p, "test"))
        || exists q :: p + 3 <= q <= |t| && t[q - 2..q] == "::" && (forall k :: p <= k < q ==> IsPathChar(t[k]))
                       && WordEnds(t, Lit(t, q, "test")))
  }

  predicate IsMarker(t: string, a: nat) {
    StartsAt(t, a, '#', '[') && (IsTestCfg(t, a) || IsTestAttr(t, a))
  }

  datatype Span = Span(start: nat, end: nat) {
    predicate Covers(p: nat) {
      start <= p < end
    }
  }

  function SpanOf(t: string, a: nat): Span
    requires a <= |t|
  {
    Span(a, ItemEndOf(t, AttrRunEnd(t, BlockEnd(Squares, t, a))))
  }

  /** The spans of the test markers from position `a` on. */
  function SpansFrom(t: string, a: nat): seq<Span>
    requires a <= |t|
    decreases |t| - a
  {
    if a == |t| then []
    else (if IsMarker(t, a) then [SpanOf(t, a)] else []) + SpansFrom(t, a + 1)
  }

  /** `test_spans`, without the names of the modules that are test code as a whole. */
  method TestSpans(text: string) returns (spans: seq<Span>)
    ensures spans == SpansFrom(text, 0)
  {
    hide IsTestCfg, IsTestAttr;
    spans := [];
    for a := 0 to |text|
      invariant spans + SpansFrom(text, a) == SpansFrom(text, 0)
    {
      ghost var was := spans;
      if StartsAt(text, a, '#', '[') && (IsTestCfg(text, a) || IsTestAttr(text, a)) {
        var j := AttrEnd(text, a);
        j := SkipAttributes(text, j);
        var end := ItemEnd(text, j);
        spans := spans + [Span(a, end)];
      }
      assert spans == was + if IsMarker(text, a) then [SpanOf(text, a)] else [];
    }
  }

  /** A span is reported for every marker and for nothing else. */
  lemma {:induction false} SpansExact(t: string, a: nat, s: Span)
    requires a <= |t|
    ensures s in SpansFrom(t, a) <==> a <= s.start < |t| && IsMarker(t, s.start) && s == SpanOf(t, s.start)
    decreases |t| - a
  {
    hide IsMarker, SpanOf;
    if a < |t| {
      SpanStart(t, a);
      SpansExact(t, a + 1, s);
    }
  }

  lemma SpanStart(t: string, a: nat)
    requires a <= |t|
    ensures SpanOf(t, a).start == a
  {
  }

  /** Markers on one item give spans that end together, in whatever order the attributes stand. */
  lemma MarkersShareTheItem(t: string, a: nat, ats: seq<nat>, n: nat)
    requires a <= |t| && n < |ats|
    requires IsAttrRun(t, BlockEnd(Squares, t, a), ats, AttrRunEnd(t, BlockEnd(Squares, t, a)))
    ensures ats[n] < |t| && SpanOf(t, ats[n]).end == SpanOf(t, a).end
  {
    MarkerCoversItem(t, BlockEnd(Squares, t, a), ats, AttrRunEnd(t, BlockEnd(Squares, t, a)));
  }

  // ----- functions

  /** The position after the identifier that starts at `i`. */
  function IdentEnd(t: string, i: nat): (e: nat)
    requires i <= |t|
    ensures i <= e <= |t|
    ensures forall k :: i <= k < e ==> IsIdent(t[k])
    decreases |t| - i
  {
    if i < |t| && IsIdent(t[i]) then IdentEnd(t, i + 1) else i
  }

  datatype Header = NoHeader | Header(name: nat, end: nat)

  /** The pattern `\bfn\s+([A-Za-z_][A-Za-z0-9_]*)` at `p`. */
  function FnAt(t: string, p: nat): (h: Header)
    requires p <= |t|
    ensures h.Header? ==> p < h.name < h.end <= |t|
  {
    if (p > 0 && IsIdent(t[p - 1])) || !StartsAt(t, p, 'f', 'n') then NoHeader
    else
      var s := SkipSpace(t, p + 2);
      if s == p + 2 || s == |t| || !IsIdent(t[s]) || '0' <= t[s] <= '9' then NoHeader
      else Header(s, IdentEnd(t, s))
  }

  datatype Fn = Fn(name: string, start: nat, end: nat)

  /** The functions with a body from position `p` on, as `finditer` meets them. */
  function FnsFrom(t: string, p: nat): (r: seq<Fn>)
    requires p <= |t|
    ensures forall f :: f in r ==> p <= f.start < f.end <= |t| && t[f.end - 1] == '}'
    decreases |t| - p
  {
    if p == |t| then []
    else match FnAt(t, p)
      case NoHeader => FnsFrom(t, p + 1)
      case Header(s, e) =>
        var body := ItemEndOf(t, e);
        (if t[body - 1] == '}' then [Fn(t[s..e], p, body)] else []) + FnsFrom(t, e)
  }

  /** A match of the pattern that begins in no earlier match taken: the ones that `finditer` yields. */
  predicate Taken(t: string, p: nat)
    decreases p
  {
    p <= |t| && FnAt(t, p).Header? && forall q: nat :: q < p && Taken(t, q) ==> FnAt(t, q).end <= p
  }

  /** A function with a body: its header is taken, and its item ends in a brace. */
  predicate IsListed(t: string, f: Fn) {
    && Taken(t, f.start)
    && var h := FnAt(t, f.start);
       && f.name == t[h.name..h.end]
       && f.end == ItemEndOf(t, h.end)
       && t[f.end - 1] == '}'
  }

  lemma {:induction false} FnsFromExact(t: string, p: nat, f: Fn)
    requires p <= |t| && forall q: nat :: q < p && Taken(t, q) ==> FnAt(t, q).end <= p
    ensures f in FnsFrom(t, p) <==> p <= f.start && IsListed(t, f)
    decreases |t| - p
  {
    hide FnAt, ItemEndOf, FnsFrom;
    if p == |t| {
      FnsNone(t);
    } else {
      FnsStep(t, p);
      match FnAt(t, p)
      case NoHeader =>
        FnsFromExact(t, p + 1, f);
      case Header(s, e) =>
        assert Taken(t, p);
        assert forall q: nat :: p < q && Taken(t, q) ==> e <= q;
        FnsFromExact(t, e, f);
        var body := ItemEndOf(t, e);
        var here := if t[body - 1] == '}' then [Fn(t[s..e], p, body)] else [];
        assert FnsFrom(t, p) == here + FnsFrom(t, e);
        assert f in here <==> f.start == p && IsListed(t, f);
        assert IsListed(t, f) && p <= f.start ==> f.start == p || e <= f.start;
    }
  }

  /** The list holds exactly the functions with a body, whose headers do not overlap. */
  lemma FunctionsExact(t: string, f: Fn)
    ensures f in FnsFrom(t, 0) <==> IsListed(t, f)
  {
    FnsFromExact(t, 0, f);
  }

  /** They come in the order of the text, each once. */
  lemma {:induction false} FunctionsAscend(t: string, p: nat, i: nat, j: nat)
    requires p <= |t| && i < j < |FnsFrom(t, p)|
    ensures FnsFrom(t, p)[i].start < FnsFrom(t, p)[j].start
    decreases |t| - p
  {
    hide FnAt, ItemEndOf;
    FnsStep(t, p);
    match FnAt(t, p)
    case NoHeader =>
      FunctionsAscend(t, p + 1, i, j);
    case Header(s, e) =>
      var rest := FnsFrom(t, e);
      var n := |FnsFrom(t, p)| - |rest|;
      if i >= n {
        FunctionsAscend(t, e, i - n, j - n);
      } else {
        assert FnsFrom(t, p)[j] == rest[j - n] && rest[j - n] in rest;
      }
  }

  lemma InHeader(t: string, q: nat, p: nat)
    requires q < p <= |t| && FnAt(t, q).Header? && FnAt(t, p).Header? && p < FnAt(t, q).end
    ensures FnAt(t, q).name == p
  {
  }

  /** A match of the pattern is left out only when its `fn` is read as the name of the match before it. */
  lemma TakenIff(t: string, p: nat)
    requires p <= |t| && FnAt(t, p).Header?
    ensures Taken(t, p) <==> !exists q: nat :: q < p && Taken(t, q) && FnAt(t, q).name == p
  {
    hide IsListed;
    forall q: nat | q < p && Taken(t, q) && FnAt(t, q).end > p ensures FnAt(t, q).name == p {
      InHeader(t, q, p);
    }
  }

  lemma FnsStep(t: string, p: nat)
    requires p < |t|
    ensures match FnAt(t, p)
      case NoHeader => FnsFrom(t, p) == FnsFrom(t, p + 1)
      case Header(s, e) =>
        var body := ItemEndOf(t, e);
        body > 0 && FnsFrom(t, p) == (if t[body - 1] == '}' then [Fn(t[s..e], p, body)] else []) + FnsFrom(t, e)
  {
    hide FnAt, ItemEndOf;
  }

  lemma FnsNone(t: string)
    ensures FnsFrom(t, |t|) == []
  {
  }

  method Functions(text: string) returns (fns: seq<Fn>)
    ensures fns == FnsFrom(text, 0)
  {
    hide FnsFrom, FnAt, ItemEndOf;
    fns := [];
    var p := 0;
    while p < |text|
      invariant p <= |text|
      invariant fns + FnsFrom(text, p) == FnsFrom(text, 0)
      decreases |text| - p
    {
      FnsStep(text, p);
      match FnAt(text, p)
      case NoHeader =>
        p := p + 1;
      case Header(s, e) =>
        var body := ItemEnd(text, e);
        if text[body - 1] == '}' {
          fns := fns + [Fn(text[s..e], p, body)];
        }
        p := e;
    }
    FnsNone(text);
  }

  /**
   What `functions` takes for a body: the block at the first `{` outside brackets, or, when
   that block or the header never ends, the rest of a text whose last character is a brace.
   */
  lemma BodyIff(t: string, e: nat)
    requires e < |t|
    ensures var stop := ItemStop(t, e, e);
      t[ItemEndOf(t, e) - 1] == '}' <==>
        || (stop < |t| && t[stop] == '{' && ClosesAt(Braces, t, stop, BlockEnd(Braces, t, stop)))
        || ((stop == |t| || (t[stop] == '{' && BlockEnd(Braces, t, stop) == |t|)) && t[|t| - 1] == '}')
  {
  }

  // ----- functions over the limit

  datatype Long = Long(lines: int, name: string, first: nat)

  predicate IsTestCode(spans: seq<Span>, f: Fn) {
    exists s :: s in spans && s.Covers(f.start)
  }

  function Measured(t: string, f: Fn): Long
    requires f.start < f.end <= |t|
  {
    Long(Newlines(t, 0, f.end - 1) - Newlines(t, 0, f.start) + 1, f.name, Newlines(t, 0, f.start) + 1)
  }

  predicate InText(t: string, fns: seq<Fn>) {
    forall f :: f in fns ==> f.start < f.end <= |t| && t[f.end - 1] == '}'
  }

  function Report(t: string, fns: seq<Fn>, spans: seq<Span>, limit: int): seq<Long>
    requires InText(t, fns)
  {
    if fns == [] then []
    else
      var f := fns[0];
      (if !IsTestCode(spans, f) && Measured(t, f).lines > limit then [Measured(t, f)] else [])
      + Report(t, fns[1..], spans, limit)
  }

  method LongFunctions(text: string, spans: seq<Span>, limit: int) returns (report: seq<Long>)
    ensures report == Report(text, FnsFrom(text, 0), spans, limit)
  {
    hide Report, IsTestCode, Newlines, FnsFrom;
    var fns := Functions(text);
    report := [];
    var n := 0;
    assert fns[0..] == fns;
    while n < |fns|
      invariant 0 <= n <= |fns|
      invariant report + Report(text, fns[n..], spans, limit) == Report(text, fns, spans, limit)
    {
      var f := fns[n];
      ReportStep(text, fns, spans, limit, n);
      if !IsTestCode(spans, f) {
        var first := Newlines(text, 0, f.start) + 1;
        var last := Newlines(text, 0, f.end - 1) + 1;
        if last - first + 1 > limit {
          report := report + [Long(last - first + 1, f.name, first)];
        }
      }
      n := n + 1;
    }
    ReportNothing(text, fns[n..], spans, limit);
  }

  lemma ReportNothing(t: string, fns: seq<Fn>, spans: seq<Span>, limit: int)
    requires fns == []
    ensures Report(t, fns, spans, limit) == []
  {
  }

  lemma ReportStep(t: string, fns: seq<Fn>, spans: seq<Span>, limit: int, n: nat)
    requires InText(t, fns) && n < |fns|
    ensures Report(t, fns[n..], spans, limit) ==
      (if !IsTestCode(spans, fns[n]) && Measured(t, fns[n]).lines > limit then [Measured(t, fns[n])] else [])
      + Report(t, fns[n + 1..], spans, limit)
  {
    assert fns[n..][1..] == fns[n + 1..];
  }

  lemma {:induction false} NewlinesSplit(t: string, a: nat, b: nat, c: nat)
    requires a <= b <= c <= |t|
    ensures Newlines(t, a, c) == Newlines(t, a, b) + Newlines(t, b, c)
    decreases c - b
  {
    if b < c {
      NewlinesSplit(t, a, b, c - 1);
    }
  }

  /** The line count of a function is one more than the newlines from `fn` to its closing brace. */
  lemma MeasuredLines(t: string, f: Fn)
    requires f.start < f.end <= |t| && t[f.end - 1] == '}'
    ensures Measured(t, f).lines == Newlines(t, f.start, f.end) + 1
  {
    NewlinesSplit(t, 0, f.start, f.end - 1);
  }

  /** The report is of the functions outside all test spans with at least `limit` newlines, and of no others. */
  lemma {:induction false} ReportExact(t: string, fns: seq<Fn>, spans: seq<Span>, limit: int, r: Long)
    requires InText(t, fns)
    ensures r in Report(t, fns, spans, limit) <==>
      exists f :: f in fns && !IsTestCode(spans, f) && Newlines(t, f.start, f.end) >= limit && r == Measured(t, f)
  {
    hide Measured, IsTestCode, Newlines;
    if fns != [] {
      MeasuredLines(t, fns[0]);
      ReportExact(t, fns[1..], spans, limit, r);
      assert fns == [fns[0]] + fns[1..];
    }
  }

  function Above(rs: seq<Long>, limit: int): seq<Long> {
    if rs == [] then [] else (if rs[0].lines > limit then [rs[0]] else []) + Above(rs[1..], limit)
  }

  lemma AboveCons(r: Long, rs: seq<Long>, limit: int)
    ensures Above([r] + rs, limit) == (if r.lines > limit then [r] else []) + Above(rs, limit)
  {
    assert ([r] + rs)[1..] == rs;
  }

  /** Raising the limit strikes from the report what is no longer above it, and keeps the order. */
  lemma {:induction false} HigherLimit(t: string, fns: seq<Fn>, spans: seq<Span>, low: int, high: int)
    requires InText(t, fns) && low <= high
    ensures Report(t, fns, spans, high) == Above(Report(t, fns, spans, low), high)
  {
    hide Measured, IsTestCode;
    if fns != [] {
      HigherLimit(t, fns[1..], spans, low, high);
      var rest := Report(t, fns[1..], spans, low);
      AboveCons(Measured(t, fns[0]), rest, high);
      assert [] + rest == rest && [] + Above(rest, high) == Above(rest, high);
    }
  }

  /** Reported line numbers are those of the source file, when no char literal holds a raw newline. */
  lemma SourceLines(src: string, f: Fn)
    requires !EatsNewline(false, src) && f.start < f.end <= |src|
    ensures |Blanked(false, src)| == |src| && Measured(Blanked(false, src), f) == Measured(src, f)
  {
    LineNumbersKept(src, 0, f.start);
    LineNumbersKept(src, 0, f.end - 1);
  }

  // ----- one file

  /** `#![cfg(test)]`. */
  predicate IsInnerTestCfg(t: string, a: nat)
    requires a <= |t|
  {
    var arg := Sp(t, Lit(t, Sp(t, Lit(t, Sp(t, Lit(t, a, "#![")), "cfg")), "("));
    Lit(t, Sp(t, Lit(t, Sp(t, Lit(t, arg, "test")), ")")), "]") >= 0
  }

  predicate IsTestFile(t: string) {
    exists a :: 0 <= a <= |t| && IsInnerTestCfg(t, a)
  }

  /** What is reported for a source file that is not skipped for its marker. */
  method Measure(src: string, limit: int) returns (report: seq<Long>)
    ensures var text := Blanked(false, src);
      report == if IsTestFile(text) then [] else Report(text, FnsFrom(text, 0), SpansFrom(text, 0), limit)
  {
    hide IsTestFile, Blanked, Report, FnsFrom, SpansFrom;
    var text := Blank(src);
    if IsTestFile(text) {
      return [];
    }
    var spans := TestSpans(text);
    report := LongFunctions(text, spans, limit);
  }

  /**
   In terms of the source file: reported are exactly the functions outside the test spans that
   hold at least `limit` newlines of the source, each with its line in the source.
   */
  lemma ReportedOnSource(src: string, limit: int, r: Long)
    requires !EatsNewline(false, src)
    ensures |Blanked(false, src)| == |src|
    ensures var text := Blanked(false, src);
      r in Report(text, FnsFrom(text, 0), SpansFrom(text, 0), limit) <==>
      exists f :: f in FnsFrom(text, 0) && !IsTestCode(SpansFrom(text, 0), f)
                  && Newlines(src, f.start, f.end) >= limit && r == Measured(src, f)
  {
    hide Blanked, Report, FnsFrom, SpansFrom, IsTestCode, Newlines, Measured, EatsNewline;
    BlankedShape(false, src);
    var text := Blanked(false, src);
    ReportExact(text, FnsFrom(text, 0), SpansFrom(text, 0), limit, r);
    forall f | f in FnsFrom(text, 0)
      ensures Newlines(text, f.start, f.end) == Newlines(src, f.start, f.end) && Measured(text, f) == Measured(src, f) {
      LineNumbersKept(src, f.start, f.end);
      SourceLines(src, f);
    }
  }
}
