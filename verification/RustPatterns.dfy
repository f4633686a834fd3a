/**
 The regular expressions of scripts/fn-size.py as expressions, and what it means to match one.
 `RustItems` recognizes the same texts position by position.
 */
module RustPatterns {
  import opened RustLexer
  import opened RustTokens
  import opened RustItems

  /** White space, `\s` in a pattern. */
  const WHITE := " \t\n\U{b}\U{c}\r\U{1c}\U{1d}\U{1e}\U{1f}"

  datatype Pattern =
    | Exactly(w: string)
    | Star(cs: string)                     // any number of these characters
    | Plus(cs: string)                     // at least one of them
    | Edge                                 // `\b`
    | Then(first: Pattern, next: Pattern)
    | Or(one: Pattern, other: Pattern)

  predicate WordAt(t: string, i: int) {
    0 <= i < |t| && t[i] in WORD
  }

  /** The pattern matches `t[i..j]`. */
  ghost predicate Matches(p: Pattern, t: string, i: nat, j: nat) {
    && i <= j <= |t|
    && match p
       case Exactly(w) => t[i..j] == w
       case Star(cs) => forall k :: i <= k < j ==> t[k] in cs
       case Plus(cs) => i < j && forall k :: i <= k < j ==> t[k] in cs
       case Edge => i == j && WordAt(t, i - 1) != WordAt(t, i)
       case Then(first, next) => exists m: nat :: Matches(first, t, i, m) && Matches(next, t, m, j)
       case Or(one, other) => Matches(one, t, i, j) || Matches(other, t, i, j)
  }

  ghost predicate MatchesAt(p: Pattern, t: string, i: nat) {
    exists j :: Matches(p, t, i, j)
  }

  function After(w: string, next: Pattern): Pattern {
    Then(Exactly(w), next)
  }

  function Spaced(next: Pattern): Pattern {
    Then(Star(WHITE), next)
  }

  /** `test\b` */
  const TEST_WORD := After("test", Edge)

  /** `#\[\s*cfg\s*\(\s*(?:test\s*\)|all\s*\(\s*test\b)` */
  const TEST_CFG :=
    After("#[", Spaced(After("cfg", Spaced(After("(", Spaced(
      Or(After("test", Spaced(Exactly(")"))),
         After("all", Spaced(After("(", Spaced(TEST_WORD)))))))))))

  const PATH_CHARS := UPPER + LOWER + "_:"

  /** `#\[\s*(?:[A-Za-z_:]+::)?test\b` */
  const TEST_ATTR :=
    After("#[", Spaced(Or(Then(Plus(PATH_CHARS), After("::", TEST_WORD)), TEST_WORD)))

  /** `#!\[\s*cfg\s*\(\s*test\s*\)\s*\]` */
  const INNER_TEST_CFG :=
    After("#![", Spaced(After("cfg", Spaced(After("(", Spaced(
      After("test", Spaced(After(")", Spaced(Exactly("]")))))))))))

  /** `\bfn\s+`, the pattern of a function up to its name. */
  const FN_HEAD := Then(Edge, After("fn", Plus(WHITE)))

  /** `[A-Za-z_]`, the first character of a name. */
  const NAME_START := UPPER + LOWER + "_"

  // ----- recognizing them

  lemma ThenSplits(first: Pattern, next: Pattern, t: string, i: nat, j: nat) returns (m: nat)
    requires Matches(Then(first, next), t, i, j)
    ensures Matches(first, t, i, m) && Matches(next, t, m, j)
  {
    m :| Matches(first, t, i, m) && Matches(next, t, m, j);
  }

  lemma ThenJoins(first: Pattern, next: Pattern, t: string, i: nat, m: nat, j: nat)
    requires Matches(first, t, i, m) && Matches(next, t, m, j)
    ensures Matches(Then(first, next), t, i, j)
  {
  }

  lemma WhiteIff(c: char)
    ensures c in WHITE <==> IsSpace(c)
  {
    assert WHITE[0] == ' ' && WHITE[1] == '\t' && WHITE[2] == '\n' && WHITE[3] == '\U{b}' && WHITE[4] == '\U{c}';
    assert WHITE[5] == '\r' && WHITE[6] == '\U{1c}' && WHITE[7] == '\U{1d}';
    assert WHITE[8] == '\U{1e}' && WHITE[9] == '\U{1f}';
  }

  /** Whatever the pattern matches does not begin with white space. */
  predicate Solid(p: Pattern) {
    match p
    case Exactly(w) => w != "" && w[0] !in WHITE
    case Plus(cs) => forall k :: 0 <= k < |cs| ==> cs[k] !in WHITE
    case Then(first, _) => Solid(first)
    case Or(one, other) => Solid(one) && Solid(other)
    case _ => false
  }

  lemma {:induction false} SolidStart(p: Pattern, t: string, i: nat, j: nat)
    requires Solid(p) && Matches(p, t, i, j)
    ensures i < |t| && t[i] !in WHITE
  {
    hide WHITE;
    match p
    case Exactly(w) => assert t[i..j][0] == t[i];
    case Plus(cs) =>
    case Then(first, next) =>
      var m: nat :| Matches(first, t, i, m) && Matches(next, t, m, j);
      SolidStart(first, t, i, m);
    case Or(one, other) =>
      if Matches(one, t, i, j) {
        SolidStart(one, t, i, j);
      } else {
        SolidStart(other, t, i, j);
      }
    case _ =>
  }

  lemma AtWord(w: string, t: string, i: nat)
    requires i <= |t|
    ensures MatchesAt(Exactly(w), t, i) <==> Lit(t, i, w) >= 0
  {
    if Lit(t, i, w) >= 0 {
      assert Matches(Exactly(w), t, i, i + |w|);
    }
  }

  lemma AtAfter(w: string, next: Pattern, t: string, i: nat)
    requires i <= |t|
    ensures MatchesAt(After(w, next), t, i) <==> Lit(t, i, w) >= 0 && MatchesAt(next, t, Lit(t, i, w))
  {
    if j :| Matches(After(w, next), t, i, j) {
      var m := ThenSplits(Exactly(w), next, t, i, j);
    }
    if Lit(t, i, w) >= 0 && MatchesAt(next, t, Lit(t, i, w)) {
      var j :| Matches(next, t, i + |w|, j);
      assert Matches(Exactly(w), t, i, i + |w|);
      ThenJoins(Exactly(w), next, t, i, i + |w|, j);
      assert Matches(After(w, next), t, i, j);
    }
  }

  /** White space is matched to its end when the rest cannot begin with any. */
  lemma AtSpaced(next: Pattern, t: string, i: nat)
    requires i <= |t| && Solid(next)
    ensures MatchesAt(Spaced(next), t, i) <==> MatchesAt(next, t, SkipSpace(t, i))
  {
    hide WHITE, Solid;
    var k := SkipSpace(t, i);
    forall q | 0 <= q < |t| ensures t[q] in WHITE <==> IsSpace(t[q]) {
      WhiteIff(t[q]);
    }
    if j :| Matches(Spaced(next), t, i, j) {
      var m := ThenSplits(Star(WHITE), next, t, i, j);
      SolidStart(next, t, m, j);
      assert m == k;
    }
    if j :| Matches(next, t, k, j) {
      assert Matches(Star(WHITE), t, i, k);
      ThenJoins(Star(WHITE), next, t, i, k, j);
      assert Matches(Spaced(next), t, i, j);
    }
  }

  lemma OrJoins(one: Pattern, other: Pattern, t: string, i: nat, j: nat)
    requires Matches(one, t, i, j) || Matches(other, t, i, j)
    ensures Matches(Or(one, other), t, i, j)
  {
  }

  lemma OrSplits(one: Pattern, other: Pattern, t: string, i: nat, j: nat)
    requires Matches(Or(one, other), t, i, j)
    ensures Matches(one, t, i, j) || Matches(other, t, i, j)
  {
  }

  lemma AtOr(one: Pattern, other: Pattern, t: string, i: nat)
    ensures MatchesAt(Or(one, other), t, i) <==> MatchesAt(one, t, i) || MatchesAt(other, t, i)
  {
    if j: nat :| Matches(one, t, i, j) {
      OrJoins(one, other, t, i, j);
    }
    if j: nat :| Matches(other, t, i, j) {
      OrJoins(one, other, t, i, j);
    }
    if j: nat :| Matches(Or(one, other), t, i, j) {
      OrSplits(one, other, t, i, j);
    }
  }

  lemma AtTestWord(t: string, i: nat)
    requires i <= |t|
    ensures MatchesAt(TEST_WORD, t, i) <==> WordEnds(t, Lit(t, i, "test"))
  {
    AtAfter("test", Edge, t, i);
    var j := Lit(t, i, "test");
    if j >= 0 {
      assert t[i..j][3] == t[j - 1] == 't';
      WordIff('t');
      if j < |t| {
        WordIff(t[j]);
      }
      hide WORD;
      assert MatchesAt(Edge, t, j) <==> Matches(Edge, t, j, j);
    }
  }

  lemma AtPlainTest(t: string, k: nat)
    requires k <= |t|
    ensures MatchesAt(After("test", Spaced(Exactly(")"))), t, k) <==> Lit(t, Sp(t, Lit(t, k, "test")), ")") >= 0
  {
    hide Matches, MatchesAt;
    AtAfter("test", Spaced(Exactly(")")), t, k);
    var x := Lit(t, k, "test");
    if x >= 0 {
      AtSpaced(Exactly(")"), t, x);
      AtWord(")", t, Sp(t, x));
    }
  }

  lemma AtAllTest(t: string, k: nat)
    requires k <= |t|
    ensures MatchesAt(After("all", Spaced(After("(", Spaced(TEST_WORD)))), t, k)
      <==> WordEnds(t, Lit(t, Sp(t, Lit(t, Sp(t, Lit(t, k, "all")), "(")), "test"))
  {
    assert Solid(TEST_WORD);
    hide Matches, MatchesAt, TEST_WORD;
    AtAfter("all", Spaced(After("(", Spaced(TEST_WORD))), t, k);
    var y := Lit(t, k, "all");
    if y >= 0 {
      AtSpaced(After("(", Spaced(TEST_WORD)), t, y);
      AtAfter("(", Spaced(TEST_WORD), t, Sp(t, y));
      var z := Lit(t, Sp(t, y), "(");
      if z >= 0 {
        AtSpaced(TEST_WORD, t, z);
        AtTestWord(t, Sp(t, z));
      }
    }
  }

  lemma TestCfgIff(t: string, a: nat)
    requires a <= |t|
    ensures IsTestCfg(t, a) <==> MatchesAt(TEST_CFG, t, a)
  {
    var plain, all := After("test", Spaced(Exactly(")"))), After("all", Spaced(After("(", Spaced(TEST_WORD))));
    assert TEST_CFG == After("#[", Spaced(After("cfg", Spaced(After("(", Spaced(Or(plain, all)))))));
    assert Solid(Or(plain, all));
    hide Matches, MatchesAt, TEST_CFG, TEST_WORD, WordEnds, Solid;
    AtHead("#[", "cfg", Or(plain, all), t, a);
    var p := Lit(t, Sp(t, Lit(t, Sp(t, Lit(t, a, "#[")), "cfg")), "(");
    if p >= 0 {
      AtOr(plain, all, t, Sp(t, p));
      AtPlainTest(t, Sp(t, p));
      AtAllTest(t, Sp(t, p));
    }
  }

  /** The head that the two `cfg` patterns share. */
  lemma AtHead(open: string, w: string, next: Pattern, t: string, a: nat)
    requires a <= |t| && Solid(next) && w != "" && w[0] !in WHITE
    ensures var p := Lit(t, Sp(t, Lit(t, Sp(t, Lit(t, a, open)), w)), "(");
      MatchesAt(After(open, Spaced(After(w, Spaced(After("(", Spaced(next)))))), t, a)
      <==> p >= 0 && MatchesAt(next, t, Sp(t, p))
  {
    hide Matches, MatchesAt;
    var fourth := After("(", Spaced(next));
    var second := After(w, Spaced(fourth));
    AtAfter(open, Spaced(second), t, a);
    var i := Lit(t, a, open);
    if i >= 0 {
      AtSpaced(second, t, i);
      AtAfter(w, Spaced(fourth), t, Sp(t, i));
      var j := Lit(t, Sp(t, i), w);
      if j >= 0 {
        AtSpaced(fourth, t, j);
        AtAfter("(", Spaced(next), t, Sp(t, j));
        var p := Lit(t, Sp(t, j), "(");
        if p >= 0 {
          AtSpaced(next, t, p);
        }
      }
    }
  }

  lemma InnerTestCfgIff(t: string, a: nat)
    requires a <= |t|
    ensures IsInnerTestCfg(t, a) <==> MatchesAt(INNER_TEST_CFG, t, a)
  {
    var last := After(")", Spaced(Exactly("]")));
    var next := After("test", Spaced(last));
    assert INNER_TEST_CFG == After("#![", Spaced(After("cfg", Spaced(After("(", Spaced(next))))));
    assert Solid(next) && Solid(last) && Solid(Exactly("]"));
    hide Matches, MatchesAt, INNER_TEST_CFG, Solid;
    AtHead("#![", "cfg", next, t, a);
    var p := Lit(t, Sp(t, Lit(t, Sp(t, Lit(t, a, "#![")), "cfg")), "(");
    if p >= 0 {
      AtAfter("test", Spaced(last), t, Sp(t, p));
      var x := Lit(t, Sp(t, p), "test");
      if x >= 0 {
        AtSpaced(last, t, x);
        AtAfter(")", Spaced(Exactly("]")), t, Sp(t, x));
        var y := Lit(t, Sp(t, x), ")");
        if y >= 0 {
          AtSpaced(Exactly("]"), t, y);
          AtWord("]", t, Sp(t, y));
        }
      }
    }
  }

  /** A file is test code as a whole when the inner attribute stands anywhere in it. */
  lemma TestFileIff(t: string)
    ensures IsTestFile(t) <==> exists a: nat :: MatchesAt(INNER_TEST_CFG, t, a)
  {
    hide IsInnerTestCfg, INNER_TEST_CFG;
    if a: nat :| MatchesAt(INNER_TEST_CFG, t, a) {
      var j: nat :| Matches(INNER_TEST_CFG, t, a, j);
      InnerTestCfgIff(t, a);
    }
    if a :| 0 <= a <= |t| && IsInnerTestCfg(t, a) {
      InnerTestCfgIff(t, a);
    }
  }

  lemma PathCharIff(c: char)
    ensures c in PATH_CHARS <==> IsPathChar(c)
    ensures c in PATH_CHARS ==> c !in WHITE
  {
    hide UPPER, LOWER;
    UpperIff(c);
    LowerIff(c);
    WhiteIff(c);
    hide WHITE;
  }

  predicate PathEnds(t: string, p: nat, q: int) {
    p + 3 <= q <= |t| && t[q - 2..q] == "::" && (forall k :: p <= k < q ==> IsPathChar(t[k]))
  }

  lemma PlusMeans(cs: string, t: string, i: nat, j: nat)
    ensures Matches(Plus(cs), t, i, j) <==> i < j <= |t| && forall k :: i <= k < j ==> t[k] in cs
  {
  }

  lemma TwoColons(t: string, m: nat)
    requires m <= |t|
    ensures Lit(t, m, "::") >= 0 <==> m + 2 <= |t| && t[m..m + 2] == "::"
    ensures m + 2 <= |t| && t[m..m + 2] == "::" ==> t[m] == ':' && t[m + 1] == ':'
  {
    if m + 2 <= |t| {
      assert t[m] == t[m..m + 2][0] && t[m + 1] == t[m..m + 2][1];
    }
  }

  lemma ColonsIff(t: string, p: nat, m: nat)
    requires p <= m <= |t|
    ensures Matches(Plus(PATH_CHARS), t, p, m) && Lit(t, m, "::") >= 0 <==> PathEnds(t, p, m + 2)
  {
    assert IsPathChar(':');
    hide PATH_CHARS, Matches, Lit, IsPathChar;
    PlusMeans(PATH_CHARS, t, p, m);
    TwoColons(t, m);
    forall k | 0 <= k < |t| ensures t[k] in PATH_CHARS <==> IsPathChar(t[k]) {
      PathCharIff(t[k]);
    }
  }

  /** A path before `test`: its characters, the last two of them colons. */
  lemma AtPath(t: string, p: nat)
    requires p <= |t|
    ensures MatchesAt(Then(Plus(PATH_CHARS), After("::", TEST_WORD)), t, p)
      <==> exists q :: PathEnds(t, p, q) && WordEnds(t, Lit(t, q, "test"))
  {
    hide PATH_CHARS, TEST_WORD, WordEnds, Matches;
    var path, tail := Plus(PATH_CHARS), After("::", TEST_WORD);
    if j: nat :| Matches(Then(path, tail), t, p, j) {
      var m := ThenSplits(path, tail, t, p, j);
      MatchesWithin(path, t, p, m);
      AtAfter("::", TEST_WORD, t, m);
      AtTestWord(t, m + 2);
      ColonsIff(t, p, m);
      assert PathEnds(t, p, m + 2);
    }
    if q :| PathEnds(t, p, q) && WordEnds(t, Lit(t, q, "test")) {
      ColonsIff(t, p, q - 2);
      AtTestWord(t, q);
      AtAfter("::", TEST_WORD, t, q - 2);
      var j: nat :| Matches(tail, t, q - 2, j);
      ThenJoins(path, tail, t, p, q - 2, j);
    }
  }

  lemma MatchesWithin(p: Pattern, t: string, i: nat, j: nat)
    requires Matches(p, t, i, j)
    ensures i <= j <= |t|
  {
  }

  lemma TestAttrIff(t: string, a: nat)
    requires a <= |t|
    ensures IsTestAttr(t, a) <==> MatchesAt(TEST_ATTR, t, a)
  {
    var path := Then(Plus(PATH_CHARS), After("::", TEST_WORD));
    forall k | 0 <= k < |PATH_CHARS| ensures PATH_CHARS[k] !in WHITE {
      PathCharIff(PATH_CHARS[k]);
    }
    assert Solid(Plus(PATH_CHARS)) && Solid(path) && Solid(TEST_WORD) && Solid(Or(path, TEST_WORD));
    hide PATH_CHARS, Solid, Matches, MatchesAt, TEST_WORD;
    AtAfter("#[", Spaced(Or(path, TEST_WORD)), t, a);
    var i := Lit(t, a, "#[");
    if i >= 0 {
      AtSpaced(Or(path, TEST_WORD), t, i);
      var p := Sp(t, i);
      AtOr(path, TEST_WORD, t, p);
      AtPath(t, p);
      AtTestWord(t, p);
      assert (exists q :: PathEnds(t, p, q) && WordEnds(t, Lit(t, q, "test")))
        <==> (exists q :: p + 3 <= q <= |t| && t[q - 2..q] == "::" && (forall k :: p <= k < q ==> IsPathChar(t[k]))
                          && WordEnds(t, Lit(t, q, "test"))) by {
        assert forall q :: PathEnds(t, p, q) <==>
          (p + 3 <= q <= |t| && t[q - 2..q] == "::" && (forall k :: p <= k < q ==> IsPathChar(t[k])));
      }
    }
  }

  /** A marker is an attribute that one of the two patterns matches. */
  lemma MarkerIff(t: string, a: nat)
    requires a <= |t|
    ensures IsMarker(t, a) <==> MatchesAt(TEST_CFG, t, a) || MatchesAt(TEST_ATTR, t, a)
  {
    TestCfgIff(t, a);
    TestAttrIff(t, a);
    hide TEST_CFG, TEST_ATTR;
    if Lit(t, a, "#[") >= 0 {
      assert t[a..a + 2][0] == t[a] && t[a..a + 2][1] == t[a + 1];
    }
  }

  lemma NameStartIff(c: char)
    ensures c in NAME_START <==> IsIdent(c) && !('0' <= c <= '9')
  {
    hide UPPER, LOWER;
    UpperIff(c);
    LowerIff(c);
  }

  lemma FnAtMeans(t: string, p: nat, s: nat, e: nat)
    requires p <= |t|
    ensures FnAt(t, p) == Header(s, e) <==>
      && !(p > 0 && IsIdent(t[p - 1])) && StartsAt(t, p, 'f', 'n')
      && p + 2 < s < |t| && s == SkipSpace(t, p + 2)
      && IsIdent(t[s]) && !('0' <= t[s] <= '9') && e == IdentEnd(t, s)
  {
    hide IsIdent, IsSpace;
  }

  lemma SkipSpaceIff(t: string, j: nat, k: nat)
    requires j <= |t|
    ensures k == SkipSpace(t, j) <==>
      j <= k <= |t| && (forall q :: j <= q < k ==> IsSpace(t[q])) && (k == |t| || !IsSpace(t[k]))
  {
    hide IsSpace;
    var x := SkipSpace(t, j);
    if j <= k <= |t| && (forall q :: j <= q < k ==> IsSpace(t[q])) && (k == |t| || !IsSpace(t[k])) {
      assert !(k < x) && !(x < k);
    }
  }

  lemma NoSpaceInWords(c: char)
    ensures IsIdent(c) ==> !IsSpace(c)
  {
  }

  /** A header is a match of the function pattern whose name is taken to its end. */
  lemma HeaderIff(t: string, p: nat, s: nat, e: nat)
    requires p <= |t|
    ensures FnAt(t, p) == Header(s, e) <==>
      && Matches(FN_HEAD, t, p, s)
      && s < e <= |t| && t[s] in NAME_START && (forall k :: s <= k < e ==> t[k] in WORD)
      && (e == |t| || t[e] !in WORD)
  {
    hide *;
    forall k | 0 <= k < |t| ensures (t[k] in WORD <==> IsIdent(t[k])) && (t[k] in WHITE <==> IsSpace(t[k])) {
      WordIff(t[k]);
      WhiteIff(t[k]);
    }
    FnAtMeans(t, p, s, e);
    HeadIff(t, p, s);
    if s < |t| {
      NameStartIff(t[s]);
      NoSpaceInWords(t[s]);
      IdentEndIff(t, s, e);
    }
    if p + 2 <= |t| {
      SkipSpaceIff(t, p + 2, s);
    }
  }

  lemma IdentEndIff(t: string, s: nat, e: nat)
    requires s <= |t|
    ensures e == IdentEnd(t, s) <==>
      s <= e <= |t| && (forall k :: s <= k < e ==> IsIdent(t[k])) && (e == |t| || !IsIdent(t[e]))
  {
    var x := IdentEnd(t, s);
    IdentEndStops(t, s);
    if s <= e <= |t| && (forall k :: s <= k < e ==> IsIdent(t[k])) && (e == |t| || !IsIdent(t[e])) {
      assert !(e < x) && !(x < e);
    }
  }

  lemma {:induction false} IdentEndStops(t: string, s: nat)
    requires s <= |t|
    ensures IdentEnd(t, s) < |t| ==> !IsIdent(t[IdentEnd(t, s)])
    decreases |t| - s
  {
    if s < |t| && IsIdent(t[s]) {
      IdentEndStops(t, s + 1);
    }
  }

  lemma HeadIff(t: string, p: nat, s: nat)
    requires p <= |t|
    requires forall k :: 0 <= k < |t| ==>
      (t[k] in WORD <==> IsIdent(t[k])) && (t[k] in WHITE <==> IsSpace(t[k]))
    ensures Matches(FN_HEAD, t, p, s) <==>
      && !(p > 0 && IsIdent(t[p - 1])) && StartsAt(t, p, 'f', 'n')
      && p + 2 < s <= |t| && forall k :: p + 2 <= k < s ==> IsSpace(t[k])
  {
    hide WORD, WHITE;
    var tail := After("fn", Plus(WHITE));
    if Matches(FN_HEAD, t, p, s) {
      var m := ThenSplits(Edge, tail, t, p, s);
      var n := ThenSplits(Exactly("fn"), Plus(WHITE), t, m, s);
      assert t[p] == t[p..n][0] && t[p + 1] == t[p..n][1];
      assert IsIdent('f');
    }
    if !(p > 0 && IsIdent(t[p - 1])) && StartsAt(t, p, 'f', 'n')
       && p + 2 < s <= |t| && forall k :: p + 2 <= k < s ==> IsSpace(t[k]) {
      assert IsIdent('f');
      assert t[p..p + 2] == "fn";
      assert Matches(Edge, t, p, p);
      assert Matches(Exactly("fn"), t, p, p + 2);
      assert Matches(Plus(WHITE), t, p + 2, s);
      ThenJoins(Exactly("fn"), Plus(WHITE), t, p, p + 2, s);
      ThenJoins(Edge, tail, t, p, p, s);
    }
  }
}
