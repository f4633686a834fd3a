/**
 What blanking a Rust source keeps: its length, its lines, and its meaning under
 repetition and under concatenation of items.
 */
module RustLexerLaws {
  import opened RustLexer

  /** What is left to read after the first token, and the bit that goes with it. */
  function After(prev: bool, t: string): (r: (bool, string))
    requires t != ""
    ensures |r.1| == |t| - Next(prev, t).len
  {
    var n := Next(prev, t).len;
    (IsIdent(t[n - 1]), t[n..])
  }

  /** Blanking keeps the length and only ever changes a character to a space. */
  lemma {:induction false} BlankedShape(prev: bool, t: string)
    ensures var b := Blanked(prev, t);
      |b| == |t| && forall p :: 0 <= p < |t| ==> b[p] == t[p] || b[p] == ' '
    decreases |t|
  {
    hide Next, Blanked, Mask;
    BlankedEmpty(prev);
    if t != "" {
      var k := Next(prev, t);
      var (prev', rest) := After(prev, t);
      BlankedShape(prev', rest);
      BlankedUnfolds(prev, t);
      MaskShape(k.kind, t[..k.len]);
      forall p | 0 <= p < |t| ensures Blanked(prev, t)[p] == t[p] || Blanked(prev, t)[p] == ' ' {
        if p >= k.len {
          assert Blanked(prev, t)[p] == Blanked(prev', rest)[p - k.len];
        } else {
          assert Blanked(prev, t)[p] == Mask(k.kind, t[..k.len])[p];
        }
      }
    }
  }

  lemma MaskShape(kind: Kind, x: string)
    ensures forall p :: 0 <= p < |x| ==> Mask(kind, x)[p] == x[p] || Mask(kind, x)[p] == ' '
  {
  }

  lemma BlankedEmpty(prev: bool)
    ensures Blanked(prev, "") == ""
  {
  }

  // ----- idempotence

  /** No comment, string or char literal can begin at `p`, whatever comes before `p`. */
  predicate Quiet(t: string, p: nat)
    requires p < |t|
  {
    && t[p] != '"'
    && !(t[p] == '/' && p + 1 < |t| && (t[p + 1] == '/' || t[p + 1] == '*'))
    && !(t[p] == '\'' && p + 1 < |t| && t[p + 1] == '\\')
    && !(t[p] == '\'' && p + 2 < |t| && t[p + 2] == '\'')
  }

  predicate Blank?(c: char) {
    c == ' ' || c == '\n'
  }

  lemma MaskedAreBlank(kind: Kind, x: string)
    requires kind != Code
    ensures forall q :: 0 <= q < |x| ==> Blank?(Mask(kind, x)[q])
  {
  }

  lemma CodeIsQuiet(prev: bool, t: string)
    requires t != "" && Next(prev, t).kind == Code
    ensures Next(prev, t) == Token(Code, 1, true) && Quiet(t, 0)
  {
    hide BlockBody, StringBody, RawBody, Hashes, Until;
  }

  /** The character at `p` of a blanked text, by the token it lies in. */
  lemma BlankedAt(prev: bool, t: string, p: nat)
    requires p < |t|
    ensures |Blanked(prev, t)| == |t|
    ensures var k := Next(prev, t);
      Blanked(prev, t)[p] == if p < k.len then Mask(k.kind, t[..k.len])[p]
                             else Blanked(After(prev, t).0, t[k.len..])[p - k.len]
  {
    hide Next, Mask, Blanked;
    BlankedUnfolds(prev, t);
    BlankedShape(prev, t);
    BlankedShape(After(prev, t).0, After(prev, t).1);
  }

  /** Whatever survives blanking stood in the source as code. */
  lemma {:induction false} SurvivorsAreCode(prev: bool, t: string, p: nat)
    requires p < |t| == |Blanked(prev, t)|
    requires !Blank?(Blanked(prev, t)[p])
    ensures Blanked(prev, t)[p] == t[p] && Quiet(t, p)
    decreases |t|
  {
    hide Next, Blanked;
    var k := Next(prev, t);
    BlankedAt(prev, t, p);
    if p >= k.len {
      BlankedShape(After(prev, t).0, t[k.len..]);
      SurvivorsAreCode(After(prev, t).0, t[k.len..], p - k.len);
    } else if k.kind == Code {
      CodeIsQuiet(prev, t);
    } else {
      MaskedAreBlank(k.kind, t[..k.len]);
    }
  }

  lemma QuietIsCode(prev: bool, t: string)
    requires t != ""
    requires forall p :: 0 <= p < |t| ==> Quiet(t, p)
    ensures Next(prev, t) == Token(Code, 1, true)
  {
    hide BlockBody, StringBody, RawBody, Hashes, Until;
    assert Quiet(t, 0);
    var q := RawHead(t) + RawHashes(t);
    if q < |t| {
      assert Quiet(t, q);
    }
  }

  lemma QuietTail(t: string, p: nat)
    requires p + 1 < |t| && Quiet(t, p + 1)
    ensures Quiet(t[1..], p)
  {
  }

  /** A text where nothing begins a comment or literal is left as it is. */
  lemma {:induction false} QuietIsUnchanged(prev: bool, t: string)
    requires forall p :: 0 <= p < |t| ==> Quiet(t, p)
    ensures Blanked(prev, t) == t
    decreases |t|
  {
    hide Next, Blanked, Quiet;
    BlankedEmpty(prev);
    if t != "" {
      QuietIsCode(prev, t);
      BlankedUnfolds(prev, t);
      forall p | 0 <= p < |t| - 1 ensures Quiet(t[1..], p) {
        QuietTail(t, p);
      }
      QuietIsUnchanged(IsIdent(t[0]), t[1..]);
      assert t[..1] + t[1..] == t;
    }
  }

  /** Blanking twice is blanking once, on every text. */
  lemma BlankedIdempotent(prev: bool, prev': bool, t: string)
    ensures Blanked(prev', Blanked(prev, t)) == Blanked(prev, t)
  {
    hide Next, Mask, Blanked;
    var b := Blanked(prev, t);
    BlankedShape(prev, t);
    forall p | 0 <= p < |b| ensures Quiet(b, p) {
      if !Blank?(b[p]) {
        SurvivorsAreCode(prev, t, p);
      }
    }
    QuietIsUnchanged(prev', b);
  }

  // ----- lines

  /** A char literal that holds a raw newline: the one token whose newline is not kept. */
  predicate EatsNewline(prev: bool, t: string)
    decreases |t|
  {
    t != "" && (
      (Next(prev, t).kind == PlainChar && t[1] == '\n')
      || EatsNewline(After(prev, t).0, After(prev, t).1))
  }

  predicate KeepsNewlines(prev: bool, t: string) {
    |Blanked(prev, t)| == |t| && forall p :: 0 <= p < |t| && t[p] == '\n' ==> Blanked(prev, t)[p] == '\n'
  }

  lemma {:induction false} UntilStopsBy(t: string, c: char, p: nat)
    requires p < |t| && t[p] == c
    ensures Until(t, c) <= p
  {
    if t[0] != c {
      UntilStopsBy(t[1..], c, p - 1);
    }
  }

  /** What one token does to the newlines it covers. */
  lemma MaskedNewlines(prev: bool, t: string, p: nat)
    requires t != "" && p < Next(prev, t).len && t[p] == '\n'
    ensures var k := Next(prev, t);
      Mask(k.kind, t[..k.len])[p] == if k.kind == PlainChar then ' ' else '\n'
    ensures Next(prev, t).kind == PlainChar ==> p == 1
  {
    hide BlockBody, StringBody, RawBody, Hashes;
    UntilStopsBy(t, '\n', p);
  }

  lemma PlainCharSpansThree(prev: bool, t: string)
    requires t != "" && Next(prev, t).kind == PlainChar
    ensures Next(prev, t).len == 3 <= |t| && t[0] == '\'' == t[2]
  {
    hide BlockBody, StringBody, RawBody, Hashes, Until;
  }

  /** Every newline is kept exactly when no char literal holds one. */
  lemma {:induction false} NewlinesKept(prev: bool, t: string)
    ensures KeepsNewlines(prev, t) <==> !EatsNewline(prev, t)
    decreases |t|
  {
    hide Next, Mask, Blanked;
    BlankedShape(prev, t);
    if t != "" {
      var k := Next(prev, t);
      var (prev', rest) := After(prev, t);
      assert rest == t[k.len..];
      BlankedShape(prev', rest);
      NewlinesKept(prev', rest);
      if k.kind == PlainChar {
        PlainCharSpansThree(prev, t);
        if t[1] == '\n' {
          MaskedNewlines(prev, t, 1);
          BlankedAt(prev, t, 1);
        }
      }
      if !EatsNewline(prev, t) {
        forall p | 0 <= p < |t| && t[p] == '\n' ensures Blanked(prev, t)[p] == '\n' {
          BlankedAt(prev, t, p);
          if p < k.len { MaskedNewlines(prev, t, p); }
        }
      } else if EatsNewline(prev', rest) {
        var p :| 0 <= p < |rest| && rest[p] == '\n' && Blanked(prev', rest)[p] != '\n';
        BlankedAt(prev, t, p + k.len);
      }
    }
  }

  /** A source without a quote, a newline and a quote in a row loses no newline. */
  lemma {:induction false} NoTripleNoLoss(prev: bool, t: string)
    requires forall p :: 0 <= p < |t| - 2 ==> !(t[p] == '\'' && t[p + 1] == '\n' && t[p + 2] == '\'')
    ensures !EatsNewline(prev, t)
    decreases |t|
  {
    hide Next;
    if t != "" {
      var k := Next(prev, t);
      var (prev', rest) := After(prev, t);
      assert rest == t[k.len..];
      NoTripleNoLoss(prev', rest);
      if k.kind == PlainChar {
        PlainCharSpansThree(prev, t);
      }
    }
  }

  /** `text.count("\n", a, b)`. */
  function Newlines(t: string, a: nat, b: nat): nat
    requires a <= b <= |t|
    decreases b - a
  {
    if a == b then 0 else Newlines(t, a, b - 1) + if t[b - 1] == '\n' then 1 else 0
  }

  /** Line numbers counted on the blanked text are those of the source, unless a char literal holds a newline. */
  lemma {:induction false} LineNumbersKept(t: string, a: nat, b: nat)
    requires a <= b <= |t| && !EatsNewline(false, t)
    ensures |Blanked(false, t)| == |t| && Newlines(Blanked(false, t), a, b) == Newlines(t, a, b)
    decreases b - a
  {
    hide Next, Mask, Blanked;
    BlankedShape(false, t);
    if a < b {
      LineNumbersKept(t, a, b - 1);
      NewlinesKept(false, t);
    }
  }

  lemma OneNewline(t: string, p: nat)
    requires p < |t|
    ensures Newlines(t, p, p + 1) == if t[p] == '\n' then 1 else 0
  {
    assert Newlines(t, p, p) == 0;
  }

  /**
   All line numbers counted on the blanked text are those of the source exactly when no char
   literal holds a newline.
   */
  lemma LineNumbersKeptIff(t: string)
    ensures |Blanked(false, t)| == |t|
    ensures (forall a: nat, b: nat :: a <= b <= |t| ==> Newlines(Blanked(false, t), a, b) == Newlines(t, a, b))
      <==> !EatsNewline(false, t)
  {
    hide Blanked, EatsNewline;
    BlankedShape(false, t);
    NewlinesKept(false, t);
    if !EatsNewline(false, t) {
      forall a: nat, b: nat | a <= b <= |t| ensures Newlines(Blanked(false, t), a, b) == Newlines(t, a, b) {
        LineNumbersKept(t, a, b);
      }
    } else {
      var p :| 0 <= p < |t| && t[p] == '\n' && Blanked(false, t)[p] != '\n';
      OneNewline(t, p);
      OneNewline(Blanked(false, t), p);
    }
  }

  /** A quote, a newline and a quote become three spaces, and the next line moves up by one. */
  lemma QuoteNewlineQuote()
    ensures EatsNewline(false, "'\n'") && Blanked(false, "'\n'") == "   "
    ensures Newlines(Blanked(false, "'\n'"), 0, 3) == 0 && Newlines("'\n'", 0, 3) == 1
  {
    var t := "'\n'";
    assert Next(false, t) == Token(PlainChar, 3, true);
  }

  // ----- composition

  /**
   `a` ends between tokens: every literal and block comment is closed, and no quote mark
   is left at the very end, where it would meet the newline and a quote of the next item.
   */
  predicate Composable(prev: bool, a: string)
    decreases |a|
  {
    a == "" || (a != "'" && Next(prev, a).closed && Composable(After(prev, a).0, After(prev, a).1))
  }

  /** Reading `a`, a newline and `b` is reading `a` and reading `b`. */
  predicate Composes(prev: bool, a: string, b: string) {
    Blanked(prev, a + "\n" + b) == Blanked(prev, a) + "\n" + Blanked(false, b)
  }

  lemma {:induction false} UntilExtends(t: string, z: string, c: char)
    ensures Until(t, c) < |t| || (z != "" && z[0] == c) ==> Until(t + z, c) == Until(t, c)
  {
    if t == "" {
      assert t + z == z;
    } else if t[0] != c {
      UntilExtends(t[1..], z, c);
      assert (t + z)[1..] == t[1..] + z;
    }
  }

  lemma {:induction false} BlockExtends(t: string, z: string, depth: nat)
    requires depth > 0 && BlockBody(t, depth).closed
    ensures BlockBody(t + z, depth) == BlockBody(t, depth)
    decreases |t|
  {
    if Starts(t, '/', '*') || Starts(t, '*', '/') {
      assert (t + z)[2..] == t[2..] + z;
      if Starts(t, '/', '*') {
        BlockExtends(t[2..], z, depth + 1);
      } else if depth > 1 {
        BlockExtends(t[2..], z, depth - 1);
      }
    } else if |t| > 1 {
      assert (t + z)[1..] == t[1..] + z;
      BlockExtends(t[1..], z, depth);
    }
  }

  lemma {:induction false} StringExtends(t: string, z: string)
    requires StringBody(t).closed
    ensures StringBody(t + z) == StringBody(t)
    decreases |t|
  {
    if t[0] == '\\' {
      assert (t + z)[2..] == t[2..] + z;
      StringExtends(t[2..], z);
    } else if t[0] != '"' {
      assert (t + z)[1..] == t[1..] + z;
      StringExtends(t[1..], z);
    }
  }

  lemma {:induction false} HashesExtend(t: string, z: string)
    requires z != "" && z[0] != '#'
    ensures Hashes(t + z) == Hashes(t)
  {
    if t != "" && t[0] == '#' {
      HashesExtend(t[1..], z);
      assert (t + z)[1..] == t[1..] + z;
    }
  }

  lemma {:induction false} RawExtends(t: string, z: string, h: nat)
    requires z != "" && z[0] != '#'
    requires RawBody(t, h).closed
    ensures RawBody(t + z, h) == RawBody(t, h)
  {
    assert (t + z)[1..] == t[1..] + z;
    HashesExtend(t[1..], z);
    if !(t[0] == '"' && Hashes(t[1..]) >= h) {
      RawExtends(t[1..], z, h);
    }
  }

  lemma RawOpenExtends(t: string, z: string)
    requires t != "" && z != "" && z[0] == '\n'
    ensures RawOpens(t + z) <==> RawOpens(t)
    ensures RawOpens(t) ==> RawHead(t + z) == RawHead(t) && RawHashes(t + z) == RawHashes(t)
  {
    if RawHead(t + z) == RawHead(t) {
      assert (t + z)[RawHead(t)..] == t[RawHead(t)..] + z;
      HashesExtend(t[RawHead(t)..], z);
    }
  }

  /** A token that closes within `a` is the same token when more text follows a newline. */
  lemma NextExtends(prev: bool, a: string, z: string)
    requires a != "" && a != "'" && a != "'\\'"
    requires Next(prev, a).closed
    requires z != "" && z[0] == '\n'
    ensures Next(prev, a + z) == Next(prev, a)
  {
    hide BlockBody, StringBody, RawBody, Hashes, Until;
    RawOpenExtends(a, z);
    if Starts(a, '/', '/') {
      UntilExtends(a, z, '\n');
    } else if Starts(a, '/', '*') {
      assert (a + z)[2..] == a[2..] + z;
      BlockExtends(a[2..], z, 1);
    } else if !prev && RawOpens(a) {
      RawNextExtends(prev, a, z);
    } else if a[0] == '"' {
      assert (a + z)[1..] == a[1..] + z;
      StringExtends(a[1..], z);
    } else if a[0] == '\'' {
      QuoteExtends(prev, a, z);
    }
  }

  lemma RawNextExtends(prev: bool, a: string, z: string)
    requires !prev && RawOpens(a) && !Starts(a, '/', '/') && !Starts(a, '/', '*')
    requires Next(prev, a).closed && z != "" && z[0] == '\n'
    ensures Next(prev, a + z) == Next(prev, a)
  {
    hide BlockBody, StringBody, RawBody, Hashes, Until;
    RawOpenExtends(a, z);
    var o := RawHead(a) + RawHashes(a) + 1;
    assert (a + z)[o..] == a[o..] + z;
    RawExtends(a[o..], z, RawHashes(a));
  }

  lemma QuoteExtends(prev: bool, a: string, z: string)
    requires a != "" && a != "'" && a != "'\\'" && a[0] == '\''
    requires Next(prev, a).closed
    requires z != "" && z[0] == '\n'
    ensures Next(prev, a + z) == Next(prev, a)
  {
    hide BlockBody, StringBody, RawBody, Hashes, Until;
    if Starts(a, '\'', '\\') {
      assert (a + z)[2..] == a[2..] + z;
      UntilExtends(a[2..], z, '\'');
    }
  }

  /** One token of `a`, read in front of a newline and more text. */
  lemma ComposesStep(prev: bool, a: string, b: string)
    requires a != "" && a != "'" && a != "'\\'" && Next(prev, a).closed
    ensures Composes(prev, a, b) <==> Composes(After(prev, a).0, After(prev, a).1, b)
  {
    hide Next, Mask, Blanked;
    var z := "\n" + b;
    var n := Next(prev, a).len;
    var (prev', rest) := After(prev, a);
    NextExtends(prev, a, z);
    BlankedUnfolds(prev, a);
    BlankedUnfolds(prev, a + z);
    assert (a + z)[..n] == a[..n];
    assert (a + z)[n..] == rest + z;
    assert a + "\n" + b == a + z && rest + "\n" + b == rest + z;
    var m := Mask(Next(prev, a).kind, a[..n]);
    var tail := "\n" + Blanked(false, b);
    assert Blanked(prev, a) + "\n" + Blanked(false, b) == m + (Blanked(prev', rest) + tail);
    assert Blanked(prev', rest) + "\n" + Blanked(false, b) == Blanked(prev', rest) + tail;
    SamePrefix(m, Blanked(prev', rest + z), Blanked(prev', rest) + tail);
  }

  lemma SamePrefix(m: string, x: string, y: string)
    ensures m + x == m + y <==> x == y
  {
    if m + x == m + y {
      assert x == (m + x)[|m|..] == (m + y)[|m|..] == y;
    }
  }

  /** `'\'` at the end of `a` takes the newline with it, and keeps it. */
  lemma EscapedQuoteComposes(prev: bool, b: string)
    ensures Composes(prev, "'\\'", b)
  {
    hide BlockBody, StringBody, RawBody, Hashes, Until;
    var a := "'\\'";
    var t := a + "\n" + b;
    assert Next(prev, t) == Token(EscapedChar, 4, true);
    assert Next(prev, a) == Token(EscapedChar, 3, true);
    EscapedQuoteMasks(prev, b);
  }

  lemma EscapedQuoteMasks(prev: bool, b: string)
    requires Next(prev, "'\\'" + "\n" + b) == Token(EscapedChar, 4, true)
    requires Next(prev, "'\\'") == Token(EscapedChar, 3, true)
    ensures Composes(prev, "'\\'", b)
  {
    hide Next, Blanked;
    var a := "'\\'";
    var t := a + "\n" + b;
    BlankedUnfolds(prev, a);
    BlankedUnfolds(prev, t);
    BlankedEmpty(IsIdent(a[2]));
    assert a[3..] == "" && a[..3] == a;
    assert t[4..] == b && t[..4] == a + "\n" && t[3] == '\n';
    assert KeepNewlines(a) == "   ";
    assert KeepNewlines(a + "\n") == "   \n";
    assert "   " + "" + "\n" + Blanked(false, b) == "   \n" + Blanked(false, b);
  }

  lemma {:induction false} ComposableComposes(prev: bool, a: string, b: string)
    requires Composable(prev, a)
    ensures Composes(prev, a, b)
    decreases |a|
  {
    hide Next, Mask;
    if a == "" {
      NewlineIsCode(prev, b);
    } else if a == "'\\'" {
      EscapedQuoteComposes(prev, b);
    } else {
      ComposableComposes(After(prev, a).0, After(prev, a).1, b);
      ComposesStep(prev, a, b);
    }
  }

  lemma NewlineIsCode(prev: bool, b: string)
    ensures Composes(prev, "", b)
  {
    hide BlockBody, StringBody, RawBody, Hashes, Until;
    var t := "\n" + b;
    assert "" + "\n" + b == t && t[..1] == "\n" && t[1..] == b;
    assert Next(prev, t) == Token(Code, 1, true);
    BlankedUnfolds(prev, t);
  }

  lemma {:induction false} BlockStaysOpen(t: string, depth: nat)
    requires depth > 0 && !BlockBody(t, depth).closed
    ensures !BlockBody(t + "\nx", depth).closed
    decreases |t|
  {
    var z := "\nx";
    if t == "" {
      assert t + z == z && z[1..] == "x" && z[1..][1..] == "";
    } else if Starts(t, '/', '*') || Starts(t, '*', '/') {
      assert (t + z)[2..] == t[2..] + z;
      BlockStaysOpen(t[2..], if Starts(t, '/', '*') then depth + 1 else depth - 1);
    } else {
      assert (t + z)[1..] == t[1..] + z;
      BlockStaysOpen(t[1..], depth);
    }
  }

  lemma {:induction false} StringStaysOpen(t: string)
    requires !StringBody(t).closed
    ensures !StringBody(t + "\nx").closed
    decreases |t|
  {
    var z := "\nx";
    if t == "" {
      assert t + z == z && z[1..] == "x" && z[1..][1..] == "";
    } else if t[0] != '\\' {
      assert (t + z)[1..] == t[1..] + z;
      StringStaysOpen(t[1..]);
    } else if |t| > 1 {
      assert (t + z)[2..] == t[2..] + z;
      StringStaysOpen(t[2..]);
    } else {
      assert (t + z)[2..] == "x" && "x"[1..] == "";
    }
  }

  lemma {:induction false} RawStaysOpen(t: string, h: nat)
    requires !RawBody(t, h).closed
    ensures !RawBody(t + "\nx", h).closed
    decreases |t|
  {
    var z := "\nx";
    if t == "" {
      assert t + z == z && z[1..] == "x" && z[1..][1..] == "";
    } else {
      assert (t + z)[1..] == t[1..] + z;
      HashesExtend(t[1..], z);
      if |t| < h + 1 {
        RawTooShort(t[1..], h);
      }
      RawStaysOpen(t[1..], h);
    }
  }

  lemma {:induction false} RawTooShort(t: string, h: nat)
    requires |t| < h + 1
    ensures !RawBody(t, h).closed
  {
  }

  /** An open token swallows whatever follows. */
  lemma OpenStaysOpen(prev: bool, a: string)
    requires a != "" && !Next(prev, a).closed
    ensures !Next(prev, a + "\nx").closed && Next(prev, a + "\nx").kind != Code
  {
    hide BlockBody, StringBody, RawBody, Hashes, Until;
    var z := "\nx";
    RawOpenExtends(a, z);
    if Starts(a, '/', '*') {
      assert (a + z)[2..] == a[2..] + z;
      BlockStaysOpen(a[2..], 1);
    } else if !prev && RawOpens(a) {
      var o := RawHead(a) + RawHashes(a) + 1;
      assert (a + z)[o..] == a[o..] + z;
      RawStaysOpen(a[o..], RawHashes(a));
    } else if a[0] == '"' {
      assert (a + z)[1..] == a[1..] + z;
      StringStaysOpen(a[1..]);
    } else {
      OpenQuoteStaysOpen(prev, a);
    }
  }

  lemma OpenQuoteStaysOpen(prev: bool, a: string)
    requires a != "" && Starts(a, '\'', '\\') && !Next(prev, a).closed
    ensures !Next(prev, a + "\nx").closed && Next(prev, a + "\nx").kind == EscapedChar
  {
    hide BlockBody, StringBody, RawBody, Hashes;
    var z := "\nx";
    assert (a + z)[2..] == a[2..] + z;
    assert z[1..] == "x" && z[1..][1..] == "";
    UntilExtendsAll(a[2..], z, '\'');
  }

  lemma {:induction false} UntilExtendsAll(t: string, z: string, c: char)
    requires Until(t, c) == |t| && Until(z, c) == |z|
    ensures Until(t + z, c) == |t + z|
  {
    if t == "" {
      assert t + z == z;
    } else {
      assert (t + z)[1..] == t[1..] + z;
      UntilExtendsAll(t[1..], z, c);
    }
  }

  lemma OpenDoesNotCompose(prev: bool, a: string)
    requires a != "" && !Next(prev, a).closed
    ensures !Composes(prev, a, "x")
  {
    hide Next, Mask;
    var t := a + "\nx";
    assert a + "\n" + "x" == t;
    OpenStaysOpen(prev, a);
    BlankedAt(prev, t, |t| - 1);
    MaskedAreBlank(Next(prev, t).kind, t);
    assert t[..|t|] == t;
    var right := Blanked(prev, a) + "\n" + Blanked(false, "x");
    XIsCode();
    assert right[|right| - 1] == 'x';
  }

  lemma XIsCode()
    ensures Blanked(false, "x") == "x"
    ensures Blanked(false, "'") == "'"
  {
    hide BlockBody, StringBody, RawBody, Hashes, Until;
    assert Next(false, "x") == Token(Code, 1, true);
    assert Next(false, "'") == Token(Code, 1, true);
    BlankedUnfolds(false, "x");
    BlankedUnfolds(false, "'");
  }

  lemma QuoteDoesNotCompose(prev: bool)
    ensures !Composes(prev, "'", "'")
  {
    hide BlockBody, StringBody, RawBody, Hashes, Until;
    var t := "'" + "\n" + "'";
    assert Next(prev, t) == Token(PlainChar, 3, true);
    BlankedAt(prev, t, 2);
    var right := Blanked(prev, "'") + "\n" + Blanked(false, "'");
    XIsCode();
    assert right[|right| - 1] == '\'';
  }

  /** A text that is not `Composable` changes how some later text is read. */
  lemma {:induction false} NotComposableFails(prev: bool, a: string) returns (b: string)
    requires !Composable(prev, a)
    ensures !Composes(prev, a, b)
    decreases |a|
  {
    hide Next, Mask, Blanked;
    if a == "'" {
      b := "'";
      QuoteDoesNotCompose(prev);
    } else if !Next(prev, a).closed {
      b := "x";
      OpenDoesNotCompose(prev, a);
    } else {
      EscapedQuoteIsComposable(prev);
      b := NotComposableFails(After(prev, a).0, After(prev, a).1);
      ComposesStep(prev, a, b);
    }
  }

  lemma EscapedQuoteIsComposable(prev: bool)
    ensures Composable(prev, "'\\'")
  {
    hide BlockBody, StringBody, RawBody, Hashes, Until;
    assert Next(prev, "'\\'") == Token(EscapedChar, 3, true);
  }

  /**
   One item's text never changes how a later one is read exactly when it leaves no token
   open and does not end in a bare quote mark.
   */
  lemma CompositionLaw(a: string)
    ensures (forall b :: Composes(false, a, b)) <==> Composable(false, a)
  {
    hide Composes, Composable, Blanked;
    if Composable(false, a) {
      forall b ensures Composes(false, a, b) {
        ComposableComposes(false, a, b);
      }
    } else {
      var b := NotComposableFails(false, a);
    }
  }
}
