/**
 A declarative account of the tokens of a Rust source, with no scanning in it: block
 comments by a grammar of nested comments, strings by the parity of the backslashes before
 a quote, raw strings by the first matching fence.  The scanner of `RustLexer` is proved
 to find exactly these tokens.
 */
module RustTokens {
  import opened RustLexer
  import opened RustLexerLaws

  // ----- block comments

  /** What follows the opening of a closed comment: characters and whole comments, then the close. */
  datatype Comment = Close | Char(c: char, rest: Comment) | Nest(inner: Comment, rest: Comment)

  function Text(b: Comment): (r: string)
    ensures |r| >= 2
  {
    match b
    case Close => "*/"
    case Char(c, rest) => [c] + Text(rest)
    case Nest(inner, rest) => "/*" + Text(inner) + Text(rest)
  }

  /** No character stands where it would begin an opening or closing mark. */
  predicate WellFormed(b: Comment) {
    match b
    case Close => true
    case Char(c, rest) =>
      && !(c == '/' && Text(rest)[0] == '*')
      && !(c == '*' && Text(rest)[0] == '/')
      && WellFormed(rest)
    case Nest(inner, rest) => WellFormed(inner) && WellFormed(rest)
  }

  function Texts(bs: seq<Comment>): string {
    if bs == [] then "" else Text(bs[0]) + Texts(bs[1..])
  }

  lemma ReadOpen(t: string, depth: nat)
    requires depth > 0
    ensures BlockBody("/*" + t, depth) == BlockBody(t, depth + 1).Plus(2)
  {
    assert ("/*" + t)[2..] == t;
  }

  lemma ReadClose(t: string, depth: nat)
    requires depth > 0
    ensures BlockBody("*/" + t, depth) == if depth == 1 then Extent(2, true) else BlockBody(t, depth - 1).Plus(2)
  {
    assert ("*/" + t)[2..] == t;
  }

  lemma ReadChar(c: char, t: string, depth: nat)
    requires depth > 0 && t != ""
    requires !(c == '/' && t[0] == '*') && !(c == '*' && t[0] == '/')
    ensures BlockBody([c] + t, depth) == BlockBody(t, depth).Plus(1)
  {
    assert ([c] + t)[1..] == t;
  }

  /** The scan reads one well-formed comment body, and then the rest one level up. */
  lemma {:induction false} BodyIsRead(b: Comment, t: string, depth: nat)
    requires depth > 0 && WellFormed(b)
    ensures BlockBody(Text(b) + t, depth) ==
      if depth == 1 then Extent(|Text(b)|, true) else BlockBody(t, depth - 1).Plus(|Text(b)|)
  {
    hide BlockBody;
    match b {
      case Close =>
        ReadClose(t, depth);
      case Char(c, rest) =>
        assert Text(b) + t == [c] + (Text(rest) + t);
        ReadChar(c, Text(rest) + t, depth);
        BodyIsRead(rest, t, depth);
      case Nest(inner, rest) =>
        assert Text(b) + t == "/*" + (Text(inner) + (Text(rest) + t));
        ReadOpen(Text(inner) + (Text(rest) + t), depth);
        BodyIsRead(inner, Text(rest) + t, depth + 1);
        BodyIsRead(rest, t, depth);
    }
  }

  lemma TextsCons(b: Comment, bs: seq<Comment>)
    ensures Texts([b] + bs) == Text(b) + Texts(bs)
  {
    assert ([b] + bs)[1..] == bs;
  }

  lemma Assoc4(m: string, x: string, y: string, z: string)
    ensures m + x + y + z == m + (x + (y + z))
  {
  }

  lemma NestText(inner: Comment, rest: Comment)
    ensures Text(Nest(inner, rest)) == "/*" + Text(inner) + Text(rest)
  {
  }

  lemma TextsNest(rs: seq<Comment>)
    requires |rs| >= 2
    ensures Texts([Nest(rs[0], rs[1])] + rs[2..]) == "/*" + Texts(rs)
  {
    hide Texts, Text;
    TextsCons(Nest(rs[0], rs[1]), rs[2..]);
    TextsCons(rs[0], rs[1..]);
    TextsCons(rs[1], rs[2..]);
    assert [rs[0]] + rs[1..] == rs;
    assert [rs[1]] + rs[2..] == rs[1..];
    NestText(rs[0], rs[1]);
    Assoc4("/*", Text(rs[0]), Text(rs[1]), Texts(rs[2..]));
  }

  lemma TextsChar(c: char, rs: seq<Comment>)
    requires rs != []
    ensures Texts([Char(c, rs[0])] + rs[1..]) == [c] + Texts(rs)
  {
    hide Texts;
    TextsCons(Char(c, rs[0]), rs[1..]);
    TextsCons(rs[0], rs[1..]);
    assert [rs[0]] + rs[1..] == rs;
  }

  /** Whatever the scan calls closed is, for each open comment, one well-formed body. */
  lemma {:induction false} ReadIsBodies(t: string, depth: nat) returns (bs: seq<Comment>)
    requires depth > 0 && BlockBody(t, depth).closed
    ensures |bs| == depth && (forall b :: b in bs ==> WellFormed(b))
    ensures Texts(bs) == t[..BlockBody(t, depth).len]
    decreases |t|
  {
    hide BlockBody, Texts, Text;
    BlockCases(t, depth);
    if Starts(t, '/', '*') {
      var rs := ReadIsBodies(t[2..], depth + 1);
      bs := [Nest(rs[0], rs[1])] + rs[2..];
      TextsNest(rs);
      assert t[..2] == "/*";
      PrefixSplit(t, 2, BlockBody(t[2..], depth + 1).len);
      assert WellFormed(rs[0]) && WellFormed(rs[1]);
    } else if Starts(t, '*', '/') && depth == 1 {
      bs := [Close];
      TextsCons(Close, []);
      assert bs == [Close] + [];
      TextsBase();
      assert t[..2] == "*/";
    } else if Starts(t, '*', '/') {
      var rs := ReadIsBodies(t[2..], depth - 1);
      bs := [Close] + rs;
      TextsCons(Close, rs);
      TextsBase();
      assert t[..2] == "*/";
      PrefixSplit(t, 2, BlockBody(t[2..], depth - 1).len);
    } else {
      var rs := ReadIsBodies(t[1..], depth);
      bs := [Char(t[0], rs[0])] + rs[1..];
      TextsChar(t[0], rs);
      assert t[..1] == [t[0]];
      PrefixSplit(t, 1, BlockBody(t[1..], depth).len);
      TextsCons(rs[0], rs[1..]);
      assert [rs[0]] + rs[1..] == rs && WellFormed(rs[0]);
      assert Text(rs[0])[0] == Texts(rs)[0] == t[1..][0];
    }
  }

  lemma PrefixSplit(t: string, k: nat, n: nat)
    requires k + n <= |t|
    ensures t[..k + n] == t[..k] + t[k..][..n]
  {
  }

  lemma TextsBase()
    ensures Texts([]) == "" && Text(Close) == "*/"
  {
  }

  lemma BlockCases(t: string, depth: nat)
    requires depth > 0 && BlockBody(t, depth).closed
    ensures |t| >= 2
    ensures BlockBody(t, depth) ==
      if Starts(t, '/', '*') then BlockBody(t[2..], depth + 1).Plus(2)
      else if Starts(t, '*', '/') then (if depth == 1 then Extent(2, true) else BlockBody(t[2..], depth - 1).Plus(2))
      else BlockBody(t[1..], depth).Plus(1)
  {
  }

  /** `t[..n]` is the rest of an opened comment: closed, or running to the end of the text. */
  ghost predicate IsBlock(t: string, n: nat)
    requires n <= |t|
  {
    || (exists b :: WellFormed(b) && Text(b) == t[..n])
    || (n == |t| && forall b :: WellFormed(b) ==> !(Text(b) <= t))
  }

  lemma BlockIff(t: string, n: nat)
    requires n <= |t|
    ensures IsBlock(t, n) <==> n == BlockBody(t, 1).len
  {
    hide BlockBody, Text, WellFormed;
    var e := BlockBody(t, 1);
    forall b | WellFormed(b) && Text(b) <= t ensures e == Extent(|Text(b)|, true) {
      PrefixIsRead(b, t);
    }
    if e.closed {
      var b := OneBody(t);
      assert Text(b) == t[..e.len];
    }
    if b :| WellFormed(b) && Text(b) == t[..n] {
      assert Text(b) <= t;
    }
  }

  lemma PrefixIsRead(b: Comment, t: string)
    requires WellFormed(b) && Text(b) <= t
    ensures BlockBody(t, 1) == Extent(|Text(b)|, true)
  {
    hide BlockBody, Text, WellFormed;
    BodyIsRead(b, t[|Text(b)|..], 1);
    assert Text(b) + t[|Text(b)|..] == t;
  }

  lemma OneBody(t: string) returns (b: Comment)
    requires BlockBody(t, 1).closed
    ensures WellFormed(b) && Text(b) == t[..BlockBody(t, 1).len]
  {
    hide BlockBody, Text, WellFormed, Texts;
    var bs := ReadIsBodies(t, 1);
    b := bs[0];
    TextsCons(b, []);
    TextsBase();
    assert bs == [b] + [] && b in bs;
  }

  // ----- strings

  /** How many backslashes stand directly before position `q`. */
  function Slashes(t: string, q: nat): (n: nat)
    requires q <= |t|
  {
    if q == 0 || t[q - 1] != '\\' then 0 else 1 + Slashes(t, q - 1)
  }

  /** A quote at `q` is escaped when an odd number of backslashes stands before it. */
  predicate Unescaped(t: string, q: nat)
    requires q < |t|
  {
    t[q] == '"' && Slashes(t, q) % 2 == 0
  }

  /** `t[..n]` is a string: it ends at the first unescaped quote after the opening one. */
  predicate IsString(t: string, n: nat)
    requires 0 < n <= |t| && t[0] == '"'
  {
    || (n >= 2 && Unescaped(t, n - 1) && forall q :: 1 <= q < n - 1 ==> !Unescaped(t, q))
    || (n == |t| && forall q :: 1 <= q < |t| ==> !Unescaped(t, q))
  }

  /** From a position with no half-read escape, the scan stops at the first unescaped quote. */
  lemma {:induction false} StringScan(t: string, k: nat)
    requires 1 <= k <= |t| && t[0] == '"' && Slashes(t, k) % 2 == 0
    ensures var e := StringBody(t[k..]);
      && (forall q :: k <= q < k + e.len - 1 ==> !Unescaped(t, q))
      && (e.closed ==> e.len > 0 && Unescaped(t, k + e.len - 1))
      && (!e.closed && e.len > 0 ==> !Unescaped(t, |t| - 1))
    decreases |t| - k
  {
    StringStep(t, k);
    hide StringBody, Slashes;
    if k < |t| && t[k] != '"' {
      if t[k] == '\\' {
        if k + 1 < |t| {
          StringScan(t, k + 2);
        }
      } else {
        StringScan(t, k + 1);
      }
    }
  }

  /** One step of the scan, and what it does to the parity. */
  lemma StringStep(t: string, k: nat)
    requires 1 <= k <= |t| && Slashes(t, k) % 2 == 0
    ensures StringBody(t[k..]) ==
      if k == |t| then Extent(0, false)
      else if t[k] == '"' then Extent(1, true)
      else if t[k] != '\\' then StringBody(t[k + 1..]).Plus(1)
      else if k + 1 == |t| then Extent(1, false) else StringBody(t[k + 2..]).Plus(2)
    ensures k < |t| && t[k] != '\\' ==> Slashes(t, k + 1) == 0
    ensures k + 1 < |t| && t[k] == '\\' ==> Slashes(t, k + 1) % 2 == 1 && Slashes(t, k + 2) % 2 == 0
  {
    if k < |t| {
      assert t[k..][1..] == t[k + 1..];
      assert k + 1 < |t| ==> t[k..][2..] == t[k + 2..];
      assert Slashes(t, k + 1) == if t[k] == '\\' then 1 + Slashes(t, k) else 0;
    }
  }

  lemma StringIff(t: string, n: nat)
    requires 0 < n <= |t| && t[0] == '"'
    ensures IsString(t, n) <==> n == 1 + StringBody(t[1..]).len
  {
    StringScan(t, 1);
  }

  // ----- raw strings

  /** `t` begins with a prefix of `o` characters, `h` hashes and a quote. */
  predicate RawOpening(t: string, o: nat, h: nat) {
    && (t[..if o <= |t| then o else 0] in {"r", "br", "cr"})
    && o + h < |t|
    && t[o + h] == '"'
    && forall k :: o <= k < o + h ==> t[k] == '#'
  }

  /** A quote and `h` hashes stand at `q`. */
  predicate Fence(t: string, q: nat, h: nat) {
    q + h < |t| && t[q] == '"' && forall k :: q < k <= q + h ==> t[k] == '#'
  }

  /** `t[..n]` runs to the end of the first fence at or after `from`, or to the end. */
  predicate EndsAtFence(t: string, from: nat, h: nat, n: nat)
    requires n <= |t|
  {
    || (from + h + 1 <= n && Fence(t, n - 1 - h, h) && forall q :: from <= q < n - 1 - h ==> !Fence(t, q, h))
    || (n == |t| && forall q :: from <= q < |t| ==> !Fence(t, q, h))
  }

  lemma {:induction false} HashesAtLeast(t: string, h: nat)
    requires h <= |t|
    ensures Hashes(t) >= h <==> forall k :: 0 <= k < h ==> t[k] == '#'
  {
  }

  lemma FenceHere(t: string, q: nat, h: nat)
    requires q < |t|
    ensures Fence(t, q, h) <==> |t[q..]| >= h + 1 && t[q] == '"' && Hashes(t[q..][1..]) >= h
  {
    var u := t[q..][1..];
    if |t[q..]| >= h + 1 {
      HashesAtLeast(u, h);
      if Hashes(u) >= h {
        assert forall k :: q < k <= q + h ==> t[k] == u[k - q - 1];
      }
      if Fence(t, q, h) {
        assert forall k :: 0 <= k < h ==> u[k] == t[q + 1 + k];
      }
    }
  }

  lemma {:induction false} RawScan(t: string, from: nat, h: nat)
    requires from <= |t|
    ensures var e := RawBody(t[from..], h);
      && (e.closed ==> e.len >= h + 1 && Fence(t, from + e.len - 1 - h, h)
                       && forall q :: from <= q < from + e.len - 1 - h ==> !Fence(t, q, h))
      && (!e.closed ==> forall q :: from <= q < |t| ==> !Fence(t, q, h))
    decreases |t| - from
  {
    var u := t[from..];
    if |u| >= h + 1 {
      FenceHere(t, from, h);
      if !(u[0] == '"' && Hashes(u[1..]) >= h) {
        assert u[1..] == t[from + 1..];
        RawScan(t, from + 1, h);
      }
    }
  }

  lemma FenceIff(t: string, from: nat, h: nat, n: nat)
    requires from <= n <= |t|
    ensures EndsAtFence(t, from, h, n) <==> n == from + RawBody(t[from..], h).len
  {
    hide Fence;
    RawScan(t, from, h);
    FenceFits(t, h);
  }

  lemma FenceFits(t: string, h: nat)
    ensures forall q: nat :: Fence(t, q, h) ==> q + h < |t|
  {
  }

  // ----- tokens

  /** `t[..n]` is the token of that kind at the head of `t`. */
  ghost predicate IsLexeme(prev: bool, t: string, kind: Kind, n: nat)
    requires 0 < n <= |t|
  {
    match kind
    case LineComment =>
      "//" <= t && '\n' !in t[..n] && (n == |t| || t[n] == '\n')
    case BlockComment =>
      "/*" <= t && n >= 2 && IsBlock(t[2..], n - 2)
    case RawString =>
      !prev && exists o: nat, h: nat :: RawOpening(t, o, h) && o + h < n && EndsAtFence(t, o + h + 1, h, n)
    case Str =>
      t[0] == '"' && IsString(t, n)
    case EscapedChar =>
      "'\\" <= t && EndsEscapedChar(t, n)
    case PlainChar =>
      n == 3 && t[0] == '\'' && t[1] != '\\' && t[2] == '\''
    case Code =>
      n == 1 && t[0] != '"' && !("//" <= t) && !("/*" <= t) && !("'\\" <= t)
      && !(|t| > 2 && t[0] == '\'' && t[2] == '\'')
      && (prev || forall o: nat, h: nat :: !RawOpening(t, o, h))
  }

  /** `'\''` is taken as it stands, any other escape runs to the next quote. */
  predicate EndsEscapedChar(t: string, n: nat)
    requires 2 <= |t| && 0 < n <= |t|
  {
    if |t| > 2 && t[2] == '\'' then n == if |t| < 4 then |t| else 4
    else
      || (n >= 3 && t[n - 1] == '\'' && '\'' !in t[2..n - 1])
      || (n == |t| && '\'' !in t[2..])
  }

  lemma {:induction false} UntilIff(t: string, c: char, n: nat)
    requires n <= |t|
    ensures n == Until(t, c) <==> c !in t[..n] && (n == |t| || t[n] == c)
  {
    var m := Until(t, c);
    if m < n {
      assert t[..n][m] == t[m];
    } else if n < m {
      assert t[..m][n] == t[n];
    }
  }

  lemma EscapedIff(t: string, n: nat)
    requires Starts(t, '\'', '\\') && 0 < n <= |t|
    ensures EndsEscapedChar(t, n) <==> n == Next(true, t).len
  {
    hide BlockBody, StringBody, RawBody, Hashes, Until;
    var u := t[2..];
    if n >= 3 {
      UntilIff(u, '\'', n - 3);
      assert u[..n - 3] == t[2..n - 1];
    }
    if '\'' !in t[2..] {
      UntilIff(u, '\'', |u|);
      assert u[..|u|] == u;
    }
  }

  lemma RawOpeningIff(t: string, o: nat, h: nat)
    ensures RawOpening(t, o, h) <==> RawOpens(t) && o == RawHead(t) && h == RawHashes(t)
  {
    if RawOpening(t, o, h) {
      RawPrefix(t, o);
      RawHeadHashes(t, o, h);
    }
    if RawOpens(t) && o == RawHead(t) && h == RawHashes(t) {
      RawPrefix(t, o);
      forall k | o <= k < o + h ensures t[k] == '#' {
        assert t[k] == t[o..][k - o];
      }
    }
  }

  lemma RawPrefix(t: string, o: nat)
    requires o <= |t|
    requires o < |t| ==> t[o] == '#' || t[o] == '"'
    ensures t[..o] in {"r", "br", "cr"} <==> o > 0 && o == RawHead(t)
  {
    if o == 1 {
      assert t[..1] == [t[0]];
    } else if o == 2 {
      assert t[..2] == [t[0], t[1]];
    }
  }

  lemma RawHeadHashes(t: string, o: nat, h: nat)
    requires RawOpening(t, o, h) && o == RawHead(t)
    ensures RawHashes(t) == h
  {
    assert forall k :: 0 <= k < h ==> t[o..][k] == t[o + k];
    HashesAtLeast(t[o..], h);
    assert t[o..][h] == '"';
  }

  lemma RawIff(prev: bool, t: string, n: nat)
    requires 0 < n <= |t|
    ensures IsLexeme(prev, t, RawString, n) <==>
      && !prev && RawOpens(t)
      && var body := RawHead(t) + RawHashes(t) + 1;
         n == body + RawBody(t[body..], RawHashes(t)).len
  {
    hide RawOpens, RawOpening, EndsAtFence;
    forall o: nat, h: nat ensures RawOpening(t, o, h) <==> RawOpens(t) && o == RawHead(t) && h == RawHashes(t) {
      RawOpeningIff(t, o, h);
    }
    if RawOpens(t) {
      var o, h := RawHead(t), RawHashes(t);
      assert RawOpening(t, o, h);
      RawOpeningFits(t, o, h);
      if o + h < n {
        FenceIff(t, o + h + 1, h, n);
      }
    }
  }

  lemma RawOpeningFits(t: string, o: nat, h: nat)
    requires RawOpening(t, o, h)
    ensures o + h + 1 <= |t|
  {
  }

  /** The scanner's token is the one and only token that the text begins with. */
  lemma LexemeIff(prev: bool, t: string, kind: Kind, n: nat)
    requires 0 < n <= |t|
    ensures IsLexeme(prev, t, kind, n) <==> kind == Next(prev, t).kind && n == Next(prev, t).len
  {
    hide BlockBody, StringBody, RawBody, Hashes, Until, IsBlock, EndsAtFence, RawOpening, IsString, EndsEscapedChar;
    RawIsNotMark(t);
    StartsIff(t);
    match kind {
      case LineComment => UntilIff(t, '\n', n);
      case BlockComment => if n >= 2 && |t| >= 2 { BlockIff(t[2..], n - 2); }
      case RawString => RawIff(prev, t, n);
      case Str => if t[0] == '"' { StringIff(t, n); }
      case EscapedChar => if Starts(t, '\'', '\\') { EscapedIff(t, n); }
      case PlainChar =>
      case Code => CodeIff(prev, t, n);
    }
  }

  lemma StartsIff(t: string)
    ensures Starts(t, '/', '/') <==> "//" <= t
    ensures Starts(t, '/', '*') <==> "/*" <= t
    ensures Starts(t, '\'', '\\') <==> "'\\" <= t
  {
  }

  lemma RawIsNotMark(t: string)
    requires t != ""
    ensures RawOpens(t) ==> t[0] != '/' && t[0] != '"' && t[0] != '\''
  {
  }

  lemma CodeIff(prev: bool, t: string, n: nat)
    requires 0 < n <= |t|
    ensures IsLexeme(prev, t, Code, n) <==> Next(prev, t).kind == Code && n == Next(prev, t).len
  {
    hide BlockBody, StringBody, RawBody, Hashes, Until, RawOpening, RawOpens;
    forall o: nat, h: nat ensures RawOpening(t, o, h) <==> RawOpens(t) && o == RawHead(t) && h == RawHashes(t) {
      RawOpeningIff(t, o, h);
    }
    assert RawOpening(t, RawHead(t), RawHashes(t)) <==> RawOpens(t);
    StartsIff(t);
  }

  // ----- the whole source

  /** The characters of a Rust word, and of `\w` in the script's patterns. */
  const WORD := UPPER + LOWER + DIGITS + "_"
  const UPPER := "ABCDEFGHIJKLMNOPQRSTUVWXYZ"
  const LOWER := "abcdefghijklmnopqrstuvwxyz"
  const DIGITS := "0123456789"

  lemma UpperIff(c: char)
    ensures c in UPPER <==> 'A' <= c <= 'Z'
  {
    if 'A' <= c <= 'Z' {
      assert UPPER[c as int - 'A' as int] == c;
    }
  }

  lemma LowerIff(c: char)
    ensures c in LOWER <==> 'a' <= c <= 'z'
  {
    if 'a' <= c <= 'z' {
      assert LOWER[c as int - 'a' as int] == c;
    }
  }

  lemma DigitIff(c: char)
    ensures c in DIGITS <==> '0' <= c <= '9'
  {
    if '0' <= c <= '9' {
      assert DIGITS[c as int - '0' as int] == c;
    }
  }

  lemma WordIff(c: char)
    ensures c in WORD <==> IsIdent(c)
  {
    hide UPPER, LOWER, DIGITS;
    UpperIff(c);
    LowerIff(c);
    DigitIff(c);
  }

  datatype Lexeme = Lexeme(kind: Kind, text: string)

  /** `ts` cuts the whole of `t` into tokens. */
  ghost predicate IsSplit(prev: bool, t: string, ts: seq<Lexeme>)
    decreases |ts|
  {
    if ts == [] then t == ""
    else
      var x := ts[0].text;
      && 0 < |x| <= |t| && t[..|x|] == x
      && IsLexeme(prev, t, ts[0].kind, |x|)
      && IsSplit(x[|x| - 1] in WORD, t[|x|..], ts[1..])
  }

  function Masked(ts: seq<Lexeme>): string {
    if ts == [] then "" else Mask(ts[0].kind, ts[0].text) + Masked(ts[1..])
  }

  /** Every source can be cut into tokens. */
  lemma {:induction false} SplitExists(prev: bool, t: string) returns (ts: seq<Lexeme>)
    ensures IsSplit(prev, t, ts)
    decreases |t|
  {
    hide Next, IsLexeme, WORD;
    if t == "" {
      ts := [];
    } else {
      var k := Next(prev, t);
      LexemeIff(prev, t, k.kind, k.len);
      WordIff(t[k.len - 1]);
      var rest := SplitExists(After(prev, t).0, After(prev, t).1);
      ts := [Lexeme(k.kind, t[..k.len])] + rest;
      assert ts[1..] == rest;
    }
  }

  /** In whatever way a source is cut into tokens, blanking masks exactly those tokens. */
  lemma {:induction false} BlankedIsMasked(prev: bool, t: string, ts: seq<Lexeme>)
    requires IsSplit(prev, t, ts)
    ensures Blanked(prev, t) == Masked(ts)
    decreases |ts|
  {
    hide Next, IsLexeme, Mask, WORD;
    if ts != [] {
      LexemeIff(prev, t, ts[0].kind, |ts[0].text|);
      WordIff(t[|ts[0].text| - 1]);
      BlankedIsMasked(After(prev, t).0, After(prev, t).1, ts[1..]);
      BlankedUnfolds(prev, t);
    }
  }

  /** There is only one way to cut a source into tokens. */
  lemma {:induction false} SplitUnique(prev: bool, t: string, ts: seq<Lexeme>, us: seq<Lexeme>)
    requires IsSplit(prev, t, ts) && IsSplit(prev, t, us)
    ensures ts == us
    decreases |ts|
  {
    hide Next, IsLexeme, WORD;
    if ts != [] && us != [] {
      LexemeIff(prev, t, ts[0].kind, |ts[0].text|);
      LexemeIff(prev, t, us[0].kind, |us[0].text|);
      WordIff(t[|ts[0].text| - 1]);
      SplitUnique(After(prev, t).0, After(prev, t).1, ts[1..], us[1..]);
      assert ts == [ts[0]] + ts[1..] && us == [us[0]] + us[1..];
    }
  }

  /** Where the token after `ts` begins. */
  function Length(ts: seq<Lexeme>): nat {
    if ts == [] then 0 else |ts[0].text| + Length(ts[1..])
  }

  /** In a source cut into tokens, character `p` of token `j` stands where the tokens before it end. */
  lemma {:induction false} TokenAt(prev: bool, t: string, ts: seq<Lexeme>, j: nat, p: nat)
    requires IsSplit(prev, t, ts) && j < |ts| && p < |ts[j].text|
    ensures var at := Length(ts[..j]) + p;
      at < |t| == |Masked(ts)| && t[at] == ts[j].text[p] && Masked(ts)[at] == Mask(ts[j].kind, ts[j].text)[p]
    decreases |ts|
  {
    hide IsLexeme, Mask, WORD;
    MaskedLength(prev, t, ts);
    var x := ts[0].text;
    if j == 0 {
      assert t[p] == t[..|x|][p];
    } else {
      assert ts[1..][..j - 1] == ts[..j][1..];
      TokenAt(x[|x| - 1] in WORD, t[|x|..], ts[1..], j - 1, p);
    }
  }

  lemma {:induction false} MaskedLength(prev: bool, t: string, ts: seq<Lexeme>)
    requires IsSplit(prev, t, ts)
    ensures |Masked(ts)| == |t|
    decreases |ts|
  {
    hide IsLexeme, Mask, WORD;
    if ts != [] {
      var x := ts[0].text;
      MaskedLength(x[|x| - 1] in WORD, t[|x|..], ts[1..]);
    }
  }

  /**
   In the blanked source the characters of the code stand where they stood, and those of
   comments and literals are blank, so a brace that is counted is a brace of the code.
   */
  lemma NoBraceSurvives(prev: bool, t: string, ts: seq<Lexeme>, j: nat, p: nat)
    requires IsSplit(prev, t, ts) && j < |ts| && p < |ts[j].text|
    ensures var at, b := Length(ts[..j]) + p, Blanked(prev, t);
      && at < |t| == |b| && t[at] == ts[j].text[p]
      && (if ts[j].kind == Code then b[at] == t[at] else Blank?(b[at]))
  {
    hide IsLexeme, IsSplit;
    BlankedIsMasked(prev, t, ts);
    TokenAt(prev, t, ts, j, p);
    if ts[j].kind != Code {
      MaskedAreBlank(ts[j].kind, ts[j].text);
    }
  }
}
