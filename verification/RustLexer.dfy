/**
 The lexer of scripts/fn-size.py: which characters of a Rust source are comment,
 literal or code, and the source with everything but code blanked out.

 The specification works on the text that is still to be read and on one bit, whether
 the character just before it could end an identifier.  `Blank` is the index-driven
 scanner, proved to compute that specification.
 */
module RustLexer {

  datatype Kind = LineComment | BlockComment | RawString | Str | EscapedChar | PlainChar | Code

  /** How many characters a scan consumed, and whether it met its terminator. */
  datatype Extent = Extent(len: nat, closed: bool) {
    function Plus(n: nat): Extent {
      Extent(len + n, closed)
    }
  }

  datatype Token = Token(kind: Kind, len: nat, closed: bool)

  predicate IsIdent(c: char) {
    'a' <= c <= 'z' || 'A' <= c <= 'Z' || '0' <= c <= '9' || c == '_'
  }

  predicate Starts(t: string, a: char, b: char) {
    |t| >= 2 && t[0] == a && t[1] == b
  }

  /** The number of characters before the first `c`, or all of them. */
  function Until(t: string, c: char): (n: nat)
    ensures n <= |t|
    ensures c !in t[..n]
    ensures n < |t| ==> t[n] == c
  {
    if t == "" || t[0] == c then 0 else 1 + Until(t[1..], c)
  }

  /** What follows the opening of a block comment, `depth` comments being open. */
  function BlockBody(t: string, depth: nat): (e: Extent)
    requires depth > 0
    ensures e.len <= |t|
    ensures !e.closed ==> e.len == |t|
    decreases |t|
  {
    if t == "" then Extent(0, false)
    else if Starts(t, '/', '*') then BlockBody(t[2..], depth + 1).Plus(2)
    else if Starts(t, '*', '/') then
      if depth == 1 then Extent(2, true) else BlockBody(t[2..], depth - 1).Plus(2)
    else BlockBody(t[1..], depth).Plus(1)
  }

  /** What follows the opening quote of a string. */
  function StringBody(t: string): (e: Extent)
    ensures e.len <= |t|
    ensures !e.closed ==> e.len == |t|
    decreases |t|
  {
    if t == "" then Extent(0, false)
    else if t[0] == '"' then Extent(1, true)
    else if t[0] == '\\' then
      if |t| == 1 then Extent(1, false) else StringBody(t[2..]).Plus(2)
    else StringBody(t[1..]).Plus(1)
  }

  /** The number of leading hashes. */
  function Hashes(t: string): (n: nat)
    ensures n <= |t|
    ensures forall k :: 0 <= k < n ==> t[k] == '#'
    ensures n < |t| ==> t[n] != '#'
  {
    if t == "" || t[0] != '#' then 0 else 1 + Hashes(t[1..])
  }

  /** The length of the `br`, `cr` or `r` that can open a raw string, or 0. */
  function RawHead(t: string): (n: nat)
    ensures n <= |t|
  {
    if Starts(t, 'b', 'r') || Starts(t, 'c', 'r') then 2
    else if t != "" && t[0] == 'r' then 1
    else 0
  }

  function RawHashes(t: string): (n: nat)
    ensures RawHead(t) + n <= |t|
  {
    Hashes(t[RawHead(t)..])
  }

  predicate RawOpens(t: string) {
    var q := RawHead(t) + RawHashes(t);
    RawHead(t) > 0 && q < |t| && t[q] == '"'
  }

  /** What follows the opening quote of a raw string that has `h` hashes. */
  function RawBody(t: string, h: nat): (e: Extent)
    ensures e.len <= |t|
    ensures !e.closed ==> e.len == |t|
  {
    if |t| < h + 1 then Extent(|t|, false)
    else if t[0] == '"' && Hashes(t[1..]) >= h then Extent(h + 1, true)
    else RawBody(t[1..], h).Plus(1)
  }

  /** The token that `t` begins with. */
  function Next(prev: bool, t: string): (k: Token)
    requires t != ""
    ensures 0 < k.len <= |t|
    ensures !k.closed ==> k.len == |t|
  {
    if Starts(t, '/', '/') then
      Token(LineComment, Until(t, '\n'), true)
    else if Starts(t, '/', '*') then
      var e := BlockBody(t[2..], 1);
      Token(BlockComment, 2 + e.len, e.closed)
    else if !prev && RawOpens(t) then
      var o := RawHead(t) + RawHashes(t) + 1;
      var e := RawBody(t[o..], RawHashes(t));
      Token(RawString, o + e.len, e.closed)
    else if t[0] == '"' then
      var e := StringBody(t[1..]);
      Token(Str, 1 + e.len, e.closed)
    else if Starts(t, '\'', '\\') then
      if |t| > 2 && t[2] == '\'' then
        Token(EscapedChar, if |t| < 4 then |t| else 4, true)
      else
        var q := Until(t[2..], '\'');
        if q < |t| - 2 then Token(EscapedChar, q + 3, true) else Token(EscapedChar, |t|, false)
    else if |t| > 2 && t[0] == '\'' && t[2] == '\'' then
      Token(PlainChar, 3, true)
    else
      Token(Code, 1, true)
  }

  function Spaces(n: nat): (r: string)
    ensures |r| == n
    ensures forall k :: 0 <= k < n ==> r[k] == ' '
  {
    seq(n, _ => ' ')
  }

  function KeepNewlines(x: string): (r: string)
    ensures |r| == |x|
    ensures forall k :: 0 <= k < |x| ==> r[k] == if x[k] == '\n' then '\n' else ' '
  {
    seq(|x|, k requires 0 <= k < |x| => if x[k] == '\n' then '\n' else ' ')
  }

  /** What the text `x` of a token becomes. */
  function Mask(kind: Kind, x: string): (r: string)
    ensures |r| == |x|
  {
    match kind
    case Code => x
    case LineComment => Spaces(|x|)
    case PlainChar => Spaces(|x|)
    case _ => KeepNewlines(x)
  }

  /** The text `t` with comments and literals blanked. */
  function Blanked(prev: bool, t: string): string
    decreases |t|
  {
    if t == "" then ""
    else
      var k := Next(prev, t);
      Mask(k.kind, t[..k.len]) + Blanked(IsIdent(t[k.len - 1]), t[k.len..])
  }

  // ----- the scanner

  predicate PrevIdent(src: string, i: nat)
    requires i <= |src|
  {
    i > 0 && IsIdent(src[i - 1])
  }

  /** `src.startswith(ab, i)` for a two-character `ab`. */
  predicate StartsAt(src: string, i: nat, a: char, b: char) {
    i + 1 < |src| && src[i] == a && src[i + 1] == b
  }

  /** `src.find(c, from)`. */
  function Find(src: string, c: char, from: nat): (j: int)
    ensures j == -1 || (from <= j < |src| && src[j] == c)
  {
    if from > |src| then -1
    else
      var k := Until(src[from..], c);
      if from + k == |src| then -1 else from + k
  }

  method SkipBlockComment(src: string, i: nat) returns (j: nat)
    requires StartsAt(src, i, '/', '*')
    ensures j == i + 2 + BlockBody(src[i + 2..], 1).len
  {
    hide BlockBody;
    var depth := 1;
    j := i + 2;
    ghost var whole := BlockBody(src[i + 2..], 1).len;
    while j < |src| && depth > 0
      invariant i + 2 <= j <= |src|
      invariant depth == 0 ==> j == i + 2 + whole
      invariant depth > 0 ==> j + BlockBody(src[j..], depth).len == i + 2 + whole
      decreases |src| - j
    {
      BlockStep(src, j, depth);
      if StartsAt(src, j, '/', '*') {
        depth := depth + 1;
        j := j + 2;
      } else if StartsAt(src, j, '*', '/') {
        depth := depth - 1;
        j := j + 2;
      } else {
        j := j + 1;
      }
    }
    BlockNothing(src[|src|..], if depth > 0 then depth else 1);
  }

  lemma BlockNothing(t: string, depth: nat)
    requires t == "" && depth > 0
    ensures BlockBody(t, depth).len == 0
  {
  }

  lemma BlockStep(src: string, j: nat, depth: nat)
    requires j < |src| && depth > 0
    ensures BlockBody(src[j..], depth).len ==
      if StartsAt(src, j, '/', '*') then BlockBody(src[j + 2..], depth + 1).len + 2
      else if StartsAt(src, j, '*', '/') then
        if depth == 1 then 2 else BlockBody(src[j + 2..], depth - 1).len + 2
      else BlockBody(src[j + 1..], depth).len + 1
  {
    assert src[j..][1..] == src[j + 1..];
    assert j + 1 < |src| ==> src[j..][2..] == src[j + 2..];
  }

  /** The index past the closing quote, which an unclosed string places past the end. */
  method SkipString(src: string, i: nat) returns (j: nat)
    requires i < |src| && src[i] == '"'
    ensures (if j <= |src| then j else |src|) == i + 1 + StringBody(src[i + 1..]).len
    ensures j > i
  {
    j := i + 1;
    ghost var whole := StringBody(src[i + 1..]).len;
    while j < |src| && src[j] != '"'
      invariant i + 1 <= j <= |src| + 1
      invariant j <= |src| ==> j + StringBody(src[j..]).len == i + 1 + whole
      invariant j == |src| + 1 ==> |src| == i + 1 + whole
    {
      assert src[j..][1..] == src[j + 1..];
      assert j + 1 < |src| ==> src[j..][2..] == src[j + 2..];
      j := j + if src[j] == '\\' then 2 else 1;
    }
    j := j + 1;
  }

  /** What the scanner still has to produce from position `i` on. */
  function Rest(src: string, i: nat): string
    requires i <= |src|
  {
    Blanked(PrevIdent(src, i), src[i..])
  }

  lemma RestAtEnds(src: string)
    ensures Rest(src, 0) == Blanked(false, src)
    ensures Rest(src, |src|) == ""
  {
    assert src[0..] == src;
  }

  lemma BlankedUnfolds(prev: bool, t: string)
    requires t != ""
    ensures var k := Next(prev, t);
      Blanked(prev, t) == Mask(k.kind, t[..k.len]) + Blanked(IsIdent(t[k.len - 1]), t[k.len..])
  {
  }

  lemma RestStep(src: string, i: nat)
    requires i < |src|
    ensures var k := Next(PrevIdent(src, i), src[i..]);
      i + k.len <= |src| && Rest(src, i) == Mask(k.kind, src[i..i + k.len]) + Rest(src, i + k.len)
  {
    hide Next, Mask, Blanked;
    var t := src[i..];
    var k := Next(PrevIdent(src, i), t);
    BlankedUnfolds(PrevIdent(src, i), t);
    assert t[..k.len] == src[i..i + k.len];
    assert t[k.len..] == src[i + k.len..];
  }

  /** A quote: a char literal, or the mark of a lifetime or loop label. */
  method ScanQuote(src: string, i: nat) returns (j: nat, piece: string)
    requires i < |src| && src[i] == '\''
    ensures var k := Next(PrevIdent(src, i), src[i..]);
      j == i + k.len <= |src| && piece == Mask(k.kind, src[i..j])
  {
    hide BlockBody, StringBody, RawBody, Hashes, Until;
    var n := |src|;
    ghost var t := src[i..];
    if StartsAt(src, i, '\'', '\\') {
      assert src[i + 2..] == t[2..];
      var q := Find(src, '\'', i + 2);
      if i + 2 < n && src[i + 2] == '\'' {
        q := i + 3;
      }
      j := if q < 0 || q >= n then n else q + 1;
      piece := KeepNewlines(src[i..j]);
    } else if i + 2 < n && src[i + 2] == '\'' {
      j := i + 3;
      piece := Spaces(3);
    } else {
      j := i + 1;
      piece := [src[i]];
    }
  }

  /** The end of the token at `i`, and what is appended for it. */
  method ScanToken(src: string, i: nat) returns (j: nat, piece: string)
    requires i < |src|
    ensures var k := Next(PrevIdent(src, i), src[i..]);
      j == i + k.len <= |src| && piece == Mask(k.kind, src[i..j])
  {
    hide BlockBody, StringBody, RawBody, Hashes, Until;
    var c, n := src[i], |src|;
    ghost var t := src[i..];
    if c == '\'' {
      j, piece := ScanQuote(src, i);
    } else if StartsAt(src, i, '/', '/') {
      var end := Find(src, '\n', i);
      j := if end < 0 then n else end;
      piece := Spaces(j - i);
    } else if StartsAt(src, i, '/', '*') {
      j := SkipBlockComment(src, i);
      assert src[i + 2..] == t[2..];
      piece := KeepNewlines(src[i..j]);
    } else if (c == 'r' || c == 'b' || c == 'c') && !PrevIdent(src, i) && RawOpens(src[i..]) {
      var h := RawHashes(src[i..]);
      var o := i + RawHead(src[i..]) + h + 1;
      assert src[o..] == t[o - i..];
      j := o + RawBody(src[o..], h).len;
      piece := KeepNewlines(src[i..j]);
    } else if c == '"' {
      j := SkipString(src, i);
      assert src[i + 1..] == t[1..];
      j := if j <= n then j else n;
      piece := KeepNewlines(src[i..j]);
    } else {
      j := i + 1;
      piece := [c];
    }
  }

  method Blank(src: string) returns (out: string)
    ensures out == Blanked(false, src)
  {
    hide Next, Mask, Rest;
    out := "";
    var i := 0;
    RestAtEnds(src);
    while i < |src|
      invariant 0 <= i <= |src|
      invariant out + Rest(src, i) == Blanked(false, src)
    {
      RestStep(src, i);
      var j, piece := ScanToken(src, i);
      out := out + piece;
      i := j;
    }
  }
}
