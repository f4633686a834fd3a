/**
 A message as the bytes that travel: it is stuffed as code points, sent as UTF-8, and read back
 one character for each byte (`latin1` and `bytes` in SocketText.swift).
 */
module MessageBytes {
  import opened Basics
  import opened DotStuffing

  predicate IsAscii(c: char) {
    c < '\U{80}'
  }

  predicate Ascii(t: string) {
    forall i :: 0 <= i < |t| ==> IsAscii(t[i])
  }

  /** The byte that follows a leading byte: six bits of the number. */
  function Low(n: nat): (c: char)
    ensures '\U{80}' <= c < '\U{c0}'
  {
    (0x80 + n % 64) as char
  }

  /** The UTF-8 of one code point, each byte as the character of the same number. */
  function Encoded(c: char): (bs: string)
    ensures bs != "" && (IsAscii(c) ==> bs == [c])
    ensures !IsAscii(c) ==> '\U{c0}' <= bs[0] && forall i :: 0 <= i < |bs| ==> '\U{80}' <= bs[i] < '\U{100}'
  {
    var n := c as int;
    if n < 0x80 then [c]
    else if n < 0x800 then [(0xc0 + n / 64) as char, Low(n)]
    else if n < 0x1_0000 then [(0xe0 + n / 4_096) as char, Low(n / 64), Low(n)]
    else [(0xf0 + n / 262_144) as char, Low(n / 4_096), Low(n / 64), Low(n)]
  }

  function Bytes(t: string): string {
    if t == "" then "" else Encoded(t[0]) + Bytes(t[1..])
  }

  lemma {:induction false} BytesAppend(a: string, b: string)
    ensures Bytes(a + b) == Bytes(a) + Bytes(b)
  {
    hide Encoded;
    if a == "" {
      assert a + b == b;
    } else {
      assert (a + b)[1..] == a[1..] + b;
      BytesAppend(a[1..], b);
    }
  }

  lemma {:induction false} BytesOfAscii(t: string)
    requires Ascii(t)
    ensures Bytes(t) == t
  {
    if t != "" {
      BytesOfAscii(t[1..]);
      assert t == [t[0]] + t[1..];
    }
  }

  lemma {:induction false} LeadingByte(t: string, i: nat)
    requires i < |t|
    ensures Encoded(t[i])[0] in Bytes(t)
  {
    hide Encoded;
    if i > 0 {
      LeadingByte(t[1..], i - 1);
    }
  }

  /** The first byte is that of an ASCII character exactly when it is the first character. */
  lemma FirstByte(t: string, c: char)
    requires IsAscii(c)
    ensures Bytes(t) != "" && Bytes(t)[0] == c <==> t != "" && t[0] == c
  {
    hide Encoded;
  }

  // ----- reading UTF-8

  /** How many bytes the code point takes that begins with this byte, by section 3 of RFC 3629. */
  function Width(first: char): nat {
    if first < '\U{80}' then 1 else if first < '\U{e0}' then 2 else if first < '\U{f0}' then 3 else 4
  }

  /** The six bits of a byte that is not the first. */
  function Six(c: char): int {
    c as int - 0x80
  }

  /** The number of the code point that the bytes begin with. */
  function First(bs: string): int
    requires bs != "" && |bs| >= Width(bs[0])
  {
    match Width(bs[0])
    case 1 => bs[0] as int
    case 2 => (bs[0] as int - 0xc0) * 64 + Six(bs[1])
    case 3 => (bs[0] as int - 0xe0) * 4_096 + Six(bs[1]) * 64 + Six(bs[2])
    case _ => (bs[0] as int - 0xf0) * 262_144 + Six(bs[1]) * 4_096 + Six(bs[2]) * 64 + Six(bs[3])
  }

  /** The code points, as numbers; the bytes of one that is cut short are left out. */
  function Decoded(bs: string): seq<int>
    decreases |bs|
  {
    if bs == "" || |bs| < Width(bs[0]) then [] else [First(bs)] + Decoded(bs[Width(bs[0])..])
  }

  function Numbers(t: string): seq<int> {
    seq(|t|, i requires 0 <= i < |t| => t[i] as int)
  }

  /** A code point is written in the least number of bytes, and read back as it was. */
  lemma EncodedIs(c: char, rest: string)
    ensures |Encoded(c)| == (if c < '\U{80}' then 1 else if c < '\U{800}' then 2 else if c < '\U{10000}' then 3 else 4)
    ensures Width(Encoded(c)[0]) == |Encoded(c)| && First(Encoded(c) + rest) == c as int
  {
    var (n, bs) := (c as int, Encoded(c));
    assert forall i :: 0 <= i < |bs| ==> (bs + rest)[i] == bs[i];
    assert n / 4_096 == n / 64 / 64 && n / 262_144 == n / 4_096 / 64;
    assert n == n / 64 * 64 + n % 64;
  }

  /** UTF-8 is read back as the code points that were written. */
  lemma {:induction false} BytesReadBack(t: string)
    ensures Decoded(Bytes(t)) == Numbers(t)
  {
    hide Encoded, First, Width;
    if t != "" {
      EncodedIs(t[0], Bytes(t[1..]));
      BytesReadBack(t[1..]);
      assert (Encoded(t[0]) + Bytes(t[1..]))[|Encoded(t[0])|..] == Bytes(t[1..]);
      assert Numbers(t) == [t[0] as int] + Numbers(t[1..]);
    }
  }

  // ----- stuffing

  lemma {:induction false} StuffedOther(start: bool, x: string)
    requires forall i :: 0 <= i < |x| ==> !IsAscii(x[i])
    ensures Stuffed(start, x) == x
    decreases |x|
  {
    if x != "" {
      StuffedOther(false, x[1..]);
    }
  }

  /** Stuffing the code points is stuffing the bytes. */
  lemma {:induction false} StuffedBytes(start: bool, t: string)
    ensures Stuffed(start, Bytes(t)) == Bytes(Stuffed(start, t))
    decreases |t|
  {
    hide Encoded, Stuffed, Bytes;
    BytesOfAscii("");
    StuffedNothing(start);
    if t != "" {
      var (c, rest) := (t[0], t[1..]);
      BytesFirst(t);
      StuffedBytes(c == '\n', rest);
      StuffedCons(start, t);
      StuffedSplits(start, Encoded(c), Bytes(rest));
      BytesAppend(if start && c == '.' then ".." else [c], Stuffed(c == '\n', rest));
      StuffedOne(start, c);
    }
  }

  lemma BytesFirst(t: string)
    requires t != ""
    ensures Bytes(t) == Encoded(t[0]) + Bytes(t[1..])
  {
  }

  lemma StuffedOne(start: bool, c: char)
    ensures Stuffed(start, Encoded(c)) == Bytes(if start && c == '.' then ".." else [c])
    ensures LineStart(start, Encoded(c)) == (c == '\n')
  {
    hide Encoded;
    if IsAscii(c) {
      assert [c][1..] == "";
      BytesOfAscii(if start && c == '.' then ".." else [c]);
    } else {
      StuffedOther(start, Encoded(c));
      assert [c][1..] == "";
    }
  }

  /** Stuffing adds as many bytes as characters. */
  lemma {:induction false} BytesAdded(start: bool, t: string)
    ensures |Bytes(Stuffed(start, t))| - |Bytes(t)| == |Stuffed(start, t)| - |t|
    decreases |t|
  {
    hide Encoded, Stuffed, Bytes;
    StuffedNothing(start);
    if t != "" {
      var (c, rest) := (t[0], t[1..]);
      BytesFirst(t);
      BytesAdded(c == '\n', rest);
      StuffedCons(start, t);
      var head := if start && c == '.' then ".." else [c];
      BytesAppend(head, Stuffed(c == '\n', rest));
      BytesFirst([c]);
      BytesOfAscii("");
      assert [c][1..] == "";
      if head == ".." {
        BytesOfAscii("..");
      }
    }
  }

  lemma SameInside(l: string)
    ensures Stuffed(false, Bytes(l)) == Bytes(l) <==> Stuffed(false, l) == l
  {
    hide Stuffed, Bytes;
    StuffedBytes(false, l);
    BytesAdded(false, l);
    StuffedLonger(false, l);
  }

  // ----- lines

  function BytesEach(ls: seq<string>): (r: seq<string>)
    ensures |r| == |ls| && forall i :: 0 <= i < |ls| ==> r[i] == Bytes(ls[i])
  {
    if ls == [] then [] else [Bytes(ls[0])] + BytesEach(ls[1..])
  }

  lemma {:induction false} LinesPrepend(x: string, r: string)
    requires forall i :: 0 <= i < |x| ==> !IsAscii(x[i])
    ensures Lines(x + r) == [x + Lines(r)[0]] + Lines(r)[1..]
  {
    hide Lines;
    if x == "" {
      assert x + r == r && "" + Lines(r)[0] == Lines(r)[0];
    } else {
      var t := x[1..] + r;
      assert x + r == [x[0]] + t;
      LinesPrepend(x[1..], r);
      LinesCons(x[0], t);
      assert [x[0]] + (x[1..] + Lines(r)[0]) == x + Lines(r)[0];
    }
  }

  /** Cutting the bytes into lines is cutting the code points. */
  lemma {:induction false} LinesBytes(t: string)
    ensures Lines(Bytes(t)) == BytesEach(Lines(t))
    decreases |t|
  {
    hide Encoded, Lines, Bytes;
    LinesNothing();
    BytesOfAscii("");
    if AtBreak(t) {
      var r := t[2..];
      assert t == CRLF + r;
      BytesAppend(CRLF, r);
      BytesOfAscii(CRLF);
      LinesBytes(r);
      LinesBreak(r);
      LinesBreak(Bytes(r));
    } else if t != "" {
      var (c, r) := (t[0], t[1..]);
      assert t == [c] + r;
      BytesFirst(t);
      LinesBytes(r);
      LinesCons(c, r);
      FirstByte(r, '\n');
      BytesAppend([c], Lines(r)[0]);
      BytesFirst([c]);
      assert [c][1..] == "";
      if IsAscii(c) {
        LinesCons(c, Bytes(r));
      } else {
        LinesPrepend(Encoded(c), Bytes(r));
      }
      assert Bytes([c]) == Encoded(c) && Lines(t)[0] == [c] + Lines(r)[0];
      assert BytesEach(Lines(r))[1..] == BytesEach(Lines(r)[1..]);
      assert BytesEach(Lines(t)) == [Encoded(c) + Bytes(Lines(r)[0])] + BytesEach(Lines(r)[1..]);
    }
  }

  lemma {:induction false} SameInsideEach(ls: seq<string>)
    ensures NoInnerStuffing(BytesEach(ls)) <==> NoInnerStuffing(ls)
  {
    hide Stuffed, Bytes, NoInnerStuffing;
    if ls == [] {
      assert BytesEach(ls) == ls;
    } else {
      SameInside(ls[0]);
      SameInsideEach(ls[1..]);
      InsideCons(ls[0], ls[1..]);
      InsideCons(Bytes(ls[0]), BytesEach(ls[1..]));
      assert ls == [ls[0]] + ls[1..];
    }
  }

  // ----- lines that stop the reading

  /** A dot that stands after blanks and is followed by nothing else, the blanks being spaces and tabs. */
  predicate DotAmongBlanks(l: string) {
    exists k :: 0 < k < |l| && l[k] == '.' && forall j :: 0 <= j < |l| && j != k ==> l[j] == ' ' || l[j] == '\t'
  }

  lemma IndentedBytes(l: string)
    ensures IndentedDot(Bytes(l)) <==> DotAmongBlanks(l)
  {
    hide StopsReading, Bytes, Encoded;
    if IndentedDot(Bytes(l)) {
      StoppingLine(Bytes(l));
      forall i | 0 <= i < |l| ensures IsAscii(l[i]) {
        LeadingByte(l, i);
      }
      BytesOfAscii(l);
    }
    if DotAmongBlanks(l) {
      BytesOfAscii(l);
      var k :| 0 < k < |l| && l[k] == '.' && forall j :: 0 <= j < |l| && j != k ==> l[j] == ' ' || l[j] == '\t';
      DotStops(l, k);
    }
  }

  // ----- the round trip

  lemma LastByte(t: string, c: char)
    requires IsAscii(c)
    ensures Bytes(t) != "" && Bytes(t)[|Bytes(t)| - 1] == c <==> t != "" && t[|t| - 1] == c
  {
    hide Encoded, Bytes;
    BytesOfAscii("");
    if t != "" {
      var n := |t| - 1;
      assert t == t[..n] + [t[n]] && [t[n]][1..] == "";
      BytesAppend(t[..n], [t[n]]);
      BytesFirst([t[n]]);
    }
  }

  lemma EndOfBytes(t: string)
    ensures EndsLine(Bytes(t)) <==> EndsLine(t)
    ensures Bare(Bytes(t)) == Bytes(Bare(t))
  {
    hide Bytes;
    LastByte(t, '\n');
    if t != "" && t[|t| - 1] == '\n' {
      var front := t[..|t| - 1];
      assert t == front + "\n";
      BytesAppend(front, "\n");
      BytesOfAscii("\n");
      LastByte(front, '\r');
      if EndsLine(t) {
        assert front == Bare(t) + "\r";
        BytesAppend(Bare(t), "\r");
        BytesOfAscii("\r");
      }
    }
  }

  lemma WireBytes(m: string)
    ensures Bytes(Wire([m])) == Wire([Bytes(m)])
  {
    hide Bytes, Stuffed, EndsLine;
    WholePiece(m);
    WholePiece(Bytes(m));
    StuffedBytes(true, m);
    EndOfBytes(m);
    BytesAppend(Stuffed(true, m), Terminator(m));
    BytesOfAscii(Terminator(m));
  }

  /** No line is a dot among spaces and tabs. */
  predicate NoDotAmongBlanks(ls: seq<string>) {
    forall i :: 0 <= i < |ls| ==> !DotAmongBlanks(ls[i])
  }

  /**
   Sent as UTF-8 and read back byte by byte, a message of any code points arrives with all its
   bytes, without its final line break and with nothing left unread, exactly when no bare line
   feed stands before a dot and no line is a dot among spaces and tabs.
   */
  lemma RoundTripBytesIff(m: string)
    ensures Receive(Bytes(Wire([m]))) == Received(Bytes(Bare(m)), [])
      <==> NoBareLfDot(m) && NoDotAmongBlanks(Lines(Bare(m)))
  {
    hide Bytes, Lines, Receive, Wire, Bare, NoBareLfDot, NoInnerStuffing, IndentedDot, DotAmongBlanks;
    var ls := Lines(Bare(m));
    WireBytes(m);
    EndOfBytes(m);
    RoundTripIff(Bytes(m));
    CleanWhole(m);
    CleanWhole(Bytes(m));
    LinesBytes(Bare(m));
    SameInsideEach(ls);
    forall i | 0 <= i < |ls| ensures IndentedDot(BytesEach(ls)[i]) <==> DotAmongBlanks(ls[i]) {
      IndentedBytes(ls[i]);
    }
  }

  lemma NoBreakBytes()
    ensures Bytes("\U{a0}.") == "\U{c2}\U{a0}."
  {
    assert "\U{a0}."[1..] == "." && "."[1..] == "";
    assert Encoded('\U{a0}') == ['\U{c2}', '\U{a0}'];
  }

  lemma NoBreakLines(m: string)
    requires |m| == 2 && m[0] == '\U{a0}' && m[1] == '.'
    ensures Lines(m) == [m]
  {
    hide *;
    assert AtBreak(m) == false by { NoBreakIsNoEnd(m); }
    var r := m[1..];
    assert r == "." && m == [m[0]] + r;
    DotLines();
    LinesCons(m[0], r);
    assert ["."][1..] == [] && Lines(r)[0] == ".";
    assert Lines(m) == [m] + [];
  }

  lemma NoBreakIsNoEnd(m: string)
    requires |m| == 2 && m[0] == '\U{a0}' && m[1] == '.'
    ensures !AtBreak(m) && Bare(m) == m && NoBareLfDot(m)
  {
  }

  lemma NoBreakIsNoDot(m: string)
    requires |m| == 2 && m[0] == '\U{a0}' && m[1] == '.'
    ensures NoDotAmongBlanks([m])
  {
    assert m[0] != ' ' && m[0] != '\t';
  }

  /**
   A no-break space and a dot: of the two bytes before the dot one is no blank, so the line does
   not stop the reading, although as code points it would.
   */
  lemma NoBreakSpace()
    ensures StopsReading("\U{a0}.") && Receive(Bytes(Wire(["\U{a0}."]))) == Received("\U{c2}\U{a0}.", [])
  {
    hide *;
    var m := "\U{a0}.";
    NoBreakBytes();
    assert IsBlank(m[0]) by { BlankIs(); }
    DotStops(m, 1);
    NoBreakIsNoEnd(m);
    NoBreakIsNoDot(m);
    NoBreakLines(m);
    RoundTripBytesIff(m);
  }

  lemma BlankIs()
    ensures IsBlank('\U{a0}')
  {
  }
}
