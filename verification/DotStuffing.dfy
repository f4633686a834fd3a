/**
 Dot-stuffing on the way out (section 4.5.2 of RFC 5321) and its undoing on the way in
 (section 3 of RFC 1939): the streaming stuffer of DotStuffer.swift, the DATA block that
 SMTPSession.swift builds with it, and the response that POP3Session.swift reads back.
 */
module DotStuffing {
  import opened Basics
  import opened Decimal

  const CRLF := "\r\n"

  // ----- the stuffer

  /** The text with a dot doubled at every line start; `start` says whether `t` begins on one. */
  function Stuffed(start: bool, t: string): string
    decreases |t|
  {
    if t == "" then ""
    else (if start && t[0] == '.' then ".." else [t[0]]) + Stuffed(t[0] == '\n', t[1..])
  }

  lemma StuffedCons(start: bool, t: string)
    requires t != ""
    ensures Stuffed(start, t) == (if start && t[0] == '.' then ".." else [t[0]]) + Stuffed(t[0] == '\n', t[1..])
  {
  }

  /** Whether what follows `t` begins a line. */
  function LineStart(start: bool, t: string): bool {
    if t == "" then start else t[|t| - 1] == '\n'
  }

  lemma StuffedNothing(start: bool)
    ensures Stuffed(start, "") == ""
  {
  }

  /** The lines, each that begins with a dot with one more in front. */
  function Dotted(ls: seq<string>): (r: seq<string>)
    ensures |r| == |ls| && forall i :: 0 <= i < |ls| ==> r[i] == if "." <= ls[i] then "." + ls[i] else ls[i]
  {
    seq(|ls|, i requires 0 <= i < |ls| => if "." <= ls[i] then "." + ls[i] else ls[i])
  }

  /** The stuffed lines of a message whose first line begins a line or not. */
  function DottedFrom(start: bool, ls: seq<string>): seq<string>
    requires ls != []
  {
    (if start then Dotted([ls[0]]) else [ls[0]]) + Dotted(ls[1..])
  }

  /** Cut at its line feeds a message is stuffed line by line, the first one only if it begins a line. */
  lemma {:induction false} StuffedIs(start: bool, t: string)
    ensures Stuffed(start, t) == Join(DottedFrom(start, Split(t, '\n')), "\n")
    decreases |t|
  {
    hide Join, Stuffed, DottedFrom;
    StuffedNothing(start);
    if t == "" {
      NoLines(start);
    } else {
      StuffedIs(t[0] == '\n', t[1..]);
      StuffedCons(start, t);
      if t[0] == '\n' {
        FeedFirst(start, Split(t[1..], '\n'));
      } else {
        OtherFirst(start, t[0], Split(t[1..], '\n'));
      }
    }
  }

  lemma NoLines(start: bool)
    ensures Join(DottedFrom(start, [""]), "\n") == ""
  {
    assert Dotted([""]) == [""] && Dotted([]) == [] && [""][1..] == [] && [""] + [] == [""];
  }

  lemma FeedFirst(start: bool, more: seq<string>)
    requires more != []
    ensures Join(DottedFrom(start, [""] + more), "\n") == "\n" + Join(DottedFrom(true, more), "\n")
  {
    assert ([""] + more)[1..] == more && Dotted([""]) == [""];
    DottedSplit(more);
    var d := Dotted(more);
    JoinStep([""] + d, "\n");
    assert ([""] + d)[1..] == d;
    assert "" + "\n" + Join(d, "\n") == "\n" + Join(d, "\n");
  }

  lemma OtherFirst(start: bool, c: char, more: seq<string>)
    requires more != [] && c != '\n'
    ensures Join(DottedFrom(start, [[c] + more[0]] + more[1..]), "\n")
         == (if start && c == '.' then ".." else [c]) + Join(DottedFrom(false, more), "\n")
  {
    assert ([[c] + more[0]] + more[1..])[1..] == more[1..];
    DotFirst(start, c, more[0]);
    hide Join, Dotted;
    JoinHead(if start && c == '.' then ".." else [c], more[0], Dotted(more[1..]));
  }

  lemma DottedSplit(ls: seq<string>)
    requires ls != []
    ensures Dotted([ls[0]]) + Dotted(ls[1..]) == Dotted(ls)
  {
  }

  lemma DotFirst(start: bool, c: char, l: string)
    requires c != '\n'
    ensures (if start then Dotted([[c] + l]) else [[c] + l]) == [(if start && c == '.' then ".." else [c]) + l]
  {
    var x := [c] + l;
    assert x[0] == c;
    if c == '.' {
      assert x[..1] == "." && "." <= x;
      assert "." + x == ".." + l;
    } else {
      assert !("." <= x);
    }
    if start {
      assert Dotted([x])[0] == (if c == '.' then ".." else [c]) + l;
    }
  }

  lemma JoinHead(head: string, l: string, ls: seq<string>)
    ensures head + Join([l] + ls, "\n") == Join([head + l] + ls, "\n")
  {
    JoinStep([l] + ls, "\n");
    JoinStep([head + l] + ls, "\n");
    assert ([l] + ls)[1..] == ls && ([head + l] + ls)[1..] == ls;
    if ls != [] {
      assert head + (l + "\n" + Join(ls, "\n")) == head + l + "\n" + Join(ls, "\n");
    }
  }

  class DotStuffer {
    var atLineStart: bool

    constructor ()
      ensures atLineStart
    {
      atLineStart := true;
    }

    method Feed(chunk: string) returns (out: string)
      modifies this
      ensures out == Stuffed(old(atLineStart), chunk)
      ensures atLineStart == LineStart(old(atLineStart), chunk)
    {
      hide Stuffed;
      out := "";
      assert chunk[0..] == chunk;
      for i := 0 to |chunk|
        invariant out + Stuffed(atLineStart, chunk[i..]) == Stuffed(old(atLineStart), chunk)
        invariant atLineStart == LineStart(old(atLineStart), chunk[..i])
      {
        StuffedCons(atLineStart, chunk[i..]);
        assert chunk[i..][1..] == chunk[i + 1..];
        if atLineStart && chunk[i] == '.' {
          out := out + ".";
        }
        out := out + [chunk[i]];
        atLineStart := chunk[i] == '\n';
      }
      StuffedNothing(atLineStart);
      assert chunk[|chunk|..] == "" && chunk[..|chunk|] == chunk;
    }
  }

  lemma {:induction false} StuffedSplits(start: bool, x: string, y: string)
    ensures Stuffed(start, x + y) == Stuffed(start, x) + Stuffed(LineStart(start, x), y)
    decreases |x|
  {
    if x == "" {
      assert x + y == y;
    } else {
      assert (x + y)[1..] == x[1..] + y;
      StuffedSplits(x[0] == '\n', x[1..], y);
    }
  }

  /** What one stuffer gives for each of the pieces. */
  function Fed(start: bool, pieces: seq<string>): seq<string>
    decreases |pieces|
  {
    if pieces == [] then [] else [Stuffed(start, pieces[0])] + Fed(LineStart(start, pieces[0]), pieces[1..])
  }

  /**
   Cut anywhere and any number of times, between a CR and its LF or into nothing, the outputs
   join to that of the whole.
   */
  lemma {:induction false} FedInPieces(start: bool, pieces: seq<string>)
    ensures Flat(Fed(start, pieces)) == Stuffed(start, Flat(pieces))
    decreases |pieces|
  {
    if pieces == [] {
      StuffedNothing(start);
    } else {
      FedInPieces(LineStart(start, pieces[0]), pieces[1..]);
      StuffedSplits(start, pieces[0], Flat(pieces[1..]));
      assert Fed(start, pieces)[1..] == Fed(LineStart(start, pieces[0]), pieces[1..]);
    }
  }

  // ----- the DATA block

  predicate EndsLine(t: string) {
    |t| >= 2 && t[|t| - 2..] == CRLF
  }

  /** The last piece that is not empty, or nothing. */
  function LastPiece(pieces: seq<string>): string {
    if pieces == [] then ""
    else if pieces[|pieces| - 1] != "" then pieces[|pieces| - 1]
    else LastPiece(pieces[..|pieces| - 1])
  }

  function Terminator(last: string): string {
    if EndsLine(last) then ".\r\n" else "\r\n.\r\n"
  }

  /** What goes over the wire for a message handed over in `pieces`. */
  function Wire(pieces: seq<string>): string {
    Stuffed(true, Flat(pieces)) + Terminator(LastPiece(pieces))
  }

  /** The sending loop: one stuffer for all pieces, and the terminator chosen by the last one. */
  method Send(pieces: seq<string>) returns (wire: string)
    ensures wire == Wire(pieces)
  {
    var stuffer := new DotStuffer();
    var last := "";
    wire := "";
    for i := 0 to |pieces|
      invariant wire == Stuffed(true, Flat(pieces[..i]))
      invariant stuffer.atLineStart == LineStart(true, Flat(pieces[..i]))
      invariant last == LastPiece(pieces[..i])
    {
      assert pieces[..i + 1] == pieces[..i] + [pieces[i]];
      assert pieces[..i + 1][..i] == pieces[..i];
      FlatSnoc(pieces[..i], pieces[i]);
      StuffedSplits(true, Flat(pieces[..i]), pieces[i]);
      if pieces[i] != "" {
        var out := stuffer.Feed(pieces[i]);
        wire := wire + out;
        last := pieces[i];
      }
    }
    assert pieces[..|pieces|] == pieces;
    wire := wire + if EndsLine(last) then ".\r\n" else "\r\n.\r\n";
  }

  lemma {:induction false} LastIsSuffix(pieces: seq<string>)
    ensures var m, last := Flat(pieces), LastPiece(pieces);
      |last| <= |m| && m[|m| - |last|..] == last && (m != "" ==> last != "")
    decreases |pieces|
  {
    if pieces != [] {
      var n := |pieces| - 1;
      assert pieces == pieces[..n] + [pieces[n]];
      FlatSnoc(pieces[..n], pieces[n]);
      LastIsSuffix(pieces[..n]);
    }
  }

  lemma WholePiece(m: string)
    ensures Flat([m]) == m && LastPiece([m]) == m
  {
    assert [m][1..] == [] && [m][..0] == [];
  }

  lemma EndOfSuffix(m: string, last: string)
    requires |last| <= |m| && m[|m| - |last|..] == last && (m != "" ==> last != "")
    ensures EndsLine(last) == EndsLine(m) <==> !(EndsLine(m) && last == "\n")
  {
    assert |last| > 0 ==> last[|last| - 1] == m[|m| - 1];
    assert |last| > 1 ==> last[|last| - 2] == m[|m| - 2];
  }

  lemma SameTerminator(s: string, a: string, b: string)
    ensures s + Terminator(a) == s + Terminator(b) <==> EndsLine(a) == EndsLine(b)
  {
    assert |s + ".\r\n"| != |s + "\r\n.\r\n"|;
  }

  /**
   The wire does not depend on how the message was cut, save in one case: the message ends in
   a line break and the last piece holds only its line feed.  Then a blank line is added.
   */
  lemma SplitAnywhereIff(pieces: seq<string>)
    ensures Wire(pieces) == Wire([Flat(pieces)]) <==>
      !(EndsLine(Flat(pieces)) && LastPiece(pieces) == "\n")
  {
    hide Stuffed, Flat, LastPiece, EndsLine;
    var m, last := Flat(pieces), LastPiece(pieces);
    LastIsSuffix(pieces);
    WholePiece(m);
    EndOfSuffix(m, last);
    SameTerminator(Stuffed(true, m), last, m);
  }

  // ----- reading it back

  predicate AtBreak(t: string) {
    |t| >= 2 && t[0] == '\r' && t[1] == '\n'
  }

  /** The text cut at every CRLF, the way `readLine` cuts the stream. */
  function Lines(t: string): (ls: seq<string>)
    ensures ls != []
    decreases |t|
  {
    if t == "" then [""]
    else if AtBreak(t) then [""] + Lines(t[2..])
    else Grown(t[0], Lines(t[1..]))
  }

  /** The first line with one more character in front. */
  function Grown(c: char, ls: seq<string>): (r: seq<string>)
    requires ls != []
    ensures |r| == |ls| && r[0] == [c] + ls[0] && r[1..] == ls[1..]
  {
    [[c] + ls[0]] + ls[1..]
  }

  lemma LinesBreak(r: string)
    ensures Lines(CRLF + r) == [""] + Lines(r)
  {
    assert (CRLF + r)[2..] == r;
  }

  lemma LinesCons(c: char, r: string)
    requires !(c == '\r' && r != "" && r[0] == '\n')
    ensures Lines([c] + r) == Grown(c, Lines(r))
  {
    assert ([c] + r)[1..] == r;
  }

  lemma JoinGrown(c: char, ls: seq<string>)
    requires ls != []
    ensures Join(Grown(c, ls), CRLF) == [c] + Join(ls, CRLF)
  {
    if |ls| > 1 {
      assert [c] + ls[0] + CRLF + Join(ls[1..], CRLF) == [c] + (ls[0] + CRLF + Join(ls[1..], CRLF));
    }
  }

  lemma {:induction false} JoinLines(t: string)
    ensures Join(Lines(t), CRLF) == t
    decreases |t|
  {
    if AtBreak(t) {
      JoinLines(t[2..]);
      assert Lines(t)[1..] == Lines(t[2..]);
      assert t == "" + CRLF + t[2..];
    } else if t != "" {
      JoinLines(t[1..]);
      JoinGrown(t[0], Lines(t[1..]));
      assert t == [t[0]] + t[1..];
    }
  }

  lemma {:induction false} LinesAppend(x: string, y: string)
    ensures Lines(x + CRLF + y) == Lines(x) + Lines(y)
    decreases |x|
  {
    hide Lines;
    LinesNothing();
    if x == "" {
      LinesBreak(y);
      assert x + CRLF + y == CRLF + y;
    } else if AtBreak(x) {
      var r := x[2..];
      LinesAppend(r, y);
      LinesBreak(r);
      LinesBreak(r + CRLF + y);
      assert x == CRLF + r && x + CRLF + y == CRLF + (r + CRLF + y);
      assert [""] + (Lines(r) + Lines(y)) == [""] + Lines(r) + Lines(y);
    } else {
      var c, r := x[0], x[1..];
      LinesAppend(r, y);
      LinesCons(c, r);
      LinesCons(c, r + CRLF + y);
      assert x == [c] + r && x + CRLF + y == [c] + (r + CRLF + y);
      assert Grown(c, Lines(r) + Lines(y)) == Grown(c, Lines(r)) + Lines(y);
    }
  }

  lemma LinesNothing()
    ensures Lines("") == [""]
  {
  }

  function StuffedEach(ls: seq<string>): (r: seq<string>)
    ensures |r| == |ls|
    ensures forall i :: 0 <= i < |ls| ==> r[i] == Stuffed(true, ls[i])
  {
    if ls == [] then [] else [Stuffed(true, ls[0])] + StuffedEach(ls[1..])
  }

  /** A CRLF stands at `i`. */
  predicate BreakAt(t: string, i: int) {
    0 <= i < |t| - 1 && t[i] == '\r' && t[i + 1] == '\n'
  }

  ghost predicate NoBreak(t: string) {
    forall i :: !BreakAt(t, i)
  }

  lemma {:induction false} LinesPlain(t: string)
    requires NoBreak(t)
    ensures Lines(t) == [t]
    decreases |t|
  {
    hide Lines;
    LinesNothing();
    if t != "" {
      var r := t[1..];
      assert t == [t[0]] + r;
      assert !BreakAt(t, 0);
      forall i ensures !BreakAt(r, i) {
        assert !BreakAt(t, i + 1);
      }
      LinesPlain(r);
      LinesCons(t[0], r);
      assert Grown(t[0], [r]) == [t];
    }
  }

  lemma {:induction false} LinesHaveNoBreak(t: string, i: nat)
    requires i < |Lines(t)|
    ensures NoBreak(Lines(t)[i])
    decreases |t|
  {
    if AtBreak(t) {
      if i > 0 {
        LinesHaveNoBreak(t[2..], i - 1);
      }
    } else if t != "" {
      var ls := Lines(t[1..]);
      LinesHaveNoBreak(t[1..], i);
      if i == 0 {
        LineIsPrefix(t[1..]);
        forall k ensures !BreakAt([t[0]] + ls[0], k) {
          assert !BreakAt(ls[0], k - 1);
        }
      }
    }
  }

  lemma {:induction false} LineIsPrefix(t: string)
    ensures Lines(t)[0] <= t
    decreases |t|
  {
    if t != "" && !AtBreak(t) {
      LineIsPrefix(t[1..]);
      assert t == [t[0]] + t[1..];
    }
  }

  /** The lines of a text are the one way to cut it at CRLFs into pieces that hold none. */
  lemma LinesIff(t: string, ls: seq<string>)
    ensures ls == Lines(t) <==>
      ls != [] && Join(ls, CRLF) == t && forall i :: 0 <= i < |ls| ==> NoBreak(ls[i])
  {
    hide Lines, Join, NoBreak;
    if ls == Lines(t) {
      JoinLines(t);
      forall i | 0 <= i < |ls| ensures NoBreak(ls[i]) {
        LinesHaveNoBreak(t, i);
      }
    }
    if ls != [] && Join(ls, CRLF) == t && forall i :: 0 <= i < |ls| ==> NoBreak(ls[i]) {
      LinesOfJoined(ls);
    }
  }

  lemma {:induction false} LinesOfJoined(ls: seq<string>)
    requires ls != [] && forall i :: 0 <= i < |ls| ==> NoBreak(ls[i])
    ensures Lines(Join(ls, CRLF)) == ls
  {
    hide Lines, Join, NoBreak;
    JoinStep(ls, CRLF);
    LinesPlain(ls[0]);
    if |ls| > 1 {
      LinesAppend(ls[0], Join(ls[1..], CRLF));
      LinesOfJoined(ls[1..]);
      assert [ls[0]] + ls[1..] == ls;
    } else {
      assert ls == [ls[0]];
    }
  }

  /** Stuffing works on each CRLF line by itself. */
  lemma {:induction false} LinesStuffed(start: bool, t: string)
    ensures Lines(Stuffed(start, t)) == [Stuffed(start, Lines(t)[0])] + StuffedEach(Lines(t)[1..])
    decreases |t|
  {
    hide Lines, Stuffed;
    LinesNothing();
    StuffedNothing(start);
    if t == "" {
      assert StuffedEach([]) == [];
    } else if AtBreak(t) {
      var r := t[2..];
      assert t == CRLF + r && t[1..][0] == '\n' && t[1..][1..] == r;
      StuffedCons(start, t);
      StuffedCons(false, t[1..]);
      assert Stuffed(start, t) == CRLF + Stuffed(true, r);
      LinesBreak(r);
      LinesBreak(Stuffed(true, r));
      LinesStuffed(true, r);
      assert Lines(t)[1..] == Lines(r);
      assert StuffedEach(Lines(r)) == [Stuffed(true, Lines(r)[0])] + StuffedEach(Lines(r)[1..]);
    } else {
      var c, r := t[0], t[1..];
      var z := Stuffed(c == '\n', r);
      LinesStuffed(c == '\n', r);
      LinesCons(c, r);
      assert t == [c] + r;
      StuffedHead(c == '\n', r);
      LinesCons(c, z);
      StuffedCons(start, t);
      StuffedCons(start, [c] + Lines(r)[0]);
      assert ([c] + Lines(r)[0])[1..] == Lines(r)[0];
      if start && c == '.' {
        assert ['.'] + ([c] + Lines(z)[0]) == ".." + Lines(z)[0];
        LinesCons('.', [c] + z);
        assert Stuffed(start, t) == ['.'] + ([c] + z);
      } else {
        assert Stuffed(start, t) == [c] + z;
      }
    }
  }

  lemma StuffedHead(start: bool, r: string)
    ensures r != "" ==> Stuffed(start, r) != "" && Stuffed(start, r)[0] == r[0]
    ensures r == "" ==> Stuffed(start, r) == ""
  {
  }

  // ----- the response

  /** Space, tab and no-break space: the blanks of a line read as Latin-1. */
  predicate IsBlank(c: char) {
    c == ' ' || c == '\t' || c == '\U{a0}'
  }

  function TrimStart(l: string): string {
    if l != "" && IsBlank(l[0]) then TrimStart(l[1..]) else l
  }

  function TrimEnd(l: string): string {
    if l != "" && IsBlank(l[|l| - 1]) then TrimEnd(l[..|l| - 1]) else l
  }

  /** The line that `readUntilDot` stops at. */
  predicate StopsReading(l: string) {
    TrimEnd(TrimStart(l)) == "."
  }

  datatype Response = Unfinished | Response(lines: seq<string>, rest: seq<string>)

  /** `readUntilDot` on the complete lines of the stream: what it returns, and what it leaves unread. */
  function ReadUntilDot(ls: seq<string>): Response {
    if ls == [] then Unfinished
    else if StopsReading(ls[0]) then Response([ls[0]], ls[1..])
    else
      match ReadUntilDot(ls[1..])
      case Unfinished => Unfinished
      case Response(out, rest) => Response([ls[0]] + out, rest)
  }

  function Unstuff(l: string): string {
    if |l| >= 2 && l[0] == '.' && l[1] == '.' then l[1..] else l
  }

  /** The lines before the terminator, each undone. */
  function Undone(ls: seq<string>): seq<string> {
    if ls == [] || ls[0] == "." then [] else [Unstuff(ls[0])] + Undone(ls[1..])
  }

  function Unstuffed(ls: seq<string>): string {
    Join(Undone(ls), CRLF)
  }

  datatype Received = Nothing | Received(text: string, rest: seq<string>)

  /** A whole response read from the stream: the text, and the lines left for the next command. */
  function Receive(stream: string): Received {
    var ls := Lines(stream);
    match ReadUntilDot(ls[..|ls| - 1])
    case Unfinished => Nothing
    case Response(lines, rest) => Received(Unstuffed(lines), rest)
  }

  /** The message without the line break it may end in. */
  function Bare(m: string): string {
    if EndsLine(m) then m[..|m| - 2] else m
  }

  /** A line that is a dot among blanks and begins with a blank. */
  predicate IndentedDot(l: string) {
    StopsReading(l) && l[0] != '.'
  }

  /** A line feed with no carriage return before it and a dot after it. */
  predicate BareLfDot(m: string, i: int) {
    0 <= i < |m| - 1 && m[i] == '\n' && m[i + 1] == '.' && !(i > 0 && m[i - 1] == '\r')
  }

  ghost predicate NoBareLfDot(m: string) {
    forall i :: !BareLfDot(m, i)
  }

  lemma {:induction false} StuffedLonger(start: bool, l: string)
    ensures |Stuffed(start, l)| >= |l|
    ensures |Stuffed(start, l)| == |l| ==> Stuffed(start, l) == l
    decreases |l|
  {
    if l != "" {
      StuffedLonger(l[0] == '\n', l[1..]);
      assert l == [l[0]] + l[1..];
    }
  }

  /** Undoing a stuffed line leaves only the dots doubled after bare line feeds. */
  lemma UnstuffStuffed(l: string)
    ensures Unstuff(Stuffed(true, l)) == Stuffed(false, l)
    ensures Stuffed(true, l) != "."
  {
    StuffedNothing(true);
    StuffedNothing(false);
    hide Stuffed;
    if l != "" {
      StuffedCons(true, l);
      StuffedCons(false, l);
      var tail := Stuffed(l[0] == '\n', l[1..]);
      if l[0] == '.' {
        assert (".." + tail)[1..] == "." + tail;
      } else {
        assert ([l[0]] + tail)[0] == l[0];
      }
    }
  }

  lemma {:induction false} TrimStartOf(l: string)
    ensures TrimStart(l) != "" ==> !IsBlank(TrimStart(l)[0])
    ensures |TrimStart(l)| <= |l| && TrimStart(l) == l[|l| - |TrimStart(l)|..]
    ensures forall k :: 0 <= k < |l| - |TrimStart(l)| ==> IsBlank(l[k])
  {
    if l != "" && IsBlank(l[0]) {
      TrimStartOf(l[1..]);
      assert forall k :: 0 < k < |l| ==> l[k] == l[1..][k - 1];
    }
  }

  lemma {:induction false} TrimEndOf(l: string)
    ensures |TrimEnd(l)| <= |l| && TrimEnd(l) == l[..|TrimEnd(l)|]
    ensures forall k :: |TrimEnd(l)| <= k < |l| ==> IsBlank(l[k])
    ensures TrimEnd(l) != "" ==> !IsBlank(TrimEnd(l)[|TrimEnd(l)| - 1])
  {
    if l != "" && IsBlank(l[|l| - 1]) {
      TrimEndOf(l[..|l| - 1]);
    }
  }

  /** A stopping line is one dot, and blanks around it. */
  lemma StoppingLine(l: string)
    requires StopsReading(l)
    ensures exists k :: 0 <= k < |l| && l[k] == '.' && forall j :: 0 <= j < |l| && j != k ==> IsBlank(l[j])
  {
    TrimStartOf(l);
    TrimEndOf(TrimStart(l));
    var k := |l| - |TrimStart(l)|;
    assert TrimStart(l)[..1] == ".";
    assert l[k] == TrimStart(l)[0] == '.';
    assert forall j :: k < j < |l| ==> l[j] == TrimStart(l)[j - k];
  }

  lemma DotStops(l: string, k: nat)
    requires k < |l| && l[k] == '.' && forall j :: 0 <= j < |l| && j != k ==> IsBlank(l[j])
    ensures StopsReading(l)
  {
    TrimStartOf(l);
    var s := TrimStart(l);
    var from := |l| - |s|;
    assert from <= k;
    assert s[0] == l[from] && from == k;
    TrimEndOf(s);
    assert forall j :: 0 < j < |s| ==> s[j] == l[from + j];
    var e := TrimEnd(s);
    assert e != "" && e[|e| - 1] == s[|e| - 1];
    assert |e| == 1 && e == ".";
  }

  /** Reading stops at a line that is one dot among spaces, tabs and no-break spaces. */
  lemma StopsReadingIff(l: string)
    ensures StopsReading(l) <==>
      exists k :: 0 <= k < |l| && l[k] == '.' && forall j :: 0 <= j < |l| && j != k ==> l[j] in " \t\U{a0}"
  {
    assert forall c: char :: IsBlank(c) <==> c in " \t\U{a0}";
    hide IsBlank, StopsReading;
    if StopsReading(l) {
      StoppingLine(l);
    }
    if k :| 0 <= k < |l| && l[k] == '.' && forall j :: 0 <= j < |l| && j != k ==> l[j] in " \t\U{a0}" {
      DotStops(l, k);
    }
  }

  /** A response is not finished when no line stops the reading. */
  lemma {:induction false} UnfinishedIff(ls: seq<string>)
    ensures ReadUntilDot(ls).Unfinished? <==> forall i :: 0 <= i < |ls| ==> !StopsReading(ls[i])
  {
    hide StopsReading;
    if ls != [] {
      UnfinishedIff(ls[1..]);
      assert forall i :: 0 < i < |ls| ==> ls[i] == ls[1..][i - 1];
    }
  }

  predicate FirstStop(a: seq<string>) {
    a != [] && StopsReading(a[|a| - 1]) && forall i :: 0 <= i < |a| - 1 ==> !StopsReading(a[i])
  }

  lemma FirstStopCons(l: string, a: seq<string>)
    ensures FirstStop([l] + a) <==> if StopsReading(l) then a == [] else FirstStop(a)
  {
    hide StopsReading;
    var all := [l] + a;
    assert all[0] == l && forall i :: 0 <= i < |a| ==> all[i + 1] == a[i];
    assert a != [] ==> all[|all| - 1] == a[|a| - 1];
    if FirstStop(all) {
      assert forall i :: 0 <= i < |a| - 1 ==> a[i] == all[i + 1];
    }
    if FirstStop(a) {
      assert forall i :: 0 < i < |all| - 1 ==> all[i] == a[i - 1];
    }
  }

  lemma SameHead(x: string, a: seq<string>, b: seq<string>, ls: seq<string>)
    requires ls != []
    ensures [x] + a + b == ls <==> x == ls[0] && a + b == ls[1..]
  {
    assert [x] + a + b == [x] + (a + b);
    assert ls == [ls[0]] + ls[1..];
    assert ([x] + (a + b))[0] == x && ([x] + (a + b))[1..] == a + b;
  }

  lemma ReadStep(ls: seq<string>)
    requires ls != []
    ensures ReadUntilDot(ls) ==
      if StopsReading(ls[0]) then Response([ls[0]], ls[1..])
      else match ReadUntilDot(ls[1..])
        case Unfinished => Unfinished
        case Response(out, rest) => Response([ls[0]] + out, rest)
  {
  }

  /** A response is what is read up to the first line that stops the reading, and the rest is left. */
  lemma {:induction false} ReadUntilDotIff(ls: seq<string>, a: seq<string>, b: seq<string>)
    ensures ReadUntilDot(ls) == Response(a, b) <==> a + b == ls && FirstStop(a)
    decreases |ls|
  {
    hide StopsReading, FirstStop;
    assert !FirstStop([]) by { NothingStops(); }
    if a == [] {
      ReadSomething(ls);
    } else if ls == [] {
      assert a + b != [];
    } else {
      var (x, more) := (a[0], a[1..]);
      assert a == [x] + more;
      ReadStep(ls);
      SameHead(x, more, b, ls);
      FirstStopCons(x, more);
      ReadUntilDotIff(ls[1..], more, b);
      if StopsReading(ls[0]) {
        assert more == [] ==> more + b == b && a == [x];
      } else if ReadUntilDot(ls[1..]).Response? {
        var out := ReadUntilDot(ls[1..]).lines;
        assert ([ls[0]] + out)[1..] == out;
      }
    }
  }

  lemma NothingStops()
    ensures !FirstStop([])
  {
  }

  lemma ReadSomething(ls: seq<string>)
    ensures ReadUntilDot(ls).Response? ==> ReadUntilDot(ls).lines != []
  {
  }

  /** Of the lines before the first lone dot each loses one of two leading dots; all others are kept. */
  lemma {:induction false} UndoneIs(ls: seq<string>, k: nat)
    requires k <= |ls| && (forall i :: 0 <= i < k ==> ls[i] != ".") && (k == |ls| || ls[k] == ".")
    ensures |Undone(ls)| == k
    ensures forall i :: 0 <= i < k ==> Undone(ls)[i] == if ".." <= ls[i] then ls[i][1..] else ls[i]
  {
    if k > 0 {
      UndoneIs(ls[1..], k - 1);
      UnstuffIs(ls[0]);
      hide Unstuff;
      assert forall i :: 0 < i < k ==> ls[i] == ls[1..][i - 1] && Undone(ls)[i] == Undone(ls[1..])[i - 1];
    }
  }

  lemma UnstuffIs(l: string)
    ensures Unstuff(l) == if ".." <= l then l[1..] else l
  {
  }

  /** What stands after the last line break of the stream is not read yet, whatever it is. */
  lemma UnfinishedLine(a: string, x: string)
    requires NoBreak(x)
    ensures Receive(a + CRLF + x) == Receive(a + CRLF)
  {
    hide Lines, ReadUntilDot, Unstuffed;
    LinesAppend(a, x);
    LinesPlain(x);
    LinesAppend(a, "");
    LinesNothing();
    assert a + CRLF + "" == a + CRLF;
    assert (Lines(a) + [x])[..|Lines(a)|] == Lines(a) == (Lines(a) + [""])[..|Lines(a)|];
  }

  lemma {:induction false} NoFeedUnchanged(l: string)
    requires forall j :: 0 <= j < |l| ==> l[j] != '\n'
    ensures Stuffed(false, l) == l
    decreases |l|
  {
    if l != "" {
      NoFeedUnchanged(l[1..]);
    }
  }

  lemma {:induction false} NoFeedBefore(start: bool, l: string)
    requires forall j :: 0 <= j < |Stuffed(start, l)| ==> Stuffed(start, l)[j] != '\n'
    ensures forall j :: 0 <= j < |l| ==> l[j] != '\n'
    decreases |l|
  {
    if l != "" {
      var head := if start && l[0] == '.' then ".." else [l[0]];
      var tail := Stuffed(l[0] == '\n', l[1..]);
      assert Stuffed(start, l) == head + tail && (head + tail)[0] == l[0];
      assert forall j :: 0 <= j < |tail| ==> tail[j] == (head + tail)[|head| + j];
      NoFeedBefore(l[0] == '\n', l[1..]);
    }
  }

  lemma StuffedForm(l: string)
    ensures l != "" && l[0] == '.' ==> |Stuffed(true, l)| >= 2 && Stuffed(true, l)[0] == '.' == Stuffed(true, l)[1]
    ensures l == "" || l[0] != '.' ==> Stuffed(true, l) == Stuffed(false, l)
  {
  }

  lemma StopsNotEmpty(l: string)
    ensures StopsReading(l) ==> l != ""
  {
  }

  /** Reading stops at a stuffed line exactly when the line is an indented dot. */
  lemma StopsIff(l: string)
    ensures StopsReading(Stuffed(true, l)) <==> IndentedDot(l)
  {
    hide StopsReading, Stuffed;
    StuffedForm(l);
    StuffedHead(true, l);
    StopsNotEmpty(Stuffed(true, l));
    StopsNotEmpty(l);
    if StopsReading(Stuffed(true, l)) {
      StoppingLine(Stuffed(true, l));
      NoFeedBefore(true, l);
      NoFeedUnchanged(l);
    }
    if IndentedDot(l) {
      StoppingLine(l);
      NoFeedUnchanged(l);
    }
  }

  // ----- the round trip

  ghost predicate NoIndentedDot(ls: seq<string>) {
    forall i :: 0 <= i < |ls| ==> !IndentedDot(ls[i])
  }

  /** Stuffed lines are read to the terminator, unless one of them stops the reading before. */
  lemma {:induction false} ReadsStuffed(ls: seq<string>)
    ensures var r := ReadUntilDot(StuffedEach(ls) + ["."]);
      && (NoIndentedDot(ls) ==> r == Response(StuffedEach(ls) + ["."], []))
      && (!NoIndentedDot(ls) ==> r.Response? && r.rest != [])
  {
    var all := StuffedEach(ls) + ["."];
    if ls == [] {
      assert all == ["."] && all[1..] == [] && TrimStart(".") == ".";
    } else {
      StopsIff(ls[0]);
      assert all[0] == Stuffed(true, ls[0]) && all[1..] == StuffedEach(ls[1..]) + ["."];
      ReadsStuffed(ls[1..]);
      if NoIndentedDot(ls) {
        assert [all[0]] + all[1..] == all;
      } else if !IndentedDot(ls[0]) {
        assert forall i :: 1 <= i < |ls| ==> ls[i] == ls[1..][i - 1];
      }
    }
  }

  function StuffedInside(ls: seq<string>): (r: seq<string>)
    ensures |r| == |ls|
  {
    if ls == [] then [] else [Stuffed(false, ls[0])] + StuffedInside(ls[1..])
  }

  lemma {:induction false} UndoneStuffed(ls: seq<string>)
    ensures Undone(StuffedEach(ls) + ["."]) == StuffedInside(ls)
  {
    var all := StuffedEach(ls) + ["."];
    if ls != [] {
      UnstuffStuffed(ls[0]);
      assert all[0] == Stuffed(true, ls[0]) && all[1..] == StuffedEach(ls[1..]) + ["."];
      UndoneStuffed(ls[1..]);
    }
  }

  /** Joining the undone lines gives the message back exactly when no line had a dot doubled inside. */
  lemma {:induction false} JoinInside(ls: seq<string>)
    ensures |Join(StuffedInside(ls), CRLF)| >= |Join(ls, CRLF)|
    ensures |Join(StuffedInside(ls), CRLF)| == |Join(ls, CRLF)| <==> StuffedInside(ls) == ls
  {
    if ls != [] {
      StuffedLonger(false, ls[0]);
      JoinInside(ls[1..]);
      assert StuffedInside(ls)[1..] == StuffedInside(ls[1..]);
      assert ls == [ls[0]] + ls[1..];
    }
  }

  predicate NoInnerStuffing(ls: seq<string>) {
    StuffedInside(ls) == ls
  }

  /** The same in a text that `prev` stands before. */
  predicate CleanAt(prev: char, t: string, i: int) {
    0 <= i < |t| - 1 && t[i] == '\n' && t[i + 1] == '.' ==> (if i == 0 then prev else t[i - 1]) == '\r'
  }

  ghost predicate CleanFrom(prev: char, t: string) {
    forall i :: CleanAt(prev, t, i)
  }

  lemma CleanCons(prev: char, c: char, r: string)
    ensures CleanFrom(prev, [c] + r) <==>
      !(c == '\n' && r != "" && r[0] == '.' && prev != '\r') && CleanFrom(c, r)
  {
    var t := [c] + r;
    forall i ensures i != 0 ==> (CleanAt(prev, t, i) <==> CleanAt(c, r, i - 1)) {
    }
    assert CleanAt(prev, t, 0) <==> !(c == '\n' && r != "" && r[0] == '.' && prev != '\r');
    if CleanFrom(prev, t) {
      forall i ensures CleanAt(c, r, i) {
        assert CleanAt(prev, t, i + 1);
      }
    }
  }

  lemma InsideCons(l: string, ls: seq<string>)
    ensures NoInnerStuffing([l] + ls) <==> Stuffed(false, l) == l && NoInnerStuffing(ls)
  {
    assert ([l] + ls)[1..] == ls;
    assert StuffedInside([l] + ls)[0] == Stuffed(false, l) && StuffedInside([l] + ls)[1..] == StuffedInside(ls);
    assert ([l] + ls)[0] == l;
    assert [Stuffed(false, l)] + StuffedInside(ls) == StuffedInside([l] + ls);
  }

  lemma StuffedUnchangedCons(c: char, l: string)
    ensures Stuffed(false, [c] + l) == [c] + l <==> !(c == '\n' && l != "" && l[0] == '.') && Stuffed(false, l) == l
  {
    assert ([c] + l)[1..] == l;
    var z := Stuffed(c == '\n', l);
    assert Stuffed(false, [c] + l) == [c] + z;
    assert [c] + z == [c] + l <==> z == l by {
      if [c] + z == [c] + l { assert z == ([c] + z)[1..] == ([c] + l)[1..] == l; }
    }
    if c == '\n' && l != "" && l[0] == '.' {
      StuffedLonger(false, l[1..]);
      assert |z| > |l|;
    } else if c == '\n' {
      assert z == Stuffed(false, l);
    }
  }

  /** In terms of the message: no line has a dot after a bare line feed. */
  lemma {:induction false} CleanIff(prev: char, t: string)
    requires prev == '\r' ==> t == "" || t[0] != '\n'
    ensures NoInnerStuffing(Lines(t)) <==> CleanFrom(prev, t)
    decreases |t|
  {
    hide NoInnerStuffing, CleanFrom, Lines;
    LinesNothing();
    if t == "" {
      CleanNothing(prev);
    } else if AtBreak(t) {
      var r := t[2..];
      assert t == CRLF + r && t == ['\r'] + (['\n'] + r);
      CleanCons(prev, '\r', ['\n'] + r);
      CleanCons('\r', '\n', r);
      LinesBreak(r);
      InsideCons("", Lines(r));
      CleanIff('\n', r);
      StuffedNothing(false);
    } else {
      var c, r := t[0], t[1..];
      assert t == [c] + r;
      CleanCons(prev, c, r);
      LinesCons(c, r);
      CleanIff(c, r);
      var ls := Lines(r);
      InsideCons(ls[0], ls[1..]);
      InsideCons([c] + ls[0], ls[1..]);
      assert [ls[0]] + ls[1..] == ls && [[c] + ls[0]] + ls[1..] == Grown(c, ls);
      StuffedUnchangedCons(c, ls[0]);
      FirstOfLines(r);
    }
  }

  lemma CleanNothing(prev: char)
    ensures CleanFrom(prev, "") && NoInnerStuffing([""])
  {
    assert StuffedInside([""]) == [Stuffed(false, "")] + StuffedInside([]);
  }

  lemma FirstOfLines(r: string)
    ensures r != "" && r[0] == '.' <==> Lines(r)[0] != "" && Lines(r)[0][0] == '.'
  {
  }

  lemma StuffedBare(m: string)
    ensures Stuffed(true, m) + Terminator(m) == Stuffed(true, Bare(m)) + CRLF + "." + CRLF
  {
    if EndsLine(m) {
      var b := Bare(m);
      assert m == b + CRLF;
      StuffedSplits(true, b, CRLF);
      assert CRLF[1..] == "\n" && CRLF[1..][1..] == "";
      assert Stuffed(LineStart(true, b), CRLF) == CRLF;
      assert Stuffed(true, b) + CRLF + ".\r\n" == Stuffed(true, b) + CRLF + "." + CRLF;
    } else {
      assert Stuffed(true, m) + "\r\n.\r\n" == Stuffed(true, m) + CRLF + "." + CRLF;
    }
  }

  lemma WireLines(m: string)
    ensures Lines(Wire([m])) == StuffedEach(Lines(Bare(m))) + [".", ""]
  {
    hide Lines, Stuffed, Terminator;
    var b := Bare(m);
    WholePiece(m);
    StuffedBare(m);
    LinesAppend(Stuffed(true, b), "." + CRLF);
    assert Stuffed(true, b) + CRLF + "." + CRLF == Stuffed(true, b) + CRLF + ("." + CRLF);
    LinesAppend(".", "");
    assert "." + CRLF + "" == "." + CRLF;
    DotLines();
    LinesNothing();
    LinesStuffed(true, b);
    var ls := Lines(b);
    assert [Stuffed(true, ls[0])] + StuffedEach(ls[1..]) == StuffedEach(ls);
  }

  lemma DotLines()
    ensures Lines(".") == ["."]
  {
    assert "."[1..] == "";
    LinesNothing();
    assert ['.'] + "" == "." && [""][1..] == [];
    assert Grown('.', [""]) == ["."];
  }

  lemma CleanWhole(m: string)
    ensures NoBareLfDot(m) <==> NoInnerStuffing(Lines(Bare(m)))
  {
    var b := Bare(m);
    CleanIff(' ', b);
    forall i ensures CleanAt(' ', b, i) <==> !BareLfDot(m, i) {
    }
  }

  /**
   Sent and read back, a message arrives as it was, without its final line break and with
   nothing left unread, exactly when no bare line feed stands before a dot and no line is an
   indented dot.
   */
  lemma RoundTripIff(m: string)
    ensures Receive(Wire([m])) == Received(Bare(m), []) <==> NoBareLfDot(m) && NoIndentedDot(Lines(Bare(m)))
  {
    hide Lines, ReadUntilDot, StuffedEach, StuffedInside, NoBareLfDot, NoIndentedDot, Undone, Join;
    var ls := Lines(Bare(m));
    WireLines(m);
    var all := Lines(Wire([m]));
    assert all[..|all| - 1] == StuffedEach(ls) + ["."];
    ReadsStuffed(ls);
    UndoneStuffed(ls);
    JoinInside(ls);
    JoinLines(Bare(m));
    CleanWhole(m);
  }

  /** No line of a stuffed message is the terminator. */
  lemma NoLoneDot(m: string, i: nat)
    requires i < |Lines(Stuffed(true, m))|
    ensures Lines(Stuffed(true, m))[i] != "."
  {
    LinesStuffed(true, m);
    UnstuffStuffed(Lines(m)[i]);
  }

  /** Three messages the round trip changes: a bare line feed, an indented dot, and an unlucky cut. */
  lemma Examples()
    ensures Receive(Wire(["a\n.b"])) != Received("a\n.b", [])
    ensures Receive(Wire([" ."])) != Received(" .", [])
    ensures Wire(["a\r", "\n"]) != Wire(["a\r\n"])
  {
    hide Receive, Wire, Lines;
    RoundTripIff("a\n.b");
    assert BareLfDot("a\n.b", 1);
    RoundTripIff(" .");
    IndentedDotLine();
    SplitAnywhereIff(["a\r", "\n"]);
    assert ["a\r", "\n"][1..] == ["\n"] && ["\n"][1..] == [];
    assert Flat(["a\r", "\n"]) == "a\r\n";
  }

  lemma IndentedDotLine()
    ensures !NoIndentedDot(Lines(Bare(" .")))
  {
    assert " ."[1..] == "." && "."[1..] == "";
    LinesNothing();
    assert Lines(".") == ["."] by { DotLines(); }
    assert Grown(' ', ["."]) == [" ."] by { assert [' '] + "." == " ." && ["."][1..] == []; }
    assert Lines(" ") == Grown(' ', [""]) && Lines(" .") == [" ."];
    assert IndentedDot(" .");
    assert Lines(Bare(" ."))[0] == " .";
  }
}
