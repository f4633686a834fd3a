/**
 The emission loop of scripts/latency-seed.py: which uids, dates, threads and flags the
 messages of the interaction-latency dataset get.  Every random draw is an arbitrary value.
 */
module LatencySeed {
  import opened Decimal

  const BASE_EPOCH := 1_760_000_000
  const UNREAD_HEAD := 300

  datatype Directory = Cur | New

  /** One message, as its maildir file and its record say it. */
  datatype Message = Message(
    conversation: int,
    uid: nat,
    date: int,
    messageId: string,
    inReplyTo: string,
    threadId: string,
    directory: Directory,
    flags: nat,
    unread: bool)

  function MessageId(n: nat, i: nat): string {
    "m" + Show(n) + "." + Show(i) + "@latency.local"
  }

  /** The newest conversations alternate two unread, one read; older ones are a draw. */
  predicate UnreadOf(draw: nat -> bool, n: nat, threads: int) {
    if n > threads - UNREAD_HEAD then n % 3 != 0 else draw(n)
  }

  function ChainLength(n: nat): (k: nat)
    ensures k == 1 || k == 2
  {
    if n % 5 == 0 then 2 else 1
  }

  function MessageOf(n: nat, i: nat, uid: nat, unread: bool): Message {
    var seen := !(unread && i == ChainLength(n) - 1);
    Message(n, uid, BASE_EPOCH + n * 300 + (if i == 0 then 0 else 120), MessageId(n, i),
            if i == 0 then "" else MessageId(n, 0), MessageId(n, 0),
            if seen then Cur else New, if seen then 1 else 0, !seen)
  }

  /** The messages of conversation `n`, when `uid` uids are used. */
  function Conversation(n: nat, uid: nat, unread: bool): (ms: seq<Message>)
    ensures |ms| == ChainLength(n)
    ensures forall i :: 0 <= i < |ms| ==> ms[i] == MessageOf(n, i, uid + 1 + i, unread)
  {
    seq(ChainLength(n), i requires 0 <= i => MessageOf(n, i, uid + 1 + i, unread))
  }

  /** Everything emitted up to and with conversation `n`. */
  function Emitted(draw: nat -> bool, n: nat, threads: int): seq<Message> {
    if n == 0 then []
    else Emitted(draw, n - 1, threads)
         + Conversation(n, |Emitted(draw, n - 1, threads)|, UnreadOf(draw, n, threads))
  }

  method Emit(draw: nat -> bool, threads: int) returns (out: seq<Message>)
    ensures out == Emitted(draw, if threads > 0 then threads else 0, threads)
  {
    out := [];
    var uid := 0;
    var n := 1;
    while n <= threads
      invariant 1 <= n && (n <= threads + 1 || n == 1)
      invariant out == Emitted(draw, n - 1, threads) && uid == |out|
    {
      var tid := MessageId(n, 0);
      var unread := UnreadOf(draw, n, threads);
      var epoch := BASE_EPOCH + n * 300;
      var chain := if n % 5 == 0 then [epoch, epoch + 120] else [epoch];
      var prev := "";
      ghost var before, start := out, uid;
      for i := 0 to |chain|
        invariant uid == start + i
        invariant out == before + Conversation(n, start, unread)[..i]
        invariant prev == if i == 0 then "" else MessageId(n, i - 1)
      {
        uid := uid + 1;
        var msgid := MessageId(n, i);
        var last := i == |chain| - 1;
        var seen := !(unread && last);
        var m := Message(n, uid, chain[i], msgid, prev, tid,
                         if seen then Cur else New, if seen then 1 else 0, !seen);
        assert m == Conversation(n, start, unread)[i];
        out := out + [m];
        prev := msgid;
      }
      n := n + 1;
    }
  }

  // ----- what the dataset promises

  lemma {:induction false} EmittedLength(draw: nat -> bool, n: nat, threads: int)
    ensures |Emitted(draw, n, threads)| == n + n / 5
  {
    if n > 0 {
      EmittedLength(draw, n - 1, threads);
    }
  }

  /** Where a message of the dataset comes from. */
  lemma {:induction false} Origin(draw: nat -> bool, n: nat, threads: int, p: nat) returns (k: nat, i: nat)
    requires p < |Emitted(draw, n, threads)|
    ensures 1 <= k <= n && i < ChainLength(k)
    ensures Emitted(draw, n, threads)[p] == MessageOf(k, i, p + 1, UnreadOf(draw, k, threads))
    ensures p == |Emitted(draw, k - 1, threads)| + i
  {
    var before := Emitted(draw, n - 1, threads);
    if p < |before| {
      k, i := Origin(draw, n - 1, threads, p);
    } else {
      k, i := n, p - |before|;
    }
  }

  /** Conversations are emitted one after the other. */
  lemma EmittedGrows(draw: nat -> bool, a: nat, b: nat, threads: int)
    requires a >= 1 && a <= b
    ensures |Emitted(draw, a - 1, threads)| + ChainLength(a) <= |Emitted(draw, b, threads)|
    decreases b - a
  {
    if a < b {
      EmittedGrows(draw, a, b - 1, threads);
    }
  }

  /** What a message says of itself: its flag, directory and mark agree, and a reply names the root of its thread. */
  predicate Agrees(m: Message) {
    && (m.unread <==> m.flags == 0) && (m.unread <==> m.directory == New)
    && m.conversation >= 1
    && m.threadId == MessageId(m.conversation, 0)
    && (m.inReplyTo == "" <==> m.messageId == m.threadId)
    && (m.inReplyTo != "" ==> m.inReplyTo == m.threadId)
  }

  lemma MessageAgrees(n: nat, i: nat, uid: nat, unread: bool)
    requires n >= 1 && i < ChainLength(n)
    ensures Agrees(MessageOf(n, i, uid, unread))
  {
    hide MessageId;
    IdsDiffer(n, i, n, 0);
    IdNotEmpty(n);
  }

  lemma IdNotEmpty(n: nat)
    ensures MessageId(n, 0) != ""
  {
  }

  /** Uids run from 1 without gaps, and every message agrees with itself and its thread. */
  lemma MessagesAgree(draw: nat -> bool, n: nat, threads: int, p: nat)
    requires p < |Emitted(draw, n, threads)|
    ensures Emitted(draw, n, threads)[p].uid == p + 1 && Agrees(Emitted(draw, n, threads)[p])
  {
    hide MessageId, Agrees;
    var k, i := Origin(draw, n, threads, p);
    MessageAgrees(k, i, p + 1, UnreadOf(draw, k, threads));
  }

  /**
   Every message of the dataset, by its place alone: conversation k begins after k - 1 + (k - 1) / 5
   messages, and every fifth one has a reply two minutes later.
   */
  lemma MessageIs(draw: nat -> bool, n: nat, threads: int, p: nat) returns (k: nat, i: nat)
    requires p < |Emitted(draw, n, threads)|
    ensures 1 <= k <= n && i <= 1 && (i == 1 ==> k % 5 == 0) && p == k - 1 + (k - 1) / 5 + i
    ensures var m := Emitted(draw, n, threads)[p];
      && m.conversation == k && m.uid == p + 1 && m.date == 1_760_000_000 + 300 * k + 120 * i
      && m.messageId == "m" + Show(k) + "." + Show(i) + "@latency.local"
      && m.threadId == "m" + Show(k) + ".0@latency.local"
      && m.inReplyTo == (if i == 0 then "" else m.threadId)
      && m.unread == ((if k > threads - 300 then k % 3 != 0 else draw(k)) && (i == 1 || k % 5 != 0))
      && m.directory == (if m.unread then New else Cur) && m.flags == (if m.unread then 0 else 1)
  {
    hide Emitted;
    k, i := Origin(draw, n, threads, p);
    EmittedLength(draw, k - 1, threads);
    ShowIsDecimal(0, 0);
    assert "m" + Show(k) + "." + "0" + "@latency.local" == "m" + Show(k) + ".0@latency.local";
  }

  /** Only the last message of a conversation is ever unread, and then the conversation is. */
  lemma OnlyTheLastIsUnread(draw: nat -> bool, n: nat, threads: int, p: nat)
    requires p + 1 < |Emitted(draw, n, threads)| && Emitted(draw, n, threads)[p].unread
    ensures var m := Emitted(draw, n, threads)[p];
      m.conversation >= 1 && UnreadOf(draw, m.conversation, threads)
      && Emitted(draw, n, threads)[p + 1].conversation > m.conversation
  {
    hide MessageId, Emitted, UnreadOf;
    var k, i := Origin(draw, n, threads, p);
    var l, j := Origin(draw, n, threads, p + 1);
    if l < k {
      EmittedGrows(draw, l, k - 1, threads);
    }
  }

  /** Message ids are all different, so a thread id names one thread. */
  lemma IdsDiffer(n: nat, i: nat, k: nat, j: nat)
    ensures MessageId(n, i) == MessageId(k, j) <==> n == k && i == j
  {
    if MessageId(n, i) == MessageId(k, j) {
      IdParts(n, i);
      IdParts(k, j);
      var a, b := Show(i) + ['@'] + "latency", Show(j) + ['@'] + "latency";
      assert ("m" + Show(n))[1..] == Show(n) && ("m" + Show(k))[1..] == Show(k);
      SplitFirst(Show(i), "latency", '@');
      SplitFirst(Show(j), "latency", '@');
      assert Split(a, '@')[0] == Show(i) && Split(b, '@')[0] == Show(j);
      assert a == b;
      ReadShow(n);
      ReadShow(k);
      ReadShow(i);
      ReadShow(j);
    }
  }

  lemma IdParts(n: nat, i: nat)
    ensures Split(MessageId(n, i), '.')[0] == "m" + Show(n)
    ensures |Split(MessageId(n, i), '.')| >= 2
    ensures Split(MessageId(n, i), '.')[1] == Show(i) + ['@'] + "latency"
  {
    var head, middle := "m" + Show(n), Show(i) + ['@'] + "latency";
    hide Split;
    assert "@latency.local" == ['@'] + "latency" + ['.'] + "local";
    var rest := middle + ['.'] + "local";
    assert MessageId(n, i) == head + ['.'] + rest;
    SplitFirst(head, rest, '.');
    SplitFirst(middle, "local", '.');
  }

  /** Dates strictly increase with the uid. */
  lemma DatesIncrease(draw: nat -> bool, n: nat, threads: int, p: nat, q: nat)
    requires p < q < |Emitted(draw, n, threads)|
    ensures Emitted(draw, n, threads)[p].date < Emitted(draw, n, threads)[q].date
  {
    hide MessageId, Emitted, UnreadOf;
    var k, i := Origin(draw, n, threads, p);
    var l, j := Origin(draw, n, threads, q);
    if l < k {
      EmittedGrows(draw, l, k - 1, threads);
    }
  }

  // ----- how many are unread

  /** The unread messages of the conversations after `from`. */
  function UnreadAfter(ms: seq<Message>, from: int): nat {
    if ms == [] then 0
    else UnreadAfter(ms[..|ms| - 1], from)
         + if ms[|ms| - 1].unread && ms[|ms| - 1].conversation > from then 1 else 0
  }

  lemma {:induction false} UnreadAppends(a: seq<Message>, b: seq<Message>, from: int)
    ensures UnreadAfter(a + b, from) == UnreadAfter(a, from) + UnreadAfter(b, from)
    decreases |b|
  {
    if b == [] {
      assert a + b == a;
    } else {
      assert (a + b)[..|a + b| - 1] == a + b[..|b| - 1];
      UnreadAppends(a, b[..|b| - 1], from);
    }
  }

  /** A conversation has one unread message when it is unread, and none when it is not. */
  lemma UnreadOfConversation(n: nat, uid: nat, unread: bool, from: int)
    ensures UnreadAfter(Conversation(n, uid, unread), from) == if unread && n > from then 1 else 0
  {
    var c := Conversation(n, uid, unread);
    assert UnreadAfter(c[..0], from) == 0;
    if |c| == 2 {
      assert c[..1][..0] == c[..0] && UnreadAfter(c[..1], from) == 0;
    }
  }

  lemma UnreadStep(draw: nat -> bool, n: nat, threads: int, from: int)
    requires n > 0
    ensures UnreadAfter(Emitted(draw, n, threads), from) ==
      UnreadAfter(Emitted(draw, n - 1, threads), from) + if UnreadOf(draw, n, threads) && n > from then 1 else 0
  {
    hide UnreadAfter, UnreadOf;
    var before := Emitted(draw, n - 1, threads);
    UnreadAppends(before, Conversation(n, |before|, UnreadOf(draw, n, threads)), from);
    UnreadOfConversation(n, |before|, UnreadOf(draw, n, threads), from);
  }

  lemma Thirds(n: nat)
    requires n > 0
    ensures n / 3 == (n - 1) / 3 + if n % 3 == 0 then 1 else 0
  {
  }

  /** Of the conversations after `from`, which all lie in the newest ones, all but each third are unread. */
  lemma {:induction false} UnreadInHead(draw: nat -> bool, n: nat, threads: int, from: nat)
    requires from >= threads - UNREAD_HEAD && n >= from
    ensures UnreadAfter(Emitted(draw, n, threads), from) == (n - from) - (n / 3 - from / 3)
    decreases n
  {
    hide UnreadAfter, Emitted;
    if n == from {
      NoneAfter(draw, n, threads, from);
    } else {
      UnreadStep(draw, n, threads, from);
      Thirds(n);
      UnreadInHead(draw, n - 1, threads, from);
    }
  }

  lemma {:induction false} NoneAfter(draw: nat -> bool, n: nat, threads: int, from: nat)
    requires n <= from
    ensures UnreadAfter(Emitted(draw, n, threads), from) == 0
    decreases n
  {
    if n > 0 {
      UnreadStep(draw, n, threads, from);
      NoneAfter(draw, n - 1, threads, from);
    }
  }

  /** With at least 300 conversations exactly 200 of the newest 300 are unread; with fewer, all but each third. */
  lemma UnreadHead(draw: nat -> bool, threads: nat)
    ensures UnreadAfter(Emitted(draw, threads, threads), threads - 300) ==
      if threads >= 300 then 200 else threads - threads / 3
  {
    hide UnreadAfter, Emitted;
    if threads >= UNREAD_HEAD {
      UnreadInHead(draw, threads, threads, threads - UNREAD_HEAD);
      HundredThirds(threads);
    } else {
      UnreadInHead(draw, threads, threads, 0);
      var ms := Emitted(draw, threads, threads);
      forall p | 0 <= p < |ms| ensures ms[p].conversation > 0 {
        MessagesAgree(draw, threads, threads, p);
      }
      SameFrom(ms, 0, threads - UNREAD_HEAD);
    }
  }

  lemma HundredThirds(n: nat)
    requires n >= 300
    ensures (n - 300) / 3 == n / 3 - 100
  {
  }

  lemma {:induction false} SameFrom(ms: seq<Message>, a: int, b: int)
    requires forall p :: 0 <= p < |ms| ==> ms[p].conversation > a && ms[p].conversation > b
    ensures UnreadAfter(ms, a) == UnreadAfter(ms, b)
  {
    if ms != [] {
      SameFrom(ms[..|ms| - 1], a, b);
    }
  }
}
