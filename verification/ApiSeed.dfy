/**
 The arithmetic of scripts/bench-api-seed.py: which thread each message belongs to, which
 attachments a message has, how rows are batched, and how a string is quoted for SQL.
 `MESSAGES`, `THREADS` and `ATTACHMENTS` of the script are parameters here.
 */
module ApiSeed {
  import opened Basics
  import opened Decimal

  // ----- threads

  /** The thread of message `i`, the first `messages - threads` threads being shared by two. */
  function ThreadOf(i: int, messages: nat, threads: nat): int {
    if i > (messages - threads) * 2 then i else (i + 1) / 2
  }

  /** The threads of the first `n` messages. */
  function ThreadsOf(n: nat, messages: nat, threads: nat): set<int> {
    if n == 0 then {} else ThreadsOf(n - 1, messages, threads) + {ThreadOf(n, messages, threads)}
  }

  lemma {:induction false} ThreadsOfIs(n: nat, messages: nat, threads: nat, x: int)
    ensures x in ThreadsOf(n, messages, threads) <==> exists i :: 1 <= i <= n && ThreadOf(i, messages, threads) == x
  {
    if n > 0 {
      ThreadsOfIs(n - 1, messages, threads, x);
    }
  }

  /** How many distinct threads the first `n` messages have. */
  lemma {:induction false} ThreadCount(n: nat, messages: nat, threads: nat)
    ensures var d := (messages - threads) * 2;
      |ThreadsOf(n, messages, threads)| ==
        if d <= 0 then n else if n <= d then (n + 1) / 2 else d / 2 + (n - d)
  {
    if n > 0 {
      var d := (messages - threads) * 2;
      var before := ThreadsOf(n - 1, messages, threads);
      var x := ThreadOf(n, messages, threads);
      ThreadCount(n - 1, messages, threads);
      ThreadsOfIs(n - 1, messages, threads, x);
      if d > 0 && n <= d && n % 2 == 0 {
        assert ThreadOf(n - 1, messages, threads) == x;
        assert x in before;
        assert before + {x} == before;
      } else {
        forall i | 1 <= i <= n - 1 ensures ThreadOf(i, messages, threads) != x {
        }
        assert x !in before;
      }
    }
  }

  /**
   Exactly the wanted number of threads appears exactly when there are enough messages and not
   more than two for each.
   */
  lemma ThreadCountIff(messages: nat, threads: nat)
    ensures |ThreadsOf(messages, messages, threads)| == threads <==> threads <= messages <= 2 * threads
  {
    ThreadCount(messages, messages, threads);
  }

  /** Messages of one thread stand next to each other, and no thread has three. */
  lemma ThreadMates(i: int, j: int, messages: nat, threads: nat)
    requires 1 <= i < j <= messages && threads <= messages
    ensures ThreadOf(i, messages, threads) == ThreadOf(j, messages, threads) <==>
      j == i + 1 && i % 2 == 1 && j <= (messages - threads) * 2
  {
  }

  /** The first threads have two messages each, thread k the messages 2k - 1 and 2k; every later message is its own. */
  lemma ThreadNames(k: int, messages: nat, threads: nat)
    requires threads <= messages
    ensures 1 <= k <= messages - threads ==>
      ThreadOf(2 * k - 1, messages, threads) == k && ThreadOf(2 * k, messages, threads) == k
    ensures k > 2 * (messages - threads) ==> ThreadOf(k, messages, threads) == k
  {
  }

  // ----- attachments

  datatype Attachment = Attachment(message: int, index: int)

  function AttachmentOf(i: nat, messages: nat): Attachment
    requires messages > 0
  {
    Attachment(i % messages + 1, i / messages)
  }

  /** No pair of message and index is used twice, and every pair in reach is. */
  lemma AttachmentIff(i: nat, messages: nat, m: int, index: int)
    requires messages > 0
    ensures AttachmentOf(i, messages) == Attachment(m, index) <==>
      1 <= m <= messages && i == index * messages + (m - 1)
  {
    assert i == i / messages * messages + i % messages;
    if 1 <= m <= messages && i == index * messages + (m - 1) {
      QuotientUnique(i / messages, i % messages, index, m - 1, messages);
    }
  }

  lemma QuotientUnique(q: int, r: int, q': int, r': int, d: int)
    requires 0 <= r < d && 0 <= r' < d && q * d + r == q' * d + r'
    ensures q == q' && r == r'
  {
    assert (q - q') * d == r' - r;
    if q > q' {
      Scaled(q - q', d);
    } else if q < q' {
      Scaled(q' - q, d);
    }
  }

  lemma Scaled(k: int, d: int)
    requires k >= 1 && d >= 0
    ensures k * d >= d
  {
  }

  /** How many of the first `n` attachments belong to message `m`. */
  function Attached(n: nat, messages: nat, m: int): nat
    requires messages > 0
  {
    if n == 0 then 0 else Attached(n - 1, messages, m) + if AttachmentOf(n - 1, messages).message == m then 1 else 0
  }

  /** The attachments of a message are numbered from 0 without gaps: the next one has the number there are already. */
  lemma {:induction false} AttachedCount(n: nat, messages: nat, m: int)
    requires messages > 0 && 1 <= m <= messages
    ensures Attached(n, messages, m) == n / messages + if n % messages >= m then 1 else 0
  {
    if n > 0 {
      AttachedCount(n - 1, messages, m);
      StepDivision(n, messages);
    }
  }

  lemma StepDivision(n: nat, d: nat)
    requires n > 0 && d > 0
    ensures if (n - 1) % d == d - 1 then n / d == (n - 1) / d + 1 && n % d == 0
            else n / d == (n - 1) / d && n % d == (n - 1) % d + 1
  {
    var q, r := (n - 1) / d, (n - 1) % d;
    assert n - 1 == q * d + r;
    if r == d - 1 {
      assert n == (q + 1) * d + 0;
      QuotientUnique(n / d, n % d, q + 1, 0, d);
    } else {
      QuotientUnique(n / d, n % d, q, r + 1, d);
    }
  }

  lemma IndicesAreContiguous(i: nat, messages: nat)
    requires messages > 0
    ensures var a := AttachmentOf(i, messages); Attached(i, messages, a.message) == a.index
  {
    AttachedCount(i, messages, AttachmentOf(i, messages).message);
  }

  /** The attachments are spread evenly: any two messages differ by one at most. */
  lemma SpreadEvenly(n: nat, messages: nat, m: int, k: int)
    requires messages > 0 && 1 <= m <= messages && 1 <= k <= messages
    ensures Attached(n, messages, m) - Attached(n, messages, k) <= 1
  {
    AttachedCount(n, messages, m);
    AttachedCount(n, messages, k);
  }

  // ----- batches

  /** The statements written: all rows in order, every statement full but the last, and none empty. */
  method EmitBatches<T>(all: seq<T>, batch: nat) returns (out: seq<seq<T>>)
    requires batch > 0
    ensures Flat(out) == all
    ensures forall i :: 0 <= i < |out| - 1 ==> |out[i]| == batch
    ensures forall i :: 0 <= i < |out| ==> 0 < |out[i]| <= batch
  {
    out := [];
    var rows: seq<T> := [];
    for i := 0 to |all|
      invariant Flat(out) + rows == all[..i]
      invariant forall j :: 0 <= j < |out| ==> |out[j]| == batch
      invariant |rows| < batch
    {
      rows := rows + [all[i]];
      if |rows| == batch {
        FlatSnoc(out, rows);
        out := out + [rows];
        rows := [];
      }
    }
    if rows != [] {
      FlatSnoc(out, rows);
      out := out + [rows];
    }
  }

  // ----- quoting

  function Doubled(s: string): string {
    if s == "" then "" else (if s[0] == '\'' then "''" else [s[0]]) + Doubled(s[1..])
  }

  /** `q`: the string as an SQL literal. */
  function Quoted(s: string): string {
    "'" + Doubled(s) + "'"
  }

  datatype Literal = NoLiteral | Literal(value: string, rest: string)

  /** How a database reads what follows an opening quote: two quotes are one, a single one ends the literal. */
  function ReadBody(t: string): Literal
    decreases |t|
  {
    if t == "" then NoLiteral
    else if t[0] != '\'' then
      match ReadBody(t[1..])
      case NoLiteral => NoLiteral
      case Literal(v, rest) => Literal([t[0]] + v, rest)
    else if |t| > 1 && t[1] == '\'' then
      match ReadBody(t[2..])
      case NoLiteral => NoLiteral
      case Literal(v, rest) => Literal(['\''] + v, rest)
    else Literal("", t[1..])
  }

  function ReadLiteral(t: string): Literal {
    if t != "" && t[0] == '\'' then ReadBody(t[1..]) else NoLiteral
  }

  lemma {:induction false} ReadDoubled(s: string, rest: string)
    requires rest == "" || rest[0] != '\''
    ensures ReadBody(Doubled(s) + "'" + rest) == Literal(s, rest)
  {
    var t := Doubled(s) + "'" + rest;
    if s == "" {
      assert t == "'" + rest && t[1..] == rest;
    } else {
      ReadDoubled(s[1..], rest);
      var u := Doubled(s[1..]) + "'" + rest;
      assert [s[0]] + s[1..] == s;
      if s[0] == '\'' {
        assert t == "''" + u && t[2..] == u;
      } else {
        assert t == [s[0]] + u && t[1..] == u;
      }
    }
  }

  /** A quoted string is read back as it was, whatever quotes it holds, and nothing of the statement with it. */
  lemma QuotedReadsBack(s: string, rest: string)
    requires rest == "" || rest[0] != '\''
    ensures ReadLiteral(Quoted(s) + rest) == Literal(s, rest)
  {
    ReadDoubled(s, rest);
    assert (Quoted(s) + rest)[1..] == Doubled(s) + "'" + rest;
  }

  /** Cut at its quotes the string is put together again with two quotes for each, and stands between two. */
  lemma {:induction false} QuotedIs(s: string)
    ensures Quoted(s) == "'" + Join(Split(s, '\''), "''") + "'"
  {
    DoubledIs(s);
  }

  lemma {:induction false} DoubledIs(s: string)
    ensures Doubled(s) == Join(Split(s, '\''), "''")
  {
    if s != "" {
      DoubledIs(s[1..]);
      var ps := Split(s[1..], '\'');
      if s[0] == '\'' {
        assert ([""] + ps)[1..] == ps;
        assert "" + "''" + Join(ps, "''") == "''" + Join(ps, "''");
      } else {
        var qs := [[s[0]] + ps[0]] + ps[1..];
        assert qs[1..] == ps[1..];
        JoinStep(ps, "''");
        JoinStep(qs, "''");
        if |ps| > 1 {
          assert [s[0]] + ps[0] + "''" + Join(ps[1..], "''") == [s[0]] + (ps[0] + "''" + Join(ps[1..], "''"));
        }
      }
    }
  }
}
