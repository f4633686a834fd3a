/** Decimal text: how a number is written into a command, and how it is read back out of one. */
module Decimal {
  import opened Basics

  predicate IsDigit(c: char) {
    '0' <= c <= '9'
  }

  function Digit(d: nat): (c: char)
    requires d < 10
    ensures IsDigit(c) && c as int == '0' as int + d
  {
    ('0' as int + d) as char
  }

  function Show(n: nat): (t: string)
    ensures t != "" && forall k :: 0 <= k < |t| ==> IsDigit(t[k])
  {
    if n < 10 then [Digit(n)] else Show(n / 10) + [Digit(n % 10)]
  }

  predicate AllDigits(t: string) {
    forall k :: 0 <= k < |t| ==> IsDigit(t[k])
  }

  function Value(t: string): nat
    requires AllDigits(t)
  {
    if t == "" then 0 else Value(t[..|t| - 1]) * 10 + (t[|t| - 1] as int - '0' as int)
  }

  function Read(t: string): Option<nat> {
    if t == "" || !AllDigits(t) then None else Some(Value(t))
  }

  /** Reading undoes writing. */
  lemma {:induction false} ReadShow(n: nat)
    ensures Read(Show(n)) == Some(n)
  {
    if n >= 10 {
      ReadShow(n / 10);
      assert Show(n)[..|Show(n)| - 1] == Show(n / 10);
    } else {
      assert |Show(n)| == 1 && Show(n)[..0] == "" && Value("") == 0;
    }
  }

  /** The digits of a number are those of its tenth part and one more; below ten there is one. */
  lemma ShowIsDecimal(n: nat, d: nat)
    requires d < 10
    ensures Show(d) == ["0123456789"[d]]
    ensures n > 0 ==> Show(10 * n + d) == Show(n) + ["0123456789"[d]]
  {
    assert "0123456789"[d] == Digit(d);
    assert (10 * n + d) / 10 == n && (10 * n + d) % 10 == d;
  }

  function Power10(k: nat): (p: nat)
    ensures p > 0
  {
    if k == 0 then 1 else 10 * Power10(k - 1)
  }

  lemma {:induction false} ShowLength(n: nat, k: nat)
    requires k > 0 && n < Power10(k)
    ensures |Show(n)| <= k
  {
    if n >= 10 {
      ShowLength(n / 10, k - 1);
    }
  }

  // ----- lists of fields

  /** The text cut at every `c`, empty fields included. */
  function Split(t: string, c: char): (ps: seq<string>)
    ensures ps != []
  {
    if t == "" then [""]
    else
      var ps := Split(t[1..], c);
      if t[0] == c then [""] + ps else [[t[0]] + ps[0]] + ps[1..]
  }

  lemma {:induction false} SplitPlain(t: string, c: char)
    requires c !in t
    ensures Split(t, c) == [t]
  {
    if t != "" {
      SplitPlain(t[1..], c);
      assert [t[0]] + t[1..] == t;
    }
  }

  lemma {:induction false} SplitFirst(p: string, t: string, c: char)
    requires c !in p
    ensures Split(p + [c] + t, c) == [p] + Split(t, c)
  {
    var whole := p + [c] + t;
    if p == "" {
      assert whole == [c] + t && whole[1..] == t;
    } else {
      assert whole[1..] == p[1..] + [c] + t;
      SplitFirst(p[1..], t, c);
      assert [p[0]] + p[1..] == p;
    }
  }

  /** Cutting undoes joining, when no field holds the separator. */
  lemma {:induction false} SplitJoin(ps: seq<string>, c: char)
    requires ps != [] && forall i :: 0 <= i < |ps| ==> c !in ps[i]
    ensures Split(Join(ps, [c]), c) == ps
  {
    hide Split, Join;
    JoinStep(ps, [c]);
    if |ps| == 1 {
      SplitPlain(ps[0], c);
    } else {
      SplitJoin(ps[1..], c);
      SplitFirst(ps[0], Join(ps[1..], [c]), c);
    }
  }
}
