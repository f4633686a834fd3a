/** What several of the modules share: a value that may be missing, and lists put together. */
module Basics {

  datatype Option<+T> = None | Some(value: T)

  function Flat<T>(parts: seq<seq<T>>): seq<T> {
    if parts == [] then [] else parts[0] + Flat(parts[1..])
  }

  lemma {:induction false} FlatSnoc<T>(parts: seq<seq<T>>, p: seq<T>)
    ensures Flat(parts + [p]) == Flat(parts) + p
  {
    if parts == [] {
      assert parts + [p] == [p] && Flat([p]) == p + Flat([]);
    } else {
      assert (parts + [p])[1..] == parts[1..] + [p];
      FlatSnoc(parts[1..], p);
    }
  }

  /** The parts with `sep` between them. */
  function Join(ps: seq<string>, sep: string): string {
    if ps == [] then "" else if |ps| == 1 then ps[0] else ps[0] + sep + Join(ps[1..], sep)
  }

  lemma JoinStep(ps: seq<string>, sep: string)
    requires ps != []
    ensures Join(ps, sep) == if |ps| == 1 then ps[0] else ps[0] + sep + Join(ps[1..], sep)
  {
  }

  lemma {:induction false} JoinSnoc(ps: seq<string>, p: string, sep: string)
    requires ps != []
    ensures Join(ps + [p], sep) == Join(ps, sep) + sep + p
  {
    if |ps| == 1 {
      assert (ps + [p])[1..] == [p];
    } else {
      assert (ps + [p])[1..] == ps[1..] + [p];
      JoinSnoc(ps[1..], p, sep);
      assert ps[0] + sep + (Join(ps[1..], sep) + sep + p) == ps[0] + sep + Join(ps[1..], sep) + sep + p;
    }
  }

  lemma {:induction false} JoinAppend(ps: seq<string>, qs: seq<string>, sep: string)
    requires ps != [] && qs != []
    ensures Join(ps + qs, sep) == Join(ps, sep) + sep + Join(qs, sep)
    decreases |qs|
  {
    JoinSnoc(ps, qs[0], sep);
    if |qs| == 1 {
      assert qs == [qs[0]];
    } else {
      JoinAppend(ps + [qs[0]], qs[1..], sep);
      assert ps + [qs[0]] + qs[1..] == ps + qs;
      JoinedThrice(Join(ps, sep), sep, qs[0], Join(qs[1..], sep));
    }
  }

  lemma JoinedThrice(a: string, sep: string, b: string, c: string)
    ensures a + sep + b + sep + c == a + sep + (b + sep + c)
  {
  }
}
