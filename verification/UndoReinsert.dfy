/**
 Rows going back to where they were (`Session.reinserted` in App/Session+Triage.swift):
 after an undo, when all of them return, and after a refusal, when only some do.
 */
module UndoReinsert {

  datatype Row<T> = Row(item: T, index: nat)

  function InsertAt<T>(s: seq<T>, i: nat, x: T): (r: seq<T>)
    requires i <= |s|
    ensures |r| == |s| + 1
  {
    s[..i] + [x] + s[i..]
  }

  function Min(a: nat, b: nat): nat {
    if a <= b then a else b
  }

  /** `rows.sorted(by:)` on the index, rows with the same index in the order given. */
  function SortByIndex<T>(rows: seq<Row<T>>): (r: seq<Row<T>>)
    ensures |r| == |rows|
  {
    if rows == [] then [] else Placed(rows[0], SortByIndex(rows[1..]))
  }

  function Placed<T>(row: Row<T>, rows: seq<Row<T>>): (r: seq<Row<T>>)
    ensures |r| == |rows| + 1
  {
    if rows == [] || row.index <= rows[0].index then [row] + rows
    else [rows[0]] + Placed(row, rows[1..])
  }

  /** The rows inserted one after the other, an index past the end meaning the end. */
  function Inserted<T>(rows: seq<Row<T>>, list: seq<T>): seq<T>
    decreases |rows|
  {
    if rows == [] then list
    else Inserted(rows[1..], InsertAt(list, Min(rows[0].index, |list|), rows[0].item))
  }

  method Reinserted<T>(rows: seq<Row<T>>, list: seq<T>) returns (out: seq<T>)
    ensures out == Inserted(SortByIndex(rows), list)
  {
    out := list;
    var sorted := SortByIndex(rows);
    assert sorted[0..] == sorted;
    for n := 0 to |sorted|
      invariant Inserted(sorted[n..], out) == Inserted(sorted, list)
    {
      assert sorted[n..][1..] == sorted[n + 1..];
      out := InsertAt(out, Min(sorted[n].index, |out|), sorted[n].item);
    }
  }

  // ----- sorting

  predicate Ordered<T>(rows: seq<Row<T>>) {
    forall i, j :: 0 <= i < j < |rows| ==> rows[i].index <= rows[j].index
  }

  lemma {:induction false} PlacedKeeps<T>(row: Row<T>, rows: seq<Row<T>>)
    ensures multiset(Placed(row, rows)) == multiset(rows) + multiset{row}
    ensures Ordered(rows) ==> Ordered(Placed(row, rows))
  {
    if rows != [] && row.index > rows[0].index {
      PlacedKeeps(row, rows[1..]);
      var r := Placed(row, rows[1..]);
      assert Placed(row, rows) == [rows[0]] + r;
      hide Placed;
      assert rows == [rows[0]] + rows[1..];
      assert multiset([rows[0]] + r) == multiset{rows[0]} + multiset(r);
      if Ordered(rows) {
        assert Ordered(rows[1..]);
        hide Ordered;
        OrderedCons(rows[0], r, row, rows[1..]);
      }
    } else {
      assert Placed(row, rows) == [row] + rows;
      hide Placed;
      if Ordered(rows) {
        OrderedFirst(row, rows);
      }
    }
  }

  lemma OrderedFirst<T>(row: Row<T>, rows: seq<Row<T>>)
    requires Ordered(rows) && (rows == [] || row.index <= rows[0].index)
    ensures Ordered([row] + rows)
  {
  }

  lemma OrderedCons<T>(first: Row<T>, r: seq<Row<T>>, row: Row<T>, rest: seq<Row<T>>)
    requires Ordered(r) && multiset(r) == multiset(rest) + multiset{row}
    requires first.index <= row.index && forall j :: 0 <= j < |rest| ==> first.index <= rest[j].index
    ensures Ordered([first] + r)
  {
    forall j | 0 <= j < |r| ensures first.index <= r[j].index {
      assert r[j] in multiset(r);
      assert r[j] == row || r[j] in multiset(rest);
    }
  }

  lemma {:induction false} SortKeeps<T>(rows: seq<Row<T>>)
    ensures multiset(SortByIndex(rows)) == multiset(rows)
    ensures Ordered(SortByIndex(rows))
  {
    if rows != [] {
      SortKeeps(rows[1..]);
      PlacedKeeps(rows[0], SortByIndex(rows[1..]));
      assert rows == [rows[0]] + rows[1..];
    }
  }

  /** The rows with that index, in the order they have. */
  function WithIndex<T>(rows: seq<Row<T>>, k: nat): seq<Row<T>> {
    if rows == [] then [] else (if rows[0].index == k then [rows[0]] else []) + WithIndex(rows[1..], k)
  }

  lemma {:induction false} PlacedFirst<T>(row: Row<T>, rows: seq<Row<T>>, k: nat)
    requires Ordered(rows)
    ensures WithIndex(Placed(row, rows), k) == WithIndex([row] + rows, k)
  {
    assert ([row] + rows)[1..] == rows;
    if rows != [] && row.index > rows[0].index {
      var r := Placed(row, rows[1..]);
      PlacedFirst(row, rows[1..], k);
      assert ([rows[0]] + r)[1..] == r && ([row] + rows[1..])[1..] == rows[1..];
      if rows[0].index == k {
        assert row.index != k;
      }
    }
  }

  /** Sorting leaves rows with one index in the order given. */
  lemma {:induction false} SortIsStable<T>(rows: seq<Row<T>>, k: nat)
    ensures WithIndex(SortByIndex(rows), k) == WithIndex(rows, k)
  {
    if rows != [] {
      SortIsStable(rows[1..], k);
      SortKeeps(rows[1..]);
      PlacedFirst(rows[0], SortByIndex(rows[1..]), k);
      var sorted := SortByIndex(rows[1..]);
      assert ([rows[0]] + sorted)[1..] == sorted;
    }
  }

  predicate Strict<T>(rows: seq<Row<T>>) {
    forall i, j :: 0 <= i < j < |rows| ==> rows[i].index < rows[j].index
  }

  /** Rows with indices of their own have one order only. */
  lemma {:induction false} OneOrder<T>(a: seq<Row<T>>, b: seq<Row<T>>)
    requires Ordered(a) && Strict(b) && multiset(a) == multiset(b)
    ensures a == b
  {
    assert |multiset(a)| == |a| && |multiset(b)| == |b|;
    if b != [] {
      SameFirst(a, b);
      WithoutFirst(a);
      WithoutFirst(b);
      OneOrder(a[1..], b[1..]);
      assert a == [a[0]] + a[1..] && b == [b[0]] + b[1..];
    }
  }

  lemma WithoutFirst<T>(a: seq<Row<T>>)
    requires a != []
    ensures multiset(a[1..]) == multiset(a) - multiset{a[0]}
  {
    assert a == [a[0]] + a[1..];
  }

  lemma SameFirst<T>(a: seq<Row<T>>, b: seq<Row<T>>)
    requires a != [] && b != [] && Ordered(a) && Strict(b) && multiset(a) == multiset(b)
    ensures a[0] == b[0]
  {
    assert a[0] in multiset(b) && b[0] in multiset(a);
    var i :| 0 <= i < |b| && b[i] == a[0];
    var j :| 0 <= j < |a| && a[j] == b[0];
  }

  // ----- conservation

  function Items<T>(rows: seq<Row<T>>): (m: multiset<T>) {
    if rows == [] then multiset{} else multiset{rows[0].item} + Items(rows[1..])
  }

  lemma {:induction false} ItemsPlaced<T>(row: Row<T>, rows: seq<Row<T>>)
    ensures Items(Placed(row, rows)) == multiset{row.item} + Items(rows)
  {
    if rows != [] && row.index > rows[0].index {
      ItemsPlaced(row, rows[1..]);
    }
  }

  lemma {:induction false} ItemsSorted<T>(rows: seq<Row<T>>)
    ensures Items(SortByIndex(rows)) == Items(rows)
  {
    if rows != [] {
      ItemsSorted(rows[1..]);
      ItemsPlaced(rows[0], SortByIndex(rows[1..]));
    }
  }

  lemma {:induction false} InsertedHolds<T>(rows: seq<Row<T>>, list: seq<T>)
    ensures multiset(Inserted(rows, list)) == multiset(list) + Items(rows)
    decreases |rows|
  {
    if rows != [] {
      var i := Min(rows[0].index, |list|);
      InsertedHolds(rows[1..], InsertAt(list, i, rows[0].item));
      assert list == list[..i] + list[i..];
    }
  }

  /** Whatever the indices, the result holds precisely the list and the rows. */
  lemma NothingLost<T>(rows: seq<Row<T>>, list: seq<T>)
    ensures multiset(Inserted(SortByIndex(rows), list)) == multiset(list) + Items(rows)
  {
    ItemsSorted(rows);
    InsertedHolds(SortByIndex(rows), list);
  }

  // ----- what becomes of each row

  /** A row that stayed in the list, one that was taken out and returns, and one that was taken out for good. */
  datatype Fate = Stays | Returns | Leaves

  function Remaining<T>(l: seq<T>, f: seq<Fate>): seq<T>
    requires |l| == |f|
  {
    if l == [] then [] else (if f[0].Stays? then [l[0]] else []) + Remaining(l[1..], f[1..])
  }

  function Wanted<T>(l: seq<T>, f: seq<Fate>): seq<T>
    requires |l| == |f|
  {
    if l == [] then [] else (if f[0].Leaves? then [] else [l[0]]) + Wanted(l[1..], f[1..])
  }

  /** The rows that return, with the positions `removeRows` recorded, counted from `base`. */
  function Returning<T>(l: seq<T>, f: seq<Fate>, base: nat): (rows: seq<Row<T>>)
    requires |l| == |f|
    ensures forall r :: r in rows ==> r.index >= base
    decreases |l|
  {
    if l == [] then [] else
      (if f[0].Returns? then [Row(l[0], base)] else []) + Returning(l[1..], f[1..], base + 1)
  }

  lemma {:induction false} ReturningStrict<T>(l: seq<T>, f: seq<Fate>, base: nat)
    requires |l| == |f|
    ensures Strict(Returning(l, f, base))
    decreases |l|
  {
    if l != [] {
      ReturningStrict(l[1..], f[1..], base + 1);
      var rest := Returning(l[1..], f[1..], base + 1);
      assert forall j :: 0 <= j < |rest| ==> rest[j] in rest;
    }
  }

  /** The rows that return come back in any order: inserting them sorts them. */
  lemma AnyOrder<T>(rows: seq<Row<T>>, l: seq<T>, f: seq<Fate>)
    requires |l| == |f| && multiset(rows) == multiset(Returning(l, f, 0))
    ensures SortByIndex(rows) == Returning(l, f, 0)
  {
    SortKeeps(rows);
    ReturningStrict(l, f, 0);
    OneOrder(SortByIndex(rows), Returning(l, f, 0));
  }

  /** Whether the rows still to return, from `l` on, all find their place when `gone` rows before them left for good. */
  predicate FindsPlace<T>(l: seq<T>, f: seq<Fate>, gone: nat)
    requires |l| == |f|
    decreases |l|
  {
    l == [] ||
    ((f[0].Returns? ==> gone == 0 || Remaining(l[1..], f[1..]) == [])
     && FindsPlace(l[1..], f[1..], if f[0].Leaves? then gone + 1 else gone))
  }

  lemma Unfold<T>(l: seq<T>, f: seq<Fate>, base: nat)
    requires |l| == |f| && l != []
    ensures Remaining(l, f) == if f[0].Stays? then [l[0]] + Remaining(l[1..], f[1..]) else Remaining(l[1..], f[1..])
    ensures Wanted(l, f) == if f[0].Leaves? then Wanted(l[1..], f[1..]) else [l[0]] + Wanted(l[1..], f[1..])
    ensures Returning(l, f, base) ==
      if f[0].Returns? then [Row(l[0], base)] + Returning(l[1..], f[1..], base + 1)
      else Returning(l[1..], f[1..], base + 1)
  {
    assert [] + Remaining(l[1..], f[1..]) == Remaining(l[1..], f[1..]);
    assert [] + Wanted(l[1..], f[1..]) == Wanted(l[1..], f[1..]);
    assert [] + Returning(l[1..], f[1..], base + 1) == Returning(l[1..], f[1..], base + 1);
  }

  lemma InsertedFirst<T>(row: Row<T>, rows: seq<Row<T>>, list: seq<T>)
    ensures Inserted([row] + rows, list) == Inserted(rows, InsertAt(list, Min(row.index, |list|), row.item))
  {
    assert ([row] + rows)[1..] == rows;
  }

  lemma Assoc<T>(a: seq<T>, x: T, b: seq<T>)
    ensures a + ([x] + b) == (a + [x]) + b
  {
  }

  /** One row put in its place behind `done`. */
  lemma PlaceFound<T>(done: seq<T>, l: seq<T>, f: seq<Fate>, gone: nat)
    requires |l| == |f| && l != [] && f[0].Returns?
    requires gone == 0 || Remaining(l[1..], f[1..]) == []
    ensures Inserted(Returning(l, f, |done| + gone), done + Remaining(l, f))
         == Inserted(Returning(l[1..], f[1..], |done| + gone + 1), (done + [l[0]]) + Remaining(l[1..], f[1..]))
  {
    hide Inserted, Returning, Remaining;
    var rest := Remaining(l[1..], f[1..]);
    Unfold(l, f, |done| + gone);
    InsertedFirst(Row(l[0], |done| + gone), Returning(l[1..], f[1..], |done| + gone + 1), done + rest);
    assert InsertAt(done + rest, |done|, l[0]) == done + [l[0]] + rest;
  }

  /** With every earlier row in its place, the rest of the insertions work out when each row finds its place. */
  lemma {:induction false} PlacesFound<T>(done: seq<T>, l: seq<T>, f: seq<Fate>, gone: nat)
    requires |l| == |f| && FindsPlace(l, f, gone)
    ensures Inserted(Returning(l, f, |done| + gone), done + Remaining(l, f)) == done + Wanted(l, f)
    decreases |l|
  {
    hide Inserted, Returning, Remaining, Wanted;
    if l == [] {
      NothingToPlace(done, |done| + gone);
    } else {
      Unfold(l, f, |done| + gone);
      Assoc(done, l[0], Remaining(l[1..], f[1..]));
      Assoc(done, l[0], Wanted(l[1..], f[1..]));
      if f[0].Leaves? {
        PlacesFound(done, l[1..], f[1..], gone + 1);
      } else {
        if f[0].Returns? {
          PlaceFound(done, l, f, gone);
        }
        PlacesFound(done + [l[0]], l[1..], f[1..], gone);
      }
    }
  }

  lemma NothingToPlace<T>(done: seq<T>, base: nat)
    ensures Inserted(Returning([], [], base), done + Remaining([], [])) == done + Wanted([], [])
  {
    assert done + [] == done;
  }

  /** `a` stands somewhere before `b`. */
  predicate Before<T(==)>(s: seq<T>, a: T, b: T) {
    exists i, j :: 0 <= i < j < |s| && s[i] == a && s[j] == b
  }

  predicate Distinct<T(==)>(s: seq<T>) {
    forall i, j :: 0 <= i < j < |s| ==> s[i] != s[j]
  }

  lemma BeforeInsert<T>(s: seq<T>, p: nat, x: T, a: T, b: T)
    requires p <= |s| && Before(s, a, b)
    ensures Before(InsertAt(s, p, x), a, b)
  {
    var i, j :| 0 <= i < j < |s| && s[i] == a && s[j] == b;
    var r := InsertAt(s, p, x);
    assert r[if i < p then i else i + 1] == a && r[if j < p then j else j + 1] == b;
  }

  /** Insertions never change the order of what is already there. */
  lemma {:induction false} BeforeStays<T>(rows: seq<Row<T>>, s: seq<T>, a: T, b: T)
    requires Before(s, a, b)
    ensures Before(Inserted(rows, s), a, b)
    decreases |rows|
  {
    if rows != [] {
      var p := Min(rows[0].index, |s|);
      BeforeInsert(s, p, rows[0].item, a, b);
      BeforeStays(rows[1..], InsertAt(s, p, rows[0].item), a, b);
    }
  }

  lemma {:induction false} RemainingIsWanted<T>(l: seq<T>, f: seq<Fate>, x: T)
    requires |l| == |f| && x in Remaining(l, f)
    ensures x in Wanted(l, f)
  {
    if !(f[0].Stays? && x == l[0]) {
      RemainingIsWanted(l[1..], f[1..], x);
    }
  }

  lemma {:induction false} WantedDistinct<T>(l: seq<T>, f: seq<Fate>)
    requires |l| == |f| && Distinct(l)
    ensures Distinct(Wanted(l, f)) && forall x :: x in Wanted(l, f) ==> x in l
  {
    if l != [] {
      WantedDistinct(l[1..], f[1..]);
      assert l == [l[0]] + l[1..];
      var w := Wanted(l[1..], f[1..]);
      assert forall j :: 0 <= j < |w| ==> w[j] in l[1..];
      assert forall j :: 0 <= j < |l[1..]| ==> l[1..][j] != l[0];
    }
  }

  lemma MisplacedHere<T>(done: seq<T>, l: seq<T>, f: seq<Fate>, gone: nat)
    requires |l| == |f| && l != [] && f[0].Returns? && gone > 0 && Remaining(l[1..], f[1..]) != []
    ensures var k := Remaining(l[1..], f[1..])[0];
      && Before(Inserted(Returning(l, f, |done| + gone), done + Remaining(l, f)), k, l[0])
      && Before(done + Wanted(l, f), l[0], k)
  {
    hide Inserted, Returning, Remaining, Wanted;
    var rest, want := Remaining(l[1..], f[1..]), Wanted(l[1..], f[1..]);
    var rows := Returning(l[1..], f[1..], |done| + gone + 1);
    var row := Row(l[0], |done| + gone);
    var k := rest[0];
    Unfold(l, f, |done| + gone);
    var p := Min(row.index, |done + rest|);
    var next := InsertAt(done + rest, p, l[0]);
    InsertedFirst(row, rows, done + rest);
    assert next[|done|] == k && next[p] == l[0];
    BeforeStays(rows, next, k, l[0]);
    RemainingIsWanted(l[1..], f[1..], k);
    var j :| 0 <= j < |want| && want[j] == k;
    var whole := done + ([l[0]] + want);
    assert whole[|done|] == l[0] && whole[|done| + 1 + j] == k;
  }

  /** A row that does not find its place ends up behind a row that should come after it. */
  lemma {:induction false} Misplaced<T>(done: seq<T>, l: seq<T>, f: seq<Fate>, gone: nat) returns (x: T, k: T)
    requires |l| == |f| && !FindsPlace(l, f, gone)
    ensures Before(Inserted(Returning(l, f, |done| + gone), done + Remaining(l, f)), k, x)
    ensures Before(done + Wanted(l, f), x, k)
    decreases |l|
  {
    hide Inserted, Returning, Remaining, Wanted, Before;
    Unfold(l, f, |done| + gone);
    Assoc(done, l[0], Remaining(l[1..], f[1..]));
    Assoc(done, l[0], Wanted(l[1..], f[1..]));
    if f[0].Leaves? {
      x, k := Misplaced(done, l[1..], f[1..], gone + 1);
    } else if f[0].Stays? {
      x, k := Misplaced(done + [l[0]], l[1..], f[1..], gone);
    } else if gone == 0 || Remaining(l[1..], f[1..]) == [] {
      PlaceFound(done, l, f, gone);
      x, k := Misplaced(done + [l[0]], l[1..], f[1..], gone);
    } else {
      x, k := l[0], Remaining(l[1..], f[1..])[0];
      MisplacedHere(done, l, f, gone);
    }
  }

  /** No row left for good before a row that returns, with a row that stayed after that. */
  predicate Clear(f: seq<Fate>) {
    forall q, p, r :: 0 <= q < p < r < |f| && f[q].Leaves? && f[p].Returns? ==> !f[r].Stays?
  }

  /** No row that returns has a row that stayed after it. */
  predicate AllAtEnd(f: seq<Fate>) {
    forall p, r :: 0 <= p < r < |f| && f[p].Returns? ==> !f[r].Stays?
  }

  lemma {:induction false} RemainingNone<T>(l: seq<T>, f: seq<Fate>)
    requires |l| == |f|
    ensures Remaining(l, f) == [] <==> forall r :: 0 <= r < |f| ==> !f[r].Stays?
  {
    if l != [] {
      RemainingNone(l[1..], f[1..]);
      assert f == [f[0]] + f[1..];
    }
  }

  lemma ClearTail(f: seq<Fate>)
    requires f != []
    ensures Clear(f) <==> Clear(f[1..]) && (f[0].Leaves? ==> AllAtEnd(f[1..]))
    ensures AllAtEnd(f) <==> AllAtEnd(f[1..]) && (f[0].Returns? ==> forall r :: 0 <= r < |f[1..]| ==> !f[1..][r].Stays?)
    ensures AllAtEnd(f) ==> Clear(f)
  {
    var g := f[1..];
    assert forall i :: 0 < i < |f| ==> f[i] == g[i - 1];
    assert forall i :: 0 <= i < |g| ==> g[i] == f[i + 1];
  }

  lemma {:induction false} FindsPlaceIff<T>(l: seq<T>, f: seq<Fate>, gone: nat)
    requires |l| == |f|
    ensures FindsPlace(l, f, gone) <==> if gone == 0 then Clear(f) else AllAtEnd(f)
    decreases |l|
  {
    if l != [] {
      ClearTail(f);
      RemainingNone(l[1..], f[1..]);
      FindsPlaceIff(l[1..], f[1..], if f[0].Leaves? then gone + 1 else gone);
    }
  }

  // ----- the two uses

  /** Undo: when every row taken out returns, in whatever order, the list is what it was. */
  lemma {:induction false} NoneLeft<T>(l: seq<T>, f: seq<Fate>)
    requires |l| == |f| && Fate.Leaves !in f
    ensures Wanted(l, f) == l
  {
    if l != [] {
      NoneLeft(l[1..], f[1..]);
      assert l == [l[0]] + l[1..];
    }
  }

  lemma UndoRestores<T>(rows: seq<Row<T>>, l: seq<T>, f: seq<Fate>)
    requires |l| == |f| && Fate.Leaves !in f
    requires multiset(rows) == multiset(Returning(l, f, 0))
    ensures Inserted(SortByIndex(rows), Remaining(l, f)) == l
  {
    AnyOrder(rows, l, f);
    FindsPlaceIff(l, f, 0);
    PlacesFound([], l, f, 0);
    NoneLeft(l, f);
    assert [] + Remaining(l, f) == Remaining(l, f) && [] + Wanted(l, f) == Wanted(l, f);
  }

  /**
   A refusal: when only some of the rows taken out return, they land where they were exactly
   when none of them has a row gone for good before it and a row that stayed after it.
   */
  lemma RefusalRestoresIff<T>(rows: seq<Row<T>>, l: seq<T>, f: seq<Fate>)
    requires |l| == |f| && Distinct(l)
    requires multiset(rows) == multiset(Returning(l, f, 0))
    ensures Inserted(SortByIndex(rows), Remaining(l, f)) == Wanted(l, f) <==> Clear(f)
  {
    hide Inserted, Returning, Remaining, Wanted, FindsPlace, Clear, Before, Distinct;
    AnyOrder(rows, l, f);
    FindsPlaceIff(l, f, 0);
    assert [] + Remaining(l, f) == Remaining(l, f) && [] + Wanted(l, f) == Wanted(l, f);
    if Clear(f) {
      PlacesFound([], l, f, 0);
    } else {
      var x, k := Misplaced([], l, f, 0);
      WantedDistinct(l, f);
      OneWayRound(Wanted(l, f), x, k);
    }
  }

  lemma OneWayRound<T>(s: seq<T>, a: T, b: T)
    requires Distinct(s) && Before(s, a, b)
    ensures !Before(s, b, a)
  {
  }

  /** Four rows, the middle two taken out, the first of them gone for good: the other one lands behind the last. */
  lemma RefusalExample()
    ensures var l, f := [1, 2, 3, 4], [Stays, Leaves, Returns, Stays];
      Inserted(SortByIndex([Row(3, 2)]), Remaining(l, f)) != Wanted(l, f) && Returning(l, f, 0) == [Row(3, 2)]
  {
    var l, f := [1, 2, 3, 4], [Stays, Leaves, Returns, Stays];
    assert Returning(l, f, 0) == [Row(3, 2)] by {
      assert l[1..] == [2, 3, 4] && l[1..][1..] == [3, 4] && l[1..][1..][1..] == [4];
      assert f[1..] == [Leaves, Returns, Stays] && f[1..][1..] == [Returns, Stays] && f[1..][1..][1..] == [Stays];
    }
    assert !Clear(f) by {
      assert f[1].Leaves? && f[2].Returns? && f[3].Stays?;
    }
    RefusalRestoresIff([Row(3, 2)], l, f);
  }
}
