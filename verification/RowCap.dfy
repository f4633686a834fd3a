/**
 What the table keeps of an account's rows: the first `limit` of them, newest first (`cap` in
 MailboxDatabase.swift).  The order is the query's own: rows without a date last, later dates
 first, and equal ones by the text of folder and uid.
 */
module RowCap {
  import opened Basics
  import opened Decimal

  /** A row of an account is known by its folder and uid. */
  type Key = (string, nat)

  /** The rows of one account; the value is the date of the message, if it has one. */
  type Rows = map<Key, Option<int>>

  // ----- the order

  /** Text order, by code point. */
  predicate Less(a: string, b: string) {
    b != "" && (a == "" || a[0] < b[0] || (a[0] == b[0] && Less(a[1..], b[1..])))
  }

  function Text(k: Key): string {
    k.0 + "/" + Show(k.1)
  }

  /** A row comes before another one in the list. */
  predicate Before(j: Key, jDate: Option<int>, k: Key, kDate: Option<int>) {
    if jDate.None? != kDate.None? then kDate.None?
    else if jDate != kDate then jDate.value > kDate.value
    else Less(Text(j), Text(k))
  }

  predicate Leads(rows: Rows, j: Key, k: Key)
    requires j in rows && k in rows
  {
    Before(j, rows[j], k, rows[k])
  }

  lemma {:induction false} LessTotal(a: string, b: string)
    ensures a != b ==> Less(a, b) || Less(b, a)
    ensures !(Less(a, b) && Less(b, a))
  {
    if a != "" && b != "" && a[0] == b[0] {
      LessTotal(a[1..], b[1..]);
      assert a == [a[0]] + a[1..] && b == [b[0]] + b[1..];
    }
  }

  lemma {:induction false} LessTransitive(a: string, b: string, c: string)
    requires Less(a, b) && Less(b, c)
    ensures Less(a, c)
  {
    if a != "" && a[0] == b[0] == c[0] {
      LessTransitive(a[1..], b[1..], c[1..]);
    }
  }

  /** Folder and uid can be told from the text, since a number holds no slash. */
  lemma TextIsKey(j: Key, k: Key)
    requires Text(j) == Text(k)
    ensures j == k
  {
    if |j.0| < |k.0| {
      NoSlashWithin(j, k);
    } else if |k.0| < |j.0| {
      NoSlashWithin(k, j);
    }
    assert Text(j)[..|j.0|] == j.0 && Text(k)[..|j.0|] == k.0;
    assert Text(j)[|j.0| + 1..] == Show(j.1) && Text(k)[|j.0| + 1..] == Show(k.1);
    ReadShow(j.1);
    ReadShow(k.1);
  }

  lemma NoSlashWithin(j: Key, k: Key)
    requires |j.0| < |k.0|
    ensures Text(j) != Text(k)
  {
    assert Text(k)[|k.0|] == '/';
    if |Text(j)| > |k.0| {
      assert Text(j)[|k.0|] == Show(j.1)[|k.0| - |j.0| - 1];
    }
  }

  /** Of two rows exactly one comes first. */
  lemma OneLeads(rows: Rows, j: Key, k: Key)
    requires j in rows && k in rows && j != k
    ensures Leads(rows, j, k) <==> !Leads(rows, k, j)
  {
    hide Less, Text;
    LessTotal(Text(j), Text(k));
    if Text(j) == Text(k) {
      TextIsKey(j, k);
    }
  }

  lemma NoneLeadsItself(rows: Rows, k: Key)
    requires k in rows
    ensures !Leads(rows, k, k)
  {
    LessTotal(Text(k), Text(k));
  }

  lemma LeadsTransitive(rows: Rows, i: Key, j: Key, k: Key)
    requires i in rows && j in rows && k in rows && Leads(rows, i, j) && Leads(rows, j, k)
    ensures Leads(rows, i, k)
  {
    hide Less, Text;
    if rows[i] == rows[j] == rows[k] {
      LessTransitive(Text(i), Text(j), Text(k));
    }
  }

  predicate IsLast(rows: Rows, k: Key) {
    k in rows && forall j :: j in rows && j != k ==> Leads(rows, j, k)
  }

  lemma {:induction false} LastExists(rows: Rows) returns (k: Key)
    requires rows != map[]
    ensures IsLast(rows, k)
    decreases |rows|
  {
    hide Leads;
    var x :| x in rows;
    var rest := rows - {x};
    assert rows.Keys == rest.Keys + {x};
    k := x;
    if rest != map[] {
      var last := LastExists(rest);
      OneLeads(rows, x, last);
      forall j | j in rest && j != last ensures Leads(rows, j, last) {
        SameOrder(rows, rest, j, last);
      }
      if Leads(rows, last, x) {
        forall j | j in rest && j != last ensures Leads(rows, j, x) {
          LeadsTransitive(rows, j, last, x);
        }
      } else {
        k := last;
      }
    }
    forall j | j in rows && j != k ensures Leads(rows, j, k) {
      assert j in rest || j == x;
    }
  }

  lemma SameOrder(rows: Rows, rest: Rows, j: Key, k: Key)
    requires j in rest && k in rest && j in rows && k in rows
    requires rest[j] == rows[j] && rest[k] == rows[k]
    ensures Leads(rest, j, k) == Leads(rows, j, k)
  {
  }

  // ----- the cap

  /** The rows that come before `k`. */
  function Ahead(rows: Rows, k: Key): set<Key>
    requires k in rows
  {
    set j | j in rows && Leads(rows, j, k)
  }

  /** The rows that stay: those with fewer than `limit` rows before them. */
  function Capped(rows: Rows, limit: nat): (kept: Rows)
    ensures kept.Keys <= rows.Keys && forall k :: k in kept ==> kept[k] == rows[k]
  {
    map k | k in rows && |Ahead(rows, k)| < limit :: rows[k]
  }

  /** With the last row put aside, the others stay or go as they would without it. */
  lemma CappedWithoutLast(rows: Rows, limit: nat, last: Key)
    requires IsLast(rows, last)
    ensures var rest := rows - {last};
      Capped(rows, limit) == if |rest| < limit then Capped(rest, limit)[last := rows[last]] else Capped(rest, limit)
  {
    hide Leads, IsLast, Ahead;
    var rest := rows - {last};
    AllAheadOfLast(rows, last);
    assert rest.Keys == rows.Keys - {last};
    forall k | k in rest ensures Ahead(rows, k) == Ahead(rest, k) {
      AheadWithoutLast(rows, last, k);
    }
    assert Capped(rows, limit)
        == if |rest| < limit then Capped(rest, limit)[last := rows[last]] else Capped(rest, limit);
  }

  lemma AllAheadOfLast(rows: Rows, last: Key)
    requires IsLast(rows, last)
    ensures Ahead(rows, last) == rows.Keys - {last} == (rows - {last}).Keys
    ensures |Ahead(rows, last)| == |rows - {last}| == |rows| - 1
  {
    hide Leads;
    NoneLeadsItself(rows, last);
  }

  lemma AheadWithoutLast(rows: Rows, last: Key, k: Key)
    requires IsLast(rows, last) && k in rows && k != last
    ensures Ahead(rows, k) == Ahead(rows - {last}, k)
  {
    hide Leads;
    var rest := rows - {last};
    OneLeads(rows, k, last);
    forall j | j in rest ensures Leads(rest, j, k) == Leads(rows, j, k) {
      SameOrder(rows, rest, j, k);
    }
  }

  /** As many rows stay as the limit allows, and no more. */
  lemma {:induction false} CappedSize(rows: Rows, limit: nat)
    ensures |Capped(rows, limit)| == if |rows| <= limit then |rows| else limit
    decreases |rows|
  {
    hide IsLast;
    if rows == map[] {
      assert Capped(rows, limit) == map[];
    } else {
      var last := LastExists(rows);
      LastIsRow(rows, last);
      var rest := rows - {last};
      assert rest.Keys == rows.Keys - {last};
      CappedSize(rest, limit);
      CappedWithoutLast(rows, limit, last);
      var kept := Capped(rest, limit);
      hide Capped;
      assert kept[last := rows[last]].Keys == kept.Keys + {last};
    }
  }

  lemma LastIsRow(rows: Rows, k: Key)
    requires IsLast(rows, k)
    ensures k in rows
  {
  }

  /** A row that stays comes before every row that is dropped. */
  lemma KeptLeadDropped(rows: Rows, limit: nat, k: Key, d: Key)
    requires k in Capped(rows, limit) && d in rows && d !in Capped(rows, limit)
    ensures Leads(rows, k, d)
  {
    hide Leads;
    OneLeads(rows, k, d);
    if Leads(rows, d, k) {
      forall j | j in Ahead(rows, d) ensures j in Ahead(rows, k) {
        LeadsTransitive(rows, j, d, k);
      }
      SubsetSize(Ahead(rows, d), Ahead(rows, k));
    }
  }

  /** Text order is that of the first character in which two texts differ. */
  lemma {:induction false} LessIff(a: string, b: string)
    ensures Less(a, b) <==>
      exists k :: 0 <= k <= |a| && k < |b| && a[..k] == b[..k] && (k == |a| || a[k] < b[k])
  {
    if b != "" && (a == "" || a[0] < b[0]) {
      assert a[..0] == b[..0];
    } else if a != "" && b != "" && a[0] == b[0] {
      LessIff(a[1..], b[1..]);
      if k :| 0 <= k <= |a[1..]| && k < |b[1..]| && a[1..][..k] == b[1..][..k]
              && (k == |a[1..]| || a[1..][k] < b[1..][k]) {
        assert a[..k + 1] == [a[0]] + a[1..][..k] && b[..k + 1] == [b[0]] + b[1..][..k];
      }
      if k :| 0 <= k <= |a| && k < |b| && a[..k] == b[..k] && (k == |a| || a[k] < b[k]) {
        assert k > 0 && a[1..][..k - 1] == a[..k][1..] && b[1..][..k - 1] == b[..k][1..];
      }
    } else if k :| 0 <= k <= |a| && k < |b| && a[..k] == b[..k] && (k == |a| || a[k] < b[k]) {
      assert k > 0 ==> a[..k][0] == b[..k][0];
    }
  }

  /**
   What is dropped comes last: a row without a date goes before one with, an older before a
   newer, and of rows with one date the one with the greater text of folder, slash and uid.
   */
  lemma DroppedComesLast(rows: Rows, limit: nat, k: Key, d: Key)
    requires k in Capped(rows, limit) && d in rows && d !in Capped(rows, limit)
    ensures rows[d].Some? ==> rows[k].Some? && rows[d].value <= rows[k].value
    ensures rows[d] == rows[k] ==> Less(k.0 + "/" + Show(k.1), d.0 + "/" + Show(d.1))
  {
    KeptLeadDropped(rows, limit, k, d);
  }

  lemma SubsetSize<T>(a: set<T>, b: set<T>)
    requires a <= b
    ensures |a| <= |b|
    ensures |a| == |b| ==> a == b
  {
    assert |b - a| == |b| - |a|;
  }

  /** Nothing is dropped exactly within the limit. */
  lemma NothingDroppedIff(rows: Rows, limit: nat)
    ensures Capped(rows, limit) == rows <==> |rows| <= limit
  {
    CappedSize(rows, limit);
    if |rows| <= limit {
      SubsetSize(Capped(rows, limit).Keys, rows.Keys);
    }
  }

  /** Past the limit the last row goes. */
  lemma LastIsDropped(rows: Rows, limit: nat, last: Key)
    requires IsLast(rows, last) && |rows| > limit
    ensures last !in Capped(rows, limit)
  {
    AllAheadOfLast(rows, last);
  }
}
