/** What a reader is shown, said of the ingested rows' own cells.

No key is projected, no map folded and nothing merged here: a row is shown if it is no delete
and no later row has the same cells in the key columns, and the rows shown come in the order
of those cells. The oracle's answer, and so every query of the store, is exactly this. */
module Plain {
  import opened Keys
  import opened Lists
  import opened Merge
  import opened Oracle

  /** What row i has in a column. Ingest numbers the rows in the column "seqno". */
  function Column(rows: seq<Cells>, i: nat, column: string): Value
    requires i < |rows|
  {
    if column == "seqno" then Int(i) else if column in rows[i] then rows[i][column] else Null
  }

  predicate SameKey(kc: seq<string>, rows: seq<Cells>, i: nat, j: nat)
    requires i < |rows| && j < |rows|
  {
    forall c :: c in kc ==> Column(rows, i, c) == Column(rows, j, c)
  }

  /** Row i is no delete and no later row has its key. */
  ghost predicate InForce(kc: seq<string>, rows: seq<Cells>, i: nat) {
    && i < |rows|
    && "op" in rows[i] && rows[i]["op"] != Null && rows[i]["op"] != Text("delete")
    && (forall j :: i < j < |rows| ==> !SameKey(kc, rows, i, j))
  }

  /** The first key column in which the rows differ has the smaller value in row i. */
  ghost predicate SortsBefore(kc: seq<string>, rows: seq<Cells>, i: nat, j: nat)
    requires i < |rows| && j < |rows|
  {
    exists k: nat :: k < |kc| && ValueLess(Column(rows, i, kc[k]), Column(rows, j, kc[k])) &&
                     forall m: nat :: m < k ==> Column(rows, i, kc[m]) == Column(rows, j, kc[m])
  }

  /** order lists the rows in force, each once, in the order of their keys. */
  ghost predicate InOrder(kc: seq<string>, rows: seq<Cells>, order: seq<nat>) {
    && (forall i :: i in order <==> InForce(kc, rows, i))
    && (forall j, k :: 0 <= j < k < |order| ==> order[j] < |rows| && order[k] < |rows| &&
                                                 SortsBefore(kc, rows, order[j], order[k]))
  }

  /** A query answers the rows in force in order, without the store's own two columns: all of
      them for limit 0, the first of them for a positive limit, all but the last for a negative
      one; and the total counts all of them. */
  ghost predicate Shows(kc: seq<string>, rows: seq<Cells>, limit: int, shown: seq<Cells>, total: nat) {
    exists order: seq<nat> ::
      && InOrder(kc, rows, order)
      && total == |order|
      && |shown| == (if limit == 0 || limit >= total then total
                     else if limit > 0 then limit else if total + limit > 0 then total + limit else 0)
      && forall k :: 0 <= k < |shown| ==> order[k] < |rows| && shown[k] == rows[order[k]] - {"op", "seqno"}
  }

  // ---- keys and columns -------------------------------------------------------------------------

  function KeyAt(kc: seq<string>, rows: seq<Cells>, i: nat): Key
    requires i < |rows|
  {
    KeyOf(kc, Arrived(rows[i], i))
  }

  /** The key is the row's own cells in the key columns. */
  lemma KeyReadsColumns(kc: seq<string>, rows: seq<Cells>, i: nat)
    requires i < |rows|
    ensures |KeyAt(kc, rows, i)| == |kc|
    ensures forall k :: 0 <= k < |kc| ==> KeyAt(kc, rows, i)[k] == Column(rows, i, kc[k])
    ensures forall k :: 0 <= k < |kc| && kc[k] != "seqno" && kc[k] in rows[i] ==>
              KeyAt(kc, rows, i)[k] == rows[i][kc[k]]
  {
  }

  /** Two rows have one key if and only if they agree in every key column. */
  lemma OneKeyExactly(kc: seq<string>, rows: seq<Cells>, i: nat, j: nat)
    requires i < |rows| && j < |rows|
    ensures KeyAt(kc, rows, i) == KeyAt(kc, rows, j) <==> SameKey(kc, rows, i, j)
  {
    KeyReadsColumns(kc, rows, i);
    KeyReadsColumns(kc, rows, j);
    if KeyAt(kc, rows, i) == KeyAt(kc, rows, j) {
      forall c | c in kc ensures Column(rows, i, c) == Column(rows, j, c) {
        var k :| 0 <= k < |kc| && kc[k] == c;
        assert KeyAt(kc, rows, i)[k] == KeyAt(kc, rows, j)[k];
      }
    }
    if SameKey(kc, rows, i, j) {
      forall k | 0 <= k < |kc| ensures KeyAt(kc, rows, i)[k] == KeyAt(kc, rows, j)[k] { assert kc[k] in kc; }
    }
  }

  lemma KeysSortRows(kc: seq<string>, rows: seq<Cells>, i: nat, j: nat)
    requires i < |rows| && j < |rows|
    ensures KeyLess(KeyAt(kc, rows, i), KeyAt(kc, rows, j)) <==> SortsBefore(kc, rows, i, j)
  {
    var a, b := KeyAt(kc, rows, i), KeyAt(kc, rows, j);
    KeyReadsColumns(kc, rows, i);
    KeyReadsColumns(kc, rows, j);
    KeyLessExactly(a, b);
    if k: nat :| DecidedAt(ValueLess, a, b, k) {
      assert k < |kc|;
      forall m: nat | m < k ensures Column(rows, i, kc[m]) == Column(rows, j, kc[m]) {
        assert a[m] == a[..k][m] == b[..k][m] == b[m];
      }
    }
    if SortsBefore(kc, rows, i, j) {
      var k: nat :| k < |kc| && ValueLess(Column(rows, i, kc[k]), Column(rows, j, kc[k])) &&
                    forall m: nat :: m < k ==> Column(rows, i, kc[m]) == Column(rows, j, kc[m]);
      assert a[..k] == b[..k];
      assert DecidedAt(ValueLess, a, b, k);
    }
  }

  // ---- the map and the rows in force -------------------------------------------------------------

  lemma PrefixColumns(kc: seq<string>, rows: seq<Cells>, n: nat, i: nat, j: nat)
    requires i < n <= |rows| && j < n
    ensures SameKey(kc, rows[..n], i, j) == SameKey(kc, rows, i, j)
    ensures KeyAt(kc, rows[..n], i) == KeyAt(kc, rows, i)
  {
    assert forall c :: Column(rows[..n], i, c) == Column(rows, i, c) && Column(rows[..n], j, c) == Column(rows, j, c);
  }

  lemma {:induction false} InForceIsHeld(kc: seq<string>, rows: seq<Cells>, i: nat)
    requires InForce(kc, rows, i)
    ensures KeyAt(kc, rows, i) in Fold(kc, rows)
    ensures Fold(kc, rows)[KeyAt(kc, rows, i)] == rows[i] - {"op", "seqno"}
  {
    var n := |rows| - 1;
    var before, key := Fold(kc, rows[..n]), KeyAt(kc, rows, n);
    ApplyByFilter(before, key, rows[n]);
    if i == n {
      assert Record(rows[n]) == rows[n] - {"op", "seqno"};
    } else {
      forall j | i < j < n ensures !SameKey(kc, rows[..n], i, j) { PrefixColumns(kc, rows, n, i, j); }
      PrefixColumns(kc, rows, n, i, i);
      InForceIsHeld(kc, rows[..n], i);
      OneKeyExactly(kc, rows, i, n);
    }
  }

  lemma {:induction false} HeldIsInForce(kc: seq<string>, rows: seq<Cells>, key: Key) returns (i: nat)
    requires key in Fold(kc, rows)
    ensures InForce(kc, rows, i) && KeyAt(kc, rows, i) == key
  {
    var n := |rows| - 1;
    ApplyByFilter(Fold(kc, rows[..n]), KeyAt(kc, rows, n), rows[n]);
    if key == KeyAt(kc, rows, n) {
      i := n;
    } else {
      i := HeldIsInForce(kc, rows[..n], key);
      PrefixColumns(kc, rows, n, i, i);
      forall j | i < j < |rows| ensures !SameKey(kc, rows, i, j) {
        if j < n { PrefixColumns(kc, rows, n, i, j); } else { OneKeyExactly(kc, rows, i, n); }
      }
    }
  }

  ghost function RowOf(kc: seq<string>, rows: seq<Cells>, key: Key): (i: nat)
    requires key in Fold(kc, rows)
    ensures InForce(kc, rows, i) && KeyAt(kc, rows, i) == key
  {
    assert exists i: nat :: InForce(kc, rows, i) && KeyAt(kc, rows, i) == key by {
      var i := HeldIsInForce(kc, rows, key);
    }
    var i: nat :| InForce(kc, rows, i) && KeyAt(kc, rows, i) == key;
    i
  }

  /** At most one row of each key is in force. */
  lemma OneInForce(kc: seq<string>, rows: seq<Cells>, i: nat, j: nat)
    requires InForce(kc, rows, i) && InForce(kc, rows, j) && KeyAt(kc, rows, i) == KeyAt(kc, rows, j)
    ensures i == j
  {
    OneKeyExactly(kc, rows, i, j);
    OneKeyExactly(kc, rows, j, i);
  }

  /** The keys of the map in ascending order, each by its row in force. */
  ghost function ListedRows(kc: seq<string>, rows: seq<Cells>): (order: seq<nat>)
    ensures |order| == |Fold(kc, rows)|
  {
    var keys := Ascending(Fold(kc, rows).Keys);
    seq(|keys|, k requires 0 <= k < |keys| => (assert keys[k] in keys; RowOf(kc, rows, keys[k])))
  }

  lemma ListedInOrder(kc: seq<string>, rows: seq<Cells>)
    ensures InOrder(kc, rows, ListedRows(kc, rows))
  {
    var keys, order := Ascending(Fold(kc, rows).Keys), ListedRows(kc, rows);
    forall i: nat ensures i in order <==> InForce(kc, rows, i) {
      if InForce(kc, rows, i) {
        InForceIsHeld(kc, rows, i);
        var k :| 0 <= k < |keys| && keys[k] == KeyAt(kc, rows, i);
        OneInForce(kc, rows, i, order[k]);
      }
    }
    forall j, k | 0 <= j < k < |order|
      ensures order[j] < |rows| && order[k] < |rows| && SortsBefore(kc, rows, order[j], order[k])
    {
      KeysSortRows(kc, rows, order[j], order[k]);
    }
  }

  /** The oracle's answer is what the rows show. */
  lemma AnswerShows(kc: seq<string>, rows: seq<Cells>, limit: int)
    ensures var a := Answer(Fold(kc, rows), Some(limit)); Shows(kc, rows, limit, a.0, a.1)
  {
    var keys, order := Ascending(Fold(kc, rows).Keys), ListedRows(kc, rows);
    var shown := Answer(Fold(kc, rows), Some(limit)).0;
    ListedInOrder(kc, rows);
    forall k | 0 <= k < |shown| ensures order[k] < |rows| && shown[k] == rows[order[k]] - {"op", "seqno"} {
      assert keys[k] in keys;
      InForceIsHeld(kc, rows, order[k]);
    }
  }

  // ---- rows show one answer only -------------------------------------------------------------------

  /** The keys of listed rows, ascending. */
  lemma ListedKeys(kc: seq<string>, rows: seq<Cells>, order: seq<nat>) returns (keys: seq<Key>)
    requires InOrder(kc, rows, order)
    ensures StrictlyAscending(keys) && |keys| == |order|
    ensures forall k :: 0 <= k < |order| ==> InForce(kc, rows, order[k]) && keys[k] == KeyAt(kc, rows, order[k])
  {
    assert forall k :: 0 <= k < |order| ==> order[k] in order;
    keys := seq(|order|, k requires 0 <= k < |order| => KeyAt(kc, rows, order[k]));
    forall j, k | 0 <= j < k < |keys| ensures KeyLess(keys[j], keys[k]) {
      KeysSortRows(kc, rows, order[j], order[k]);
    }
  }

  lemma OrderUnique(kc: seq<string>, rows: seq<Cells>, p: seq<nat>, q: seq<nat>)
    requires InOrder(kc, rows, p) && InOrder(kc, rows, q)
    ensures p == q
  {
    var a := ListedKeys(kc, rows, p);
    var b := ListedKeys(kc, rows, q);
    forall key ensures key in a <==> key in b {
      if k :| 0 <= k < |a| && a[k] == key { var m :| 0 <= m < |q| && q[m] == p[k]; assert b[m] == key; }
      if k :| 0 <= k < |b| && b[k] == key { var m :| 0 <= m < |p| && p[m] == q[k]; assert a[m] == key; }
    }
    AscendingUnique(a, b);
    forall k | 0 <= k < |p| ensures p[k] == q[k] { OneInForce(kc, rows, p[k], q[k]); }
  }

  /** Two answers that both show the rows are one: Shows leaves a query no choice. */
  lemma ShowsOneAnswer(kc: seq<string>, rows: seq<Cells>, limit: int,
                       a: seq<Cells>, m: nat, b: seq<Cells>, n: nat)
    requires Shows(kc, rows, limit, a, m) && Shows(kc, rows, limit, b, n)
    ensures a == b && m == n
  {
    var p :| InOrder(kc, rows, p) && m == |p| &&
             forall k :: 0 <= k < |a| ==> p[k] < |rows| && a[k] == rows[p[k]] - {"op", "seqno"};
    var q :| InOrder(kc, rows, q) && n == |q| &&
             forall k :: 0 <= k < |b| ==> q[k] < |rows| && b[k] == rows[q[k]] - {"op", "seqno"};
    OrderUnique(kc, rows, p, q);
  }
}
