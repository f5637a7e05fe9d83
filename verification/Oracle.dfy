/** What the stream store means: a plain map from key to record.

The oracle applies rows in arrival order; a delete removes the key, any other op puts the
row. A query's answer is the records of that map in ascending key order, cut to the limit,
and the number of keys in it. This module proves that the merge of
persistence/stream_store/lsm_store.py computes exactly that answer. */
module Oracle {
  import opened Keys
  import opened Lists
  import opened Merge

  type Live = map<Key, Cells>

  /** A delete removes the key, any other op puts the row. A row without an op counts as a
      delete. The record has every column but the two the store uses itself. */
  function Apply(m: Live, key: Key, cells: Cells): Live {
    match Cell(cells, "op")
    case Null => m - {key}
    case Text(op) => if op == "delete" then m - {key} else m[key := Visible(cells)]
    case Int(_) => m[key := Visible(cells)]
  }

  function Visible(cells: Cells): Cells { map c | c in cells && c != "op" && c != "seqno" :: cells[c] }

  /** The merge's filter and projection say the same. */
  lemma ApplyByFilter(m: Live, key: Key, cells: Cells)
    ensures Apply(m, key, cells) == if IsLive(cells) then m[key := Record(cells)] else m - {key}
  {
    assert Visible(cells) == Record(cells);
  }

  /** The i-th row to arrive, with its arrival number as its "seqno" cell: a key on that column
      sees the number, any other key sees the row as it came. */
  function Arrived(cells: Cells, i: nat): Cells { cells["seqno" := Int(i)] }

  /** The left fold over all rows in arrival order. */
  function Fold(kc: seq<string>, rows: seq<Cells>): Live {
    if rows == [] then map[]
    else
      var n := |rows| - 1;
      Apply(Fold(kc, rows[..n]), KeyOf(kc, Arrived(rows[n], n)), rows[n])
  }

  lemma ArrivalKeepsKey(kc: seq<string>, cells: Cells, i: nat)
    requires ORDER_COLUMN !in kc
    ensures KeyOf(kc, Arrived(cells, i)) == KeyOf(kc, cells)
  {
    StampKeepsKey(kc, Row(cells, i));
  }

  /** The keys in ascending order. */
  ghost function Ascending(keys: set<Key>): (r: seq<Key>)
    ensures StrictlyAscending(r)
    ensures forall k :: k in r <==> k in keys
    ensures |r| == |keys|
  {
    if keys == {} then []
    else
      LeastKey(keys);
      var k :| k in keys && forall o :: o in keys && o != k ==> KeyLess(k, o);
      var rest := Ascending(keys - {k});
      assert forall i :: 0 <= i < |rest| ==> rest[i] in rest;
      [k] + rest
  }

  lemma LeastKey(keys: set<Key>)
    requires keys != {}
    ensures exists k :: k in keys && forall o :: o in keys && o != k ==> KeyLess(k, o)
  {
    KeyOrder();
    var k := Least(KeyLess, keys);
    assert forall o :: o in keys && o != k ==> KeyLess(k, o);
  }

  /** The records of the map, listed by ascending key. */
  ghost function Listing(m: Live): (r: seq<Cells>)
    ensures |r| == |m|
  {
    var keys := Ascending(m.Keys);
    seq(|keys|, i requires 0 <= i < |keys| => m[keys[i]])
  }

  /** How many of height records a limit lets through: all of them for no limit or 0, the
      first n for a positive n, all but the last n for a negative one. */
  function Allowed(height: nat, limit: Option<int>): (n: nat)
    ensures n <= height
  {
    match limit
    case None => height
    case Some(n) =>
      if n == 0 || n >= height then height
      else if n > 0 then n
      else if height + n >= 0 then height + n
      else 0
  }

  /** A query's answer for a map. */
  ghost function Answer(m: Live, limit: Option<int>): (seq<Cells>, nat) {
    (Listing(m)[..Allowed(|m|, limit)], |m|)
  }

  // ---- the answer read off the answer: what a caller may rely on --------------------

  /** With no limit, limit 0 or a limit past the end the answer is every live record. */
  lemma AnswerIsComplete(m: Live, limit: Option<int>)
    requires limit.None? || limit.value == 0 || limit.value >= |m|
    ensures |Answer(m, limit).0| == Answer(m, limit).1 == |m|
    ensures forall c :: c in Answer(m, limit).0 <==> c in m.Values
  {
    var keys, records := Ascending(m.Keys), Listing(m);
    assert records[..|m|] == records;
    forall c | c in m.Values ensures c in records {
      var k :| k in m && m[k] == c;
      var i :| 0 <= i < |keys| && keys[i] == k;
      assert records[i] == c;
    }
    forall c | c in records ensures c in m.Values {
      var i :| 0 <= i < |records| && records[i] == c;
      assert keys[i] in keys;
    }
  }

  // ---- stamped rows ------------------------------------------------------------------

  /** Rows stamped with consecutive sequence numbers, as ingest stamps a batch. */
  function Stamp(rows: seq<Cells>, first: nat): Frame {
    seq(|rows|, i requires 0 <= i < |rows| => Row(rows[i], first + i))
  }

  lemma StampAppend(a: seq<Cells>, b: seq<Cells>, first: nat)
    ensures Stamp(a + b, first) == Stamp(a, first) + Stamp(b, first + |a|)
  {
  }

  ghost predicate Increasing(rows: Frame) {
    forall i, j :: 0 <= i < j < |rows| ==> rows[i].seqno < rows[j].seqno
  }

  /** The oracle over stamped rows. */
  function View(kc: seq<string>, rows: Frame): Live {
    if rows == [] then map[]
    else var last := rows[|rows| - 1];
         Apply(View(kc, rows[..|rows| - 1]), RowKey(kc, last), last.cells)
  }

  /** Whatever the key columns, the map of rows stamped from 0 on is the fold of the rows. */
  lemma {:induction false} ViewOfStamped(kc: seq<string>, rows: seq<Cells>)
    ensures View(kc, Stamp(rows, 0)) == Fold(kc, rows)
  {
    if rows == [] {
    } else {
      var n := |rows| - 1;
      ViewOfStamped(kc, rows[..n]);
      assert Stamp(rows, 0)[..n] == Stamp(rows[..n], 0);
      assert Stamp(rows, 0)[n] == Row(rows[n], n);
    }
  }

  // ---- the map a set of one-per-key rows stands for -----------------------------------

  /** rows holds at most one row per key, and m is exactly its live ones. */
  ghost predicate Represents(kc: seq<string>, rows: Frame, m: Live) {
    && UniqueKeys(kc, rows)
    && (forall r :: r in rows && IsLive(r.cells) ==> RowKey(kc, r) in m && m[RowKey(kc, r)] == Record(r.cells))
    && (forall k :: k in m ==> exists r :: r in rows && IsLive(r.cells) && RowKey(kc, r) == k)
  }

  lemma RepresentsUpsert(kc: seq<string>, winners: Frame, m: Live, row: Row)
    requires Represents(kc, winners, m) && !Beaten(kc, winners, row)
    ensures Represents(kc, Upsert(kc, winners, row), Apply(m, RowKey(kc, row), row.cells))
  {
    var key := RowKey(kc, row);
    var after, m' := Without(kc, winners, key) + [row], Apply(m, key, row.cells);
    ApplyByFilter(m, key, row.cells);
    WithoutMembers(kc, winners, key);
    UpsertUnique(kc, winners, row);
    forall r | r in after && IsLive(r.cells) ensures RowKey(kc, r) in m' && m'[RowKey(kc, r)] == Record(r.cells) {
      if r != row { assert r in winners && RowKey(kc, r) != key; }
    }
    forall k | k in m' ensures exists r :: r in after && IsLive(r.cells) && RowKey(kc, r) == k {
      if k == key {
        assert row in after;
      } else {
        var r :| r in winners && IsLive(r.cells) && RowKey(kc, r) == k;
        assert r in after;
      }
    }
  }

  lemma UpsertUnique(kc: seq<string>, winners: Frame, row: Row)
    requires UniqueKeys(kc, winners)
    ensures UniqueKeys(kc, Without(kc, winners, RowKey(kc, row)) + [row])
  {
    var kept := Without(kc, winners, RowKey(kc, row));
    WithoutMembers(kc, winners, RowKey(kc, row));
    WithoutKeepsUnique(kc, winners, RowKey(kc, row));
    assert forall i :: 0 <= i < |kept| ==> kept[i] in kept;
  }

  /** For rows in increasing sequence number the merge represents the oracle's map. */
  lemma {:induction false} WinnersRepresent(kc: seq<string>, rows: Frame)
    requires Increasing(rows)
    ensures Represents(kc, Winners(kc, rows), View(kc, rows))
  {
    if rows == [] {
    } else {
      var init, last := rows[..|rows| - 1], rows[|rows| - 1];
      WinnersRepresent(kc, init);
      assert rows == init + [last];
      WinnersSnoc(kc, init, last);
      WinnersDominate(kc, init, last);
      RepresentsUpsert(kc, Winners(kc, init), View(kc, init), last);
    }
  }

  // ---- live, sorted, cut ---------------------------------------------------------------

  lemma {:induction false} LiveMembers(kc: seq<string>, rows: Frame)
    ensures forall r :: r in LiveRows(rows) <==> r in rows && IsLive(r.cells)
    ensures UniqueKeys(kc, rows) ==> UniqueKeys(kc, LiveRows(rows))
  {
    if rows == [] {
    } else {
      LiveMembers(kc, rows[1..]);
      assert rows == [rows[0]] + rows[1..];
      if UniqueKeys(kc, rows) {
        var rest := LiveRows(rows[1..]);
        forall i | 0 <= i < |rest| ensures RowKey(kc, rest[i]) != RowKey(kc, rows[0]) {
          assert rest[i] in rest;
          assert rest[i] in rows[1..];
        }
      }
    }
  }

  ghost predicate AscendingRows(kc: seq<string>, rows: Frame) {
    forall i, j :: 0 <= i < j < |rows| ==> KeyLess(RowKey(kc, rows[i]), RowKey(kc, rows[j]))
  }

  lemma {:induction false} InsertMembers(kc: seq<string>, row: Row, sorted: Frame)
    ensures multiset(InsertByKey(kc, row, sorted)) == multiset(sorted) + multiset{row}
    ensures forall r :: r in InsertByKey(kc, row, sorted) ==> r == row || r in sorted
  {
    if sorted == [] {
    } else {
      InsertMembers(kc, row, sorted[1..]);
      assert sorted == [sorted[0]] + sorted[1..];
    }
  }

  lemma {:induction false} InsertAscending(kc: seq<string>, row: Row, sorted: Frame)
    requires AscendingRows(kc, sorted)
    requires forall r :: r in sorted ==> RowKey(kc, r) != RowKey(kc, row)
    ensures AscendingRows(kc, InsertByKey(kc, row, sorted))
  {
    KeyOrder();
    if sorted == [] {
    } else {
      assert sorted[0] in sorted;
      if KeyLess(RowKey(kc, row), RowKey(kc, sorted[0])) {
        assert forall i :: 0 < i < |sorted| ==> KeyLess(RowKey(kc, row), RowKey(kc, sorted[i]));
      } else {
        var rest := InsertByKey(kc, row, sorted[1..]);
        InsertAscending(kc, row, sorted[1..]);
        InsertMembers(kc, row, sorted[1..]);
        forall i | 0 <= i < |rest| ensures KeyLess(RowKey(kc, sorted[0]), RowKey(kc, rest[i])) {
          assert rest[i] in rest;
        }
      }
    }
  }

  /** The sort is the ascending permutation of rows with distinct keys. */
  lemma {:induction false} SortAscending(kc: seq<string>, rows: Frame)
    requires UniqueKeys(kc, rows)
    ensures AscendingRows(kc, SortByKey(kc, rows))
    ensures multiset(SortByKey(kc, rows)) == multiset(rows)
  {
    if rows == [] {
    } else {
      SortAscending(kc, rows[1..]);
      assert rows == [rows[0]] + rows[1..];
      var rest := SortByKey(kc, rows[1..]);
      forall r | r in rest ensures RowKey(kc, r) != RowKey(kc, rows[0]) {
        assert r in multiset(rest);
        assert r in rows[1..];
      }
      InsertAscending(kc, rows[0], rest);
      InsertMembers(kc, rows[0], rest);
    }
  }

  lemma CutRecords(rows: Frame, limit: Option<int>)
    ensures Records(Cut(rows, limit)) == Records(rows)[..Allowed(|rows|, limit)]
  {
  }

  /** Rows in ascending key order list the map they stand for. */
  lemma SortedListing(kc: seq<string>, sorted: Frame, m: Live)
    requires AscendingRows(kc, sorted)
    requires forall i :: 0 <= i < |sorted| ==>
               RowKey(kc, sorted[i]) in m && m[RowKey(kc, sorted[i])] == Record(sorted[i].cells)
    requires forall k :: k in m ==> exists i :: 0 <= i < |sorted| && RowKey(kc, sorted[i]) == k
    ensures Records(sorted) == Listing(m)
  {
    var keys := seq(|sorted|, i requires 0 <= i < |sorted| => RowKey(kc, sorted[i]));
    forall k | k in m ensures k in keys {
      var i :| 0 <= i < |sorted| && RowKey(kc, sorted[i]) == k;
      assert keys[i] == k;
    }
    AscendingUnique(keys, Ascending(m.Keys));
  }

  /** The live rows, sorted and cut, are the answer of the map the rows represent. */
  lemma SortedLiveIsAnswer(kc: seq<string>, rows: Frame, m: Live, limit: Option<int>)
    requires Represents(kc, rows, m)
    ensures var live := SortByKey(kc, LiveRows(rows));
            (Records(Cut(live, limit)), |live|) == Answer(m, limit)
  {
    var live := LiveRows(rows);
    var sorted := SortByKey(kc, live);
    LiveMembers(kc, rows);
    SortAscending(kc, live);
    SameMembers(sorted, live);
    assert forall i :: 0 <= i < |sorted| ==> sorted[i] in sorted;
    forall k | k in m ensures exists i :: 0 <= i < |sorted| && RowKey(kc, sorted[i]) == k {
      var r :| r in rows && IsLive(r.cells) && RowKey(kc, r) == k;
      assert r in sorted;
    }
    SortedListing(kc, sorted, m);
    CutRecords(sorted, limit);
  }

  lemma SameMembers(a: Frame, b: Frame)
    requires multiset(a) == multiset(b)
    ensures forall r :: r in a <==> r in b
  {
    forall r ensures r in a <==> r in b {
      assert r in multiset(a) <==> r in multiset(b);
    }
  }

  /** Merge on read: over rows in increasing sequence number, however they are divided into
      frames, the answer is the oracle's. */
  lemma MergeToRowsIsAnswer(kc: seq<string>, frames: seq<Frame>, limit: Option<int>)
    requires Increasing(Flatten(frames))
    ensures MergeToRows(kc, frames, limit) == Answer(View(kc, Flatten(frames)), limit)
  {
    WinnersRepresent(kc, Flatten(frames));
    SortedLiveIsAnswer(kc, Winners(kc, Flatten(frames)), View(kc, Flatten(frames)), limit);
    if frames == [] {
      assert Answer(map[], limit).0 == [];
    }
  }

  // ---- regrouping and permuting frames ---------------------------------------------------

  lemma {:induction false} UniqueKeysRepresent(kc: seq<string>, rows: Frame)
    requires UniqueKeys(kc, rows)
    ensures Represents(kc, rows, View(kc, rows))
  {
    if rows == [] {
    } else {
      var init, last := rows[..|rows| - 1], rows[|rows| - 1];
      UniqueKeysRepresent(kc, init);
      assert rows == init + [last];
      assert !Beaten(kc, init, last);
      RepresentsUpsert(kc, init, View(kc, init), last);
      NothingRemoved(kc, init, RowKey(kc, last));
    }
  }

  lemma {:induction false} NothingRemoved(kc: seq<string>, rows: Frame, key: Key)
    requires forall i :: 0 <= i < |rows| ==> RowKey(kc, rows[i]) != key
    ensures Without(kc, rows, key) == rows
  {
    if rows == [] {
    } else {
      NothingRemoved(kc, rows[..|rows| - 1], key);
    }
  }

  /** Two collections of frames whose rows have distinct sequence numbers and the same newest
      row per key answer every query alike. */
  lemma SameNewestSameAnswer(kc: seq<string>, a: seq<Frame>, b: seq<Frame>, limit: Option<int>)
    requires DistinctSeqnos(Flatten(a)) && DistinctSeqnos(Flatten(b))
    requires forall r :: Newest(kc, Flatten(a), r) <==> Newest(kc, Flatten(b), r)
    ensures MergeToRows(kc, a, limit) == MergeToRows(kc, b, limit)
  {
    var wa, wb := Winners(kc, Flatten(a)), Winners(kc, Flatten(b));
    forall r ensures r in wa <==> r in wb {
      WinnersAreNewest(kc, Flatten(a), r);
      WinnersAreNewest(kc, Flatten(b), r);
    }
    WinnersUnique(kc, Flatten(a));
    WinnersUnique(kc, Flatten(b));
    UniqueKeysRepresent(kc, wa);
    var m := View(kc, wa);
    assert Represents(kc, wb, m);
    SortedLiveIsAnswer(kc, wa, m, limit);
    SortedLiveIsAnswer(kc, wb, m, limit);
    if a == [] || b == [] { assert |Winners(kc, [])| == 0; assert Answer(m, limit).0 == []; }
  }

  /** The answer does not depend on how rows are grouped into frames or on their order. */
  lemma AnswerIgnoresOrder(kc: seq<string>, a: seq<Frame>, b: seq<Frame>, limit: Option<int>)
    requires DistinctSeqnos(Flatten(a))
    requires multiset(Flatten(a)) == multiset(Flatten(b))
    ensures MergeToRows(kc, a, limit) == MergeToRows(kc, b, limit)
  {
    SameRowsDistinct(Flatten(a), Flatten(b));
    SameMembers(Flatten(a), Flatten(b));
    SameNewestSameAnswer(kc, a, b, limit);
  }

  lemma {:induction false} SameRowsDistinct(a: Frame, b: Frame)
    requires DistinctSeqnos(a) && multiset(a) == multiset(b)
    ensures DistinctSeqnos(b)
  {
    forall i, j | 0 <= i < j < |b| ensures b[i].seqno != b[j].seqno {
      assert b[i] in multiset(b) && b[j] in multiset(b);
      var x :| 0 <= x < |a| && a[x] == b[i];
      var y :| 0 <= y < |a| && a[y] == b[j];
      if x == y {
        TwiceInMultiset(b, i, j);
        OnceInMultiset(a, x);
      }
    }
  }

  lemma TwiceInMultiset(b: Frame, i: nat, j: nat)
    requires i < j < |b| && b[i] == b[j]
    ensures multiset(b)[b[i]] >= 2
  {
    assert b == b[..j] + [b[j]] + b[j + 1..];
    assert b[..j] == b[..i] + [b[i]] + b[i + 1..j];
  }

  lemma OnceInMultiset(a: Frame, x: nat)
    requires x < |a| && DistinctSeqnos(a)
    ensures multiset(a)[a[x]] == 1
  {
    assert a == a[..x] + [a[x]] + a[x + 1..];
    assert a[x] !in a[..x] && a[x] !in a[x + 1..];
  }

  /** Replacing any group of frames, wherever it stands, by its merge leaves every answer. */
  lemma MergingAnyGroup(kc: seq<string>, a: seq<Frame>, group: seq<Frame>, b: seq<Frame>, limit: Option<int>)
    requires group != []
    requires DistinctSeqnos(Flatten(a + group + b))
    ensures MergeToRows(kc, a + [MergeFrame(kc, group).value] + b, limit) == MergeToRows(kc, a + group + b, limit)
  {
    var merged := MergeFrame(kc, group).value;
    var g, before, after := Flatten(group), Flatten(a), Flatten(b);
    FlattenAppend(a + group, b);
    FlattenAppend(a, group);
    FlattenAppend(a + [merged], b);
    FlattenSnoc(a, merged);
    var all, small := before + g + after, before + merged + after;
    MergedDistinct(kc, before, g, after);
    WinnersKeys(kc, g);
    forall r ensures Newest(kc, all, r) <==> Newest(kc, small, r) {
      MergedNewest(kc, before, g, after, r);
    }
    SameNewestSameAnswer(kc, a + [merged] + b, a + group + b, limit);
  }

  lemma MergedDistinct(kc: seq<string>, before: Frame, g: Frame, after: Frame)
    requires DistinctSeqnos(before + g + after)
    ensures DistinctSeqnos(g)
    ensures DistinctSeqnos(before + Winners(kc, g) + after)
  {
    var all := before + g + after;
    assert forall i :: 0 <= i < |g| ==> all[|before| + i] == g[i];
    var w := Winners(kc, g);
    WinnersUnique(kc, g);
    WinnersKeys(kc, g);
    var small := before + w + after;
    assert forall i :: 0 <= i < |w| ==> small[|before| + i] == w[i];
    forall i, j | 0 <= i < j < |small| ensures small[i].seqno != small[j].seqno {
      if i < |before| {
        assert small[i] == all[i];
        if j < |before| {
          assert small[j] == all[j];
        } else if j < |before| + |w| {
          var y := PositionIn(g, small[j]);
          assert all[|before| + y] == small[j];
        } else {
          assert small[j] == all[j - |w| + |g|];
        }
      } else if i < |before| + |w| {
        var x := PositionIn(g, small[i]);
        assert all[|before| + x] == small[i];
        if j < |before| + |w| {
          var y := PositionIn(g, small[j]);
          assert all[|before| + y] == small[j];
          assert RowKey(kc, w[i - |before|]) != RowKey(kc, w[j - |before|]);
        } else {
          assert small[j] == all[j - |w| + |g|];
        }
      } else {
        assert small[i] == all[i - |w| + |g|] && small[j] == all[j - |w| + |g|];
      }
    }
  }

  ghost function PositionIn(rows: Frame, r: Row): (i: nat)
    requires r in rows
    ensures i < |rows| && rows[i] == r
  {
    var i: nat :| i < |rows| && rows[i] == r;
    i
  }

  lemma MergedNewest(kc: seq<string>, before: Frame, g: Frame, after: Frame, r: Row)
    requires DistinctSeqnos(g)
    ensures Newest(kc, before + g + after, r) <==> Newest(kc, before + Winners(kc, g) + after, r)
  {
    var w := Winners(kc, g);
    WinnersKeys(kc, g);
    var all, small := before + g + after, before + w + after;
    assert forall q :: q in all <==> q in before || q in g || q in after;
    assert forall q :: q in small <==> q in before || q in w || q in after;
    if Newest(kc, all, r) && r in g {
      assert Newest(kc, g, r);
      WinnersAreNewest(kc, g, r);
    }
    if Newest(kc, small, r) {
      forall q | q in g && RowKey(kc, q) == RowKey(kc, r) ensures q.seqno <= r.seqno {
        WinnersDominate(kc, g, q);
        assert Beaten(kc, g, q);
        var i :| 0 <= i < |w| && RowKey(kc, w[i]) == RowKey(kc, q) && w[i].seqno >= q.seqno;
        assert w[i] in w;
      }
    }
  }

  // ---- redelivery -----------------------------------------------------------------------

  ghost predicate Touches(kc: seq<string>, rows: seq<Cells>, key: Key) {
    exists i :: 0 <= i < |rows| && KeyOf(kc, rows[i]) == key
  }

  lemma FoldSnoc(kc: seq<string>, rows: seq<Cells>, last: Cells)
    requires ORDER_COLUMN !in kc
    ensures Fold(kc, rows + [last]) == Apply(Fold(kc, rows), KeyOf(kc, last), last)
  {
    assert (rows + [last])[..|rows|] == rows;
    ArrivalKeepsKey(kc, last, |rows|);
  }

  lemma TouchesSnoc(kc: seq<string>, rows: seq<Cells>, last: Cells, key: Key)
    ensures Touches(kc, rows + [last], key) <==> Touches(kc, rows, key) || KeyOf(kc, last) == key
  {
    assert forall i :: 0 <= i < |rows| ==> (rows + [last])[i] == rows[i];
    assert (rows + [last])[|rows|] == last;
  }

  /** One row decides its own key alike on any two maps and leaves the others. */
  lemma ApplyDecides(m: Live, n: Live, k: Key, cells: Cells, key: Key)
    ensures k == key ==> (key in Apply(m, k, cells) <==> key in Apply(n, k, cells))
    ensures k == key && key in Apply(m, k, cells) ==> Apply(m, k, cells)[key] == Apply(n, k, cells)[key]
    ensures k != key ==> (key in Apply(m, k, cells) <==> key in m) && (key in Apply(n, k, cells) <==> key in n)
    ensures k != key && key in m ==> Apply(m, k, cells)[key] == m[key]
    ensures k != key && key in n ==> Apply(n, k, cells)[key] == n[key]
  {
  }

  /** Rows s applied after anything decide every key they touch and leave the others. */
  lemma {:induction false} LaterRowsDecide(kc: seq<string>, x: seq<Cells>, s: seq<Cells>, key: Key)
    requires ORDER_COLUMN !in kc
    ensures var before, alone, both := Fold(kc, x), Fold(kc, s), Fold(kc, x + s);
            if Touches(kc, s, key)
            then (key in both <==> key in alone) && (key in both ==> both[key] == alone[key])
            else key !in alone && (key in both <==> key in before) && (key in both ==> both[key] == before[key])
  {
    if s == [] {
      assert x + s == x;
    } else {
      var init, last := s[..|s| - 1], s[|s| - 1];
      LaterRowsDecide(kc, x, init, key);
      assert s == init + [last] && x + s == (x + init) + [last];
      FoldSnoc(kc, init, last);
      FoldSnoc(kc, x + init, last);
      TouchesSnoc(kc, init, last, key);
      ApplyDecides(Fold(kc, init), Fold(kc, x + init), KeyOf(kc, last), last, key);
    }
  }

  /** Ingesting s after x gives what s alone gives exactly when s touches every key live
      after x. */
  lemma ReplayConverges(kc: seq<string>, x: seq<Cells>, s: seq<Cells>)
    requires ORDER_COLUMN !in kc
    ensures Fold(kc, x + s) == Fold(kc, s) <==> forall key :: key in Fold(kc, x) ==> Touches(kc, s, key)
  {
    if Fold(kc, x + s) == Fold(kc, s) {
      forall key | key in Fold(kc, x) ensures Touches(kc, s, key) {
        LaterRowsDecide(kc, x, s, key);
      }
    }
    if forall key :: key in Fold(kc, x) ==> Touches(kc, s, key) {
      forall key
        ensures key in Fold(kc, x + s) <==> key in Fold(kc, s)
        ensures key in Fold(kc, s) ==> Fold(kc, x + s)[key] == Fold(kc, s)[key]
      {
        LaterRowsDecide(kc, x, s, key);
      }
    }
  }

  /** No two such maps answer alike unless they are the same: any one query tells. */
  lemma ReplayAnswersExactly(kc: seq<string>, x: seq<Cells>, s: seq<Cells>, limit: Option<int>)
    requires ORDER_COLUMN !in kc
    ensures Answer(Fold(kc, x + s), limit) == Answer(Fold(kc, s), limit) <==>
            forall key :: key in Fold(kc, x) ==> Touches(kc, s, key)
  {
    ReplayConverges(kc, x, s);
    var alone, both := Fold(kc, s), Fold(kc, x + s);
    if key :| key in Fold(kc, x) && !Touches(kc, s, key) {
      LaterRowsDecide(kc, x, s, key);
      forall k | k in alone ensures k in both { LaterRowsDecide(kc, x, s, k); }
      MoreKeys(alone.Keys, both.Keys, key);
    }
  }

  lemma MoreKeys(few: set<Key>, many: set<Key>, key: Key)
    requires few <= many && key in many && key !in few
    ensures |few| < |many|
  {
    SmallerSet(few + {key}, many);
  }

  lemma LiveKeysAreTouched(kc: seq<string>, x: seq<Cells>, key: Key)
    requires ORDER_COLUMN !in kc && key in Fold(kc, x)
    ensures Touches(kc, x, key)
  {
    LaterRowsDecide(kc, [], x, key);
  }

  // ---- a key on the sequence number -------------------------------------------------------

  lemma SeqnoInKey(kc: seq<string>, c: nat, cells: Cells, i: nat)
    requires c < |kc| && kc[c] == ORDER_COLUMN
    ensures KeyOf(kc, Arrived(cells, i))[c] == Int(i)
  {
  }

  /** With "seqno" among the key columns every row has a key of its own, so nothing is ever
      overwritten or deleted: the map holds exactly the live rows. */
  lemma {:induction false} SeqnoKeyedFold(kc: seq<string>, rows: seq<Cells>, key: Key)
    requires ORDER_COLUMN in kc
    ensures key in Fold(kc, rows) <==>
            exists i :: 0 <= i < |rows| && IsLive(rows[i]) && KeyOf(kc, Arrived(rows[i], i)) == key
  {
    if rows == [] {
    } else {
      var n := |rows| - 1;
      var c :| 0 <= c < |kc| && kc[c] == ORDER_COLUMN;
      SeqnoKeyedFold(kc, rows[..n], key);
      ApplyByFilter(Fold(kc, rows[..n]), KeyOf(kc, Arrived(rows[n], n)), rows[n]);
      assert forall i :: 0 <= i < n ==> rows[..n][i] == rows[i];
      SeqnoInKey(kc, c, rows[n], n);
      forall i | 0 <= i < n ensures KeyOf(kc, Arrived(rows[i], i)) != KeyOf(kc, Arrived(rows[n], n)) {
        SeqnoInKey(kc, c, rows[i], i);
      }
    }
  }

  lemma {:induction false} SeqnoKeyedRecord(kc: seq<string>, rows: seq<Cells>, i: nat)
    requires ORDER_COLUMN in kc && i < |rows| && IsLive(rows[i])
    ensures KeyOf(kc, Arrived(rows[i], i)) in Fold(kc, rows)
    ensures Fold(kc, rows)[KeyOf(kc, Arrived(rows[i], i))] == Record(rows[i])
  {
    var n := |rows| - 1;
    var c :| 0 <= c < |kc| && kc[c] == ORDER_COLUMN;
    ApplyByFilter(Fold(kc, rows[..n]), KeyOf(kc, Arrived(rows[n], n)), rows[n]);
    if i == n {
    } else {
      SeqnoKeyedRecord(kc, rows[..n], i);
      SeqnoInKey(kc, c, rows[i], i);
      SeqnoInKey(kc, c, rows[n], n);
    }
  }

  function LiveCount(rows: seq<Cells>): nat {
    if rows == [] then 0 else LiveCount(rows[..|rows| - 1]) + if IsLive(rows[|rows| - 1]) then 1 else 0
  }

  ghost predicate NoneLive(rows: seq<Cells>) { forall i :: 0 <= i < |rows| ==> !IsLive(rows[i]) }

  lemma {:induction false} LiveCountAppend(a: seq<Cells>, b: seq<Cells>)
    ensures LiveCount(a + b) == LiveCount(a) + LiveCount(b)
  {
    if b == [] {
      assert a + b == a;
    } else {
      LiveCountAppend(a, b[..|b| - 1]);
      assert (a + b)[..|a + b| - 1] == a + b[..|b| - 1];
    }
  }

  lemma {:induction false} LiveCountZero(rows: seq<Cells>)
    ensures LiveCount(rows) == 0 <==> NoneLive(rows)
  {
    if rows == [] {
    } else {
      var n := |rows| - 1;
      LiveCountZero(rows[..n]);
      assert forall i :: 0 <= i < n ==> rows[..n][i] == rows[i];
    }
  }

  /** The total of every answer is then the number of live rows, repeats included. */
  lemma {:induction false} SeqnoKeyedTotal(kc: seq<string>, rows: seq<Cells>)
    requires ORDER_COLUMN in kc
    ensures |Fold(kc, rows)| == LiveCount(rows)
  {
    if rows == [] {
    } else {
      var n := |rows| - 1;
      SeqnoKeyedTotal(kc, rows[..n]);
      LastNumberIsNew(kc, rows[..n], rows[n]);
      ApplyNewKey(Fold(kc, rows[..n]), KeyOf(kc, Arrived(rows[n], n)), rows[n]);
    }
  }

  lemma ApplyNewKey(m: Live, key: Key, cells: Cells)
    requires key !in m
    ensures |Apply(m, key, cells)| == |m| + if IsLive(cells) then 1 else 0
  {
    ApplyByFilter(m, key, cells);
    assert m - {key} == m;
    assert m[key := Record(cells)].Keys == m.Keys + {key};
  }

  lemma LastNumberIsNew(kc: seq<string>, rows: seq<Cells>, last: Cells)
    requires ORDER_COLUMN in kc
    ensures KeyOf(kc, Arrived(last, |rows|)) !in Fold(kc, rows)
  {
    var c :| 0 <= c < |kc| && kc[c] == ORDER_COLUMN;
    var key := KeyOf(kc, Arrived(last, |rows|));
    SeqnoKeyedFold(kc, rows, key);
    SeqnoInKey(kc, c, last, |rows|);
    forall i | 0 <= i < |rows| ensures KeyOf(kc, Arrived(rows[i], i)) != key { SeqnoInKey(kc, c, rows[i], i); }
  }

  // ---- later arrival numbers ------------------------------------------------------------------

  /** The key of the same row arriving d rows later. */
  function Shifted(kc: seq<string>, key: Key, d: nat): (r: Key)
    ensures |r| == |key|
  {
    seq(|key|, c requires 0 <= c < |key| =>
      if c < |kc| && kc[c] == ORDER_COLUMN && key[c].Int? then Int(key[c].n + d) else key[c])
  }

  ghost predicate Numbered(kc: seq<string>, key: Key) {
    |key| == |kc| && forall c :: 0 <= c < |kc| && kc[c] == ORDER_COLUMN ==> key[c].Int?
  }

  lemma ArrivedLater(kc: seq<string>, cells: Cells, i: nat, d: nat)
    ensures Numbered(kc, KeyOf(kc, Arrived(cells, i)))
    ensures KeyOf(kc, Arrived(cells, i + d)) == Shifted(kc, KeyOf(kc, Arrived(cells, i)), d)
  {
  }

  /** Numbering later keeps the order. */
  lemma {:induction false} ShiftKeepsOrder(kc: seq<string>, a: Key, b: Key, d: nat)
    requires Numbered(kc, a) && Numbered(kc, b)
    ensures KeyLess(Shifted(kc, a, d), Shifted(kc, b, d)) <==> KeyLess(a, b)
  {
    if kc == [] {
    } else {
      var rest := kc[1..];
      ShiftKeepsOrder(rest, a[1..], b[1..], d);
      assert Shifted(kc, a, d)[1..] == Shifted(rest, a[1..], d);
      assert Shifted(kc, b, d)[1..] == Shifted(rest, b[1..], d);
    }
  }

  /** The map holds the record of a live row under its number, and d later if it comes d later. */
  lemma RecordShifts(kc: seq<string>, both: seq<Cells>, s: seq<Cells>, i: nat, d: nat)
    requires ORDER_COLUMN in kc && i < |s| && IsLive(s[i]) && i + d < |both| && both[i + d] == s[i]
    ensures var key := KeyOf(kc, Arrived(s[i], i));
            && Numbered(kc, key) && key in Fold(kc, s) && Shifted(kc, key, d) in Fold(kc, both)
            && Fold(kc, both)[Shifted(kc, key, d)] == Fold(kc, s)[key]
  {
    ArrivedLater(kc, s[i], i, d);
    assert Shifted(kc, KeyOf(kc, Arrived(s[i], i)), d) == KeyOf(kc, Arrived(both[i + d], i + d));
    SeqnoKeyedRecord(kc, s, i);
    SeqnoKeyedRecord(kc, both, i + d);
  }

  lemma LiveRowOf(kc: seq<string>, rows: seq<Cells>, key: Key) returns (i: nat)
    requires ORDER_COLUMN in kc && key in Fold(kc, rows)
    ensures i < |rows| && IsLive(rows[i]) && KeyOf(kc, Arrived(rows[i], i)) == key
  {
    SeqnoKeyedFold(kc, rows, key);
    i :| 0 <= i < |rows| && IsLive(rows[i]) && KeyOf(kc, Arrived(rows[i], i)) == key;
  }

  /** n is m with every number d later. */
  ghost predicate LaterBy(kc: seq<string>, m: Live, n: Live, d: nat) {
    && (forall k :: k in m ==> Numbered(kc, k) && Shifted(kc, k, d) in n && n[Shifted(kc, k, d)] == m[k])
    && (forall k :: k in n ==> exists earlier :: earlier in m && Shifted(kc, earlier, d) == k)
  }

  /** With no live row in x, the map after x + s is the map after s with every number later. */
  lemma FoldIsLater(kc: seq<string>, x: seq<Cells>, s: seq<Cells>)
    requires ORDER_COLUMN in kc && NoneLive(x)
    ensures LaterBy(kc, Fold(kc, s), Fold(kc, x + s), |x|)
  {
    var m, n := Fold(kc, s), Fold(kc, x + s);
    forall k | k in m ensures Numbered(kc, k) && Shifted(kc, k, |x|) in n && n[Shifted(kc, k, |x|)] == m[k] {
      var i := LiveRowOf(kc, s, k);
      RecordShifts(kc, x + s, s, i, |x|);
    }
    forall k | k in n ensures exists earlier :: earlier in m && Shifted(kc, earlier, |x|) == k {
      var i := LiveRowOf(kc, x + s, k);
      assert i >= |x| && (x + s)[i] == s[i - |x|];
      RecordShifts(kc, x + s, s, i - |x|, |x|);
      ArrivedLater(kc, s[i - |x|], i - |x|, |x|);
    }
  }

  function AllShifted(kc: seq<string>, keys: seq<Key>, d: nat): (r: seq<Key>)
  {
    seq(|keys|, i requires 0 <= i < |keys| => Shifted(kc, keys[i], d))
  }

  lemma AllShiftedAscend(kc: seq<string>, keys: seq<Key>, d: nat)
    requires StrictlyAscending(keys) && forall k :: k in keys ==> Numbered(kc, k)
    ensures StrictlyAscending(AllShifted(kc, keys, d))
  {
    var later := AllShifted(kc, keys, d);
    forall i, j | 0 <= i < j < |later| ensures KeyLess(later[i], later[j]) {
      ShiftKeepsOrder(kc, keys[i], keys[j], d);
    }
  }

  lemma LaterKeys(kc: seq<string>, m: Live, n: Live, d: nat, keys: seq<Key>, k: Key)
    requires LaterBy(kc, m, n, d) && forall key :: key in keys <==> key in m
    ensures k in AllShifted(kc, keys, d) <==> k in n
  {
    var later := AllShifted(kc, keys, d);
    if k in n {
      var earlier :| earlier in m && Shifted(kc, earlier, d) == k;
      var i :| 0 <= i < |keys| && keys[i] == earlier;
      assert later[i] == k;
    }
    if k in later {
      var i :| 0 <= i < |later| && later[i] == k;
      assert keys[i] in keys;
    }
  }

  lemma LaterAscending(kc: seq<string>, m: Live, n: Live, d: nat)
    requires LaterBy(kc, m, n, d)
    ensures AllShifted(kc, Ascending(m.Keys), d) == Ascending(n.Keys)
  {
    var keys, after := Ascending(m.Keys), Ascending(n.Keys);
    forall k ensures k in AllShifted(kc, keys, d) <==> k in after { LaterKeys(kc, m, n, d, keys, k); }
    AllShiftedAscend(kc, keys, d);
    AscendingUnique(AllShifted(kc, keys, d), after);
  }

  /** Later numbers list the same records in the same order. */
  lemma LaterListsAlike(kc: seq<string>, m: Live, n: Live, d: nat)
    requires LaterBy(kc, m, n, d)
    ensures Listing(m) == Listing(n)
  {
    var keys := Ascending(m.Keys);
    LaterAscending(kc, m, n, d);
    forall i | 0 <= i < |keys| ensures Listing(m)[i] == Listing(n)[i] { assert keys[i] in keys; }
  }

  /** On such keys a query after x and s answers as after s alone exactly when x holds no live
      row: every live row of x is answered again. */
  lemma SeqnoKeyConvergesExactly(kc: seq<string>, x: seq<Cells>, s: seq<Cells>, limit: Option<int>)
    requires ORDER_COLUMN in kc
    ensures Answer(Fold(kc, x + s), limit) == Answer(Fold(kc, s), limit) <==> NoneLive(x)
  {
    SeqnoKeyedTotal(kc, x + s);
    SeqnoKeyedTotal(kc, s);
    LiveCountAppend(x, s);
    LiveCountZero(x);
    if NoneLive(x) {
      FoldIsLater(kc, x, s);
      LaterListsAlike(kc, Fold(kc, s), Fold(kc, x + s), |x|);
    }
  }

  function Repeat<T>(s: seq<T>, n: nat): seq<T> {
    if n == 0 then [] else Repeat(s, n - 1) + s
  }

  /** Redelivery converges: any suffix of s, then s once or more, answers as s alone. */
  lemma {:induction false} RedeliveryConverges(kc: seq<string>, s: seq<Cells>, from: nat, n: nat)
    requires ORDER_COLUMN !in kc && from <= |s| && n >= 1
    ensures Fold(kc, s[from..] + Repeat(s, n)) == Fold(kc, s)
  {
    var x := s[from..] + Repeat(s, n - 1);
    assert s[from..] + Repeat(s, n) == x + s;
    forall key | key in Fold(kc, x) ensures Touches(kc, s, key) {
      LiveKeysAreTouched(kc, x, key);
      var i :| 0 <= i < |x| && KeyOf(kc, x[i]) == key;
      if i < |s| - from {
        assert s[from + i] == x[i];
      } else {
        RepeatMembers(s, n - 1);
        assert x[i] == Repeat(s, n - 1)[i - (|s| - from)];
        assert x[i] in s;
      }
    }
    ReplayConverges(kc, x, s);
  }

  lemma {:induction false} RepeatMembers<T>(s: seq<T>, n: nat)
    ensures forall i :: 0 <= i < |Repeat(s, n)| ==> Repeat(s, n)[i] in s
  {
    if n == 0 {
    } else {
      RepeatMembers(s, n - 1);
    }
  }
}
