/** The merge of the stream store: newest row per key, by a window function.

Models _merge_frame and _merge_to_rows of persistence/stream_store/lsm_store.py. A frame is
an immutable sequence of rows; a row is its named cells and the sequence number stamped on
it. A cell that is absent reads as null. */
module Merge {
  import opened Keys
  import opened Lists

  type Cells = map<string, Value>

  datatype Row = Row(cells: Cells, seqno: nat)

  type Frame = seq<Row>

  const ORDER_COLUMN := "seqno"

  function Cell(cells: Cells, column: string): Value {
    if column in cells then cells[column] else Null
  }

  function KeyOf(kc: seq<string>, cells: Cells): Key {
    seq(|kc|, i requires 0 <= i < |kc| => Cell(cells, kc[i]))
  }

  /** The key of a stamped row: the stamp overwrites any "seqno" cell the row came with. */
  function RowKey(kc: seq<string>, row: Row): Key {
    KeyOf(kc, row.cells[ORDER_COLUMN := Int(row.seqno)])
  }

  lemma StampKeepsKey(kc: seq<string>, row: Row)
    requires ORDER_COLUMN !in kc
    ensures RowKey(kc, row) == KeyOf(kc, row.cells)
  {
    forall i | 0 <= i < |kc| ensures RowKey(kc, row)[i] == KeyOf(kc, row.cells)[i] {
      assert kc[i] in kc;
    }
  }

  /** What the filter op != "delete" keeps: comparing a null op gives null, which drops the row. */
  predicate IsLive(cells: Cells) {
    Cell(cells, "op") != Text("delete") && Cell(cells, "op") != Null
  }

  /** The dictionary a reader sees. */
  function Record(cells: Cells): Cells { cells - {ORDER_COLUMN, "op"} }

  // ---- the window function -------------------------------------------------------

  /** Row j comes before row i in the descending order of the partition both belong to;
      equal sequence numbers go by position. */
  predicate Outranks(kc: seq<string>, rows: Frame, j: nat, i: nat)
    requires i < |rows| && j < |rows|
  {
    RowKey(kc, rows[j]) == RowKey(kc, rows[i]) &&
    (rows[j].seqno > rows[i].seqno || (rows[j].seqno == rows[i].seqno && j < i))
  }

  /** rank("ordinal", descending=True).over(kc) of row i: one more than the rows of its
      partition that come before it. */
  function Rank(kc: seq<string>, rows: Frame, i: nat): nat
    requires i < |rows|
  {
    1 + |set j | 0 <= j < |rows| && Outranks(kc, rows, j, i)|
  }

  function TopRanked(kc: seq<string>, rows: Frame, n: nat): Frame
    requires n <= |rows|
  {
    if n == 0 then []
    else TopRanked(kc, rows, n - 1) + if Rank(kc, rows, n - 1) == 1 then [rows[n - 1]] else []
  }

  function Winners(kc: seq<string>, rows: Frame): Frame { TopRanked(kc, rows, |rows|) }

  function MergeFrame(kc: seq<string>, frames: seq<Frame>): Option<Frame> {
    if frames == [] then None else Some(Winners(kc, Flatten(frames)))
  }

  // ---- live rows, sorted and cut --------------------------------------------------

  function LiveRows(rows: Frame): Frame {
    if rows == [] then []
    else (if IsLive(rows[0].cells) then [rows[0]] else []) + LiveRows(rows[1..])
  }

  function InsertByKey(kc: seq<string>, row: Row, sorted: Frame): Frame {
    if sorted == [] || KeyLess(RowKey(kc, row), RowKey(kc, sorted[0])) then [row] + sorted
    else [sorted[0]] + InsertByKey(kc, row, sorted[1..])
  }

  function SortByKey(kc: seq<string>, rows: Frame): Frame {
    if rows == [] then [] else InsertByKey(kc, rows[0], SortByKey(kc, rows[1..]))
  }

  /** head(n): the first n rows; a negative n leaves out the last -n. */
  function HeadCount(height: nat, n: int): nat {
    if n < 0 then (if height + n < 0 then 0 else height + n)
    else if n < height then n else height
  }

  /** No limit and limit 0 both mean every row. */
  function Cut<T>(rows: seq<T>, limit: Option<int>): seq<T> {
    if limit.Some? && limit.value != 0 then rows[..HeadCount(|rows|, limit.value)] else rows
  }

  function Records(rows: Frame): seq<Cells> {
    seq(|rows|, i requires 0 <= i < |rows| => Record(rows[i].cells))
  }

  function MergeToRows(kc: seq<string>, frames: seq<Frame>, limit: Option<int>): (seq<Cells>, nat) {
    match MergeFrame(kc, frames)
    case None => ([], 0)
    case Some(winners) =>
      var live := SortByKey(kc, LiveRows(winners));
      (Records(Cut(live, limit)), |live|)
  }

  // ---- rank 1 means newest ---------------------------------------------------------

  /** Rank 1 is the row no other row of its partition comes before. */
  lemma RankOneIsNewest(kc: seq<string>, rows: Frame, i: nat)
    requires i < |rows|
    ensures Rank(kc, rows, i) == 1 <==> forall j :: 0 <= j < |rows| ==> !Outranks(kc, rows, j, i)
  {
    var before := set j | 0 <= j < |rows| && Outranks(kc, rows, j, i);
    if j :| 0 <= j < |rows| && Outranks(kc, rows, j, i) {
      assert j in before;
    } else {
      assert before == {};
    }
  }

  /** The rank is an ordinal: within a partition the order it numbers is strict, so no two
      rows share a rank, and it never exceeds the partition's size. */
  lemma RankIsOrdinal(kc: seq<string>, rows: Frame, i: nat, j: nat)
    requires i < |rows| && j < |rows| && i != j && RowKey(kc, rows[i]) == RowKey(kc, rows[j])
    ensures Outranks(kc, rows, j, i) <==> Rank(kc, rows, j) < Rank(kc, rows, i)
    ensures Rank(kc, rows, i) != Rank(kc, rows, j)
    ensures Rank(kc, rows, i) <= |set m | 0 <= m < |rows| && RowKey(kc, rows[m]) == RowKey(kc, rows[i])|
  {
    if Outranks(kc, rows, j, i) { HigherHasSmallerRank(kc, rows, i, j); }
    else { HigherHasSmallerRank(kc, rows, j, i); }
    var before := set m | 0 <= m < |rows| && Outranks(kc, rows, m, i);
    var partition := set m | 0 <= m < |rows| && RowKey(kc, rows[m]) == RowKey(kc, rows[i]);
    SmallerSet(before + {i}, partition);
  }

  lemma HigherHasSmallerRank(kc: seq<string>, rows: Frame, i: nat, j: nat)
    requires i < |rows| && j < |rows| && Outranks(kc, rows, j, i)
    ensures Rank(kc, rows, j) < Rank(kc, rows, i)
  {
    var beforeI := set m | 0 <= m < |rows| && Outranks(kc, rows, m, i);
    var beforeJ := set m | 0 <= m < |rows| && Outranks(kc, rows, m, j);
    SmallerSet(beforeJ + {j}, beforeI);
  }

  lemma {:induction false} SmallerSet<T>(a: set<T>, b: set<T>)
    requires a <= b
    ensures |a| <= |b|
  {
    if a == {} {
    } else {
      var x :| x in a;
      SmallerSet(a - {x}, b - {x});
    }
  }

  // ---- the merge as an incremental upsert ------------------------------------------

  function Without(kc: seq<string>, rows: Frame, key: Key): Frame {
    if rows == [] then []
    else Without(kc, rows[..|rows| - 1], key) +
         if RowKey(kc, rows[|rows| - 1]) != key then [rows[|rows| - 1]] else []
  }

  /** Row row is beaten by a row of rows: same key, sequence number at least as large. */
  predicate Beaten(kc: seq<string>, rows: Frame, row: Row) {
    exists i :: 0 <= i < |rows| && RowKey(kc, rows[i]) == RowKey(kc, row) && rows[i].seqno >= row.seqno
  }

  function Upsert(kc: seq<string>, winners: Frame, row: Row): Frame {
    if Beaten(kc, winners, row) then winners else Without(kc, winners, RowKey(kc, row)) + [row]
  }

  function UpsertAll(kc: seq<string>, winners: Frame, rows: Frame): Frame {
    if rows == [] then winners
    else Upsert(kc, UpsertAll(kc, winners, rows[..|rows| - 1]), rows[|rows| - 1])
  }

  lemma {:induction false} WithoutSnoc(kc: seq<string>, rows: Frame, row: Row, key: Key)
    ensures Without(kc, rows + [row], key) ==
            Without(kc, rows, key) + if RowKey(kc, row) != key then [row] else []
  {
    assert (rows + [row])[..|rows|] == rows;
  }

  lemma {:induction false} WithoutMembers(kc: seq<string>, rows: Frame, key: Key)
    ensures forall r :: r in Without(kc, rows, key) <==> r in rows && RowKey(kc, r) != key
  {
    if rows == [] {
    } else {
      var init, last := rows[..|rows| - 1], rows[|rows| - 1];
      WithoutMembers(kc, init, key);
      assert rows == init + [last];
    }
  }

  lemma {:induction false} TopRankedMembers(kc: seq<string>, rows: Frame, n: nat)
    requires n <= |rows|
    ensures forall r :: r in TopRanked(kc, rows, n) <==>
              exists i :: 0 <= i < n && rows[i] == r && Rank(kc, rows, i) == 1
  {
    if n == 0 {
    } else {
      TopRankedMembers(kc, rows, n - 1);
    }
  }

  lemma RankAfterBeaten(kc: seq<string>, rows: Frame, row: Row, i: nat)
    requires i < |rows| && Beaten(kc, rows, row)
    ensures Rank(kc, rows + [row], i) == 1 <==> Rank(kc, rows, i) == 1
  {
    var all := rows + [row];
    RankOneIsNewest(kc, rows, i);
    RankOneIsNewest(kc, all, i);
    var b :| 0 <= b < |rows| && RowKey(kc, rows[b]) == RowKey(kc, row) && rows[b].seqno >= row.seqno;
    assert forall j :: 0 <= j < |rows| ==> Outranks(kc, rows, j, i) == Outranks(kc, all, j, i);
    assert Outranks(kc, all, |rows|, i) ==> Outranks(kc, rows, b, i);
  }

  /** Appending a beaten row changes no rank-1 row before it. */
  lemma {:induction false} TopRankedBeaten(kc: seq<string>, rows: Frame, row: Row, n: nat)
    requires n <= |rows| && Beaten(kc, rows, row)
    ensures TopRanked(kc, rows + [row], n) == TopRanked(kc, rows, n)
  {
    if n == 0 {
    } else {
      var i, all := n - 1, rows + [row];
      assert all[i] == rows[i];
      calc {
        TopRanked(kc, all, n);
        TopRanked(kc, all, i) + if Rank(kc, all, i) == 1 then [rows[i]] else [];
        { TopRankedBeaten(kc, rows, row, i); }
        TopRanked(kc, rows, i) + if Rank(kc, all, i) == 1 then [rows[i]] else [];
        { RankAfterBeaten(kc, rows, row, i); }
        TopRanked(kc, rows, n);
      }
    }
  }

  lemma RankAfterUnbeaten(kc: seq<string>, rows: Frame, row: Row, i: nat)
    requires i < |rows| && !Beaten(kc, rows, row)
    ensures Rank(kc, rows + [row], i) == 1 <==> Rank(kc, rows, i) == 1 && RowKey(kc, rows[i]) != RowKey(kc, row)
  {
    var all := rows + [row];
    RankOneIsNewest(kc, rows, i);
    RankOneIsNewest(kc, all, i);
    assert forall j :: 0 <= j < |rows| ==> Outranks(kc, rows, j, i) == Outranks(kc, all, j, i);
    assert Outranks(kc, all, |rows|, i) <==> RowKey(kc, rows[i]) == RowKey(kc, row);
  }

  lemma UnbeatenStep(kc: seq<string>, rows: Frame, row: Row, i: nat, before: Frame)
    requires i < |rows| && !Beaten(kc, rows, row)
    ensures Without(kc, before, RowKey(kc, row)) + (if Rank(kc, rows + [row], i) == 1 then [rows[i]] else [])
            == Without(kc, before + (if Rank(kc, rows, i) == 1 then [rows[i]] else []), RowKey(kc, row))
  {
    RankAfterUnbeaten(kc, rows, row, i);
    WithoutSnoc(kc, before, rows[i], RowKey(kc, row));
    assert before + [] == before;
  }

  /** Appending an unbeaten row takes rank 1 from every earlier row of its key and from no other. */
  lemma {:induction false} TopRankedUnbeaten(kc: seq<string>, rows: Frame, row: Row, n: nat)
    requires n <= |rows| && !Beaten(kc, rows, row)
    ensures TopRanked(kc, rows + [row], n) == Without(kc, TopRanked(kc, rows, n), RowKey(kc, row))
  {
    if n == 0 {
    } else {
      var i, all, key := n - 1, rows + [row], RowKey(kc, row);
      assert all[i] == rows[i];
      calc {
        TopRanked(kc, all, n);
        TopRanked(kc, all, i) + if Rank(kc, all, i) == 1 then [rows[i]] else [];
        { TopRankedUnbeaten(kc, rows, row, i); }
        Without(kc, TopRanked(kc, rows, i), key) + if Rank(kc, all, i) == 1 then [rows[i]] else [];
        { UnbeatenStep(kc, rows, row, i, TopRanked(kc, rows, i)); }
        Without(kc, TopRanked(kc, rows, i) + if Rank(kc, rows, i) == 1 then [rows[i]] else [], key);
        Without(kc, TopRanked(kc, rows, n), key);
      }
    }
  }

  /** Every row is beaten by a winner, so a row beaten by the rows is beaten by the winners. */
  lemma {:induction false} WinnersDominate(kc: seq<string>, rows: Frame, row: Row)
    ensures Beaten(kc, rows, row) <==> Beaten(kc, Winners(kc, rows), row)
    decreases |rows|, 0
  {
    TopRankedMembers(kc, rows, |rows|);
    var w := Winners(kc, rows);
    if Beaten(kc, w, row) {
      var i :| 0 <= i < |w| && RowKey(kc, w[i]) == RowKey(kc, row) && w[i].seqno >= row.seqno;
      assert w[i] in w;
    }
    if Beaten(kc, rows, row) {
      var init, last := rows[..|rows| - 1], rows[|rows| - 1];
      assert rows == init + [last];
      WinnersSnoc(kc, init, last);
      WinnersDominate(kc, init, row);
      WinnersDominate(kc, init, last);
      UpsertKeepsBeaten(kc, Winners(kc, init), last, row);
    }
  }

  lemma UpsertKeepsBeaten(kc: seq<string>, winners: Frame, last: Row, row: Row)
    requires Beaten(kc, winners, row) || (RowKey(kc, last) == RowKey(kc, row) && last.seqno >= row.seqno)
    ensures Beaten(kc, Upsert(kc, winners, last), row)
  {
    var after := Upsert(kc, winners, last);
    if Beaten(kc, winners, last) {
    } else if RowKey(kc, last) == RowKey(kc, row) {
      assert after[|after| - 1] == last;
    } else {
      var i :| 0 <= i < |winners| && RowKey(kc, winners[i]) == RowKey(kc, row) && winners[i].seqno >= row.seqno;
      WithoutMembers(kc, winners, RowKey(kc, last));
      assert winners[i] in Without(kc, winners, RowKey(kc, last));
      assert winners[i] in after;
    }
  }

  /** One more row: the merge of rows + [row] is one upsert into the merge of rows. */
  lemma {:induction false} WinnersSnoc(kc: seq<string>, rows: Frame, row: Row)
    ensures Winners(kc, rows + [row]) == Upsert(kc, Winners(kc, rows), row)
    decreases |rows|, 1
  {
    var all := rows + [row];
    var n := |rows|;
    WinnersDominate(kc, rows, row);
    RankOneIsNewest(kc, all, n);
    if Beaten(kc, rows, row) {
      var b :| 0 <= b < n && RowKey(kc, rows[b]) == RowKey(kc, row) && rows[b].seqno >= row.seqno;
      assert Outranks(kc, all, b, n);
      TopRankedBeaten(kc, rows, row, n);
    } else {
      assert forall j :: 0 <= j < n ==> all[j] == rows[j];
      TopRankedUnbeaten(kc, rows, row, n);
    }
  }

  /** The window-function merge computed one row at a time. */
  lemma {:induction false} WinnersAppend(kc: seq<string>, a: Frame, b: Frame)
    ensures Winners(kc, a + b) == UpsertAll(kc, Winners(kc, a), b)
    decreases |b|
  {
    if b == [] {
      assert a + b == a;
    } else {
      var init, last := b[..|b| - 1], b[|b| - 1];
      WinnersAppend(kc, a, init);
      assert a + b == (a + init) + [last];
      WinnersSnoc(kc, a + init, last);
    }
  }

  // ---- what the merge keeps --------------------------------------------------------

  ghost predicate UniqueKeys(kc: seq<string>, rows: Frame) {
    forall i, j :: 0 <= i < j < |rows| ==> RowKey(kc, rows[i]) != RowKey(kc, rows[j])
  }

  lemma {:induction false} UniqueKeysFixed(kc: seq<string>, rows: Frame, n: nat)
    requires UniqueKeys(kc, rows) && n <= |rows|
    ensures TopRanked(kc, rows, n) == rows[..n]
  {
    if n == 0 {
    } else {
      UniqueKeysFixed(kc, rows, n - 1);
      RankOneIsNewest(kc, rows, n - 1);
      assert rows[..n] == rows[..n - 1] + [rows[n - 1]];
    }
  }

  lemma {:induction false} WithoutKeepsUnique(kc: seq<string>, rows: Frame, key: Key)
    requires UniqueKeys(kc, rows)
    ensures UniqueKeys(kc, Without(kc, rows, key))
  {
    if rows == [] {
    } else {
      var init, last := rows[..|rows| - 1], rows[|rows| - 1];
      WithoutKeepsUnique(kc, init, key);
      WithoutMembers(kc, init, key);
      var w := Without(kc, init, key);
      forall i | 0 <= i < |w| ensures RowKey(kc, w[i]) != RowKey(kc, last) {
        assert w[i] in init;
      }
    }
  }

  lemma {:induction false} WinnersUnique(kc: seq<string>, rows: Frame)
    ensures UniqueKeys(kc, Winners(kc, rows))
  {
    if rows == [] {
    } else {
      var init, last := rows[..|rows| - 1], rows[|rows| - 1];
      assert rows == init + [last];
      WinnersUnique(kc, init);
      WinnersSnoc(kc, init, last);
      var w := Winners(kc, init);
      WithoutKeepsUnique(kc, w, RowKey(kc, last));
      WithoutMembers(kc, w, RowKey(kc, last));
      var kept := Without(kc, w, RowKey(kc, last));
      assert forall i :: 0 <= i < |kept| ==> kept[i] in kept;
    }
  }

  lemma MergeIdempotent(kc: seq<string>, rows: Frame)
    ensures Winners(kc, Winners(kc, rows)) == Winners(kc, rows)
  {
    WinnersUnique(kc, rows);
    UniqueKeysFixed(kc, Winners(kc, rows), |Winners(kc, rows)|);
  }

  /** Compaction preserves meaning: merging the merge of a with b gives, row for row and in
      the same order, the merge of a with b. */
  lemma CompactionInvisible(kc: seq<string>, a: Frame, b: Frame)
    ensures Winners(kc, Winners(kc, a) + b) == Winners(kc, a + b)
  {
    WinnersAppend(kc, Winners(kc, a), b);
    MergeIdempotent(kc, a);
    WinnersAppend(kc, a, b);
  }

  function KeySet(kc: seq<string>, rows: Frame): set<Key> {
    set r | r in rows :: RowKey(kc, r)
  }

  /** The merge keeps exactly the keys it was given, tombstones included. */
  lemma WinnersKeys(kc: seq<string>, rows: Frame)
    ensures KeySet(kc, Winners(kc, rows)) == KeySet(kc, rows)
    ensures forall r :: r in Winners(kc, rows) ==> r in rows
  {
    TopRankedMembers(kc, rows, |rows|);
    forall r | r in rows ensures RowKey(kc, r) in KeySet(kc, Winners(kc, rows)) {
      var i :| 0 <= i < |rows| && rows[i] == r;
      assert Beaten(kc, rows, r);
      WinnersDominate(kc, rows, r);
      var w := Winners(kc, rows);
      var j :| 0 <= j < |w| && RowKey(kc, w[j]) == RowKey(kc, r) && w[j].seqno >= r.seqno;
      assert w[j] in w;
    }
  }

  lemma {:induction false} UniqueKeysCount(kc: seq<string>, rows: Frame)
    requires UniqueKeys(kc, rows)
    ensures |KeySet(kc, rows)| == |rows|
  {
    if rows == [] {
      assert KeySet(kc, rows) == {};
    } else {
      var init, last := rows[..|rows| - 1], rows[|rows| - 1];
      UniqueKeysCount(kc, init);
      assert rows == init + [last];
      assert KeySet(kc, rows) == KeySet(kc, init) + {RowKey(kc, last)};
      assert RowKey(kc, last) !in KeySet(kc, init);
    }
  }

  /** Exactly one row per distinct key. */
  lemma OneRowPerKey(kc: seq<string>, rows: Frame)
    ensures |Winners(kc, rows)| == |KeySet(kc, rows)|
  {
    WinnersUnique(kc, rows);
    WinnersKeys(kc, rows);
    UniqueKeysCount(kc, Winners(kc, rows));
  }

  // ---- order of the input does not matter ------------------------------------------

  ghost predicate DistinctSeqnos(rows: Frame) {
    forall i, j :: 0 <= i < j < |rows| ==> rows[i].seqno != rows[j].seqno
  }

  ghost predicate Newest(kc: seq<string>, rows: Frame, r: Row) {
    r in rows && forall q :: q in rows && RowKey(kc, q) == RowKey(kc, r) ==> q.seqno <= r.seqno
  }

  /** With distinct sequence numbers the merge keeps, of each key, the row with the largest. */
  lemma WinnersAreNewest(kc: seq<string>, rows: Frame, r: Row)
    requires DistinctSeqnos(rows)
    ensures r in Winners(kc, rows) <==> Newest(kc, rows, r)
  {
    TopRankedMembers(kc, rows, |rows|);
    if r in rows {
      var i :| 0 <= i < |rows| && rows[i] == r;
      RankOneIsNewest(kc, rows, i);
      if Newest(kc, rows, r) {
        forall j | 0 <= j < |rows| ensures !Outranks(kc, rows, j, i) {
          assert rows[j] in rows;
        }
        assert Rank(kc, rows, i) == 1;
      }
      if r in Winners(kc, rows) {
        assert forall j :: 0 <= j < |rows| && rows[j] == r ==> j == i;
        forall q | q in rows && RowKey(kc, q) == RowKey(kc, r) ensures q.seqno <= r.seqno {
          var j :| 0 <= j < |rows| && rows[j] == q;
          assert !Outranks(kc, rows, j, i);
        }
      }
    }
  }
}
