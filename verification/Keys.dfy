/** Cell values, merge keys and their order.

A key is the tuple of cells a row has in the configured key columns. Keys are compared
column by column, as a sort on several columns compares them; a null sorts before every
other value. */
module Keys {

  datatype Value = Null | Int(n: int) | Text(s: string)

  type Key = seq<Value>

  predicate CharLess(a: char, b: char) { a < b }

  /** Lexicographic order over any element order. */
  predicate LexLess<T(==)>(less: (T, T) -> bool, a: seq<T>, b: seq<T>) {
    b != [] &&
    (a == [] || less(a[0], b[0]) || (a[0] == b[0] && LexLess(less, a[1..], b[1..])))
  }

  predicate ValueLess(a: Value, b: Value) {
    match (a, b)
    case (Null, _) => b != Null
    case (Int(x), Int(y)) => x < y
    case (Text(x), Text(y)) => LexLess(CharLess, x, y)
    case (Int(_), Text(_)) => true
    case _ => false
  }

  predicate KeyLess(a: Key, b: Key) { LexLess(ValueLess, a, b) }

  ghost predicate StrictTotalOrder<T(!new)>(less: (T, T) -> bool) {
    && (forall a :: !less(a, a))
    && (forall a, b :: a == b || less(a, b) || less(b, a))
    && (forall a, b, c :: less(a, b) && less(b, c) ==> less(a, c))
  }

  lemma {:induction false} LexIrreflexive<T(!new)>(less: (T, T) -> bool, a: seq<T>)
    requires StrictTotalOrder(less)
    ensures !LexLess(less, a, a)
  {
    if a == [] {
    } else {
      LexIrreflexive(less, a[1..]);
    }
  }

  lemma {:induction false} LexConnected<T(!new)>(less: (T, T) -> bool, a: seq<T>, b: seq<T>)
    requires StrictTotalOrder(less)
    ensures a == b || LexLess(less, a, b) || LexLess(less, b, a)
  {
    if a == [] || b == [] || a[0] != b[0] {
    } else {
      LexConnected(less, a[1..], b[1..]);
      assert a == [a[0]] + a[1..] && b == [b[0]] + b[1..];
    }
  }

  lemma {:induction false} LexTransitive<T(!new)>(less: (T, T) -> bool, a: seq<T>, b: seq<T>, c: seq<T>)
    requires StrictTotalOrder(less)
    requires LexLess(less, a, b) && LexLess(less, b, c)
    ensures LexLess(less, a, c)
  {
    if a == [] || a[0] != b[0] || b[0] != c[0] {
    } else {
      LexTransitive(less, a[1..], b[1..], c[1..]);
    }
  }

  lemma ValueOrder()
    ensures StrictTotalOrder(ValueLess)
  {
    assert StrictTotalOrder(CharLess);
    forall a: Value ensures !ValueLess(a, a) {
      if a.Text? { LexIrreflexive(CharLess, a.s); }
    }
    forall a: Value, b: Value ensures a == b || ValueLess(a, b) || ValueLess(b, a) {
      if a.Text? && b.Text? { LexConnected(CharLess, a.s, b.s); }
    }
    forall a: Value, b: Value, c: Value | ValueLess(a, b) && ValueLess(b, c) ensures ValueLess(a, c) {
      if a.Text? && b.Text? && c.Text? { LexTransitive(CharLess, a.s, b.s, c.s); }
    }
  }

  /** The order the live rows are sorted by is a strict total order. */
  lemma KeyOrder()
    ensures StrictTotalOrder(KeyLess)
  {
    ValueOrder();
    forall a: Key ensures !KeyLess(a, a) { LexIrreflexive(ValueLess, a); }
    forall a: Key, b: Key ensures a == b || KeyLess(a, b) || KeyLess(b, a) { LexConnected(ValueLess, a, b); }
    forall a: Key, b: Key, c: Key | KeyLess(a, b) && KeyLess(b, c) ensures KeyLess(a, c) {
      LexTransitive(ValueLess, a, b, c);
    }
  }

  /** Column i decides that a comes before b: they agree up to it, and a ends there or is less. */
  ghost predicate DecidedAt<T>(less: (T, T) -> bool, a: seq<T>, b: seq<T>, i: nat) {
    i <= |a| && i < |b| && a[..i] == b[..i] && (i == |a| || less(a[i], b[i]))
  }

  lemma DecidedLater<T>(less: (T, T) -> bool, a: seq<T>, b: seq<T>, i: nat)
    requires a != [] && b != [] && a[0] == b[0]
    ensures DecidedAt(less, a, b, i + 1) <==> DecidedAt(less, a[1..], b[1..], i)
  {
    if i < |a| && i + 1 < |b| {
      assert a[..i + 1] == [a[0]] + a[1..][..i] && b[..i + 1] == [b[0]] + b[1..][..i];
      assert a[1..][..i] == a[..i + 1][1..] && b[1..][..i] == b[..i + 1][1..];
    }
  }

  lemma SameHead<T>(less: (T, T) -> bool, a: seq<T>, b: seq<T>, i: nat)
    requires a != [] && b != []
    ensures DecidedAt(less, a, b, i) ==> i == 0 || a[0] == b[0]
  {
    if i > 0 && DecidedAt(less, a, b, i) { assert a[0] == a[..i][0] == b[..i][0] == b[0]; }
  }

  /** What the order is: the first column in which two keys differ decides, and a key that is
      a proper prefix of another comes before it. */
  lemma {:induction false} LexLessExactly<T>(less: (T, T) -> bool, a: seq<T>, b: seq<T>)
    requires forall x :: x in a ==> !less(x, x)
    ensures LexLess(less, a, b) <==> exists i: nat :: DecidedAt(less, a, b, i)
  {
    if a == [] || b == [] {
      if b != [] { assert DecidedAt(less, a, b, 0); }
    } else if a[0] != b[0] {
      if less(a[0], b[0]) { assert DecidedAt(less, a, b, 0); }
      forall i: nat ensures DecidedAt(less, a, b, i) ==> i == 0 || a[0] == b[0] { SameHead(less, a, b, i); }
    } else {
      assert a[0] in a && !DecidedAt(less, a, b, 0);
      LexLessExactly(less, a[1..], b[1..]);
      if i: nat :| DecidedAt(less, a, b, i) { DecidedLater(less, a, b, i - 1); }
      if i: nat :| DecidedAt(less, a[1..], b[1..], i) { DecidedLater(less, a, b, i); }
    }
  }

  lemma TextLessExactly(s: string, t: string)
    ensures LexLess(CharLess, s, t) <==>
            exists i: nat :: i <= |s| && i < |t| && s[..i] == t[..i] && (i == |s| || s[i] < t[i])
  {
    LexLessExactly(CharLess, s, t);
    if i: nat :| DecidedAt(CharLess, s, t, i) { assert s[..i] == t[..i]; }
    if i: nat :| i <= |s| && i < |t| && s[..i] == t[..i] && (i == |s| || s[i] < t[i]) {
      assert DecidedAt(CharLess, s, t, i);
    }
  }

  /** The first key column in which two keys differ decides. */
  lemma KeyLessExactly(a: Key, b: Key)
    ensures KeyLess(a, b) <==> exists i: nat :: DecidedAt(ValueLess, a, b, i)
  {
    ValueOrder();
    LexLessExactly(ValueLess, a, b);
  }

  /** Integer columns sort by value, text columns by their first differing character, a proper
      prefix first, and nulls before everything. */
  lemma ValueLessExactly()
    ensures forall x: int, y: int :: ValueLess(Int(x), Int(y)) <==> x < y
    ensures forall v :: ValueLess(Null, v) <==> v != Null
    ensures forall v :: !ValueLess(v, Null)
    ensures forall s: string, t: string :: ValueLess(Text(s), Text(t)) <==>
              exists i: nat :: i <= |s| && i < |t| && s[..i] == t[..i] && (i == |s| || s[i] < t[i])
  {
    forall s: string, t: string
      ensures ValueLess(Text(s), Text(t)) <==>
                exists i: nat :: i <= |s| && i < |t| && s[..i] == t[..i] && (i == |s| || s[i] < t[i])
    {
      TextLessExactly(s, t);
    }
  }

  lemma {:induction false} Least<T(!new)>(less: (T, T) -> bool, xs: set<T>) returns (least: T)
    requires StrictTotalOrder(less) && xs != {}
    ensures least in xs && forall y :: y in xs && y != least ==> less(least, y)
  {
    var x :| x in xs;
    if xs == {x} {
      least := x;
    } else {
      var rest := Least(less, xs - {x});
      least := if less(x, rest) then x else rest;
      forall y | y in xs && y != least ensures less(least, y) {
        if y != x && y != rest {
          assert y in xs - {x} && less(rest, y);
          assert less(x, rest) ==> less(x, y);
        }
      }
    }
  }

  ghost predicate StrictlyAscending(keys: seq<Key>) {
    forall i, j :: 0 <= i < j < |keys| ==> KeyLess(keys[i], keys[j])
  }

  /** A set of keys has one strictly ascending listing. */
  lemma {:induction false} AscendingUnique(a: seq<Key>, b: seq<Key>)
    requires StrictlyAscending(a) && StrictlyAscending(b)
    requires forall k :: k in a <==> k in b
    ensures a == b
  {
    KeyOrder();
    assert forall i :: 0 <= i < |a| ==> a[i] in b;
    assert forall i :: 0 <= i < |b| ==> b[i] in a;
    if a == [] || b == [] {
    } else {
      assert a[0] in b && b[0] in a;
      assert a[0] == b[0];
      forall k ensures k in a[1..] <==> k in b[1..] {
        if k in a[1..] { assert k in a; assert k != a[0]; }
        if k in b[1..] { assert k in b; assert k != b[0]; }
      }
      AscendingUnique(a[1..], b[1..]);
      assert a == [a[0]] + a[1..] && b == [b[0]] + b[1..];
    }
  }
}
