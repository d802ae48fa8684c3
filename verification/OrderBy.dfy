/** ORDER BY, LIMIT and projection of result rows. */
module OrderBy {
  import opened Outcomes
  import opened PageStore
  import opened Predicates
  import opened RowCodec
  import opened ExprCompiler

  datatype OrderKey = OrderKey(index: nat, desc: bool)

  // ---- comparing rows

  function Directed(o: Ordering, desc: bool): Ordering {
    if desc then Reverse(o) else o
  }

  predicate KeysInRow(row: Row, keys: seq<OrderKey>) {
    forall k :: 0 <= k < |keys| ==> keys[k].index < |row|
  }

  /** The first key on which the rows differ decides. */
  function CompareRows(a: Row, b: Row, keys: seq<OrderKey>): Ordering
    requires KeysInRow(a, keys) && KeysInRow(b, keys)
  {
    if keys == [] then Equal
    else
      assert forall k :: 0 <= k < |keys[1..]| ==> keys[1..][k] == keys[k + 1];
      var o := Directed(CompareValues(a[keys[0].index], b[keys[0].index]), keys[0].desc);
      if o != Equal then o else CompareRows(a, b, keys[1..])
  }

  /** The rows carry values of the same kinds, as rows under one schema do. */
  predicate Alike(a: Row, b: Row) {
    |a| == |b| && forall i :: 0 <= i < |a| ==> SameKind(a[i], b[i])
  }

  lemma CompareValuesReverse(a: Value, b: Value)
    ensures CompareValues(b, a) == Reverse(CompareValues(a, b))
  {
    if a.CharValue? && b.CharValue? {
      CompareBytesReverse(a.text, b.text);
    }
  }

  lemma CompareValuesTransitive(a: Value, b: Value, c: Value, o: Ordering)
    requires SameKind(a, b) && SameKind(b, c)
    requires CompareValues(a, b) == o || CompareValues(a, b) == Equal
    requires CompareValues(b, c) == o || CompareValues(b, c) == Equal
    ensures CompareValues(a, c) ==
            if CompareValues(a, b) == Equal && CompareValues(b, c) == Equal then Equal else o
  {
    if a.CharValue? {
      CompareBytesReverse(a.text, b.text);
      CompareBytesReverse(b.text, c.text);
      CompareBytesReverse(a.text, c.text);
      CompareBytesEqual(a.text, b.text);
      CompareBytesEqual(b.text, c.text);
      CompareBytesEqual(a.text, c.text);
      if o == Greater {
        CompareBytesTransitive(c.text, b.text, a.text);
      } else {
        CompareBytesTransitive(a.text, b.text, c.text);
      }
    }
  }

  /** Comparing the other way round gives the opposite answer, in every mix of directions. */
  lemma {:induction false} CompareRowsReverse(a: Row, b: Row, keys: seq<OrderKey>)
    requires KeysInRow(a, keys) && KeysInRow(b, keys)
    ensures CompareRows(b, a, keys) == Reverse(CompareRows(a, b, keys))
  {
    hide CompareValues;
    if keys == [] {
    } else {
      CompareValuesReverse(a[keys[0].index], b[keys[0].index]);
      assert forall k :: 0 <= k < |keys[1..]| ==> keys[1..][k] == keys[k + 1];
      CompareRowsReverse(a, b, keys[1..]);
    }
  }

  /** On rows under one schema the order is transitive, and equal rows are interchangeable. */
  lemma {:induction false} CompareRowsTransitive(a: Row, b: Row, c: Row, keys: seq<OrderKey>)
    requires Alike(a, b) && Alike(b, c)
    requires KeysInRow(a, keys) && KeysInRow(b, keys) && KeysInRow(c, keys)
    requires CompareRows(a, b, keys) != Greater && CompareRows(b, c, keys) != Greater
    ensures CompareRows(a, c, keys) ==
            if CompareRows(a, b, keys) == Equal && CompareRows(b, c, keys) == Equal then Equal else Less
  {
    hide CompareValues;
    if keys == [] {
    } else {
      var i, desc := keys[0].index, keys[0].desc;
      assert SameKind(a[i], b[i]) && SameKind(b[i], c[i]);
      CompareValuesTransitive(a[i], b[i], c[i], if desc then Greater else Less);
      assert forall k :: 0 <= k < |keys[1..]| ==> keys[1..][k] == keys[k + 1];
      if CompareValues(a[i], b[i]) == Equal && CompareValues(b[i], c[i]) == Equal {
        CompareRowsTransitive(a, b, c, keys[1..]);
      }
    }
  }

  // ---- what the comparison of rows computes

  /** Under the keys before k the rows hold equal values; under key k, row a has the smaller one if the
      key is ascending and the larger one if it is descending. */
  ghost predicate FirstDecides(a: Row, b: Row, keys: seq<OrderKey>, k: nat)
    requires KeysInRow(a, keys) && KeysInRow(b, keys)
  {
    && k < |keys| && (forall j :: 0 <= j < k ==> a[keys[j].index] == b[keys[j].index])
    && var x, y := a[keys[k].index], b[keys[k].index];
       if keys[k].desc then Below(y, x) else Below(x, y)
  }

  /** Row a is to come before row b, whatever their places in the input. */
  ghost predicate ComesFirst(a: Row, b: Row, keys: seq<OrderKey>)
    requires KeysInRow(a, keys) && KeysInRow(b, keys)
  {
    exists k: nat :: FirstDecides(a, b, keys, k)
  }

  predicate SameUnder(a: Row, b: Row, keys: seq<OrderKey>)
    requires KeysInRow(a, keys) && KeysInRow(b, keys)
  {
    forall k :: 0 <= k < |keys| ==> a[keys[k].index] == b[keys[k].index]
  }

  lemma FirstDecidesShift(a: Row, b: Row, keys: seq<OrderKey>, k: nat)
    requires KeysInRow(a, keys) && KeysInRow(b, keys)
    requires keys != [] && a[keys[0].index] == b[keys[0].index]
    ensures KeysInRow(a, keys[1..]) && KeysInRow(b, keys[1..])
    ensures FirstDecides(a, b, keys[1..], k) <==> FirstDecides(a, b, keys, k + 1)
  {
    hide Below;
    assert forall j :: 0 <= j < |keys[1..]| ==> keys[1..][j] == keys[j + 1];
    if FirstDecides(a, b, keys[1..], k) {
      forall j | 0 <= j < k + 1 ensures a[keys[j].index] == b[keys[j].index] {
        assert j > 0 ==> keys[1..][j - 1] == keys[j];
      }
    }
  }

  /** The rows compare as less exactly if the first is to come before the second, and as equal exactly
      if they hold the same values under all keys. */
  lemma {:induction false} CompareRowsMeans(a: Row, b: Row, keys: seq<OrderKey>)
    requires Alike(a, b) && KeysInRow(a, keys) && KeysInRow(b, keys)
    ensures CompareRows(a, b, keys) == Less <==> ComesFirst(a, b, keys)
    ensures CompareRows(a, b, keys) == Equal <==> SameUnder(a, b, keys)
  {
    hide CompareValues, Below, FirstDecides;
    if keys != [] {
      var i := keys[0].index;
      CompareValuesMeans(a[i], b[i]);
      AtFirstKey(a, b, keys);
      if a[i] == b[i] {
        assert forall k :: 0 <= k < |keys[1..]| ==> keys[1..][k] == keys[k + 1];
        CompareRowsMeans(a, b, keys[1..]);
        LaterKeys(a, b, keys);
      }
    } else {
      NoKeys(a, b, keys);
    }
  }

  lemma NoKeys(a: Row, b: Row, keys: seq<OrderKey>)
    requires keys == []
    ensures !ComesFirst(a, b, keys)
  {
  }

  lemma AtFirstKey(a: Row, b: Row, keys: seq<OrderKey>)
    requires KeysInRow(a, keys) && KeysInRow(b, keys) && keys != []
    ensures var x, y := a[keys[0].index], b[keys[0].index];
            x != y ==> (ComesFirst(a, b, keys) <==> if keys[0].desc then Below(y, x) else Below(x, y))
  {
    hide Below;
    var x, y := a[keys[0].index], b[keys[0].index];
    if x != y {
      assert FirstDecides(a, b, keys, 0) <==> if keys[0].desc then Below(y, x) else Below(x, y);
    }
  }

  lemma LaterKeys(a: Row, b: Row, keys: seq<OrderKey>)
    requires KeysInRow(a, keys) && KeysInRow(b, keys)
    requires keys != [] && a[keys[0].index] == b[keys[0].index]
    ensures KeysInRow(a, keys[1..]) && KeysInRow(b, keys[1..])
    ensures ComesFirst(a, b, keys) <==> ComesFirst(a, b, keys[1..])
    ensures SameUnder(a, b, keys) <==> SameUnder(a, b, keys[1..])
  {
    hide FirstDecides;
    FirstDecidesShift(a, b, keys, 0);
    if ComesFirst(a, b, keys) {
      var k: nat :| FirstDecides(a, b, keys, k);
      assert k > 0 by { EqualFirst(a, b, keys); }
      FirstDecidesShift(a, b, keys, k - 1);
    }
    if ComesFirst(a, b, keys[1..]) {
      var k: nat :| FirstDecides(a, b, keys[1..], k);
      FirstDecidesShift(a, b, keys, k);
    }
    if SameUnder(a, b, keys[1..]) {
      forall k | 0 <= k < |keys| ensures a[keys[k].index] == b[keys[k].index] {
        assert k > 0 ==> keys[1..][k - 1] == keys[k];
      }
    }
  }

  lemma EqualFirst(a: Row, b: Row, keys: seq<OrderKey>)
    requires KeysInRow(a, keys) && KeysInRow(b, keys)
    requires keys != [] && a[keys[0].index] == b[keys[0].index]
    ensures !FirstDecides(a, b, keys, 0)
  {
    hide TextBelow;
    CompareValuesMeans(a[keys[0].index], b[keys[0].index]);
  }

  /** Across kinds the comparison is not an order: values that compare equal to a third differ. */
  lemma MixedKindsBreakTransitivity()
    ensures var a, b, c := IntValue(1), CharValue([]), IntValue(2);
            CompareValues(a, b) == Equal && CompareValues(b, c) == Equal && CompareValues(a, c) == Less
  {
  }

  // ---- stable sorting

  /** Row a of the input goes before row b in a stable sort. */
  predicate Precedes(rows: seq<Row>, keys: seq<OrderKey>, a: nat, b: nat)
    requires a < |rows| && b < |rows| && forall i :: 0 <= i < |rows| ==> KeysInRow(rows[i], keys)
  {
    var o := CompareRows(rows[a], rows[b], keys);
    o == Less || (o == Equal && a < b)
  }

  ghost predicate Sortable(rows: seq<Row>, keys: seq<OrderKey>) {
    && (forall i :: 0 <= i < |rows| ==> KeysInRow(rows[i], keys))
    && (forall i, j :: 0 <= i < |rows| && 0 <= j < |rows| ==> Alike(rows[i], rows[j]))
  }

  ghost predicate Arranged(rows: seq<Row>, keys: seq<OrderKey>, p: seq<nat>)
    requires Sortable(rows, keys)
  {
    && (forall i :: 0 <= i < |p| ==> p[i] < |rows|)
    && (forall i, j :: 0 <= i < j < |p| ==> Precedes(rows, keys, p[i], p[j]))
  }

  /** p is the stable sorted arrangement of all the rows. */
  ghost predicate StableSorted(rows: seq<Row>, keys: seq<OrderKey>, p: seq<nat>)
    requires Sortable(rows, keys)
  {
    Arranged(rows, keys, p) && |p| == |rows| && forall i: nat :: i < |rows| ==> i in p
  }

  lemma PrecedesAsymmetric(rows: seq<Row>, keys: seq<OrderKey>, a: nat, b: nat)
    requires Sortable(rows, keys) && a < |rows| && b < |rows|
    ensures !(Precedes(rows, keys, a, b) && Precedes(rows, keys, b, a))
    ensures a != b ==> Precedes(rows, keys, a, b) || Precedes(rows, keys, b, a)
  {
    CompareRowsReverse(rows[a], rows[b], keys);
  }

  lemma PrecedesTransitive(rows: seq<Row>, keys: seq<OrderKey>, a: nat, b: nat, c: nat)
    requires Sortable(rows, keys) && a < |rows| && b < |rows| && c < |rows|
    requires Precedes(rows, keys, a, b) && Precedes(rows, keys, b, c)
    ensures Precedes(rows, keys, a, c)
  {
    hide CompareRows, KeysInRow, Alike;
    assert Alike(rows[a], rows[b]) && Alike(rows[b], rows[c]);
    CompareRowsTransitive(rows[a], rows[b], rows[c], keys);
  }

  /** Sequences strictly ordered the same way, with the same members, are equal. */
  lemma {:induction false} OrderedUnique<T>(a: seq<T>, b: seq<T>, less: (T, T) -> bool)
    requires forall i, j :: 0 <= i < j < |a| ==> less(a[i], a[j])
    requires forall i, j :: 0 <= i < j < |b| ==> less(b[i], b[j])
    requires forall x, y :: x in a && y in a && less(x, y) ==> !less(y, x)
    requires forall x :: x in a <==> x in b
    ensures a == b
    decreases |a|
  {
    HeadMember(b);
    if a == [] {
    } else {
      assert a[0] in a && a[0] in b && b != [];
      assert b[0] in b && b[0] in a;
      var j :| 0 <= j < |b| && b[j] == a[0];
      var i :| 0 <= i < |a| && a[i] == b[0];
      assert a[0] == b[0];
      TailMembers(a, b, less);
      OrderedUnique(a[1..], b[1..], less);
      assert a == [a[0]] + a[1..] && b == [b[0]] + b[1..];
    }
  }

  lemma TailMembers<T>(a: seq<T>, b: seq<T>, less: (T, T) -> bool)
    requires a != [] && b != [] && a[0] == b[0]
    requires forall i, j :: 0 <= i < j < |a| ==> less(a[i], a[j])
    requires forall i, j :: 0 <= i < j < |b| ==> less(b[i], b[j])
    requires forall x, y :: x in a && y in a && less(x, y) ==> !less(y, x)
    requires forall x :: x in a <==> x in b
    ensures forall x :: x in a[1..] <==> x in b[1..]
  {
    assert a[0] in a;
    assert a == [a[0]] + a[1..] && b == [b[0]] + b[1..];
    assert a[0] !in a[1..];
    assert b[0] !in b[1..];
  }

  /** There is only one stable sorted arrangement, so any stable sort computes it. */
  lemma StableSortUnique(rows: seq<Row>, keys: seq<OrderKey>, p: seq<nat>, q: seq<nat>)
    requires Sortable(rows, keys) && StableSorted(rows, keys, p) && StableSorted(rows, keys, q)
    ensures p == q
  {
    var less := (a: nat, b: nat) => a < |rows| && b < |rows| &&
      (forall i :: 0 <= i < |rows| ==> KeysInRow(rows[i], keys)) && Precedes(rows, keys, a, b);
    forall x, y | x in p && y in p && less(x, y) ensures !less(y, x) {
      PrecedesAsymmetric(rows, keys, x, y);
    }
    OrderedUnique(p, q, less);
  }

  /** x inserted before the first member it precedes. */
  function PlaceRow(rows: seq<Row>, keys: seq<OrderKey>, p: seq<nat>, x: nat): seq<nat>
    requires forall i :: 0 <= i < |rows| ==> KeysInRow(rows[i], keys)
    requires x < |rows| && forall i :: 0 <= i < |p| ==> p[i] < |rows|
  {
    if p == [] then [x]
    else if Precedes(rows, keys, x, p[0]) then [x] + p
    else [p[0]] + PlaceRow(rows, keys, p[1..], x)
  }

  function SortRows(rows: seq<Row>, keys: seq<OrderKey>, n: nat): (p: seq<nat>)
    requires n <= |rows| && forall i :: 0 <= i < |rows| ==> KeysInRow(rows[i], keys)
    ensures forall i :: 0 <= i < |p| ==> p[i] < |rows|
  {
    if n == 0 then []
    else
      var rest := SortRows(rows, keys, n - 1);
      PlaceInside(rows, keys, rest, n - 1);
      PlaceRow(rows, keys, rest, n - 1)
  }

  lemma {:induction false} PlaceInside(rows: seq<Row>, keys: seq<OrderKey>, p: seq<nat>, x: nat)
    requires forall i :: 0 <= i < |rows| ==> KeysInRow(rows[i], keys)
    requires x < |rows| && forall i :: 0 <= i < |p| ==> p[i] < |rows|
    ensures var q := PlaceRow(rows, keys, p, x);
            && |q| == |p| + 1
            && (forall y :: y in q <==> y == x || y in p)
            && (forall i :: 0 <= i < |q| ==> q[i] < |rows|)
  {
    hide Precedes, KeysInRow;
    if p == [] {
    } else {
      PlaceInside(rows, keys, p[1..], x);
      assert p == [p[0]] + p[1..];
    }
  }

  lemma {:induction false} PlaceArranged(rows: seq<Row>, keys: seq<OrderKey>, p: seq<nat>, x: nat)
    requires Sortable(rows, keys) && Arranged(rows, keys, p) && x < |rows| && x !in p
    ensures Arranged(rows, keys, PlaceRow(rows, keys, p, x))
  {
    hide Precedes, KeysInRow, Alike;
    PlaceInside(rows, keys, p, x);
    if p == [] {
    } else {
      if Precedes(rows, keys, x, p[0]) {
        forall j | 0 <= j < |p| ensures Precedes(rows, keys, x, p[j]) {
          if j > 0 {
            PrecedesTransitive(rows, keys, x, p[0], p[j]);
          }
        }
      } else {
        var rest := PlaceRow(rows, keys, p[1..], x);
        PlaceArranged(rows, keys, p[1..], x);
        PlaceInside(rows, keys, p[1..], x);
        PrecedesAsymmetric(rows, keys, x, p[0]);
        forall j | 0 <= j < |rest| ensures Precedes(rows, keys, p[0], rest[j]) {
          assert rest[j] in rest;
          if rest[j] != x {
            var k :| 0 <= k < |p[1..]| && p[1..][k] == rest[j];
            assert p[k + 1] == rest[j];
          }
        }
      }
    }
  }

  lemma {:induction false} SortRowsSpec(rows: seq<Row>, keys: seq<OrderKey>, n: nat)
    requires Sortable(rows, keys) && n <= |rows|
    ensures var p := SortRows(rows, keys, n);
            Arranged(rows, keys, p) && |p| == n && forall i: nat :: i in p <==> i < n
  {
    hide Precedes, KeysInRow, Alike;
    if n == 0 {
    } else {
      SortRowsSpec(rows, keys, n - 1);
      PlaceInside(rows, keys, SortRows(rows, keys, n - 1), n - 1);
      PlaceArranged(rows, keys, SortRows(rows, keys, n - 1), n - 1);
    }
  }

  function Arrange(rows: seq<Row>, p: seq<nat>): (r: seq<Row>)
    requires forall i :: 0 <= i < |p| ==> p[i] < |rows|
    ensures |r| == |p| && forall i :: 0 <= i < |r| ==> r[i] == rows[p[i]]
  {
    seq(|p|, i requires 0 <= i < |p| => rows[p[i]])
  }

  // ---- SELECT after the rows are fetched

  /** Sorts the rows in place, unless there are no keys. */
  function ApplyOrderBy(rows: seq<Row>, keys: seq<OrderKey>): seq<Row>
    requires forall i :: 0 <= i < |rows| ==> KeysInRow(rows[i], keys)
  {
    if keys == [] then rows else Arrange(rows, SortRows(rows, keys, |rows|))
  }

  function ApplyLimit(rows: seq<Row>, limit: Option<nat>): seq<Row> {
    if limit.Some? && limit.value < |rows| then rows[..limit.value] else rows
  }

  function ProjectRow(row: Row, indices: seq<nat>): Row
    requires forall i :: 0 <= i < |indices| ==> indices[i] < |row|
  {
    seq(|indices|, i requires 0 <= i < |indices| => row[indices[i]])
  }

  /** ORDER BY and LIMIT keep a prefix of the stable sorted arrangement: each kept row goes before each
      dropped one. Projection comes after, so the keys need not be projected. */
  lemma OrderedPrefix(rows: seq<Row>, keys: seq<OrderKey>, limit: Option<nat>) returns (p: seq<nat>)
    requires Sortable(rows, keys)
    ensures StableSorted(rows, keys, p)
    ensures var kept := ApplyLimit(ApplyOrderBy(rows, keys), limit);
            && |kept| == (if limit.Some? && limit.value < |rows| then limit.value else |rows|)
            && (forall i :: 0 <= i < |kept| ==> kept[i] == rows[p[i]])
            && (forall i, j :: 0 <= i < |kept| <= j < |p| ==> Precedes(rows, keys, p[i], p[j]))
  {
    if keys == [] {
      p := seq(|rows|, i => i);
      forall i: nat | i < |rows| ensures i in p {
        assert p[i] == i;
      }
    } else {
      p := SortRows(rows, keys, |rows|);
      SortRowsSpec(rows, keys, |rows|);
    }
  }
}
