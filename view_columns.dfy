/**
 * What `ViewColumnService` computes, as functions of the dock-panel widgets it
 * finds: positions grouped in document order, positions sorted by JavaScript's
 * default `sort()` (which compares the decimal texts), columns numbered from 0,
 * the id-to-column map rebuilt on a drop, and the change events it fires.
 */
module ViewColumns {
  import opened Wrappers
  import Decimal
  import StringOrder

  /**
   * A `p-DockPanel-widget` element: its id and the number `parseInt` reads from its
   * `style.left`, or None when there is no non-empty `left`.
   */
  datatype Panel = Panel(id: string, left: Option<int>)

  /** One `onViewColumnChanged` event. */
  datatype ViewColumnChange = ViewColumnChange(id: string, viewColumn: int)

  predicate Distinct(s: seq<int>) {
    forall i, j :: 0 <= i < j < |s| ==> s[i] != s[j]
  }

  /** True when some panel has position `p`. */
  predicate IsPosition(panels: seq<Panel>, p: int) {
    exists i :: 0 <= i < |panels| && panels[i].left == Some(p)
  }

  /**
   * The keys of `positionIds` in insertion order: every position once, in the
   * order of its first panel.
   */
  function PositionKeys(panels: seq<Panel>): (keys: seq<int>)
    ensures Distinct(keys)
    ensures forall p :: p in keys <==> IsPosition(panels, p)
    decreases |panels|
  {
    if |panels| == 0 then []
    else
      var init := panels[..|panels| - 1];
      var keys := PositionKeys(init);
      var last := panels[|panels| - 1];
      assert forall p :: IsPosition(panels, p) <==> IsPosition(init, p) || last.left == Some(p) by {
        forall p | IsPosition(init, p) ensures IsPosition(panels, p) {
          var i :| 0 <= i < |init| && init[i].left == Some(p);
          assert panels[i] == init[i];
        }
        forall p | IsPosition(panels, p) && last.left != Some(p) ensures IsPosition(init, p) {
          var i :| 0 <= i < |panels| && panels[i].left == Some(p);
          assert init[i] == panels[i];
        }
      }
      if last.left.Some? && last.left.value !in keys then keys + [last.left.value] else keys
  }

  /** The list `positionIds.get(p)`: ids of the panels at position `p`, in document order. */
  function IdsAt(panels: seq<Panel>, p: int): (ids: seq<string>)
    ensures |ids| > 0 <==> IsPosition(panels, p)
    decreases |panels|
  {
    if |panels| == 0 then []
    else
      var init := panels[..|panels| - 1];
      var ids := IdsAt(init, p);
      assert IsPosition(panels, p) <==> IsPosition(init, p) || panels[|panels| - 1].left == Some(p) by {
        if IsPosition(init, p) {
          var i :| 0 <= i < |init| && init[i].left == Some(p);
          assert panels[i] == init[i];
        }
        if IsPosition(panels, p) && panels[|panels| - 1].left != Some(p) {
          var i :| 0 <= i < |panels| && panels[i].left == Some(p);
          assert init[i] == panels[i];
        }
      }
      if panels[|panels| - 1].left == Some(p) then ids + [panels[|panels| - 1].id] else ids
  }

  /** The ids of all panels that have a position, in document order. */
  function PositionedIds(panels: seq<Panel>): seq<string>
    decreases |panels|
  {
    if |panels| == 0 then []
    else
      var ids := PositionedIds(panels[..|panels| - 1]);
      if panels[|panels| - 1].left.Some? then ids + [panels[|panels| - 1].id] else ids
  }

  // ---------------------------------------------------------------------------
  // The default sort

  /**
   * `p` sorts before `q` under `sort()` without a comparator. A positive number
   * sorts before every number that extends it by one more digit (10 before 100..109).
   */
  predicate DecimalLess(p: int, q: int)
    ensures 0 < p && 10 * p <= q < 10 * p + 10 ==> DecimalLess(p, q)
  {
    assert 0 < p && 10 * p <= q < 10 * p + 10 ==>
      Decimal.ToDecimal(q) == Decimal.ToDecimal(p) + [Decimal.DigitChar(q % 10)];
    StringOrder.Less(Decimal.ToDecimal(p), Decimal.ToDecimal(q))
  }

  lemma DecimalLessIsStrictOrder(p: int, q: int, r: int)
    ensures !DecimalLess(p, p)
    ensures DecimalLess(p, q) ==> !DecimalLess(q, p)
    ensures DecimalLess(p, q) && DecimalLess(q, r) ==> DecimalLess(p, r)
    ensures p != q ==> DecimalLess(p, q) || DecimalLess(q, p)
  {
    var P, Q, R := Decimal.ToDecimal(p), Decimal.ToDecimal(q), Decimal.ToDecimal(r);
    StringOrder.Irreflexive(P);
    if DecimalLess(p, q) {
      StringOrder.Asymmetric(P, Q);
      if DecimalLess(q, r) {
        StringOrder.Transitive(P, Q, R);
      }
    }
    if p != q {
      Decimal.ToDecimalInjective(p, q);
      StringOrder.Total(P, Q);
    }
  }

  /** 100 sorts before 20, because "100" < "20" as text. */
  lemma HundredBeforeTwenty()
    ensures DecimalLess(100, 20) && !DecimalLess(20, 100)
  {
    assert Decimal.ToDecimal(100) == "100" by {
      assert Decimal.Digits(10) == "10";
    }
    assert Decimal.ToDecimal(20) == "20";
  }

  ghost predicate StrictlySorted(s: seq<int>) {
    forall i, j :: 0 <= i < j < |s| ==> DecimalLess(s[i], s[j])
  }

  function Insert(x: int, s: seq<int>): (r: seq<int>)
    ensures multiset(r) == multiset(s) + multiset{x}
  {
    if s == [] then [x]
    else if DecimalLess(x, s[0]) then [x] + s
    else
      assert s == [s[0]] + s[1..];
      [s[0]] + Insert(x, s[1..])
  }

  /** `[...keys].sort()`: the keys ordered by their decimal texts. */
  function SortByDecimal(s: seq<int>): (r: seq<int>)
    ensures multiset(r) == multiset(s)
  {
    if s == [] then []
    else
      assert s == [s[0]] + s[1..];
      Insert(s[0], SortByDecimal(s[1..]))
  }

  lemma {:induction false} InsertSorted(x: int, s: seq<int>)
    requires StrictlySorted(s) && x !in s
    ensures StrictlySorted(Insert(x, s))
  {
    if s == [] {
    } else if DecimalLess(x, s[0]) {
      forall k | 0 <= k < |s|
        ensures DecimalLess(x, s[k])
      {
        DecimalLessIsStrictOrder(x, s[0], s[k]);
      }
      SortedCons(x, s);
    } else {
      SortedTail(s);
      InsertSorted(x, s[1..]);
      HeadBeforeInsert(x, s);
      SortedCons(s[0], Insert(x, s[1..]));
    }
  }

  lemma SortedCons(h: int, t: seq<int>)
    requires StrictlySorted(t) && forall k :: 0 <= k < |t| ==> DecimalLess(h, t[k])
    ensures StrictlySorted([h] + t)
  {
    var r := [h] + t;
    forall i, j | 0 <= i < j < |r|
      ensures DecimalLess(r[i], r[j])
    {
      if i == 0 {
        assert r[j] == t[j - 1];
      } else {
        assert r[i] == t[i - 1] && r[j] == t[j - 1];
      }
    }
  }

  /** When `x` goes after the head, the head stays before everything that follows it. */
  lemma HeadBeforeInsert(x: int, s: seq<int>)
    requires StrictlySorted(s) && s != [] && x !in s && !DecimalLess(x, s[0])
    ensures forall k :: 0 <= k < |Insert(x, s[1..])| ==> DecimalLess(s[0], Insert(x, s[1..])[k])
  {
    var t, it := s[1..], Insert(x, s[1..]);
    DecimalLessIsStrictOrder(x, s[0], x);
    forall k | 0 <= k < |it|
      ensures DecimalLess(s[0], it[k])
    {
      InsertMember(x, t, it[k]);
      if it[k] != x {
        var m :| 0 <= m < |t| && t[m] == it[k];
        assert s[m + 1] == it[k];
      }
    }
  }

  lemma InsertMember(x: int, s: seq<int>, y: int)
    requires y in Insert(x, s)
    ensures y == x || y in s
  {
    assert y in multiset(Insert(x, s));
  }

  lemma {:induction false} SortedOutput(s: seq<int>)
    requires Distinct(s)
    ensures StrictlySorted(SortByDecimal(s))
  {
    if s != [] {
      SortedOutput(s[1..]);
      assert s[0] !in multiset(s[1..]);
      assert s[0] !in multiset(SortByDecimal(s[1..]));
      InsertSorted(s[0], SortByDecimal(s[1..]));
    }
  }

  lemma SortedHeadsAgree(a: seq<int>, b: seq<int>)
    requires StrictlySorted(a) && StrictlySorted(b) && multiset(a) == multiset(b) && a != []
    ensures b != [] && a[0] == b[0]
  {
    assert a[0] in multiset(b);
    var i :| 0 <= i < |b| && b[i] == a[0];
    assert b[0] in multiset(a);
    var j :| 0 <= j < |a| && a[j] == b[0];
    if a[0] != b[0] {
      assert DecimalLess(b[0], a[0]);
      assert DecimalLess(a[0], b[0]);
      DecimalLessIsStrictOrder(a[0], b[0], a[0]);
    }
  }

  lemma SortedTail(a: seq<int>)
    requires StrictlySorted(a) && a != []
    ensures StrictlySorted(a[1..])
    ensures multiset(a[1..]) == multiset(a) - multiset{a[0]}
  {
    assert a == [a[0]] + a[1..];
  }

  /**
   * The order `sort()` produces does not depend on the sorting algorithm: two
   * strictly sorted arrangements of the same keys are equal.
   */
  lemma {:induction false} SortedArrangementUnique(a: seq<int>, b: seq<int>)
    requires StrictlySorted(a) && StrictlySorted(b) && multiset(a) == multiset(b)
    ensures a == b
    decreases |a|
  {
    if a == [] {
      assert |b| == |multiset(b)| == 0;
    } else {
      SortedHeadsAgree(a, b);
      SortedTail(a);
      SortedTail(b);
      SortedArrangementUnique(a[1..], b[1..]);
      assert a == [a[0]] + a[1..] && b == [b[0]] + b[1..];
    }
  }

  lemma SortedIsDistinct(s: seq<int>)
    requires StrictlySorted(s)
    ensures Distinct(s)
  {
    forall i, j | 0 <= i < j < |s| ensures s[i] != s[j] {
      DecimalLessIsStrictOrder(s[i], s[j], s[j]);
    }
  }

  // ---------------------------------------------------------------------------
  // Columns

  /** The positions in column order. */
  function SortedPositions(panels: seq<Panel>): (sorted: seq<int>)
    ensures StrictlySorted(sorted) && Distinct(sorted)
    ensures forall p :: p in sorted <==> IsPosition(panels, p)
  {
    var keys := PositionKeys(panels);
    SortedOutput(keys);
    var sorted := SortByDecimal(keys);
    SortedIsDistinct(sorted);
    assert forall p :: p in sorted <==> p in multiset(keys);
    sorted
  }

  /** The set of distinct positions. */
  function Positions(panels: seq<Panel>): set<int> {
    set i | 0 <= i < |panels| && panels[i].left.Some? :: panels[i].left.value
  }

  /**
   * `viewColumnIds` as `updateViewColumnIds` leaves it: column `c` holds the ids
   * at the `c`-th position in sorted order.
   */
  function ColumnsOf(panels: seq<Panel>): (cols: map<int, seq<string>>)
    ensures forall c :: c in cols ==> cols[c] != []
  {
    var sorted := SortedPositions(panels);
    NumberedGroups(panels, sorted, |sorted|)
  }

  /** The groups of the first `n` keys of `keys`, numbered 0..n-1. */
  function NumberedGroups(panels: seq<Panel>, keys: seq<int>, n: nat): map<int, seq<string>>
    requires n <= |keys|
  {
    map c | 0 <= c < n :: IdsAt(panels, keys[c])
  }

  lemma NumberedGroupsStep(panels: seq<Panel>, keys: seq<int>, n: nat)
    requires n < |keys|
    ensures NumberedGroups(panels, keys, n + 1) == NumberedGroups(panels, keys, n)[n := IdsAt(panels, keys[n])]
  {
  }

  function IndexOf(s: seq<int>, x: int): (i: nat)
    requires x in s
    ensures i < |s| && s[i] == x
  {
    if s[0] == x then 0 else 1 + IndexOf(s[1..], x)
  }

  /** The column a position is given. */
  function ColumnOf(panels: seq<Panel>, p: int): (c: int)
    requires IsPosition(panels, p)
    ensures 0 <= c < |SortedPositions(panels)| && SortedPositions(panels)[c] == p
  {
    IndexOf(SortedPositions(panels), p)
  }

  lemma {:induction false} DistinctCardinality(s: seq<int>)
    requires Distinct(s)
    ensures |set x | x in s| == |s|
    decreases |s|
  {
    if s != [] {
      var init := s[..|s| - 1];
      DistinctCardinality(init);
      assert (set x | x in s) == (set x | x in init) + {s[|s| - 1]};
    }
  }

  /**
   * The column keys are exactly 0..k-1, k the number of distinct positions, and
   * no column is empty.
   */
  lemma DenseColumns(panels: seq<Panel>)
    ensures |SortedPositions(panels)| == |Positions(panels)|
    ensures forall c :: c in ColumnsOf(panels) <==> 0 <= c < |Positions(panels)|
    ensures forall c :: c in ColumnsOf(panels) ==> |ColumnsOf(panels)[c]| > 0
  {
    var sorted := SortedPositions(panels);
    assert (set x | x in sorted) == Positions(panels) by {
      forall p | p in Positions(panels) ensures p in sorted {
        var i :| 0 <= i < |panels| && panels[i].left.Some? && panels[i].left.value == p;
        assert panels[i].left == Some(p);
      }
      forall p | p in sorted ensures p in Positions(panels) {
        var i :| 0 <= i < |panels| && panels[i].left == Some(p);
      }
    }
    DistinctCardinality(sorted);
  }

  /**
   * Panels share a column exactly when they share a position, and the column of a
   * position holds the ids of its panels in document order.
   */
  lemma SameColumnIffSamePosition(panels: seq<Panel>, p: int, q: int)
    requires IsPosition(panels, p) && IsPosition(panels, q)
    ensures ColumnOf(panels, p) in ColumnsOf(panels)
    ensures ColumnsOf(panels)[ColumnOf(panels, p)] == IdsAt(panels, p)
    ensures ColumnOf(panels, p) == ColumnOf(panels, q) <==> p == q
  {
  }

  /** Columns follow the default sort: `p` gets a lower column than `q` iff its text sorts first. */
  lemma ColumnOrder(panels: seq<Panel>, p: int, q: int)
    requires IsPosition(panels, p) && IsPosition(panels, q)
    ensures ColumnOf(panels, p) < ColumnOf(panels, q) <==> DecimalLess(p, q)
  {
    var cp, cq := ColumnOf(panels, p), ColumnOf(panels, q);
    if cp == cq {
      DecimalLessIsStrictOrder(p, q, p);
    } else if cq < cp {
      assert DecimalLess(q, p);
      DecimalLessIsStrictOrder(q, p, q);
    }
  }

  lemma ExamplePositions(a: string, b: string)
    ensures SortedPositions([Panel(a, Some(20)), Panel(b, Some(100))]) == [100, 20]
  {
    var panels := [Panel(a, Some(20)), Panel(b, Some(100))];
    assert panels[..1] == [Panel(a, Some(20))];
    assert panels[..1][..0] == [];
    assert PositionKeys(panels[..1]) == [20];
    assert PositionKeys(panels) == [20, 100];
    HundredBeforeTwenty();
    assert SortByDecimal([100]) == [100];
  }

  lemma ExampleIds(a: string, b: string)
    ensures IdsAt([Panel(a, Some(20)), Panel(b, Some(100))], 20) == [a]
    ensures IdsAt([Panel(a, Some(20)), Panel(b, Some(100))], 100) == [b]
  {
    var panels := [Panel(a, Some(20)), Panel(b, Some(100))];
    assert panels[..1] == [Panel(a, Some(20))];
    assert panels[..1][..0] == [];
  }

  /** A panel at 20 followed by one at 100: the one at 100 gets column 0. */
  lemma DecimalOrderExample(a: string, b: string)
    ensures ColumnsOf([Panel(a, Some(20)), Panel(b, Some(100))]) == map[0 := [b], 1 := [a]]
  {
    var panels := [Panel(a, Some(20)), Panel(b, Some(100))];
    ExamplePositions(a, b);
    ExampleIds(a, b);
    TwoColumns(panels, [100, 20], [b], [a]);
  }

  lemma TwoColumns(panels: seq<Panel>, keys: seq<int>, first: seq<string>, second: seq<string>)
    requires |keys| == 2 && IdsAt(panels, keys[0]) == first && IdsAt(panels, keys[1]) == second
    ensures NumberedGroups(panels, keys, 2) == map[0 := first, 1 := second]
  {
    var cols := NumberedGroups(panels, keys, 2);
    assert cols.Keys == {0, 1};
  }

  // ---------------------------------------------------------------------------
  // Every positioned id exactly once

  /** The columns 0..n-1 one after the other. */
  function Flatten(cols: map<int, seq<string>>, n: nat): seq<string>
    requires forall c :: 0 <= c < n ==> c in cols
  {
    if n == 0 then [] else Flatten(cols, n - 1) + cols[n - 1]
  }

  /** The ids of the panels whose position is in `s`, in document order. */
  function IdsIn(panels: seq<Panel>, s: set<int>): seq<string>
    decreases |panels|
  {
    if |panels| == 0 then []
    else
      var ids := IdsIn(panels[..|panels| - 1], s);
      var last := panels[|panels| - 1];
      if last.left.Some? && last.left.value in s then ids + [last.id] else ids
  }

  /** The groups of `keys`, one after the other. */
  function GroupsOf(panels: seq<Panel>, keys: seq<int>): seq<string>
    decreases |keys|
  {
    if |keys| == 0 then [] else GroupsOf(panels, keys[..|keys| - 1]) + IdsAt(panels, keys[|keys| - 1])
  }

  lemma {:induction false} FlattenColumns(panels: seq<Panel>, n: nat)
    requires n <= |SortedPositions(panels)|
    ensures forall c :: 0 <= c < n ==> c in ColumnsOf(panels)
    ensures Flatten(ColumnsOf(panels), n) == GroupsOf(panels, SortedPositions(panels)[..n])
  {
    if n > 0 {
      FlattenColumns(panels, n - 1);
      var sorted := SortedPositions(panels);
      assert sorted[..n][..n - 1] == sorted[..n - 1];
    }
  }

  lemma {:induction false} IdsInAddKey(panels: seq<Panel>, s: set<int>, k: int)
    requires k !in s
    ensures multiset(IdsIn(panels, s + {k})) == multiset(IdsIn(panels, s)) + multiset(IdsAt(panels, k))
    decreases |panels|
  {
    if |panels| > 0 {
      IdsInAddKey(panels[..|panels| - 1], s, k);
    }
  }

  lemma {:induction false} GroupsAreIdsIn(panels: seq<Panel>, keys: seq<int>)
    requires Distinct(keys)
    ensures multiset(GroupsOf(panels, keys)) == multiset(IdsIn(panels, set x | x in keys))
    decreases |keys|
  {
    if |keys| == 0 {
      assert (set x | x in keys) == {};
      IdsInEmpty(panels);
    } else {
      var init := keys[..|keys| - 1];
      var k := keys[|keys| - 1];
      GroupsAreIdsIn(panels, init);
      assert (set x | x in keys) == (set x | x in init) + {k};
      IdsInAddKey(panels, (set x | x in init), k);
    }
  }

  lemma {:induction false} IdsInEmpty(panels: seq<Panel>)
    ensures IdsIn(panels, {}) == []
    decreases |panels|
  {
    if |panels| > 0 {
      IdsInEmpty(panels[..|panels| - 1]);
    }
  }

  lemma {:induction false} IdsInAllPositions(panels: seq<Panel>, s: set<int>)
    requires forall i :: 0 <= i < |panels| && panels[i].left.Some? ==> panels[i].left.value in s
    ensures IdsIn(panels, s) == PositionedIds(panels)
    decreases |panels|
  {
    if |panels| > 0 {
      IdsInAllPositions(panels[..|panels| - 1], s);
    }
  }

  lemma SortedPositionsSet(panels: seq<Panel>)
    ensures (set x | x in SortedPositions(panels)) == Positions(panels)
  {
    var sorted := SortedPositions(panels);
    forall p | p in Positions(panels) ensures p in sorted {
      var i :| 0 <= i < |panels| && panels[i].left.Some? && panels[i].left.value == p;
      assert panels[i].left == Some(p);
    }
    forall p | p in sorted ensures p in Positions(panels) {
      var i :| 0 <= i < |panels| && panels[i].left == Some(p);
    }
  }

  /**
   * Every panel with a position has its id in exactly one column entry: the
   * columns together hold the positioned ids, each as often as it occurs.
   */
  lemma EveryPositionedIdOnce(panels: seq<Panel>)
    ensures forall c :: 0 <= c < |Positions(panels)| ==> c in ColumnsOf(panels)
    ensures multiset(Flatten(ColumnsOf(panels), |Positions(panels)|)) == multiset(PositionedIds(panels))
  {
    DenseColumns(panels);
    var sorted := SortedPositions(panels);
    DistinctCardinality(sorted);
    SortedPositionsSet(panels);
    FlattenColumns(panels, |sorted|);
    assert sorted[..|sorted|] == sorted;
    GroupsAreIdsIn(panels, sorted);
    forall i | 0 <= i < |panels| && panels[i].left.Some?
      ensures panels[i].left.value in (set x | x in sorted)
    {
      assert IsPosition(panels, panels[i].left.value);
    }
    IdsInAllPositions(panels, (set x | x in sorted));
  }

  // ---------------------------------------------------------------------------
  // The drop handler

  /** Column `c` as the handler records it: `set(id, c)` for each of its ids. */
  function AssignColumn(ids: seq<string>, c: int): map<string, int> {
    map id | id in ids :: c
  }

  /** The map the drop handler builds from columns 0..n-1, visited in order. */
  function Assignment(cols: map<int, seq<string>>, n: nat): (assignment: map<string, int>)
    requires forall c :: 0 <= c < n ==> c in cols
    ensures n > 0 ==> forall id :: id in cols[n - 1] ==> id in assignment && assignment[id] == n - 1
  {
    if n == 0 then map[] else Assignment(cols, n - 1) + AssignColumn(cols[n - 1], n - 1)
  }

  /** True when the handler fires an event for `id` in column `c`. */
  predicate Changed(previous: map<string, int>, id: string, c: int)
    ensures Changed(previous, id, c) <==> previous[id := c] != previous
  {
    id !in previous || previous[id] != c
  }

  /** The events fired while visiting the ids of column `c`. */
  function ColumnChanges(previous: map<string, int>, ids: seq<string>, c: int): (events: seq<ViewColumnChange>)
    ensures forall e :: e in events ==> e.viewColumn == c && e.id in ids
    decreases |ids|
  {
    if |ids| == 0 then []
    else
      var id := ids[|ids| - 1];
      ColumnChanges(previous, ids[..|ids| - 1], c)
        + (if Changed(previous, id, c) then [ViewColumnChange(id, c)] else [])
  }

  /** The events fired while visiting columns 0..n-1. */
  function ChangeEvents(previous: map<string, int>, cols: map<int, seq<string>>, n: nat): (events: seq<ViewColumnChange>)
    requires forall c :: 0 <= c < n ==> c in cols
    ensures forall e :: e in events ==> 0 <= e.viewColumn < n
  {
    if n == 0 then [] else ChangeEvents(previous, cols, n - 1) + ColumnChanges(previous, cols[n - 1], n - 1)
  }

  lemma AssignColumnStep(base: map<string, int>, ids: seq<string>, t: nat, c: int)
    requires t < |ids|
    ensures base + AssignColumn(ids[..t + 1], c) == (base + AssignColumn(ids[..t], c))[ids[t] := c]
  {
    assert ids[..t + 1] == ids[..t] + [ids[t]];
  }

  lemma ColumnChangesStep(previous: map<string, int>, ids: seq<string>, t: nat, c: int)
    requires t < |ids|
    ensures ColumnChanges(previous, ids[..t + 1], c)
      == ColumnChanges(previous, ids[..t], c)
         + (if Changed(previous, ids[t], c) then [ViewColumnChange(ids[t], c)] else [])
  {
    assert ids[..t + 1][..t] == ids[..t];
  }

  /**
   * The handler's map sends an id to a column whose list holds it, the last such
   * column when several do, and holds no other id.
   */
  lemma {:induction false} AssignmentIsLastColumn(cols: map<int, seq<string>>, n: nat)
    requires forall c :: 0 <= c < n ==> c in cols
    ensures forall id :: id in Assignment(cols, n) <==> exists c :: 0 <= c < n && id in cols[c]
    ensures forall id :: id in Assignment(cols, n) ==>
      && 0 <= Assignment(cols, n)[id] < n
      && id in cols[Assignment(cols, n)[id]]
      && forall c :: Assignment(cols, n)[id] < c < n ==> id !in cols[c]
  {
    forall id
      ensures id in Assignment(cols, n) <==> exists c :: 0 <= c < n && id in cols[c]
    {
      AssignmentHas(cols, n, id);
    }
    forall id | id in Assignment(cols, n)
      ensures && 0 <= Assignment(cols, n)[id] < n
              && id in cols[Assignment(cols, n)[id]]
              && forall c :: Assignment(cols, n)[id] < c < n ==> id !in cols[c]
    {
      AssignmentAt(cols, n, id);
    }
  }

  lemma {:induction false} AssignmentHas(cols: map<int, seq<string>>, n: nat, id: string)
    requires forall c :: 0 <= c < n ==> c in cols
    ensures id in Assignment(cols, n) <==> exists c :: 0 <= c < n && id in cols[c]
  {
    if n > 0 {
      AssignmentHas(cols, n - 1, id);
      if id !in cols[n - 1] && exists c :: 0 <= c < n && id in cols[c] {
        var c :| 0 <= c < n && id in cols[c];
        assert c < n - 1;
      }
    }
  }

  lemma {:induction false} AssignmentAt(cols: map<int, seq<string>>, n: nat, id: string)
    requires forall c :: 0 <= c < n ==> c in cols
    requires id in Assignment(cols, n)
    ensures 0 <= Assignment(cols, n)[id] < n && id in cols[Assignment(cols, n)[id]]
    ensures forall c :: Assignment(cols, n)[id] < c < n ==> id !in cols[c]
  {
    var prev, last := Assignment(cols, n - 1), AssignColumn(cols[n - 1], n - 1);
    assert Assignment(cols, n) == prev + last;
    if id in cols[n - 1] {
      assert id in last && last[id] == n - 1;
    } else {
      assert id !in last && id in prev;
      AssignmentAt(cols, n - 1, id);
      var k := prev[id];
      assert Assignment(cols, n)[id] == k;
      forall c | k < c < n
        ensures id !in cols[c]
      {
        if c < n - 1 {
          assert k < c < n - 1;
        }
      }
    }
  }

  lemma {:induction false} ColumnChangesSpec(previous: map<string, int>, ids: seq<string>, c: int)
    ensures forall e :: e in ColumnChanges(previous, ids, c) <==>
      e.viewColumn == c && e.id in ids && Changed(previous, e.id, c)
    decreases |ids|
  {
    if |ids| > 0 {
      var init := ids[..|ids| - 1];
      ColumnChangesSpec(previous, init, c);
      assert ids == init + [ids[|ids| - 1]];
    }
  }

  /**
   * An event `(id, c)` is fired exactly when column `c` holds `id` and `id` was
   * absent from the previous map or mapped to another column.
   */
  lemma {:induction false} ChangeEventsSpec(previous: map<string, int>, cols: map<int, seq<string>>, n: nat)
    requires forall c :: 0 <= c < n ==> c in cols
    ensures forall e :: e in ChangeEvents(previous, cols, n) <==>
      0 <= e.viewColumn < n && e.id in cols[e.viewColumn] && Changed(previous, e.id, e.viewColumn)
  {
    if n > 0 {
      ChangeEventsSpec(previous, cols, n - 1);
      ColumnChangesSpec(previous, cols[n - 1], n - 1);
    }
  }

  lemma {:induction false} FlattenHolds(cols: map<int, seq<string>>, n: nat)
    requires forall c :: 0 <= c < n ==> c in cols
    ensures forall id :: id in Flatten(cols, n) <==> exists c :: 0 <= c < n && id in cols[c]
  {
    if n > 0 {
      FlattenHolds(cols, n - 1);
    }
  }

  lemma {:induction false} IdsAtHolds(panels: seq<Panel>, p: int)
    ensures forall i :: 0 <= i < |panels| && panels[i].left == Some(p) ==> panels[i].id in IdsAt(panels, p)
    ensures forall x :: x in IdsAt(panels, p) ==>
      exists i :: 0 <= i < |panels| && panels[i].left == Some(p) && panels[i].id == x
    decreases |panels|
  {
    if |panels| > 0 {
      var init := panels[..|panels| - 1];
      IdsAtHolds(init, p);
      forall x | x in IdsAt(panels, p)
        ensures exists i :: 0 <= i < |panels| && panels[i].left == Some(p) && panels[i].id == x
      {
        if x in IdsAt(init, p) {
          var i :| 0 <= i < |init| && init[i].left == Some(p) && init[i].id == x;
          assert panels[i] == init[i];
        } else {
          assert panels[|panels| - 1].id == x;
        }
      }
      forall i | 0 <= i < |panels| - 1 && panels[i].left == Some(p) ensures panels[i].id in IdsAt(panels, p) {
        assert init[i] == panels[i];
      }
    }
  }

  /** True when no other positioned panel has the id of panel `i`. */
  predicate UniqueId(panels: seq<Panel>, i: int)
    requires 0 <= i < |panels|
  {
    forall j :: 0 <= j < |panels| && panels[j].left.Some? && panels[j].id == panels[i].id ==> j == i
  }

  lemma AssignmentOfOnlyColumn(cols: map<int, seq<string>>, n: nat, id: string, c0: int)
    requires forall c :: 0 <= c < n ==> c in cols
    requires 0 <= c0 < n && id in cols[c0]
    requires forall c :: 0 <= c < n && id in cols[c] ==> c == c0
    ensures id in Assignment(cols, n) && Assignment(cols, n)[id] == c0
  {
    AssignmentIsLastColumn(cols, n);
  }

  /** The columns are the groups of the sorted positions, and there are as many as positions. */
  lemma ColumnsAreGroups(panels: seq<Panel>)
    ensures |SortedPositions(panels)| == |Positions(panels)|
    ensures forall c :: 0 <= c < |Positions(panels)| ==>
      c in ColumnsOf(panels) && ColumnsOf(panels)[c] == IdsAt(panels, SortedPositions(panels)[c])
  {
    DenseColumns(panels);
  }

  lemma FlattenHoldsPositioned(panels: seq<Panel>, id: string)
    ensures forall c :: 0 <= c < |Positions(panels)| ==> c in ColumnsOf(panels)
    ensures id in PositionedIds(panels) <==>
      exists c :: 0 <= c < |Positions(panels)| && id in ColumnsOf(panels)[c]
  {
    var cols, k := ColumnsOf(panels), |Positions(panels)|;
    EveryPositionedIdOnce(panels);
    FlattenHolds(cols, k);
    var f := Flatten(cols, k);
    assert id in f <==> id in multiset(f);
    assert id in PositionedIds(panels) <==> id in multiset(PositionedIds(panels));
  }

  lemma AssignmentDomain(panels: seq<Panel>, id: string)
    ensures forall c :: 0 <= c < |Positions(panels)| ==> c in ColumnsOf(panels)
    ensures id in Assignment(ColumnsOf(panels), |Positions(panels)|) <==> id in PositionedIds(panels)
  {
    FlattenHoldsPositioned(panels, id);
    AssignmentIsLastColumn(ColumnsOf(panels), |Positions(panels)|);
  }

  /**
   * After a drop, `viewColumns` holds the ids of the positioned panels and no
   * other; a positioned panel whose id is unique maps to the column of its position.
   */
  lemma DropAssignment(panels: seq<Panel>)
    ensures forall c :: 0 <= c < |Positions(panels)| ==> c in ColumnsOf(panels)
    ensures forall id :: id in Assignment(ColumnsOf(panels), |Positions(panels)|) <==> id in PositionedIds(panels)
    ensures forall i :: 0 <= i < |panels| && panels[i].left.Some? && UniqueId(panels, i) ==>
      && panels[i].id in Assignment(ColumnsOf(panels), |Positions(panels)|)
      && Assignment(ColumnsOf(panels), |Positions(panels)|)[panels[i].id] == ColumnOf(panels, panels[i].left.value)
  {
    var cols, k := ColumnsOf(panels), |Positions(panels)|;
    ColumnsAreGroups(panels);
    forall id ensures id in Assignment(cols, k) <==> id in PositionedIds(panels) {
      AssignmentDomain(panels, id);
    }
    forall i | 0 <= i < |panels| && panels[i].left.Some? && UniqueId(panels, i)
      ensures panels[i].id in Assignment(cols, k)
      ensures Assignment(cols, k)[panels[i].id] == ColumnOf(panels, panels[i].left.value)
    {
      UniqueIdColumn(panels, i);
    }
  }

  /** A column holding the id of a unique panel is the column of that panel's position. */
  lemma OnlyOwnColumn(panels: seq<Panel>, i: int, c: int)
    requires 0 <= i < |panels| && panels[i].left.Some? && UniqueId(panels, i)
    requires 0 <= c < |SortedPositions(panels)|
    requires panels[i].id in IdsAt(panels, SortedPositions(panels)[c])
    ensures IsPosition(panels, panels[i].left.value) && c == ColumnOf(panels, panels[i].left.value)
  {
    var sorted := SortedPositions(panels);
    IdsAtHolds(panels, sorted[c]);
    var j :| 0 <= j < |panels| && panels[j].left == Some(sorted[c]) && panels[j].id == panels[i].id;
    assert j == i;
    assert IsPosition(panels, panels[i].left.value);
    var c0 := ColumnOf(panels, panels[i].left.value);
    assert sorted[c] == sorted[c0];
    SortedIsDistinct(sorted);
  }

  lemma UniqueIdColumn(panels: seq<Panel>, i: int)
    requires 0 <= i < |panels| && panels[i].left.Some? && UniqueId(panels, i)
    ensures forall c :: 0 <= c < |Positions(panels)| ==> c in ColumnsOf(panels)
    ensures panels[i].id in Assignment(ColumnsOf(panels), |Positions(panels)|)
    ensures Assignment(ColumnsOf(panels), |Positions(panels)|)[panels[i].id] == ColumnOf(panels, panels[i].left.value)
  {
    var cols, k := ColumnsOf(panels), |Positions(panels)|;
    var p, id := panels[i].left.value, panels[i].id;
    var sorted := SortedPositions(panels);
    ColumnsAreGroups(panels);
    assert IsPosition(panels, p);
    var c0 := ColumnOf(panels, p);
    IdsAtHolds(panels, p);
    forall c | 0 <= c < k && id in cols[c] ensures c == c0 {
      OnlyOwnColumn(panels, i, c);
    }
    AssignmentOfOnlyColumn(cols, k, id, c0);
  }

  /**
   * The events of a drop: exactly the pairs (id, column of a list holding id) that
   * are new or changed; an id of no positioned panel gets none.
   */
  lemma DropEvents(previous: map<string, int>, panels: seq<Panel>)
    ensures forall c :: 0 <= c < |Positions(panels)| ==> c in ColumnsOf(panels)
    ensures forall e :: e in ChangeEvents(previous, ColumnsOf(panels), |Positions(panels)|) <==>
      0 <= e.viewColumn < |Positions(panels)| && e.id in ColumnsOf(panels)[e.viewColumn]
      && Changed(previous, e.id, e.viewColumn)
    ensures forall e :: e in ChangeEvents(previous, ColumnsOf(panels), |Positions(panels)|) ==>
      e.id in PositionedIds(panels)
  {
    var cols, k := ColumnsOf(panels), |Positions(panels)|;
    DropAssignment(panels);
    ChangeEventsSpec(previous, cols, k);
    AssignmentIsLastColumn(cols, k);
  }
}
