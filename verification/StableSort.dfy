/** The stable sort of a list by a total preorder. */
module StableSort {
  ghost predicate TotalPreorder<T(!new)>(le: (T, T) -> bool) {
    && (forall a, b :: le(a, b) || le(b, a))
    && (forall a, b, c | le(a, b) && le(b, c) :: le(a, c))
  }

  // Insert after every element that is not strictly above x.
  function Insert<T>(sorted: seq<T>, x: T, le: (T, T) -> bool): seq<T> {
    if sorted == [] then [x]
    else if le(sorted[|sorted| - 1], x) then sorted + [x]
    else Insert(sorted[..|sorted| - 1], x, le) + [sorted[|sorted| - 1]]
  }

  function Sort<T>(items: seq<T>, le: (T, T) -> bool): seq<T> {
    if items == [] then [] else Insert(Sort(items[..|items| - 1], le), items[|items| - 1], le)
  }

  ghost predicate Nondecreasing<T>(items: seq<T>, le: (T, T) -> bool) {
    forall i, j | 0 <= i < j < |items| :: le(items[i], items[j])
  }

  lemma Append<T>(front: seq<T>, last: T, le: (T, T) -> bool)
    requires Nondecreasing(front, le) && forall i | 0 <= i < |front| :: le(front[i], last)
    ensures Nondecreasing(front + [last], le)
  {
  }

  lemma InFront<T>(sorted: seq<T>, x: T, le: (T, T) -> bool)
    requires Nondecreasing(sorted, le) && sorted != []
    ensures x in multiset(sorted[..|sorted| - 1]) ==> le(x, sorted[|sorted| - 1])
  {
    var front := sorted[..|sorted| - 1];
    if x in front {
      var j :| 0 <= j < |front| && front[j] == x;
      assert sorted[j] == x;
    }
  }

  lemma BelowLast<T(!new)>(sorted: seq<T>, x: T, le: (T, T) -> bool)
    requires TotalPreorder(le) && Nondecreasing(sorted, le) && sorted != [] && le(sorted[|sorted| - 1], x)
    ensures forall i | 0 <= i < |sorted| :: le(sorted[i], x)
  {
  }

  lemma {:induction false} InsertSorts<T(!new)>(sorted: seq<T>, x: T, le: (T, T) -> bool)
    requires TotalPreorder(le) && Nondecreasing(sorted, le)
    ensures Nondecreasing(Insert(sorted, x, le), le)
    ensures multiset(Insert(sorted, x, le)) == multiset(sorted) + multiset{x}
    decreases |sorted|
  {
    if sorted != [] {
      var last, front := sorted[|sorted| - 1], sorted[..|sorted| - 1];
      assert sorted == front + [last];
      if le(last, x) {
        BelowLast(sorted, x, le);
        Append(sorted, x, le);
      } else {
        assert le(x, last) && Nondecreasing(front, le);
        hide TotalPreorder, Nondecreasing;
        InsertSorts(front, x, le);
        var inner := Insert(front, x, le);
        hide Insert;
        forall i | 0 <= i < |inner| ensures le(inner[i], last) {
          assert inner[i] in multiset(inner);
          InFront(sorted, inner[i], le);
        }
        Append(inner, last, le);
      }
    }
  }

  /** Sorting gives a nondecreasing permutation. */
  lemma {:induction false} SortSorts<T(!new)>(items: seq<T>, le: (T, T) -> bool)
    requires TotalPreorder(le)
    ensures Nondecreasing(Sort(items, le), le) && multiset(Sort(items, le)) == multiset(items)
    decreases |items|
  {
    if items != [] {
      var last, front := items[|items| - 1], items[..|items| - 1];
      assert items == front + [last];
      SortSorts(front, le);
      InsertSorts(Sort(front, le), last, le);
    }
  }

  // The elements that stand level with x, in their order.
  function Level<T>(items: seq<T>, x: T, le: (T, T) -> bool): seq<T> {
    if items == [] then []
    else
      var last := items[|items| - 1];
      Level(items[..|items| - 1], x, le) + if le(last, x) && le(x, last) then [last] else []
  }

  lemma LevelConcat<T>(a: seq<T>, last: T, x: T, le: (T, T) -> bool)
    ensures Level(a + [last], x, le) == Level(a, x, le) + if le(last, x) && le(x, last) then [last] else []
  {
    assert (a + [last])[..|a|] == a;
  }

  lemma {:induction false} InsertStable<T(!new)>(sorted: seq<T>, y: T, x: T, le: (T, T) -> bool)
    requires TotalPreorder(le)
    ensures Level(Insert(sorted, y, le), x, le) == Level(sorted, x, le) + if le(y, x) && le(x, y) then [y] else []
    decreases |sorted|
  {
    if sorted == [] {
      LevelConcat([], y, x, le);
      assert [] + [y] == [y];
    } else {
      var last, front := sorted[|sorted| - 1], sorted[..|sorted| - 1];
      if le(last, y) {
        LevelConcat(sorted, y, x, le);
      } else {
        InsertStable(front, y, x, le);
        LevelConcat(Insert(front, y, le), last, x, le);
      }
    }
  }

  /** Elements that the preorder does not tell apart keep their order. */
  lemma {:induction false} SortStable<T(!new)>(items: seq<T>, x: T, le: (T, T) -> bool)
    requires TotalPreorder(le)
    ensures Level(Sort(items, le), x, le) == Level(items, x, le)
    decreases |items|
  {
    if items != [] {
      SortStable(items[..|items| - 1], x, le);
      InsertStable(Sort(items[..|items| - 1], le), items[|items| - 1], x, le);
    }
  }
}
