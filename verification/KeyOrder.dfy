/** Sets of keys listed in a strict total order, as serializers and ordered maps visit them. */
module KeyOrder {
  ghost predicate StrictTotal(lt: (string, string) -> bool) {
    && (forall a :: !lt(a, a))
    && (forall a, b | a != b :: lt(a, b) <==> !lt(b, a))
    && (forall a, b, c | lt(a, b) && lt(b, c) :: lt(a, c))
  }

  /** The members of `keys`, each once and ascending. */
  ghost predicate Lists(list: seq<string>, keys: set<string>, lt: (string, string) -> bool) {
    && (forall i, j | 0 <= i < j < |list| :: lt(list[i], list[j]))
    && forall x :: x in list <==> x in keys
  }

  function Insert(list: seq<string>, key: string, lt: (string, string) -> bool): seq<string> {
    if list == [] || lt(key, list[0]) then [key] + list else [list[0]] + Insert(list[1..], key, lt)
  }

  lemma TailLists(list: seq<string>, keys: set<string>, lt: (string, string) -> bool)
    requires StrictTotal(lt) && Lists(list, keys, lt) && list != []
    ensures Lists(list[1..], keys - {list[0]}, lt)
  {
    forall x ensures x in list[1..] <==> x in keys - {list[0]} {
      if x in list && x != list[0] {
        var i :| 0 <= i < |list| && list[i] == x;
        assert list[1..][i - 1] == x;
      }
    }
  }

  lemma {:induction false} InsertLists(list: seq<string>, keys: set<string>, key: string, lt: (string, string) -> bool)
    requires StrictTotal(lt) && Lists(list, keys, lt) && key !in keys
    ensures Lists(Insert(list, key, lt), keys + {key}, lt)
    decreases |list|
  {
    if list != [] {
      var head, tail := list[0], list[1..];
      if !lt(key, head) {
        TailLists(list, keys, lt);
        InsertLists(tail, keys - {head}, key, lt);
        var more := Insert(tail, key, lt);
        forall j | 0 <= j < |more| ensures lt(head, more[j]) {
          assert more[j] in keys - {head} + {key};
          if more[j] != key { assert more[j] in tail; }
        }
      }
    }
  }

  /** A set of keys has one ascending list. */
  lemma {:induction false} ListUnique(a: seq<string>, b: seq<string>, keys: set<string>, lt: (string, string) -> bool)
    requires StrictTotal(lt) && Lists(a, keys, lt) && Lists(b, keys, lt)
    ensures a == b
    decreases |a|
  {
    assert forall x :: x in a <==> x in b;
    assert |b| > 0 ==> b[0] in b;
    if a != [] {
      assert a[0] in b && (b != [] ==> b[0] in a);
      TailLists(a, keys, lt);
      TailLists(b, keys, lt);
      ListUnique(a[1..], b[1..], keys - {a[0]}, lt);
      assert a == [a[0]] + a[1..] && b == [b[0]] + b[1..];
    }
  }

  lemma {:induction false} ListExists(keys: set<string>, lt: (string, string) -> bool) returns (list: seq<string>)
    requires StrictTotal(lt)
    ensures Lists(list, keys, lt)
    decreases |keys|
  {
    if keys == {} {
      list := [];
    } else {
      var k :| k in keys;
      var rest := ListExists(keys - {k}, lt);
      InsertLists(rest, keys - {k}, k, lt);
      list := Insert(rest, k, lt);
      assert keys - {k} + {k} == keys;
    }
  }

  ghost function Listed(keys: set<string>, lt: (string, string) -> bool): (list: seq<string>)
    requires StrictTotal(lt)
    ensures Lists(list, keys, lt)
  {
    assert exists l :: Lists(l, keys, lt) by { var l := ListExists(keys, lt); }
    var l :| Lists(l, keys, lt);
    l
  }

  // Take the keys in any order and insert each where it belongs.
  method ListKeys(keys: set<string>, lt: (string, string) -> bool) returns (list: seq<string>)
    requires StrictTotal(lt)
    ensures list == Listed(keys, lt)
  {
    hide Lists, StrictTotal;
    list := [];
    var rest := keys;
    NothingListed(lt);
    assert keys - rest == {};
    while rest != {}
      invariant rest <= keys && Lists(list, keys - rest, lt)
    {
      var k :| k in rest;
      InsertLists(list, keys - rest, k, lt);
      assert keys - (rest - {k}) == keys - rest + {k};
      list := Insert(list, k, lt);
      rest := rest - {k};
    }
    assert keys - rest == keys;
    ListUnique(list, Listed(keys, lt), keys, lt);
  }

  lemma NothingListed(lt: (string, string) -> bool)
    ensures Lists([], {}, lt)
  {
  }
}
