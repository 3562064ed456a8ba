/**
 * The ordered traversal of a dictionary keyed by position that the writer performs with
 * Where(kv => kv.Key >= index).OrderBy(kv => kv.Key): the keys from a position on, ascending.
 */
module OrderedKeys {

  /** The keys of m from index on. */
  function KeysFrom<V>(m: map<int, V>, index: int): set<int>
  {
    set k | k in m && k >= index
  }

  /** k is the smallest of keys. */
  predicate IsLeast(k: int, keys: set<int>)
  {
    k in keys && forall j :: j in keys ==> k <= j
  }

  /** Some element of a non-empty set. */
  lemma Pick<T>(s: set<T>) returns (x: T)
    requires s != {}
    ensures x in s
  {
    x :| x in s;
  }

  lemma {:induction false} MinKeyExists(keys: set<int>)
    requires keys != {}
    ensures exists k :: IsLeast(k, keys)
    decreases |keys|
  {
    var x := Pick(keys);
    var others := keys - {x};
    if others == {} {
      assert IsLeast(x, keys) by {
        forall j | j in keys
          ensures x <= j
        {
          assert j !in others;
        }
      }
    } else {
      MinKeyExists(others);
      var m :| IsLeast(m, others);
      var least := if m < x then m else x;
      assert IsLeast(least, keys) by {
        forall j | j in keys
          ensures least <= j
        {
          if j != x {
            assert j in others;
          }
        }
      }
    }
  }

  /** The smallest of a non-empty set of keys. */
  function MinKey(keys: set<int>): (k: int)
    requires keys != {}
    ensures IsLeast(k, keys)
  {
    MinKeyExists(keys);
    var k :| IsLeast(k, keys);
    k
  }

  /** The keys of m from index on, in the order OrderBy yields them. */
  function RestKeys<V>(m: map<int, V>, index: int): (r: seq<int>)
    ensures forall i :: 0 <= i < |r| ==> r[i] in m && r[i] >= index
    decreases |KeysFrom(m, index)|
  {
    var keys := KeysFrom(m, index);
    if keys == {} then []
    else
      var k := MinKey(keys);
      assert KeysFrom(m, k + 1) == keys - {k};
      [k] + RestKeys(m, k + 1)
  }

  /** RestKeys holds every key from index on, and nothing else. */
  lemma {:induction false} RestKeysMembers<V>(m: map<int, V>, index: int)
    ensures forall k :: k in RestKeys(m, index) <==> k in m && k >= index
    decreases |KeysFrom(m, index)|
  {
    var keys := KeysFrom(m, index);
    if keys == {} {
      assert forall j :: j in m && j >= index ==> j in keys;
    } else {
      var k := MinKey(keys);
      assert KeysFrom(m, k + 1) == keys - {k};
      assert RestKeys(m, index) == [k] + RestKeys(m, k + 1);
      RestKeysMembers(m, k + 1);
      forall j | j in m && j >= index
        ensures j in RestKeys(m, index)
      {
        if j != k {
          assert j in keys;
        }
      }
    }
  }

  /** RestKeys yields its keys in strictly ascending order. */
  lemma {:induction false} RestKeysAscending<V>(m: map<int, V>, index: int)
    ensures forall i, j :: 0 <= i < j < |RestKeys(m, index)| ==> RestKeys(m, index)[i] < RestKeys(m, index)[j]
    decreases |KeysFrom(m, index)|
  {
    var keys := KeysFrom(m, index);
    if keys != {} {
      var k := MinKey(keys);
      assert KeysFrom(m, k + 1) == keys - {k};
      RestKeysAscending(m, k + 1);
      var t := RestKeys(m, k + 1);
      var r := RestKeys(m, index);
      assert r == [k] + t;
      forall a, b | 0 <= a < b < |r|
        ensures r[a] < r[b]
      {
        assert r[b] == t[b - 1];
        if a > 0 {
          assert r[a] == t[a - 1];
        }
      }
    }
  }

  /** On a position that holds a key, the remaining keys start with it. */
  lemma RestKeysAt<V>(m: map<int, V>, index: int)
    requires index in m
    ensures RestKeys(m, index) == [index] + RestKeys(m, index + 1)
  {
    assert index in KeysFrom(m, index);
    assert MinKey(KeysFrom(m, index)) == index;
    assert KeysFrom(m, index + 1) == KeysFrom(m, index) - {index};
  }

  /** On a free position, the remaining keys are those from the next position. */
  lemma RestKeysSkip<V>(m: map<int, V>, index: int)
    requires index !in m
    ensures RestKeys(m, index) == RestKeys(m, index + 1)
  {
    assert KeysFrom(m, index) == KeysFrom(m, index + 1);
  }

  /** Two maps agree from a position on. */
  ghost predicate AgreeFrom<V>(m1: map<int, V>, m2: map<int, V>, index: int)
  {
    forall k :: k >= index ==> (k in m1 <==> k in m2) && (k in m1 ==> m1[k] == m2[k])
  }

  /** The traversal from index only looks at the keys from index on. */
  lemma {:induction false} RestKeysAgree<V>(m1: map<int, V>, m2: map<int, V>, index: int)
    requires AgreeFrom(m1, m2, index)
    ensures RestKeys(m1, index) == RestKeys(m2, index)
    decreases |KeysFrom(m1, index)|
  {
    assert KeysFrom(m1, index) == KeysFrom(m2, index);
    if KeysFrom(m1, index) != {} {
      var k := MinKey(KeysFrom(m1, index));
      assert KeysFrom(m1, k + 1) == KeysFrom(m1, index) - {k};
      RestKeysAgree(m1, m2, k + 1);
    }
  }
}
