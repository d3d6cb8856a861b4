/**
 * The relational table's listing order. A JPA `findAll` without ORDER BY has no
 * promised order; the model lists rows by ascending primary key.
 */
module Table {

  /** The smallest key of a non-empty finite set. */
  function Least(keys: set<int>): (m: int)
    requires keys != {}
    ensures m in keys && forall k :: k in keys ==> m <= k
  {
    LeastExists(keys);
    var m :| m in keys && forall k :: k in keys ==> m <= k;
    m
  }

  lemma {:induction false} LeastExists(keys: set<int>)
    requires keys != {}
    ensures exists m :: m in keys && forall k :: k in keys ==> m <= k
    decreases |keys|
  {
    if forall k :: k !in keys {
      assert false;
    }
    var x :| x in keys;
    var rest := keys - {x};
    if rest == {} {
      assert forall k :: k in keys ==> k == x || k in rest;
    } else {
      LeastExists(rest);
      var m :| m in rest && forall k :: k in rest ==> m <= k;
      var least := if x < m then x else m;
      forall k | k in keys ensures least <= k {
        if k != x { assert k in rest; }
      }
      assert least in keys;
    }
  }

  /** The keys in strictly ascending order, each exactly once. */
  function SortedKeys(keys: set<int>): (r: seq<int>)
    ensures |r| == |keys|
    ensures forall k :: k in keys <==> k in r
    ensures forall i, j :: 0 <= i < j < |r| ==> r[i] < r[j]
    decreases |keys|
  {
    if keys == {} then []
    else
      var m := Least(keys);
      var rest := SortedKeys(keys - {m});
      assert forall i :: 0 <= i < |rest| ==> m < rest[i];
      PrependSorted(m, rest);
      [m] + rest
  }

  lemma PrependSorted(m: int, rest: seq<int>)
    requires forall i :: 0 <= i < |rest| ==> m < rest[i]
    requires forall i, j :: 0 <= i < j < |rest| ==> rest[i] < rest[j]
    ensures forall i, j :: 0 <= i < j < |[m] + rest| ==> ([m] + rest)[i] < ([m] + rest)[j]
  {
  }

  /** Every entry of a map, by ascending key. */
  function Listing<V(==,!new)>(m: map<int, V>): (r: seq<V>)
    ensures |r| == |m|
    ensures forall v :: v in r <==> v in m.Values
  {
    var keys := SortedKeys(m.Keys);
    var r := seq(|keys|, i requires 0 <= i < |keys| => m[keys[i]]);
    assert forall v :: v in m.Values ==> v in r by {
      forall v | v in m.Values ensures v in r {
        var k :| k in m && m[k] == v;
        var i :| 0 <= i < |keys| && keys[i] == k;
        assert r[i] == v;
      }
    }
    assert |m.Keys| == |m|;
    r
  }

  /** The entries of `rs` that `matches(spec, _)` accepts, in their order. */
  function Select<S, V(==,!new)>(rs: seq<V>, matches: (S, V) -> bool, spec: S): (r: seq<V>)
    ensures |r| <= |rs|
    ensures forall v :: v in r <==> v in rs && matches(spec, v)
  {
    if rs == [] then []
    else (if matches(spec, rs[0]) then [rs[0]] else []) + Select(rs[1..], matches, spec)
  }
}
