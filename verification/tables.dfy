/**
 * Tables keyed by integer id, and their rows listed in ascending id order:
 * the order in which the list handlers return them.
 */
module Tables {

  predicate IsMinimum(m: int, s: set<int>) {
    m in s && forall x :: x in s ==> m <= x
  }

  lemma EmptyWithoutElements(s: set<int>)
    ensures (forall x :: x !in s) ==> s == {}
  {
    if forall x :: x !in s {
      assert s <= {};
    }
  }

  /** Every non-empty finite set of integers has a least element. */
  lemma {:induction false} MinimumExists(s: set<int>)
    requires s != {}
    ensures exists m :: IsMinimum(m, s)
    decreases |s|
  {
    EmptyWithoutElements(s);
    var x :| x in s;
    if s == {x} {
      assert IsMinimum(x, s);
    } else {
      var rest := s - {x};
      assert rest != {};
      MinimumExists(rest);
      var m :| IsMinimum(m, rest);
      assert forall y :: y in s ==> y == x || y in rest;
      if x < m {
        assert IsMinimum(x, s);
      } else {
        assert IsMinimum(m, s);
      }
    }
  }

  /** The least element of a non-empty set. */
  function Min(s: set<int>): (m: int)
    requires s != {}
    ensures IsMinimum(m, s)
  {
    MinimumExists(s);
    var m :| IsMinimum(m, s); m
  }

  predicate StrictlyIncreasing(r: seq<int>) {
    forall i, j :: 0 <= i < j < |r| ==> r[i] < r[j]
  }

  /** The elements of `s` in ascending order, each once. */
  function Sorted(s: set<int>): (r: seq<int>)
    ensures StrictlyIncreasing(r)
    ensures |r| == |s|
    ensures forall k :: k in r <==> k in s
    decreases |s|
  {
    if s == {} then []
    else
      var m := Min(s);
      [m] + Sorted(s - {m})
  }

  /** Every row of `m` is the image of one of the keys `ks` lists. */
  lemma RowsCovered<V>(m: map<int, V>, ks: seq<int>, r: seq<V>)
    requires forall k :: k in ks <==> k in m
    requires |r| == |ks| && forall i :: 0 <= i < |ks| ==> ks[i] in m && r[i] == m[ks[i]]
    ensures forall k :: k in m ==> m[k] in r
  {
    forall k | k in m
      ensures m[k] in r
    {
      var i :| 0 <= i < |ks| && ks[i] == k;
      assert r[i] == m[k];
    }
  }

  /** The rows of a table in ascending key order: every row once. */
  function Rows<V>(m: map<int, V>): (r: seq<V>)
    ensures |r| == |m|
    ensures forall i :: 0 <= i < |r| ==> Sorted(m.Keys)[i] in m && r[i] == m[Sorted(m.Keys)[i]]
    ensures forall k :: k in m ==> m[k] in r
  {
    var ks := Sorted(m.Keys);
    assert |m.Keys| == |m|;
    var r := seq(|ks|, i requires 0 <= i < |ks| => m[ks[i]]);
    RowsCovered(m, ks, r);
    r
  }
}
