/** Listing finite sets of integers in ascending order. */
module IntSets {

  predicate IsLeast(m: int, s: set<int>) {
    m in s && forall x | x in s :: m <= x
  }

  lemma {:induction false} FindLeast(s: set<int>) returns (m: int)
    requires s != {}
    ensures IsLeast(m, s)
  {
    assert (forall k :: k !in s) ==> s == {};
    var k :| k in s;
    var rest := s - {k};
    assert forall x | x in s :: x == k || x in rest;
    if rest == {} {
      m := k;
    } else {
      m := FindLeast(rest);
      if k < m {
        m := k;
      }
    }
  }

  lemma LeastExists(s: set<int>)
    requires s != {}
    ensures exists m :: IsLeast(m, s)
  {
    var m := FindLeast(s);
  }

  function Least(s: set<int>): (m: int)
    requires s != {}
    ensures IsLeast(m, s)
  {
    LeastExists(s);
    var m :| m in s && IsLeast(m, s);
    m
  }

  function Take(ids: set<int>, limit: nat): seq<int> {
    if limit == 0 || ids == {} then [] else [Least(ids)] + Take(ids - {Least(ids)}, limit - 1)
  }

  ghost predicate Ascending(xs: seq<int>) {
    forall i, j | 0 <= i < j < |xs| :: xs[i] < xs[j]
  }

  lemma {:induction false} TakeBatch(ids: set<int>, limit: nat)
    ensures
      var batch := Take(ids, limit);
      && Ascending(batch) && |batch| <= limit
      && (forall id | id in batch :: id in ids)
      && (forall id, x | id in ids && id !in batch && x in batch :: x < id)
      && (|batch| < limit ==> forall id | id in ids :: id in batch)
  {
    if limit > 0 && ids != {} {
      var m := Least(ids);
      var rest := Take(ids - {m}, limit - 1);
      TakeBatch(ids - {m}, limit - 1);
      assert Take(ids, limit) == [m] + rest;
      forall i | 0 <= i < |rest| ensures m < rest[i] {
        assert rest[i] in rest && rest[i] in ids - {m};
      }
    }
  }

  /** A limit no smaller than the set takes all of it. */
  lemma {:induction false} TakeAll(ids: set<int>, limit: nat)
    requires |ids| <= limit
    ensures forall id :: id in Take(ids, limit) <==> id in ids
  {
    if ids != {} {
      var m := Least(ids);
      assert |ids - {m}| == |ids| - 1;
      TakeAll(ids - {m}, limit - 1);
    }
  }
}
