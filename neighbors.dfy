/**
 * Nearest-node lookup and the near-set filter, both built on the list of
 * squared distances from every node of the arena to a query point.
 */
module Neighbors {
  import opened Geometry
  import opened Arena

  /** Squared distance from a node to a point, node coordinate first. */
  function SqDist(n: Node, p: Point): real {
    Sq(n.x - p.x) + Sq(n.y - p.y)
  }

  /** The distance list both comprehensions build, one entry per node. */
  function SqDistances(nodes: seq<Node>, p: Point): (dl: seq<real>)
    ensures |dl| == |nodes|
    ensures forall k :: 0 <= k < |nodes| ==> dl[k] == SqDist(nodes[k], p)
  {
    seq(|nodes|, k requires 0 <= k < |nodes| => SqDist(nodes[k], p))
  }

  /** Python's min on a non-empty list of numbers. */
  function Min(xs: seq<real>): (m: real)
    requires 0 < |xs|
    ensures m in xs
    ensures forall k :: 0 <= k < |xs| ==> m <= xs[k]
  {
    if |xs| == 1 then xs[0]
    else var t := Min(xs[1..]); if t < xs[0] then t else xs[0]
  }

  /** Python's list.index: the first position holding v. */
  function IndexOf<T(==)>(xs: seq<T>, v: T): (k: nat)
    requires v in xs
    ensures k < |xs| && xs[k] == v
    ensures forall j :: 0 <= j < k ==> xs[j] != v
  {
    if xs[0] == v then 0 else 1 + IndexOf(xs[1..], v)
  }

  /**
   * get_nearest_list_index: an in-range index whose squared distance to rnd is
   * at most every other node's, and the smallest such index.
   */
  function GetNearestListIndex(nodes: seq<Node>, rnd: Point): (minIndex: nat)
    requires 0 < |nodes|
    ensures minIndex < |nodes|
  {
    var dList := SqDistances(nodes, rnd);
    IndexOf(dList, Min(dList))
  }

  lemma NearestIsClosest(nodes: seq<Node>, rnd: Point)
    requires 0 < |nodes|
    ensures var minIndex := GetNearestListIndex(nodes, rnd);
      && (forall j :: 0 <= j < |nodes| ==> SqDist(nodes[minIndex], rnd) <= SqDist(nodes[j], rnd))
      && (forall j :: 0 <= j < minIndex ==> SqDist(nodes[minIndex], rnd) < SqDist(nodes[j], rnd))
  {
  }

  /** The dynamic near radius 50 * sqrt(ln n / n). */
  function NearRadius(m: MathLib, n: nat): real
    requires 0 < n
  {
    50.0 * Sqrt(m, Log(m, n as real) / (n as real))
  }

  /** The positions among the first `upto` whose squared distance is at most r2. */
  ghost function Within(dl: seq<real>, r2: real, upto: nat): set<nat>
    requires upto <= |dl|
  {
    set j: nat | j < upto && dl[j] <= r2
  }

  /**
   * The comprehension `[dl.index(v) for v in dl[..upto] if v <= r2]`: one entry per
   * distance within r2, each entry the first position holding that distance.
   */
  function NearFilter(dl: seq<real>, r2: real, upto: nat): (inds: seq<nat>)
    requires upto <= |dl|
  {
    if upto == 0 then []
    else
      var v := dl[upto - 1];
      var rest := NearFilter(dl, r2, upto - 1);
      if v <= r2 then rest + [IndexOf(dl, v)] else rest
  }

  /**
   * Every entry of the filter is an in-range position within r2, and the first
   * position holding its distance.
   */
  lemma {:induction false} NearFilterSound(dl: seq<real>, r2: real, upto: nat)
    requires upto <= |dl|
    ensures forall e :: 0 <= e < |NearFilter(dl, r2, upto)| ==>
      NearFilter(dl, r2, upto)[e] < upto && dl[NearFilter(dl, r2, upto)[e]] <= r2
    ensures forall e, j :: 0 <= e < |NearFilter(dl, r2, upto)| && 0 <= j < NearFilter(dl, r2, upto)[e] ==>
      dl[j] != dl[NearFilter(dl, r2, upto)[e]]
  {
    if 0 < upto {
      NearFilterSound(dl, r2, upto - 1);
      var v := dl[upto - 1];
      if v <= r2 {
        var rest := NearFilter(dl, r2, upto - 1);
        var k := IndexOf(dl, v);
        assert k <= upto - 1;
        var inds := NearFilter(dl, r2, upto);
        assert inds == rest + [k];
        forall e | 0 <= e < |inds|
          ensures inds[e] < upto && dl[inds[e]] <= r2
          ensures forall j :: 0 <= j < inds[e] ==> dl[j] != dl[inds[e]]
        {
          if e < |rest| {
            assert inds[e] == rest[e];
          } else {
            assert inds[e] == k;
          }
        }
      }
    }
  }

  /** Every position within r2 is represented by an entry at or before it with the same distance. */
  lemma {:induction false} NearFilterComplete(dl: seq<real>, r2: real, upto: nat, j: nat)
    requires j < upto <= |dl| && dl[j] <= r2
    ensures exists e ::
      0 <= e < |NearFilter(dl, r2, upto)| && NearFilter(dl, r2, upto)[e] <= j && dl[NearFilter(dl, r2, upto)[e]] == dl[j]
  {
    var inds := NearFilter(dl, r2, upto);
    var rest := NearFilter(dl, r2, upto - 1);
    var v := dl[upto - 1];
    if j == upto - 1 {
      var k := IndexOf(dl, v);
      assert inds == rest + [k];
      assert inds[|rest|] == k;
    } else {
      NearFilterComplete(dl, r2, upto - 1, j);
      var e :| 0 <= e < |rest| && rest[e] <= j && dl[rest[e]] == dl[j];
      if v <= r2 {
        assert inds == rest + [IndexOf(dl, v)];
      }
      assert e < |inds| && inds[e] == rest[e];
    }
  }

  /** The filter keeps one entry per distance within r2: duplicates are not collapsed. */
  lemma {:induction false} NearFilterCount(dl: seq<real>, r2: real, upto: nat)
    requires upto <= |dl|
    ensures |NearFilter(dl, r2, upto)| == |Within(dl, r2, upto)|
  {
    if 0 < upto {
      NearFilterCount(dl, r2, upto - 1);
      WithinStep(dl, r2, upto);
    }
  }

  lemma WithinStep(dl: seq<real>, r2: real, upto: nat)
    requires 0 < upto <= |dl|
    ensures dl[upto - 1] <= r2 ==> Within(dl, r2, upto) == Within(dl, r2, upto - 1) + {upto - 1}
    ensures dl[upto - 1] <= r2 ==> upto - 1 !in Within(dl, r2, upto - 1)
    ensures !(dl[upto - 1] <= r2) ==> Within(dl, r2, upto) == Within(dl, r2, upto - 1)
  {
  }

  /**
   * find_near_nodes: the indices of nodes within the near radius of newNode,
   * the radius computed from the arena size before the new node is added.
   * A node whose distance equals an earlier node's is reported by that
   * earlier index, so the result may hold duplicates.
   */
  function FindNearNodes(m: MathLib, nodes: seq<Node>, newNode: Node): (nearInds: seq<nat>)
    requires 0 < |nodes|
    ensures forall e :: 0 <= e < |nearInds| ==> nearInds[e] < |nodes|
  {
    var r := NearRadius(m, |nodes|);
    var dlist := SqDistances(nodes, Pos(newNode));
    NearFilterSound(dlist, Sq(r), |dlist|);
    NearFilter(dlist, Sq(r), |dlist|)
  }

  /**
   * The near set: every entry is a node within the near radius; every node
   * within the radius is represented by an entry at or before it with the
   * same distance; and there is one entry per node within the radius.
   */
  lemma FindNearNodesMeaning(m: MathLib, nodes: seq<Node>, newNode: Node)
    requires 0 < |nodes|
    ensures var nearInds := FindNearNodes(m, nodes, newNode);
      && (forall e :: 0 <= e < |nearInds| ==>
            nearInds[e] < |nodes| && SqDist(nodes[nearInds[e]], Pos(newNode)) <= Sq(NearRadius(m, |nodes|)))
      && (forall j :: 0 <= j < |nodes| && SqDist(nodes[j], Pos(newNode)) <= Sq(NearRadius(m, |nodes|)) ==>
            exists e :: 0 <= e < |nearInds| && SqDist(nodes[nearInds[e]], Pos(newNode)) == SqDist(nodes[j], Pos(newNode))
              && nearInds[e] <= j)
      && |nearInds| == |Within(SqDistances(nodes, Pos(newNode)), Sq(NearRadius(m, |nodes|)), |nodes|)|
  {
    var r := NearRadius(m, |nodes|);
    var dlist := SqDistances(nodes, Pos(newNode));
    var inds := NearFilter(dlist, Sq(r), |dlist|);
    NearFilterSound(dlist, Sq(r), |dlist|);
    NearFilterCount(dlist, Sq(r), |dlist|);
    forall j | 0 <= j < |nodes| && dlist[j] <= Sq(r)
      ensures exists e :: 0 <= e < |inds| && dlist[inds[e]] == dlist[j] && inds[e] <= j
    {
      NearFilterComplete(dlist, Sq(r), |dlist|, j);
    }
  }

  /** The first position holding a value is the only one with no earlier equal entry. */
  lemma IndexOfUnique(xs: seq<real>, p: nat)
    requires p < |xs| && forall j :: 0 <= j < p ==> xs[j] != xs[p]
    ensures IndexOf(xs, xs[p]) == p
  {
  }

  /**
   * Two positions i < j within r2 holding the same distance give two entries
   * of the filter, both equal to the first position holding that distance.
   */
  lemma {:induction false} NearFilterRepeats(dl: seq<real>, r2: real, upto: nat, i: nat, j: nat)
    requires i < j < upto <= |dl| && dl[i] == dl[j] <= r2
    ensures exists e1, e2 ::
      && 0 <= e1 < e2 < |NearFilter(dl, r2, upto)|
      && NearFilter(dl, r2, upto)[e1] == IndexOf(dl, dl[i])
      && NearFilter(dl, r2, upto)[e2] == IndexOf(dl, dl[i])
  {
    var inds := NearFilter(dl, r2, upto);
    var rest := NearFilter(dl, r2, upto - 1);
    if j == upto - 1 {
      assert inds == rest + [IndexOf(dl, dl[j])];
      NearFilterComplete(dl, r2, upto - 1, i);
      NearFilterSound(dl, r2, upto - 1);
      var e :| 0 <= e < |rest| && rest[e] <= i && dl[rest[e]] == dl[i];
      IndexOfUnique(dl, rest[e]);
      assert inds[e] == rest[e] && inds[|rest|] == IndexOf(dl, dl[i]);
    } else {
      NearFilterRepeats(dl, r2, upto - 1, i, j);
      var e1, e2 :| 0 <= e1 < e2 < |rest| && rest[e1] == IndexOf(dl, dl[i]) && rest[e2] == IndexOf(dl, dl[i]);
      if dl[upto - 1] <= r2 {
        assert inds == rest + [IndexOf(dl, dl[upto - 1])];
      }
      assert inds[e1] == rest[e1] && inds[e2] == rest[e2];
    }
  }

  /**
   * Two nodes i < j within the near radius at the same distance from newNode
   * are both reported by one index at or before i, reported twice, and node j
   * itself is never reported.
   */
  lemma NearNodesMayRepeat(m: MathLib, nodes: seq<Node>, newNode: Node, i: nat, j: nat)
    requires i < j < |nodes|
    requires SqDist(nodes[i], Pos(newNode)) == SqDist(nodes[j], Pos(newNode)) <= Sq(NearRadius(m, |nodes|))
    ensures var nearInds := FindNearNodes(m, nodes, newNode);
      && (exists e1, e2 :: 0 <= e1 < e2 < |nearInds| && nearInds[e1] == nearInds[e2] && nearInds[e1] <= i)
      && j !in nearInds
  {
    var dl := SqDistances(nodes, Pos(newNode));
    var r2 := Sq(NearRadius(m, |nodes|));
    var nearInds := NearFilter(dl, r2, |dl|);
    assert nearInds == FindNearNodes(m, nodes, newNode);
    assert dl[i] == dl[j] <= r2;
    NearFilterRepeats(dl, r2, |dl|, i, j);
    var e1, e2 :| 0 <= e1 < e2 < |nearInds| && nearInds[e1] == IndexOf(dl, dl[i]) && nearInds[e2] == IndexOf(dl, dl[i]);
    assert nearInds[e1] == nearInds[e2] && nearInds[e1] <= i;
    NearFilterSound(dl, r2, |dl|);
    assert forall e :: 0 <= e < |nearInds| ==> nearInds[e] != j;
  }
}
