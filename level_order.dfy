/** The queue-based level-order walk of the `emulators` query: starting from an
    ancestor, repeatedly pop a front node that has children and append its
    children (all but the excluded branch), until the front is childless or the
    queue is empty. The reply is built from the queue it stops with, which is
    the layer of leaves when all leaves are at equal depth
    (`BfsStopsAtLeafLayer`). */
module LevelOrder {
  import opened Json
  import opened Topology

  /** `cs` with every occurrence of `ex` removed, order kept: the children the
      inner loop pushes. */
  function Excluding(cs: seq<string>, ex: string): (r: seq<string>)
    ensures forall x :: x in r <==> x in cs && x != ex
    ensures |r| <= |cs|
    decreases |cs|
  {
    if cs == [] then []
    else Excluding(cs[..|cs| - 1], ex) + (if cs[|cs| - 1] == ex then [] else [cs[|cs| - 1]])
  }

  // ---------------------------------------------------------------------------
  // Termination measure: the number of nodes in the subtrees still to visit.

  /** Number of nodes in the subtree below `n`, the node included. */
  ghost function Size(t: Obj, rank: map<string, nat>, n: string): nat
    requires WellFormed(t, rank) && IsNode(t, n)
    decreases rank[n] + 1, 0
  {
    1 + SizeSum(t, rank, Children(t, n), rank[n])
  }

  ghost function SizeSum(t: Obj, rank: map<string, nat>, cs: seq<string>, bound: nat): nat
    requires WellFormed(t, rank) && AllNodes(t, cs)
    requires forall i :: 0 <= i < |cs| ==> rank[cs[i]] < bound
    decreases bound, |cs|
  {
    if cs == [] then 0 else Size(t, rank, cs[0]) + SizeSum(t, rank, cs[1..], bound)
  }

  /** The subtree sizes of all queued nodes, added up. */
  ghost function Weight(t: Obj, rank: map<string, nat>, q: seq<string>): nat
    requires WellFormed(t, rank) && AllNodes(t, q)
    decreases |q|
  {
    if q == [] then 0 else Size(t, rank, q[0]) + Weight(t, rank, q[1..])
  }

  lemma {:induction false} SizeSumIsWeight(t: Obj, rank: map<string, nat>, cs: seq<string>, bound: nat)
    requires WellFormed(t, rank) && AllNodes(t, cs)
    requires forall i :: 0 <= i < |cs| ==> rank[cs[i]] < bound
    ensures SizeSum(t, rank, cs, bound) == Weight(t, rank, cs)
    decreases |cs|
  {
    if cs != [] {
      SizeSumIsWeight(t, rank, cs[1..], bound);
    }
  }

  lemma {:induction false} WeightConcat(t: Obj, rank: map<string, nat>, a: seq<string>, b: seq<string>)
    requires WellFormed(t, rank) && AllNodes(t, a) && AllNodes(t, b)
    ensures AllNodes(t, a + b)
    ensures Weight(t, rank, a + b) == Weight(t, rank, a) + Weight(t, rank, b)
    decreases |a|
  {
    if a != [] {
      assert (a + b)[1..] == a[1..] + b;
      WeightConcat(t, rank, a[1..], b);
    } else {
      assert a + b == b;
    }
  }

  lemma {:induction false} WeightExcluding(t: Obj, rank: map<string, nat>, cs: seq<string>, ex: string)
    requires WellFormed(t, rank) && AllNodes(t, cs)
    ensures AllNodes(t, Excluding(cs, ex))
    ensures Weight(t, rank, Excluding(cs, ex)) <= Weight(t, rank, cs)
    decreases |cs|
  {
    if cs != [] {
      var init, last := cs[..|cs| - 1], cs[|cs| - 1];
      assert cs == init + [last];
      var kept := if last == ex then [] else [last];
      WeightExcluding(t, rank, init, ex);
      WeightConcat(t, rank, Excluding(init, ex), kept);
      WeightConcat(t, rank, init, [last]);
    }
  }

  /** One round of the outer loop shrinks the measure. */
  lemma StepDecreases(t: Obj, rank: map<string, nat>, q: seq<string>, ex: string)
    requires WellFormed(t, rank) && AllNodes(t, q) && q != []
    ensures AllNodes(t, q[1..] + Excluding(Children(t, q[0]), ex))
    ensures Weight(t, rank, q[1..] + Excluding(Children(t, q[0]), ex)) < Weight(t, rank, q)
  {
    var cs := Children(t, q[0]);
    SizeSumIsWeight(t, rank, cs, rank[q[0]]);
    WeightExcluding(t, rank, cs, ex);
    WeightConcat(t, rank, q[1..], Excluding(cs, ex));
  }

  // ---------------------------------------------------------------------------
  // The walk as a function of the queue.

  /** The queue the walk stops with, started from queue `q`. */
  ghost function Bfs(t: Obj, rank: map<string, nat>, q: seq<string>, ex: string): (r: seq<string>)
    requires WellFormed(t, rank) && AllNodes(t, q)
    ensures AllNodes(t, r)
    ensures r == [] || Children(t, r[0]) == []
    ensures ex !in q ==> ex !in r
    decreases Weight(t, rank, q)
  {
    if q == [] then []
    else if Children(t, q[0]) == [] then q
    else
      StepDecreases(t, rank, q, ex);
      Bfs(t, rank, q[1..] + Excluding(Children(t, q[0]), ex), ex)
  }

  /** The next layer: the kept children of every queued node, in queue order. */
  ghost function Expand(t: Obj, rank: map<string, nat>, q: seq<string>, ex: string): (r: seq<string>)
    requires WellFormed(t, rank) && AllNodes(t, q)
    ensures AllNodes(t, r)
    decreases |q|
  {
    if q == [] then []
    else
      var rest := Expand(t, rank, q[1..], ex);
      WeightExcluding(t, rank, Children(t, q[0]), ex);
      WeightConcat(t, rank, Excluding(Children(t, q[0]), ex), rest);
      Excluding(Children(t, q[0]), ex) + rest
  }

  /** The `k`-th layer below the nodes of `q`, the excluded branch left out. */
  ghost function Layer(t: Obj, rank: map<string, nat>, q: seq<string>, ex: string, k: nat): (r: seq<string>)
    requires WellFormed(t, rank) && AllNodes(t, q)
    ensures AllNodes(t, r)
    decreases k
  {
    if k == 0 then q else Layer(t, rank, Expand(t, rank, q, ex), ex, k - 1)
  }

  ghost predicate AllInternal(t: Obj, q: seq<string>)
    requires AllNodes(t, q)
  {
    forall i :: 0 <= i < |q| ==> Children(t, q[i]) != []
  }

  ghost predicate AllLeaves(t: Obj, q: seq<string>)
    requires AllNodes(t, q)
  {
    forall i :: 0 <= i < |q| ==> Children(t, q[i]) == []
  }

  lemma ConcatAssoc<T>(a: seq<T>, b: seq<T>, c: seq<T>)
    ensures (a + b) + c == a + (b + c)
  {
  }

  lemma TailConcat<T>(q: seq<T>, r: seq<T>, k: seq<T>)
    requires q != []
    ensures (q + r)[1..] + k == q[1..] + (r + k)
  {
    assert (q + r)[1..] == q[1..] + r;
  }

  /** Nodes with children at the head of the queue are replaced by their kept
      children at the back. */
  lemma {:induction false} BfsPassesInternal(t: Obj, rank: map<string, nat>, q: seq<string>, r: seq<string>, ex: string)
    requires WellFormed(t, rank) && AllNodes(t, q) && AllNodes(t, r)
    requires AllInternal(t, q)
    ensures AllNodes(t, q + r) && AllNodes(t, r + Expand(t, rank, q, ex))
    ensures Bfs(t, rank, q + r, ex) == Bfs(t, rank, r + Expand(t, rank, q, ex), ex)
    decreases |q|
  {
    WeightConcat(t, rank, q, r);
    WeightConcat(t, rank, r, Expand(t, rank, q, ex));
    if q == [] {
      assert q + r == r + Expand(t, rank, q, ex);
    } else {
      var kept := Excluding(Children(t, q[0]), ex);
      WeightExcluding(t, rank, Children(t, q[0]), ex);
      WeightConcat(t, rank, r, kept);
      assert (q + r)[0] == q[0];
      TailConcat(q, r, kept);
      BfsPassesInternal(t, rank, q[1..], r + kept, ex);
      var later := Expand(t, rank, q[1..], ex);
      assert Expand(t, rank, q, ex) == kept + later;
      ConcatAssoc(r, kept, later);
    }
  }

  /** When every layer above depth `d` consists of nodes with children and
      layer `d` consists of leaves (all leaves at equal depth), the walk stops
      with exactly layer `d`, in level order. */
  lemma {:induction false} BfsStopsAtLeafLayer(t: Obj, rank: map<string, nat>, q: seq<string>, ex: string, d: nat)
    requires WellFormed(t, rank) && AllNodes(t, q)
    requires forall j: nat :: j < d ==> AllInternal(t, Layer(t, rank, q, ex, j))
    requires AllLeaves(t, Layer(t, rank, q, ex, d))
    ensures Bfs(t, rank, q, ex) == Layer(t, rank, q, ex, d)
    decreases d
  {
    if d > 0 {
      assert AllInternal(t, Layer(t, rank, q, ex, 0));
      BfsPassesInternal(t, rank, q, [], ex);
      assert q + [] == q;
      var next := Expand(t, rank, q, ex);
      assert [] + next == next;
      forall j: nat | j < d - 1
        ensures AllInternal(t, Layer(t, rank, next, ex, j))
      {
        assert Layer(t, rank, q, ex, j + 1) == Layer(t, rank, next, ex, j);
      }
      BfsStopsAtLeafLayer(t, rank, next, ex, d - 1);
    }
  }

  /** No node `m` parent links above `x` is the excluded node; that is, `x`
      lies outside the excluded branch. */
  ghost predicate Avoids(t: Obj, x: string, ex: string) {
    forall k: nat :: CanClimb(t, x, k) ==> Ancestor(t, x, k) != ex
  }

  /** The parent of a node outside the excluded branch is outside it too. */
  lemma ParentAvoids(t: Obj, x: string, ex: string)
    requires HasParent(t, x) && Avoids(t, x, ex)
    ensures Avoids(t, Parent(t, x), ex)
  {
    forall k: nat | CanClimb(t, Parent(t, x), k)
      ensures Ancestor(t, Parent(t, x), k) != ex
    {
      assert CanClimb(t, x, k + 1);
      assert Ancestor(t, x, k + 1) == Ancestor(t, Parent(t, x), k);
    }
  }

  /** In a consistent tree the walk never enters the excluded branch: if every
      queued node lies outside it, so does every node the walk stops with. */
  lemma {:induction false} BfsAvoidsBranch(t: Obj, rank: map<string, nat>, q: seq<string>, ex: string)
    requires WellFormed(t, rank) && Consistent(t) && AllNodes(t, q)
    requires forall i :: 0 <= i < |q| ==> Avoids(t, q[i], ex)
    ensures forall i :: 0 <= i < |Bfs(t, rank, q, ex)| ==> Avoids(t, Bfs(t, rank, q, ex)[i], ex)
    decreases Weight(t, rank, q)
  {
    if q != [] && Children(t, q[0]) != [] {
      var p := q[0];
      var cs := Children(t, p);
      var kept := Excluding(cs, ex);
      StepDecreases(t, rank, q, ex);
      var next := q[1..] + kept;
      forall i | 0 <= i < |next|
        ensures Avoids(t, next[i], ex)
      {
        if i >= |q| - 1 {
          var c := next[i];
          assert c in kept;
          assert c in cs && c != ex;
          var j :| 0 <= j < |cs| && cs[j] == c;
          assert HasParent(t, c) && Parent(t, c) == p;
          forall k: nat | CanClimb(t, c, k)
            ensures Ancestor(t, c, k) != ex
          {
            if k > 0 {
              assert Ancestor(t, c, k) == Ancestor(t, p, k - 1);
              assert Avoids(t, p, ex);
            }
          }
        } else {
          assert next[i] == q[i + 1];
        }
      }
      BfsAvoidsBranch(t, rank, next, ex);
    }
  }

  // ---------------------------------------------------------------------------
  // The loop itself.

  /** Lines 354-376 of the membership replica: the queue-based walk from
      `start`, skipping `ex`; the result is what the queue holds on exit. */
  method LeafQueue(t: Obj, start: string, ex: string, ghost rank: map<string, nat>) returns (queue: seq<string>)
    requires WellFormed(t, rank) && IsNode(t, start)
    ensures queue == Bfs(t, rank, [start], ex)
  {
    queue := [start];
    while queue != []
      invariant AllNodes(t, queue)
      invariant Bfs(t, rank, queue, ex) == Bfs(t, rank, [start], ex)
      decreases Weight(t, rank, queue)
    {
      var parent := queue[0];
      var children := ChildArray(t, parent);
      if HasStringAt(children, 0) {
        StepDecreases(t, rank, queue, ex);
        queue := PushChildren(queue[1..], children, ex, Children(t, parent));
      } else {
        break;
      }
    }
  }

  /** Lines 366-371: push every child id in array order, except `ex`. The walk
      reaches only arrays of ids, so the loop runs to the end of the array. */
  method PushChildren(queue: seq<string>, children: seq<Json>, ex: string, ghost cs: seq<string>)
    returns (q: seq<string>)
    requires |cs| == |children|
    requires forall i :: 0 <= i < |cs| ==> children[i] == JString(cs[i])
    ensures q == queue + Excluding(cs, ex)
  {
    q := queue;
    var i := 0;
    while HasStringAt(children, i)
      invariant 0 <= i <= |children|
      invariant q == queue + Excluding(cs[..i], ex)
      decreases |children| - i
    {
      assert cs[..i + 1][..i] == cs[..i];
      if children[i].s != ex {
        q := q + [children[i].s];
      }
      i := i + 1;
    }
    assert cs[..i] == cs;
  }
}
