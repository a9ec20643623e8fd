/** The `configuration` document read as a tree. Each node id maps to an
    object `{parent: id, children: [id, ...]}` (the root has no parent); the
    document also holds `max_height`. The replica reads it through
    `topology.get<Object>(n).get<string>("parent")` and
    `topology.get<Object>(n).get<Array>("children")`. */
module Topology {
  import opened Json

  /** A node entry whose `children` array holds only ids. */
  predicate IsNode(t: Obj, n: string) {
    && HasObject(t, n)
    && HasArray(t[n].fields, "children")
    && forall i :: 0 <= i < |t[n].fields["children"].items| ==> t[n].fields["children"].items[i].JString?
  }

  /** The node's `children` array as stored. */
  function ChildArray(t: Obj, n: string): seq<Json>
    requires IsNode(t, n)
  {
    t[n].fields["children"].items
  }

  /** The ids in the node's `children` array, in array order. */
  function Children(t: Obj, n: string): (cs: seq<string>)
    requires IsNode(t, n)
    ensures |cs| == |ChildArray(t, n)|
    ensures forall i :: 0 <= i < |cs| ==> ChildArray(t, n)[i] == JString(cs[i])
  {
    seq(|ChildArray(t, n)|, i requires 0 <= i < |ChildArray(t, n)| => ChildArray(t, n)[i].s)
  }

  /** The node entry names its parent. */
  predicate HasParent(t: Obj, n: string) {
    HasObject(t, n) && HasString(t[n].fields, "parent")
  }

  function Parent(t: Obj, n: string): string
    requires HasParent(t, n)
  {
    t[n].fields["parent"].s
  }

  predicate AllNodes(t: Obj, q: seq<string>) {
    forall i :: 0 <= i < |q| ==> IsNode(t, q[i])
  }

  /** Every child a node lists is itself a node, of smaller rank. A ranking
      exists exactly when the children relation has no cycle, so this says the
      children relation is acyclic (a node may still be listed by two
      parents); the node's height (its distance to the leaves) is one such
      ranking. */
  ghost predicate WellFormed(t: Obj, rank: map<string, nat>) {
    forall n :: IsNode(t, n) ==> Ranked(t, rank, n)
  }

  /** The node and its children are ranked, each child below the node. */
  ghost predicate Ranked(t: Obj, rank: map<string, nat>, n: string)
    requires IsNode(t, n)
  {
    && n in rank
    && forall i :: 0 <= i < |Children(t, n)| ==>
         IsNode(t, Children(t, n)[i]) && Children(t, n)[i] in rank && rank[Children(t, n)[i]] < rank[n]
  }

  /** Parent and children links agree: a listed child names the node as its
      parent, and a node's parent is a node that lists it. With `WellFormed`
      this makes the document a forest, since each node has one parent. */
  ghost predicate Consistent(t: Obj) {
    && (forall n, i :: IsNode(t, n) && 0 <= i < |Children(t, n)| ==>
          HasParent(t, Children(t, n)[i]) && Parent(t, Children(t, n)[i]) == n)
    && (forall n :: IsNode(t, n) && HasParent(t, n) ==>
          IsNode(t, Parent(t, n)) && n in Children(t, Parent(t, n)))
  }

  /** `k` parent links can be followed upward from `n`. */
  predicate CanClimb(t: Obj, n: string, k: nat)
    decreases k
  {
    k == 0 || (HasParent(t, n) && CanClimb(t, Parent(t, n), k - 1))
  }

  /** The node `k` parent links above `n` (`ancestorAt`). */
  function Ancestor(t: Obj, n: string, k: nat): string
    requires CanClimb(t, n, k)
    decreases k
  {
    if k == 0 then n else Ancestor(t, Parent(t, n), k - 1)
  }

  /** One more step up from the k-th ancestor is the (k+1)-th ancestor. */
  lemma {:induction false} AncestorStep(t: Obj, n: string, k: nat)
    requires CanClimb(t, n, k + 1)
    ensures CanClimb(t, n, k)
    ensures HasParent(t, Ancestor(t, n, k))
    ensures Ancestor(t, n, k + 1) == Parent(t, Ancestor(t, n, k))
    decreases k
  {
    if k > 0 {
      AncestorStep(t, Parent(t, n), k - 1);
    }
  }

  /** A climb of `k` steps contains every shorter climb. */
  lemma {:induction false} CanClimbShorter(t: Obj, n: string, k: nat, j: nat)
    requires CanClimb(t, n, k) && j <= k
    ensures CanClimb(t, n, j)
    decreases k
  {
    if j > 0 {
      CanClimbShorter(t, Parent(t, n), k - 1, j - 1);
    }
  }

  /** In a consistent, well-formed tree every proper ancestor of a node is a
      node of strictly larger rank. */
  lemma {:induction false} AncestorOutranks(t: Obj, rank: map<string, nat>, n: string, k: nat)
    requires WellFormed(t, rank) && Consistent(t)
    requires IsNode(t, n) && CanClimb(t, n, k)
    ensures IsNode(t, Ancestor(t, n, k))
    ensures k > 0 ==> rank[n] < rank[Ancestor(t, n, k)]
    decreases k
  {
    if k > 0 {
      var p := Parent(t, n);
      assert IsNode(t, p) && n in Children(t, p);
      var i :| 0 <= i < |Children(t, p)| && Children(t, p)[i] == n;
      assert rank[n] < rank[p];
      AncestorOutranks(t, rank, p, k - 1);
    }
  }
}
