/** Lines 378-406 of the membership replica: the leaves left in the queue are
    grouped by their parent. Four variables drive the loop: `pare` (the parent
    of the group being built), `sub_json` (that group: leaf id to its emulators
    entry), `final_json` (the sealed groups by parent) and `diff_parents`. A
    group is sealed only when the parent changes; after the loop the last group
    is added only if the parent never changed. So with two or more parents the
    trailing group never reaches the reply, and the querying node is skipped
    only while the parent stays the same. */
module Grouping {
  import opened Json
  import opened Topology

  /** The loop variables. */
  datatype Grouping = Grouping(pare: string, sub: Obj, final: Obj, diffParents: bool)

  /** The entries the loop looks up are there: each queued node names its
      parent, and its emulators entry is an object whenever the loop reads it
      (every time, except for `slid` while the parent is unchanged). */
  predicate Readable(t: Obj, emu: Obj, slid: string, pare: string, q: seq<string>)
    ensures Readable(t, emu, slid, pare, q) ==> forall i :: 0 <= i < |q| ==> HasParent(t, q[i])
    decreases |q|
  {
    q == [] ||
    (&& HasParent(t, q[0])
     && ((q[0] == slid && Parent(t, q[0]) == pare) || HasObject(emu, q[0]))
     && Readable(t, emu, slid, Parent(t, q[0]), q[1..]))
  }

  /** One round of the loop on queue front `x`. */
  function Step(t: Obj, emu: Obj, slid: string, g: Grouping, x: string): (g': Grouping)
    requires HasParent(t, x) && ((x == slid && Parent(t, x) == g.pare) || HasObject(emu, x))
    ensures g'.pare == Parent(t, x)
  {
    if g.pare == Parent(t, x) then
      if x != slid then g.(sub := g.sub[x := emu[x]]) else g
    else
      Grouping(Parent(t, x), map[x := emu[x]], g.final[g.pare := JObject(g.sub)], true)
  }

  /** The loop run over the whole queue. */
  function Run(t: Obj, emu: Obj, slid: string, g: Grouping, q: seq<string>): (r: Grouping)
    requires Readable(t, emu, slid, g.pare, q)
    ensures r.pare == if q == [] then g.pare else Parent(t, q[|q| - 1])
    decreases |q|
  {
    if q == [] then g else Run(t, emu, slid, Step(t, emu, slid, g, q[0]), q[1..])
  }

  /** The state the loop starts in. */
  function Start(t: Obj, q: seq<string>): Grouping
    requires q != [] && HasParent(t, q[0])
  {
    Grouping(Parent(t, q[0]), map[], map[], false)
  }

  /** `final_json` as the reply sends it. */
  function Grouped(t: Obj, emu: Obj, slid: string, q: seq<string>): Obj
    requires q != [] && HasParent(t, q[0]) && Readable(t, emu, slid, Parent(t, q[0]), q)
  {
    var g := Run(t, emu, slid, Start(t, q), q);
    if !g.diffParents then g.final[g.pare := JObject(g.sub)] else g.final
  }

  /** The lines themselves. */
  method GroupByParent(t: Obj, emu: Obj, slid: string, queue: seq<string>) returns (finalJson: Obj)
    requires queue != [] && HasParent(t, queue[0]) && Readable(t, emu, slid, Parent(t, queue[0]), queue)
    ensures finalJson == Grouped(t, emu, slid, queue)
  {
    var q := queue;
    finalJson := map[];
    var subJson: Obj := map[];
    var pare := Parent(t, q[0]);
    var diffParents := false;
    while q != []
      invariant Readable(t, emu, slid, pare, q)
      invariant Run(t, emu, slid, Grouping(pare, subJson, finalJson, diffParents), q)
             == Run(t, emu, slid, Start(t, queue), queue)
    {
      var front := q[0];
      if pare == Parent(t, front) {
        if front != slid {
          subJson := subJson[front := emu[front]];
        }
      } else {
        diffParents := true;
        finalJson := finalJson[pare := JObject(subJson)];
        subJson := map[];
        pare := Parent(t, front);
        subJson := subJson[front := emu[front]];
      }
      q := q[1..];
    }
    if !diffParents {
      finalJson := finalJson[pare := JObject(subJson)];
    }
  }

  // ---------------------------------------------------------------------------
  // What the grouping computes.

  /** Every queued node other than `slid` has an emulators object. */
  predicate EntriesReadable(emu: Obj, slid: string, q: seq<string>) {
    forall i :: 0 <= i < |q| && q[i] != slid ==> HasObject(emu, q[i])
  }

  /** Leaf id to emulators entry for the queued nodes, `slid` left out. */
  function Entries(emu: Obj, slid: string, q: seq<string>): Obj
    requires EntriesReadable(emu, slid, q)
  {
    map x | x in q && x != slid :: emu[x]
  }

  /** The parents of the queued nodes. */
  ghost function ParentsOf(t: Obj, q: seq<string>): set<string> {
    set x | x in q && HasParent(t, x) :: Parent(t, x)
  }

  predicate SameParent(t: Obj, q: seq<string>, p: string) {
    forall i :: 0 <= i < |q| ==> HasParent(t, q[i]) && Parent(t, q[i]) == p
  }

  lemma {:induction false} ReadableConcat(t: Obj, emu: Obj, slid: string, pare: string, a: seq<string>, b: seq<string>)
    requires Readable(t, emu, slid, pare, a + b)
    ensures Readable(t, emu, slid, pare, a)
    ensures Readable(t, emu, slid, if a == [] then pare else Parent(t, a[|a| - 1]), b)
    decreases |a|
  {
    if a == [] {
      assert a + b == b;
    } else {
      assert (a + b)[1..] == a[1..] + b;
      ReadableConcat(t, emu, slid, Parent(t, a[0]), a[1..], b);
      if |a| > 1 {
        assert a[1..][|a| - 2] == a[|a| - 1];
      }
    }
  }

  lemma {:induction false} RunConcat(t: Obj, emu: Obj, slid: string, g: Grouping, a: seq<string>, b: seq<string>)
    requires Readable(t, emu, slid, g.pare, a + b)
    ensures Readable(t, emu, slid, g.pare, a)
    ensures Readable(t, emu, slid, Run(t, emu, slid, g, a).pare, b)
    ensures Run(t, emu, slid, g, a + b) == Run(t, emu, slid, Run(t, emu, slid, g, a), b)
    decreases |a|
  {
    ReadableConcat(t, emu, slid, g.pare, a, b);
    if a == [] {
      assert a + b == b;
    } else {
      assert (a + b)[1..] == a[1..] + b;
      assert (a + b)[0] == a[0];
      RunConcat(t, emu, slid, Step(t, emu, slid, g, a[0]), a[1..], b);
    }
  }

  /** Under one parent the loop only adds leaves to the open group. */
  lemma {:induction false} ReadableSameParent(t: Obj, emu: Obj, slid: string, p: string, q: seq<string>)
    requires SameParent(t, q, p) && Readable(t, emu, slid, p, q)
    ensures EntriesReadable(emu, slid, q)
    decreases |q|
  {
    if q != [] {
      ReadableSameParent(t, emu, slid, p, q[1..]);
      forall i | 0 <= i < |q| && q[i] != slid
        ensures HasObject(emu, q[i])
      {
        if i > 0 {
          assert q[i] == q[1..][i - 1];
        }
      }
    }
  }

  /** The entries of a queue are those of its tail, plus its front. */
  lemma EntriesCons(emu: Obj, slid: string, q: seq<string>)
    requires q != [] && EntriesReadable(emu, slid, q)
    ensures EntriesReadable(emu, slid, q[1..])
    ensures Entries(emu, slid, q) ==
      if q[0] != slid then Entries(emu, slid, q[1..])[q[0] := emu[q[0]]] else Entries(emu, slid, q[1..])
  {
    assert forall i :: 0 <= i < |q[1..]| ==> q[1..][i] == q[i + 1];
    assert forall x :: x in q <==> x == q[0] || x in q[1..];
  }

  lemma UpdateThenMerge(a: Obj, b: Obj, x: string, v: Json)
    requires x in b ==> b[x] == v
    ensures a[x := v] + b == a + b[x := v]
  {
  }

  lemma {:induction false} RunSameParent(t: Obj, emu: Obj, slid: string, g: Grouping, q: seq<string>)
    requires SameParent(t, q, g.pare) && Readable(t, emu, slid, g.pare, q)
    ensures EntriesReadable(emu, slid, q)
    ensures Run(t, emu, slid, g, q) == g.(sub := g.sub + Entries(emu, slid, q))
    decreases |q|
  {
    ReadableSameParent(t, emu, slid, g.pare, q);
    if q == [] {
      assert Entries(emu, slid, q) == map[];
      assert g.sub + map[] == g.sub;
    } else {
      var x := q[0];
      var g' := Step(t, emu, slid, g, x);
      assert SameParent(t, q[1..], g'.pare);
      RunSameParent(t, emu, slid, g', q[1..]);
      EntriesCons(emu, slid, q);
      if x != slid {
        UpdateThenMerge(g.sub, Entries(emu, slid, q[1..]), x, emu[x]);
      }
    }
  }

  /** All leaves under one parent `p`: the reply is the single group
      `{p: {leaf: entry, ...}}`, the querying node left out. */
  lemma GroupedSingleParent(t: Obj, emu: Obj, slid: string, q: seq<string>, p: string)
    requires q != [] && SameParent(t, q, p) && Readable(t, emu, slid, p, q)
    ensures EntriesReadable(emu, slid, q)
    ensures Grouped(t, emu, slid, q) == map[p := JObject(Entries(emu, slid, q))]
  {
    RunSameParent(t, emu, slid, Start(t, q), q);
    assert map[] + Entries(emu, slid, q) == Entries(emu, slid, q);
  }

  /** Two groups, the leaves `a` under `p` and then `b` under another parent:
      only the first group is sent. */
  lemma GroupedTwoParents(t: Obj, emu: Obj, slid: string, a: seq<string>, b: seq<string>, p: string, p': string)
    requires a != [] && b != [] && p != p'
    requires SameParent(t, a, p) && SameParent(t, b, p')
    requires Readable(t, emu, slid, p, a + b)
    ensures EntriesReadable(emu, slid, a)
    ensures Grouped(t, emu, slid, a + b) == map[p := JObject(Entries(emu, slid, a))]
  {
    var q := a + b;
    assert q[0] == a[0];
    var g0 := Start(t, q);
    RunConcat(t, emu, slid, g0, a, b);
    RunSameParent(t, emu, slid, g0, a);
    var g1 := Run(t, emu, slid, g0, a);
    assert map[] + Entries(emu, slid, a) == Entries(emu, slid, a);
    assert g1 == Grouping(p, Entries(emu, slid, a), map[], false);
    var g2 := Step(t, emu, slid, g1, b[0]);
    assert g2.final == map[p := JObject(Entries(emu, slid, a))] && g2.diffParents;
    assert SameParent(t, b[1..], p');
    RunSameParent(t, emu, slid, g2, b[1..]);
  }

  /** Sealed keys are the parents seen, plus the parent open at the start. */
  lemma {:induction false} RunKeys(t: Obj, emu: Obj, slid: string, g: Grouping, q: seq<string>)
    requires Readable(t, emu, slid, g.pare, q)
    ensures Run(t, emu, slid, g, q).final.Keys <= g.final.Keys + {g.pare} + ParentsOf(t, q)
    decreases |q|
  {
    if q != [] {
      var g' := Step(t, emu, slid, g, q[0]);
      RunKeys(t, emu, slid, g', q[1..]);
      assert ParentsOf(t, q[1..]) <= ParentsOf(t, q);
      assert Parent(t, q[0]) in ParentsOf(t, q);
    }
  }

  /** Every key of the reply is the parent of some queued leaf. */
  lemma GroupedKeys(t: Obj, emu: Obj, slid: string, q: seq<string>)
    requires q != [] && HasParent(t, q[0]) && Readable(t, emu, slid, Parent(t, q[0]), q)
    ensures Grouped(t, emu, slid, q).Keys <= ParentsOf(t, q)
  {
    var g0 := Start(t, q);
    RunKeys(t, emu, slid, g0, q);
    assert g0.pare in ParentsOf(t, q);
    assert q[|q| - 1] in q;
    assert Run(t, emu, slid, g0, q).pare in ParentsOf(t, q);
  }

  /** With the leaves `p` followed by a last run `r` under a different parent
      `p'`, every key of the reply is a parent of some leaf in `p`: the
      trailing group is never emitted, so `p'` is missing unless it already
      parented a leaf of `p`. */
  lemma TrailingGroupDropped(t: Obj, emu: Obj, slid: string, p: seq<string>, r: seq<string>, p': string)
    requires p != [] && r != [] && HasParent(t, p[0])
    requires SameParent(t, r, p') && HasParent(t, p[|p| - 1]) && Parent(t, p[|p| - 1]) != p'
    requires Readable(t, emu, slid, Parent(t, p[0]), p + r)
    ensures Grouped(t, emu, slid, p + r).Keys <= ParentsOf(t, p)
    ensures p' !in ParentsOf(t, p) ==> p' !in Grouped(t, emu, slid, p + r)
  {
    var q := p + r;
    assert q[0] == p[0];
    var g0 := Start(t, q);
    RunConcat(t, emu, slid, g0, p, r);
    var g1 := Run(t, emu, slid, g0, p);
    RunKeys(t, emu, slid, g0, p);
    assert g0.pare in ParentsOf(t, p);
    assert g1.pare == Parent(t, p[|p| - 1]) && g1.pare in ParentsOf(t, p);
    var g2 := Step(t, emu, slid, g1, r[0]);
    assert g2.final.Keys <= ParentsOf(t, p) && g2.diffParents;
    assert SameParent(t, r[1..], p');
    RunSameParent(t, emu, slid, g2, r[1..]);
  }

  /** Group `sub` holds only leaves of `seen` whose parent is `p`, each mapped
      to its own emulators entry. */
  ghost predicate SoundGroup(t: Obj, emu: Obj, p: string, sub: Obj, seen: seq<string>) {
    forall x :: x in sub ==>
      x in seen && HasParent(t, x) && Parent(t, x) == p && x in emu && sub[x] == emu[x]
  }

  ghost predicate SoundFinal(t: Obj, emu: Obj, final: Obj, seen: seq<string>) {
    forall p :: p in final ==> final[p].JObject? && SoundGroup(t, emu, p, final[p].fields, seen)
  }

  /** One round keeps both predicates, with the front added to what was seen. */
  lemma StepSound(t: Obj, emu: Obj, slid: string, g: Grouping, x: string, seen: seq<string>)
    requires HasParent(t, x) && ((x == slid && Parent(t, x) == g.pare) || HasObject(emu, x))
    requires SoundGroup(t, emu, g.pare, g.sub, seen) && SoundFinal(t, emu, g.final, seen)
    ensures SoundGroup(t, emu, Step(t, emu, slid, g, x).pare, Step(t, emu, slid, g, x).sub, seen + [x])
    ensures SoundFinal(t, emu, Step(t, emu, slid, g, x).final, seen + [x])
  {
    var seen' := seen + [x];
    assert SoundGroup(t, emu, g.pare, g.sub, seen');
    assert SoundFinal(t, emu, g.final, seen') by {
      forall p | p in g.final
        ensures SoundGroup(t, emu, p, g.final[p].fields, seen')
      {
        assert SoundGroup(t, emu, p, g.final[p].fields, seen);
      }
    }
  }

  lemma {:induction false} RunSound(t: Obj, emu: Obj, slid: string, g: Grouping, q: seq<string>, seen: seq<string>)
    requires Readable(t, emu, slid, g.pare, q)
    requires SoundGroup(t, emu, g.pare, g.sub, seen) && SoundFinal(t, emu, g.final, seen)
    ensures SoundGroup(t, emu, Run(t, emu, slid, g, q).pare, Run(t, emu, slid, g, q).sub, seen + q)
    ensures SoundFinal(t, emu, Run(t, emu, slid, g, q).final, seen + q)
    decreases |q|
  {
    if q == [] {
      assert seen + q == seen;
    } else {
      var x := q[0];
      StepSound(t, emu, slid, g, x, seen);
      RunSound(t, emu, slid, Step(t, emu, slid, g, x), q[1..], seen + [x]);
      assert seen + [x] + q[1..] == seen + q;
    }
  }

  /** The reply groups strictly by immediate parent: under each key `p` sits an
      object whose every member is a queued leaf with parent `p`, mapped to
      that leaf's own emulators entry. */
  lemma GroupedByImmediateParent(t: Obj, emu: Obj, slid: string, q: seq<string>)
    requires q != [] && HasParent(t, q[0]) && Readable(t, emu, slid, Parent(t, q[0]), q)
    ensures SoundFinal(t, emu, Grouped(t, emu, slid, q), q)
  {
    var g0 := Start(t, q);
    RunSound(t, emu, slid, g0, q, []);
    assert [] + q == q;
  }
}
