/** The `emulators` read (lines 317-414 of the membership replica): given a
    node `SLID` and a relative `height`, answer with the emulators of the leaves
    under the ancestor `height` levels up, minus the branch leading back to
    `SLID`, grouped by their immediate parent. */
module EmulatorsQuery {
  import opened Json
  import opened Topology
  import opened LevelOrder
  import opened Grouping
  import opened HeightText

  /** The text sent when the requested height is out of range. */
  const HeightError: string := "Error height is greater than max height"

  // ---------------------------------------------------------------------------
  // The query.

  /** The leaves the breadth-first walk leaves in the queue for height `h`:
      start at the `h`-th ancestor, skip the `(h-1)`-th one. */
  ghost function Leaves(t: Obj, slid: string, h: nat, rank: map<string, nat>): seq<string>
    requires h > 0 && WellFormed(t, rank) && CanClimb(t, slid, h) && IsNode(t, Ancestor(t, slid, h))
  {
    AncestorStep(t, slid, h - 1);
    Bfs(t, rank, [Ancestor(t, slid, h)], Ancestor(t, slid, h - 1))
  }

  /** The walk for height `h > 0` stays inside the tree: the ancestor exists,
      the queue is not empty when its front is read, and every entry the
      grouping loop reads is there. */
  ghost predicate SubtreeAdmissible(t: Obj, emu: Obj, slid: string, h: nat, rank: map<string, nat>)
    requires h > 0
  {
    && WellFormed(t, rank)
    && CanClimb(t, slid, h)
    && IsNode(t, Ancestor(t, slid, h))
    && var q := Leaves(t, slid, h, rank);
       q != [] && HasParent(t, q[0]) && Readable(t, emu, slid, Parent(t, q[0]), q)
  }

  /** What the branch needs of the two documents and the request to finish:
      a `max_height` string; then, unless the height is rejected, a height
      that atoi reads as non-negative (a negative one climbs past the root), and
      either the origin's emulators entry (height 0) or a walk that stays
      inside the tree. */
  ghost predicate Admissible(t: Obj, emu: Obj, slid: string, height: string, rank: map<string, nat>) {
    && HasString(t, "max_height")
    && (!LexLess(t["max_height"].s, height) ==>
          && Atoi(height) >= 0
          && (Atoi(height) == 0 ==> HasObject(emu, slid))
          && (Atoi(height) > 0 ==> SubtreeAdmissible(t, emu, slid, Atoi(height), rank)))
  }

  /** The reply the branch sends. */
  ghost function EmulatorsReply(t: Obj, emu: Obj, slid: string, height: string, rank: map<string, nat>): Reply
    requires Admissible(t, emu, slid, height, rank)
  {
    if LexLess(t["max_height"].s, height) then Text(HeightError)
    else if Atoi(height) == 0 then Body(emu[slid])
    else Body(JObject(Grouped(t, emu, slid, Leaves(t, slid, Atoi(height), rank))))
  }

  /** Lines 346-352: climb `height` parent links, remembering the node just
      left. */
  method WalkUp(t: Obj, slid: string, height: nat) returns (parent: string, parentToExclude: string)
    requires height > 0 && CanClimb(t, slid, height)
    ensures CanClimb(t, slid, height - 1)
    ensures parent == Ancestor(t, slid, height)
    ensures parentToExclude == Ancestor(t, slid, height - 1)
    ensures HasParent(t, parentToExclude) && Parent(t, parentToExclude) == parent
    ensures height == 1 ==> parentToExclude == slid
  {
    parent := slid;
    parentToExclude := "";
    var h := height;
    while h != 0
      invariant 0 <= h <= height
      invariant CanClimb(t, slid, height - h) && parent == Ancestor(t, slid, height - h)
      invariant CanClimb(t, parent, h)
      invariant h < height ==> CanClimb(t, slid, height - h - 1) && parentToExclude == Ancestor(t, slid, height - h - 1)
      invariant h < height ==> HasParent(t, parentToExclude) && Parent(t, parentToExclude) == parent
    {
      CanClimbShorter(t, slid, height, height - h + 1);
      AncestorStep(t, slid, height - h);
      parentToExclude := parent;
      parent := Parent(t, parent);
      h := h - 1;
    }
  }

  /** Lines 317-414 after the two documents are fetched. */
  method Emulators(t: Obj, emu: Obj, slid: string, height: string, ghost rank: map<string, nat>) returns (reply: Reply)
    requires Admissible(t, emu, slid, height, rank)
    ensures reply == EmulatorsReply(t, emu, slid, height, rank)
    ensures reply == Text(HeightError) <==> LexLess(t["max_height"].s, height)
    ensures !LexLess(t["max_height"].s, height) && Atoi(height) == 0 ==> reply == Body(emu[slid])
  {
    if LexLess(t["max_height"].s, height) {
      reply := Text(HeightError);
    } else {
      var height2 := Atoi(height);
      if height2 == 0 {
        reply := Body(emu[slid]);
      } else {
        var parent, parentToExclude := WalkUp(t, slid, height2);
        var queue := LeafQueue(t, parent, parentToExclude, rank);
        var finalJson := GroupByParent(t, emu, slid, queue);
        reply := Body(JObject(finalJson));
      }
    }
  }

  // ---------------------------------------------------------------------------
  // Properties of the answer.

  /** The walk starts above the excluded branch and never meets it on the
      way up. */
  lemma StartAvoidsExcluded(t: Obj, rank: map<string, nat>, slid: string, h: nat)
    requires WellFormed(t, rank) && Consistent(t) && IsNode(t, slid)
    requires h > 0 && CanClimb(t, slid, h)
    ensures CanClimb(t, slid, h - 1)
    ensures IsNode(t, Ancestor(t, slid, h))
    ensures Avoids(t, Ancestor(t, slid, h), Ancestor(t, slid, h - 1))
  {
    AncestorStep(t, slid, h - 1);
    AncestorOutranks(t, rank, slid, h - 1);
    var ex := Ancestor(t, slid, h - 1);
    var s := Ancestor(t, slid, h);
    assert IsNode(t, s) && ex in Children(t, s);
    var i :| 0 <= i < |Children(t, s)| && Children(t, s)[i] == ex;
    assert rank[ex] < rank[s];
    forall k: nat | CanClimb(t, s, k)
      ensures Ancestor(t, s, k) != ex
    {
      AncestorOutranks(t, rank, s, k);
    }
  }

  /** No queued leaf is the querying node or lies below the excluded child. */
  lemma LeavesAvoidOrigin(t: Obj, rank: map<string, nat>, slid: string, h: nat)
    requires WellFormed(t, rank) && Consistent(t) && IsNode(t, slid)
    requires h > 0 && CanClimb(t, slid, h)
    ensures CanClimb(t, slid, h - 1) && IsNode(t, Ancestor(t, slid, h))
    ensures forall i :: 0 <= i < |Leaves(t, slid, h, rank)| ==>
      Leaves(t, slid, h, rank)[i] != slid && Avoids(t, Leaves(t, slid, h, rank)[i], Ancestor(t, slid, h - 1))
    ensures !Avoids(t, slid, Ancestor(t, slid, h - 1))
  {
    StartAvoidsExcluded(t, rank, slid, h);
    var ex := Ancestor(t, slid, h - 1);
    var q := Leaves(t, slid, h, rank);
    BfsAvoidsBranch(t, rank, [Ancestor(t, slid, h)], ex);
    assert q == Bfs(t, rank, [Ancestor(t, slid, h)], ex);
    assert !Avoids(t, slid, ex) by {
      assert CanClimb(t, slid, h - 1);
    }
  }

  /** No group key and no leaf in the groups `f` is `slid` or lies below `ex`. */
  ghost predicate ReportsOutside(t: Obj, f: Obj, slid: string, ex: string) {
    && (forall p :: p in f ==> p != slid && Avoids(t, p, ex))
    && (forall p, x :: p in f && f[p].JObject? && x in f[p].fields ==> x != slid && Avoids(t, x, ex))
  }

  /** Groups keyed by parents of admissible leaves, whose members all come
      from those leaves, report only admissible nodes. */
  lemma SoundReportsOutside(t: Obj, emu: Obj, f: Obj, q: seq<string>, slid: string, ex: string)
    requires SoundFinal(t, emu, f, q) && f.Keys <= ParentsOf(t, q)
    requires forall i :: 0 <= i < |q| ==> q[i] != slid && Avoids(t, q[i], ex)
    requires !Avoids(t, slid, ex)
    ensures ReportsOutside(t, f, slid, ex)
  {
    forall p | p in f
      ensures p != slid && Avoids(t, p, ex)
    {
      var x :| x in q && HasParent(t, x) && Parent(t, x) == p;
      var i :| 0 <= i < |q| && q[i] == x;
      ParentAvoids(t, x, ex);
    }
    forall p, x | p in f && f[p].JObject? && x in f[p].fields
      ensures x != slid && Avoids(t, x, ex)
    {
      assert SoundGroup(t, emu, p, f[p].fields, q);
      var i :| 0 <= i < |q| && q[i] == x;
    }
  }

  /** The groups built from the leaves, and their keys, are neither the
      querying node nor anything below the excluded child. */
  lemma GroupsAvoidOrigin(t: Obj, emu: Obj, slid: string, h: nat, rank: map<string, nat>)
    requires h > 0 && SubtreeAdmissible(t, emu, slid, h, rank)
    requires Consistent(t) && IsNode(t, slid)
    ensures CanClimb(t, slid, h - 1)
    ensures ReportsOutside(t, Grouped(t, emu, slid, Leaves(t, slid, h, rank)), slid, Ancestor(t, slid, h - 1))
  {
    LeavesAvoidOrigin(t, rank, slid, h);
    var q := Leaves(t, slid, h, rank);
    GroupedByImmediateParent(t, emu, slid, q);
    GroupedKeys(t, emu, slid, q);
    SoundReportsOutside(t, emu, Grouped(t, emu, slid, q), q, slid, Ancestor(t, slid, h - 1));
  }

  /** In a consistent tree the reply never names the querying node, and every
      parent and leaf it reports lies outside the branch that leads back to it. */
  lemma OriginNeverReported(t: Obj, emu: Obj, slid: string, height: string, rank: map<string, nat>)
    requires Admissible(t, emu, slid, height, rank)
    requires Consistent(t) && IsNode(t, slid)
    requires !LexLess(t["max_height"].s, height) && Atoi(height) > 0
    ensures CanClimb(t, slid, Atoi(height) - 1)
    ensures EmulatorsReply(t, emu, slid, height, rank).Body?
    ensures EmulatorsReply(t, emu, slid, height, rank).json.JObject?
    ensures ReportsOutside(t, EmulatorsReply(t, emu, slid, height, rank).json.fields, slid, Ancestor(t, slid, Atoi(height) - 1))
  {
    GroupsAvoidOrigin(t, emu, slid, Atoi(height), rank);
  }

  /** At height 1 the walk starts at the parent and queues its other
      children; when they are leaves, they are the whole queue. */
  lemma LeavesAtHeightOne(t: Obj, rank: map<string, nat>, slid: string)
    requires WellFormed(t, rank) && Consistent(t) && IsNode(t, slid) && HasParent(t, slid)
    requires forall i :: 0 <= i < |Children(t, Parent(t, slid))| ==>
      Children(t, Children(t, Parent(t, slid))[i]) == []
    ensures CanClimb(t, slid, 1) && IsNode(t, Ancestor(t, slid, 1))
    ensures Leaves(t, slid, 1, rank) == Excluding(Children(t, Parent(t, slid)), slid)
  {
    var p := Parent(t, slid);
    var cs := Children(t, p);
    var sibs := Excluding(cs, slid);
    assert slid in cs;
    assert Ancestor(t, slid, 1) == p && Ancestor(t, slid, 0) == slid;
    assert [p][1..] + sibs == sibs;
    StepDecreases(t, rank, [p], slid);
    assert Leaves(t, slid, 1, rank) == Bfs(t, rank, sibs, slid);
    if sibs != [] {
      assert sibs[0] in cs;
      var i :| 0 <= i < |cs| && cs[i] == sibs[0];
      assert Children(t, sibs[0]) == [];
    }
  }

  /** Height 1 under a parent whose children are all leaves: the reply is the
      single group of the querying node's siblings under that parent. */
  lemma SiblingsAtHeightOne(t: Obj, emu: Obj, slid: string, height: string, rank: map<string, nat>)
    requires Admissible(t, emu, slid, height, rank)
    requires Consistent(t) && IsNode(t, slid) && HasParent(t, slid)
    requires !LexLess(t["max_height"].s, height) && Atoi(height) == 1
    requires forall i :: 0 <= i < |Children(t, Parent(t, slid))| ==>
      Children(t, Children(t, Parent(t, slid))[i]) == []
    ensures EntriesReadable(emu, slid, Excluding(Children(t, Parent(t, slid)), slid))
    ensures EmulatorsReply(t, emu, slid, height, rank) ==
      Body(JObject(map[Parent(t, slid) :=
        JObject(Entries(emu, slid, Excluding(Children(t, Parent(t, slid)), slid)))]))
  {
    var p := Parent(t, slid);
    LeavesAtHeightOne(t, rank, slid);
    var q := Leaves(t, slid, 1, rank);
    assert SameParent(t, q, p) by {
      forall i | 0 <= i < |q|
        ensures HasParent(t, q[i]) && Parent(t, q[i]) == p
      {
        assert q[i] in Children(t, p);
      }
    }
    GroupedSingleParent(t, emu, slid, q, p);
  }

}
