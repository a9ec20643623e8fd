/** The update both replicas apply to a directory document: fetch it, build a
    new body holding `_id`, the fetched `_rev`, every other entry but the one
    being replaced, then the replacement, and put the body back. */
module Directory {
  import opened Json
  import opened DocStore

  /** Keys the copy loop never copies for a given target. */
  predicate Reserved(k: string, target: string) {
    k == "_id" || k == "_rev" || k == target
  }

  /** What the loop reads from the fetched document: `o.get<string>("_rev")`
      and `o.get<Object>(k)` for every key it copies. */
  predicate Mergeable(o: Obj, target: string) {
    && HasString(o, "_rev")
    && forall k :: k in o && !Reserved(k, target) ==> o[k].JObject?
  }

  /** The entries of `o` among `keys` that the loop copies. */
  function Copied(o: Obj, target: string, keys: set<string>): (c: Obj)
    ensures forall k :: k in c <==> k in keys && k in o && !Reserved(k, target)
    ensures forall k :: k in c ==> c[k] == o[k]
  {
    map k | k in keys && k in o && !Reserved(k, target) :: o[k]
  }

  /** The body put back for document `name` when `target` becomes `entry`. */
  function Merged(o: Obj, name: string, target: string, entry: Json): (body: Obj)
    requires Mergeable(o, target)
    ensures body.Keys == o.Keys + {"_id", target}
    ensures body[target] == entry
    ensures target != "_id" ==> body["_id"] == JString(name)
    ensures target != "_rev" ==> body["_rev"] == o["_rev"]
    ensures forall k :: k in o && !Reserved(k, target) ==> body[k] == o[k]
  {
    (map["_id" := JString(name), "_rev" := o["_rev"]] + Copied(o, target, o.Keys))[target := entry]
  }

  /** The body once the keys in `done` have been visited. */
  function Partial(o: Obj, name: string, target: string, done: set<string>): Obj
    requires HasString(o, "_rev")
  {
    map["_id" := JString(name), "_rev" := o["_rev"]] + Copied(o, target, done)
  }

  /** Visiting one more key `k` adds it to the body unless it is reserved. */
  lemma PartialStep(o: Obj, name: string, target: string, done: set<string>, k: string)
    requires HasString(o, "_rev") && k in o
    ensures Partial(o, name, target, done + {k}) ==
      if Reserved(k, target) then Partial(o, name, target, done) else Partial(o, name, target, done)[k := o[k]]
  {
    assert Copied(o, target, done + {k}) ==
      if Reserved(k, target) then Copied(o, target, done) else Copied(o, target, done)[k := o[k]];
  }

  /** Lines 472-493 (and the four other write modes): the body built by
      insertion, the fetched keys visited one at a time. */
  method MergeBody(o: Obj, name: string, target: string, entry: Json) returns (body: Obj)
    requires Mergeable(o, target)
    ensures body == Merged(o, name, target, entry)
  {
    body := map[];
    body := body["_id" := JString(name)];
    body := body["_rev" := o["_rev"]];
    assert body == Partial(o, name, target, {});
    var pending := o.Keys;
    while pending != {}
      invariant pending <= o.Keys
      invariant body == Partial(o, name, target, o.Keys - pending)
      decreases pending
    {
      var k :| k in pending;
      ghost var done := o.Keys - pending;
      PartialStep(o, name, target, done, k);
      if k != "_id" && k != "_rev" && k != target {
        body := body[k := o[k]];
      }
      assert o.Keys - (pending - {k}) == done + {k};
      pending := pending - {k};
    }
    assert o.Keys - pending == o.Keys;
    body := body[target := entry];
  }

  /** The `quorum_size` entry: `{size, cycle, quorum_cert}` from the request. */
  function QuorumEntry(req: Obj): Obj
    requires HasString(req, "size") && HasString(req, "cycle") && HasString(req, "quorum_cert")
  {
    map["size" := req["size"], "cycle" := req["cycle"], "quorum_cert" := req["quorum_cert"]]
  }

  /** One write: document `doc`, whose entry `target` becomes the object
      `entry` (every write mode stores an object). */
  datatype Update = Update(doc: string, target: string, entry: Obj)

  /** The write can be carried out on `docs`: the document is there, holds
      what the copy loop reads, and the target is not one of the two
      bookkeeping keys. */
  predicate Applicable(docs: map<string, Obj>, u: Update) {
    && u.doc in docs
    && Mergeable(docs[u.doc], u.target)
    && u.target != "_id" && u.target != "_rev"
  }

  /** The store after the write. */
  function Apply(docs: map<string, Obj>, u: Update): (docs': map<string, Obj>)
    requires Applicable(docs, u)
    ensures docs'.Keys == docs.Keys
    ensures forall n :: n in docs && n != u.doc ==> docs'[n] == docs[n]
    ensures HasString(docs'[u.doc], "_id") && docs'[u.doc]["_id"].s == u.doc
  {
    docs[u.doc := Merged(docs[u.doc], u.doc, u.target, JObject(u.entry))]
  }

  /** The reply (if any) and the store a request leaves behind. */
  datatype Outcome = Outcome(reply: Option<Reply>, docs: map<string, Obj>)

  /** Fetch, merge, put. */
  method FetchMergePut(store: DocStore, u: Update)
    requires Applicable(store.docs, u)
    modifies store
    ensures store.docs == Apply(old(store.docs), u)
  {
    var o := store.Doc(u.doc);
    var body := MergeBody(o, u.doc, u.target, JObject(u.entry));
    store.Put(body);
  }

  /** After a write the target reads back as the new entry and everything
      else in the store reads as before, except `_id`, which now names the
      document. */
  lemma ApplyReadBack(docs: map<string, Obj>, u: Update)
    requires Applicable(docs, u)
    ensures u.target in Apply(docs, u)[u.doc] && Apply(docs, u)[u.doc][u.target] == JObject(u.entry)
    ensures forall n, k :: n in docs && k in docs[n] && !(n == u.doc && (k == "_id" || k == u.target)) ==>
      k in Apply(docs, u)[n] && Apply(docs, u)[n][k] == docs[n][k]
    ensures forall n :: n in docs ==> Apply(docs, u)[n].Keys <= docs[n].Keys + {"_id", u.target}
  {
  }

  /** Writing the same entry twice leaves the store as one write does (the
      store model does not advance `_rev`). */
  lemma ApplyIdempotent(docs: map<string, Obj>, u: Update)
    requires Applicable(docs, u)
    ensures Applicable(Apply(docs, u), u)
    ensures Apply(Apply(docs, u), u) == Apply(docs, u)
  {
    var o := docs[u.doc];
    var b := Merged(o, u.doc, u.target, JObject(u.entry));
    assert Mergeable(b, u.target);
    var b2 := Merged(b, u.doc, u.target, JObject(u.entry));
    assert b2.Keys == b.Keys;
    forall k | k in b
      ensures b2[k] == b[k]
    {
      if !Reserved(k, u.target) {
        assert k in o;
      }
    }
    assert b2 == b;
    assert Apply(docs, u)[u.doc] == b;
  }
}
