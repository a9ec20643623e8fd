/** The document database both replicas talk to ("global_membership_service"
    in CouchDB), held in memory: document id to document. Only the two calls
    the replicas make are modelled. */
module DocStore {
  import opened Json

  class DocStore {
    /** Every stored document, by its `_id`. */
    var docs: map<string, Obj>

    constructor (seed: map<string, Obj>)
      ensures docs == seed
    {
      docs := seed;
    }

    /** `couch.doc(db, id)`: fetch one whole document. */
    method Doc(id: string) returns (o: Obj)
      requires id in docs
      ensures o == docs[id]
    {
      o := docs[id];
    }

    /** `couch.put(db, body)`: store the body under the id it names; every
        other document stays as it was. */
    method Put(body: Obj)
      requires HasString(body, "_id")
      modifies this
      ensures docs == old(docs)[body["_id"].s := body]
    {
      docs := docs[body["_id"].s := body];
    }
  }
}
