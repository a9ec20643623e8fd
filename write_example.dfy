/** A `quorum_size` write on a one-entry document: the put body keeps `_id`
    and the fetched `_rev`, and the entry under the request's `BGID` becomes
    `{size, cycle, quorum_cert}` taken from the request. */
module WriteExample {
  import opened Json
  import opened Directory
  import MembershipReplica
  import SimpleReplica

  const QuorumDoc: Obj := map[
    "_id" := JString("quorum_size"),
    "_rev" := JString("1-x"),
    "0" := JObject(map["size" := JString("3")])
  ]

  const QuorumRequest: Obj := map[
    "Mode" := JString("quorum_size"),
    "BGID" := JString("0"),
    "size" := JString("5"),
    "cycle" := JString("2"),
    "quorum_cert" := JString("c")
  ]

  const NewEntry: Obj := map["size" := JString("5"), "cycle" := JString("2"), "quorum_cert" := JString("c")]

  const QuorumBody: Obj := map[
    "_id" := JString("quorum_size"),
    "_rev" := JString("1-x"),
    "0" := JObject(NewEntry)
  ]

  lemma ExampleEntry()
    ensures QuorumEntry(QuorumRequest) == NewEntry
  {
  }

  /** The put body for the example. */
  lemma ExampleBody()
    ensures Mergeable(QuorumDoc, "0")
    ensures Merged(QuorumDoc, "quorum_size", "0", JObject(NewEntry)) == QuorumBody
  {
    var b := Merged(QuorumDoc, "quorum_size", "0", JObject(NewEntry));
    assert b.Keys == {"_id", "_rev", "0"} == QuorumBody.Keys;
    assert b["_id"] == QuorumBody["_id"] && b["_rev"] == QuorumBody["_rev"] && b["0"] == QuorumBody["0"];
  }

  /** The store after the example write. */
  lemma ExampleApply()
    ensures Applicable(map["quorum_size" := QuorumDoc], Update("quorum_size", "0", NewEntry))
    ensures Apply(map["quorum_size" := QuorumDoc], Update("quorum_size", "0", NewEntry)) == map["quorum_size" := QuorumBody]
  {
    ExampleBody();
  }

  /** The membership replica stores the body and answers `{Status: "OK",
      Global_Cert: proof}`. */
  lemma ExampleMembershipWrite(proof: string, rank: map<string, nat>)
    ensures MembershipReplica.WriteUpdate(QuorumRequest, proof) == Some(Update("quorum_size", "0", NewEntry))
    ensures MembershipReplica.Admitted(map["quorum_size" := QuorumDoc], QuorumRequest, false, proof, rank)
    ensures MembershipReplica.Respond(map["quorum_size" := QuorumDoc], QuorumRequest, false, proof, rank) ==
      Outcome(Some(MembershipReplica.OkReply(proof)), map["quorum_size" := QuorumBody])
  {
    ExampleEntry();
    ExampleApply();
  }

  /** The earlier replica stores the same body and answers "OK". */
  lemma ExampleSimpleWrite()
    ensures SimpleReplica.WriteUpdate(QuorumRequest) == Some(Update("quorum_size", "0", NewEntry))
    ensures SimpleReplica.Admitted(map["quorum_size" := QuorumDoc], QuorumRequest, false)
    ensures SimpleReplica.Respond(map["quorum_size" := QuorumDoc], QuorumRequest, false) ==
      Outcome(Some(Text("OK")), map["quorum_size" := QuorumBody])
  {
    ExampleEntry();
    ExampleApply();
  }
}
