/** `SimpleAppState::execute` of the membership replica: the request handler
    the replication engine calls for every agreed request. A read-only request
    in a lookup mode looks an entry up, and one in mode `emulators` runs the
    `emulators` query. A write request in one of the five write modes replaces
    one entry of one directory document and answers with the commit proof the
    engine left in the reply buffer. A request in any other mode changes
    neither the store nor the reply (`UnknownModeUntouched`). */
module MembershipReplica {
  import opened Json
  import opened Buffers
  import opened DocStore
  import opened Directory
  import opened HeightText
  import opened EmulatorsQuery

  // ---------------------------------------------------------------------------
  // Reads.

  /** The request field that names the entry a lookup mode returns; the
      `emulators` mode and unknown modes have none. */
  function LookupField(mode: string): Option<string> {
    if mode == "public_keys" || mode == "quorum_size" || mode == "byzantine_groups" then Some("BGID")
    else if mode == "super_leafs" then Some("SLID")
    else None
  }

  /** What a read-only request needs: a `Mode`; for a lookup, the document
      named by the mode and an object under the requested id; for `emulators`,
      the two documents, `SLID`, `height`, and a query that stays inside the
      tree. */
  ghost predicate ReadAdmissible(docs: map<string, Obj>, req: Obj, rank: map<string, nat>) {
    && HasString(req, "Mode")
    && var mode := req["Mode"].s;
       && (LookupField(mode).Some? ==>
             && mode in docs
             && HasString(req, LookupField(mode).value)
             && HasObject(docs[mode], req[LookupField(mode).value].s))
       && (mode == "emulators" ==>
             && "configuration" in docs && "emulators" in docs
             && HasString(req, "SLID") && HasString(req, "height")
             && Admissible(docs["configuration"], docs["emulators"], req["SLID"].s, req["height"].s, rank))
  }

  /** The reply to a read-only request; `None` when no mode matches. */
  ghost function ReadReply(docs: map<string, Obj>, req: Obj, rank: map<string, nat>): Option<Reply>
    requires ReadAdmissible(docs, req, rank)
  {
    var mode := req["Mode"].s;
    if LookupField(mode).Some? then Some(Body(docs[mode][req[LookupField(mode).value].s]))
    else if mode == "emulators" then
      Some(EmulatorsReply(docs["configuration"], docs["emulators"], req["SLID"].s, req["height"].s, rank))
    else None
  }

  /** Lines 238-414. */
  method Read(store: DocStore, req: Obj, ghost rank: map<string, nat>) returns (reply: Option<Reply>)
    requires ReadAdmissible(store.docs, req, rank)
    ensures reply == ReadReply(store.docs, req, rank)
    ensures req["Mode"].s in {"public_keys", "quorum_size", "byzantine_groups"} ==>
      reply == Some(Body(store.docs[req["Mode"].s][req["BGID"].s]))
    ensures req["Mode"].s == "super_leafs" ==> reply == Some(Body(store.docs["super_leafs"][req["SLID"].s]))
    ensures reply == None <==> req["Mode"].s !in {"public_keys", "quorum_size", "byzantine_groups", "super_leafs", "emulators"}
  {
    var mode := req["Mode"].s;
    reply := None;
    if mode == "public_keys" || mode == "quorum_size" || mode == "byzantine_groups" {
      var o := store.Doc(mode);
      reply := Some(Body(o[req["BGID"].s]));
    }
    if mode == "super_leafs" {
      var o := store.Doc("super_leafs");
      reply := Some(Body(o[req["SLID"].s]));
    }
    if mode == "emulators" {
      var topology := store.Doc("configuration");
      var emulators := store.Doc("emulators");
      var r := Emulators(topology, emulators, req["SLID"].s, req["height"].s, rank);
      reply := Some(r);
    }
  }

  // ---------------------------------------------------------------------------
  // Writes.

  /** The fields each write mode reads from the request. */
  predicate WriteFields(req: Obj) {
    && HasString(req, "Mode")
    && var mode := req["Mode"].s;
       && (mode == "quorum_size" ==>
             HasString(req, "quorum_cert") && HasString(req, "BGID")
             && HasString(req, "size") && HasString(req, "cycle"))
       && (mode == "public_keys" ==>
             HasObject(req, "keys") && HasString(req["keys"].fields, "certificate_msp") && HasString(req, "BGID"))
       && (mode == "byzantine_groups" ==> HasString(req, "BGID") && HasString(req, "IP"))
       && (mode == "super_leafs" ==> HasString(req, "SLID") && HasString(req, "IP"))
       && (mode == "emulators" ==> HasString(req, "cert") && HasString(req, "SLID") && HasArray(req, "ip"))
  }

  /** The write a request asks for, given the commit proof: which document,
      which entry, and the object stored there. `None` when no mode matches. */
  function WriteUpdate(req: Obj, proof: string): (u: Option<Update>)
    requires WriteFields(req)
    ensures u.Some? <==> req["Mode"].s in {"public_keys", "quorum_size", "byzantine_groups", "super_leafs", "emulators"}
    ensures u.Some? ==> u.value.doc == req["Mode"].s
    ensures u.Some? && LookupField(req["Mode"].s).Some? ==> u.value.target == req[LookupField(req["Mode"].s).value].s
    ensures u.Some? && req["Mode"].s == "emulators" ==> u.value.target == req["SLID"].s
  {
    var mode := req["Mode"].s;
    if mode == "quorum_size" then
      Some(Update("quorum_size", req["BGID"].s, QuorumEntry(req)))
    else if mode == "public_keys" then
      Some(Update("public_keys", req["BGID"].s, req["keys"].fields))
    else if mode == "byzantine_groups" then
      Some(Update("byzantine_groups", req["BGID"].s, map["leader_ip" := req["IP"], "cert" := JString(proof)]))
    else if mode == "super_leafs" then
      Some(Update("super_leafs", req["SLID"].s, map["monitor_ip" := req["IP"], "cert" := JString(proof)]))
    else if mode == "emulators" then
      Some(Update("emulators", req["SLID"].s, map["ip" := req["ip"], "cert" := req["cert"]]))
    else None
  }

  /** What a write request needs: its fields, and a document the write can
      be applied to. */
  predicate WriteAdmissible(docs: map<string, Obj>, req: Obj, proof: string) {
    && WriteFields(req)
    && (WriteUpdate(req, proof).Some? ==> Applicable(docs, WriteUpdate(req, proof).value))
  }

  /** `{Status: "OK", Global_Cert: proof}`, built before the mode is looked at. */
  function OkReply(proof: string): Reply {
    Body(JObject(map["Status" := JString("OK"), "Global_Cert" := JString(proof)]))
  }

  /** Lines 416-661 after the commit proof is read. */
  method Write(store: DocStore, req: Obj, proof: string) returns (reply: Option<Reply>)
    requires WriteAdmissible(store.docs, req, proof)
    modifies store
    ensures WriteUpdate(req, proof).None? ==> reply == None && store.docs == old(store.docs)
    ensures WriteUpdate(req, proof).Some? ==>
      reply == Some(OkReply(proof)) && store.docs == Apply(old(store.docs), WriteUpdate(req, proof).value)
  {
    var u := WriteUpdate(req, proof);
    reply := None;
    if u.Some? {
      FetchMergePut(store, u.value);
      reply := Some(OkReply(proof));
    }
  }

  // ---------------------------------------------------------------------------
  // The handler.

  ghost predicate Admitted(docs: map<string, Obj>, req: Obj, readOnly: bool, proof: string, rank: map<string, nat>) {
    if readOnly then ReadAdmissible(docs, req, rank) else WriteAdmissible(docs, req, proof)
  }

  ghost function Respond(docs: map<string, Obj>, req: Obj, readOnly: bool, proof: string, rank: map<string, nat>): Outcome
    requires Admitted(docs, req, readOnly, proof, rank)
  {
    if readOnly then Outcome(ReadReply(docs, req, rank), docs)
    else match WriteUpdate(req, proof)
      case None => Outcome(None, docs)
      case Some(u) => Outcome(Some(OkReply(proof)), Apply(docs, u))
  }

  /** The commit proof a write answers with: the first `outActualReplySize`
      characters of the reply buffer on entry. */
  function Proof(readOnly: bool, outReply: seq<char>, outActualReplySize: nat): string {
    if readOnly || outActualReplySize > |outReply| then "" else outReply[..outActualReplySize]
  }

  /** `execute(clientId, sequenceNum, readOnly, requestSize, request,
      maxReplySize, outReply, outActualReplySize)`. The request text is decoded
      by `parse` and replies are serialised by `toText`; the new value of
      `outActualReplySize` is returned as `replySize`. */
  method Execute(store: DocStore, clientId: nat, sequenceNum: nat, readOnly: bool,
                 requestSize: nat, request: array<char>,
                 maxReplySize: nat, outReply: array<char>, outActualReplySize: nat,
                 parse: string -> Obj, toText: Json -> string, ghost rank: map<string, nat>)
    returns (result: int, replySize: nat)
    requires requestSize <= request.Length && outReply.Length == maxReplySize
    requires !readOnly ==> outActualReplySize <= outReply.Length
    requires Admitted(store.docs, parse(request[..requestSize]), readOnly,
                      Proof(readOnly, outReply[..], outActualReplySize), rank)
    requires var o := Respond(store.docs, parse(request[..requestSize]), readOnly,
                              Proof(readOnly, outReply[..], outActualReplySize), rank);
             o.reply.Some? ==> |CString(ReplyText(o.reply.value, toText))| < maxReplySize
    modifies store, outReply
    ensures result == 0
    ensures var o := Respond(old(store.docs), parse(old(request[..requestSize])), readOnly,
                             Proof(readOnly, old(outReply[..]), outActualReplySize), rank);
      && store.docs == o.docs
      && (o.reply.None? ==> outReply[..] == old(outReply[..]) && replySize == outActualReplySize)
      && (o.reply.Some? ==>
            replySize == |ReplyText(o.reply.value, toText)|
            && Holds(outReply[..], ReplyText(o.reply.value, toText), old(outReply[..])))
  {
    ghost var before := outReply[..];
    var requestString := ParseCharString(request, requestSize);
    var requestJson := parse(requestString);
    var reply: Option<Reply>;
    if readOnly {
      reply := Read(store, requestJson, rank);
    } else {
      var fullCommitProofMessage := ParseCharString(outReply, outActualReplySize);
      reply := Write(store, requestJson, fullCommitProofMessage);
    }
    replySize := outActualReplySize;
    if reply.Some? {
      replySize := SendReply(outReply, ReplyText(reply.value, toText));
    }
    result := 0;
  }

  // ---------------------------------------------------------------------------
  // Properties.

  /** Read-only requests never change the store; in particular a rejected
      height writes nothing and is answered with the error text. */
  lemma ReadsWriteNothing(docs: map<string, Obj>, req: Obj, rank: map<string, nat>)
    requires ReadAdmissible(docs, req, rank)
    ensures Respond(docs, req, true, "", rank).docs == docs
    ensures req["Mode"].s == "emulators" && LexLess(docs["configuration"]["max_height"].s, req["height"].s) ==>
      Respond(docs, req, true, "", rank).reply == Some(Text(HeightError))
  {
  }

  /** A request whose mode matches none of the five leaves the store and the
      reply alone, read or write. */
  lemma UnknownModeUntouched(docs: map<string, Obj>, req: Obj, readOnly: bool, proof: string, rank: map<string, nat>)
    requires Admitted(docs, req, readOnly, proof, rank)
    requires req["Mode"].s !in {"public_keys", "quorum_size", "byzantine_groups", "super_leafs", "emulators"}
    ensures Respond(docs, req, readOnly, proof, rank) == Outcome(None, docs)
  {
  }

  /** A lookup after a write of the same entry returns exactly what was
      written. */
  lemma WriteThenRead(docs: map<string, Obj>, req: Obj, proof: string, query: Obj, rank: map<string, nat>)
    requires WriteAdmissible(docs, req, proof) && WriteUpdate(req, proof).Some?
    requires req["Mode"].s != "emulators"
    requires HasString(query, "Mode") && query["Mode"] == req["Mode"]
    requires HasString(query, LookupField(req["Mode"].s).value)
    requires query[LookupField(req["Mode"].s).value].s == WriteUpdate(req, proof).value.target
    ensures ReadAdmissible(Respond(docs, req, false, proof, rank).docs, query, rank)
    ensures ReadReply(Respond(docs, req, false, proof, rank).docs, query, rank) ==
      Some(Body(JObject(WriteUpdate(req, proof).value.entry)))
  {
    ApplyReadBack(docs, WriteUpdate(req, proof).value);
  }

  /** An `emulators` write followed by the height-0 query for the same node
      returns the new entry, as long as "0" is not above `max_height`. */
  lemma EmulatorsWriteThenRead(docs: map<string, Obj>, req: Obj, proof: string, query: Obj, rank: map<string, nat>)
    requires WriteAdmissible(docs, req, proof) && req["Mode"].s == "emulators"
    requires "configuration" in docs && HasString(docs["configuration"], "max_height")
    requires !LexLess(docs["configuration"]["max_height"].s, "0")
    requires HasString(query, "Mode") && query["Mode"].s == "emulators"
    requires HasString(query, "SLID") && query["SLID"] == req["SLID"]
    requires HasString(query, "height") && query["height"].s == "0"
    ensures ReadAdmissible(Respond(docs, req, false, proof, rank).docs, query, rank)
    ensures ReadReply(Respond(docs, req, false, proof, rank).docs, query, rank) ==
      Some(Body(JObject(map["ip" := req["ip"], "cert" := req["cert"]])))
  {
    HeightZero();
    ApplyReadBack(docs, WriteUpdate(req, proof).value);
  }

  /** A write touches one entry of one document: every other document, and
      every other entry of that document except `_id`, reads as before, and
      the reply carries the commit proof. */
  lemma WriteKeepsSiblings(docs: map<string, Obj>, req: Obj, proof: string, rank: map<string, nat>)
    requires WriteAdmissible(docs, req, proof) && WriteUpdate(req, proof).Some?
    ensures var u := WriteUpdate(req, proof).value;
      var o := Respond(docs, req, false, proof, rank);
      && o.reply == Some(OkReply(proof))
      && o.docs.Keys == docs.Keys
      && (forall n :: n in docs && n != u.doc ==> o.docs[n] == docs[n])
      && (forall k :: k in docs[u.doc] && k != "_id" && k != u.target ==>
            k in o.docs[u.doc] && o.docs[u.doc][k] == docs[u.doc][k])
      && o.docs[u.doc]["_id"] == JString(u.doc)
  {
    ApplyReadBack(docs, WriteUpdate(req, proof).value);
  }
}
