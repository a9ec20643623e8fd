/** The earlier replica (simpleTest): the same directory handler with three
    lookups and two writes, plus a per-client register array that its
    accessors index by client id. */
module SimpleReplica {
  import opened Json
  import opened Buffers
  import opened DocStore
  import opened Directory

  /** `uint64_t`. */
  newtype u64 = x: int | 0 <= x < 0x1_0000_0000_0000_0000

  /** `uint16_t`, the width of `numOfClients` and `numOfReplicas`. */
  newtype u16 = x: int | 0 <= x < 0x1_0000

  /** The modulus `uint64_t` arithmetic wraps at. */
  const TwoTo64: int := 0x1_0000_0000_0000_0000

  /** One client's register: how many modifications, and the last value. */
  datatype State = State(stateNum: u64, lastValue: u64)

  /** The reply to every write this replica handles. */
  const ReturnOk: string := "OK"

  class SimpleAppState {
    /** `new State[numCl]`, one entry per client. */
    var statePtr: array<State>
    const numOfClients: u16
    const numOfReplicas: u16

    ghost predicate Valid()
      reads this
    {
      statePtr.Length == numOfClients as int
    }

    /** `SimpleAppState(numCl, numRep)`: every register starts at zero. */
    constructor (numCl: u16, numRep: u16)
      ensures Valid() && fresh(statePtr)
      ensures numOfClients == numCl && numOfReplicas == numRep
      ensures forall i :: 0 <= i < statePtr.Length ==> statePtr[i] == State(0, 0)
    {
      numOfClients := numCl;
      numOfReplicas := numRep;
      statePtr := new State[numCl as int](_ => State(0, 0));
    }

    /** Client ids follow the replica ids. */
    predicate IsClient(clientId: nat) {
      numOfReplicas as int <= clientId < numOfReplicas as int + numOfClients as int
    }

    /** `clientId - numOfReplicas` as a `uint64_t`: an id below the replica
        count wraps around to a huge index. */
    function ClientToIndex(clientId: nat): (index: u64)
      ensures numOfReplicas as int <= clientId < numOfReplicas as int + TwoTo64 ==>
        index as int == clientId - numOfReplicas as int
      ensures clientId < numOfReplicas as int ==> index as int == TwoTo64 - (numOfReplicas as int - clientId)
    {
      ((clientId - numOfReplicas as int) % TwoTo64) as u64
    }

    /** Client ids land on distinct registers inside the array. */
    lemma ClientIndexInRange(c: nat, d: nat)
      requires Valid() && IsClient(c) && IsClient(d)
      ensures (ClientToIndex(c) as int) < statePtr.Length
      ensures c != d ==> ClientToIndex(c) != ClientToIndex(d)
    {
    }

    /** `get_last_state_value`: the value in the register of client
        `clientId`, the one at offset `clientId - numOfReplicas`. */
    function GetLastStateValue(clientId: nat): (v: u64)
      requires Valid() && IsClient(clientId)
      reads this, statePtr
      ensures 0 <= clientId - numOfReplicas as int < statePtr.Length
      ensures v == statePtr[clientId - numOfReplicas as int].lastValue
    {
      statePtr[ClientToIndex(clientId)].lastValue
    }

    /** `get_last_state_num`: the modification count in the register of client
        `clientId`, the one at offset `clientId - numOfReplicas`. */
    function GetLastStateNum(clientId: nat): (v: u64)
      requires Valid() && IsClient(clientId)
      reads this, statePtr
      ensures 0 <= clientId - numOfReplicas as int < statePtr.Length
      ensures v == statePtr[clientId - numOfReplicas as int].stateNum
    {
      statePtr[ClientToIndex(clientId)].stateNum
    }

    /** `set_last_state_value`: that client's value changes, nothing else. */
    method SetLastStateValue(clientId: nat, value: u64)
      requires Valid() && IsClient(clientId)
      modifies statePtr
      ensures Valid()
      ensures GetLastStateValue(clientId) == value
      ensures GetLastStateNum(clientId) == old(GetLastStateNum(clientId))
      ensures forall d :: IsClient(d) && d != clientId ==>
        GetLastStateValue(d) == old(GetLastStateValue(d)) && GetLastStateNum(d) == old(GetLastStateNum(d))
      ensures statePtr[..] == old(statePtr[..])[ClientToIndex(clientId) := old(statePtr[ClientToIndex(clientId)]).(lastValue := value)]
    {
      var index := ClientToIndex(clientId);
      statePtr[index] := statePtr[index].(lastValue := value);
    }

    /** `set_last_state_num`: that client's count changes, nothing else. */
    method SetLastStateNum(clientId: nat, value: u64)
      requires Valid() && IsClient(clientId)
      modifies statePtr
      ensures Valid()
      ensures GetLastStateNum(clientId) == value
      ensures GetLastStateValue(clientId) == old(GetLastStateValue(clientId))
      ensures forall d :: IsClient(d) && d != clientId ==>
        GetLastStateValue(d) == old(GetLastStateValue(d)) && GetLastStateNum(d) == old(GetLastStateNum(d))
      ensures statePtr[..] == old(statePtr[..])[ClientToIndex(clientId) := old(statePtr[ClientToIndex(clientId)]).(stateNum := value)]
    {
      var index := ClientToIndex(clientId);
      statePtr[index] := statePtr[index].(stateNum := value);
    }

    /** `execute`: lines 237-437. The register array is not used. */
    method Execute(store: DocStore, clientId: nat, sequenceNum: nat, readOnly: bool,
                   requestSize: nat, request: array<char>,
                   maxReplySize: nat, outReply: array<char>, outActualReplySize: nat,
                   parse: string -> Obj, toText: Json -> string)
      returns (result: int, replySize: nat)
      requires requestSize <= request.Length && outReply.Length == maxReplySize
      requires Admitted(store.docs, parse(request[..requestSize]), readOnly)
      requires var o := Respond(store.docs, parse(request[..requestSize]), readOnly);
               o.reply.Some? ==> |CString(ReplyText(o.reply.value, toText))| < maxReplySize
      modifies store, outReply
      ensures result == 0
      ensures var o := Respond(old(store.docs), parse(old(request[..requestSize])), readOnly);
        && store.docs == o.docs
        && (o.reply.None? ==> outReply[..] == old(outReply[..]) && replySize == outActualReplySize)
        && (o.reply.Some? ==>
              replySize == |ReplyText(o.reply.value, toText)|
              && Holds(outReply[..], ReplyText(o.reply.value, toText), old(outReply[..])))
    {
      var requestString := ParseCharString(request, requestSize);
      var requestJson := parse(requestString);
      var reply: Option<Reply>;
      if readOnly {
        reply := ReadReply(store.docs, requestJson);
      } else {
        reply := None;
        var u := WriteUpdate(requestJson);
        if u.Some? {
          FetchMergePut(store, u.value);
          reply := Some(Text(ReturnOk));
        }
      }
      replySize := outActualReplySize;
      if reply.Some? {
        replySize := SendReply(outReply, ReplyText(reply.value, toText));
      }
      result := 0;
    }
  }

  // ---------------------------------------------------------------------------
  // Reads: `public_keys`, `quorum_size`, `byzantine_groups`, by `BGID`.

  predicate IsLookupMode(mode: string) {
    mode == "public_keys" || mode == "quorum_size" || mode == "byzantine_groups"
  }

  predicate ReadAdmissible(docs: map<string, Obj>, req: Obj) {
    && HasString(req, "Mode")
    && (IsLookupMode(req["Mode"].s) ==>
          req["Mode"].s in docs && HasString(req, "BGID") && HasObject(docs[req["Mode"].s], req["BGID"].s))
  }

  /** The entry stored under `BGID` in the document the mode names; `None`
      for every other mode, `emulators` and `super_leafs` included. */
  function ReadReply(docs: map<string, Obj>, req: Obj): (r: Option<Reply>)
    requires ReadAdmissible(docs, req)
    ensures r.Some? <==> IsLookupMode(req["Mode"].s)
  {
    if IsLookupMode(req["Mode"].s) then Some(Body(docs[req["Mode"].s][req["BGID"].s])) else None
  }

  // ---------------------------------------------------------------------------
  // Writes: `quorum_size` and `public_keys`.

  predicate WriteFields(req: Obj) {
    && HasString(req, "Mode")
    && (req["Mode"].s == "quorum_size" ==>
          HasString(req, "quorum_cert") && HasString(req, "BGID") && HasString(req, "size") && HasString(req, "cycle"))
    && (req["Mode"].s == "public_keys" ==>
          HasObject(req, "keys") && HasString(req["keys"].fields, "certificate_msp") && HasString(req, "BGID"))
  }

  /** The write a request asks for; `None` for every other mode. */
  function WriteUpdate(req: Obj): (u: Option<Update>)
    requires WriteFields(req)
    ensures u.Some? <==> req["Mode"].s in {"quorum_size", "public_keys"}
    ensures u.Some? ==> u.value.doc == req["Mode"].s && IsLookupMode(u.value.doc) && u.value.target == req["BGID"].s
  {
    if req["Mode"].s == "quorum_size" then Some(Update("quorum_size", req["BGID"].s, QuorumEntry(req)))
    else if req["Mode"].s == "public_keys" then Some(Update("public_keys", req["BGID"].s, req["keys"].fields))
    else None
  }

  predicate WriteAdmissible(docs: map<string, Obj>, req: Obj) {
    WriteFields(req) && (WriteUpdate(req).Some? ==> Applicable(docs, WriteUpdate(req).value))
  }

  predicate Admitted(docs: map<string, Obj>, req: Obj, readOnly: bool) {
    if readOnly then ReadAdmissible(docs, req) else WriteAdmissible(docs, req)
  }

  function Respond(docs: map<string, Obj>, req: Obj, readOnly: bool): Outcome
    requires Admitted(docs, req, readOnly)
  {
    if readOnly then Outcome(ReadReply(docs, req), docs)
    else match WriteUpdate(req)
      case None => Outcome(None, docs)
      case Some(u) => Outcome(Some(Text(ReturnOk)), Apply(docs, u))
  }

  // ---------------------------------------------------------------------------
  // Properties.

  /** Every handled write answers exactly "OK", two characters long. */
  lemma WriteRepliesOk(docs: map<string, Obj>, req: Obj, toText: Json -> string)
    requires WriteAdmissible(docs, req) && WriteUpdate(req).Some?
    ensures Respond(docs, req, false).reply == Some(Text("OK"))
    ensures |ReplyText(Respond(docs, req, false).reply.value, toText)| == 2
  {
  }

  /** The modes this replica leaves for later (`emulators`, `super_leafs`,
      and a `byzantine_groups` write) change neither the store nor the reply. */
  lemma UnimplementedModesUntouched(docs: map<string, Obj>, req: Obj, readOnly: bool)
    requires Admitted(docs, req, readOnly)
    requires req["Mode"].s in {"emulators", "super_leafs"} || (!readOnly && req["Mode"].s == "byzantine_groups")
    ensures Respond(docs, req, readOnly) == Outcome(None, docs)
  {
  }

  /** A lookup after a write of the same `BGID` returns what was written, and
      the other entries of the document are copied unchanged. */
  lemma WriteThenRead(docs: map<string, Obj>, req: Obj, query: Obj)
    requires WriteAdmissible(docs, req) && WriteUpdate(req).Some?
    requires HasString(query, "Mode") && query["Mode"] == req["Mode"]
    requires HasString(query, "BGID") && query["BGID"] == req["BGID"]
    ensures ReadAdmissible(Respond(docs, req, false).docs, query)
    ensures ReadReply(Respond(docs, req, false).docs, query) == Some(Body(JObject(WriteUpdate(req).value.entry)))
    ensures var u := WriteUpdate(req).value;
      forall k :: k in docs[u.doc] && k != "_id" && k != u.target ==>
        k in Respond(docs, req, false).docs[u.doc] && Respond(docs, req, false).docs[u.doc][k] == docs[u.doc][k]
  {
    ApplyReadBack(docs, WriteUpdate(req).value);
  }
}
