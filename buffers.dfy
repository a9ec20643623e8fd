/** The byte buffers the replication runtime hands to `execute`: the request
    (`const char*` with its size) and the reply area (`char* outReply`). */
module Buffers {

  /** `parse_char_string(request, requestSize)`: rebuilds a string by appending
      the buffer's characters one at a time. The write branch of the membership
      replica runs the same loop over `outReply` to recover the commit proof. */
  method ParseCharString(request: array<char>, requestSize: nat) returns (s: string)
    requires requestSize <= request.Length
    ensures |s| == requestSize
    ensures s == request[..requestSize]
  {
    s := "";
    var i := 0;
    while i < requestSize
      invariant 0 <= i <= requestSize
      invariant s == request[..i]
    {
      s := s + [request[i]];
      i := i + 1;
    }
  }

  /** The characters `strcpy` copies from a string: everything before its
      first NUL (the string's `c_str()` ends there). */
  function CString(s: string): (p: string)
    ensures p <= s
    ensures '\0' !in p
    ensures |p| < |s| ==> s[|p|] == '\0'
  {
    if s == [] || s[0] == '\0' then [] else [s[0]] + CString(s[1..])
  }

  /** What `strcpy(outReply, text.c_str())` leaves in a buffer that held
      `before`: the copied characters, a terminating NUL, and the old contents
      after that. */
  ghost predicate Holds(buffer: seq<char>, text: string, before: seq<char>) {
    var c := CString(text);
    && |buffer| == |before|
    && |c| < |buffer|
    && buffer[..|c|] == c
    && buffer[|c|] == '\0'
    && buffer[|c| + 1..] == before[|c| + 1..]
  }

  /** `std::strcpy(outReply, text.c_str()); outActualReplySize = text.length();`
      The reported size is the string's length even though the copy stops at
      a NUL inside it. */
  method SendReply(outReply: array<char>, text: string) returns (size: nat)
    requires |CString(text)| < outReply.Length
    modifies outReply
    ensures size == |text|
    ensures Holds(outReply[..], text, old(outReply[..]))
  {
    var i := 0;
    while i < |text| && text[i] != '\0'
      invariant 0 <= i <= |CString(text)|
      invariant text[..i] == CString(text)[..i]
      invariant outReply[..i] == text[..i]
      invariant outReply[i..] == old(outReply[i..])
    {
      outReply[i] := text[i];
      i := i + 1;
    }
    ghost var c := CString(text);
    assert i == |c|;
    ghost var copied := outReply[..];
    outReply[i] := '\0';
    assert outReply[i + 1..] == copied[i + 1..];
    assert outReply[..i] == copied[..i];
    size := |text|;
  }
}
