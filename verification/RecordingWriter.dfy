/**
The writer that passes a response through while keeping a copy of it
(internal/httpapi/idempotency.go), over the writer of Go's net/http underneath.
*/
module RecordingWriter {
  import opened Binary

  type Body = seq<Byte>

  /** One call a handler makes on its response writer. */
  datatype Call = Header(status: int) | Write(bytes: Body)

  /** net/http sends a 1xx as an extra response and waits for the final one; 101 is final. */
  predicate Informational(status: int) { 100 <= status <= 199 && status != 101 }

  /** The status net/http puts on the wire as the response's own: the first final one, or 200. */
  function WireStatus(calls: seq<Call>): int {
    if calls == [] then 200
    else match calls[0]
      case Write(_) => 200
      case Header(status) => if Informational(status) then WireStatus(calls[1..]) else status
  }

  function BodyOf(calls: seq<Call>): Body {
    if calls == [] then []
    else BodyOf(calls[..|calls| - 1])
         + match calls[|calls| - 1] case Write(bytes) => bytes case Header(_) => []
  }

  /** One more call adds what it writes to the body, and leaves a status there is. */
  lemma OneMoreCall(calls: seq<Call>, c: Call)
    ensures BodyOf(calls + [c]) == BodyOf(calls) + if c.Write? then c.bytes else []
    ensures calls != [] ==> CopiedStatus(calls + [c]) == CopiedStatus(calls)
  {
    assert (calls + [c])[..|calls|] == calls;
  }

  /** What the copy holds as the status: the first header call, unless the body came before it. */
  function CopiedStatus(calls: seq<Call>): int {
    if calls != [] && calls[0].Header? then calls[0].status else 200
  }

  /** The writer underneath, as the calls it was given. */
  class ResponseWriter {
    var calls: seq<Call>

    constructor ()
      ensures calls == []
    {
      calls := [];
    }

    method WriteHeader(status: int)
      modifies this
      ensures calls == old(calls) + [Header(status)]
    {
      calls := calls + [Header(status)];
    }

    method Write(bytes: Body)
      modifies this
      ensures calls == old(calls) + [Call.Write(bytes)]
    {
      calls := calls + [Call.Write(bytes)];
    }
  }

  class Recorder {
    const inner: ResponseWriter
    var status: int
    var wroteHeader: bool
    var body: Body

    /** The copy agrees with what has been passed through so far. */
    ghost predicate Valid()
      reads this, inner
    {
      && status == CopiedStatus(inner.calls)
      && body == BodyOf(inner.calls)
      && (wroteHeader <==> inner.calls != [])
    }

    constructor (inner: ResponseWriter)
      requires inner.calls == []
      ensures Valid() && this.inner == inner
    {
      this.inner := inner;
      status, wroteHeader, body := 200, false, [];
    }

    method WriteHeader(status: int)
      requires Valid()
      modifies this, inner
      ensures Valid() && inner.calls == old(inner.calls) + [Header(status)]
      ensures this.status == (if old(inner.calls) == [] then status else old(this.status)) && body == old(body)
    {
      if !wroteHeader {
        this.status := status;
        wroteHeader := true;
      }
      inner.WriteHeader(status);
      OneMoreCall(old(inner.calls), Header(status));
      assert body + [] == body;
    }

    method Write(bytes: Body)
      requires Valid()
      modifies this, inner
      ensures Valid() && inner.calls == old(inner.calls) + [Call.Write(bytes)]
      ensures status == (if old(inner.calls) == [] then 200 else old(status)) && body == old(body) + bytes
    {
      wroteHeader := true;
      body := body + bytes;
      inner.Write(bytes);
      OneMoreCall(old(inner.calls), Call.Write(bytes));
    }
  }

  lemma {:induction false} WireStatusIsFinal(calls: seq<Call>)
    ensures !Informational(WireStatus(calls))
  {
    if calls != [] && calls[0].Header? && Informational(calls[0].status) {
      WireStatusIsFinal(calls[1..]);
    }
  }

  /** The copied status is the one on the wire exactly when no informational header came first. */
  lemma CopyIsFaithfulIff(calls: seq<Call>)
    ensures CopiedStatus(calls) == WireStatus(calls)
       <==> !(calls != [] && calls[0].Header? && 100 <= calls[0].status <= 199 && calls[0].status != 101)
  {
    WireStatusIsFinal(calls);
  }

  /** An early-hints header followed by the real answer: 103 is what would be recorded, and replayed. */
  lemma EarlyHintsAreCopied(body: Body)
    ensures var calls := [Header(103), Header(201), Call.Write(body)];
      CopiedStatus(calls) == 103 && WireStatus(calls) == 201
  {
    var calls := [Header(103), Header(201), Call.Write(body)];
    assert WireStatus(calls[1..]) == 201;
  }
}
