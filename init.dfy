/** The client side of the LSP initialize handshake: a connection is a pair
    of message queues, `InitializeStart` sends the "initialize" request and
    `InitializeFinish` takes the next inbound message and, if it is a
    response, sends the "initialized" notification. */
module Init {
  import opened Msg

  /** The identifier of the initialize request. */
  const InitId: RequestId := Num(1)

  /** The one message `InitializeStart` sends. */
  const InitializeRequest: Message := Request(InitId, "initialize", InitializeParams)

  /** The one message a successful `InitializeFinish` sends. */
  const InitializedNotification: Message := Notification("initialized", InitializedParams)

  /** What `InitializeFinish` returns when `m` is the message it receives.
      Any response is accepted, whatever its id and whether it carries a
      result or an error; a notification or a request is a protocol error
      that carries the message received. */
  function Verdict(m: Message): (r: Result<(), ProtocolError>)
    ensures r.Ok? <==> m.Response?
    ensures r.Err? ==> r.error.received == m
    ensures r.Err? ==> (r.error.UnexpectedNotification? <==> m.Notification?)
  {
    match m
    case Response(_, _, _) => Ok(())
    case Notification(_, _) => Err(UnexpectedNotification(m))
    case Request(_, _, _) => Err(UnexpectedMessage(m))
  }

  /** What `InitializeFinish` sends when `m` is the message it receives:
      the "initialized" notification exactly when it is accepted, and
      nothing otherwise. */
  function Reply(m: Message): (r: seq<Message>)
    ensures Verdict(m).Ok? ==> r == [InitializedNotification]
    ensures Verdict(m).Err? ==> r == []
  {
    if m.Response? then [InitializedNotification] else []
  }

  /** Some "initialize" request has been sent. */
  ghost predicate SentInitialize(s: seq<Message>)
  {
    exists i :: 0 <= i < |s| && IsInitializeRequest(s[i])
  }

  /** Every "initialized" notification in `s` comes after some "initialize"
      request. */
  ghost predicate InitializedAfterInitialize(s: seq<Message>)
  {
    forall j :: 0 <= j < |s| && IsInitializedNotification(s[j]) ==>
      exists i :: 0 <= i < j && IsInitializeRequest(s[i])
  }

  /** Connection is a pair of message queues: what the client has sent, in
      order, and what it has yet to receive, in order. */
  class Connection {
    var outbound: seq<Message>
    var inbound: seq<Message>

    constructor (outbound: seq<Message>, inbound: seq<Message>)
      ensures this.outbound == outbound && this.inbound == inbound
    {
      this.outbound := outbound;
      this.inbound := inbound;
    }

    /** Puts `m` at the back of the outbound queue. */
    method Send(m: Message)
      modifies this
      ensures outbound == old(outbound) + [m]
      ensures inbound == old(inbound)
    {
      outbound := outbound + [m];
    }

    /** Takes the message at the head of the inbound queue. */
    method Recv() returns (m: Message)
      requires inbound != []
      modifies this
      ensures m == old(inbound)[0]
      ensures inbound == old(inbound)[1..]
      ensures outbound == old(outbound)
    {
      m := inbound[0];
      inbound := inbound[1..];
    }

    /** Sends the initialize request, with id 1 and the fixed parameters. */
    method InitializeStart()
      modifies this
      ensures outbound == old(outbound) + [InitializeRequest]
      ensures inbound == old(inbound)
    {
      var request := Request(Num(1), "initialize", InitializeParams);
      Send(request);
    }

    /** Receives one message and, if it is a response, sends the
        initialized notification. */
    method InitializeFinish() returns (r: Result<(), ProtocolError>)
      requires inbound != []
      modifies this
      ensures inbound == old(inbound)[1..]
      ensures r == Verdict(old(inbound)[0])
      ensures outbound == old(outbound) + Reply(old(inbound)[0])
    {
      var resp := Recv();
      match resp {
        case Response(_, _, _) =>
        case Notification(_, _) =>
          return Err(UnexpectedNotification(resp));
        case Request(_, _, _) =>
          return Err(UnexpectedMessage(resp));
      }
      var notification := Notification("initialized", InitializedParams);
      Send(notification);
      r := Ok(());
    }

    /** The client's start-up sequence: start the handshake, then finish it. */
    method Handshake() returns (r: Result<(), ProtocolError>)
      requires inbound != []
      modifies this
      ensures inbound == old(inbound)[1..]
      ensures r == Verdict(old(inbound)[0])
      ensures r.Ok? <==> old(inbound)[0].Response?
      ensures r.Ok? ==> outbound == old(outbound) + [InitializeRequest, InitializedNotification]
      ensures r.Err? ==> outbound == old(outbound) + [InitializeRequest]
      ensures InitializedAfterInitialize(old(outbound)) ==> InitializedAfterInitialize(outbound)
    {
      ghost var before := outbound;
      ghost var head := inbound[0];
      InitializeStart();
      r := InitializeFinish();
      if InitializedAfterInitialize(before) {
        HandshakeKeepsOrder(before, head);
      }
    }
  }

  /** Sending the initialize request keeps the order and records that it
      was sent. */
  lemma StartKeepsOrder(s: seq<Message>)
    requires InitializedAfterInitialize(s)
    ensures InitializedAfterInitialize(s + [InitializeRequest])
    ensures SentInitialize(s + [InitializeRequest])
  {
    var t := s + [InitializeRequest];
    assert IsInitializeRequest(t[|s|]);
    forall j | 0 <= j < |t| && IsInitializedNotification(t[j])
      ensures exists i :: 0 <= i < j && IsInitializeRequest(t[i])
    {
      assert t[j] == s[j];
      var i :| 0 <= i < j && IsInitializeRequest(s[i]);
      assert t[i] == s[i];
    }
  }

  /** Once the initialize request has been sent, finishing the handshake
      keeps the order, whatever message is received. */
  lemma FinishKeepsOrder(s: seq<Message>, m: Message)
    requires InitializedAfterInitialize(s)
    requires SentInitialize(s)
    ensures InitializedAfterInitialize(s + Reply(m))
  {
    var t := s + Reply(m);
    var i0 :| 0 <= i0 < |s| && IsInitializeRequest(s[i0]);
    assert t[i0] == s[i0];
    forall j | 0 <= j < |t| && IsInitializedNotification(t[j])
      ensures exists i :: 0 <= i < j && IsInitializeRequest(t[i])
    {
      if j < |s| {
        assert t[j] == s[j];
        var i :| 0 <= i < j && IsInitializeRequest(s[i]);
        assert t[i] == s[i];
      }
    }
  }

  /** Starting and then finishing the handshake sends "initialize" before
      "initialized". */
  lemma HandshakeKeepsOrder(s: seq<Message>, m: Message)
    requires InitializedAfterInitialize(s)
    ensures InitializedAfterInitialize(s + [InitializeRequest] + Reply(m))
  {
    StartKeepsOrder(s);
    FinishKeepsOrder(s + [InitializeRequest], m);
  }

  /** A worked example: on a connection that has sent nothing, a successful
      handshake leaves exactly the initialize request followed by the
      initialized notification on the outbound queue, and that is in order. */
  lemma HandshakeFromFresh(m: Message)
    requires Verdict(m).Ok?
    ensures [] + [InitializeRequest] + Reply(m) == [InitializeRequest, InitializedNotification]
    ensures InitializedAfterInitialize([InitializeRequest, InitializedNotification])
  {
    HandshakeKeepsOrder([], m);
  }

  /** The response's id is not compared with the initialize request's:
      a response with any id, result or error is accepted. */
  lemma AnyResponseAccepted(id: RequestId, result: Option<Params>, error: Option<ResponseError>)
    ensures Verdict(Response(id, result, error)) == Ok(())
    ensures Reply(Response(id, result, error)) == [InitializedNotification]
  {
  }

  /** The handshake keeps no state of its own: finishing it on a connection
      that never sent the initialize request still sends "initialized", so
      the order rests on callers starting before finishing. */
  lemma FinishAloneBreaksOrder(s: seq<Message>, m: Message)
    requires !SentInitialize(s)
    requires m.Response?
    ensures !InitializedAfterInitialize(s + Reply(m))
  {
    var t := s + Reply(m);
    assert IsInitializedNotification(t[|s|]);
    forall i | 0 <= i < |s|
      ensures !IsInitializeRequest(t[i])
    {
      assert t[i] == s[i];
    }
  }
}
