/**
 * The STOMP application session: the connect/disconnect handshake driven by
 * transport events, and the table of SEND requests waiting for the broker's
 * RECEIPT or ERROR.
 *
 * The transport is abstract: the session either holds one (`transportBound`)
 * or not, and every frame handed to it, every close request and every
 * callback fired is recorded in the ghost `log`. A future is a status in
 * `futures`, addressed by the handle `send` returns.
 */
module Protocol {
  import opened Wrappers
  import opened Messages

  datatype FutureStatus = Pending | Resolved | Rejected(reason: Option<string>)

  datatype Event =
    | Sent(msg: Msg)      // transport.send(msg)
    | CloseCalled         // transport.close()
    | AttachFired         // onAttach()
    | DetachFired         // onDetach()
    | DisconnectFired     // onDisconnect()

  class ApplicationSession {
    const host: string
    var receivedConnected: bool
    var goodbyeSent: bool
    var transportBound: bool
    /** Pending SEND requests: receipt id to future handle. */
    var sendReqs: map<string, nat>
    /** Every future handed out by `send`, by handle. */
    var futures: seq<FutureStatus>
    ghost var log: seq<Event>

    /** The table holds exactly the pending futures, each under one id. */
    ghost predicate Valid()
      reads this
    {
      && (forall id :: id in sendReqs ==> sendReqs[id] < |futures| && futures[sendReqs[id]] == Pending)
      && (forall a, b :: a in sendReqs && b in sendReqs && a != b ==> sendReqs[a] != sendReqs[b])
      && (forall d :: 0 <= d < |futures| && futures[d] == Pending ==> d in sendReqs.Values)
    }

    constructor (host: string)
      ensures Valid()
      ensures this.host == host
      ensures !receivedConnected && !goodbyeSent && !transportBound
      ensures sendReqs == map[] && futures == [] && log == []
    {
      this.host := host;
      receivedConnected := false;
      goodbyeSent := false;
      transportBound := false;
      sendReqs := map[];
      futures := [];
      log := [];
    }

    /** `transport.send(msg)`: TransportLost when there is no open transport. */
    method TransportSend(msg: Msg) returns (r: Outcome)
      modifies this`log
      ensures r == (if transportBound then Pass else Fail(TransportLost))
      ensures log == old(log) + (if transportBound then [Sent(msg)] else [])
    {
      if transportBound {
        log := log + [Sent(msg)];
        r := Pass;
      } else {
        r := Fail(TransportLost);
      }
    }

    /** Stores the transport and attaches. */
    method OnOpen() returns (r: Outcome)
      requires Valid()
      modifies this
      ensures Valid()
      ensures transportBound && !goodbyeSent && r == Pass
      ensures log == old(log) + [Sent(Connect(host, Some(DefaultAcceptVersion)))]
      ensures receivedConnected == old(receivedConnected)
      ensures sendReqs == old(sendReqs) && futures == old(futures)
    {
      transportBound := true;
      r := Attach();
    }

    /** Clears the goodbye flag and sends one CONNECT for the session's host. */
    method Attach() returns (r: Outcome)
      requires Valid()
      modifies this
      ensures Valid()
      ensures !goodbyeSent
      ensures r == (if transportBound then Pass else Fail(TransportLost))
      ensures log == old(log) + (if transportBound then [Sent(Connect(host, Some(DefaultAcceptVersion)))] else [])
      ensures transportBound == old(transportBound) && receivedConnected == old(receivedConnected)
      ensures sendReqs == old(sendReqs) && futures == old(futures)
    {
      goodbyeSent := false;
      r := TransportSend(Connect(host, Some(DefaultAcceptVersion)));
    }

    /** Closes the transport, or fails when there is none. */
    method Disconnect() returns (r: Outcome)
      modifies this`log
      ensures r == (if transportBound then Pass else Fail(TransportDisconnected))
      ensures log == old(log) + (if transportBound then [CloseCalled] else [])
    {
      if transportBound {
        log := log + [CloseCalled];
        r := Pass;
      } else {
        r := Fail(TransportDisconnected);
      }
    }

    /** The default `onDetach` callback: disconnect. */
    method OnDetach() returns (r: Outcome)
      modifies this`log
      ensures r == (if transportBound then Pass else Fail(TransportDisconnected))
      ensures log == old(log) + [DetachFired] + (if transportBound then [CloseCalled] else [])
    {
      log := log + [DetachFired];
      r := Disconnect();
    }

    /** Dispatches one inbound message. Before CONNECTED only CONNECTED and
        ERROR are accepted; afterwards only RECEIPT and ERROR, which settle the
        pending request named by their receipt id. */
    method OnMessage(m: Msg) returns (r: Outcome)
      requires Valid()
      modifies this
      ensures Valid()
      ensures receivedConnected == (old(receivedConnected) || m.Connected?)
      ensures goodbyeSent == old(goodbyeSent) && transportBound == old(transportBound)
      // a refused message changes no request
      ensures r.Fail? ==> sendReqs == old(sendReqs) && futures == old(futures)
      // handshake: the request table is not touched before CONNECTED
      ensures !old(receivedConnected) ==> sendReqs == old(sendReqs) && futures == old(futures)
      ensures !old(receivedConnected) && m.Connected? ==>
                r == Pass && log == old(log) + [AttachFired]
      ensures !old(receivedConnected) && m.Error? ==>
                && r == (if transportBound then Pass else Fail(TransportDisconnected))
                && log == old(log) + [DetachFired] + (if transportBound then [CloseCalled] else [])
      ensures !old(receivedConnected) && !m.Connected? && !m.Error? ==>
                r.Fail? && r.error.ProtocolError? && log == old(log)
      // established
      ensures old(receivedConnected) ==> log == old(log)
      ensures old(receivedConnected) && !m.Receipt? && !m.Error? ==> r.Fail? && r.error.ProtocolError?
      ensures old(receivedConnected) && m.Receipt? ==>
                if m.receiptId in old(sendReqs) then
                  && r == Pass
                  && sendReqs == old(sendReqs) - {m.receiptId}
                  && futures == old(futures)[old(sendReqs)[m.receiptId] := Resolved]
                else r == Fail(ProtocolError("RECEIPT received for non-pending request ID " + m.receiptId))
      ensures old(receivedConnected) && m.Error? && m.errReceiptId.None? ==>
                r == Pass && sendReqs == old(sendReqs) && futures == old(futures)
      ensures old(receivedConnected) && m.Error? && m.errReceiptId.Some? ==>
                if m.errReceiptId.value in old(sendReqs) then
                  && r == Pass
                  && sendReqs == old(sendReqs) - {m.errReceiptId.value}
                  && futures == old(futures)[old(sendReqs)[m.errReceiptId.value] := Rejected(m.message)]
                else r == Fail(ProtocolError(
                       "ApplicationSession.onMessage(): ERROR received for non-pending request with receipt-id "
                       + m.errReceiptId.value))
    {
      if !receivedConnected {
        if m.Connected? {
          receivedConnected := true;
          log := log + [AttachFired];
          r := Pass;
        } else if m.Error? {
          r := OnDetach();
        } else {
          r := Fail(ProtocolError("Received message, and session is not yet established"));
        }
      } else {
        if m.Receipt? {
          if m.receiptId in sendReqs {
            Settle(m.receiptId, Resolved);
            r := Pass;
          } else {
            r := Fail(ProtocolError("RECEIPT received for non-pending request ID " + m.receiptId));
          }
        } else if m.Error? {
          if m.errReceiptId.Some? {
            if m.errReceiptId.value in sendReqs {
              Settle(m.errReceiptId.value, Rejected(m.message));
              r := Pass;
            } else {
              r := Fail(ProtocolError(
                "ApplicationSession.onMessage(): ERROR received for non-pending request with receipt-id "
                + m.errReceiptId.value));
            }
          } else {
            r := Pass;
          }
        } else {
          r := Fail(ProtocolError("Unexpected message"));
        }
      }
    }

    /** Pops the request `id` from the table and settles its future. */
    method Settle(id: string, outcome: FutureStatus)
      requires Valid() && id in sendReqs && !outcome.Pending?
      modifies this`sendReqs, this`futures
      ensures Valid()
      ensures sendReqs == old(sendReqs) - {id}
      ensures futures == old(futures)[old(sendReqs)[id] := outcome]
    {
      var d := sendReqs[id];
      sendReqs := sendReqs - {id};
      futures := futures[d := outcome];
      forall e | 0 <= e < |futures| && futures[e] == Pending ensures e in sendReqs.Values {
        assert e != d && old(futures)[e] == Pending;
        var other :| other in old(sendReqs) && old(sendReqs)[other] == e;
        assert other != id;
        assert sendReqs[other] == e;
      }
    }

    /** The transport went away: forget it, fire `onDetach` if the session was
        established (its default raises, the transport being gone, and the
        exception is swallowed), then fire `onDisconnect`. */
    method OnClose(wasClean: bool)
      requires Valid()
      modifies this
      ensures Valid()
      ensures !transportBound && !receivedConnected
      ensures log == old(log) + (if old(receivedConnected) then [DetachFired] else []) + [DisconnectFired]
      ensures goodbyeSent == old(goodbyeSent)
      ensures sendReqs == old(sendReqs) && futures == old(futures)
    {
      transportBound := false;
      if receivedConnected {
        var swallowed := OnDetach();
        receivedConnected := false;
      }
      log := log + [DisconnectFired];
    }

    /** Sends one DISCONNECT; refused before CONNECTED and a second time. */
    method Detach() returns (r: Outcome)
      requires Valid()
      modifies this
      ensures Valid()
      ensures !old(receivedConnected) ==> r == Fail(NotAttached) && log == old(log) && goodbyeSent == old(goodbyeSent)
      ensures old(receivedConnected) && !old(goodbyeSent) ==>
                && r == (if transportBound then Pass else Fail(TransportLost))
                && log == old(log) + (if transportBound then [Sent(Msg.Disconnect)] else [])
                && goodbyeSent == transportBound
      ensures old(receivedConnected) && old(goodbyeSent) ==>
                r.Fail? && r.error.SessionNotReady? && log == old(log) && goodbyeSent
      ensures receivedConnected == old(receivedConnected) && transportBound == old(transportBound)
      ensures sendReqs == old(sendReqs) && futures == old(futures)
    {
      if !receivedConnected {
        return Fail(NotAttached);
      }
      if !goodbyeSent {
        r := TransportSend(Msg.Disconnect);
        if r.Pass? {
          goodbyeSent := true;
        }
      } else {
        r := Fail(SessionNotReady("Already requested to close the session"));
      }
    }

    /** Sends one SEND carrying a fresh receipt id and registers a pending
        future under that id. `id` is what `util.id()` returns: an id that no
        pending request uses. */
    method Send(destination: string, payload: string, id: string) returns (r: Result<nat>)
      requires Valid() && id !in sendReqs
      modifies this
      ensures Valid()
      ensures r.Ok? <==> old(transportBound)
      ensures r.Err? ==> r.error == TransportLost && sendReqs == old(sendReqs)
                         && futures == old(futures) && log == old(log)
      ensures r.Ok? ==>
                && r.value == |old(futures)|
                && futures == old(futures) + [Pending]
                && sendReqs == old(sendReqs)[id := r.value]
                && log == old(log) + [Sent(Msg.Send(destination, payload, Some(id)))]
      ensures receivedConnected == old(receivedConnected) && goodbyeSent == old(goodbyeSent)
      ensures transportBound == old(transportBound)
    {
      if !transportBound {
        return Err(TransportLost);
      }
      var msg := Msg.Send(destination, payload, Some(id));
      var d := |futures|;
      futures := futures + [Pending];
      sendReqs := sendReqs[id := d];
      var sent := TransportSend(msg);
      r := Ok(d);
      forall e | 0 <= e < |futures| && futures[e] == Pending ensures e in sendReqs.Values {
        if e < d {
          var other :| other in old(sendReqs) && old(sendReqs)[other] == e;
          assert sendReqs[other] == e;
        } else {
          assert sendReqs[id] == e;
        }
      }
    }
  }

  /** One whole client session against a broker that acknowledges: open,
      CONNECTED, one SEND, its RECEIPT, then two `detach` calls. The request
      ends resolved, the table empties, and only the first `detach` goes out. */
  method AcknowledgedSession(host: string, destination: string, payload: string, id: string)
    returns (status: FutureStatus, pending: nat, secondDetach: Outcome)
    ensures status == Resolved && pending == 0
    ensures secondDetach.Fail? && secondDetach.error.SessionNotReady?
  {
    var s := new ApplicationSession(host);
    var open := s.OnOpen();
    assert s.transportBound && !s.receivedConnected && s.sendReqs == map[] && s.futures == [];
    var attached := s.OnMessage(Connected("1.2"));
    assert s.transportBound && s.receivedConnected && !s.goodbyeSent;
    assert s.sendReqs == map[] && s.futures == [];
    var sent := s.Send(destination, payload, id);
    assert s.sendReqs == map[id := 0] && s.futures == [Pending];
    var acked := s.OnMessage(Receipt(id));
    assert s.sendReqs == map[] && s.futures == [Resolved];
    status := s.futures[0];
    pending := |s.sendReqs|;
    var first := s.Detach();
    assert s.goodbyeSent && s.receivedConnected;
    secondDetach := s.Detach();
  }
}
