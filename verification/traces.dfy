/**
 Runs of the XLink Kai session: any sequence of calls the application and
 the receiver thread can make, and what holds along every such run.
 */
module XLinkTraces {
  import opened Text
  import opened XLinkSession

  /** One call on the session, with the inputs the operating system supplies. */
  datatype Action =
    | OpenSocket(granted: bool)
    | ConnectAt(now: int, delivered: bool)
    | SendMessage(msg: string, delivered: bool)
    | KeepAliveReply(delivered: bool)
    | Receive(buffer: string, delivered: bool)
    | StartReceiving
    | TickAt(now: int)
    | CloseSession(delivered: bool)

  /** A received buffer, like every `std::string`, is shorter than `npos`. */
  predicate Admissible(a: Action)
  {
    a.Receive? ==> |a.buffer| < NPOS
  }

  predicate AllAdmissible(actions: seq<Action>)
  {
    forall i :: 0 <= i < |actions| ==> Admissible(actions[i])
  }

  function Step(p: Protocol, s: Session, a: Action): Session
    requires ValidProtocol(p) && Admissible(a)
  {
    match a
    case OpenSocket(granted) => Open(s, granted).session
    case ConnectAt(now, delivered) => Connect(p, s, now, delivered).session
    case SendMessage(msg, delivered) => Send(p, s, msg, delivered).session
    case KeepAliveReply(delivered) => HandleKeepAlive(p, s, delivered).session
    case Receive(buffer, delivered) => ReceiveCallback(p, s, buffer, delivered).session
    case StartReceiving => StartReceiverThread(s).session
    case TickAt(now) => Tick(p, s, now)
    case CloseSession(delivered) => Close(p, s, delivered)
  }

  function Run(p: Protocol, s: Session, actions: seq<Action>): Session
    requires ValidProtocol(p) && AllAdmissible(actions)
    decreases |actions|
  {
    if |actions| == 0 then s
    else
      assert Admissible(actions[0]);
      Run(p, Step(p, s, actions[0]), actions[1..])
  }

  /** Nothing is ever taken back: the datagrams sent before a run stay a prefix of those sent after. */
  lemma {:induction false} SentGrows(p: Protocol, s: Session, actions: seq<Action>)
    requires ValidProtocol(p) && AllAdmissible(actions)
    ensures s.sent <= Run(p, s, actions).sent
    decreases |actions|
  {
    if |actions| > 0 {
      assert Admissible(actions[0]);
      var t := Step(p, s, actions[0]);
      StepSentGrows(p, s, actions[0]);
      SentGrows(p, t, actions[1..]);
    }
  }

  /** Each call sends at most one datagram and never takes one back. */
  lemma StepSentGrows(p: Protocol, s: Session, a: Action)
    requires ValidProtocol(p) && Admissible(a)
    ensures s.sent <= Step(p, s, a).sent
  {
    match a
    case Receive(buffer, delivered) =>
      assert s.sent <= ReceiveCallback(p, s, buffer, delivered).session.sent;
    case _ =>
  }

  /** A pending connect always has its connect request among the datagrams sent. */
  predicate PendingWasSent(p: Protocol, s: Session)
  {
    s.connectInitiated ==> p.connectString in s.sent
  }

  lemma StepKeepsPendingWasSent(p: Protocol, s: Session, a: Action)
    requires ValidProtocol(p) && Admissible(a) && PendingWasSent(p, s)
    ensures PendingWasSent(p, Step(p, s, a))
  {
    if a.Receive? {
      ReceiveHandshake(p, s, a.buffer, a.delivered);
    }
  }

  lemma {:induction false} RunKeepsPendingWasSent(p: Protocol, s: Session, actions: seq<Action>)
    requires ValidProtocol(p) && AllAdmissible(actions) && PendingWasSent(p, s)
    ensures PendingWasSent(p, Run(p, s, actions))
    decreases |actions|
  {
    if |actions| > 0 {
      assert Admissible(actions[0]);
      StepKeepsPendingWasSent(p, s, actions[0]);
      RunKeepsPendingWasSent(p, Step(p, s, actions[0]), actions[1..]);
    }
  }

  /** Unconfirmed, and nothing but connect and disconnect requests sent so far. */
  predicate Quiet(p: Protocol, s: Session)
  {
    !s.connected && forall m :: m in s.sent ==> IsControl(p, m)
  }

  /** An action that does not deliver the acknowledgement. */
  predicate NotAcknowledgement(p: Protocol, a: Action)
  {
    a.Receive? ==> !StartsWith(CString(a.buffer), p.connectedString)
  }

  lemma StepKeepsQuiet(p: Protocol, s: Session, a: Action)
    requires ValidProtocol(p) && Admissible(a) && NotAcknowledgement(p, a) && Quiet(p, s)
    ensures Quiet(p, Step(p, s, a))
  {
    var t := Step(p, s, a);
    match a
    case Receive(buffer, delivered) =>
      ReceiveHandshake(p, s, buffer, delivered);
      ReceiveKeepAlive(p, s, buffer, delivered);
      assert t.sent == s.sent;
    case SendMessage(msg, delivered) =>
      assert t.sent == s.sent || (IsControl(p, msg) && t.sent == s.sent + [msg]);
    case ConnectAt(now, delivered) =>
      assert t.sent == s.sent || t.sent == s.sent + [p.connectString];
    case CloseSession(delivered) =>
      assert t.sent == s.sent || t.sent == s.sent + [p.disconnectString];
    case _ =>
      assert t.sent == s.sent;
  }

  /**
   Until the engine acknowledges, the session sends nothing but connect
   and disconnect requests, whatever the application asks it to send.
   */
  lemma {:induction false} NothingBeforeAcknowledgement(p: Protocol, s: Session, actions: seq<Action>)
    requires ValidProtocol(p) && AllAdmissible(actions) && Quiet(p, s)
    requires forall i :: 0 <= i < |actions| ==> NotAcknowledgement(p, actions[i])
    ensures Quiet(p, Run(p, s, actions))
    decreases |actions|
  {
    if |actions| > 0 {
      assert Admissible(actions[0]) && NotAcknowledgement(p, actions[0]);
      StepKeepsQuiet(p, s, actions[0]);
      assert forall i :: 0 <= i < |actions| - 1 ==> actions[1..][i] == actions[i + 1];
      NothingBeforeAcknowledgement(p, Step(p, s, actions[0]), actions[1..]);
    }
  }

  /** A connect pending since t0 on an open socket, with the receiver loop running. */
  predicate Awaiting(s: Session, t0: int)
  {
    s.socketOpen && s.receiverThread && !s.ioStopped && s.connectInitiated && !s.connected && s.timerStart == t0
  }

  /**
   A call that leaves a connect pending since t0 pending: a send, a
   keepalive reply, another start of the receiver loop, a datagram that is
   not the acknowledgement, or a turn of the loop's timeout check that comes
   no later than the deadline.
   */
  predicate Interleaved(p: Protocol, t0: int, a: Action)
  {
    || a.SendMessage? || a.KeepAliveReply? || a.StartReceiving?
    || (a.Receive? && NotAcknowledgement(p, a))
    || (a.TickAt? && a.now <= t0 + p.connectionTimeout)
  }

  lemma StepKeepsAwaiting(p: Protocol, s: Session, t0: int, a: Action)
    requires ValidProtocol(p) && Admissible(a) && Interleaved(p, t0, a) && Awaiting(s, t0)
    ensures Awaiting(Step(p, s, a), t0)
  {
    if a.Receive? {
      ReceiveHandshake(p, s, a.buffer, a.delivered);
    }
  }

  lemma {:induction false} RunKeepsAwaiting(p: Protocol, s: Session, t0: int, actions: seq<Action>)
    requires ValidProtocol(p) && AllAdmissible(actions) && Awaiting(s, t0)
    requires forall i :: 0 <= i < |actions| ==> Interleaved(p, t0, actions[i])
    ensures Awaiting(Run(p, s, actions), t0)
    decreases |actions|
  {
    if |actions| > 0 {
      assert Admissible(actions[0]) && Interleaved(p, t0, actions[0]);
      StepKeepsAwaiting(p, s, t0, actions[0]);
      RunKeepsAwaiting(p, Step(p, s, actions[0]), t0, actions[1..]);
    }
  }

  /**
   The handshake timeout cannot be dodged: once the receiver loop runs and
   a connect request has gone out at t0, any mix of sends, keepalive
   replies and datagrams other than the acknowledgement leaves the connect
   pending, and the first tick past t0 + timeout drops it and closes the
   socket.
   */
  lemma UnansweredConnectTimesOut(p: Protocol, s: Session, t0: int, actions: seq<Action>, now: int)
    requires ValidProtocol(p) && AllAdmissible(actions)
    requires s.socketOpen && s.receiverThread && !s.ioStopped && !s.connected
    requires forall i :: 0 <= i < |actions| ==> Interleaved(p, t0, actions[i])
    requires now > t0 + p.connectionTimeout
    ensures var pending := Connect(p, s, t0, true);
            var r := Tick(p, Run(p, pending.session, actions), now);
            && pending.ok
            && IsDisconnected(r) && !r.socketOpen && r.ioStopped
  {
    RunKeepsAwaiting(p, Connect(p, s, t0, true).session, t0, actions);
  }

  /**
   The handshake from start to finish: open, connect (pending), receive the
   acknowledgement (connected), close. The disconnect request is the last
   datagram sent, yet the closed session still counts as connected.
   */
  lemma HandshakeScenario(p: Protocol, now: int)
    requires ValidProtocol(p)
    ensures var start := Open(Init, true);
            var running := StartReceiverThread(start.session).session;
            var pending := Connect(p, running, now, true);
            var confirmed := ReceiveCallback(p, pending.session, p.connectedString, true).session;
            var closed := Close(p, confirmed, true);
            && start.ok && pending.ok
            && pending.session.connectInitiated && !pending.session.connected
            && confirmed.connected && !confirmed.connectInitiated
            && closed.sent == [p.connectString, p.disconnectString]
            && !closed.socketOpen && !IsDisconnected(closed)
  {
    var running := StartReceiverThread(Open(Init, true).session).session;
    var pending := Connect(p, running, now, true);
    CStringWithoutNul(p.connectedString);
    ReceiveHandshake(p, pending.session, p.connectedString, true);
    ReceiveKeepAlive(p, pending.session, p.connectedString, true);
  }

  /**
   The acknowledgement is honoured even when no connect was ever sent: the
   handshake guard does not look at `connectInitiated`.
   */
  lemma UnsolicitedAcknowledgement(p: Protocol)
    requires ValidProtocol(p)
    ensures var start := StartReceiverThread(Open(Init, true).session).session;
            var r := ReceiveCallback(p, start, p.connectedString, true).session;
            r.connected && r.sent == []
  {
    var start := StartReceiverThread(Open(Init, true).session).session;
    CStringWithoutNul(p.connectedString);
    ReceiveHandshake(p, start, p.connectedString, true);
    ReceiveKeepAlive(p, start, p.connectedString, true);
  }

  /**
   A connect that is never acknowledged: the receiver loop runs, and the
   first tick past the deadline closes the socket and clears both flags.
   */
  lemma TimeoutScenario(p: Protocol, now: int)
    requires ValidProtocol(p)
    ensures var running := StartReceiverThread(Open(Init, true).session).session;
            var pending := Connect(p, running, now, true).session;
            var expired := Tick(p, pending, now + p.connectionTimeout + 1);
            && Tick(p, pending, now + p.connectionTimeout) == pending
            && pending.connectInitiated
            && IsDisconnected(expired) && !expired.socketOpen && expired.sent == [p.connectString]
  {
    var running := StartReceiverThread(Open(Init, true).session).session;
    TimeoutDisconnects(p, Connect(p, running, now, true).session, now + p.connectionTimeout + 1, now);
  }
}
