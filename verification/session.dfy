/**
 The XLink Kai session: one UDP socket to the XLink Kai engine, a text
 protocol of datagrams "tag;payload", and the two flags that track the
 handshake (`connectInitiated` while a connect request awaits its
 acknowledgement, `connected` once it came).

 The session is an immutable record and every operation a pure transition.
 What the operating system decides is an input: whether the socket could be
 opened (`granted`), whether a datagram went out (`delivered`), and the wall
 clock (`now`). The datagrams the session emits are kept in `sent`, in order.
 */
module XLinkSession {
  import opened Text

  /**
   The protocol constants of the connection. Their values live in a header
   that is not part of this model; `ValidProtocol` states what the code
   relies on. The separator is one character, as the `find(…) + 1` that cuts
   the tag assumes; the timeout is in the clock's units.
   */
  datatype Protocol = Protocol(
    separator: char,
    connectString: string,
    disconnectString: string,
    keepAliveString: string,
    connectedFormat: string,
    connectedString: string,
    ethernetDataFormat: string,
    ethernetDataString: string,
    connectionTimeout: nat)

  /** The tag that announces the connect acknowledgement ("connected;"). */
  function ConnectedTag(p: Protocol): string
  {
    p.connectedFormat + [p.separator]
  }

  /** The tag that announces an Ethernet frame ("e;"). */
  function EthernetDataTag(p: Protocol): string
  {
    p.ethernetDataFormat + [p.separator]
  }

  predicate StartsWith(s: string, prefix: string)
  {
    |prefix| <= |s| && s[..|prefix|] == prefix
  }

  /**
   The assumptions on the constants: each tag is its format followed by the
   separator, which occurs in neither format; the full acknowledgement and
   data strings start with their tags ("e;e;" starts with "e;"); the strings
   are C string literals, so carry no NUL; and the commands are distinct.
   */
  predicate ValidProtocol(p: Protocol)
  {
    && p.separator !in p.connectedFormat
    && p.separator !in p.ethernetDataFormat
    && StartsWith(p.connectedString, ConnectedTag(p))
    && StartsWith(p.ethernetDataString, EthernetDataTag(p))
    && '\0' !in p.connectedString
    && '\0' !in p.ethernetDataString
    && |p.connectedString| < NPOS
    && ConnectedTag(p) != EthernetDataTag(p)
    && p.keepAliveString != ""
    && p.keepAliveString != EthernetDataTag(p)
    && p.keepAliveString != p.connectedString
    && p.keepAliveString != p.connectString
    && p.keepAliveString != p.disconnectString
    && p.connectString != p.disconnectString
  }

  /**
   The state of an `XLinkKaiConnection`: whether its socket is open, the
   two handshake flags, when the pending connect was sent, whether the
   receiver thread exists and whether the io service it runs is stopped,
   and every datagram sent so far.
   */
  datatype Session = Session(
    socketOpen: bool,
    connected: bool,
    connectInitiated: bool,
    timerStart: int,
    receiverThread: bool,
    ioStopped: bool,
    sent: seq<string>)

  /** A freshly constructed connection. */
  const Init: Session := Session(false, false, false, 0, false, false, [])

  /** What a boolean member returns, with the state it leaves behind. */
  datatype Outcome = Outcome(ok: bool, session: Session)

  /**
   `Open`: open the UDP socket. `granted` is whether the operating system
   grants it; opening a socket that is already open fails as well.
   */
  function Open(s: Session, granted: bool): (r: Outcome)
    ensures r.ok <==> !s.socketOpen && granted
    ensures r.session.socketOpen <==> s.socketOpen || granted
    ensures r.session.(socketOpen := s.socketOpen) == s
  {
    if s.socketOpen || !granted then Outcome(false, s)
    else Outcome(true, s.(socketOpen := true))
  }

  /** The messages `Send` lets through before the engine confirmed the connection. */
  predicate IsControl(p: Protocol, msg: string)
  {
    msg == p.connectString || msg == p.disconnectString
  }

  /**
   `Send`: one datagram, only on an open socket, and before the connection
   is confirmed only the connect and disconnect requests. A refused or
   failed send emits nothing and changes nothing.
   */
  function Send(p: Protocol, s: Session, msg: string, delivered: bool): (r: Outcome)
    ensures r.ok <==> s.socketOpen && (s.connected || IsControl(p, msg)) && delivered
    ensures r.session.sent == if r.ok then s.sent + [msg] else s.sent
    ensures r.session.(sent := s.sent) == s
  {
    if s.socketOpen then
      if s.connected || msg == p.connectString || msg == p.disconnectString then
        if delivered then Outcome(true, s.(sent := s.sent + [msg]))
        else Outcome(false, s)
      else Outcome(false, s)
    else Outcome(false, s)
  }

  /**
   `Connect`: send the connect request; only when it went out is the
   connect pending and the handshake timer started at `now`.
   */
  function Connect(p: Protocol, s: Session, now: int, delivered: bool): (r: Outcome)
    ensures r.ok <==> s.socketOpen && delivered
    ensures r.ok ==> r.session == s.(connectInitiated := true, timerStart := now, sent := s.sent + [p.connectString])
    ensures !r.ok ==> r.session == s
  {
    var o := Send(p, s, p.connectString, delivered);
    if o.ok then
      var t := o.session;
      Outcome(true, t.(connectInitiated := true, timerStart := t.timerStart + (now - t.timerStart)))
    else Outcome(false, o.session)
  }

  /** `HandleKeepAlive`: answer the engine's keepalive, which only a confirmed connection may send. */
  function HandleKeepAlive(p: Protocol, s: Session, delivered: bool): (r: Outcome)
    requires ValidProtocol(p)
    ensures r.ok <==> s.socketOpen && s.connected && delivered
    ensures r.session.sent == if r.ok then s.sent + [p.keepAliveString] else s.sent
    ensures r.session.(sent := s.sent) == s
  {
    Send(p, s, p.keepAliveString, delivered)
  }

  /**
   `StartReceiverThread`: needs an open socket. The first call creates the
   receiver thread, which restarts the io service; later calls only queue
   the next receive.
   */
  function StartReceiverThread(s: Session): (r: Outcome)
    ensures r.ok <==> s.socketOpen
    ensures r.ok ==> r.session.receiverThread
    ensures r.ok && !s.receiverThread ==> !r.session.ioStopped
    ensures !r.ok || s.receiverThread ==> r.session == s
    ensures r.session.(receiverThread := s.receiverThread, ioStopped := s.ioStopped) == s
  {
    if !s.socketOpen then Outcome(false, s)
    else if !s.receiverThread then Outcome(true, s.(receiverThread := true, ioStopped := false))
    else Outcome(true, s)
  }

  /** `s.substr(0, n)`: at most the first n characters. */
  function Substr(s: string, n: nat): (r: string)
    ensures r <= s
    ensures |r| == if n <= |s| then n else |s|
  {
    if n <= |s| then s[..n] else s
  }

  /**
   The command tag of a datagram: everything up to and including the first
   separator. Without a separator `npos + 1` wraps to 0 in `size_t`, so the
   tag is empty.
   */
  function CommandTag(data: string, separator: char): (tag: string)
    requires |data| < NPOS
    ensures tag <= data
    ensures separator !in data ==> tag == ""
    ensures separator in data ==>
      |tag| > 0 && tag[|tag| - 1] == separator && separator !in tag[..|tag| - 1]
  {
    Substr(data, (Find(data, separator) + 1) % (NPOS + 1))
  }

  /** What `ReceiveCallback` made of a datagram besides the handshake. */
  datatype Command =
    | NoCommand
    | KeepAlive
    | EthernetData(payload: string)
    | UnknownCommand

  datatype Received = Received(session: Session, command: Command)

  /** Whether a datagram acknowledges the connect request, given its tag. */
  predicate Acknowledges(p: Protocol, s: Session, data: string, tag: string)
  {
    !s.connected && tag == ConnectedTag(p) && Substr(data, |p.connectedString|) == p.connectedString
  }

  /**
   The command the rest of `ReceiveCallback` looks at: the tag, except that
   on an unconfirmed session a datagram tagged "connected;" is re-read with
   the length of the full acknowledgement string, whether it matched or not.
   */
  function CommandAfterHandshake(p: Protocol, s: Session, data: string, tag: string): string
  {
    if !s.connected && tag == ConnectedTag(p) then Substr(data, |p.connectedString|) else tag
  }

  /** The keepalive reply and the "e;" / "e;e;" check, on the session after the handshake step. */
  function Dispatch(p: Protocol, s: Session, data: string, command: string, delivered: bool): (r: Received)
    requires ValidProtocol(p)
    ensures r.session.sent == s.sent || (r.command == KeepAlive && r.session.sent == s.sent + [p.keepAliveString])
    ensures r.session.(sent := s.sent) == s
  {
    if s.connected && command == p.keepAliveString then
      Received(HandleKeepAlive(p, s, delivered).session, KeepAlive)
    else if command == EthernetDataTag(p) then
      if Substr(data, |p.ethernetDataString|) != p.ethernetDataString then Received(s, UnknownCommand)
      else Received(s, EthernetData(data[|p.ethernetDataString|..]))
    else Received(s, NoCommand)
  }

  /**
   `ReceiveCallback` on the receive buffer (read as a C string, so it ends
   at the first NUL). An unconfirmed session that receives the
   acknowledgement becomes connected; a confirmed one answers a keepalive;
   a datagram tagged "e;" is Ethernet data only if it starts with all of
   "e;e;", and is unknown otherwise. Then the next receive is queued.
   */
  function ReceiveCallback(p: Protocol, s: Session, buffer: string, delivered: bool): (r: Received)
    requires ValidProtocol(p)
    requires |buffer| < NPOS
    ensures r.session.sent == s.sent || (r.command == KeepAlive && r.session.sent == s.sent + [p.keepAliveString])
    ensures r.session.timerStart == s.timerStart && r.session.socketOpen == s.socketOpen
    ensures r.session.receiverThread <==> s.receiverThread || s.socketOpen
    ensures s.receiverThread || !s.socketOpen ==> r.session.ioStopped == s.ioStopped
  {
    var data := CString(buffer);
    var tag := CommandTag(data, p.separator);
    var s1 := if Acknowledges(p, s, data, tag) then s.(connectInitiated := false, connected := true) else s;
    var handled := Dispatch(p, s1, data, CommandAfterHandshake(p, s, data, tag), delivered);
    Received(StartReceiverThread(handled.session).session, handled.command)
  }

  /** The handshake timeout has expired for a pending connect. */
  predicate TimedOut(p: Protocol, s: Session, now: int)
  {
    !s.connected && s.connectInitiated && now > s.timerStart + p.connectionTimeout
  }

  /**
   One turn of the receiver loop's timeout check, while the loop runs: on
   expiry the io service stops, the socket closes and both flags clear.
   */
  function Tick(p: Protocol, s: Session, now: int): (r: Session)
    ensures s.receiverThread && !s.ioStopped && TimedOut(p, s, now) ==>
      && IsDisconnected(r) && !r.socketOpen && r.ioStopped && r.receiverThread
      && r.sent == s.sent && r.timerStart == s.timerStart
    ensures !(s.receiverThread && !s.ioStopped && TimedOut(p, s, now)) ==> r == s
  {
    if s.receiverThread && !s.ioStopped
       && !s.connected && s.connectInitiated && now > s.timerStart + p.connectionTimeout
    then s.(ioStopped := true, socketOpen := false, connectInitiated := false, connected := false)
    else s
  }

  /**
   `Close`: a connected or pending session first tries to send the
   disconnect request; then the io service stops, the receiver thread is
   joined and the socket closes. The handshake flags are left as they were.
   */
  function Close(p: Protocol, s: Session, delivered: bool): (r: Session)
    ensures !r.socketOpen && !r.receiverThread
    ensures r.connected == s.connected && r.connectInitiated == s.connectInitiated
    ensures r.sent == if s.socketOpen && delivered && (s.connected || s.connectInitiated)
                      then s.sent + [p.disconnectString] else s.sent
    ensures r.ioStopped == (s.ioStopped || s.receiverThread) && r.timerStart == s.timerStart
  {
    var s1 := if s.connected || s.connectInitiated then Send(p, s, p.disconnectString, delivered).session else s;
    var s2 := if s1.receiverThread then s1.(ioStopped := true, receiverThread := false) else s1;
    s2.(socketOpen := false)
  }

  /** `IsDisconnected`: neither confirmed nor pending, the handshake state of a new connection. */
  predicate IsDisconnected(s: Session): (r: bool)
    ensures r <==> s.(sent := [], timerStart := 0, socketOpen := false, receiverThread := false, ioStopped := false) == Init
  {
    !s.connected && !s.connectInitiated
  }

  /** A datagram's tag is a given format and the separator exactly when the datagram starts with them. */
  lemma TagIs(data: string, format: string, separator: char)
    requires |data| < NPOS && separator !in format
    ensures CommandTag(data, separator) == format + [separator] <==> StartsWith(data, format + [separator])
  {
    var tag := CommandTag(data, separator);
    var expected := format + [separator];
    if StartsWith(data, expected) {
      assert data[|format|] == expected[|format|] == separator;
      var k := Find(data, separator);
      assert k <= |format|;
      assert k >= |format|;
      assert tag == data[..|expected|];
    }
  }

  /** No datagram carries both the acknowledgement tag and the Ethernet data tag. */
  lemma TagsExclusive(p: Protocol, data: string)
    requires ValidProtocol(p) && |data| < NPOS
    ensures !(StartsWith(data, ConnectedTag(p)) && StartsWith(data, EthernetDataTag(p)))
  {
    TagIs(data, p.connectedFormat, p.separator);
    TagIs(data, p.ethernetDataFormat, p.separator);
  }

  /** A datagram that starts with a string starts with every prefix of it. */
  lemma StartsWithPrefix(data: string, full: string, tag: string)
    requires StartsWith(data, full) && StartsWith(full, tag)
    ensures StartsWith(data, tag)
  {
    assert data[..|tag|] == data[..|full|][..|tag|];
  }

  /**
   The handshake: an unconfirmed session becomes connected, and stops
   waiting, exactly when the datagram starts with the full acknowledgement
   string; whether a connect was pending plays no part. Every other datagram
   leaves both flags alone.
   */
  lemma ReceiveHandshake(p: Protocol, s: Session, buffer: string, delivered: bool)
    requires ValidProtocol(p) && |buffer| < NPOS
    ensures var r := ReceiveCallback(p, s, buffer, delivered).session;
            if !s.connected && StartsWith(CString(buffer), p.connectedString)
            then r.connected && !r.connectInitiated
            else r.connected == s.connected && r.connectInitiated == s.connectInitiated
  {
    var data := CString(buffer);
    var tag := CommandTag(data, p.separator);
    assert Acknowledges(p, s, data, tag) <==> !s.connected && StartsWith(data, p.connectedString) by {
      AcknowledgesExactly(p, s, data);
    }
    var s1 := if Acknowledges(p, s, data, tag) then s.(connectInitiated := false, connected := true) else s;
    var handled := Dispatch(p, s1, data, CommandAfterHandshake(p, s, data, tag), delivered);
    assert ReceiveCallback(p, s, buffer, delivered).session == StartReceiverThread(handled.session).session;
  }

  /** The acknowledgement test amounts to: unconfirmed, and the datagram starts with the acknowledgement string. */
  lemma AcknowledgesExactly(p: Protocol, s: Session, data: string)
    requires ValidProtocol(p) && |data| < NPOS
    ensures Acknowledges(p, s, data, CommandTag(data, p.separator))
            <==> !s.connected && StartsWith(data, p.connectedString)
  {
    TagIs(data, p.connectedFormat, p.separator);
    if StartsWith(data, p.connectedString) {
      StartsWithPrefix(data, p.connectedString, ConnectedTag(p));
    }
  }

  /**
   A keepalive is recognised only on a confirmed session whose datagram's
   tag is the keepalive command, and only then is a reply sent, if the
   socket is open and the datagram goes out. Nothing else is ever sent.
   */
  lemma ReceiveKeepAlive(p: Protocol, s: Session, buffer: string, delivered: bool)
    requires ValidProtocol(p) && |buffer| < NPOS
    ensures var r := ReceiveCallback(p, s, buffer, delivered);
            && (r.command == KeepAlive <==> s.connected && CommandTag(CString(buffer), p.separator) == p.keepAliveString)
            && r.session.sent == if r.command == KeepAlive && s.socketOpen && delivered
                                 then s.sent + [p.keepAliveString] else s.sent
  {
    var data := CString(buffer);
    var tag := CommandTag(data, p.separator);
    var s1 := if Acknowledges(p, s, data, tag) then s.(connectInitiated := false, connected := true) else s;
    var command := CommandAfterHandshake(p, s, data, tag);
    assert s1.connected && command == p.keepAliveString <==> s.connected && tag == p.keepAliveString;
    var handled := Dispatch(p, s1, data, command, delivered);
    assert ReceiveCallback(p, s, buffer, delivered) == Received(StartReceiverThread(handled.session).session, handled.command);
  }

  /**
   After the handshake step the data branch is taken exactly when the
   datagram starts with the data tag: an acknowledgement re-read never
   looks like "e;".
   */
  lemma DataBranch(p: Protocol, s: Session, data: string)
    requires ValidProtocol(p) && |data| < NPOS
    ensures CommandAfterHandshake(p, s, data, CommandTag(data, p.separator)) == EthernetDataTag(p)
            <==> StartsWith(data, EthernetDataTag(p))
  {
    var tag := CommandTag(data, p.separator);
    TagIs(data, p.ethernetDataFormat, p.separator);
    TagsExclusive(p, data);
    if !s.connected && tag == ConnectedTag(p) {
      TagIs(data, p.connectedFormat, p.separator);
    }
  }

  /**
   Ethernet data: a datagram is data exactly when it starts with the whole
   data string ("e;e;"), and the payload is what follows it. One that only
   carries the data tag ("e;") is unknown and dropped.
   */
  lemma ReceiveEthernetData(p: Protocol, s: Session, buffer: string, delivered: bool)
    requires ValidProtocol(p) && |buffer| < NPOS
    ensures var data := CString(buffer);
            var r := ReceiveCallback(p, s, buffer, delivered);
            && (r.command.EthernetData? <==> StartsWith(data, p.ethernetDataString))
            && (r.command.EthernetData? ==> r.command.payload == data[|p.ethernetDataString|..])
            && (r.command == UnknownCommand <==>
                  StartsWith(data, EthernetDataTag(p)) && !StartsWith(data, p.ethernetDataString))
  {
    var data := CString(buffer);
    var tag := CommandTag(data, p.separator);
    var s1 := if Acknowledges(p, s, data, tag) then s.(connectInitiated := false, connected := true) else s;
    var command := CommandAfterHandshake(p, s, data, tag);
    assert command == EthernetDataTag(p) <==> StartsWith(data, EthernetDataTag(p)) by {
      DataBranch(p, s, data);
    }
    assert StartsWith(data, p.ethernetDataString) ==> StartsWith(data, EthernetDataTag(p)) by {
      if StartsWith(data, p.ethernetDataString) {
        StartsWithPrefix(data, p.ethernetDataString, EthernetDataTag(p));
      }
    }
    var handled := Dispatch(p, s1, data, command, delivered);
    DispatchData(p, s1, data, command, delivered);
    assert ReceiveCallback(p, s, buffer, delivered).command == handled.command;
  }

  /** What `Dispatch` makes of a datagram carrying the data tag. */
  lemma DispatchData(p: Protocol, s: Session, data: string, command: string, delivered: bool)
    requires ValidProtocol(p)
    ensures var r := Dispatch(p, s, data, command, delivered);
            && (r.command.EthernetData? <==> command == EthernetDataTag(p) && StartsWith(data, p.ethernetDataString))
            && (r.command.EthernetData? ==> r.command.payload == data[|p.ethernetDataString|..])
            && (r.command == UnknownCommand <==> command == EthernetDataTag(p) && !StartsWith(data, p.ethernetDataString))
  {
  }

  /**
   A datagram without a separator has an empty tag: it is no command,
   changes no flag and draws no reply.
   */
  lemma ReceiveWithoutSeparator(p: Protocol, s: Session, buffer: string, delivered: bool)
    requires ValidProtocol(p) && |buffer| < NPOS
    requires p.separator !in CString(buffer)
    ensures var r := ReceiveCallback(p, s, buffer, delivered);
            && r.command == NoCommand
            && r.session.connected == s.connected && r.session.connectInitiated == s.connectInitiated
            && r.session.sent == s.sent
  {
    assert CommandTag(CString(buffer), p.separator) == "";
    assert |ConnectedTag(p)| > 0 && |EthernetDataTag(p)| > 0;
  }

  /**
   `Close` is harmless when repeated: the second call finds the socket
   closed and the thread gone, so it sends nothing and changes nothing.
   */
  lemma CloseIdempotent(p: Protocol, s: Session, first: bool, second: bool)
    ensures Close(p, Close(p, s, first), second) == Close(p, s, first)
  {
  }

  /**
   `Close` does not disconnect the session: a confirmed or pending session
   stays so, and the disconnect request, when it went out, is the last
   datagram sent.
   */
  lemma CloseKeepsHandshake(p: Protocol, s: Session, delivered: bool)
    requires s.socketOpen && delivered && !IsDisconnected(s)
    ensures var r := Close(p, s, delivered);
            && !IsDisconnected(r) && !r.socketOpen
            && |r.sent| > 0 && r.sent[|r.sent| - 1] == p.disconnectString
  {
  }

  /**
   What the kept flags allow as written: a session closed while connected
   and then reopened sends any message at once, without a new handshake,
   and with the receiver loop restarted a new connect request can never
   time out.
   */
  lemma ReopenSkipsHandshake(p: Protocol, s: Session, closing: bool, msg: string, t0: int, now: int)
    requires s.connected
    ensures var reopened := Open(Close(p, s, closing), true);
            var running := StartReceiverThread(reopened.session).session;
            var pending := Connect(p, running, t0, true).session;
            && reopened.ok && running.receiverThread && !running.ioStopped
            && Send(p, reopened.session, msg, true).ok
            && Tick(p, pending, now) == pending
  {
  }

  /**
   `Close` as its callers evidently expect it: the session ends
   disconnected, and otherwise as `Close` leaves it.
   */
  function CloseDisconnected(p: Protocol, s: Session, delivered: bool): (r: Session)
    ensures IsDisconnected(r) && !r.socketOpen && !r.receiverThread
    ensures r.sent == if s.socketOpen && delivered && (s.connected || s.connectInitiated)
                      then s.sent + [p.disconnectString] else s.sent
    ensures r.ioStopped == (s.ioStopped || s.receiverThread) && r.timerStart == s.timerStart
  {
    Close(p, s, delivered).(connected := false, connectInitiated := false)
  }

  /**
   With the corrected `Close`, a reopened session is back at the start of
   the handshake: it refuses every message but connect and disconnect.
   */
  lemma ReopenNeedsHandshake(p: Protocol, s: Session, closing: bool, msg: string, t0: int, now: int)
    requires !IsControl(p, msg)
    requires now > t0 + p.connectionTimeout
    ensures var reopened := Open(CloseDisconnected(p, s, closing), true);
            var running := StartReceiverThread(reopened.session).session;
            var pending := Connect(p, running, t0, true).session;
            && reopened.ok && IsDisconnected(reopened.session)
            && !Send(p, reopened.session, msg, true).ok
            && IsDisconnected(Tick(p, pending, now)) && !Tick(p, pending, now).socketOpen
  {
  }

  /**
   The timeout fires once, and only after the deadline: every check up to
   and including the deadline leaves a pending connect alone; a later one
   disconnects and closes the socket, and stops the loop, so no check after
   it changes anything again.
   */
  lemma TimeoutDisconnects(p: Protocol, s: Session, now: int, later: int)
    requires s.receiverThread && !s.ioStopped && !s.connected && s.connectInitiated
    ensures now <= s.timerStart + p.connectionTimeout ==> Tick(p, s, now) == s
    ensures now > s.timerStart + p.connectionTimeout ==>
              && IsDisconnected(Tick(p, s, now)) && !Tick(p, s, now).socketOpen
              && Tick(p, Tick(p, s, now), later) == Tick(p, s, now)
  {
  }
}
