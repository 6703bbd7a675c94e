/** flow/PacketStreamSender.c and socksclient/BSocksClient.c as objects driven by their events. */
module SocksClient {
  import opened Wrappers
  import opened Addresses
  import opened Socks
  import opened SocksStandard

  /** Turns partial stream sends into the sending of one packet. */
  class PacketStreamSender {
    /** in, in_len and in_used; in_len is -1 when there is no packet */
    var packet: seq<byte>
    var inLen: int
    var inUsed: nat

    /** all packets given to it, and all bytes that the stream has taken */
    ghost var submitted: seq<byte>
    ghost var delivered: seq<byte>

    ghost predicate Valid()
      reads this
    {
      if inLen == -1 then delivered == submitted
      else 0 <= inUsed < inLen == |packet| && submitted == delivered + packet[inUsed..]
    }

    constructor ()
      ensures Valid() && inLen == -1 && submitted == []
    {
      packet, inLen, inUsed, submitted, delivered := [], -1, 0, [], [];
    }

    /** send_data: true when the packet is done, otherwise what is left is offered to the stream. */
    method SendData() returns (done: bool)
      requires 0 <= inUsed <= inLen == |packet| && submitted == delivered + packet[inUsed..]
      modifies `inLen
      ensures Valid() && done == (inUsed == old(inLen)) && inLen == if done then -1 else old(inLen)
    {
      if inUsed < inLen {
        done := false;
      } else {
        assert packet[inUsed..] == [] && delivered + [] == delivered;
        inLen := -1;
        done := true;
      }
    }

    /** input_handler_send */
    method Send(data: seq<byte>) returns (done: bool)
      requires Valid() && inLen == -1
      modifies this
      ensures Valid() && submitted == old(submitted) + data && delivered == old(delivered)
      ensures done == (data == []) && (!done ==> inLen == |data| && packet == data)
      ensures done ==> inLen == -1
    {
      inLen, packet, inUsed := |data|, data, 0;
      submitted := submitted + data;
      assert packet[0..] == data;
      done := SendData();
    }

    /** output_handler_done: the stream took the next dataLen bytes. */
    method OutputDone(dataLen: nat) returns (done: bool)
      requires Valid() && inLen != -1 && 0 < dataLen <= inLen - inUsed
      modifies this
      ensures Valid() && submitted == old(submitted) && packet == old(packet)
      ensures delivered == old(delivered) + old(packet[inUsed..inUsed + dataLen])
      ensures done == (inLen == -1) && (!done ==> inLen == old(inLen) && inUsed == old(inUsed) + dataLen)
    {
      delivered := delivered + packet[inUsed..inUsed + dataLen];
      assert packet[inUsed..] == packet[inUsed..inUsed + dataLen] + packet[inUsed + dataLen..];
      inUsed := inUsed + dataLen;
      done := SendData();
    }
  }

  datatype State = Connecting | ConnectedHandler | SendingHello | SentHello | SendingPassword | SentPassword
                 | SendingRequest | SentRequest | ReceivedReplyHeader | Up

  datatype Event = EventError | EventUp | EventErrorClosed | EventConnected

  predicate Sending(s: State) { s.SendingHello? || s.SendingPassword? || s.SendingRequest? }

  predicate Receiving(s: State) { s.SentHello? || s.SentPassword? || s.SentRequest? || s.ReceivedReplyHeader? }

  /** The part of the server's side that is read next. */
  function StageOf(s: State, bind: BAddr): Stage {
    match s
    case SendingHello => AwaitHello
    case SentHello => AwaitHello
    case SendingPassword => AwaitPasswordReply
    case SentPassword => AwaitPasswordReply
    case SendingRequest => AwaitHeader
    case SentRequest => AwaitHeader
    case ReceivedReplyHeader => AwaitRest(if bind.IPv4? then ATYP_IPV4 else ATYP_IPV6)
    case Up => Established(bind)
    case _ => Broken
  }

  class BSocksClient {
    const authInfo: seq<AuthInfo>
    const udp: bool
    const sender: PacketStreamSender
    var destAddr: Address
    var bindAddr: BAddr
    var state: State
    var buffer: seq<byte>
    // recv_dest, as a position in the buffer, recv_len and recv_total
    var recvDest: nat
    var recvLen: nat
    var recvTotal: nat
    /** an error has been reported; the object is only to be freed */
    var failed: bool

    /** the bytes read from the server, and the events reported to the user */
    ghost var received: seq<byte>
    ghost var events: seq<Event>

    ghost function Cfg(): Config
      reads `destAddr
    {
      Config(authInfo, udp, destAddr)
    }

    /** The bytes of a part that is being received. */
    ghost function Partial(): seq<byte>
      requires Receiving(state) ==> recvDest + recvLen <= |buffer|
      reads this
    {
      if Receiving(state) then buffer[recvDest..recvDest + recvLen] else []
    }

    /** A receive fits the buffer and asks for the rest of a part. */
    ghost predicate Reserved()
      reads this
    {
      && (Receiving(state) ==>
            && recvDest + recvTotal <= |buffer| && recvLen < recvTotal == Needs(StageOf(state, bindAddr))
            && recvDest == if state.ReceivedReplyHeader? then 4 else 0)
      && (state.SentRequest? ==> |buffer| == 4 + 18)
      && (state.ReceivedReplyHeader? ==> !bindAddr.Other?)
    }

    /** The exchange has come as far as the bytes received from the server say. */
    ghost predicate InStep()
      requires Reserved()
      reads this, sender
    {
      match state
      case Connecting => sender.submitted == [] && received == []
      case ConnectedHandler => sender.submitted == [] && received == []
      case _ =>
        && Greetable(Cfg())
        && Exchange(Cfg(), received) == Progress(StageOf(state, bindAddr), sender.submitted, Partial())
    }

    /** A packet is under way exactly in the sending states, and is what the buffer holds. */
    ghost predicate InFlight()
      reads this, sender
    {
      if Sending(state) then sender.inLen != -1 && sender.packet == buffer else sender.inLen == -1
    }

    ghost predicate Valid()
      reads this, sender
    {
      !failed ==> Reserved() && InStep() && sender.Valid() && InFlight()
    }

    /** BSocksClient_Init; bind_addr is not set. */
    constructor (authInfo: seq<AuthInfo>, destAddr: Address, udp: bool, bindAddr: BAddr)
      ensures Valid() && !failed && state == Connecting && events == [] && fresh(sender)
      ensures this.authInfo == authInfo && this.udp == udp && this.destAddr == destAddr
    {
      this.authInfo, this.destAddr, this.udp, this.bindAddr := authInfo, destAddr, udp, bindAddr;
      state, buffer, recvDest, recvLen, recvTotal, failed := Connecting, [], 0, 0, 0, false;
      received, events := [], [];
      sender := new PacketStreamSender();
    }

    /** BSocksClient_SetDestAddr */
    method SetDestAddr(addr: Address)
      requires Valid() && !failed && (state.Connecting? || state.ConnectedHandler?)
      modifies `destAddr
      ensures Valid() && destAddr == addr
    {
      destAddr := addr;
    }

    method ReportError(e: Event)
      modifies `failed, `events
      ensures failed && events == old(events) + [e]
    {
      failed := true;
      events := events + [e];
    }

    /** reserve_buffer, where the memory can be had: what the buffer held is kept as far as it fits. */
    method ReserveBuffer(size: nat)
      modifies `buffer
      ensures |buffer| == size && forall i | 0 <= i < size && i < |old(buffer)| :: buffer[i] == old(buffer)[i]
    {
      var b := buffer;
      buffer := seq(size, i requires 0 <= i => if i < |b| then b[i] else 0);
    }

    /** start_receive */
    method StartReceive(dest: nat, total: nat)
      requires total > 0
      modifies `recvDest, `recvLen, `recvTotal
      ensures recvDest == dest && recvLen == 0 && recvTotal == total
    {
      recvDest, recvLen, recvTotal := dest, 0, total;
    }

    /** connector_handler; initOk is what BConnection_Init returns */
    method ConnectorHandler(isError: bool, initOk: bool)
      requires Valid() && !failed && state.Connecting?
      modifies this
      ensures Valid() && failed == (isError || !initOk) && (!failed ==> state.ConnectedHandler?)
      ensures events == old(events) + [if failed then EventError else EventConnected]
    {
      if isError || !initOk {
        ReportError(EventError);
        return;
      }
      state := ConnectedHandler;
      events := events + [EventConnected];
    }

    /** connection_handler */
    method ConnectionHandler(recvClosed: bool)
      requires Valid() && !failed && !state.Connecting?
      modifies this
      ensures Valid() && failed
      ensures events == old(events) + [if old(state).Up? && recvClosed then EventErrorClosed else EventError]
    {
      if state.Up? && recvClosed {
        ReportError(EventErrorClosed);
        return;
      }
      ReportError(EventError);
    }

    /** continue_job_handler */
    method ContinueJobHandler()
      requires Valid() && !failed && state.ConnectedHandler?
      modifies this, sender
      ensures Valid() && failed == !Greetable(Cfg()) && destAddr == old(destAddr) && received == []
      ensures !failed ==> state.SendingHello? && sender.submitted == Hello(Cfg()) && events == old(events)
      ensures failed ==> events == old(events) + [EventError] && sender.submitted == []
    {
      if |authInfo| == 0 || |authInfo| > 255 {
        ReportError(EventError);
        return;
      }
      ReserveBuffer(2 + |authInfo|);
      WriteHello();
      assert [] + Hello(Cfg()) == Hello(Cfg());
      var done := sender.Send(buffer);
      state := SendingHello;
      HearStops(Cfg(), AwaitHello, Hello(Cfg()), []);
    }

    /** The greeting, header and methods. */
    method WriteHello()
      requires Greetable(Cfg()) && |buffer| == 2 + |authInfo|
      modifies `buffer
      ensures buffer == Hello(Cfg())
    {
      buffer := buffer[0 := SOCKS_VERSION][1 := |authInfo| as byte];
      var i := 0;
      while i < |authInfo|
        invariant 0 <= i <= |authInfo| && |buffer| == 2 + |authInfo|
        invariant buffer[0] == SOCKS_VERSION && buffer[1] == |authInfo| as byte
        invariant forall k | 0 <= k < i :: buffer[2 + k] == authInfo[k].Method()
      {
        buffer := buffer[2 + i := authInfo[i].Method()];
        i := i + 1;
      }
    }

    /** The stream took dataLen bytes of the packet under way; send_handler_done when it is done. */
    method SendProgress(dataLen: nat)
      requires Valid() && !failed && Sending(state) && 0 < dataLen <= sender.inLen - sender.inUsed
      modifies this, sender
      ensures Valid() && !failed && destAddr == old(destAddr)
      ensures received == old(received) && events == old(events) && sender.submitted == old(sender.submitted)
      ensures if dataLen == old(sender.inLen - sender.inUsed) then Receiving(state)
              else state == old(state) && sender.inLen - sender.inUsed == old(sender.inLen - sender.inUsed) - dataLen
    {
      var done := sender.OutputDone(dataLen);
      if done {
        SendHandlerDone();
      }
    }

    /** send_handler_done */
    method SendHandlerDone()
      requires Sending(state) && !failed && Reserved() && InStep() && sender.Valid() && sender.inLen == -1
      modifies `buffer, `recvDest, `recvLen, `recvTotal, `state
      ensures Valid() && !failed && Receiving(state) && recvLen == 0
    {
      match state {
        case SendingHello =>
          ReserveBuffer(2);
          StartReceive(0, 2);
          state := SentHello;
        case SendingRequest =>
          // the reply header and the longer address
          ReserveBuffer(4 + 18);
          StartReceive(0, 4);
          state := SentRequest;
        case SendingPassword =>
          ReserveBuffer(2);
          StartReceive(0, 2);
          state := SentPassword;
      }
      assert buffer[recvDest..recvDest + recvLen] == [];
    }

    /** What has been reported, when these events had been before. */
    ghost predicate Reported(events0: seq<Event>)
      requires Greetable(Cfg())
      reads this
    {
      var stage := Exchange(Cfg(), received).stage;
      && (failed <==> stage.Broken?)
      && (!failed ==> (state.Up? <==> stage.Established?))
      && events == events0 + (if failed then [EventError] else if state.Up? then [EventUp] else [])
    }

    /** recv_handler_done, for bytes that the stream has put where the receive asked for them: the
        client comes up or fails as the reference does on all bytes received. */
    method RecvHandlerDone(data: seq<byte>)
      requires Valid() && !failed && Receiving(state) && |data| <= recvTotal - recvLen
      modifies this, sender
      ensures Valid() && received == old(received) + data && destAddr == old(destAddr)
      ensures Greetable(Cfg()) && Reported(old(events))
    {
      HeardMore(data);
      ghost var part := Partial() + data;
      Accumulate(data);
      if recvLen < recvTotal {
        HearStops(Cfg(), StageOf(state, bindAddr), sender.submitted, part);
        return;
      }
      FinishPart(part);
    }

    lemma HeardMore(data: seq<byte>)
      requires Valid() && !failed && Receiving(state)
      ensures Exchange(Cfg(), received + data) == Hear(Cfg(), StageOf(state, bindAddr), sender.submitted, Partial() + data)
    {
      HearMore(Cfg(), AwaitHello, Hello(Cfg()), received, data);
    }

    method Accumulate(data: seq<byte>)
      requires Receiving(state) && recvDest + recvLen + |data| <= |buffer|
      modifies `buffer, `recvLen, `received
      ensures received == old(received) + data && |buffer| == |old(buffer)| && recvLen == old(recvLen) + |data|
      ensures buffer[recvDest..recvDest + recvLen] == old(Partial()) + data
    {
      ghost var before, at := buffer, recvDest + recvLen;
      Store(data);
      Stored(before, buffer, recvDest, at, data);
      received := received + data;
      recvLen := recvLen + |data|;
    }

    lemma Stored(before: seq<byte>, after: seq<byte>, from: nat, at: nat, data: seq<byte>)
      requires from <= at && at + |data| <= |before| == |after|
      requires after[..at] == before[..at] && after[at..at + |data|] == data
      ensures after[from..at + |data|] == before[from..at] + data
    {
      assert before[from..at] == before[..at][from..] && after[from..at] == after[..at][from..];
      assert after[from..at + |data|] == after[from..at] + after[at..at + |data|];
    }

    method FinishPart(ghost part: seq<byte>)
      requires Complete(part) && Greetable(Cfg())
      requires Exchange(Cfg(), received) == Hear(Cfg(), StageOf(state, bindAddr), sender.submitted, part)
      modifies this, sender
      ensures Valid() && received == old(received) && destAddr == old(destAddr)
      ensures Reported(old(events))
    {
      ghost var c, stage, sent := Cfg(), StageOf(state, bindAddr), sender.submitted;
      ghost var (next, more) := Respond(c, stage, part);
      HearStep(c, stage, sent, part);
      assert part[..Needs(stage)] == part && part[Needs(stage)..] == [];
      HearStops(c, next, sent + more, []);
      HandlePart(part);
    }

    method Store(data: seq<byte>)
      requires recvDest + recvLen + |data| <= |buffer|
      modifies `buffer
      ensures |buffer| == |old(buffer)|
      ensures buffer[..recvDest + recvLen] == old(buffer)[..recvDest + recvLen]
      ensures buffer[recvDest + recvLen..recvDest + recvLen + |data|] == data
    {
      var at := recvDest + recvLen;
      buffer := buffer[..at] + data + buffer[at + |data|..];
    }

    /** What the switch in recv_handler_done leaves, where the reference is at stage next and has
        sent this much. */
    ghost predicate Stepped(next: Stage, sent: seq<byte>, events0: seq<Event>)
      reads this, sender
    {
      && (failed <==> next.Broken?)
      && (!failed ==>
            && StageOf(state, bindAddr) == next && !state.Connecting? && !state.ConnectedHandler?
            && sender.submitted == sent && Reserved() && sender.Valid() && InFlight() && Partial() == [])
      && events == events0 + (if failed then [EventError] else if state.Up? then [EventUp] else [])
    }

    /** A whole part is in the buffer, and nothing is under way. */
    ghost predicate Complete(part: seq<byte>)
      reads this, sender
    {
      && !failed && Receiving(state) && sender.Valid() && sender.inLen == -1
      && recvDest == (if state.ReceivedReplyHeader? then 4 else 0)
      && recvDest + |part| <= |buffer| && |part| == Needs(StageOf(state, bindAddr))
      && part == buffer[recvDest..recvDest + |part|]
      && (state.ReceivedReplyHeader? ==> !bindAddr.Other?)
      && (state.SentRequest? ==> |buffer| == 4 + 18)
    }

    method HandlePart(ghost part: seq<byte>)
      requires Complete(part)
      modifies this, sender
      ensures received == old(received) && destAddr == old(destAddr)
      ensures var (next, more) := Respond(Cfg(), old(StageOf(state, bindAddr)), part);
        Stepped(next, old(sender.submitted) + more, old(events))
    {
      match state {
        case SentHello => HandleHello(part);
        case SentPassword => HandlePasswordReply(part);
        case SentRequest => HandleReplyHeader(part);
        case ReceivedReplyHeader => HandleReplyRest(part);
      }
    }

    method HandleHello(ghost part: seq<byte>)
      requires state.SentHello? && Complete(part)
      modifies this, sender
      ensures received == old(received) && destAddr == old(destAddr)
      ensures var (next, more) := Respond(Cfg(), AwaitHello, part);
        Stepped(next, old(sender.submitted) + more, old(events))
    {
      assert part[0] == buffer[0] && part[1] == buffer[1];
      if buffer[0] != SOCKS_VERSION {
        ReportError(EventError);
        return;
      }
      var ai := FindAuth(buffer[1]);
      if ai.None? {
        ReportError(EventError);
        return;
      }
      match ai.value {
        case NoAuth =>
          AuthFinished();
        case Password(username, password) =>
          if |username| == 0 || |username| > 255 || |password| == 0 || |password| > 255 {
            ReportError(EventError);
            return;
          }
          ReserveBuffer(1 + 1 + |username| + 1 + |password|);
          WritePassword(username, password);
          SendBuffer(SendingPassword);
      }
    }

    /** The loop over the methods offered. */
    method FindAuth(m: byte) returns (r: Option<AuthInfo>)
      ensures r == Chosen(authInfo, m)
    {
      var i: nat := 0;
      assert authInfo[0..] == authInfo;
      while i < |authInfo|
        invariant i <= |authInfo| && Chosen(authInfo, m) == Chosen(authInfo[i..], m)
      {
        if authInfo[i].Method() == m {
          return Some(authInfo[i]);
        }
        assert authInfo[i..][1..] == authInfo[i + 1..];
        i := i + 1;
      }
      r := None;
    }

    /** Through a moving pointer into the buffer. */
    method WritePassword(username: seq<byte>, password: seq<byte>)
      requires Password(username, password).Sendable() && |buffer| == 3 + |username| + |password|
      modifies `buffer
      ensures buffer == PasswordMessage(Password(username, password))
    {
      buffer := [1 as byte, |username| as byte] + username + [|password| as byte] + password;
    }

    /** Sends the buffer, in the state that waits for it to be sent. */
    method SendBuffer(next: State)
      requires !failed && Sending(next) && buffer != [] && sender.Valid() && sender.inLen == -1
      modifies `state, sender
      ensures state == next && StageOf(next, bindAddr) == StageOf(state, bindAddr)
      ensures sender.submitted == old(sender.submitted) + buffer
      ensures Reserved() && sender.Valid() && InFlight() && Partial() == []
    {
      var done := sender.Send(buffer);
      state := next;
    }

    /** auth_finished */
    method AuthFinished()
      requires !failed && sender.Valid() && sender.inLen == -1
      modifies this, sender
      ensures received == old(received) && destAddr == old(destAddr)
      ensures var (next, more) := SendRequest(Cfg());
        Stepped(next, old(sender.submitted) + more, old(events))
    {
      if destAddr.Other? {
        ReportError(EventError);
        return;
      }
      // header and address
      ReserveBuffer(4 + |destAddr.ip| + |destAddr.port|);
      WriteRequest();
      SendBuffer(SendingRequest);
    }

    method WriteRequest()
      requires !destAddr.Other?
      modifies `buffer
      ensures buffer == Request(Cfg())
    {
      var cmd := if udp then CMD_UDP_ASSOCIATE else CMD_CONNECT;
      var atyp := if destAddr.IPv4? then ATYP_IPV4 else ATYP_IPV6;
      buffer := [SOCKS_VERSION, cmd, 0, atyp] + destAddr.ip + destAddr.port;
    }

    method HandlePasswordReply(ghost part: seq<byte>)
      requires state.SentPassword? && Complete(part)
      modifies this, sender
      ensures received == old(received) && destAddr == old(destAddr)
      ensures var (next, more) := Respond(Cfg(), AwaitPasswordReply, part);
        Stepped(next, old(sender.submitted) + more, old(events))
    {
      assert part[0] == buffer[0] && part[1] == buffer[1];
      if buffer[0] != 1 {
        ReportError(EventError);
        return;
      }
      if buffer[1] != 0 {
        ReportError(EventError);
        return;
      }
      AuthFinished();
    }

    method HandleReplyHeader(ghost part: seq<byte>)
      requires state.SentRequest? && Complete(part)
      modifies this
      ensures received == old(received) && destAddr == old(destAddr)
      ensures var (next, more) := Respond(Cfg(), AwaitHeader, part);
        Stepped(next, old(sender.submitted) + more, old(events))
    {
      assert part[0] == buffer[0] && part[1] == buffer[1] && part[3] == buffer[3];
      assert sender.submitted + [] == sender.submitted;
      if buffer[0] != SOCKS_VERSION {
        ReportError(EventError);
        return;
      }
      if buffer[1] != REP_SUCCEEDED {
        ReportError(EventError);
        return;
      }
      var addrLen;
      if buffer[3] == ATYP_IPV4 {
        bindAddr := IPv4([], []);
        addrLen := 4 + 2;
      } else if buffer[3] == ATYP_IPV6 {
        bindAddr := IPv6([], []);
        addrLen := 16 + 2;
      } else {
        ReportError(EventError);
        return;
      }
      StartReceive(4, addrLen);
      state := ReceivedReplyHeader;
    }

    method HandleReplyRest(ghost part: seq<byte>)
      requires state.ReceivedReplyHeader? && Complete(part)
      modifies this
      ensures received == old(received) && destAddr == old(destAddr)
      ensures var (next, more) := Respond(Cfg(), old(StageOf(state, bindAddr)), part);
        Stepped(next, old(sender.submitted) + more, old(events))
    {
      assert sender.submitted + [] == sender.submitted;
      if bindAddr.IPv4? {
        assert part[..4] == buffer[4..8] && part[4..] == buffer[8..10];
        bindAddr := IPv4(buffer[4..8], buffer[8..10]);
      } else {
        assert part[..16] == buffer[4..20] && part[16..] == buffer[20..22];
        bindAddr := IPv6(buffer[4..20], buffer[20..22]);
      }
      buffer := [];
      state := Up;
      events := events + [EventUp];
    }

    /** A client that is up has had a successful exchange, to the last byte: it has read exactly the
        server's side, its bind address is the one in the reply, and from what the stream has taken
        of it a server reads all that the user asked for, and nothing else. */
    lemma UpMeansSuccessful()
      requires Valid() && !failed && state.Up?
      ensures Greetable(Cfg()) && !destAddr.Other? && Successful(Cfg(), received)
      ensures RfcSuccessful(Cfg(), received) && !BoundToName(received) && bindAddr == RfcBind(received)
      ensures var client := ReadClient(sender.delivered, received[1]);
        client.Some? && Asked(Cfg(), received[1], client.value)
    {
      UpIffSuccessful(Cfg(), received);
      SuccessfulIff(Cfg(), received);
      BindIs(Cfg(), received);
      ServerReads(Cfg(), received);
    }
  }

  /** Runs a connected client against a server that sends the bytes of server: take(k) and cut(k)
      choose how much of a packet the stream takes, and how many bytes it brings, at the k-th
      event. The client comes up exactly when some start of the stream is a successful exchange. */
  method RunExchange(o: BSocksClient, server: seq<byte>, take: nat -> nat, cut: nat -> nat) returns (read: nat)
    requires o.Valid() && !o.failed && o.state.ConnectedHandler?
    modifies o, o.sender
    ensures read <= |server| && o.Cfg() == old(o.Cfg())
    ensures !o.failed && o.state.Up?
       <==> Greetable(o.Cfg()) && !o.destAddr.Other? && exists n: nat :: n <= |server| && Successful(o.Cfg(), server[..n])
    ensures !o.failed && o.state.Up? ==> Exchanged(o, server[..read])
    ensures !o.failed && !o.state.Up? ==> read == |server| && Receiving(o.state)
  {
    read := 0;
    ghost var c := o.Cfg();
    o.ContinueJobHandler();
    if o.failed {
      return;
    }
    var k: nat := 0;
    while !o.failed && (Sending(o.state) || (Receiving(o.state) && read < |server|))
      invariant Greetable(c) && o.Cfg() == c && read <= |server| && Driven(o, c, server[..read])
      decreases |server| - read, if Sending(o.state) then o.sender.inLen - o.sender.inUsed else 0
    {
      if Sending(o.state) {
        SendSome(o, take(k));
      } else {
        read := ReceiveSome(o, server, read, cut(k));
      }
      k := k + 1;
    }
    Settled(o, c, server, read);
  }

  /** Where the client is once it has been sent these bytes. */
  ghost predicate Driven(o: BSocksClient, c: Config, rx: seq<byte>)
    requires Greetable(c)
    reads o, o.sender
  {
    && o.Valid() && (o.failed <==> Exchange(c, rx).stage.Broken?)
    && (!o.failed ==> o.received == rx && (Sending(o.state) || Receiving(o.state) || o.state.Up?))
  }

  /** The client has read a successful exchange, and a server reads from it what its user asked for. */
  ghost predicate Exchanged(o: BSocksClient, rx: seq<byte>)
    reads o, o.sender
  {
    && RfcSuccessful(o.Cfg(), rx) && !BoundToName(rx) && o.bindAddr == RfcBind(rx)
    && var client := ReadClient(o.sender.delivered, rx[1]);
       client.Some? && Asked(o.Cfg(), rx[1], client.value)
  }

  method SendSome(o: BSocksClient, choice: nat)
    requires Greetable(o.Cfg()) && Driven(o, o.Cfg(), o.received) && !o.failed && Sending(o.state)
    modifies o, o.sender
    ensures o.Cfg() == old(o.Cfg()) && !o.failed && o.received == old(o.received) && Driven(o, o.Cfg(), o.received)
    ensures Receiving(o.state) || (Sending(o.state) && o.sender.inLen - o.sender.inUsed < old(o.sender.inLen - o.sender.inUsed))
  {
    o.SendProgress(1 + choice % (o.sender.inLen - o.sender.inUsed));
  }

  method ReceiveSome(o: BSocksClient, server: seq<byte>, read: nat, choice: nat) returns (read': nat)
    requires Greetable(o.Cfg()) && read < |server| && Driven(o, o.Cfg(), server[..read]) && !o.failed && Receiving(o.state)
    modifies o, o.sender
    ensures o.Cfg() == old(o.Cfg()) && read < read' <= |server| && Driven(o, o.Cfg(), server[..read'])
  {
    var room := o.recvTotal - o.recvLen;
    var n := 1 + choice % (if room < |server| - read then room else |server| - read);
    read' := read + n;
    assert server[..read] + server[read..read'] == server[..read'];
    o.RecvHandlerDone(server[read..read']);
  }

  /** What the end of a run says about the stream. */
  lemma Settled(o: BSocksClient, c: Config, server: seq<byte>, read: nat)
    requires Greetable(c) && o.Cfg() == c && read <= |server| && Driven(o, c, server[..read])
    requires !o.failed ==> o.state.Up? || read == |server|
    ensures !o.failed && o.state.Up? ==> !c.dest.Other? && Successful(c, server[..read]) && Exchanged(o, server[..read])
    ensures o.failed || !o.state.Up? ==>
      forall n: nat | n <= |server| :: !(Successful(c, server[..n]) && !c.dest.Other?)
  {
    if !o.failed && o.state.Up? {
      o.UpMeansSuccessful();
    } else {
      forall n: nat | n <= |server| ensures !(Successful(c, server[..n]) && !c.dest.Other?) {
        NeverSuccessful(c, server, read, n);
      }
    }
  }
}
