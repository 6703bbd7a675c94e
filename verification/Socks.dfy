/** The exchange that socksclient/BSocksClient.c carries out, as messages: sections 3, 4 and 6 of
    RFC 1928 and section 2 of RFC 1929. */
module Socks {
  import opened Wrappers
  import opened Addresses

  const SOCKS_VERSION: byte := 0x05
  const METHOD_NO_AUTHENTICATION: byte := 0x00
  const METHOD_USERNAME_PASSWORD: byte := 0x02
  const CMD_CONNECT: byte := 0x01
  const CMD_UDP_ASSOCIATE: byte := 0x03
  const ATYP_IPV4: byte := 0x01
  const ATYP_IPV6: byte := 0x04
  const REP_SUCCEEDED: byte := 0x00

  datatype AuthInfo = NoAuth | Password(username: seq<byte>, password: seq<byte>) {
    function Method(): byte { if NoAuth? then METHOD_NO_AUTHENTICATION else METHOD_USERNAME_PASSWORD }

    predicate Sendable() {
      Password? ==> 0 < |username| <= 255 && 0 < |password| <= 255
    }
  }

  datatype Config = Config(auths: seq<AuthInfo>, udp: bool, dest: Address)

  /** The greeting can be sent. */
  predicate Greetable(c: Config) { 0 < |c.auths| <= 255 }

  function Methods(auths: seq<AuthInfo>): (r: seq<byte>)
    ensures |r| == |auths| && forall i | 0 <= i < |auths| :: r[i] == auths[i].Method()
  {
    seq(|auths|, i requires 0 <= i < |auths| => auths[i].Method())
  }

  function Hello(c: Config): seq<byte>
    requires Greetable(c)
  {
    [SOCKS_VERSION, |c.auths| as byte] + Methods(c.auths)
  }

  function PasswordMessage(a: AuthInfo): seq<byte>
    requires a.Password? && a.Sendable()
  {
    [1 as byte, |a.username| as byte] + a.username + [|a.password| as byte] + a.password
  }

  function Request(c: Config): seq<byte>
    requires !c.dest.Other?
  {
    [SOCKS_VERSION, if c.udp then CMD_UDP_ASSOCIATE else CMD_CONNECT, 0, if c.dest.IPv4? then ATYP_IPV4 else ATYP_IPV6]
    + c.dest.ip + c.dest.port
  }

  /** The offered method that the server chose: the first with its number. */
  function Chosen(auths: seq<AuthInfo>, m: byte): (r: Option<AuthInfo>)
    ensures r.Some? ==> r.value in auths && r.value.Method() == m
    ensures r.None? ==> forall a | a in auths :: a.Method() != m
  {
    if auths == [] then None
    else if auths[0].Method() == m then Some(auths[0])
    else Chosen(auths[1..], m)
  }

  /** Which part of the server's side is awaited. */
  datatype Stage = AwaitHello | AwaitPasswordReply | AwaitHeader | AwaitRest(atyp: byte) | Established(bind: BAddr) | Broken

  function AddrLen(atyp: byte): nat { if atyp == ATYP_IPV4 then 4 + 2 else 16 + 2 }

  /** The size of the part. */
  function Needs(stage: Stage): nat {
    match stage
    case AwaitHello => 2
    case AwaitPasswordReply => 2
    case AwaitHeader => 4
    case AwaitRest(atyp) => AddrLen(atyp)
    case _ => 0
  }

  predicate Awaiting(stage: Stage) { !stage.Established? && !stage.Broken? }

  /** What follows the authentication: the request, and a wait for the reply. */
  function SendRequest(c: Config): (Stage, seq<byte>) {
    if c.dest.Other? then (Broken, []) else (AwaitHeader, Request(c))
  }

  function BindAddr(atyp: byte, rest: seq<byte>): BAddr
    requires |rest| == AddrLen(atyp)
  {
    if atyp == ATYP_IPV4 then IPv4(rest[..4], rest[4..]) else IPv6(rest[..16], rest[16..])
  }

  /** What a whole part makes of the exchange, and what the client sends then. */
  function Respond(c: Config, stage: Stage, part: seq<byte>): (Stage, seq<byte>)
    requires Awaiting(stage) && |part| == Needs(stage)
  {
    match stage
    case AwaitHello =>
      var chosen := Chosen(c.auths, part[1]);
      if part[0] != SOCKS_VERSION || chosen.None? then (Broken, [])
      else if chosen.value.NoAuth? then SendRequest(c)
      else if !chosen.value.Sendable() then (Broken, [])
      else (AwaitPasswordReply, PasswordMessage(chosen.value))
    case AwaitPasswordReply =>
      if part[0] != 1 || part[1] != 0 then (Broken, []) else SendRequest(c)
    case AwaitHeader =>
      if part[0] != SOCKS_VERSION || part[1] != REP_SUCCEEDED || (part[3] != ATYP_IPV4 && part[3] != ATYP_IPV6) then
        (Broken, [])
      else
        (AwaitRest(part[3]), [])
    case AwaitRest(atyp) => (Established(BindAddr(atyp, part)), [])
  }

  /** How far bytes from the server take the exchange, what has been sent on the way, and the bytes
      that are not a whole part yet or follow the end. */
  datatype Progress = Progress(stage: Stage, sent: seq<byte>, rest: seq<byte>)

  function Hear(c: Config, stage: Stage, sent: seq<byte>, rx: seq<byte>): Progress
    decreases |rx|, if Awaiting(stage) then 1 else 0
  {
    if !Awaiting(stage) || |rx| < Needs(stage) then
      Progress(stage, sent, rx)
    else
      var n := Needs(stage);
      var (next, more) := Respond(c, stage, rx[..n]);
      Hear(c, next, sent + more, rx[n..])
  }

  /** The exchange from the greeting on. */
  function Exchange(c: Config, rx: seq<byte>): Progress
    requires Greetable(c)
  {
    Hear(c, AwaitHello, Hello(c), rx)
  }

  /** Cutting the server's bytes anywhere makes no difference. */
  lemma {:induction false} HearMore(c: Config, stage: Stage, sent: seq<byte>, rx: seq<byte>, more: seq<byte>)
    ensures var p := Hear(c, stage, sent, rx);
      Hear(c, stage, sent, rx + more) == Hear(c, p.stage, p.sent, p.rest + more)
    decreases |rx|
  {
    if Awaiting(stage) && |rx| >= Needs(stage) {
      var n := Needs(stage);
      var (next, out) := Respond(c, stage, rx[..n]);
      assert (rx + more)[..n] == rx[..n] && (rx + more)[n..] == rx[n..] + more;
      HearMore(c, next, sent + out, rx[n..], more);
    }
  }

  // ----- what success means, byte by byte -----

  predicate HelloAccepted(c: Config, rx: seq<byte>) {
    |rx| >= 2 && rx[0] == SOCKS_VERSION && Chosen(c.auths, rx[1]).Some? && Chosen(c.auths, rx[1]).value.Sendable()
  }

  /** Where the reply starts. */
  function ReplyAt(rx: seq<byte>): nat
    requires |rx| >= 2
  {
    if rx[1] == METHOD_USERNAME_PASSWORD then 4 else 2
  }

  /** rx is the server's side of a successful exchange: it chose an offered method, accepted the
      password if there was one, and sent a success reply with an IPv4 or IPv6 address. */
  predicate Successful(c: Config, rx: seq<byte>) {
    && HelloAccepted(c, rx)
    && (rx[1] == METHOD_USERNAME_PASSWORD ==> |rx| >= 4 && rx[2] == 1 && rx[3] == 0)
    && var at := ReplyAt(rx);
       && |rx| >= at + 4 && rx[at] == SOCKS_VERSION && rx[at + 1] == REP_SUCCEEDED
       && (rx[at + 3] == ATYP_IPV4 || rx[at + 3] == ATYP_IPV6)
       && |rx| == at + 4 + AddrLen(rx[at + 3])
  }

  /** All that the client sends in it. */
  function SentOnSuccess(c: Config, rx: seq<byte>): seq<byte>
    requires Greetable(c) && HelloAccepted(c, rx) && !c.dest.Other?
  {
    var chosen := Chosen(c.auths, rx[1]).value;
    Hello(c) + (if chosen.Password? then PasswordMessage(chosen) else []) + Request(c)
  }

  lemma {:induction false} HearStep(c: Config, stage: Stage, sent: seq<byte>, rx: seq<byte>)
    requires Awaiting(stage) && |rx| >= Needs(stage)
    ensures var (next, more) := Respond(c, stage, rx[..Needs(stage)]);
      Hear(c, stage, sent, rx) == Hear(c, next, sent + more, rx[Needs(stage)..])
  {
  }

  lemma {:induction false} HearStops(c: Config, stage: Stage, sent: seq<byte>, rx: seq<byte>)
    requires !Awaiting(stage) || |rx| < Needs(stage)
    ensures Hear(c, stage, sent, rx) == Progress(stage, sent, rx)
  {
  }

  /** The last part, after which the exchange is complete. */
  lemma {:induction false} HearRest(c: Config, atyp: byte, sent: seq<byte>, rx: seq<byte>)
    ensures var p, n := Hear(c, AwaitRest(atyp), sent, rx), AddrLen(atyp);
      if |rx| < n then p.stage == AwaitRest(atyp)
      else p == Progress(Established(BindAddr(atyp, rx[..n])), sent, rx[n..])
  {
    var n := AddrLen(atyp);
    if |rx| < n {
      HearStops(c, AwaitRest(atyp), sent, rx);
    } else {
      HearStep(c, AwaitRest(atyp), sent, rx);
      assert sent + [] == sent;
      HearStops(c, Established(BindAddr(atyp, rx[..n])), sent, rx[n..]);
    }
  }

  /** A success reply with an address, and nothing behind it. */
  predicate GoodReply(rx: seq<byte>) {
    && |rx| >= 4 && rx[0] == SOCKS_VERSION && rx[1] == REP_SUCCEEDED && (rx[3] == ATYP_IPV4 || rx[3] == ATYP_IPV6)
    && |rx| == 4 + AddrLen(rx[3])
  }

  /** The reply behind an accepted authentication. */
  lemma {:induction false} HearReply(c: Config, sent: seq<byte>, rx: seq<byte>)
    ensures var p := Hear(c, AwaitHeader, sent, rx);
      && (p.stage.Established? && p.rest == [] <==> GoodReply(rx))
      && (GoodReply(rx) ==> p.stage == Established(BindAddr(rx[3], rx[4..])) && p.sent == sent)
  {
    if |rx| < 4 {
      HearStops(c, AwaitHeader, sent, rx);
    } else {
      var part := rx[..4];
      assert part[0] == rx[0] && part[1] == rx[1] && part[3] == rx[3];
      HearStep(c, AwaitHeader, sent, rx);
      assert sent + [] == sent;
      var next := Respond(c, AwaitHeader, part).0;
      if next.Broken? {
        HearStops(c, next, sent, rx[4..]);
      } else {
        HearRest(c, rx[3], sent, rx[4..]);
        if GoodReply(rx) { assert rx[4..][..AddrLen(rx[3])] == rx[4..]; }
      }
    }
  }

  /** From the request on, with sent0 sent before it. */
  lemma {:induction false} HearFromRequest(c: Config, sent0: seq<byte>, rx: seq<byte>)
    ensures var (next, more) := SendRequest(c);
      var p := Hear(c, next, sent0 + more, rx);
      && (p.stage.Established? && p.rest == [] <==> GoodReply(rx) && !c.dest.Other?)
      && (GoodReply(rx) && !c.dest.Other? ==>
            p.stage == Established(BindAddr(rx[3], rx[4..])) && p.sent == sent0 + Request(c))
  {
    if c.dest.Other? {
      HearStops(c, Broken, sent0 + [], rx);
    } else {
      HearReply(c, sent0 + Request(c), rx);
    }
  }

  /** The server's greeting. */
  lemma {:induction false} HearHello(c: Config, rx: seq<byte>)
    requires Greetable(c)
    ensures !HelloAccepted(c, rx) ==> !Exchange(c, rx).stage.Established?
    ensures HelloAccepted(c, rx) ==>
      var chosen := Chosen(c.auths, rx[1]).value;
      var (next, more) := if chosen.NoAuth? then SendRequest(c) else (AwaitPasswordReply, PasswordMessage(chosen));
      Exchange(c, rx) == Hear(c, next, Hello(c) + more, rx[2..])
  {
    if |rx| < 2 {
      HearStops(c, AwaitHello, Hello(c), rx);
    } else {
      assert rx[..2][0] == rx[0] && rx[..2][1] == rx[1];
      HearStep(c, AwaitHello, Hello(c), rx);
      if !HelloAccepted(c, rx) { HearStops(c, Broken, Hello(c) + [], rx[2..]); }
    }
  }

  /** The password reply. */
  lemma {:induction false} HearPassword(c: Config, sent: seq<byte>, rx: seq<byte>)
    ensures var good := |rx| >= 2 && rx[0] == 1 && rx[1] == 0;
      var p := Hear(c, AwaitPasswordReply, sent, rx);
      if good then
        var (next, more) := SendRequest(c);
        p == Hear(c, next, sent + more, rx[2..])
      else
        !p.stage.Established?
  {
    if |rx| < 2 {
      HearStops(c, AwaitPasswordReply, sent, rx);
    } else {
      assert rx[..2][0] == rx[0] && rx[..2][1] == rx[1];
      HearStep(c, AwaitPasswordReply, sent, rx);
      if rx[0] != 1 || rx[1] != 0 { HearStops(c, Broken, sent + [], rx[2..]); }
    }
  }

  lemma GoodReplyAt(c: Config, rx: seq<byte>)
    requires HelloAccepted(c, rx) && |rx| >= ReplyAt(rx)
    ensures var at := ReplyAt(rx);
      && (Successful(c, rx) <==> (rx[1] == METHOD_USERNAME_PASSWORD ==> rx[2] == 1 && rx[3] == 0) && GoodReply(rx[at..]))
      && (GoodReply(rx[at..]) ==> rx[at..][3] == rx[at + 3] && rx[at..][4..] == rx[at + 4..])
  {
    var at := ReplyAt(rx);
    var reply := rx[at..];
    assert forall i | 0 <= i < |reply| :: reply[i] == rx[at + i];
  }

  /** The connection comes up after exactly the bytes rx, with nothing left to read, exactly when
      rx is the server's side of a successful exchange; the bind address is the one in the reply,
      and the client has sent the greeting, the password message if one was called for, and the
      request, in this order and nothing else. */
  lemma {:induction false} UpIffSuccessful(c: Config, rx: seq<byte>)
    requires Greetable(c)
    ensures var p := Exchange(c, rx);
      && (p.stage.Established? && p.rest == [] <==> Successful(c, rx) && !c.dest.Other?)
      && (Successful(c, rx) && !c.dest.Other? ==>
            && p.stage.bind == BindAddr(rx[ReplyAt(rx) + 3], rx[ReplyAt(rx) + 4..])
            && p.sent == SentOnSuccess(c, rx))
  {
    HearHello(c, rx);
    if HelloAccepted(c, rx) {
      var chosen := Chosen(c.auths, rx[1]).value;
      if chosen.NoAuth? {
        HearFromRequest(c, Hello(c), rx[2..]);
        GoodReplyAt(c, rx);
        assert Hello(c) + [] == Hello(c);
      } else {
        HearPassword(c, Hello(c) + PasswordMessage(chosen), rx[2..]);
        if |rx| >= 4 {
          assert rx[2..][0] == rx[2] && rx[2..][1] == rx[3] && rx[2..][2..] == rx[4..];
          HearFromRequest(c, Hello(c) + PasswordMessage(chosen), rx[4..]);
          GoodReplyAt(c, rx);
        }
      }
    }
  }

  // ----- a stream that goes on -----

  /** Once a start of the stream has broken the exchange, or all of it has not brought the connection
      up, no start of it is a successful exchange. */
  lemma {:induction false} NeverSuccessful(c: Config, server: seq<byte>, read: nat, n: nat)
    requires Greetable(c) && read <= |server| && n <= |server|
    requires var stage := Exchange(c, server[..read]).stage; stage.Broken? || (read == |server| && !stage.Established?)
    ensures !(Successful(c, server[..n]) && !c.dest.Other?)
  {
    var few := if n <= read then n else read;
    var many := if n <= read then read else n;
    UpIffSuccessful(c, server[..n]);
    assert server[..many] == server[..few] + server[few..many];
    HearMore(c, AwaitHello, Hello(c), server[..few], server[few..many]);
    var p := Exchange(c, server[..few]);
    if !Awaiting(p.stage) {
      HearStops(c, p.stage, p.sent, p.rest + server[few..many]);
    }
  }
}
