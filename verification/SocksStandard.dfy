/** The two sides of the exchange as the standards have them (RFC 1928, RFC 1929), by position and
    with their numbers: what a server that succeeds has sent, and what one reads from the client. */
module SocksStandard {
  import opened Wrappers
  import opened Addresses
  import opened Socks

  // ----- the server's side -----

  /** The offer that a user name and a password are taken from. */
  predicate FirstLogin(auths: seq<AuthInfo>, i: int) {
    0 <= i < |auths| && auths[i].Password? && forall j | 0 <= j < i :: auths[j].NoAuth?
  }

  /** Section 3 of RFC 1928: the server takes an offered method that the client can carry out. */
  ghost predicate RfcMethod(c: Config, rx: seq<byte>) {
    && |rx| >= 2 && rx[0] == 5
    && ((rx[1] == 0 && NoAuth in c.auths)
        || (rx[1] == 2 && exists i :: FirstLogin(c.auths, i) && c.auths[i].Sendable()))
  }

  /** A whole success reply of section 6 of RFC 1928; the reserved octet is not looked at. A domain
      name has its length in front. */
  predicate RfcReply(rx: seq<byte>) {
    && |rx| >= 4 && rx[0] == 5 && rx[1] == 0
    && if rx[3] == 1 then |rx| == 4 + 4 + 2
       else if rx[3] == 4 then |rx| == 4 + 16 + 2
       else rx[3] == 3 && |rx| >= 5 && |rx| == 4 + 1 + rx[4] as nat + 2
  }

  /** rx is the server's side of a successful exchange, whatever form the bound address has. With a
      password, section 2 of RFC 1929 puts its answer in front of the reply. */
  ghost predicate RfcSuccessful(c: Config, rx: seq<byte>) {
    && RfcMethod(c, rx)
    && if rx[1] == 2 then |rx| >= 4 && rx[2] == 1 && rx[3] == 0 && RfcReply(rx[4..]) else RfcReply(rx[2..])
  }

  /** The reply of a successful exchange has a domain name. */
  predicate BoundToName(rx: seq<byte>) {
    |rx| >= 8 && rx[if rx[1] == 2 then 7 else 5] == 3
  }

  /** The address and port in the reply of a successful exchange that has no domain name. */
  function RfcBind(rx: seq<byte>): BAddr
    requires |rx| >= 2
  {
    var s := if rx[1] == 2 && |rx| >= 4 then rx[4..] else rx[2..];
    if |s| == 10 then IPv4(s[4..8], s[8..10])
    else if |s| == 22 then IPv6(s[4..20], s[20..22])
    else Other
  }

  lemma BindIs(c: Config, rx: seq<byte>)
    requires Successful(c, rx)
    ensures BindAddr(rx[ReplyAt(rx) + 3], rx[ReplyAt(rx) + 4..]) == RfcBind(rx) && !RfcBind(rx).Other?
  {
    var at := ReplyAt(rx);
    var rest, s := rx[at + 4..], rx[at..];
    ChosenIsFirst(c.auths, rx[1]);
    if rx[at + 3] == ATYP_IPV4 {
      assert rest[..4] == s[4..8] && rest[4..] == s[8..10];
    } else {
      assert rest[..16] == s[4..20] && rest[16..] == s[20..22];
    }
  }

  lemma {:induction false} ChosenIsFirst(auths: seq<AuthInfo>, m: byte)
    ensures m == 0 ==> (Chosen(auths, m) == if NoAuth in auths then Some(NoAuth) else None)
    ensures m == 2 ==> forall i | FirstLogin(auths, i) :: Chosen(auths, m) == Some(auths[i])
    ensures m == 2 && Chosen(auths, m).Some? ==> exists i :: FirstLogin(auths, i)
    ensures m != 0 && m != 2 ==> Chosen(auths, m).None?
  {
    if auths != [] {
      ChosenIsFirst(auths[1..], m);
      assert auths == [auths[0]] + auths[1..];
      if auths[0].NoAuth? && m == 2 {
        forall i | FirstLogin(auths, i) ensures Chosen(auths, m) == Some(auths[i]) {
          assert FirstLogin(auths[1..], i - 1);
        }
        if Chosen(auths, m).Some? {
          var i :| FirstLogin(auths[1..], i);
          assert FirstLogin(auths, i + 1);
        }
      } else if auths[0].Password? && m == 2 {
        assert FirstLogin(auths, 0);
      }
    }
  }

  lemma MethodIff(c: Config, rx: seq<byte>)
    ensures HelloAccepted(c, rx) <==> RfcMethod(c, rx)
  {
    if |rx| >= 2 {
      ChosenIsFirst(c.auths, rx[1]);
      if rx[1] == 2 && HelloAccepted(c, rx) {
        var i :| FirstLogin(c.auths, i);
        assert c.auths[i].Sendable();
      }
    }
  }

  /** The code's notion of success is the standard's without domain names. */
  lemma SuccessfulIff(c: Config, rx: seq<byte>)
    ensures Successful(c, rx) <==> RfcSuccessful(c, rx) && !BoundToName(rx)
  {
    MethodIff(c, rx);
    if HelloAccepted(c, rx) && |rx| >= ReplyAt(rx) {
      GoodReplyAt(c, rx);
      var reply := rx[ReplyAt(rx)..];
      assert forall i | 0 <= i < |reply| :: reply[i] == rx[ReplyAt(rx) + i];
    }
  }

  /** The connection comes up after exactly the bytes rx exactly when they are a successful exchange
      as the standard has it whose bound address is no domain name. */
  lemma {:induction false} UpIffRfcSuccessful(c: Config, rx: seq<byte>)
    requires Greetable(c)
    ensures var p := Exchange(c, rx);
      (p.stage.Established? && p.rest == []) <==> (RfcSuccessful(c, rx) && !BoundToName(rx) && !c.dest.Other?)
  {
    UpIffSuccessful(c, rx);
    SuccessfulIff(c, rx);
  }

  /** A reply header with another address type ends the exchange. */
  lemma {:induction false} HearOtherType(c: Config, sent: seq<byte>, rx: seq<byte>)
    requires |rx| >= 4 && rx[3] != ATYP_IPV4 && rx[3] != ATYP_IPV6
    ensures Hear(c, AwaitHeader, sent, rx).stage.Broken?
  {
    var part := rx[..4];
    assert part[3] == rx[3];
    HearStep(c, AwaitHeader, sent, rx);
    HearStops(c, Broken, sent + [], rx[4..]);
  }

  /** With a domain name the client gives up, although the server did all that the standard asks. */
  lemma {:induction false} DomainReplyFails(c: Config, rx: seq<byte>)
    requires Greetable(c) && RfcSuccessful(c, rx) && BoundToName(rx)
    ensures Exchange(c, rx).stage.Broken?
  {
    MethodIff(c, rx);
    HearHello(c, rx);
    var chosen := Chosen(c.auths, rx[1]).value;
    if chosen.NoAuth? {
      RequestThenOtherType(c, Hello(c), rx[2..]);
    } else {
      HearPassword(c, Hello(c) + PasswordMessage(chosen), rx[2..]);
      assert rx[2..][0] == rx[2] && rx[2..][1] == rx[3] && rx[2..][2..] == rx[4..];
      RequestThenOtherType(c, Hello(c) + PasswordMessage(chosen), rx[4..]);
    }
  }

  lemma {:induction false} RequestThenOtherType(c: Config, sent: seq<byte>, rx: seq<byte>)
    requires |rx| >= 4 && rx[3] != ATYP_IPV4 && rx[3] != ATYP_IPV6
    ensures var (next, more) := SendRequest(c);
      Hear(c, next, sent + more, rx).stage.Broken?
  {
    if c.dest.Other? {
      HearStops(c, Broken, sent + [], rx);
    } else {
      HearOtherType(c, sent + Request(c), rx);
    }
  }

  /** A server that answers so: no authentication, then success, bound to the name "a", port 80. */
  const DOMAIN_EXAMPLE: seq<byte> := [5, 0, 5, 0, 0, 3, 1, 'a' as byte, 0, 80]

  lemma DomainExample(c: Config)
    requires c.auths == [NoAuth] && !c.dest.Other?
    ensures RfcSuccessful(c, DOMAIN_EXAMPLE) && Exchange(c, DOMAIN_EXAMPLE).stage.Broken?
  {
    var reply := DOMAIN_EXAMPLE[2..];
    assert reply[0] == 5 && reply[1] == 0 && reply[3] == 3 && reply[4] == 1 && |reply| == 8;
    assert c.auths[0] == NoAuth;
    DomainReplyFails(c, DOMAIN_EXAMPLE);
  }

  // ----- the client's side -----

  datatype Login = Login(username: seq<byte>, password: seq<byte>)

  /** What a server reads from a client: the methods offered, the login where it asked for one, the
      command, and the address. */
  datatype Client = Client(methods: seq<byte>, login: Option<Login>, command: byte, dest: BAddr)

  /** Section 3 of RFC 1928: version 5, the number of methods, the methods. */
  function ReadGreeting(s: seq<byte>): Option<(seq<byte>, seq<byte>)> {
    if |s| < 2 || s[0] != 5 || |s| < 2 + s[1] as nat then None
    else Some((s[2..2 + s[1] as nat], s[2 + s[1] as nat..]))
  }

  /** Section 2 of RFC 1929: version 1, then the user name and the password, each behind its length. */
  function ReadLogin(s: seq<byte>): Option<(Login, seq<byte>)> {
    if |s| < 2 || s[0] != 1 then None
    else
      var u := s[1] as nat;
      if |s| < 2 + u + 1 then None
      else
        var p := s[2 + u] as nat;
        if |s| < 3 + u + p then None
        else Some((Login(s[2..2 + u], s[3 + u..3 + u + p]), s[3 + u + p..]))
  }

  /** Section 4 of RFC 1928: version 5, the command, a reserved 0, the address type, the address and
      the port. */
  function ReadRequest(s: seq<byte>): Option<(byte, BAddr)> {
    if |s| < 4 || s[0] != 5 || s[2] != 0 then None
    else if s[3] == 1 && |s| == 4 + 4 + 2 then Some((s[1], IPv4(s[4..8], s[8..10])))
    else if s[3] == 4 && |s| == 4 + 16 + 2 then Some((s[1], IPv6(s[4..20], s[20..22])))
    else None
  }

  /** The whole of it, to a server that chose the given method. */
  function ReadClient(s: seq<byte>, m: byte): Option<Client> {
    var greeting := ReadGreeting(s);
    if greeting.None? then None
    else if m == 2 then
      var login := ReadLogin(greeting.value.1);
      if login.None? then None else WithRequest(greeting.value.0, Some(login.value.0), login.value.1)
    else WithRequest(greeting.value.0, None, greeting.value.1)
  }

  function WithRequest(methods: seq<byte>, login: Option<Login>, s: seq<byte>): Option<Client> {
    var request := ReadRequest(s);
    if request.None? then None else Some(Client(methods, login, request.value.0, request.value.1))
  }

  ghost predicate Offered(auths: seq<AuthInfo>, login: Login) {
    exists i :: FirstLogin(auths, i) && auths[i] == Password(login.username, login.password)
  }

  /** What the user of the client asked for, to a server that chose the given method: all methods in
      their order, the first login, CONNECT or UDP ASSOCIATE, and the destination. */
  ghost predicate Asked(c: Config, m: byte, client: Client) {
    && |client.methods| == |c.auths|
    && (forall i | 0 <= i < |c.auths| :: client.methods[i] == if c.auths[i].NoAuth? then 0 else 2)
    && (if m == 2 then client.login.Some? && Offered(c.auths, client.login.value) else client.login.None?)
    && client.command == (if c.udp then 3 else 1) && client.dest == c.dest
  }

  lemma GreetingReads(c: Config, rest: seq<byte>)
    requires Greetable(c)
    ensures ReadGreeting(Hello(c) + rest) == Some((Methods(c.auths), rest))
  {
    var s, n := Hello(c) + rest, |c.auths|;
    assert s[0] == 5 && s[1] as nat == n;
    assert s[2..2 + n] == Methods(c.auths) && s[2 + n..] == rest;
  }

  lemma LoginReads(a: AuthInfo, rest: seq<byte>)
    requires a.Password? && a.Sendable()
    ensures ReadLogin(PasswordMessage(a) + rest) == Some((Login(a.username, a.password), rest))
  {
    var s, u, p := PasswordMessage(a) + rest, |a.username|, |a.password|;
    assert s[0] == 1 && s[1] as nat == u && s[2..2 + u] == a.username;
    assert s[2 + u] as nat == p && s[3 + u..3 + u + p] == a.password && s[3 + u + p..] == rest;
  }

  lemma RequestReads(c: Config)
    requires !c.dest.Other?
    ensures ReadRequest(Request(c)) == Some((if c.udp then 3 else 1, c.dest))
  {
    var s, n := Request(c), |c.dest.ip|;
    assert s[4..4 + n] == c.dest.ip && s[4 + n..4 + n + 2] == c.dest.port;
  }

  /** The server reads just what the user asked for. */
  lemma ServerReads(c: Config, rx: seq<byte>)
    requires Greetable(c) && HelloAccepted(c, rx) && !c.dest.Other?
    ensures var client := ReadClient(SentOnSuccess(c, rx), rx[1]);
      client.Some? && Asked(c, rx[1], client.value)
  {
    var chosen := Chosen(c.auths, rx[1]).value;
    ChosenIsFirst(c.auths, rx[1]);
    RequestReads(c);
    if chosen.Password? {
      GreetingReads(c, PasswordMessage(chosen) + Request(c));
      LoginReads(chosen, Request(c));
      Concat(Hello(c), PasswordMessage(chosen), Request(c));
    } else {
      GreetingReads(c, Request(c));
      assert Hello(c) + [] + Request(c) == Hello(c) + Request(c);
    }
  }
}
