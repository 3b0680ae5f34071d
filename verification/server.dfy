/**
 The responder of src/server.rs: configuration built once at start-up, and
 the pure decision that turns one received query into at most two replies.

 Server is an immutable value (nothing updates its fields after `new`), so it
 is a datatype; the operations whose source code works step by step (the
 nested loops of handle_packet, the pushes of create_response, the early
 return of find_local_ip, the re-assigned host name of new) are methods, each
 proved equal to a specification function defined here.
 */
module Server {
  import opened Wrappers
  import opened Net
  import opened Dns

  /** A hosted service: its type name, instance name, port and TXT strings. */
  datatype Service = Service(serviceType: string, name: string, port: u16, txt: seq<string>)

  /** A local IPv4 address together with the block of the link it sits on. */
  datatype Prefix = Prefix(local: Ipv4Addr, cidr: Ipv4Cidr)

  datatype Server = Server(services: seq<Service>, hostname: string, prefixes: seq<Prefix>)

  /** An interface address as the operating system's enumeration reports it. */
  datatype IfAddr = V4(ip: Ipv4Addr, netmask: Ipv4Addr) | V6
  datatype Interface = Interface(name: string, addr: IfAddr)

  /** A received datagram (the Message of src/multicast/mod.rs). */
  datatype SocketAddrV4 = SocketAddrV4(ip: Ipv4Addr, port: u16)
  datatype Message = Message(data: seq<bv8>, sender: SocketAddrV4, interface: int)

  /** Why `new` fails: one of its two operating-system queries failed. */
  datatype NewError = HostnameUnavailable | InterfacesUnavailable

  const LOCAL_SUFFIX: string := ".local"
  const RECORD_TTL: u32 := 3600

  predicate EndsWith(s: string, suffix: string) {
    |suffix| <= |s| && s[|s| - |suffix|..] == suffix
  }

  // ---------------------------------------------------------------------
  // Configuration (Server::new)
  // ---------------------------------------------------------------------

  /** The host name with ".local" appended unless it already ends so. */
  function LocalHostName(hostname: string): (r: string)
    ensures EndsWith(r, LOCAL_SUFFIX)
    ensures |hostname| <= |r| && r[..|hostname|] == hostname
  {
    if EndsWith(hostname, LOCAL_SUFFIX) then hostname else hostname + LOCAL_SUFFIX
  }

  /** A netmask the responder accepts: neither 0.0.0.0 nor 255.255.255.255. */
  predicate NontrivialMask(mask: Ipv4Addr) {
    mask != UNSPECIFIED && mask != BROADCAST
  }

  /** The filter_map closure of `new`: the prefix an interface contributes, if any. */
  function PrefixEntry(iface: Interface): (r: Option<Prefix>)
    ensures r.Some? <==>
      iface.addr.V4? && NontrivialMask(iface.addr.netmask) && IsContiguousMask(iface.addr.netmask)
    ensures r.Some? ==>
      r.value.local == iface.addr.ip && r.value.cidr.mask == iface.addr.netmask &&
      Contains(r.value.cidr, r.value.local)
  {
    match iface.addr
    case V6 => None
    case V4(ip, netmask) =>
      if NontrivialMask(netmask) then
        match FromPrefixAndMask(ip, netmask)
        case None => None
        case Some(cidr) => Some(Prefix(ip, cidr))
      else
        None
  }

  /** The prefixes of `new`: PrefixEntry kept for each interface, in order. */
  function Prefixes(ifaces: seq<Interface>): (r: seq<Prefix>)
    ensures |r| <= |ifaces|
    ensures forall k :: 0 <= k < |r| ==>
      NontrivialMask(r[k].cidr.mask) && Contains(r[k].cidr, r[k].local)
  {
    if ifaces == [] then []
    else
      (match PrefixEntry(ifaces[0]) case Some(p) => [p] case None => []) + Prefixes(ifaces[1..])
  }

  /**
   Server::new, with the two operating-system queries given as their results:
   `hostname` is None when the host name cannot be read, `interfaces` None
   when the interfaces cannot be listed.
   */
  method New(services: seq<Service>, hostname: Option<string>, interfaces: Option<seq<Interface>>)
    returns (r: Result<Server, NewError>)
    ensures hostname.None? ==> r == Failure(HostnameUnavailable)
    ensures hostname.Some? && interfaces.None? ==> r == Failure(InterfacesUnavailable)
    ensures hostname.Some? && interfaces.Some? ==>
      r == Success(Server(services, LocalHostName(hostname.value), Prefixes(interfaces.value)))
    ensures r.Success? ==> EndsWith(r.value.hostname, LOCAL_SUFFIX)
  {
    if hostname.None? {
      return Failure(HostnameUnavailable);
    }
    var name := hostname.value;
    if !EndsWith(name, LOCAL_SUFFIX) {
      name := name + LOCAL_SUFFIX;
    }
    if interfaces.None? {
      return Failure(InterfacesUnavailable);
    }
    var prefixes := Prefixes(interfaces.value);
    return Success(Server(services, name, prefixes));
  }

  // ---------------------------------------------------------------------
  // Local address selection (find_local_ip)
  // ---------------------------------------------------------------------

  /** Entry `i` is the first prefix whose block contains `remote`. */
  predicate IsFirstMatch(prefixes: seq<Prefix>, remote: Ipv4Addr, i: int) {
    0 <= i < |prefixes| && Contains(prefixes[i].cidr, remote) &&
    forall j :: 0 <= j < i ==> !Contains(prefixes[j].cidr, remote)
  }

  /** The local address chosen for a peer at `remote`. */
  function LocalIpFor(prefixes: seq<Prefix>, remote: Ipv4Addr): (r: Option<Ipv4Addr>)
    ensures r.None? <==> forall i :: 0 <= i < |prefixes| ==> !Contains(prefixes[i].cidr, remote)
    ensures r.Some? ==> exists i :: IsFirstMatch(prefixes, remote, i) && r.value == prefixes[i].local
  {
    if prefixes == [] then None
    else if Contains(prefixes[0].cidr, remote) then
      assert IsFirstMatch(prefixes, remote, 0);
      Some(prefixes[0].local)
    else
      var r := LocalIpFor(prefixes[1..], remote);
      if r.Some? then
        var i :| IsFirstMatch(prefixes[1..], remote, i) && r.value == prefixes[1..][i].local;
        assert IsFirstMatch(prefixes, remote, i + 1);
        r
      else
        assert forall i :: 1 <= i < |prefixes| ==> prefixes[i] == prefixes[1..][i - 1];
        r
  }

  /** find_local_ip: a scan of the prefixes in order, returning at the first block that contains `remote`. */
  method FindLocalIp(server: Server, remote: Ipv4Addr) returns (r: Option<Ipv4Addr>)
    ensures r == LocalIpFor(server.prefixes, remote)
  {
    var i := 0;
    while i < |server.prefixes|
      invariant 0 <= i <= |server.prefixes|
      invariant forall j :: 0 <= j < i ==> !Contains(server.prefixes[j].cidr, remote)
    {
      if Contains(server.prefixes[i].cidr, remote) {
        assert IsFirstMatch(server.prefixes, remote, i);
        return Some(server.prefixes[i].local);
      }
      i := i + 1;
    }
    return None;
  }

  // ---------------------------------------------------------------------
  // Records for one service (create_response)
  // ---------------------------------------------------------------------

  /** An (answers, additionals) pair: one response being accumulated. */
  datatype Records = Records(answers: seq<ResourceRecord>, additionals: seq<ResourceRecord>)

  const NoRecords: Records := Records([], [])

  function Join(a: Records, b: Records): Records {
    Records(a.answers + b.answers, a.additionals + b.additionals)
  }

  /** The records advertising `service` from host `hostname` at address `ip`. */
  function ServiceRecords(hostname: string, service: Service, ip: Ipv4Addr): Records {
    var ptr := ResourceRecord(Name(service.serviceType), RECORD_TTL, PtrData(Name(service.name)));
    var srv := ResourceRecord(Name(service.name), RECORD_TTL, SrvData(0, 0, service.port, Name(hostname)));
    var txt := ResourceRecord(Name(service.name), RECORD_TTL, TxtData(service.txt));
    var a := ResourceRecord(Name(hostname), RECORD_TTL, AData(ip));
    Records([ptr], [srv] + (if service.txt == [] then [] else [txt]) + [a])
  }

  /**
   create_response: None (the source's error) when no local address serves
   the peer, otherwise the PTR answer and the SRV, TXT and A additionals.
   */
  method CreateResponse(server: Server, service: Service, remote: Ipv4Addr) returns (r: Option<Records>)
    ensures r.None? <==> LocalIpFor(server.prefixes, remote).None?
    ensures r.Some? ==>
      r.value == ServiceRecords(server.hostname, service, LocalIpFor(server.prefixes, remote).value)
  {
    var ip := FindLocalIp(server, remote);
    if ip.None? {
      return None;
    }
    var answers := [ResourceRecord(Name(service.serviceType), RECORD_TTL, PtrData(Name(service.name)))];
    var additionals :=
      [ResourceRecord(Name(service.name), RECORD_TTL, SrvData(0, 0, service.port, Name(server.hostname)))];
    if service.txt != [] {
      additionals := additionals + [ResourceRecord(Name(service.name), RECORD_TTL, TxtData(service.txt))];
    }
    additionals := additionals + [ResourceRecord(Name(server.hostname), RECORD_TTL, AData(ip.value))];
    return Some(Records(answers, additionals));
  }

  // ---------------------------------------------------------------------
  // Answering a query (handle_packet)
  // ---------------------------------------------------------------------

  /** The question asks for the PTR records of the service's type. */
  predicate Matches(q: Question, s: Service) {
    q.qtype == PTR && NameEquals(q.name, s.serviceType)
  }

  predicate MatchesSome(q: Question, services: seq<Service>) {
    exists j :: 0 <= j < |services| && Matches(q, services[j])
  }

  /** Some question of the query asks for some hosted service. */
  predicate AnyMatch(questions: seq<Question>, services: seq<Service>) {
    exists i :: 0 <= i < |questions| && MatchesSome(questions[i], services)
  }

  /** What question `q` contributes: the records of each service it matches, in service order. */
  function QuestionRecords(hostname: string, services: seq<Service>, q: Question, ip: Ipv4Addr): Records
  {
    if services == [] then NoRecords
    else
      var last := services[|services| - 1];
      Join(QuestionRecords(hostname, services[..|services| - 1], q, ip),
           if Matches(q, last) then ServiceRecords(hostname, last, ip) else NoRecords)
  }

  /** The bucket for one destination: what each question whose unicast bit is `unicast` contributes, in question order. */
  function RouteRecords(hostname: string, services: seq<Service>, questions: seq<Question>,
                        ip: Ipv4Addr, unicast: bool): Records
  {
    if questions == [] then NoRecords
    else
      var last := questions[|questions| - 1];
      Join(RouteRecords(hostname, services, questions[..|questions| - 1], ip, unicast),
           if last.unicast == unicast then QuestionRecords(hostname, services, last, ip) else NoRecords)
  }

  /** The reply for one bucket: present only when the bucket holds a record. */
  function Reply(id: u16, records: Records): Option<Packet> {
    if records.answers != [] || records.additionals != [] then
      Some(NewResponse(id, [], records.answers, [], records.additionals))
    else
      None
  }

  /**
   The outcome of handle_packet for a datagram from `remote` that parsed to
   `parsed` (None: it did not parse). The outer None means "nothing to do";
   otherwise the pair is (unicast reply, multicast reply).
   */
  function Responses(server: Server, remote: Ipv4Addr, parsed: Option<Packet>): Option<(Option<Packet>, Option<Packet>)>
  {
    if parsed.None? || !parsed.value.header.isQuery then None
    else
      var query := parsed.value;
      match LocalIpFor(server.prefixes, remote)
      case None =>
        if AnyMatch(query.questions, server.services) then None else Some((None, None))
      case Some(ip) =>
        Some((Reply(query.header.id, RouteRecords(server.hostname, server.services, query.questions, ip, true)),
              Reply(query.header.id, RouteRecords(server.hostname, server.services, query.questions, ip, false))))
  }

  /** Without a matching question, neither bucket receives a record. */
  lemma {:induction false} NoMatchNoRecords(hostname: string, services: seq<Service>,
                                            questions: seq<Question>, ip: Ipv4Addr, unicast: bool)
    requires !AnyMatch(questions, services)
    ensures RouteRecords(hostname, services, questions, ip, unicast) == NoRecords
  {
    if questions != [] {
      var init := questions[..|questions| - 1];
      assert !AnyMatch(init, services) by {
        forall i | 0 <= i < |init| ensures !MatchesSome(init[i], services) {
          assert init[i] == questions[i];
        }
      }
      NoMatchNoRecords(hostname, services, init, ip, unicast);
      var last := questions[|questions| - 1];
      assert !MatchesSome(last, services);
      NoMatchQuestionRecords(hostname, services, last, ip);
    }
  }

  lemma {:induction false} NoMatchQuestionRecords(hostname: string, services: seq<Service>, q: Question, ip: Ipv4Addr)
    requires !MatchesSome(q, services)
    ensures QuestionRecords(hostname, services, q, ip) == NoRecords
  {
    if services != [] {
      var init := services[..|services| - 1];
      assert !MatchesSome(q, init) by {
        forall j | 0 <= j < |init| ensures !Matches(q, init[j]) {
          assert init[j] == services[j];
        }
      }
      NoMatchQuestionRecords(hostname, init, q, ip);
    }
  }

  lemma JoinAssoc(a: Records, b: Records, c: Records)
    ensures Join(Join(a, b), c) == Join(a, Join(b, c))
  {
  }

  lemma JoinNone(a: Records)
    ensures Join(a, NoRecords) == a && Join(NoRecords, a) == a
  {
  }

  /** One more service scanned for question `q`: its records, if it matches, follow those already gathered. */
  lemma ServiceStep(hostname: string, services: seq<Service>, j: nat, q: Question, ip: Ipv4Addr)
    requires j < |services|
    ensures QuestionRecords(hostname, services[..j + 1], q, ip) ==
      Join(QuestionRecords(hostname, services[..j], q, ip),
           if Matches(q, services[j]) then ServiceRecords(hostname, services[j], ip) else NoRecords)
    ensures MatchesSome(q, services[..j + 1]) <==> MatchesSome(q, services[..j]) || Matches(q, services[j])
  {
    assert services[..j + 1][..j] == services[..j];
    if MatchesSome(q, services[..j + 1]) {
      var k :| 0 <= k < j + 1 && Matches(q, services[..j + 1][k]);
      if k < j {
        assert services[..j][k] == services[k];
      }
    }
    if MatchesSome(q, services[..j]) {
      var k :| 0 <= k < j && Matches(q, services[..j][k]);
      assert services[..j + 1][k] == services[k];
    }
    if Matches(q, services[j]) {
      assert services[..j + 1][j] == services[j];
    }
  }

  /** One more question answered: its contribution follows the earlier questions' in its own bucket only. */
  lemma QuestionStep(hostname: string, services: seq<Service>, questions: seq<Question>, i: nat, ip: Ipv4Addr)
    requires i < |questions|
    ensures forall unicast: bool {:trigger RouteRecords(hostname, services, questions[..i + 1], ip, unicast)} ::
      RouteRecords(hostname, services, questions[..i + 1], ip, unicast) ==
      Join(RouteRecords(hostname, services, questions[..i], ip, unicast),
           if questions[i].unicast == unicast then QuestionRecords(hostname, services, questions[i], ip) else NoRecords)
    ensures AnyMatch(questions[..i + 1], services) <==>
      AnyMatch(questions[..i], services) || MatchesSome(questions[i], services)
  {
    assert questions[..i + 1][..i] == questions[..i];
    if AnyMatch(questions[..i + 1], services) {
      var k :| 0 <= k < i + 1 && MatchesSome(questions[..i + 1][k], services);
      if k < i {
        assert questions[..i][k] == questions[k];
      }
    }
    if AnyMatch(questions[..i], services) {
      var k :| 0 <= k < i && MatchesSome(questions[..i][k], services);
      assert questions[..i + 1][k] == questions[k];
    }
    if MatchesSome(questions[i], services) {
      assert questions[..i + 1][i] == questions[i];
    }
  }

  /** The chosen address, or 0.0.0.0 where none is needed because no question matches. */
  function AddressOr(ip: Option<Ipv4Addr>): Ipv4Addr {
    if ip.Some? then ip.value else UNSPECIFIED
  }

  /** A query whose question `i` matches a service while no block contains the sender gets no answer at all. */
  lemma ResponsesAbandoned(server: Server, remote: Ipv4Addr, query: Packet, i: nat)
    requires query.header.isQuery && LocalIpFor(server.prefixes, remote).None?
    requires i < |query.questions| && MatchesSome(query.questions[i], server.services)
    ensures Responses(server, remote, Some(query)) == None
  {
  }

  /** A query scanned to the end yields the replies of its two buckets. */
  lemma ResponsesOfQuery(server: Server, remote: Ipv4Addr, query: Packet, unicastRecords: Records, multicastRecords: Records)
    requires query.header.isQuery
    requires AnyMatch(query.questions, server.services) ==> LocalIpFor(server.prefixes, remote).Some?
    requires var addr := AddressOr(LocalIpFor(server.prefixes, remote));
      && unicastRecords == RouteRecords(server.hostname, server.services, query.questions, addr, true)
      && multicastRecords == RouteRecords(server.hostname, server.services, query.questions, addr, false)
    ensures Responses(server, remote, Some(query)) ==
      Some((Reply(query.header.id, unicastRecords), Reply(query.header.id, multicastRecords)))
  {
    if LocalIpFor(server.prefixes, remote).None? {
      NoMatchNoRecords(server.hostname, server.services, query.questions, UNSPECIFIED, true);
      NoMatchNoRecords(server.hostname, server.services, query.questions, UNSPECIFIED, false);
    }
  }

  /**
   The inner loop of handle_packet, for one question: the records of every
   service the question matches are appended, in service order, to the
   bucket its unicast bit selects. None when a matching service finds no
   local address for the sender (handle_packet then gives up).
   */
  method GatherForQuestion(server: Server, question: Question, remote: Ipv4Addr,
                           unicastRecords: Records, multicastRecords: Records)
    returns (r: Option<(Records, Records)>)
    ensures r.None? <==> MatchesSome(question, server.services) && LocalIpFor(server.prefixes, remote).None?
    ensures r.Some? ==>
      var gathered := QuestionRecords(server.hostname, server.services, question,
                                      AddressOr(LocalIpFor(server.prefixes, remote)));
      r.value == if question.unicast then (Join(unicastRecords, gathered), multicastRecords)
                 else (unicastRecords, Join(multicastRecords, gathered))
  {
    var services, hostname := server.services, server.hostname;
    ghost var ip := LocalIpFor(server.prefixes, remote);
    ghost var addr := AddressOr(ip);
    var unicastAcc, multicastAcc := unicastRecords, multicastRecords;
    var j := 0;
    while j < |services|
      invariant 0 <= j <= |services|
      invariant MatchesSome(question, services[..j]) ==> ip.Some?
      invariant unicastAcc ==
        Join(unicastRecords, if question.unicast then QuestionRecords(hostname, services[..j], question, addr) else NoRecords)
      invariant multicastAcc ==
        Join(multicastRecords, if !question.unicast then QuestionRecords(hostname, services[..j], question, addr) else NoRecords)
    {
      var service := services[j];
      ghost var done := QuestionRecords(hostname, services[..j], question, addr);
      if question.qtype == PTR && NameEquals(question.name, service.serviceType) {
        var created := CreateResponse(server, service, remote);
        if created.None? {
          return None;
        }
        if question.unicast {
          JoinAssoc(unicastRecords, done, created.value);
          unicastAcc := Join(unicastAcc, created.value);
        } else {
          JoinAssoc(multicastRecords, done, created.value);
          multicastAcc := Join(multicastAcc, created.value);
        }
      } else {
        JoinNone(done);
      }
      ServiceStep(hostname, services, j, question, addr);
      j := j + 1;
    }
    assert services[..j] == services;
    JoinNone(unicastRecords);
    JoinNone(multicastRecords);
    return Some((unicastAcc, multicastAcc));
  }

  /**
   handle_packet: parse the datagram, and for a query walk its questions and,
   for each, the hosted services, appending the records of every matching
   service to the unicast or the multicast bucket. A matching service for
   which no local address serves the sender abandons the whole call.
   */
  method HandlePacket(server: Server, message: Message, parse: seq<bv8> -> Option<Packet>)
    returns (r: Option<(Option<Packet>, Option<Packet>)>)
    ensures r == Responses(server, message.sender.ip, parse(message.data))
  {
    var parsed := parse(message.data);
    if parsed.None? {
      return None;
    }
    var packet := parsed.value;
    if packet.header.isQuery {
      var remote := message.sender.ip;
      var questions, services, hostname := packet.questions, server.services, server.hostname;
      ghost var ip := LocalIpFor(server.prefixes, remote);
      ghost var addr := AddressOr(ip);
      var unicastRecords, multicastRecords := NoRecords, NoRecords;
      var i := 0;
      while i < |questions|
        invariant 0 <= i <= |questions|
        invariant AnyMatch(questions[..i], services) ==> ip.Some?
        invariant unicastRecords == RouteRecords(hostname, services, questions[..i], addr, true)
        invariant multicastRecords == RouteRecords(hostname, services, questions[..i], addr, false)
      {
        var gathered := GatherForQuestion(server, questions[i], remote, unicastRecords, multicastRecords);
        if gathered.None? {
          ResponsesAbandoned(server, remote, packet, i);
          return None;
        }
        unicastRecords, multicastRecords := gathered.value.0, gathered.value.1;
        QuestionStep(hostname, services, questions, i, addr);
        if questions[i].unicast {
          JoinNone(RouteRecords(hostname, services, questions[..i], addr, false));
        } else {
          JoinNone(RouteRecords(hostname, services, questions[..i], addr, true));
        }
        i := i + 1;
      }
      assert questions[..i] == questions;
      ResponsesOfQuery(server, remote, packet, unicastRecords, multicastRecords);
      var unicastResponse := Reply(packet.header.id, unicastRecords);
      var multicastResponse := Reply(packet.header.id, multicastRecords);
      return Some((unicastResponse, multicastResponse));
    }
    return None;
  }
}
