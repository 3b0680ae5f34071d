/**
 Properties of the responder model: what the configuration of `new` keeps,
 how the reply buckets are filled, and when handle_packet answers at all.
 */
module ServerLemmas {
  import opened Wrappers
  import opened Net
  import opened Dns
  import opened Server

  // ---------------------------------------------------------------------
  // Host name
  // ---------------------------------------------------------------------

  /** The suffix is appended at most once: normalising twice changes nothing more. */
  lemma LocalHostNameIdempotent(hostname: string)
    ensures LocalHostName(LocalHostName(hostname)) == LocalHostName(hostname)
  {
  }

  /** A name is left as it is exactly when it already ends in ".local"; otherwise exactly ".local" is added. */
  lemma LocalHostNameUnchangedIff(hostname: string)
    ensures LocalHostName(hostname) == hostname <==> EndsWith(hostname, LOCAL_SUFFIX)
    ensures !EndsWith(hostname, LOCAL_SUFFIX) ==> LocalHostName(hostname) == hostname + LOCAL_SUFFIX
  {
  }

  // ---------------------------------------------------------------------
  // Prefixes
  // ---------------------------------------------------------------------

  /** The prefix list is built interface by interface: input order is preserved. */
  lemma {:induction false} PrefixesAppend(a: seq<Interface>, b: seq<Interface>)
    ensures Prefixes(a + b) == Prefixes(a) + Prefixes(b)
  {
    if a == [] {
      assert a + b == b;
    } else {
      assert (a + b)[1..] == a[1..] + b;
      PrefixesAppend(a[1..], b);
    }
  }

  /** A prefix is kept exactly when some interface yields it. */
  lemma {:induction false} PrefixesMembership(ifaces: seq<Interface>, p: Prefix)
    ensures p in Prefixes(ifaces) <==> exists i :: 0 <= i < |ifaces| && PrefixEntry(ifaces[i]) == Some(p)
  {
    if ifaces != [] {
      PrefixesMembership(ifaces[1..], p);
      if exists i :: 0 <= i < |ifaces| && PrefixEntry(ifaces[i]) == Some(p) {
        var i :| 0 <= i < |ifaces| && PrefixEntry(ifaces[i]) == Some(p);
        if i > 0 {
          assert ifaces[1..][i - 1] == ifaces[i];
        }
      }
      if exists i :: 0 <= i < |ifaces[1..]| && PrefixEntry(ifaces[1..][i]) == Some(p) {
        var i :| 0 <= i < |ifaces[1..]| && PrefixEntry(ifaces[1..][i]) == Some(p);
        assert ifaces[i + 1] == ifaces[1..][i];
      }
    }
  }

  /** An IPv4 interface with an acceptable netmask yields exactly one prefix, its own address with its block. */
  lemma PrefixOfOneInterface(iface: Interface)
    requires iface.addr.V4? && NontrivialMask(iface.addr.netmask) && IsContiguousMask(iface.addr.netmask)
    ensures Prefixes([iface]) == [Prefix(iface.addr.ip, Ipv4Cidr(iface.addr.ip & iface.addr.netmask, iface.addr.netmask))]
  {
    assert [iface][1..] == [];
  }

  // ---------------------------------------------------------------------
  // Records of one service
  // ---------------------------------------------------------------------

  /** The fixed record set of create_response. */
  lemma ServiceRecordsShape(hostname: string, service: Service, ip: Ipv4Addr)
    ensures var r := ServiceRecords(hostname, service, ip);
      && r.answers == [ResourceRecord(Name(service.serviceType), RECORD_TTL, PtrData(Name(service.name)))]
      && |r.additionals| == (if service.txt == [] then 2 else 3)
      && r.additionals[0] == ResourceRecord(Name(service.name), RECORD_TTL, SrvData(0, 0, service.port, Name(hostname)))
      && (service.txt != [] ==> r.additionals[1] == ResourceRecord(Name(service.name), RECORD_TTL, TxtData(service.txt)))
      && r.additionals[|r.additionals| - 1] == ResourceRecord(Name(hostname), RECORD_TTL, AData(ip))
      && ((exists k :: 0 <= k < |r.additionals| && r.additionals[k].data.TxtData?) <==> service.txt != [])
      && (forall k :: 0 <= k < |r.additionals| ==> r.additionals[k].ttl == RECORD_TTL)
  {
  }

  // ---------------------------------------------------------------------
  // Buckets
  // ---------------------------------------------------------------------

  /** Services are scanned in order: the records of a longer service list extend those of its prefix. */
  lemma {:induction false} QuestionRecordsAppend(hostname: string, s1: seq<Service>, s2: seq<Service>, q: Question, ip: Ipv4Addr)
    ensures QuestionRecords(hostname, s1 + s2, q, ip) ==
      Join(QuestionRecords(hostname, s1, q, ip), QuestionRecords(hostname, s2, q, ip))
  {
    if s2 == [] {
      assert s1 + s2 == s1;
      JoinNone(QuestionRecords(hostname, s1, q, ip));
    } else {
      var init := s2[..|s2| - 1];
      var last := s2[|s2| - 1];
      assert (s1 + s2)[..|s1 + s2| - 1] == s1 + init;
      QuestionRecordsAppend(hostname, s1, init, q, ip);
      JoinAssoc(QuestionRecords(hostname, s1, q, ip), QuestionRecords(hostname, init, q, ip),
                if Matches(q, last) then ServiceRecords(hostname, last, ip) else NoRecords);
    }
  }

  /** Questions are answered in order: the bucket of a longer question list extends that of its prefix. */
  lemma {:induction false} RouteRecordsAppend(hostname: string, services: seq<Service>, q1: seq<Question>,
                                              q2: seq<Question>, ip: Ipv4Addr, unicast: bool)
    ensures RouteRecords(hostname, services, q1 + q2, ip, unicast) ==
      Join(RouteRecords(hostname, services, q1, ip, unicast), RouteRecords(hostname, services, q2, ip, unicast))
  {
    if q2 == [] {
      assert q1 + q2 == q1;
      JoinNone(RouteRecords(hostname, services, q1, ip, unicast));
    } else {
      var init := q2[..|q2| - 1];
      var last := q2[|q2| - 1];
      assert (q1 + q2)[..|q1 + q2| - 1] == q1 + init;
      RouteRecordsAppend(hostname, services, q1, init, ip, unicast);
      JoinAssoc(RouteRecords(hostname, services, q1, ip, unicast), RouteRecords(hostname, services, init, ip, unicast),
                if last.unicast == unicast then QuestionRecords(hostname, services, last, ip) else NoRecords);
    }
  }

  /** One question and one service: the service's records exactly when the question matches it and is routed here. */
  lemma RouteRecordsOfOnePair(hostname: string, s: Service, q: Question, ip: Ipv4Addr, unicast: bool)
    ensures RouteRecords(hostname, [s], [q], ip, unicast) ==
      if Matches(q, s) && q.unicast == unicast then ServiceRecords(hostname, s, ip) else NoRecords
  {
    assert [s][..0] == [] && [q][..0] == [];
    var qr := QuestionRecords(hostname, [s], q, ip);
    var sr := if Matches(q, s) then ServiceRecords(hostname, s, ip) else NoRecords;
    JoinNone(sr);
    assert QuestionRecords(hostname, [s][..0], q, ip) == NoRecords;
    assert qr == sr;
    JoinNone(qr);
    if q.unicast != unicast {
      JoinNone(NoRecords);
    }
  }

  /** The answers a question gathers are there exactly when it matches a service. */
  lemma {:induction false} QuestionRecordsNonEmpty(hostname: string, services: seq<Service>, q: Question, ip: Ipv4Addr)
    ensures QuestionRecords(hostname, services, q, ip).answers != [] <==> MatchesSome(q, services)
    ensures QuestionRecords(hostname, services, q, ip).additionals != [] <==> MatchesSome(q, services)
  {
    if services != [] {
      var n := |services| - 1;
      assert services[..n + 1] == services;
      ServiceStep(hostname, services, n, q, ip);
      QuestionRecordsNonEmpty(hostname, services[..n], q, ip);
    }
  }

  /** Some question routed to this bucket matches some service. */
  predicate RoutedMatch(questions: seq<Question>, services: seq<Service>, unicast: bool) {
    exists i :: 0 <= i < |questions| && questions[i].unicast == unicast && MatchesSome(questions[i], services)
  }

  /** A bucket holds records exactly when a question routed to it matches a service. */
  lemma {:induction false} RouteRecordsNonEmpty(hostname: string, services: seq<Service>, questions: seq<Question>,
                                                ip: Ipv4Addr, unicast: bool)
    ensures RouteRecords(hostname, services, questions, ip, unicast).answers != [] <==> RoutedMatch(questions, services, unicast)
    ensures RouteRecords(hostname, services, questions, ip, unicast).additionals != [] <==> RoutedMatch(questions, services, unicast)
  {
    if questions != [] {
      var n := |questions| - 1;
      var init := questions[..n];
      var last := questions[n];
      RouteRecordsNonEmpty(hostname, services, init, ip, unicast);
      QuestionRecordsNonEmpty(hostname, services, last, ip);
      if RoutedMatch(questions, services, unicast) {
        var i :| 0 <= i < |questions| && questions[i].unicast == unicast && MatchesSome(questions[i], services);
        if i < n {
          assert init[i] == questions[i];
        }
      }
      if RoutedMatch(init, services, unicast) {
        var i :| 0 <= i < |init| && init[i].unicast == unicast && MatchesSome(init[i], services);
        assert questions[i] == init[i];
      }
    }
  }

  /** The PTR answer advertising `s`. */
  function PtrAnswer(s: Service): ResourceRecord {
    ResourceRecord(Name(s.serviceType), RECORD_TTL, PtrData(Name(s.name)))
  }

  /** `rec` is the PTR answer of a service that a question routed to this bucket matches. */
  predicate AdvertisedIn(rec: ResourceRecord, questions: seq<Question>, services: seq<Service>, unicast: bool) {
    exists i, j :: 0 <= i < |questions| && 0 <= j < |services| &&
      questions[i].unicast == unicast && Matches(questions[i], services[j]) && rec == PtrAnswer(services[j])
  }

  /** Every answer in a bucket is the PTR record of a service some question routed there asked for. */
  lemma {:induction false} RouteAnswersAdvertised(hostname: string, services: seq<Service>, questions: seq<Question>,
                                                  ip: Ipv4Addr, unicast: bool, rec: ResourceRecord)
    requires rec in RouteRecords(hostname, services, questions, ip, unicast).answers
    ensures AdvertisedIn(rec, questions, services, unicast)
  {
    var n := |questions| - 1;
    var init := questions[..n];
    var last := questions[n];
    if rec in RouteRecords(hostname, services, init, ip, unicast).answers {
      RouteAnswersAdvertised(hostname, services, init, ip, unicast, rec);
      var i, j :| 0 <= i < |init| && 0 <= j < |services| &&
        init[i].unicast == unicast && Matches(init[i], services[j]) && rec == PtrAnswer(services[j]);
      assert questions[i] == init[i];
    } else {
      assert last.unicast == unicast;
      var j := QuestionAnswerSource(hostname, services, last, ip, rec);
      assert questions[n] == last;
    }
  }

  /** Nothing is dropped: every routed, matching (question, service) pair puts the service's PTR answer in the bucket. */
  lemma RouteAnswersComplete(hostname: string, services: seq<Service>, questions: seq<Question>,
                             ip: Ipv4Addr, unicast: bool, i: nat, j: nat)
    requires i < |questions| && j < |services|
    requires questions[i].unicast == unicast && Matches(questions[i], services[j])
    ensures PtrAnswer(services[j]) in RouteRecords(hostname, services, questions, ip, unicast).answers
  {
    var q := questions[i];
    var s := services[j];
    assert services == services[..j] + [s] + services[j + 1..];
    QuestionRecordsAppend(hostname, services[..j] + [s], services[j + 1..], q, ip);
    QuestionRecordsAppend(hostname, services[..j], [s], q, ip);
    assert [s][..0] == [];
    JoinNone(ServiceRecords(hostname, s, ip));
    ServiceRecordsShape(hostname, s, ip);
    assert PtrAnswer(s) in QuestionRecords(hostname, [s], q, ip).answers;
    assert PtrAnswer(s) in QuestionRecords(hostname, services, q, ip).answers;
    assert questions == questions[..i] + [q] + questions[i + 1..];
    RouteRecordsAppend(hostname, services, questions[..i] + [q], questions[i + 1..], ip, unicast);
    RouteRecordsAppend(hostname, services, questions[..i], [q], ip, unicast);
    assert [q][..0] == [];
    JoinNone(QuestionRecords(hostname, services, q, ip));
    assert PtrAnswer(s) in RouteRecords(hostname, services, [q], ip, unicast).answers;
  }

  /** The service whose PTR answer `rec` is, among those `q` matches. */
  lemma {:induction false} QuestionAnswerSource(hostname: string, services: seq<Service>, q: Question, ip: Ipv4Addr,
                                                rec: ResourceRecord)
    returns (j: nat)
    requires rec in QuestionRecords(hostname, services, q, ip).answers
    ensures j < |services| && Matches(q, services[j]) && rec == PtrAnswer(services[j])
  {
    var n := |services| - 1;
    if rec in QuestionRecords(hostname, services[..n], q, ip).answers {
      j := QuestionAnswerSource(hostname, services[..n], q, ip, rec);
      assert services[..n][j] == services[j];
    } else {
      j := n;
    }
  }

  /** Shape of a bucket: two or three additionals per answer, and every A record maps the host name to `ip`. */
  ghost predicate WellFormedBucket(r: Records, hostname: string, ip: Ipv4Addr) {
    && 2 * |r.answers| <= |r.additionals| <= 3 * |r.answers|
    && (forall rec :: rec in r.answers ==> rec.ttl == RECORD_TTL && rec.data.PtrData?)
    && (forall rec :: rec in r.additionals ==> rec.ttl == RECORD_TTL)
    && (forall rec :: rec in r.additionals && rec.data.AData? ==> rec.name == Name(hostname) && rec.data.addr == ip)
  }

  lemma WellFormedJoin(a: Records, b: Records, hostname: string, ip: Ipv4Addr)
    requires WellFormedBucket(a, hostname, ip) && WellFormedBucket(b, hostname, ip)
    ensures WellFormedBucket(Join(a, b), hostname, ip)
  {
  }

  lemma {:induction false} QuestionRecordsWellFormed(hostname: string, services: seq<Service>, q: Question, ip: Ipv4Addr)
    ensures WellFormedBucket(QuestionRecords(hostname, services, q, ip), hostname, ip)
  {
    if services != [] {
      var n := |services| - 1;
      QuestionRecordsWellFormed(hostname, services[..n], q, ip);
      var last := services[n];
      var r := ServiceRecords(hostname, last, ip);
      assert WellFormedBucket(r, hostname, ip) by {
        ServiceRecordsShape(hostname, last, ip);
      }
      WellFormedJoin(QuestionRecords(hostname, services[..n], q, ip),
                     if Matches(q, last) then r else NoRecords, hostname, ip);
    }
  }

  /** Every bucket is well formed. */
  lemma {:induction false} RouteRecordsWellFormed(hostname: string, services: seq<Service>, questions: seq<Question>,
                                                  ip: Ipv4Addr, unicast: bool)
    ensures WellFormedBucket(RouteRecords(hostname, services, questions, ip, unicast), hostname, ip)
  {
    if questions != [] {
      var n := |questions| - 1;
      RouteRecordsWellFormed(hostname, services, questions[..n], ip, unicast);
      QuestionRecordsWellFormed(hostname, services, questions[n], ip);
      WellFormedJoin(RouteRecords(hostname, services, questions[..n], ip, unicast),
                     if questions[n].unicast == unicast then QuestionRecords(hostname, services, questions[n], ip) else NoRecords,
                     hostname, ip);
    }
  }

  // ---------------------------------------------------------------------
  // handle_packet
  // ---------------------------------------------------------------------

  /**
   handle_packet gives up (None) exactly when the datagram does not parse, is
   not a query, or some question matches a service while no configured block
   contains the sender.
   */
  lemma ResponsesNoneIff(server: Server, remote: Ipv4Addr, parsed: Option<Packet>)
    ensures Responses(server, remote, parsed).None? <==>
      parsed.None? || !parsed.value.header.isQuery ||
      (AnyMatch(parsed.value.questions, server.services) && LocalIpFor(server.prefixes, remote).None?)
  {
  }

  /** Each reply present reuses the query's id, is a response, has no questions or authorities, and is not empty. */
  lemma ReplyShape(server: Server, remote: Ipv4Addr, query: Packet)
    requires Responses(server, remote, Some(query)).Some?
    ensures forall reply :: reply in [Responses(server, remote, Some(query)).value.0,
                                      Responses(server, remote, Some(query)).value.1] && reply.Some? ==>
      && reply.value.header.id == query.header.id
      && !reply.value.header.isQuery
      && reply.value.questions == [] && reply.value.authorities == []
      && reply.value.answers != [] && reply.value.additionals != []
  {
    var ip := LocalIpFor(server.prefixes, remote);
    if ip.Some? {
      RouteRecordsWellFormed(server.hostname, server.services, query.questions, ip.value, true);
      RouteRecordsWellFormed(server.hostname, server.services, query.questions, ip.value, false);
    }
  }

  /**
   Routing: the unicast reply is present exactly when a question with the
   unicast bit set matches a service, and the multicast reply exactly when
   a question without it does.
   */
  lemma ReplyPresence(server: Server, remote: Ipv4Addr, query: Packet)
    requires Responses(server, remote, Some(query)).Some?
    ensures Responses(server, remote, Some(query)).value.0.Some? <==> RoutedMatch(query.questions, server.services, true)
    ensures Responses(server, remote, Some(query)).value.1.Some? <==> RoutedMatch(query.questions, server.services, false)
  {
    var ip := LocalIpFor(server.prefixes, remote);
    if ip.Some? {
      RouteRecordsNonEmpty(server.hostname, server.services, query.questions, ip.value, true);
      RouteRecordsNonEmpty(server.hostname, server.services, query.questions, ip.value, false);
    } else {
      assert !AnyMatch(query.questions, server.services);
      assert !RoutedMatch(query.questions, server.services, true);
      assert !RoutedMatch(query.questions, server.services, false);
    }
  }

  /**
   Every A record of a reply maps the host name to the local address of the
   first configured block that contains the sender.
   */
  lemma ReplyAddressIsLocal(server: Server, remote: Ipv4Addr, query: Packet, rec: ResourceRecord)
    requires Responses(server, remote, Some(query)).Some?
    requires var (u, m) := Responses(server, remote, Some(query)).value;
      (u.Some? && rec in u.value.additionals) || (m.Some? && rec in m.value.additionals)
    requires rec.data.AData?
    ensures rec.name == Name(server.hostname)
    ensures exists i :: IsFirstMatch(server.prefixes, remote, i) && rec.data.addr == server.prefixes[i].local
  {
    var ip := LocalIpFor(server.prefixes, remote);
    if ip.Some? {
      RouteRecordsWellFormed(server.hostname, server.services, query.questions, ip.value, true);
      RouteRecordsWellFormed(server.hostname, server.services, query.questions, ip.value, false);
    }
  }

  /**
   When no configured block contains the sender, nothing is sent: either the
   call gives up or both replies are absent. So abandoning the whole call is,
   on the wire, the same as skipping each service that has no local address.
   */
  lemma NoLocalIpSendsNothing(server: Server, remote: Ipv4Addr, parsed: Option<Packet>)
    requires LocalIpFor(server.prefixes, remote).None?
    ensures Responses(server, remote, parsed) in {None, Some((None, None))}
  {
  }
}
