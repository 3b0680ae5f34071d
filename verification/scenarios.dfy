/**
 Worked examples of the responder on concrete configurations: one hosted
 HTTP service, and a host with two links, 10.0.0.5/24 and 192.168.1.5/24.
 */
module Scenarios {
  import opened Wrappers
  import opened Net
  import opened Dns
  import opened Server
  import opened ServerLemmas

  const Http := Service("_http._tcp.local", "web._http._tcp.local", 80, [])

  function TwoLinks(): seq<Interface> {
    [ Interface("tun0", V4(Ipv4(10, 8, 0, 1), BROADCAST)),
      Interface("eth0", V4(Ipv4(10, 0, 0, 5), Ipv4(255, 255, 255, 0))),
      Interface("eth1", V4(Ipv4(192, 168, 1, 5), Ipv4(255, 255, 255, 0))),
      Interface("eth2", V6) ]
  }

  /** The prefixes `new` keeps for TwoLinks (TwoLinksPrefixes). */
  function Links(): seq<Prefix> {
    [ Prefix(Ipv4(10, 0, 0, 5), Ipv4Cidr(Ipv4(10, 0, 0, 0), Ipv4(255, 255, 255, 0))),
      Prefix(Ipv4(192, 168, 1, 5), Ipv4Cidr(Ipv4(192, 168, 1, 0), Ipv4(255, 255, 255, 0))) ]
  }

  /** The server `new` builds for the HTTP service on a host named "host.local" with TwoLinks. */
  function HttpServer(): Server {
    Server([Http], "host.local", Links())
  }

  function PtrQuery(id: u16, name: string, unicast: bool): Packet {
    Packet(Header(id, true), [Question(Name(name), PTR, unicast)], [], [], [])
  }

  /** The point-to-point /32 link (all-ones mask) and the IPv6 entry are dropped; the two links are kept in order. */
  lemma TwoLinksPrefixes()
    ensures Prefixes(TwoLinks()) == Links()
  {
  }

  /** A peer on 10.0.0.0/24 is answered with 10.0.0.5; a peer on neither link gets no address. */
  lemma SubnetSelection()
    ensures LocalIpFor(Links(), Ipv4(10, 0, 0, 9)) == Some(Ipv4(10, 0, 0, 5))
    ensures LocalIpFor(Links(), Ipv4(192, 168, 1, 77)) == Some(Ipv4(192, 168, 1, 5))
    ensures LocalIpFor(Links(), Ipv4(172, 16, 0, 1)) == None
  {
  }

  /** A multicast PTR query for the hosted type: no unicast reply, one multicast reply with PTR, SRV and A. */
  lemma MulticastQuery()
    ensures Responses(HttpServer(), Ipv4(10, 0, 0, 9), Some(PtrQuery(7, "_http._tcp.local", false))) ==
      Some((None, Some(NewResponse(7, [],
        [ResourceRecord(Name("_http._tcp.local"), 3600, PtrData(Name("web._http._tcp.local")))],
        [],
        [ ResourceRecord(Name("web._http._tcp.local"), 3600, SrvData(0, 0, 80, Name("host.local"))),
          ResourceRecord(Name("host.local"), 3600, AData(Ipv4(10, 0, 0, 5))) ]))))
  {
    var ip := Ipv4(10, 0, 0, 5);
    var query := PtrQuery(7, "_http._tcp.local", false);
    SubnetSelection();
    assert LocalIpFor(HttpServer().prefixes, Ipv4(10, 0, 0, 9)) == Some(ip);
    RouteRecordsOfOnePair("host.local", Http, query.questions[0], ip, true);
    RouteRecordsOfOnePair("host.local", Http, query.questions[0], ip, false);
    assert [query.questions[0]] == query.questions;
    var srv := ResourceRecord(Name("web._http._tcp.local"), 3600, SrvData(0, 0, 80, Name("host.local")));
    var a := ResourceRecord(Name("host.local"), 3600, AData(ip));
    var ptr := ResourceRecord(Name("_http._tcp.local"), 3600, PtrData(Name("web._http._tcp.local")));
    assert [srv] + [] + [a] == [srv, a];
    var multicast := RouteRecords("host.local", [Http], query.questions, ip, false);
    assert multicast == Records([ptr], [srv, a]);
    assert RouteRecords("host.local", [Http], query.questions, ip, true) == NoRecords;
    assert Responses(HttpServer(), Ipv4(10, 0, 0, 9), Some(query)) ==
      Some((Reply(7, NoRecords), Reply(7, multicast)));
  }

  /** The same query with the unicast bit set: the reply moves to the unicast slot. */
  lemma UnicastQuery()
    ensures var r := Responses(HttpServer(), Ipv4(10, 0, 0, 9), Some(PtrQuery(7, "_http._tcp.local", true)));
      r.Some? && r.value.0.Some? && r.value.1.None?
  {
  }

  /** A query for a type nobody hosts is handled but yields no reply. */
  lemma UnrelatedQuery()
    ensures Responses(HttpServer(), Ipv4(10, 0, 0, 9), Some(PtrQuery(7, "_ipp._tcp.local", false))) == Some((None, None))
  {
  }

  /** A matching query from a peer on neither link: handle_packet gives up. */
  lemma ForeignPeerQuery()
    ensures Responses(HttpServer(), Ipv4(172, 16, 0, 1), Some(PtrQuery(7, "_http._tcp.local", false))) == None
  {
    SubnetSelection();
    var q := PtrQuery(7, "_http._tcp.local", false);
    assert MatchesSome(q.questions[0], HttpServer().services) by {
      assert Matches(q.questions[0], HttpServer().services[0]);
    }
  }
}
