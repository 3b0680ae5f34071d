# mDNS responder — decision logic

A Dafny model of the responder in `src/server.rs` of a small multicast-DNS
service advertiser. Given its configuration (the hosted services, the host
name and the list of local IPv4 addresses with their subnets), the responder
turns one received datagram into nothing, or into a unicast reply and/or a
multicast reply. For every PTR question whose name is a hosted service's
type, it adds that service's records: one PTR answer, plus SRV, TXT (only when
the service has TXT strings) and A additionals. The question's unicast bit
chooses the reply that gets them. The A record carries the first local
address whose subnet contains the sender.

Files:

- `wrappers.dfy` — `Option` and `Result`.
- `net.dfy` — IPv4 addresses as 32-bit values; CIDR blocks with containment as masked equality.
- `dns.dfy` — the DNS message values the responder reads and builds (header id and query flag, questions, PTR/SRV/TXT/A records).
- `server.dfy` — the `Server` configuration and the operations of `src/server.rs`. Each operation whose source works step by step is a method: `New`, `FindLocalIp`, `CreateResponse`, and `HandlePacket` with its inner loop `GatherForQuestion`. Each method is proved equal to a specification function: `LocalHostName`/`Prefixes`, `LocalIpFor`, `ServiceRecords`, and `Responses` (built from `QuestionRecords` and `RouteRecords`).
- `server_lemmas.dfy` — properties of those specification functions.
- `scenarios.dfy` — worked examples on a concrete two-link host.

`Responses` is the reference definition of `handle_packet`. The outcome is `None` when the datagram does not parse or is not a query. If some question matches a service but no configured subnet contains the sender, the outcome is also `None`. Otherwise the outcome holds a unicast reply and a multicast reply. Each reply is built from its bucket and is present only when that bucket is not empty. A bucket is the concatenation, question by question and then service by service, of the records of each matching (question, service) pair routed to it.

A missing local address abandons the whole call: `create_response(...).ok()?` sits inside the loops at `src/server.rs:90`, so `handle_packet` returns `None` instead of skipping only that service. The model reproduces this. One might expect only the service without a local address to be skipped. But the local address depends only on the sender, so every matching pair fails together, and no records can have been gathered before the failure. `NoLocalIpSendsNothing` proves that, on the wire, the two readings cannot be told apart: nothing is sent.

## Model

| member | source | states |
|---|---|---|
| `Net.Ipv4` | src/server.rs:33 | `Ipv4Addr::new(a, b, c, d)`: the four octets, most significant first, can be read back from the 32-bit address |
| `Net.FromPrefixAndMask` | src/server.rs:34 | building a CIDR block succeeds exactly when the netmask is contiguous; the block keeps that mask and contains the address it was built from |
| `Server.LocalHostName` | src/server.rs:23-25 | the normalised host name ends in ".local" and starts with the original name |
| `ServerLemmas.LocalHostNameIdempotent` | src/server.rs:23-25 | normalising twice gives the same name as normalising once |
| `ServerLemmas.LocalHostNameUnchangedIff` | src/server.rs:23-25 | the name is unchanged iff it already ends in ".local"; otherwise exactly ".local" is appended |
| `Server.PrefixEntry` | src/server.rs:30-39 | an interface yields a prefix iff it is IPv4, its mask is neither 0.0.0.0 nor 255.255.255.255, and the CIDR can be built; that prefix is its own address with a block that contains it |
| `Server.Prefixes` | src/server.rs:28-40 | the list is no longer than the interface list; each kept prefix has an acceptable mask and contains its own address |
| `ServerLemmas.PrefixesAppend` | src/server.rs:28-40 | filtering is done interface by interface, so input order is preserved (prefixes of a concatenation are the concatenation of prefixes) |
| `ServerLemmas.PrefixesMembership` | src/server.rs:28-40 | a prefix is in the list iff some interface yields it; entries whose CIDR fails are dropped silently |
| `ServerLemmas.PrefixOfOneInterface` | src/server.rs:32-35 | an acceptable IPv4 interface contributes exactly (its address, its address masked / its netmask) |
| `Server.New` | src/server.rs:21-51 | a failed host-name query or interface query is the error, in that order; otherwise the server holds the services, the normalised host name and the filtered prefixes, and the host name ends in ".local" |
| `Server.LocalIpFor` | src/server.rs:149-158 | None iff no configured block contains the peer; otherwise the local address of the first block, in list order, that contains it |
| `Server.FindLocalIp` | src/server.rs:149-158 | the loop with early return computes the first-match local address |
| `ServerLemmas.ServiceRecordsShape` | src/server.rs:119-146 | exactly one answer (PTR from the service type to the instance name); 2 or 3 additionals: SRV first (priority 0, weight 0, the port, the host name), TXT iff the service has TXT strings, A last (host name to the chosen address); all with TTL 3600 |
| `Server.CreateResponse` | src/server.rs:114-147 | fails iff no local address serves the peer; otherwise yields the fixed record set for the service and the chosen address |
| `Server.GatherForQuestion` | src/server.rs:88-99 | for one question, appends the records of every matching service, in service order, to the bucket its unicast bit selects and leaves the other bucket alone; fails iff a service matches while no local address serves the peer |
| `Server.HandlePacket` | src/server.rs:80-112 | the nested loops with early return compute `Responses`: parse failure or a non-query gives None; otherwise the replies of the two buckets |
| `Server.ServiceStep` | src/server.rs:88-98 | scanning one more service appends its records (if it matches) after those already gathered |
| `Server.QuestionStep` | src/server.rs:87-99 | answering one more question appends its records to its own bucket only |
| `Server.NoMatchQuestionRecords` | src/server.rs:88-99 | a question that matches no service contributes nothing |
| `Server.NoMatchNoRecords` | src/server.rs:87-99 | if no question matches any service, both buckets stay empty |
| `Server.ResponsesAbandoned` | src/server.rs:90 | a matching question with no local address for the sender makes the whole outcome None |
| `Server.ResponsesOfQuery` | src/server.rs:103-108 | a query scanned to the end yields the reply of each bucket, carrying the query id |
| `ServerLemmas.QuestionRecordsAppend` | src/server.rs:88-99 | records of one question over a concatenated service list are the concatenation (service-minor order, nothing dropped) |
| `ServerLemmas.RouteRecordsAppend` | src/server.rs:87-99 | a bucket over a concatenated question list is the concatenation (question-major order, nothing dropped) |
| `ServerLemmas.RouteRecordsOfOnePair` | src/server.rs:87-98 | one question and one service add the service's records iff the question is PTR for its type and is routed to this bucket, and nothing otherwise |
| `ServerLemmas.QuestionRecordsNonEmpty` | src/server.rs:88-99 | a question gathers answers (and additionals) iff it matches some service |
| `ServerLemmas.RouteRecordsNonEmpty` | src/server.rs:87-105 | a bucket is non-empty iff some question routed to it matches some service |
| `ServerLemmas.QuestionAnswerSource` | src/server.rs:88-98 | each answer gathered for a question is the PTR record of a service that question matches |
| `ServerLemmas.RouteAnswersAdvertised` | src/server.rs:87-98 | each answer in a bucket is the PTR record of a service matched by a question routed to that bucket |
| `ServerLemmas.RouteAnswersComplete` | src/server.rs:87-98 | nothing is dropped: for every question routed to a bucket and every service it matches, that service's PTR answer is in the bucket |
| `ServerLemmas.WellFormedJoin` | src/server.rs:93-97 | appending one bucket to another keeps the bucket shape (2-3 additionals per answer, TTL 3600, A records name the host and carry the chosen address) |
| `ServerLemmas.QuestionRecordsWellFormed` | src/server.rs:88-99 | what one question gathers has that shape |
| `ServerLemmas.RouteRecordsWellFormed` | src/server.rs:87-146 | every bucket has that shape |
| `ServerLemmas.ResponsesNoneIff` | src/server.rs:80-112 | the outcome is None iff parsing fails, or the header is not a query, or some pair matches while no block contains the sender |
| `ServerLemmas.ReplyShape` | src/server.rs:103-106 | every reply present carries the query id, is a response, has empty question and authority lists, and has answers and additionals |
| `ServerLemmas.ReplyPresence` | src/server.rs:92-106 | the unicast reply is present iff a question with the unicast bit matches a service; the multicast reply iff a question without it does |
| `ServerLemmas.ReplyAddressIsLocal` | src/server.rs:117-144 | every A record in a reply names the host and carries the local address of the first configured block containing the sender |
| `ServerLemmas.NoLocalIpSendsNothing` | src/server.rs:80-112 | with no block containing the sender, the outcome is None or two absent replies: nothing is sent |
| `Scenarios.TwoLinksPrefixes` | src/server.rs:28-40 | a point-to-point /32 entry (all-ones mask) and an IPv6 entry are dropped; 10.0.0.5/24 and 192.168.1.5/24 are kept in order |
| `Scenarios.SubnetSelection` | src/server.rs:149-158 | a peer at 10.0.0.9 gets 10.0.0.5, one at 192.168.1.77 gets 192.168.1.5, one at 172.16.0.1 gets none |
| `Scenarios.MulticastQuery` | src/server.rs:80-147 | a multicast PTR query for the hosted type gives no unicast reply and one multicast reply with the PTR answer and SRV and A additionals |
| `Scenarios.UnicastQuery` | src/server.rs:92-106 | the same query with the unicast bit gives only a unicast reply |
| `Scenarios.UnrelatedQuery` | src/server.rs:87-108 | a query for a type nobody hosts gives two absent replies |
| `Scenarios.ForeignPeerQuery` | src/server.rs:90 | a matching query from a peer on neither link gives None |

## Left out

- `Server::serve` (src/server.rs:53-78), the async read/handle/send loop, is not modelled. It sends both replies on the interface the query arrived on. Where each reply goes depends on the platform. On Unix, the unicast reply goes to the sender's address (src/multicast/unix.rs:84-107). The multicast reply goes to the socket's own bound address, 0.0.0.0:5353 (src/multicast/unix.rs:23, 74-81). On Windows, both replies go to the group address 224.0.0.251:5353. For the unicast reply, the sender's IP is placed only in the IN_PKTINFO control data (src/multicast/windows/mod.rs:71, 125-128, 145-148, 156-161).
- The multicast transport (`src/multicast/`) is not modelled: socket set-up, group joins, and interface-tagged receive and send are operating-system I/O. Only the shape of its `Message` (data, sender, interface) is kept.
- The DNS codec is not part of this model. `HandlePacket` takes the parser as a parameter, and replies are returned as packet values, not bytes. `Name::equals` is modelled as exact comparison of the name's text. The question class (apart from its unicast bit) and header flags other than query/response are not kept.
- The host-name query and the interface enumeration are inputs of `New`. A failure of either is an error value. The panic of `into_string().unwrap()` on a host name that is not valid UTF-8 is not modelled, because host names are strings here.
- The CIDR library is not part of this model. `FromPrefixAndMask` assumes it fails exactly on a non-contiguous netmask, and that it clears the host bits.
- Logging is not modelled.
- `Server.GatherForQuestion` is the inner `for service` loop of `handle_packet`, written as a separate method so that each loop is proved on its own. Its early return becomes a `None` that `HandlePacket` returns at once.
