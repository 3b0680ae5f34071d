/**
 The DNS message values the responder reads and builds.

 The wire codec (parsing a datagram and writing a packet back to bytes) is
 not part of this model: the responder receives the parser as a parameter
 and hands its packets back unencoded. Only the fields the responder reads or
 sets are kept: the header's id and query flag, a question's name, type and
 unicast-response bit, and a record's name, TTL and data.
 */
module Dns {
  import opened Net

  newtype u16 = x: int | 0 <= x < 0x1_0000
  newtype u32 = x: int | 0 <= x < 0x1_0000_0000

  /** A domain name, kept as its dotted text. */
  datatype Name = Name(text: string)

  /** Name::equals against a plain string: exact comparison of the text. */
  predicate NameEquals(name: Name, s: string) {
    name.text == s
  }

  datatype ResourceType = A | PTR | TXT | SRV | Other(code: u16)

  datatype Header = Header(id: u16, isQuery: bool)

  datatype Question = Question(name: Name, qtype: ResourceType, unicast: bool)

  datatype ResourceRecordData =
    | PtrData(target: Name)
    | SrvData(priority: u16, weight: u16, port: u16, srvTarget: Name)
    | TxtData(strings: seq<string>)
    | AData(addr: Ipv4Addr)

  datatype ResourceRecord = ResourceRecord(name: Name, ttl: u32, data: ResourceRecordData)

  datatype Packet = Packet(
    header: Header,
    questions: seq<Question>,
    answers: seq<ResourceRecord>,
    authorities: seq<ResourceRecord>,
    additionals: seq<ResourceRecord>)

  /** Packet::new_response: a response header carrying `id`, and the four sections as given. */
  function NewResponse(id: u16, questions: seq<Question>, answers: seq<ResourceRecord>,
                       authorities: seq<ResourceRecord>, additionals: seq<ResourceRecord>): Packet
  {
    Packet(Header(id, false), questions, answers, authorities, additionals)
  }
}
