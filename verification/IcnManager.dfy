/** The manager: it resolves the names in queries and answers with an acknowledgement to the client
    and, if it knows a source, a redirect to that source. */
module IcnManager {
  import opened Basics
  import opened DnsPlusHeader
  import opened DnsPlusSections
  import opened Messages
  import opened NameTables
  import O = OicnHeader

  /** A datagram handed to a socket. */
  datatype Sent = Sent(address: Address, port: uint16, payload: Bytes)

  const SOURCE_PORT := 89

  /** Whether the manager knows a source of `name`. */
  predicate Known(routers: seq<(Bytes, Address)>, servers: seq<(Bytes, Address)>, name: Bytes) {
    Lists(routers, name) || Lists(servers, name)
  }

  /** `a` is a source of `name`: a router if any caches it, else a server. */
  predicate IsSource(routers: seq<(Bytes, Address)>, servers: seq<(Bytes, Address)>, name: Bytes, a: Address) {
    if Lists(routers, name) then (name, a) in routers else (name, a) in servers
  }

  class IcnManager {
    const tables: NameTables

    constructor (tables: NameTables)
      ensures this.tables == tables
    {
      this.tables := tables;
    }

    method ReadPacket(packet: Bytes, client: Address, clientPort: uint16) returns (sent: seq<Sent>)
      ensures HandledQuery(tables.cachedRouterTable, tables.nameServerTable, packet, client, clientPort, sent)
    {
      sent := [];
      var ok, oicn, dns, rest := Open(packet);
      if !ok {
        return;
      }
      if dns.header.fields[QR] != 0 || dns.header.fields[OPCODE] != 11 {
        return;
      }
      sent := AnswerAll(rest, client, clientPort, dns, oicn);
    }

    /** The question loop. */
    method AnswerAll(body: Bytes, client: Address, clientPort: uint16, dns: Received, oicn: O.OicnHeader)
      returns (sent: seq<Sent>)
      requires dns.Valid() && |oicn.m_name| + 4 <= oicn.header_length
      ensures dns.header.counts.qd == 0 ==> sent == []
      ensures dns.header.counts.qd == 1 ==>
                match ReadQuestion(body)
                case None => sent == []
                case Some((q, _)) =>
                  Replied(tables.cachedRouterTable, tables.nameServerTable, dns.Seen(oicn.Value()), q,
                          client, clientPort, sent)
    {
      sent := [];
      var qdCount, rest := dns.header.counts.qd, body;
      ghost var turns: nat, first := 0, [];
      while qdCount != 0
        invariant turns + qdCount == dns.header.counts.qd
        invariant turns == 0 ==> rest == body && sent == []
        invariant turns == 1 ==> sent == first
        invariant turns > 0 ==> ReadQuestion(body).Some?
        invariant turns > 0 && ReadQuestion(body).Some? ==>
                    Replied(tables.cachedRouterTable, tables.nameServerTable, dns.Seen(oicn.Value()),
                            ReadQuestion(body).value.0, client, clientPort, first)
        decreases qdCount
      {
        qdCount := qdCount - 1;
        var read, tail, replies := AnswerQuestion(rest, client, clientPort, dns, oicn);
        if !read {
          return;
        }
        if turns == 0 {
          first := replies;
        }
        rest, sent, turns := tail, sent + replies, turns + 1;
      }
    }

    /** One turn of the question loop. */
    method AnswerQuestion(packet: Bytes, client: Address, clientPort: uint16, dns: Received, oicn: O.OicnHeader)
      returns (ok: bool, rest: Bytes, sent: seq<Sent>)
      requires dns.Valid() && |oicn.m_name| + 4 <= oicn.header_length
      ensures ok <==> ReadQuestion(packet).Some?
      ensures ok ==> && rest == ReadQuestion(packet).value.1
                     && Replied(tables.cachedRouterTable, tables.nameServerTable, dns.Seen(oicn.Value()),
                                ReadQuestion(packet).value.0, client, clientPort, sent)
    {
      sent := [];
      var question := new DnsPlusQuestionHeader();
      ok, rest := question.RemoveFrom(packet);
      if ok && question.m_qClass == 1 && |question.m_name| > 0 {
        var source := tables.NameResolution(question.m_name);
        var ack := SendAckToClient(client, clientPort, question, dns, oicn, source.Some?);
        sent := [ack];
        if source.Some? {
          var redirect := SendToSource(source.value, client, question, dns, oicn);
          sent := [ack, redirect];
        }
      }
    }

    method SendAckToClient(client: Address, clientPort: uint16, question: DnsPlusQuestionHeader,
                           dns: Received, oicn: O.OicnHeader, found: bool) returns (s: Sent)
      requires question.Valid() && |oicn.m_name| + 4 <= oicn.header_length && dns.Valid()
      ensures s == Sent(client, clientPort, Ack(dns.Seen(oicn.Value()), question.Value(), found))
    {
      var packet := question.AddTo([]);
      assert packet == WriteQuestion(question.Value());
      var reply := AckHeader(dns, found);
      packet := reply.AddTo(packet);
      packet := oicn.AddTo(packet);
      s := Sent(client, clientPort, packet);
    }

    method AckHeader(dns: Received, found: bool) returns (reply: DnsPlusHeader)
      requires dns.Valid()
      ensures fresh(reply) && reply.Valid() && reply.m_Id == 0 && reply.counts == dns.header.counts
      ensures reply.calls == AckCalls(dns.header.m_flag, found)
    {
      reply := new DnsPlusHeader();
      reply.SetQR(0);
      reply.Set(OPCODE, 12);
      reply.Set(RCODE, if found then 6 else 7);
      CopyFlags(dns, reply);
      reply.Set(RCODE, dns.header.fields[RCODE]);
      reply.counts := dns.header.counts;
    }

    method SendToSource(source: Address, client: Address, question: DnsPlusQuestionHeader,
                        dns: Received, oicn: O.OicnHeader) returns (s: Sent)
      requires question.Valid() && |oicn.m_name| + 4 <= oicn.header_length && dns.Valid()
      ensures s == Sent(source, SOURCE_PORT, Redirect(dns.Seen(oicn.Value()), question.Value(), client))
    {
      var packet := AnswerBytes(client, question);
      packet := question.AddTo(packet);
      var reply := RedirectHeader(dns);
      packet := reply.AddTo(packet);
      packet := oicn.AddTo(packet);
      s := Sent(source, SOURCE_PORT, packet);
    }

    method RedirectHeader(dns: Received) returns (reply: DnsPlusHeader)
      requires dns.Valid()
      ensures fresh(reply) && reply.Valid() && reply.m_Id == 0 && reply.counts == dns.header.counts.(an := 1)
      ensures reply.calls == RedirectCalls(dns.header.m_flag)
    {
      reply := new DnsPlusHeader();
      reply.SetQR(1);
      reply.Set(OPCODE, 13);
      CopyFlags(dns, reply);
      reply.Set(RCODE, 0);
      reply.counts := dns.header.counts.(an := 1);
    }

    method AnswerBytes(client: Address, question: DnsPlusQuestionHeader) returns (packet: Bytes)
      requires question.Valid()
      ensures packet == WriteAnswer(AnswerFor(question.Value(), client))
    {
      var answer := new DnsPlusAnswerSection();
      answer.SetName(question.m_name);
      answer.m_Type, answer.m_Class, answer.m_rdData := question.m_qType, question.m_qClass, client;
      packet := answer.AddTo([]);
    }
  }

  /** What one well-formed question leads to. */
  ghost predicate Answered(routers: seq<(Bytes, Address)>, servers: seq<(Bytes, Address)>, m: Envelope, q: Question,
                           client: Address, clientPort: uint16, sent: seq<Sent>)
    requires Writable(m, q)
  {
    if Known(routers, servers, q.name) then
      exists a :: && IsSource(routers, servers, q.name, a)
                  && sent == [Sent(client, clientPort, Ack(m, q, true)), Sent(a, SOURCE_PORT, Redirect(m, q, client))]
    else sent == [Sent(client, clientPort, Ack(m, q, false))]
  }

  /** What a packet leads to: nothing unless it is a query with a question; of several questions only
      the first is covered. */
  ghost predicate HandledQuery(routers: seq<(Bytes, Address)>, servers: seq<(Bytes, Address)>, packet: Bytes,
                          client: Address, clientPort: uint16, sent: seq<Sent>)
  {
    match ReadMessage(packet)
    case None => sent == []
    case Some((m, body)) =>
      if Bits(m.flags, QR) != 0 || Bits(m.flags, OPCODE) != 11 || m.counts.qd == 0 then sent == []
      else if m.counts.qd > 1 then true
      else
        match ReadQuestion(body)
        case None => sent == []
        case Some((q, _)) => Replied(routers, servers, m, q, client, clientPort, sent)
  }

  /** What one question that can be read leads to: an answer if it is of class 1 and has a name. */
  ghost predicate Replied(routers: seq<(Bytes, Address)>, servers: seq<(Bytes, Address)>, m: Envelope, q: Question,
                          client: Address, clientPort: uint16, sent: seq<Sent>)
  {
    if q.qClass == 1 && q.name != [] then
      Writable(m, q) && Answered(routers, servers, m, q, client, clientPort, sent)
    else sent == []
  }

  /** What the manager does with a query as clients write it. */
  lemma QueryHandled(name: Bytes, routers: seq<(Bytes, Address)>, servers: seq<(Bytes, Address)>,
                     client: Address, clientPort: uint16, sent: seq<Sent>)
    requires Sendable(name) && name != []
    ensures var m := QueryEnvelope(name);
            && Writable(m, QuestionFor(name))
            && (HandledQuery(routers, servers, Query(name), client, clientPort, sent) <==>
                Answered(routers, servers, m, QuestionFor(name), client, clientPort, sent))
  {
    QueryBack(name);
  }
}
