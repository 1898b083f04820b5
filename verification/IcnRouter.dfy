/** The router as a content source: it answers a redirect with the content it has cached. */
module IcnRouter {
  import opened Basics
  import opened DnsPlusHeader
  import opened DnsPlusSections
  import opened Messages
  import opened NamedContentCache
  import opened IcnManager
  import O = OicnHeader

  const CLIENT_PORT := 26

  /** The reply a source sends: the sublayer header marks it cachable. */
  function Content(name: Bytes, data: Bytes): Bytes
    requires |name| + 4 < 0x1_0000_0000
  {
    O.Write(O.Named(name, O.Cachable)) + data
  }

  /** What has been sent; Missing where the source then dereferences the end of its map. */
  datatype Served = Served(sent: seq<Sent>) | Missing(sent: seq<Sent>)

  class IcnRouter {
    const cache: NamedContentCache

    constructor (cache: NamedContentCache)
      ensures this.cache == cache
    {
      this.cache := cache;
    }

    method ReadPacket(packet: Bytes, sender: uint32, senderPort: uint16, now: uint64) returns (served: Served)
      modifies cache`cache, cache`policyindex
      ensures HandledRedirect(old(cache.State()), cache.State(), packet, sender, senderPort, now, served)
    {
      served := Served([]);
      var ok, oicn, dns, rest := Open(packet);
      if !ok {
        return;
      }
      if dns.header.fields[QR] == 0 || dns.header.fields[OPCODE] != 13 {
        return;
      }
      served := ServeAll(rest, sender, senderPort, dns, oicn, now);
    }

    /** The answer loop. */
    method ServeAll(body: Bytes, sender: uint32, senderPort: uint16, dns: Received, oicn: O.OicnHeader, now: uint64)
      returns (served: Served)
      requires dns.Valid() && |oicn.m_name| + 4 <= oicn.header_length
      modifies cache`cache, cache`policyindex
      ensures dns.header.counts.an == 0 ==> served == Served([]) && cache.State() == old(cache.State())
      ensures dns.header.counts.an == 1 ==>
                ServedFirst(old(cache.State()), cache.State(), dns.Seen(oicn.Value()), body, sender, senderPort, now,
                            served)
    {
      served := Served([]);
      var anCount, rest := dns.header.counts.an, body;
      ghost var turns: nat, before, first := 0, cache.State(), Served([]);
      while anCount != 0
        invariant turns + anCount == dns.header.counts.an
        invariant served.Served?
        invariant turns == 0 ==> rest == body && served == Served([]) && cache.State() == before
        invariant turns == 1 ==> served == first
        invariant turns == 1 ==>
                    ServedFirst(before, cache.State(), dns.Seen(oicn.Value()), body, sender, senderPort, now, first)
        decreases anCount
      {
        anCount := anCount - 1;
        var read, tail, one := ServeOne(rest, sender, senderPort, dns, oicn, now);
        if !read {
          return;
        }
        if one.Missing? {
          return Missing(served.sent + one.sent);
        }
        if turns == 0 {
          first := one;
        }
        rest, served, turns := tail, Served(served.sent + one.sent), turns + 1;
      }
    }

    /** One turn of the answer loop. */
    method ServeOne(packet: Bytes, sender: uint32, senderPort: uint16, dns: Received, oicn: O.OicnHeader, now: uint64)
      returns (ok: bool, rest: Bytes, served: Served)
      requires dns.Valid() && |oicn.m_name| + 4 <= oicn.header_length
      modifies cache`cache, cache`policyindex
      ensures !ok ==> cache.State() == old(cache.State())
      ensures ok <==> ReadQuestion(packet).Some? && ReadAnswer(ReadQuestion(packet).value.1).Some?
      ensures ok ==> ServedFirst(old(cache.State()), cache.State(), dns.Seen(oicn.Value()), packet, sender, senderPort,
                                 now, served)
    {
      served := Served([]);
      var question := new DnsPlusQuestionHeader();
      ok, rest := question.RemoveFrom(packet);
      if !ok {
        return;
      }
      var answer := new DnsPlusAnswerSection();
      ok, rest := answer.RemoveFrom(rest);
      if !ok {
        return;
      }
      if answer.m_Class == 1 && |answer.m_name| > 0 {
        var name := answer.m_name;
        var ack := SendAckToIcnManager(sender, senderPort, question, dns, oicn);
        if name !in cache.cache {
          return true, rest, Missing([ack]);
        }
        var reply := SendToClient(answer.m_rdData, name, now);
        served := Served([ack, reply]);
      }
    }

    method SendAckToIcnManager(manager: uint32, managerPort: uint16, question: DnsPlusQuestionHeader,
                               dns: Received, oicn: O.OicnHeader) returns (s: Sent)
      requires question.Valid() && |oicn.m_name| + 4 <= oicn.header_length && dns.Valid()
      ensures s == Sent(manager, managerPort, SourceAck(dns.Seen(oicn.Value()), question.Value()))
    {
      var packet := question.AddTo([]);
      assert packet == WriteQuestion(question.Value());
      var reply := SourceAckHeader(dns);
      packet := reply.AddTo(packet);
      packet := oicn.AddTo(packet);
      s := Sent(manager, managerPort, packet);
    }

    method SourceAckHeader(dns: Received) returns (reply: DnsPlusHeader)
      requires dns.Valid()
      ensures fresh(reply) && reply.Valid() && reply.m_Id == 0 && reply.counts == Counts(dns.header.counts.qd, 0, 0, 0)
      ensures reply.calls == SourceAckCalls(dns.header.m_flag)
    {
      reply := new DnsPlusHeader();
      reply.SetQR(1);
      reply.Set(OPCODE, 15);
      CopyFlags(dns, reply);
      reply.Set(RCODE, dns.header.fields[RCODE]);
      reply.counts := Counts(dns.header.counts.qd, 0, 0, 0);
    }

    /** Finds the content and sends it with a cachable sublayer header. */
    method SendToClient(client: uint32, name: Bytes, now: uint64) returns (s: Sent)
      requires name in cache.cache && |name| + 4 < 0x1_0000_0000
      modifies cache`cache, cache`policyindex
      ensures s == Sent(client, CLIENT_PORT, Content(name, old(cache.cache[name].data)))
      ensures cache.State() == Touched(old(cache.State()), name, now)
    {
      var packet := cache.Find(name, now);
      var oicn := new O.OicnHeader();
      oicn.SetName(name);
      oicn.SetCachable();
      packet := oicn.AddTo(packet);
      s := Sent(client, CLIENT_PORT, packet);
    }
  }

  /** What a packet leads to: nothing unless it is a redirect with an answer; of several answers only
      the first is covered. */
  ghost predicate HandledRedirect(before: CacheState, after: CacheState, packet: Bytes, sender: uint32,
                                  senderPort: uint16, now: uint64, served: Served)
  {
    match ReadMessage(packet)
    case None => served == Served([]) && after == before
    case Some((m, body)) =>
      if Bits(m.flags, QR) != 1 || Bits(m.flags, OPCODE) != 13 || m.counts.an == 0 then
        served == Served([]) && after == before
      else m.counts.an == 1 ==> ServedFirst(before, after, m, body, sender, senderPort, now, served)
  }

  /** What the first answer of a message leads to: it is served if it is of class 1 and has a name. */
  ghost predicate ServedFirst(before: CacheState, after: CacheState, m: Envelope, body: Bytes, sender: uint32,
                              senderPort: uint16, now: uint64, served: Served)
  {
    match ReadQuestion(body)
    case None => served == Served([]) && after == before
    case Some((q, rest)) =>
      match ReadAnswer(rest)
      case None => served == Served([]) && after == before
      case Some((a, _)) => ServedAnswer(before, after, m, q, a, sender, senderPort, now, served)
  }

  ghost predicate ServedAnswer(before: CacheState, after: CacheState, m: Envelope, q: Question, a: Answer,
                               sender: uint32, senderPort: uint16, now: uint64, served: Served)
  {
    if a.aClass != 1 || a.name == [] then served == Served([]) && after == before
    else if a.name !in before.cache then
      Writable(m, q) && served == Missing([Sent(sender, senderPort, SourceAck(m, q))]) && after == before
    else
      && Writable(m, q) && |a.name| + 4 < 0x1_0000_0000
      && served == Served([Sent(sender, senderPort, SourceAck(m, q)),
                           Sent(a.rdData, CLIENT_PORT, Content(a.name, before.cache[a.name].data))])
      && after == Touched(before, a.name, now)
  }

  lemma AnswerServed(before: CacheState, after: CacheState, packet: Bytes, m: Envelope, body: Bytes, q: Question,
                     rest: Bytes, a: Answer, sender: uint32, senderPort: uint16, now: uint64, served: Served)
    requires ReadMessage(packet) == Some((m, body))
    requires Bits(m.flags, QR) == 1 && Bits(m.flags, OPCODE) == 13 && m.counts.an == 1
    requires ReadQuestion(body) == Some((q, rest)) && ReadAnswer(rest).Some? && ReadAnswer(rest).value.0 == a
    ensures HandledRedirect(before, after, packet, sender, senderPort, now, served) <==>
            ServedAnswer(before, after, m, q, a, sender, senderPort, now, served)
  {}

  /** What the manager reads from an acknowledgement of its redirect: QR 1, OPCODE 15 and the question. */
  ghost predicate Acknowledges(payload: Bytes, name: Bytes)
    requires Sendable(name)
  {
    var read := ReadMessage(payload);
    && read.Some?
    && read.value.0 == Envelope(QueryOicn(name), 0, 0xF800, Counts(1, 0, 0, 0))
    && ReadQuestion(read.value.1) == Some((Question(2, name, |name|, 1, 1), []))
  }

  /** A router serves `name` to `client`: it acknowledges and sends what it has cached, which counts as a
      hit; or it acknowledges and has nothing to send. */
  ghost predicate Serves(before: CacheState, after: CacheState, name: Bytes, client: uint32, sender: uint32,
                         senderPort: uint16, now: uint64, served: Served)
    requires Sendable(name)
  {
    && served.sent != [] && served.sent[0].address == sender && served.sent[0].port == senderPort
    && Acknowledges(served.sent[0].payload, name)
    && if name !in before.cache then served.Missing? && |served.sent| == 1 && after == before
    else
      && |name| + 4 < 0x1_0000_0000 && after == Touched(before, name, now)
      && served.Served? && |served.sent| == 2
      && served.sent[1] == Sent(client, 26, Content(name, before.cache[name].data))
  }

  /** What a router does with the manager's redirect of a query: it serves the name asked for to the
      client that asked. */
  lemma RedirectHandled(name: Bytes, client: uint32, before: CacheState, after: CacheState, sender: uint32,
                        senderPort: uint16, now: uint64, served: Served)
    requires Sendable(name) && name != []
    ensures Writable(QueryEnvelope(name), QuestionFor(name))
    ensures HandledRedirect(before, after, Redirect(QueryEnvelope(name), QuestionFor(name), client), sender,
                            senderPort, now, served)
            ==> Serves(before, after, name, client, sender, senderPort, now, served)
  {
    RedirectBack(name, client);
    SourceAckBack(name, client);
    var q := QuestionFor(name);
    var a, redirect := AnswerFor(q, client), Redirect(QueryEnvelope(name), q, client);
    var (m, body) := ReadMessage(redirect).value;
    AnswerServed(before, after, redirect, m, body, q, WriteAnswer(a), a, sender, senderPort, now, served);
  }
}
