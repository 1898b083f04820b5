/** The messages of a name resolution: the client's query, the manager's acknowledgement to the
    client and its redirect to a source, and the source's acknowledgement to the manager. */
module Messages {
  import opened Basics
  import opened DnsPlusHeader
  import opened DnsPlusSections
  import O = OicnHeader
  import W = Wire

  /** Sublayer header and DNS header of a message, as its receiver sees them. */
  datatype Envelope = Envelope(oicn: O.Oicn, id: uint16, flags: uint16, counts: Counts)

  function WriteMessage(m: Envelope, body: Bytes): Bytes
    requires |m.oicn.name| + 4 <= m.oicn.length
  {
    O.Write(m.oicn) + (Write(m.id, m.flags, m.counts) + body)
  }

  function ReadMessage(b: Bytes): Option<(Envelope, Bytes)> {
    match O.Read(b)
    case None => None
    case Some((oicn, rest)) =>
      if |rest| < SIZE then None
      else Some((Envelope(oicn, W.ReadU16(rest, 0), W.ReadU16(rest, 2),
                          Counts(W.ReadU16(rest, 4), W.ReadU16(rest, 6), W.ReadU16(rest, 8), W.ReadU16(rest, 10))),
                 rest[SIZE..]))
  }

  /** A content name the wire format carries: no NUL, and short enough for a 28-bit length. */
  predicate Sendable(name: Bytes) {
    0 !in name && |name| + 4 < NAME_LIMIT
  }

  lemma MessageBack(name: Bytes, k: O.Kind, id: uint16, flags: uint16, counts: Counts, body: Bytes)
    requires Sendable(name)
    ensures |name| + 4 == O.Named(name, k).length
    ensures var m := Envelope(O.Named(name, k), id, flags, counts);
            ReadMessage(WriteMessage(m, body)) == Some((m, body))
  {
    var header := Write(id, flags, counts);
    O.ReadWritten(name, k, header + body);
    ReadWritten(id, flags, counts, body);
  }

  // ----- Flag words -----

  function Decoded(word: uint16, f: Field): uint8 {
    Bits(word, f)
  }

  function QueryCalls(): seq<Call> {
    [Call(QR, 0), Call(OPCODE, 11), Call(TC, 0), Call(RD, 0)]
  }

  /** What every reply copies from the message it replies to: TC twice. */
  function CopiedCalls(word: uint16): seq<Call> {
    [Call(TC, Decoded(word, TC)), Call(AA, Decoded(word, AA)), Call(TC, Decoded(word, TC)),
     Call(RD, Decoded(word, RD)), Call(RA, Decoded(word, RA)), Call(Z, Decoded(word, Z))]
  }

  function Verdict(found: bool): uint8 {
    if found then 6 else 7
  }

  function AckCalls(word: uint16, found: bool): seq<Call> {
    [Call(QR, 0), Call(OPCODE, 12), Call(RCODE, Verdict(found))] + CopiedCalls(word) +
    [Call(RCODE, Decoded(word, RCODE))]
  }

  function RedirectCalls(word: uint16): seq<Call> {
    [Call(QR, 1), Call(OPCODE, 13)] + CopiedCalls(word) + [Call(RCODE, 0)]
  }

  function SourceAckCalls(word: uint16): seq<Call> {
    [Call(QR, 1), Call(OPCODE, 15)] + CopiedCalls(word) + [Call(RCODE, Decoded(word, RCODE))]
  }

  /** The flag word of a reply meant to carry `qr`, `opcode` and `rcode` and otherwise the flags of
      the message `word` it replies to. */
  ghost predicate Faithful(reply: nat, word: uint16, qr: nat, opcode: nat, rcode: nat) {
    && Bits(reply, QR) == qr && Bits(reply, OPCODE) == opcode && Bits(reply, RCODE) == rcode
    && Bits(reply, AA) == Bits(word, AA) && Bits(reply, TC) == Bits(word, TC) && Bits(reply, RD) == Bits(word, RD)
    && Bits(reply, RA) == Bits(word, RA) && Bits(reply, Z) == Bits(word, Z)
  }

  /** The sum of a reply's setter calls, with its own RCODE and the one copied. */
  function ReplySum(word: uint16, qr: nat, opcode: nat, rcode: nat): nat {
    Numeral(qr, opcode, Bits(word, AA), Bits(word, TC), Bits(word, RD), Bits(word, RA), Bits(word, Z), rcode)
  }

  lemma SumAppends(a: seq<Call>, b: seq<Call>)
    ensures Sum(a + b) == Sum(a) + Sum(b)
  {
    if b == [] {
      assert a + b == a;
    } else {
      assert (a + b)[..|a + b| - 1] == a + b[..|b| - 1];
      SumAppends(a, b[..|b| - 1]);
    }
  }

  lemma SumOne(c: Call)
    ensures Sum([c]) == c.value * Weight(c.field)
  {}

  lemma CopiedSum(word: uint16)
    ensures Sum(CopiedCalls(word)) == ReplySum(word, 0, 0, 0)
  {
    var c := CopiedCalls(word);
    SumByFields(c);
    TotalsOfSix(c);
  }

  lemma TotalsOfSix(c: seq<Call>)
    requires |c| == 6
    ensures forall f :: Total(c, f) ==
              (if c[0].field == f then c[0].value else 0) + (if c[1].field == f then c[1].value else 0) +
              (if c[2].field == f then c[2].value else 0) + (if c[3].field == f then c[3].value else 0) +
              (if c[4].field == f then c[4].value else 0) + (if c[5].field == f then c[5].value else 0)
  {
    assert c[..5][..4] == c[..4] && c[..4][..3] == c[..3] && c[..3][..2] == c[..2] && c[..2][..1] == c[..1];
    assert c[..1][..0] == [];
    forall f
      ensures Total(c[..1], f) == if c[0].field == f then c[0].value else 0
      ensures Total(c[..2], f) == Total(c[..1], f) + if c[1].field == f then c[1].value else 0
      ensures Total(c[..3], f) == Total(c[..2], f) + if c[2].field == f then c[2].value else 0
      ensures Total(c[..4], f) == Total(c[..3], f) + if c[3].field == f then c[3].value else 0
      ensures Total(c[..5], f) == Total(c[..4], f) + if c[4].field == f then c[4].value else 0
    {
    }
  }

  lemma NumeralGrows(qr: nat, op: nat, aa: nat, tc: nat, rd: nat, ra: nat, z: nat, rc: nat)
    ensures Numeral(0, 0, aa, tc, rd, ra, z, 0) + qr * 0x8000 + op * 0x800 + rc ==
            Numeral(qr, op, aa, tc, rd, ra, z, rc)
  {}

  lemma ReplySumOf(word: uint16, first: seq<Call>, last: Call, qr: nat, opcode: nat, rcode: nat)
    requires Sum(first) + last.value * Weight(last.field) == qr * 0x8000 + opcode * 0x800 + rcode
    ensures Sum(first + CopiedCalls(word) + [last]) == ReplySum(word, qr, opcode, rcode)
  {
    CopiedSum(word);
    SumOne(last);
    SumAppends(first, CopiedCalls(word));
    SumAppends(first + CopiedCalls(word), [last]);
    NumeralGrows(qr, opcode, Bits(word, AA), Bits(word, TC), Bits(word, RD), Bits(word, RA), Bits(word, Z), rcode);
  }

  lemma SumTwo(a: Call, b: Call)
    ensures Sum([a, b]) == a.value * Weight(a.field) + b.value * Weight(b.field)
  {
    SumOne(a);
    SumOne(b);
    SumAppends([a], [b]);
    assert [a, b] == [a] + [b];
  }

  lemma AckSum(word: uint16, found: bool)
    ensures Sum(AckCalls(word, found)) == ReplySum(word, 0, 12, Verdict(found) + Bits(word, RCODE))
  {
    var two, verdict := [Call(QR, 0), Call(OPCODE, 12)], Call(RCODE, Verdict(found));
    SumTwo(two[0], two[1]);
    SumOne(verdict);
    SumAppends(two, [verdict]);
    assert two + [verdict] == [Call(QR, 0), Call(OPCODE, 12), verdict];
    ReplySumOf(word, two + [verdict], Call(RCODE, Decoded(word, RCODE)), 0, 12, Verdict(found) + Bits(word, RCODE));
  }

  lemma RedirectSum(word: uint16)
    ensures Sum(RedirectCalls(word)) == ReplySum(word, 1, 13, 0)
  {
    SumTwo(Call(QR, 1), Call(OPCODE, 13));
    ReplySumOf(word, [Call(QR, 1), Call(OPCODE, 13)], Call(RCODE, 0), 1, 13, 0);
  }

  lemma SourceAckSum(word: uint16)
    ensures Sum(SourceAckCalls(word)) == ReplySum(word, 1, 15, Bits(word, RCODE))
  {
    SumTwo(Call(QR, 1), Call(OPCODE, 15));
    ReplySumOf(word, [Call(QR, 1), Call(OPCODE, 15)], Call(RCODE, Decoded(word, RCODE)), 1, 15, Bits(word, RCODE));
  }

  /** A reply's word is faithful exactly when TC was clear in the message replied to and nothing was
      added to RCODE on top of what the reply means to say. */
  lemma ReplyFaithfulExactly(word: uint16, qr: nat, opcode: nat, rcode: nat, extra: nat)
    requires qr < 2 && opcode < 16 && rcode < 16 && extra < 16
    ensures Faithful(Low16(ReplySum(word, qr, opcode, rcode + extra)), word, qr, opcode, rcode)
       <==> Bits(word, TC) == 0 && extra == 0
    ensures Bits(Low16(ReplySum(word, qr, opcode, rcode + extra)), RCODE) == rcode <==> extra == 0
  {
    var sum := ReplySum(word, qr, opcode, rcode + extra);
    SumFaithfulExactly(word, qr, opcode, rcode, extra);
    LowBits(sum, QR);
    LowBits(sum, OPCODE);
    LowBits(sum, AA);
    LowBits(sum, TC);
    LowBits(sum, RD);
    LowBits(sum, RA);
    LowBits(sum, Z);
    LowBits(sum, RCODE);
  }

  lemma SumFaithfulExactly(word: uint16, qr: nat, opcode: nat, rcode: nat, extra: nat)
    requires qr < 2 && opcode < 16 && rcode < 16 && extra < 16
    ensures Faithful(ReplySum(word, qr, opcode, rcode + extra), word, qr, opcode, rcode)
       <==> Bits(word, TC) == 0 && extra == 0
    ensures Bits(ReplySum(word, qr, opcode, rcode + extra), RCODE) == rcode <==> extra == 0
  {
    DigitsExactly(qr, opcode, Bits(word, AA), Bits(word, TC), Bits(word, RD), Bits(word, RA), Bits(word, Z),
                  rcode, extra);
  }

  /** A numeral whose TC digit is doubled and whose RCODE digit has something added. */
  function Numeral(qr: nat, op: nat, aa: nat, tc: nat, rd: nat, ra: nat, z: nat, rc: nat): nat {
    qr * 0x8000 + op * 0x800 + aa * 0x400 + 2 * tc * 0x200 + rd * 0x100 + ra * 0x80 + z * 0x10 + rc
  }

  lemma DigitsExactly(qr: nat, op: nat, aa: nat, tc: nat, rd: nat, ra: nat, z: nat, rc: nat, extra: nat)
    requires qr < 2 && op < 16 && aa < 2 && tc < 2 && rd < 2 && ra < 2 && z < 8 && rc < 16 && extra < 16
    ensures var w := Numeral(qr, op, aa, tc, rd, ra, z, rc + extra);
            && Bits(w, QR) == qr && Bits(w, OPCODE) == op && Bits(w, AA) == aa && Bits(w, TC) == tc
            && Bits(w, RD) == rd && Bits(w, RA) == ra && Bits(w, Z) == z && Bits(w, RCODE) == rc
            <==> tc == 0 && extra == 0
    ensures Bits(Numeral(qr, op, aa, tc, rd, ra, z, rc + extra), RCODE) == rc <==> extra == 0
  {
    LastDigit(qr, op, aa, tc, rd, ra, z, rc + extra);
    if extra > 0 {
      CarriesOut(rc, extra);
    } else if tc == 0 {
      DigitsBack(qr, op, aa, 0, rd, ra, z, rc);
    } else {
      EvenTc(qr, op, aa, tc, rd, ra, z, rc);
    }
  }

  lemma CarriesOut(rc: nat, extra: nat)
    requires rc < 16 && 0 < extra < 16
    ensures (rc + extra) % 16 != rc
  {}

  lemma LastDigit(qr: nat, op: nat, aa: nat, tc: nat, rd: nat, ra: nat, z: nat, rc: nat)
    ensures Bits(Numeral(qr, op, aa, tc, rd, ra, z, rc), RCODE) == rc % 16
  {
    var k := qr * 0x800 + op * 0x80 + aa * 0x40 + tc * 0x40 + rd * 0x10 + ra * 8 + z;
    var w := Numeral(qr, op, aa, tc, rd, ra, z, rc);
    assert w == 16 * k + rc;
    assert w / 1 == w;
  }

  /** TC set twice carries out of its bit. */
  lemma EvenTc(qr: nat, op: nat, aa: nat, tc: nat, rd: nat, ra: nat, z: nat, rc: nat)
    requires rd < 2 && ra < 2 && z < 8 && rc < 16
    ensures Bits(Numeral(qr, op, aa, tc, rd, ra, z, rc), TC) == 0
  {
    var low := rd * 0x100 + ra * 0x80 + z * 0x10 + rc;
    var k := qr * 0x20 + op * 2 + aa + tc;
    assert low < 0x200;
    DivUnique(Numeral(qr, op, aa, tc, rd, ra, z, rc), 2 * k, 0x200, low);
  }

  /** Truncation to 16 bits keeps every field. */
  lemma LowBits(n: nat, f: Field)
    ensures Bits(Low16(n), f) == Bits(n, f)
  {
    var hi, lo := n / 0x1_0000, n % 0x1_0000;
    assert Low16(n) == lo;
    match f {
      case QR => SameBits(n, lo, 0x8000, 2, hi);
      case OPCODE => SameBits(n, lo, 0x800, 16, hi * 2);
      case AA => SameBits(n, lo, 0x400, 2, hi * 32);
      case TC => SameBits(n, lo, 0x200, 2, hi * 64);
      case RD => SameBits(n, lo, 0x100, 2, hi * 128);
      case RA => SameBits(n, lo, 0x80, 2, hi * 256);
      case Z => SameBits(n, lo, 0x10, 8, hi * 512);
      case RCODE => SameBits(n, lo, 1, 16, hi * 4096);
    }
  }

  lemma SameBits(n: nat, lo: nat, w: nat, r: nat, m: nat)
    requires w > 0 && r > 0 && n == m * r * w + lo
    ensures n / w % r == lo / w % r
  {
    Shift(m * r, lo, w);
    Shift(m, lo / w, r);
  }

  lemma Shift(m: nat, lo: nat, w: nat)
    requires w > 0
    ensures (m * w + lo) / w == m + lo / w
    ensures (m * w + lo) % w == lo % w
  {
    var q, rest := lo / w, lo % w;
    assert lo == q * w + rest;
    assert (m + q) * w == m * w + q * w;
    DivUnique(m * w + lo, m + q, w, rest);
  }

  lemma DivUnique(a: nat, q: nat, w: nat, rest: nat)
    requires w > 0 && a == q * w + rest && rest < w
    ensures a / w == q && a % w == rest
  {
    var p := a / w;
    assert a == p * w + a % w;
    if p < q {
      Times(p + 1, q, w);
    } else if q < p {
      Times(q + 1, p, w);
    }
  }

  lemma Times(a: nat, b: nat, w: nat)
    requires a <= b
    ensures a * w <= b * w
    ensures a > 0 ==> (a - 1) * w == a * w - w
  {}

  /** The client reads the manager's verdict correctly exactly when its query had RCODE 0, and all
      flags exactly when TC was clear as well, although RCODE and TC are both set twice. */
  lemma AckExactly(word: uint16, found: bool)
    ensures var ack := Low16(Sum(AckCalls(word, found)));
            && (Bits(ack, RCODE) == Verdict(found) <==> Bits(word, RCODE) == 0)
            && (Faithful(ack, word, 0, 12, Verdict(found)) <==> Bits(word, TC) == 0 && Bits(word, RCODE) == 0)
  {
    AckSum(word, found);
    ReplyFaithfulExactly(word, 0, 12, Verdict(found), Bits(word, RCODE));
  }

  /** The redirect carries the query's flags exactly when TC was clear. */
  lemma RedirectExactly(word: uint16)
    ensures Faithful(Low16(Sum(RedirectCalls(word))), word, 1, 13, 0) <==> Bits(word, TC) == 0
  {
    RedirectSum(word);
    ReplyFaithfulExactly(word, 1, 13, 0, 0);
  }

  /** So does the source's acknowledgement, which copies RCODE once. */
  lemma SourceAckExactly(word: uint16)
    ensures Faithful(Low16(Sum(SourceAckCalls(word))), word, 1, 15, Bits(word, RCODE)) <==> Bits(word, TC) == 0
  {
    SourceAckSum(word);
    ReplyFaithfulExactly(word, 1, 15, Bits(word, RCODE), 0);
  }

  // ----- The messages -----

  function QueryFlags(): uint16 {
    Low16(Sum(QueryCalls()))
  }

  function QuestionFor(name: Bytes): Question
    requires Sendable(name)
  {
    Question(2, name, |name|, 1, 1)
  }

  function QueryEnvelope(name: Bytes): Envelope
    requires Sendable(name)
  {
    Envelope(O.Named(name, O.NonCachable), 0, QueryFlags(), Counts(1, 0, 0, 0))
  }

  function Query(name: Bytes): Bytes
    requires Sendable(name)
  {
    WriteMessage(QueryEnvelope(name), WriteQuestion(QuestionFor(name)))
  }

  predicate Writable(m: Envelope, q: Question) {
    |m.oicn.name| + 4 <= m.oicn.length && |q.name| <= q.length < NAME_LIMIT
  }

  function Ack(m: Envelope, q: Question, found: bool): Bytes
    requires Writable(m, q)
  {
    WriteMessage(Envelope(m.oicn, 0, Low16(Sum(AckCalls(m.flags, found))), m.counts), WriteQuestion(q))
  }

  function AnswerFor(q: Question, client: uint32): Answer {
    Answer(2, q.name, q.qType, q.qClass, 255, 32, client)
  }

  function Redirect(m: Envelope, q: Question, client: uint32): Bytes
    requires Writable(m, q)
  {
    WriteMessage(Envelope(m.oicn, 0, Low16(Sum(RedirectCalls(m.flags))), m.counts.(an := 1)),
                 WriteQuestion(q) + WriteAnswer(AnswerFor(q, client)))
  }

  function SourceAck(m: Envelope, q: Question): Bytes
    requires Writable(m, q)
  {
    WriteMessage(Envelope(m.oicn, 0, Low16(Sum(SourceAckCalls(m.flags))), Counts(m.counts.qd, 0, 0, 0)),
                 WriteQuestion(q))
  }

  lemma QueryFlagsBack()
    ensures QueryFlags() == 0x5800
    ensures Bits(QueryFlags(), QR) == 0 && Bits(QueryFlags(), OPCODE) == 11
    ensures Bits(QueryFlags(), TC) == 0 && Bits(QueryFlags(), RCODE) == 0
  {
    var c := QueryCalls();
    SumOne(c[0]);
    SumOne(c[1]);
    SumOne(c[2]);
    SumOne(c[3]);
    assert c == [c[0]] + [c[1]] + [c[2]] + [c[3]];
    SumAppends([c[0]], [c[1]]);
    SumAppends([c[0]] + [c[1]], [c[2]]);
    SumAppends([c[0]] + [c[1]] + [c[2]], [c[3]]);
    assert Sum(c) == 11 * 0x800;
  }

  /** No flag is set but QR, OPCODE and RCODE. */
  predicate Bare(word: uint16) {
    && Bits(word, AA) == 0 && Bits(word, TC) == 0 && Bits(word, RD) == 0 && Bits(word, RA) == 0 && Bits(word, Z) == 0
    && Bits(word, RCODE) == 0
  }

  lemma BareSum(word: uint16, qr: nat, opcode: nat, rcode: nat)
    requires Bare(word)
    ensures ReplySum(word, qr, opcode, rcode) == qr * 0x8000 + opcode * 0x800 + rcode
  {}

  /** The flag words of a resolution that starts with a client's query: nothing but QR, OPCODE and RCODE. */
  lemma AckFlags(query: uint16, found: bool)
    requires Bare(query)
    ensures Low16(Sum(AckCalls(query, found))) == if found then 0x6006 else 0x6007
  {
    AckSum(query, found);
    BareSum(query, 0, 12, Verdict(found) + Bits(query, RCODE));
  }

  lemma RedirectFlags(query: uint16)
    requires Bare(query)
    ensures Low16(Sum(RedirectCalls(query))) == 0xE800
  {
    RedirectSum(query);
    BareSum(query, 1, 13, 0);
  }

  lemma SourceAckFlags(redirect: uint16)
    requires Bare(redirect)
    ensures Low16(Sum(SourceAckCalls(redirect))) == 0xF800
  {
    SourceAckSum(redirect);
    BareSum(redirect, 1, 15, Bits(redirect, RCODE));
  }

  lemma RedirectIsBare()
    ensures Bare(0xE800)
  {}

  lemma QueryIsBare()
    ensures Bare(QueryFlags())
  {
    QueryFlagsBack();
    assert Bare(0x5800);
  }

  lemma FlagsRead(found: bool)
    ensures var w: uint16 := if found then 0x6006 else 0x6007;
            Bits(w, QR) == 0 && Bits(w, OPCODE) == 12 && Bits(w, RCODE) == if found then 6 else 7
    ensures Bits(0xE800, QR) == 1 && Bits(0xE800, OPCODE) == 13
    ensures Bits(0xF800, QR) == 1 && Bits(0xF800, OPCODE) == 15
  {}

  /** What reads as a message in reply keeps the sublayer header and the question of the one it replies to, and
      of its counts the acknowledgement all, the redirect all but one answer, the source's acknowledgement that
      of the questions. */
  lemma RepliesBack(m: Envelope, name: Bytes, k: O.Kind, q: Question, client: uint32, found: bool)
    requires Sendable(name) && m.oicn == O.Named(name, k) && Writable(m, q)
    ensures ReadMessage(Ack(m, q, found)) ==
            Some((Envelope(m.oicn, 0, Low16(Sum(AckCalls(m.flags, found))), m.counts), WriteQuestion(q)))
    ensures ReadMessage(Redirect(m, q, client)) ==
            Some((Envelope(m.oicn, 0, Low16(Sum(RedirectCalls(m.flags))),
                           Counts(m.counts.qd, 1, m.counts.ns, m.counts.ar)),
                  WriteQuestion(q) + WriteAnswer(AnswerFor(q, client))))
    ensures ReadMessage(SourceAck(m, q)) ==
            Some((Envelope(m.oicn, 0, Low16(Sum(SourceAckCalls(m.flags))), Counts(m.counts.qd, 0, 0, 0)),
                  WriteQuestion(q)))
  {
    MessageBack(name, k, 0, Low16(Sum(AckCalls(m.flags, found))), m.counts, WriteQuestion(q));
    MessageBack(name, k, 0, Low16(Sum(RedirectCalls(m.flags))), m.counts.(an := 1),
                WriteQuestion(q) + WriteAnswer(AnswerFor(q, client)));
    MessageBack(name, k, 0, Low16(Sum(SourceAckCalls(m.flags))), Counts(m.counts.qd, 0, 0, 0), WriteQuestion(q));
  }

  /** The sublayer header of all messages of a resolution: the name, marked non-cachable. */
  function QueryOicn(name: Bytes): O.Oicn
    requires Sendable(name)
  {
    O.Oicn(name, 4 + |name|, 0xB000_0000 + 4 + |name|)
  }

  /** The question of all of them: the name, of type and class 1. */
  lemma QuestionIs(name: Bytes, rest: Bytes)
    requires Sendable(name)
    ensures ReadQuestion(WriteQuestion(QuestionFor(name)) + rest) == Some((Question(2, name, |name|, 1, 1), rest))
  {
    QuestionBack(QuestionFor(name), rest);
    W.CStringExactly(name);
  }

  lemma QueryEnvelopeIs(name: Bytes)
    requires Sendable(name)
    ensures QueryEnvelope(name) == Envelope(QueryOicn(name), 0, 0x5800, Counts(1, 0, 0, 0))
  {
    QueryFlagsBack();
  }

  /** What the manager reads from a client's query. */
  lemma QueryBack(name: Bytes)
    requires Sendable(name)
    ensures var m := QueryEnvelope(name);
            && m == Envelope(QueryOicn(name), 0, 0x5800, Counts(1, 0, 0, 0))
            && ReadMessage(Query(name)) == Some((m, WriteQuestion(QuestionFor(name))))
            && ReadQuestion(WriteQuestion(QuestionFor(name))) == Some((Question(2, name, |name|, 1, 1), []))
            && Bits(m.flags, QR) == 0 && Bits(m.flags, OPCODE) == 11
            && Writable(m, QuestionFor(name))
  {
    var q := QuestionFor(name);
    MessageBack(name, O.NonCachable, 0, QueryFlags(), Counts(1, 0, 0, 0), WriteQuestion(q));
    QuestionIs(name, []);
    assert WriteQuestion(q) + [] == WriteQuestion(q);
    QueryEnvelopeIs(name);
    QueryFlagsBack();
  }

  /** What the client reads from the manager's acknowledgement of its query: RCODE 6 exactly when the
      name was resolved and 7 otherwise, and its own question. */
  lemma AckBack(name: Bytes, found: bool)
    requires Sendable(name)
    ensures var m := QueryEnvelope(name);
            && Writable(m, QuestionFor(name))
            && var read := ReadMessage(Ack(m, QuestionFor(name), found));
               && read.Some?
               && read.value.0 == Envelope(QueryOicn(name), 0, if found then 0x6006 else 0x6007, Counts(1, 0, 0, 0))
               && Bits(read.value.0.flags, QR) == 0 && Bits(read.value.0.flags, OPCODE) == 12
               && Bits(read.value.0.flags, RCODE) == (if found then 6 else 7)
               && ReadQuestion(read.value.1) == Some((Question(2, name, |name|, 1, 1), []))
  {
    QueryBack(name);
    QueryIsBare();
    AckFlags(QueryFlags(), found);
    FlagsRead(found);
    RepliesBack(QueryEnvelope(name), name, O.NonCachable, QuestionFor(name), 0, found);
  }

  /** What the source reads from the manager's redirect: the question, and one answer with the name and the
      client. */
  lemma RedirectBack(name: Bytes, client: uint32)
    requires Sendable(name)
    ensures var m := QueryEnvelope(name);
            var q := QuestionFor(name);
            && Writable(m, q)
            && var read := ReadMessage(Redirect(m, q, client));
               && read.Some?
               && read.value.0 == Envelope(QueryOicn(name), 0, 0xE800, Counts(1, 1, 0, 0))
               && Bits(read.value.0.flags, QR) == 1 && Bits(read.value.0.flags, OPCODE) == 13
               && ReadQuestion(read.value.1) ==
                  Some((Question(2, name, |name|, 1, 1), WriteAnswer(AnswerFor(q, client))))
               && ReadAnswer(WriteAnswer(AnswerFor(q, client))) ==
                  Some((Answer(2, name, 1, 1, 255, 32, client), []))
  {
    var q := QuestionFor(name);
    QueryBack(name);
    QueryIsBare();
    RedirectFlags(QueryFlags());
    FlagsRead(false);
    RepliesBack(QueryEnvelope(name), name, O.NonCachable, q, client, false);
    QuestionIs(name, WriteAnswer(AnswerFor(q, client)));
    AnswerBack(AnswerFor(q, client), []);
    assert WriteAnswer(AnswerFor(q, client)) + [] == WriteAnswer(AnswerFor(q, client));
    W.CStringExactly(name);
  }

  /** What the manager reads from the source's acknowledgement of its redirect: QR 1, OPCODE 15 and the
      question. */
  lemma SourceAckBack(name: Bytes, client: uint32)
    requires Sendable(name)
    ensures Writable(QueryEnvelope(name), QuestionFor(name))
    ensures var redirect := ReadMessage(Redirect(QueryEnvelope(name), QuestionFor(name), client));
            && redirect.Some? && Writable(redirect.value.0, QuestionFor(name))
            && var read := ReadMessage(SourceAck(redirect.value.0, QuestionFor(name)));
               && read.Some?
               && read.value.0 == Envelope(QueryOicn(name), 0, 0xF800, Counts(1, 0, 0, 0))
               && ReadQuestion(read.value.1) == Some((Question(2, name, |name|, 1, 1), []))
  {
    var q := QuestionFor(name);
    QueryBack(name);
    RedirectBack(name, client);
    RedirectIsBare();
    SourceAckFlags(0xE800);
    RepliesBack(ReadMessage(Redirect(QueryEnvelope(name), q, client)).value.0, name, O.NonCachable, q, 0, false);
    QuestionIs(name, []);
    assert WriteQuestion(q) + [] == WriteQuestion(q);
  }

  // ----- Reading and replying, with the header objects -----

  /** A DNS header as decoded from a packet. */
  class Received {
    const header: DnsPlusHeader

    ghost predicate Valid()
      reads this, header
    {
      header.m_flag < 0x1_0000 && forall f: Field :: f in header.fields && header.fields[f] == Bits(header.m_flag, f)
    }

    /** The envelope a receiver sees, with the sublayer header in front. */
    ghost function Seen(oicn: O.Oicn): Envelope
      requires Valid()
      reads this, header
    {
      Envelope(oicn, header.m_Id, header.m_flag, header.counts)
    }

    constructor (header: DnsPlusHeader)
      ensures this.header == header
    {
      this.header := header;
    }
  }

  /** The packet a client sends for a content: a request header is made non-cachable before it goes. */
  method ConstructQuery(name: Bytes) returns (packet: Bytes)
    requires Sendable(name)
    ensures packet == Query(name)
  {
    var question := new DnsPlusQuestionHeader();
    question.SetName(name);
    question.m_qType, question.m_qClass := 1, 1;
    packet := question.AddTo([]);
    assert packet == WriteQuestion(QuestionFor(name));
    var dns := QueryHeader();
    packet := dns.AddTo(packet);
    var oicn := new O.OicnHeader();
    oicn.SetName(name);
    oicn.SetRequest();
    oicn.SetNonCachable();
    packet := oicn.AddTo(packet);
  }

  method QueryHeader() returns (dns: DnsPlusHeader)
    ensures fresh(dns) && dns.Valid() && dns.m_Id == 0 && dns.counts == Counts(1, 0, 0, 0)
    ensures dns.calls == QueryCalls()
  {
    dns := new DnsPlusHeader();
    dns.SetQR(0);
    dns.Set(OPCODE, 11);
    dns.counts := dns.counts.(qd := 1);
    dns.Set(TC, 0);
    dns.Set(RD, 0);
  }

  /** Removes both headers; not ok if the packet ends too early. */
  method Open(packet: Bytes) returns (ok: bool, oicn: O.OicnHeader, dns: Received, rest: Bytes)
    ensures ok <==> ReadMessage(packet).Some?
    ensures ok ==> && dns.Valid() && ReadMessage(packet) == Some((dns.Seen(oicn.Value()), rest))
                   && |oicn.m_name| + 4 <= oicn.header_length
  {
    oicn := new O.OicnHeader();
    var header := new DnsPlusHeader();
    dns := new Received(header);
    ok, rest := oicn.RemoveFrom(packet);
    if ok {
      ok, rest := header.RemoveFrom(rest);
    }
  }

  /** Every reply copies the flags of the message it replies to like this, TC twice. */
  method CopyFlags(dns: Received, reply: DnsPlusHeader)
    requires dns.header != reply && reply.Valid() && dns.Valid()
    modifies reply`m_flag, reply`fields, reply`calls
    ensures reply.Valid() && reply.calls == old(reply.calls) + CopiedCalls(dns.header.m_flag)
  {
    var fields := dns.header.fields;
    reply.Set(TC, fields[TC]);
    reply.Set(AA, fields[AA]);
    reply.Set(TC, fields[TC]);
    reply.Set(RD, fields[RD]);
    reply.Set(RA, fields[RA]);
    reply.Set(Z, fields[Z]);
  }
}
