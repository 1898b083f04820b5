/** The DNS-like header. Its flag word (section 4.1.1 of RFC 1035) is built by setters that add to
    it, so that setting a field twice adds its value twice. */
module DnsPlusHeader {
  import opened Basics
  import opened Wire

  datatype Field = QR | OPCODE | AA | TC | RD | RA | Z | RCODE

  function Weight(f: Field): nat {
    match f
    case QR => 0x8000
    case OPCODE => 0x800
    case AA => 0x400
    case TC => 0x200
    case RD => 0x100
    case RA => 0x80
    case Z => 0x10
    case RCODE => 1
  }

  /** How many values the field has room for. */
  function Range(f: Field): nat {
    match f
    case QR => 2
    case OPCODE => 16
    case AA => 2
    case TC => 2
    case RD => 2
    case RA => 2
    case Z => 8
    case RCODE => 16
  }

  /** The bits of a field in a flag word. */
  function Bits(word: nat, f: Field): nat {
    word / Weight(f) % Range(f)
  }

  // ----- Additive setters -----

  datatype Call = Call(field: Field, value: uint8)

  /** The flag word that a sequence of setter calls adds up to. */
  function Sum(calls: seq<Call>): nat {
    if calls == [] then 0
    else
      var last := calls[|calls| - 1];
      Sum(calls[..|calls| - 1]) + last.value * Weight(last.field)
  }

  /** All that was added to one field. */
  function Total(calls: seq<Call>, f: Field): nat {
    if calls == [] then 0
    else
      var last := calls[|calls| - 1];
      Total(calls[..|calls| - 1], f) + if last.field == f then last.value else 0
  }

  lemma {:induction false} SumByFields(calls: seq<Call>)
    ensures Sum(calls) ==
            Total(calls, QR) * 0x8000 + Total(calls, OPCODE) * 0x800 + Total(calls, AA) * 0x400 +
            Total(calls, TC) * 0x200 + Total(calls, RD) * 0x100 + Total(calls, RA) * 0x80 +
            Total(calls, Z) * 0x10 + Total(calls, RCODE)
  {
    if calls != [] {
      SumByFields(calls[..|calls| - 1]);
    }
  }

  ghost predicate Fits(calls: seq<Call>) {
    forall f :: Total(calls, f) < Range(f)
  }

  /** The fields of the upper octet, whatever the lower one holds. */
  lemma UpperOctetBack(qr: nat, op: nat, aa: nat, tc: nat, rd: nat, lower: nat)
    requires qr < 2 && op < 16 && aa < 2 && tc < 2 && rd < 2 && lower < 0x100
    ensures var w := qr * 0x8000 + op * 0x800 + aa * 0x400 + tc * 0x200 + rd * 0x100 + lower;
            && w < 0x1_0000
            && Bits(w, QR) == qr && Bits(w, OPCODE) == op && Bits(w, AA) == aa && Bits(w, TC) == tc && Bits(w, RD) == rd
  {
    var w := qr * 0x8000 + op * 0x800 + aa * 0x400 + tc * 0x200 + rd * 0x100 + lower;
    assert w / 0x800 == qr * 0x10 + op;
    assert w / 0x400 == qr * 0x20 + op * 2 + aa;
    assert w / 0x200 == qr * 0x40 + op * 4 + aa * 2 + tc;
    assert w / 0x100 == qr * 0x80 + op * 8 + aa * 4 + tc * 2 + rd;
  }

  /** The fields of the lower octet, whatever the upper one holds. */
  lemma LowerOctetBack(upper: nat, ra: nat, z: nat, rc: nat)
    requires upper < 0x100 && ra < 2 && z < 8 && rc < 16
    ensures var w := upper * 0x100 + ra * 0x80 + z * 0x10 + rc;
            Bits(w, RA) == ra && Bits(w, Z) == z && Bits(w, RCODE) == rc
  {
    var w := upper * 0x100 + ra * 0x80 + z * 0x10 + rc;
    assert w / 0x80 == upper * 2 + ra;
    assert w / 0x10 == upper * 0x10 + ra * 8 + z;
    assert w / 0x10 / 8 == upper * 2 + ra;
  }

  /** Numerals with the field ranges as digits are unique. */
  lemma DigitsBack(qr: nat, op: nat, aa: nat, tc: nat, rd: nat, ra: nat, z: nat, rc: nat)
    requires qr < 2 && op < 16 && aa < 2 && tc < 2 && rd < 2 && ra < 2 && z < 8 && rc < 16
    ensures var w := qr * 0x8000 + op * 0x800 + aa * 0x400 + tc * 0x200 + rd * 0x100 + ra * 0x80 + z * 0x10 + rc;
            && w < 0x1_0000
            && Bits(w, QR) == qr && Bits(w, OPCODE) == op && Bits(w, AA) == aa && Bits(w, TC) == tc
            && Bits(w, RD) == rd && Bits(w, RA) == ra && Bits(w, Z) == z && Bits(w, RCODE) == rc
  {
    var w := qr * 0x8000 + op * 0x800 + aa * 0x400 + tc * 0x200 + rd * 0x100 + ra * 0x80 + z * 0x10 + rc;
    var lower := ra * 0x80 + z * 0x10 + rc;
    var upper := qr * 0x80 + op * 8 + aa * 4 + tc * 2 + rd;
    assert w == qr * 0x8000 + op * 0x800 + aa * 0x400 + tc * 0x200 + rd * 0x100 + lower;
    assert w == upper * 0x100 + ra * 0x80 + z * 0x10 + rc;
    UpperOctetBack(qr, op, aa, tc, rd, lower);
    LowerOctetBack(upper, ra, z, rc);
  }

  /** The receiver decodes exactly what the calls added up to, field by field, if and only if no
      field got more than it has room for. */
  lemma AdditiveExactly(calls: seq<Call>)
    ensures (forall f :: Bits(Low16(Sum(calls)), f) == Total(calls, f)) <==> Fits(calls)
  {
    SumByFields(calls);
    if Fits(calls) {
      assert Total(calls, QR) < Range(QR) && Total(calls, OPCODE) < Range(OPCODE);
      assert Total(calls, AA) < Range(AA) && Total(calls, TC) < Range(TC) && Total(calls, RD) < Range(RD);
      assert Total(calls, RA) < Range(RA) && Total(calls, Z) < Range(Z) && Total(calls, RCODE) < Range(RCODE);
      DigitsBack(Total(calls, QR), Total(calls, OPCODE), Total(calls, AA), Total(calls, TC),
                 Total(calls, RD), Total(calls, RA), Total(calls, Z), Total(calls, RCODE));
      forall f
        ensures Bits(Low16(Sum(calls)), f) == Total(calls, f)
      {
        match f {
          case QR => case OPCODE => case AA => case TC => case RD => case RA => case Z => case RCODE =>
        }
      }
    } else {
      var f :| Total(calls, f) >= Range(f);
      assert Bits(Low16(Sum(calls)), f) < Range(f);
    }
  }

  // ----- The header object -----

  datatype Counts = Counts(qd: uint16, an: uint16, ns: uint16, ar: uint16)

  const SIZE := 12

  function Write(id: uint16, flags: uint16, c: Counts): (b: Bytes)
    ensures |b| == SIZE
  {
    WriteU16(id) + WriteU16(flags) + WriteU16(c.qd) + WriteU16(c.an) + WriteU16(c.ns) + WriteU16(c.ar)
  }

  lemma ReadWritten(id: uint16, flags: uint16, c: Counts, rest: Bytes)
    ensures var b := Write(id, flags, c) + rest;
            && ReadU16(b, 0) == id && ReadU16(b, 2) == flags && ReadU16(b, 4) == c.qd && ReadU16(b, 6) == c.an
            && ReadU16(b, 8) == c.ns && ReadU16(b, 10) == c.ar && b[SIZE..] == rest
  {}

  class DnsPlusHeader {
    var m_flag: uint32
    var m_Id: uint16
    // The eight flag fields, each as last set or as decoded.
    var fields: map<Field, uint8>
    var counts: Counts
    // The setter calls made so far.
    ghost var calls: seq<Call>

    ghost predicate Valid()
      reads this
    {
      (forall f: Field :: f in fields) && Low16(m_flag) == Low16(Sum(calls))
    }

    constructor ()
      ensures Valid() && calls == [] && m_Id == 0 && counts == Counts(0, 0, 0, 0)
    {
      m_flag, m_Id, counts, calls := 0, 0, Counts(0, 0, 0, 0), [];
      fields := map[QR := 0, OPCODE := 0, AA := 0, TC := 0, RD := 0, RA := 0, Z := 0, RCODE := 0];
      new;
      assert forall f: Field :: f in fields by {
        forall f: Field
          ensures f in fields
        {
          match f {
            case QR => case OPCODE => case AA => case TC => case RD => case RA => case Z => case RCODE =>
          }
        }
      }
    }

    /** All setters but SetQR: the field is set, the word is added to. */
    method Set(field: Field, value: uint8)
      requires Valid()
      modifies `m_flag, `fields, `calls
      ensures Valid() && calls == old(calls) + [Call(field, value)]
      ensures fields == old(fields)[field := value]
    {
      fields := fields[field := value];
      Add(field, value);
    }

    /** A value other than 0 and 1 is not stored, but added to the word all the same. */
    method SetQR(value: uint8)
      requires Valid()
      modifies `m_flag, `fields, `calls
      ensures Valid() && calls == old(calls) + [Call(QR, value)]
      ensures fields == if value <= 1 then old(fields)[QR := value] else old(fields)
    {
      if value == 1 {
        fields := fields[QR := 1];
      } else if value == 0 {
        fields := fields[QR := 0];
      }
      Add(QR, value);
    }

    method Add(field: Field, value: uint8)
      modifies `m_flag, `calls
      ensures Low16(old(m_flag)) == Low16(Sum(old(calls))) ==> Low16(m_flag) == Low16(Sum(calls))
      ensures calls == old(calls) + [Call(field, value)]
    {
      var amount: int := value;
      amount := amount * Weight(field);
      AddLow(m_flag, Sum(calls), amount);
      m_flag := Low32(m_flag + amount);
      calls := calls + [Call(field, value)];
      assert calls[..|calls| - 1] == old(calls);
    }

    method AddTo(packet: Bytes) returns (longer: Bytes)
      requires Valid()
      ensures longer == Write(m_Id, Low16(Sum(calls)), counts) + packet
    {
      longer := WriteU16(m_Id) + WriteU16(Low16(m_flag)) + WriteU16(counts.qd) + WriteU16(counts.an) +
                WriteU16(counts.ns) + WriteU16(counts.ar) + packet;
    }

    method RemoveFrom(packet: Bytes) returns (ok: bool, rest: Bytes)
      modifies this
      ensures ok <==> |packet| >= SIZE
      ensures ok ==> && rest == packet[SIZE..] && m_Id == ReadU16(packet, 0) && m_flag == ReadU16(packet, 2)
                     && counts == Counts(ReadU16(packet, 4), ReadU16(packet, 6), ReadU16(packet, 8),
                                         ReadU16(packet, 10))
                     && forall f: Field :: f in fields && fields[f] == Bits(ReadU16(packet, 2), f)
    {
      if |packet| < SIZE {
        return false, packet;
      }
      m_Id, m_flag := ReadU16(packet, 0), ReadU16(packet, 2);
      var w: nat := m_flag;
      fields := map[QR := w / 0x8000 % 2, OPCODE := w / 0x800 % 16, AA := w / 0x400 % 2, TC := w / 0x200 % 2,
                    RD := w / 0x100 % 2, RA := w / 0x80 % 2, Z := w / 0x10 % 8, RCODE := w % 16];
      counts := Counts(ReadU16(packet, 4), ReadU16(packet, 6), ReadU16(packet, 8), ReadU16(packet, 10));
      forall f: Field
        ensures f in fields && fields[f] == Bits(ReadU16(packet, 2), f)
      {
        match f {
          case QR => case OPCODE => case AA => case TC => case RD => case RA => case Z => case RCODE =>
        }
      }
      return true, packet[SIZE..];
    }
  }

  lemma AddLow(a: nat, b: nat, n: nat)
    ensures Low16(a) == Low16(b) ==> Low16(Low32(a + n)) == Low16(b + n)
  {
    if Low16(a) == Low16(b) {
      var c, d := a / 0x1_0000, b / 0x1_0000;
      assert a == c * 0x1_0000 + Low16(a) && b == d * 0x1_0000 + Low16(b);
      var q := (a + n) / 0x1_0000_0000;
      assert a + n == q * 0x1_0000_0000 + Low32(a + n);
      SameLow(Low32(a + n), b + n, c - d - q * 0x1_0000);
    }
  }

  lemma SameLow(x: nat, y: nat, k: int)
    requires x == y + k * 0x1_0000
    ensures Low16(x) == Low16(y)
  {
    assert x % 0x1_0000 == y % 0x1_0000;
  }
}
