/** The question section and the answer section of a message. */
module DnsPlusSections {
  import opened Basics
  import opened Wire

  const NAME_LIMIT := 0x1000_0000

  /** Four reserved bits and 28 bits of name length. */
  function LengthWord(reserved: uint8, length: nat): uint32
    requires length < NAME_LIMIT
  {
    var r: int := reserved;
    r % 16 * NAME_LIMIT + length
  }

  /** `length` is the name length on record; the name is shorter if it was cut at a NUL. */
  datatype Question = Question(reserved: uint8, name: Bytes, length: uint32, qType: uint16, qClass: uint16)

  datatype Answer = Answer(reserved: uint8, name: Bytes, aType: uint16, aClass: uint16, ttl: uint16,
                           rdLength: uint16, rdData: uint32)

  /** The length on record decides how many bytes a question takes; what is left over is zero. */
  function WriteQuestion(q: Question): Bytes
    requires |q.name| <= q.length < NAME_LIMIT
  {
    WriteU32(LengthWord(q.reserved, q.length)) + CopyOf(q.name) +
    (WriteU16(q.qType) + WriteU16(q.qClass) + Zeros(q.length - |q.name|))
  }

  function WriteAnswer(a: Answer): Bytes
    requires |a.name| < NAME_LIMIT
  {
    WriteU32(LengthWord(a.reserved, |a.name|)) + CopyOf(a.name) +
    (WriteU16(a.aType) + WriteU16(a.aClass) + WriteU16(a.ttl) + WriteU16(a.rdLength) + WriteU32(a.rdData))
  }

  /** The section at the front of `b` and the rest; None where the code would read past the end. */
  function ReadQuestion(b: Bytes): Option<(Question, Bytes)> {
    if |b| < 4 then None
    else
      var word: int := ReadU32(b, 0);
      var n := 4 + word % NAME_LIMIT;
      if |b| < n + 4 then None
      else Some((Question(word / NAME_LIMIT, CString(b[4..n]), n - 4, ReadU16(b, n), ReadU16(b, n + 2)), b[n + 4..]))
  }

  function ReadAnswer(b: Bytes): Option<(Answer, Bytes)> {
    if |b| < 4 then None
    else
      var word: int := ReadU32(b, 0);
      var n := 4 + word % NAME_LIMIT;
      if |b| < n + 12 then None
      else Some((Answer(word / NAME_LIMIT, CString(b[4..n]), ReadU16(b, n), ReadU16(b, n + 2), ReadU16(b, n + 4),
                        ReadU16(b, n + 6), ReadU32(b, n + 8)), b[n + 12..]))
  }

  lemma LengthWordBack(reserved: uint8, length: nat)
    requires reserved < 16 && length < NAME_LIMIT
    ensures var w: int := LengthWord(reserved, length); w % NAME_LIMIT == length && w / NAME_LIMIT == reserved
  {}

  lemma TailU16(b: Bytes, at: nat, n: uint16, tail: Bytes)
    requires at <= |b| && b[at..] == WriteU16(n) + tail
    ensures at + 2 <= |b| && ReadU16(b, at) == n && b[at + 2..] == tail
  {}

  lemma TailU32(b: Bytes, at: nat, n: uint32, tail: Bytes)
    requires at <= |b| && b[at..] == WriteU32(n) + tail
    ensures at + 4 <= |b| && ReadU32(b, at) == n && b[at + 4..] == tail
  {}

  /** A question comes back as it was written, its name up to the first NUL, and what follows it is
      untouched. */
  lemma QuestionBack(q: Question, rest: Bytes)
    requires |q.name| == q.length < NAME_LIMIT && q.reserved < 16
    ensures ReadQuestion(WriteQuestion(q) + rest) == Some((q.(name := CString(q.name)), rest))
  {
    var word := LengthWord(q.reserved, |q.name|);
    var t2 := rest;
    var t1 := WriteU16(q.qClass) + t2;
    var t0 := WriteU16(q.qType) + t1;
    var b := WriteQuestion(q) + rest;
    assert b == WriteU32(word) + CopyOf(q.name) + t0 by {
      assert Zeros(0) == [];
    }
    U32Front(word, CopyOf(q.name), t0);
    LengthWordBack(q.reserved, |q.name|);
    CStringExactly(q.name);
    var n := 4 + |q.name|;
    TailU16(b, n, q.qType, t1);
    TailU16(b, n + 2, q.qClass, t2);
  }

  /** Where the fields of a question stand: length and reserved bits in one word, the name, type and class. */
  lemma QuestionLayout(q: Question, rest: Bytes)
    requires 0 !in q.name && |q.name| == q.length < NAME_LIMIT && q.reserved < 16
    ensures var b, n := WriteQuestion(q) + rest, 4 + |q.name|;
            && |b| == n + 4 + |rest|
            && ReadU32(b, 0) == q.reserved * 0x1000_0000 + q.length
            && b[4..n] == q.name
            && ReadU16(b, n) == q.qType && ReadU16(b, n + 2) == q.qClass
  {
    var t1 := WriteU16(q.qClass) + rest;
    var t0 := WriteU16(q.qType) + t1;
    var b := WriteQuestion(q) + rest;
    CStringExactly(q.name);
    assert b == WriteU32(LengthWord(q.reserved, q.length)) + q.name + t0 by {
      assert Zeros(0) == [];
    }
    U32Front(LengthWord(q.reserved, q.length), q.name, t0);
    TailU16(b, 4 + |q.name|, q.qType, t1);
    TailU16(b, 6 + |q.name|, q.qClass, rest);
  }

  /** And of an answer: then TTL, the length of the address and the address. */
  lemma AnswerLayout(a: Answer, rest: Bytes)
    requires 0 !in a.name && |a.name| < NAME_LIMIT && a.reserved < 16
    ensures var b, n := WriteAnswer(a) + rest, 4 + |a.name|;
            && |b| == n + 12 + |rest|
            && ReadU32(b, 0) == a.reserved * 0x1000_0000 + |a.name|
            && b[4..n] == a.name
            && ReadU16(b, n) == a.aType && ReadU16(b, n + 2) == a.aClass
            && ReadU16(b, n + 4) == a.ttl && ReadU16(b, n + 6) == a.rdLength
            && ReadU32(b, n + 8) == a.rdData
  {
    var b, n, word := WriteAnswer(a) + rest, 4 + |a.name|, LengthWord(a.reserved, |a.name|);
    var fields := WriteU16(a.aType) + WriteU16(a.aClass) + WriteU16(a.ttl) + WriteU16(a.rdLength) + WriteU32(a.rdData);
    assert b == WriteU32(word) + CopyOf(a.name) + (fields + rest);
    U32Front(word, CopyOf(a.name), fields + rest);
    LengthWordBack(a.reserved, |a.name|);
    CStringExactly(a.name);
    AnswerBack(a, rest);
  }

  /** So does an answer. */
  lemma AnswerBack(a: Answer, rest: Bytes)
    requires |a.name| < NAME_LIMIT && a.reserved < 16
    ensures ReadAnswer(WriteAnswer(a) + rest) == Some((a.(name := CString(a.name)), rest))
  {
    var word := LengthWord(a.reserved, |a.name|);
    var t5 := rest;
    var t4 := WriteU32(a.rdData) + t5;
    var t3 := WriteU16(a.rdLength) + t4;
    var t2 := WriteU16(a.ttl) + t3;
    var t1 := WriteU16(a.aClass) + t2;
    var t0 := WriteU16(a.aType) + t1;
    var b := WriteAnswer(a) + rest;
    assert b == WriteU32(word) + CopyOf(a.name) + t0;
    U32Front(word, CopyOf(a.name), t0);
    LengthWordBack(a.reserved, |a.name|);
    CStringExactly(a.name);
    var n := 4 + |a.name|;
    TailU16(b, n, a.aType, t1);
    TailU16(b, n + 2, a.aClass, t2);
    TailU16(b, n + 4, a.ttl, t3);
    TailU16(b, n + 6, a.rdLength, t4);
    TailU32(b, n + 8, a.rdData, t5);
  }

  // ----- The section objects -----

  class DnsPlusQuestionHeader {
    var m_reservedFlag: uint8
    var m_name: Bytes
    var m_nameLength: uint32
    var m_qType: uint16
    var m_qClass: uint16

    ghost predicate Valid()
      reads this
    {
      |m_name| <= m_nameLength < NAME_LIMIT
    }

    ghost function Value(): Question
      reads this
    {
      Question(m_reservedFlag, m_name, m_nameLength, m_qType, m_qClass)
    }

    constructor ()
      ensures Valid() && Value() == Question(2, [], 0, 0, 0)
    {
      m_reservedFlag, m_name, m_nameLength, m_qType, m_qClass := 2, [], 0, 0, 0;
    }

    method SetName(name: Bytes)
      requires |name| < NAME_LIMIT
      modifies `m_name, `m_nameLength
      ensures Valid() && Value() == old(Value()).(name := name, length := |name|)
    {
      m_name, m_nameLength := name, |name|;
    }

    method AddTo(packet: Bytes) returns (longer: Bytes)
      requires Valid()
      ensures longer == WriteQuestion(Value()) + packet
    {
      longer := WriteU32(LengthWord(m_reservedFlag, m_nameLength)) + CopyOf(m_name) +
                (WriteU16(m_qType) + WriteU16(m_qClass) + Zeros(m_nameLength - |m_name|)) + packet;
    }

    method RemoveFrom(packet: Bytes) returns (ok: bool, rest: Bytes)
      modifies this
      ensures ok <==> ReadQuestion(packet).Some?
      ensures ok ==> Valid() && (Value(), rest) == ReadQuestion(packet).value
    {
      if |packet| < 4 {
        return false, packet;
      }
      var temp: int := ReadU32(packet, 0);
      m_nameLength := temp % NAME_LIMIT;
      var n: int := 4 + temp % NAME_LIMIT;
      if |packet| < n + 4 {
        return false, packet;
      }
      m_reservedFlag := temp / NAME_LIMIT;
      m_name := CString(packet[4..n]);
      m_qType, m_qClass := ReadU16(packet, n), ReadU16(packet, n + 2);
      return true, packet[n + 4..];
    }
  }

  class DnsPlusAnswerSection {
    var m_reservedFlag: uint8
    var m_name: Bytes
    var m_nameLength: uint32
    var m_Type: uint16
    var m_Class: uint16
    var m_ttl: uint16
    var m_rdLength: uint16
    var m_rdData: uint32

    ghost predicate Valid()
      reads this
    {
      m_nameLength == |m_name| < NAME_LIMIT
    }

    ghost function Value(): Answer
      reads this
    {
      Answer(m_reservedFlag, m_name, m_Type, m_Class, m_ttl, m_rdLength, m_rdData)
    }

    constructor ()
      ensures Valid() && Value() == Answer(2, [], 0, 0, 255, 32, 0)
    {
      m_reservedFlag, m_name, m_nameLength, m_Type, m_Class := 2, [], 0, 0, 0;
      m_ttl, m_rdLength, m_rdData := 255, 32, 0;
    }

    method SetName(name: Bytes)
      requires |name| < NAME_LIMIT
      modifies `m_name, `m_nameLength
      ensures Valid() && Value() == old(Value()).(name := name)
    {
      m_name, m_nameLength := name, |name|;
    }

    method AddTo(packet: Bytes) returns (longer: Bytes)
      requires Valid()
      ensures longer == WriteAnswer(Value()) + packet
    {
      longer := WriteU32(LengthWord(m_reservedFlag, m_nameLength)) + CopyOf(m_name) +
                (WriteU16(m_Type) + WriteU16(m_Class) + WriteU16(m_ttl) + WriteU16(m_rdLength) +
                 WriteU32(m_rdData)) + packet;
    }

    method RemoveFrom(packet: Bytes) returns (ok: bool, rest: Bytes)
      modifies this
      ensures ok <==> ReadAnswer(packet).Some?
      ensures ok ==> (Value(), rest) == ReadAnswer(packet).value
    {
      if |packet| < 4 {
        return false, packet;
      }
      var temp: int := ReadU32(packet, 0);
      m_nameLength := temp % NAME_LIMIT;
      var n: int := 4 + temp % NAME_LIMIT;
      if |packet| < n + 12 {
        return false, packet;
      }
      m_reservedFlag := temp / NAME_LIMIT;
      m_name := CString(packet[4..n]);
      m_Type, m_Class := ReadU16(packet, n), ReadU16(packet, n + 2);
      m_ttl, m_rdLength, m_rdData := ReadU16(packet, n + 4), ReadU16(packet, n + 6), ReadU32(packet, n + 8);
      return true, packet[n + 12..];
    }
  }
}
