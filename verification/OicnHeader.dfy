/** The sublayer header between transport and application data. */
module OicnHeader {
  import opened Basics
  import opened Wire

  datatype Kind = Request | NonCachable | Cachable

  const CACHABLE_START: uint32 := 4026531840
  const NON_CACHABLE_START: uint32 := 2952790016
  const REQUEST_START: uint32 := 805306368

  function Start(k: Kind): uint32 {
    match k
    case Request => REQUEST_START
    case NonCachable => NON_CACHABLE_START
    case Cachable => CACHABLE_START
  }

  function FirstWord(k: Kind, length: uint32): uint32 {
    Low32(Start(k) + length)
  }

  /** The length read off a first word; a word no kind starts below leaves the length as it was. */
  function LengthOf(word: uint32, before: uint32): uint32 {
    if word > CACHABLE_START then word - CACHABLE_START
    else if word > NON_CACHABLE_START then word - NON_CACHABLE_START
    else if word > REQUEST_START then word - REQUEST_START
    else before
  }

  /** The longest header whose length is still told apart from its kind. */
  function Limit(k: Kind): uint32 {
    match k
    case Request => 0x8000_0000
    case NonCachable => 0x4000_0000
    case Cachable => 0x0FFF_FFFF
  }

  /** Kind and length both come back from the first word exactly up to the limit of the kind. */
  lemma KindAndLengthExactly(k: Kind, length: uint32)
    requires length >= 4
    ensures LengthOf(FirstWord(k, length), 0) == length <==> length <= Limit(k)
    ensures length <= Limit(k) ==> FirstWord(k, length) - LengthOf(FirstWord(k, length), 0) == Start(k)
  {}

  /** Headers of different kinds never share a first word as long as lengths fit 28 bits. */
  lemma KindsApart(j: Kind, k: Kind, m: uint32, n: uint32)
    requires 4 <= m < 0x1000_0000 && 4 <= n < 0x1000_0000
    ensures FirstWord(j, m) == FirstWord(k, n) <==> j == k && m == n
  {}

  // ----- The header on the wire -----

  datatype Oicn = Oicn(name: Bytes, length: uint32, word: uint32)

  function Named(name: Bytes, k: Kind): Oicn {
    Oicn(name, Low32(|name| + 4), FirstWord(k, Low32(|name| + 4)))
  }

  /** The header length decides how many bytes a header takes; what the name leaves over is zero. */
  function Write(h: Oicn): Bytes
    requires |h.name| + 4 <= h.length
  {
    WriteU32(h.word) + (CopyOf(h.name) + Zeros(h.length - |h.name| - 4))
  }

  /** The header at the front of `b` and what follows it; None where the code would read past the
      end of the buffer or compute a negative name length. */
  function Read(b: Bytes): Option<(Oicn, Bytes)> {
    if |b| < 4 then None
    else
      var word := ReadU32(b, 0);
      var length := LengthOf(word, 0);
      if length < 4 || |b| < length then None
      else Some((Oicn(CString(b[4..length]), length, word), b[length..]))
  }

  /** The four bits in front of the length. */
  function Nibble(k: Kind): nat {
    match k
    case Request => 0x3
    case NonCachable => 0xB
    case Cachable => 0xF
  }

  /** How a header looks: the bits of its kind and its length in one word, then the name. */
  lemma NamedLayout(name: Bytes, k: Kind, rest: Bytes)
    requires 0 !in name && |name| + 4 < 0x1000_0000
    ensures var b := Write(Named(name, k)) + rest;
            && |b| == 4 + |name| + |rest|
            && ReadU32(b, 0) == Nibble(k) * 0x1000_0000 + 4 + |name|
            && b[4..4 + |name|] == name
  {
    WrittenNamed(name, k);
    CStringExactly(name);
    U32Front(Named(name, k).word, name, rest);
  }

  /** Reading back what was written: kind and length always, the name up to its first NUL. */
  lemma ReadWritten(name: Bytes, k: Kind, rest: Bytes)
    requires |name| + 4 <= Limit(k)
    ensures Named(name, k).length == |name| + 4
    ensures Read(Write(Named(name, k)) + rest) == Some((Named(name, k).(name := CString(name)), rest))
    ensures Named(name, k).(name := CString(name)) == Named(name, k) <==> 0 !in name
  {
    KindAndLengthExactly(k, |name| + 4);
    WrittenNamed(name, k);
    BodyBack(Named(name, k).word, CopyOf(name), rest);
    CStringExactly(name);
  }

  lemma WrittenNamed(name: Bytes, k: Kind)
    requires |name| + 4 < 0x1_0000_0000
    ensures Write(Named(name, k)) == WriteU32(Named(name, k).word) + CopyOf(name)
  {
    assert Zeros(0) == [];
    assert CopyOf(name) + [] == CopyOf(name);
  }

  lemma BodyBack(word: uint32, body: Bytes, rest: Bytes)
    requires LengthOf(word, 0) == |body| + 4
    ensures Read(WriteU32(word) + body + rest) == Some((Oicn(CString(body), |body| + 4, word), rest))
  {
    U32Front(word, body, rest);
  }

  // ----- The header object -----

  class OicnHeader {
    var m_name: Bytes
    var header_length: uint32
    var first4bytes: uint32

    ghost function Value(): Oicn
      reads this
    {
      Oicn(m_name, header_length, first4bytes)
    }

    constructor ()
      ensures Value() == Oicn([], 0, 0)
    {
      m_name, header_length, first4bytes := [], 0, 0;
    }

    method SetName(name: Bytes)
      modifies this
      ensures Value() == Oicn(name, Low32(|name| + 4), old(first4bytes))
    {
      m_name := name;
      header_length := Low32(|name| + 4);
    }

    method SetFirst4Bytes(length: uint32, reply: bool, cachable: bool)
      modifies `first4bytes
      ensures first4bytes ==
              FirstWord(if !reply then Request else if cachable then Cachable else NonCachable, length)
    {
      if reply {
        if cachable {
          first4bytes := Low32(CACHABLE_START + length);
        } else {
          first4bytes := Low32(NON_CACHABLE_START + length);
        }
      } else {
        first4bytes := Low32(REQUEST_START + length);
      }
    }

    method SetRequest()
      modifies `first4bytes
      ensures first4bytes == FirstWord(Request, header_length)
    {
      SetFirst4Bytes(header_length, false, false);
    }

    method SetCachable()
      modifies `first4bytes
      ensures first4bytes == FirstWord(Cachable, header_length)
    {
      SetFirst4Bytes(header_length, true, true);
    }

    method SetNonCachable()
      modifies `first4bytes
      ensures first4bytes == FirstWord(NonCachable, header_length)
    {
      SetFirst4Bytes(header_length, true, false);
    }

    /** Puts the header in front of a packet. */
    method AddTo(packet: Bytes) returns (longer: Bytes)
      requires |m_name| + 4 <= header_length
      ensures longer == Write(Value()) + packet
    {
      longer := WriteU32(first4bytes) + (CopyOf(m_name) + Zeros(header_length - |m_name| - 4)) + packet;
    }

    /** Takes the header off the front of a packet. */
    method RemoveFrom(packet: Bytes) returns (ok: bool, rest: Bytes)
      requires header_length == 0
      modifies this
      ensures ok <==> Read(packet).Some?
      ensures if ok then (Value(), rest) == Read(packet).value else rest == packet
      ensures ok ==> |m_name| + 4 <= header_length
    {
      rest := packet;
      if |packet| < 4 {
        return false, packet;
      }
      first4bytes := ReadU32(packet, 0);
      if first4bytes > CACHABLE_START {
        header_length := first4bytes - CACHABLE_START;
      } else if first4bytes > NON_CACHABLE_START {
        header_length := first4bytes - NON_CACHABLE_START;
      } else if first4bytes > REQUEST_START {
        header_length := first4bytes - REQUEST_START;
      }
      if header_length < 4 || |packet| < header_length {
        return false, packet;
      }
      m_name := CString(packet[4..header_length]);
      return true, packet[header_length..];
    }
  }
}
