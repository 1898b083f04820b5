/** Big-endian integers and C strings in packet buffers. */
module Wire {
  import opened Basics

  function WriteU16(n: uint16): (b: Bytes)
    ensures |b| == 2
  {
    [n / 0x100, n % 0x100]
  }

  function WriteU32(n: uint32): (b: Bytes)
    ensures |b| == 4
  {
    WriteU16(n / 0x1_0000) + WriteU16(n % 0x1_0000)
  }

  function ReadU16(b: Bytes, at: nat): uint16
    requires at + 2 <= |b|
  {
    var high: int, low: int := b[at], b[at + 1];
    high * 0x100 + low
  }

  function ReadU32(b: Bytes, at: nat): uint32
    requires at + 4 <= |b|
  {
    var high: int, low: int := ReadU16(b, at), ReadU16(b, at + 2);
    high * 0x1_0000 + low
  }

  /** A word in front of a body and a rest. */
  lemma U32Front(n: uint32, body: Bytes, rest: Bytes)
    ensures var b := WriteU32(n) + body + rest;
            && ReadU32(b, 0) == n
            && b[4..4 + |body|] == body
            && b[4 + |body|..] == rest
  {}

  /** The characters up to the first NUL. */
  function CString(b: Bytes): (s: Bytes)
    ensures s <= b && 0 !in s
    ensures |s| < |b| ==> b[|s|] == 0
  {
    if b == [] || b[0] == 0 then [] else [b[0]] + CString(b[1..])
  }

  function Zeros(n: nat): (z: Bytes)
    ensures |z| == n && forall i | 0 <= i < n :: z[i] == 0
  {
    seq(n, i => 0)
  }

  /** What copying a string as a C string into a zeroed buffer of its size leaves there. */
  function CopyOf(s: Bytes): (b: Bytes)
    ensures |b| == |s|
  {
    CString(s) + Zeros(|s| - |CString(s)|)
  }

  /** The string up to its first NUL, and zeros to its size. */
  lemma CopyOfExactly(s: Bytes)
    ensures CString(s) <= CopyOf(s)
    ensures forall i | |CString(s)| <= i < |s| :: CopyOf(s)[i] == 0
  {}

  lemma {:induction false} FirstNul(b: Bytes, s: Bytes)
    requires s <= b && 0 !in s && (|s| < |b| ==> b[|s|] == 0)
    ensures CString(b) == s
  {}

  lemma CStringExactly(s: Bytes)
    ensures CString(s) == s <==> 0 !in s
    ensures 0 !in s ==> CopyOf(s) == s
    ensures CString(CopyOf(s)) == CString(s)
  {
    if |CString(s)| < |s| {
      assert s[|CString(s)|] == 0;
    }
    FirstNul(CopyOf(s), CString(s));
  }
}
