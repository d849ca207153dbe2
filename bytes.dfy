/** Bytes and the big-endian 32-bit integers (Go's `binary.BigEndian`)
    that the record header is made of. */
module Bytes {

  type byte = b: int | 0 <= b < 256

  const TWO_TO_THE_32: int := 0x1_0000_0000

  /** Go's `uint32`: the range of the header's integer fields. */
  type u32 = n: int | 0 <= n < TWO_TO_THE_32

  /** `n` zero bytes, what `make([]byte, n)` holds before anything is written. */
  function Zeros(n: nat): (z: seq<byte>)
    ensures |z| == n
    ensures forall i :: 0 <= i < n ==> z[i] == 0
  {
    seq(n, _ => 0)
  }

  /** The four bytes `binary.BigEndian.PutUint32` writes for `n`,
      most significant byte first. */
  function BE32(n: u32): (s: seq<byte>)
    ensures |s| == 4
  {
    [n / 0x100_0000, (n / 0x1_0000) % 0x100, (n / 0x100) % 0x100, n % 0x100]
  }

  /** The integer `binary.BigEndian.Uint32` reads from four bytes. */
  function FromBE32(s: seq<byte>): (n: u32)
    requires |s| == 4
  {
    (s[0] as int) * 0x100_0000 + (s[1] as int) * 0x1_0000 + (s[2] as int) * 0x100 + s[3] as int
  }

  /** Reading back what `PutUint32` wrote gives the same integer. */
  lemma {:induction false} FromBE32OfBE32(n: u32)
    ensures FromBE32(BE32(n)) == n
  {
    var s := BE32(n);
    var hi: int := n / 0x1_0000;
    var lo: int := n % 0x1_0000;
    assert n == hi * 0x1_0000 + lo;
    assert hi == (s[0] as int) * 0x100 + s[1] as int;
    assert lo == (s[2] as int) * 0x100 + s[3] as int;
  }

  /** Writing the integer read from four bytes reproduces those bytes:
      the encoding is a bijection between `u32` and 4-byte sequences. */
  lemma {:induction false} BE32OfFromBE32(s: seq<byte>)
    requires |s| == 4
    ensures BE32(FromBE32(s)) == s
  {
    var n: int := FromBE32(s);
    var hi := (s[0] as int) * 0x100 + s[1] as int;
    var lo := (s[2] as int) * 0x100 + s[3] as int;
    assert n == hi * 0x1_0000 + lo;
    assert n / 0x1_0000 == hi && n % 0x1_0000 == lo;
    assert n / 0x100_0000 == s[0];
    assert n / 0x100 == hi * 0x100 + s[2] as int;
    var t := BE32(n);
    assert t[0] == s[0] && t[1] == s[1] && t[2] == s[2] && t[3] == s[3];
  }

  /** Four bytes read as zero exactly when they are all zero: a length slot
      that nothing wrote reads as length 0, and only such a slot does. */
  lemma {:induction false} FromBE32ZeroIff(s: seq<byte>)
    requires |s| == 4
    ensures FromBE32(s) == 0 <==> s == Zeros(4)
  {
    if FromBE32(s) == 0 {
      BE32OfFromBE32(s);
      assert BE32(0) == Zeros(4);
    }
  }
}
