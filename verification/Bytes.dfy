/** Results, fixed-width integers, little-endian words, byte-range copies and bits of a byte. */
module Outcomes {
  datatype Option<+T> = None | Some(value: T)

  datatype Result<+T, +E> = Ok(value: T) | Err(error: E) {
    predicate IsFailure() {
      Err?
    }

    function PropagateFailure<U>(): Result<U, E>
      requires Err?
    {
      Err(error)
    }

    function Extract(): T
      requires Ok?
    {
      value
    }
  }
}

module Bytes {
  type byte = b: int | 0 <= b < 256
  type u32 = x: int | 0 <= x < 0x1_0000_0000
  type i32 = x: int | -0x8000_0000 <= x < 0x8000_0000

  /** One past the largest machine word. */
  const USIZE_LIMIT := 0x1_0000_0000_0000_0000

  // ---- casts between u32 and i32: both keep the 32 bits

  function AsI32(x: u32): i32 {
    if x < 0x8000_0000 then x else x - 0x1_0000_0000
  }

  function AsU32(x: i32): u32 {
    if x >= 0 then x else x + 0x1_0000_0000
  }

  // ---- little-endian words

  function EncodeU32(x: u32): (s: seq<byte>)
    ensures |s| == 4
  {
    [x % 256, (x / 0x100) % 256, (x / 0x1_0000) % 256, x / 0x100_0000]
  }

  function DecodeU32(s: seq<byte>): u32
    requires |s| == 4
  {
    s[0] as int + 0x100 * s[1] as int + 0x1_0000 * s[2] as int + 0x100_0000 * s[3] as int
  }

  function EncodeI32(x: i32): (s: seq<byte>)
    ensures |s| == 4
  {
    EncodeU32(AsU32(x))
  }

  function DecodeI32(s: seq<byte>): i32
    requires |s| == 4
  {
    AsI32(DecodeU32(s))
  }

  lemma U32RoundTrip(x: u32)
    ensures DecodeU32(EncodeU32(x)) == x
  {
    var a, b, c := x / 0x100, x / 0x1_0000, x / 0x100_0000;
    assert a / 0x100 == b && b / 0x100 == c;
    assert c < 256;
  }

  lemma U32Unique(s: seq<byte>)
    requires |s| == 4
    ensures EncodeU32(DecodeU32(s)) == s
  {
    var x := DecodeU32(s);
    assert x / 0x100 == s[1] as int + 0x100 * s[2] as int + 0x1_0000 * s[3] as int;
    assert x / 0x1_0000 == s[2] as int + 0x100 * s[3] as int;
    assert x / 0x100_0000 == s[3];
  }

  /** The number that bytes stand for, the least significant first. */
  function LittleValue(s: seq<byte>): nat {
    if s == [] then 0 else s[0] + 256 * LittleValue(s[1..])
  }

  /** Words are little-endian: the first byte is the least significant. */
  lemma WordsAreLittleEndian(s: seq<byte>)
    requires |s| == 4
    ensures DecodeU32(s) == LittleValue(s)
  {
    assert s[1..][1..] == s[2..] && s[2..][1..] == s[3..] && s[3..][1..] == [];
    assert LittleValue(s[3..]) == s[3];
    assert LittleValue(s[2..]) == s[2] + 256 * LittleValue(s[3..]);
    assert LittleValue(s[1..]) == s[1] + 256 * LittleValue(s[2..]);
  }

  lemma I32RoundTrip(x: i32)
    ensures DecodeI32(EncodeI32(x)) == x
  {
    U32RoundTrip(AsU32(x));
  }

  lemma I32Unique(s: seq<byte>)
    requires |s| == 4
    ensures EncodeI32(DecodeI32(s)) == s
  {
    U32Unique(s);
  }

  // ---- copies into a byte range

  function Zeros(n: nat): (s: seq<byte>)
    ensures |s| == n && forall i :: 0 <= i < n ==> s[i] == 0
  {
    seq(n, i => 0)
  }

  /** s with the bytes from `at` on overwritten by part. */
  function Splice(s: seq<byte>, at: nat, part: seq<byte>): (r: seq<byte>)
    requires at + |part| <= |s|
    ensures |r| == |s|
  {
    s[..at] + part + s[at + |part|..]
  }

  lemma SpliceSame(s: seq<byte>, at: nat, part: seq<byte>)
    requires at + |part| <= |s|
    ensures Splice(s, at, part)[at..at + |part|] == part
  {
  }

  lemma SpliceOther(s: seq<byte>, at: nat, part: seq<byte>, lo: nat, hi: nat)
    requires at + |part| <= |s| && lo <= hi <= |s|
    requires hi <= at || at + |part| <= lo
    ensures Splice(s, at, part)[lo..hi] == s[lo..hi]
  {
  }

  // ---- bits of a byte

  function Mask(k: nat): bv8
    requires k < 8
  {
    1 as bv8 << k
  }

  predicate Bit(b: byte, k: nat)
    requires k < 8
  {
    (b as bv8) & Mask(k) != 0
  }

  function PutBitBv(b: bv8, k: nat, on: bool): bv8
    requires k < 8
  {
    if on then b | Mask(k) else b & !Mask(k)
  }

  function PutBit(b: byte, k: nat, on: bool): byte
    requires k < 8
  {
    PutBitBv(b as bv8, k, on) as int
  }

  lemma PutBitBvAt(b: bv8, k: nat, on: bool, j: nat)
    requires k < 8 && j < 8
    ensures (PutBitBv(b, k, on) & Mask(j) != 0) == if j == k then on else b & Mask(j) != 0
  {
  }

  lemma BvThroughInt(x: bv8)
    ensures (x as int) as bv8 == x
  {
  }

  /** Writing one bit changes that bit and no other. */
  lemma PutBitAt(b: byte, k: nat, on: bool, j: nat)
    requires k < 8 && j < 8
    ensures Bit(PutBit(b, k, on), j) == if j == k then on else Bit(b, j)
  {
    BvThroughInt(PutBitBv(b as bv8, k, on));
    PutBitBvAt(b as bv8, k, on, j);
  }

  lemma FullByte(j: nat)
    requires j < 8
    ensures Bit(0xFF, j)
  {
    assert (0xFF as bv8) == 255;
    assert 255 & Mask(j) != 0;
  }
}
