/** Machine integers, byte images of 16- and 32-bit values, and Rust's `as` casts. */
module Bytes {

  type u8 = x: int | 0 <= x < 0x100
  type u16 = x: int | 0 <= x < 0x1_0000
  type u32 = x: int | 0 <= x < 0x1_0000_0000
  type i32 = x: int | -0x8000_0000 <= x < 0x8000_0000
  /** `usize` of a 64-bit target. */
  type usize = x: int | 0 <= x < 0x1_0000_0000_0000_0000

  /** Byte order of the host's native integers. */
  datatype Endian = Little | Big

  /** Big-endian (network order) decoding of two bytes. */
  function FromBe16(b: seq<u8>): u16
    requires |b| == 2
  {
    b[0] as int * 0x100 + b[1]
  }

  /** The memory image of `x.to_be()`: the same on every host. */
  function BeBytes16(x: u16): (r: seq<u8>)
    ensures |r| == 2 && FromBe16(r) == x
  {
    [x / 0x100, x % 0x100]
  }

  function FromLe16(b: seq<u8>): u16
    requires |b| == 2
  {
    b[1] as int * 0x100 + b[0]
  }

  function LeBytes16(x: u16): (r: seq<u8>)
    ensures |r| == 2 && FromLe16(r) == x
  {
    [x % 0x100, x / 0x100]
  }

  /** The memory image of a `u16` stored without conversion on a host of byte order `host`. */
  function NativeBytes16(host: Endian, x: u16): (r: seq<u8>)
    ensures |r| == 2 && FromNative16(host, r) == x
  {
    match host
    case Little => LeBytes16(x)
    case Big => BeBytes16(x)
  }

  function FromNative16(host: Endian, b: seq<u8>): u16
    requires |b| == 2
  {
    match host
    case Little => FromLe16(b)
    case Big => FromBe16(b)
  }

  /** Two bytes are determined by the 16-bit value they encode, in either byte order. */
  lemma FromNative16Injective(host: Endian, a: seq<u8>, b: seq<u8>)
    requires |a| == 2 && |b| == 2
    requires FromNative16(host, a) == FromNative16(host, b)
    ensures a == b
  {
    match host
    case Big =>
      assert a[0] == FromBe16(a) / 0x100 && a[1] == FromBe16(a) % 0x100;
      assert b[0] == FromBe16(b) / 0x100 && b[1] == FromBe16(b) % 0x100;
    case Little =>
      assert a[1] == FromLe16(a) / 0x100 && a[0] == FromLe16(a) % 0x100;
      assert b[1] == FromLe16(b) / 0x100 && b[0] == FromLe16(b) % 0x100;
  }

  /** The memory image of an array of `u16`s, each stored without conversion in byte order
      `host`. */
  function Words(host: Endian, xs: seq<u16>): seq<u8> {
    if |xs| == 0 then [] else NativeBytes16(host, xs[0]) + Words(host, xs[1..])
  }

  /** Word `i` of the array occupies bytes `2i` and `2i+1` of its image. */
  lemma {:induction false} WordsLayout(host: Endian, xs: seq<u16>)
    ensures |Words(host, xs)| == 2 * |xs|
    ensures forall i :: 0 <= i < |xs| ==> Words(host, xs)[2 * i..2 * i + 2] == NativeBytes16(host, xs[i])
    decreases |xs|
  {
    if |xs| > 0 {
      WordsLayout(host, xs[1..]);
      var head := NativeBytes16(host, xs[0]);
      var rest := Words(host, xs[1..]);
      assert Words(host, xs) == head + rest;
      forall i | 0 <= i < |xs| ensures (head + rest)[2 * i..2 * i + 2] == NativeBytes16(host, xs[i]) {
        if i > 0 {
          assert (head + rest)[2 * i..2 * i + 2] == rest[2 * (i - 1)..2 * (i - 1) + 2];
          assert xs[1..][i - 1] == xs[i];
        }
      }
    }
  }

  /** Big-endian decoding of four bytes: the first byte is the most significant. */
  function FromBe32(b: seq<u8>): u32
    requires |b| == 4
  {
    b[0] as int * 0x100_0000 + b[1] as int * 0x1_0000 + b[2] as int * 0x100 + b[3]
  }

  /** The memory image of `x.to_be()` for a `u32`: the high half first, each half big-endian. */
  function BeBytes32(x: u32): (r: seq<u8>)
    ensures |r| == 4 && FromBe32(r) == x
  {
    var r := BeBytes16(x / 0x1_0000) + BeBytes16(x % 0x1_0000);
    assert FromBe32(r) == FromBe16(r[..2]) * 0x1_0000 + FromBe16(r[2..]);
    r
  }

  /** Four bytes are determined by the 32-bit value they encode big-endian. */
  lemma FromBe32Injective(a: seq<u8>, b: seq<u8>)
    requires |a| == 4 && |b| == 4
    requires FromBe32(a) == FromBe32(b)
    ensures a == b
  {
    var v := FromBe32(a);
    assert v == FromBe16(a[..2]) * 0x1_0000 + FromBe16(a[2..]);
    assert v == FromBe16(b[..2]) * 0x1_0000 + FromBe16(b[2..]);
    assert FromBe16(a[..2]) == v / 0x1_0000 == FromBe16(b[..2]);
    assert FromBe16(a[2..]) == v % 0x1_0000 == FromBe16(b[2..]);
    FromNative16Injective(Big, a[..2], b[..2]);
    FromNative16Injective(Big, a[2..], b[2..]);
    assert a == a[..2] + a[2..] && b == b[..2] + b[2..];
  }

  /** `x as i32`: keeps the low 32 bits and reads them as two's complement. */
  function AsI32(x: int): (r: i32)
    ensures (x - r) % 0x1_0000_0000 == 0
    ensures -0x8000_0000 <= x < 0x8000_0000 ==> r == x
  {
    var m := x % 0x1_0000_0000;
    if m < 0x8000_0000 then m else m - 0x1_0000_0000
  }

  /** `x as u32`: keeps the low 32 bits. */
  function AsU32(x: int): (r: u32)
    ensures (x - r) % 0x1_0000_0000 == 0
    ensures 0 <= x < 0x1_0000_0000 ==> r == x
  {
    x % 0x1_0000_0000
  }

  /** `x as usize` on a 64-bit target: sign-extends, then reads the bits unsigned. */
  function AsUsize(x: i32): (r: usize)
    ensures x >= 0 ==> r == x
    ensures x < 0 ==> r >= 0x1_0000_0000_0000_0000 - 0x8000_0000
  {
    if x >= 0 then x else 0x1_0000_0000_0000_0000 + x
  }

  /** A `u32` survives the round trip through `as i32` and back through `as u32`. */
  lemma U32ThroughI32(x: u32)
    ensures AsU32(AsI32(x)) == x
  {
  }

  function Zeros(n: nat): (r: seq<u8>)
    ensures |r| == n && forall i :: 0 <= i < n ==> r[i] == 0
  {
    seq(n, i => 0)
  }
}
