/** Machine-level types shared by the backend and the attribute store:
    unsigned 8- and 32-bit integers, C's wrap-around arithmetic on uint32_t,
    and the little-endian layout of a uint32_t in memory. */
module Base {

  /** uint8_t */
  newtype byte = b: int | 0 <= b < 0x100

  /** uint32_t */
  newtype u32 = x: int | 0 <= x < 0x1_0000_0000

  const U32_MOD: int := 0x1_0000_0000

  datatype Option<T> = None | Some(value: T)

  /** The value C stores in a uint32_t when it is assigned the integer `x`: `x` modulo 2^32. */
  function Wrap32(x: int): (r: u32)
    ensures 0 <= x < U32_MOD ==> r as int == x
    ensures U32_MOD <= x < 2 * U32_MOD ==> r as int == x - U32_MOD
    ensures -U32_MOD <= x < 0 ==> r as int == x + U32_MOD
  {
    (x % U32_MOD) as u32
  }

  /** `t += n` followed by `t -= n` on a uint32_t gives `t` back, even when the addition wraps. */
  lemma AddThenSubtract(t: u32, n: byte)
    ensures Wrap32(Wrap32(t as int + n as int) as int - n as int) == t
  {
    var s := Wrap32(t as int + n as int);
    if t as int + n as int < U32_MOD {
      assert s as int - n as int == t as int;
    } else {
      assert s as int - n as int == t as int - U32_MOD;
    }
  }

  function Zeros(n: nat): (z: seq<byte>)
    ensures |z| == n && forall k :: 0 <= k < n ==> z[k] == 0
  {
    seq(n, _ => 0)
  }

  function Pow256(k: nat): (p: nat)
    ensures p > 0
  {
    if k == 0 then 1 else 256 * Pow256(k - 1)
  }

  lemma Pow256Four()
    ensures Pow256(4) == U32_MOD
  {
    assert Pow256(1) == 256;
    assert Pow256(2) == 0x1_0000;
    assert Pow256(3) == 0x100_0000;
  }

  /** The `width` bytes of `x` in memory, least significant first. */
  function LittleEndian(x: nat, width: nat): (bs: seq<byte>)
    ensures |bs| == width
  {
    if width == 0 then [] else [(x % 256) as byte] + LittleEndian(x / 256, width - 1)
  }

  /** The number whose little-endian bytes are `bs`. */
  function FromLittleEndian(bs: seq<byte>): (x: nat)
    ensures x < Pow256(|bs|)
  {
    if bs == [] then 0 else bs[0] as nat + 256 * FromLittleEndian(bs[1..])
  }

  lemma {:induction false} LittleEndianRoundTrip(x: nat, width: nat)
    requires x < Pow256(width)
    ensures FromLittleEndian(LittleEndian(x, width)) == x
  {
    if width > 0 {
      var bs := LittleEndian(x, width);
      assert bs[1..] == LittleEndian(x / 256, width - 1);
      LittleEndianRoundTrip(x / 256, width - 1);
    }
  }

  lemma {:induction false} FromLittleEndianZeros(n: nat)
    ensures FromLittleEndian(Zeros(n)) == 0
  {
    if n > 0 {
      assert Zeros(n)[1..] == Zeros(n - 1);
      FromLittleEndianZeros(n - 1);
    }
  }

  lemma {:induction false} LittleEndianZero(width: nat)
    ensures LittleEndian(0, width) == Zeros(width)
  {
    if width > 0 {
      LittleEndianZero(width - 1);
      assert Zeros(width) == [0] + Zeros(width - 1);
    }
  }

  /** The four bytes of a uint32_t in memory. */
  function U32Bytes(x: u32): (bs: seq<byte>)
    ensures |bs| == 4
  {
    LittleEndian(x as nat, 4)
  }

  /** The uint32_t whose four bytes in memory are `bs`. */
  function U32Of(bs: seq<byte>): u32
    requires |bs| == 4
  {
    Pow256Four();
    FromLittleEndian(bs) as u32
  }

  lemma U32RoundTrip(x: u32)
    ensures U32Of(U32Bytes(x)) == x
  {
    Pow256Four();
    LittleEndianRoundTrip(x as nat, 4);
  }
}
