/**
 The content hash as the JavaScript source computes it.

 Both copies of `hashFace` multiply the accumulator by the prime with an
 ordinary number multiplication, `h = (h * FNV_PRIME) >>> 0`. After
 `h ^= v & 0xff` the accumulator reads as a signed 32-bit value, so the
 exact product reaches up to about 2^55, beyond the 53 significant bits of
 a double. The product is therefore rounded before `>>> 0` keeps its low 32
 bits, and those low bits are exactly the ones rounding changes.

 This module writes that arithmetic out on exact integers (IEEE 754
 round-to-nearest, ties to even) and exhibits a frame whose digest departs
 from FNV-1a. The rest of the model uses exact FNV-1a (`FaceHash.HashFace`).
 */
module DoubleFnv {
  import opened FaceHash
  import Hex

  const Two31: int := 0x8000_0000
  const Two32: int := 0x1_0000_0000
  const Two53: int := 0x20_0000_0000_0000

  /** `x >>> 0` on an integer-valued number: its residue modulo 2^32. */
  function ToUint32(x: int): (r: nat)
    ensures r < Two32
    ensures (x - r) % Two32 == 0
  {
    x % Two32
  }

  /** `ToInt32`: the signed reading of the low 32 bits, which is what `^`
      leaves in `h`. */
  function ToInt32(x: int): (r: int)
    ensures -Two31 <= r < Two31
    ensures (x - r) % Two32 == 0
  {
    var u := x % Two32;
    if u >= Two31 then u - Two32 else u
  }

  function Pow2(e: nat): (p: nat)
    ensures p >= 1
  {
    if e == 0 then 1 else 2 * Pow2(e - 1)
  }

  /** How many low-order bits a double cannot hold for an integer of magnitude `m`. */
  function Dropped(m: nat): nat
    decreases m
  {
    if m < Two53 then 0 else 1 + Dropped(m / 2)
  }

  /** `m` rounded to a multiple of `q`, ties to the even multiple. */
  function RoundTiesEven(m: nat, q: nat): nat
    requires q >= 1
  {
    var rem := m % q;
    var down := m - rem;
    if 2 * rem < q || (2 * rem == q && (m / q) % 2 == 0) then down else down + q
  }

  /** The rounded value is no further than half of `q` from `m`, and is
      exact whenever `q` is 1. */
  lemma RoundNearest(m: nat, q: nat)
    requires q >= 1
    ensures 2 * (RoundTiesEven(m, q) - m) <= q
    ensures 2 * (m - RoundTiesEven(m, q)) <= q
    ensures q == 1 ==> RoundTiesEven(m, q) == m
  {
    var rem := m % q;
    assert 0 <= rem < q;
  }

  /** The number a double holds for the exact integer `n`. */
  function ToDouble(n: int): int {
    var m := if n >= 0 then n else -n;
    var r: int := RoundTiesEven(m, Pow2(Dropped(m)));
    if n >= 0 then r else -r
  }

  /** Integers below 2^53 in magnitude are held exactly. */
  lemma ToDoubleExact(n: int)
    requires -Two53 < n < Two53
    ensures ToDouble(n) == n
  {
    var m := if n >= 0 then n else -n;
    assert Dropped(m) == 0;
    assert Pow2(0) == 1;
  }

  /** Bitwise exclusive or of two non-negative integers. */
  function XorBits(a: nat, b: nat): nat
    decreases a + b
  {
    if a == 0 then b
    else if b == 0 then a
    else (a % 2 + b % 2) % 2 + 2 * XorBits(a / 2, b / 2)
  }

  /** `h ^ b` for a byte `b`: only the low eight bits of `h` take part. */
  function XorLow(h: nat, b: bv8): nat {
    h - h % 256 + XorBits(h % 256, b as nat)
  }

  /** One round as written: `h ^= v & 0xff; h = (h * FNV_PRIME) >>> 0`. */
  function JsStep(h: nat, b: bv8): (r: nat)
    ensures r < Two32
  {
    var x := ToInt32(XorLow(h, b));
    ToUint32(ToDouble(x * 0x01000193))
  }

  /** The accumulator as written, over a byte sequence consumed front to back. */
  function JsFnv(bytes: seq<bv8>): (h: nat)
    ensures h < Two32
  {
    if |bytes| == 0 then FnvOffset as nat else JsStep(JsFnv(bytes[..|bytes| - 1]), bytes[|bytes| - 1])
  }

  /** `hashFace` as written. */
  function JsHashFace(face: Frame): (d: Digest)
    ensures |d| == 8
  {
    Hex.Hex8(JsFnv(FrameBytes(face)))
  }

  /** Xoring in a zero byte leaves the accumulator as it is. */
  lemma XorZero(h: nat)
    ensures XorLow(h, 0) == h
  {
  }

  /** While the exact product stays below 2^53 in magnitude, a round is exact
      multiplication modulo 2^32. */
  lemma JsStepWhenExact(h: nat, b: bv8)
    requires -Two53 < ToInt32(XorLow(h, b)) * 0x01000193 < Two53
    ensures JsStep(h, b) == ToUint32(ToInt32(XorLow(h, b)) * 0x01000193)
  {
    ToDoubleExact(ToInt32(XorLow(h, b)) * 0x01000193);
  }

  lemma DroppedTwo()
    ensures Dropped(35716716020605665) == 2
  {
    assert Dropped(8929179005151416) == 0;
    assert Dropped(17858358010302832) == 1;
  }

  /** The first product is odd and lies between 2^54 and 2^55, where doubles
      are four apart, so it is rounded down by one. */
  lemma FirstProductRounds()
    ensures ToDouble(-35716716020605665) == -35716716020605664
  {
    DroppedTwo();
    assert Pow2(2) == 4;
    assert RoundTiesEven(35716716020605665, 4) == 35716716020605664;
  }

  /** Round one on a zero byte: rounded, and off by one from FNV-1a's 0x050c5d1f. */
  lemma JsRoundOne()
    ensures JsStep(0x811c9dc5, 0) == 0x050c5d20
  {
    XorZero(0x811c9dc5);
    assert ToInt32(0x811c9dc5) == -2128831035;
    assert -2128831035 * 0x01000193 == -35716716020605665;
    FirstProductRounds();
    assert ToUint32(-35716716020605664) == 0x050c5d20;
  }

  lemma JsRoundTwo()
    ensures JsStep(0x050c5d20, 0) == 0x12769960
  {
    XorZero(0x050c5d20);
    assert ToInt32(0x050c5d20) == 0x050c5d20;
    JsStepWhenExact(0x050c5d20, 0);
    assert ToUint32(0x050c5d20 * 0x01000193) == 0x12769960;
  }

  lemma JsRoundThree()
    ensures JsStep(0x12769960, 0) == 0x70b37220
  {
    XorZero(0x12769960);
    assert ToInt32(0x12769960) == 0x12769960;
    JsStepWhenExact(0x12769960, 0);
    assert ToUint32(0x12769960 * 0x01000193) == 0x70b37220;
  }

  /** The three channel bytes of a one-pixel frame. */
  lemma OnePixelBytes(r: int, g: int, b: int)
    ensures FrameBytes([[(r, g, b)]]) == [Byte(r), Byte(g), Byte(b)]
  {
    var face: Frame := [[(r, g, b)]];
    assert face[..0] == [];
    assert face[0][..0] == [];
  }

  /** The source's accumulator over three zero bytes. */
  lemma JsThreeZeros()
    ensures JsFnv([0, 0, 0]) == 0x70b37220
  {
    var one: seq<bv8> := [0];
    var two: seq<bv8> := [0, 0];
    var three: seq<bv8> := [0, 0, 0];
    assert one[..0] == [] && two[..1] == one && three[..2] == two;
    JsRoundOne();
    assert JsFnv(one) == 0x050c5d20;
    JsRoundTwo();
    assert JsFnv(two) == JsStep(JsFnv(one), 0) == 0x12769960;
    JsRoundThree();
    assert JsFnv(three) == JsStep(JsFnv(two), 0);
  }

  /** A frame of one black pixel: the source computes "70b37220", where FNV-1a
      gives "4ab0f7b7". */
  lemma BlackPixelDiverges()
    ensures JsFnv(FrameBytes([[(0, 0, 0)]])) == 0x70b37220
    ensures Fnv1a(FrameBytes([[(0, 0, 0)]])) as nat == 0x4ab0f7b7
    ensures JsHashFace([[(0, 0, 0)]]) != HashFace([[(0, 0, 0)]])
  {
    OnePixelBytes(0, 0, 0);
    assert Byte(0) == 0;
    JsThreeZeros();
    FnvTestVectors();
    var e := Fnv1a(FrameBytes([[(0, 0, 0)]]));
    assert e as nat == 0x4ab0f7b7;
    Hex.Hex8Injective(0x70b37220, 0x4ab0f7b7);
  }
}
