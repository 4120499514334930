/**
 The content hasher shared by the camera simulator and the face resolver.

 A frame is a grid of RGB triples, `face[y][x] == (r, g, b)`. Its digest is
 the 32-bit Fowler-Noll-Vo hash in its FNV-1a variant (xor the octet in,
 then multiply by the prime) over the channel bytes read row by row, left to
 right, red then green then blue, each channel reduced to its low eight bits
 (`v & 0xff`), and formatted as eight lowercase hexadecimal digits.

 The camera walks the frame's own dimensions; the resolver walks exactly the
 top-left 64 by 64 pixels, which is the same digest on the cropped frame.
 */
module FaceHash {
  import Hex

  type Pixel = (int, int, int)
  type Row = seq<Pixel>
  type Frame = seq<Row>
  type Digest = string

  const FnvOffset: bv32 := 0x811c9dc5
  const FnvPrime: bv32 := 0x01000193
  const ResolverRes: nat := 64

  /** `v & 0xff` on an integer channel value: its residue modulo 256. */
  function Byte(v: int): bv8 {
    (v % 256) as bv8
  }

  function PixelBytes(p: Pixel): seq<bv8> {
    [Byte(p.0), Byte(p.1), Byte(p.2)]
  }

  /** The channel bytes of a row, pixel by pixel. */
  function RowBytes(row: Row): (bs: seq<bv8>)
    ensures |bs| == 3 * |row|
  {
    if |row| == 0 then [] else RowBytes(row[..|row| - 1]) + PixelBytes(row[|row| - 1])
  }

  /** The channel bytes of a frame, row by row. */
  function FrameBytes(face: Frame): seq<bv8> {
    if |face| == 0 then [] else FrameBytes(face[..|face| - 1]) + RowBytes(face[|face| - 1])
  }

  /** One FNV-1a round: xor the octet in, then multiply by the prime modulo 2^32. */
  function Step(h: bv32, b: bv8): bv32 {
    (h ^ (b as bv32)) * FnvPrime
  }

  /** FNV-1a over a byte sequence, consumed front to back. */
  function Fnv1a(bytes: seq<bv8>): bv32 {
    if |bytes| == 0 then FnvOffset else Step(Fnv1a(bytes[..|bytes| - 1]), bytes[|bytes| - 1])
  }

  /** The camera's `hashFace`: every row of the frame, every pixel of the row. */
  function HashFace(face: Frame): (d: Digest)
    ensures |d| == 8
  {
    Hex.Hex8(Fnv1a(FrameBytes(face)) as nat)
  }

  /** The frame has at least `rows` rows, each of the first `rows` with at least `cols` pixels. */
  predicate Covers(face: Frame, rows: nat, cols: nat) {
    |face| >= rows && forall y :: 0 <= y < rows ==> |face[y]| >= cols
  }

  /** The top-left `rows` by `cols` block of a frame. */
  function Crop(face: Frame, rows: nat, cols: nat): (c: Frame)
    requires Covers(face, rows, cols)
    ensures |c| == rows
    ensures forall y :: 0 <= y < rows ==> c[y] == face[y][..cols]
  {
    seq(rows, y requires 0 <= y < rows => face[y][..cols])
  }

  /** The resolver's `hashFace`: reads rows 0..63 and columns 0..63 only.
      On a frame with fewer rows or shorter rows the source throws, hence the requires. */
  function HashFixed(face: Frame): (d: Digest)
    requires Covers(face, ResolverRes, ResolverRes)
    ensures |d| == 8
  {
    HashFace(Crop(face, ResolverRes, ResolverRes))
  }

  // ---------------------------------------------------------------------------
  // The two loops as written: nested row/column walks updating one accumulator.

  /** The inner loop of both copies: mix the first `cols` pixels of a row into
      the accumulator. */
  method MixRow(h0: bv32, row: Row, cols: nat, ghost prefix: seq<bv8>) returns (h: bv32)
    requires cols <= |row|
    requires h0 == Fnv1a(prefix)
    ensures h == Fnv1a(prefix + RowBytes(row[..cols]))
  {
    h := h0;
    var x := 0;
    assert RowBytes(row[..0]) == [];
    assert prefix + [] == prefix;
    while x < cols
      invariant 0 <= x <= cols
      invariant h == Fnv1a(prefix + RowBytes(row[..x]))
    {
      var (r, g, b) := row[x];
      h := Step(h, Byte(r));
      h := Step(h, Byte(g));
      h := Step(h, Byte(b));
      FnvPixel(prefix + RowBytes(row[..x]), row[x]);
      RowBytesSnoc(row, x);
      assert prefix + RowBytes(row[..x + 1]) == prefix + RowBytes(row[..x]) + PixelBytes(row[x]);
      x := x + 1;
    }
  }

  /** The camera's loop over the frame's actual dimensions. */
  method HashFaceLoop(face: Frame) returns (d: Digest)
    ensures d == HashFace(face)
  {
    var h := FnvOffset;
    var y := 0;
    while y < |face|
      invariant 0 <= y <= |face|
      invariant h == Fnv1a(FrameBytes(face[..y]))
    {
      var row := face[y];
      h := MixRow(h, row, |row|, FrameBytes(face[..y]));
      assert row[..|row|] == row;
      FrameBytesSnoc(face, y);
      y := y + 1;
    }
    assert face[..|face|] == face;
    d := Hex.Hex8(h as nat);
  }

  /** The resolver's loop: exactly 64 rows of exactly 64 pixels. */
  method HashFixedLoop(face: Frame) returns (d: Digest)
    requires Covers(face, ResolverRes, ResolverRes)
    ensures d == HashFixed(face)
  {
    ghost var c := Crop(face, ResolverRes, ResolverRes);
    var h := FnvOffset;
    var y := 0;
    while y < ResolverRes
      invariant 0 <= y <= ResolverRes
      invariant h == Fnv1a(FrameBytes(c[..y]))
    {
      var row := face[y];
      h := MixRow(h, row, ResolverRes, FrameBytes(c[..y]));
      assert row[..ResolverRes] == c[y];
      FrameBytesSnoc(c, y);
      y := y + 1;
    }
    assert c[..ResolverRes] == c;
    d := Hex.Hex8(h as nat);
  }

  // ---------------------------------------------------------------------------
  // Lemmas.

  /** A digest is `("00000000" + h.toString(16)).slice(-8)` of the unsigned
      FNV-1a accumulator over the frame's bytes: eight lowercase hexadecimal
      digits that parse back to the accumulator. */
  lemma HashFaceFormat(face: Frame)
    ensures HashFace(face) == Hex.Pad8(Hex.ToHex(Fnv1a(FrameBytes(face)) as nat))
    ensures Hex.IsLowerHex(HashFace(face))
    ensures Hex.ParseHex(HashFace(face)) == Fnv1a(FrameBytes(face)) as nat
  {
    Hex.Hex8Format(Fnv1a(FrameBytes(face)) as nat);
  }

  /** Two frames have the same digest exactly when their byte streams have the
      same FNV-1a accumulator. */
  lemma HashFaceCollision(f: Frame, g: Frame)
    ensures HashFace(f) == HashFace(g) <==> Fnv1a(FrameBytes(f)) as nat == Fnv1a(FrameBytes(g)) as nat
  {
    Hex.Hex8Injective(Fnv1a(FrameBytes(f)) as nat, Fnv1a(FrameBytes(g)) as nat);
  }

  /** The published 32-bit FNV-1a value for the one-octet input "a", and the
      accumulator of a one-pixel black frame. */
  lemma FnvTestVectors()
    ensures Fnv1a([0x61]) == 0xe40c292c
    ensures Fnv1a(FrameBytes([[(0, 0, 0)]])) == 0x4ab0f7b7
  {
    assert [0x61 as bv8][..0] == [];
    var face: Frame := [[(0, 0, 0)]];
    assert face[..0] == [] && face[0][..0] == [];
    var bs: seq<bv8> := [0, 0, 0];
    assert FrameBytes(face) == bs;
    assert bs[..2] == [0, 0] && bs[..2][..1] == [0] && bs[..2][..1][..0] == [];
    assert Step(FnvOffset, 0) == 0x050c5d1f;
    assert Step(0x050c5d1f, 0) == 0x117697cd;
    assert Step(0x117697cd, 0) == 0x4ab0f7b7;
  }

  lemma FnvSnoc(bs: seq<bv8>, b: bv8)
    ensures Fnv1a(bs + [b]) == Step(Fnv1a(bs), b)
  {
    assert (bs + [b])[..|bs|] == bs;
  }

  /** Hashing one more pixel is three more FNV rounds, red, green, blue. */
  lemma FnvPixel(bs: seq<bv8>, p: Pixel)
    ensures Fnv1a(bs + PixelBytes(p)) == Step(Step(Step(Fnv1a(bs), Byte(p.0)), Byte(p.1)), Byte(p.2))
  {
    FnvSnoc(bs, Byte(p.0));
    FnvSnoc(bs + [Byte(p.0)], Byte(p.1));
    FnvSnoc(bs + [Byte(p.0), Byte(p.1)], Byte(p.2));
    assert bs + [Byte(p.0)] + [Byte(p.1)] == bs + [Byte(p.0), Byte(p.1)];
    assert bs + [Byte(p.0), Byte(p.1)] + [Byte(p.2)] == bs + PixelBytes(p);
  }

  lemma RowBytesSnoc(row: Row, x: nat)
    requires x < |row|
    ensures RowBytes(row[..x + 1]) == RowBytes(row[..x]) + PixelBytes(row[x])
  {
    assert row[..x + 1][..x] == row[..x];
  }

  lemma FrameBytesSnoc(face: Frame, y: nat)
    requires y < |face|
    ensures FrameBytes(face[..y + 1]) == FrameBytes(face[..y]) + RowBytes(face[y])
  {
    assert face[..y + 1][..y] == face[..y];
  }

  /** An empty frame, or one whose rows are all empty, hashes to the offset basis. */
  lemma {:induction false} EmptyFrameHash(face: Frame)
    requires forall y :: 0 <= y < |face| ==> |face[y]| == 0
    ensures HashFace(face) == "811c9dc5"
  {
    EmptyRowsNoBytes(face);
    Hex.Hex8OffsetBasis();
  }

  lemma {:induction false} EmptyRowsNoBytes(face: Frame)
    requires forall y :: 0 <= y < |face| ==> |face[y]| == 0
    ensures FrameBytes(face) == []
  {
    if |face| > 0 {
      EmptyRowsNoBytes(face[..|face| - 1]);
    }
  }

  /** Two pixels whose channels agree modulo 256. */
  predicate SamePixelBytes(p: Pixel, q: Pixel) {
    (p.0 - q.0) % 256 == 0 && (p.1 - q.1) % 256 == 0 && (p.2 - q.2) % 256 == 0
  }

  /** Two frames of the same shape whose channels agree modulo 256. */
  predicate SameFrameBytes(f: Frame, g: Frame) {
    && |f| == |g|
    && (forall y :: 0 <= y < |f| ==> |f[y]| == |g[y]|)
    && (forall y, x :: 0 <= y < |f| && 0 <= x < |f[y]| ==> SamePixelBytes(f[y][x], g[y][x]))
  }

  /** The digest depends only on the shape and on each channel modulo 256. */
  lemma {:induction false} HashOnlyLowBits(f: Frame, g: Frame)
    requires SameFrameBytes(f, g)
    ensures HashFace(f) == HashFace(g)
  {
    FrameBytesLowBits(f, g);
  }

  lemma {:induction false} FrameBytesLowBits(f: Frame, g: Frame)
    requires SameFrameBytes(f, g)
    ensures FrameBytes(f) == FrameBytes(g)
  {
    if |f| > 0 {
      var n := |f| - 1;
      FrameBytesLowBits(f[..n], g[..n]);
      RowBytesLowBits(f[n], g[n]);
    }
  }

  lemma {:induction false} RowBytesLowBits(r: Row, s: Row)
    requires |r| == |s|
    requires forall x :: 0 <= x < |r| ==> SamePixelBytes(r[x], s[x])
    ensures RowBytes(r) == RowBytes(s)
  {
    if |r| > 0 {
      var n := |r| - 1;
      RowBytesLowBits(r[..n], s[..n]);
      ByteLowBits(r[n].0, s[n].0);
      ByteLowBits(r[n].1, s[n].1);
      ByteLowBits(r[n].2, s[n].2);
    }
  }

  lemma ByteLowBits(a: int, b: int)
    requires (a - b) % 256 == 0
    ensures Byte(a) == Byte(b)
  {
    assert a % 256 == b % 256;
  }

  /** On a frame of exactly 64 rows of 64 pixels, the resolver's digest and the
      camera's digest agree. */
  lemma FixedAgreesOnExactFrame(face: Frame)
    requires |face| == ResolverRes
    requires forall y :: 0 <= y < |face| ==> |face[y]| == ResolverRes
    ensures HashFixed(face) == HashFace(face)
  {
    var c := Crop(face, ResolverRes, ResolverRes);
    assert forall y :: 0 <= y < ResolverRes ==> c[y] == face[y];
    assert c == face;
  }

  /** The resolver ignores everything outside the top-left 64 by 64 block. */
  lemma FixedIgnoresOutside(f: Frame, g: Frame)
    requires Covers(f, ResolverRes, ResolverRes) && Covers(g, ResolverRes, ResolverRes)
    requires forall y, x :: 0 <= y < ResolverRes && 0 <= x < ResolverRes ==> f[y][x] == g[y][x]
    ensures HashFixed(f) == HashFixed(g)
  {
    var cf := Crop(f, ResolverRes, ResolverRes);
    var cg := Crop(g, ResolverRes, ResolverRes);
    forall y | 0 <= y < ResolverRes
      ensures cf[y] == cg[y]
    {
      assert forall x :: 0 <= x < ResolverRes ==> cf[y][x] == f[y][x] == g[y][x] == cg[y][x];
    }
    assert cf == cg;
  }
}
