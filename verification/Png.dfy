/**
  `png_crc32` and `png_dimensions`: the checksum of section 5.5 and the header
  checks of sections 5.2, 5.3 and 11.2.2 of the PNG Specification. A `u32` that
  the code shifts and combines bitwise is modelled by its 32 bits, least
  significant first.
 */
module Png {
  import opened Common
  import opened Gf2

  /** The `n` low bits of `x`, least significant first. */
  function BitsOf(x: nat, n: nat): (p: Poly)
    ensures |p| == n
  {
    if n == 0 then [] else [x % 2 == 1] + BitsOf(x / 2, n - 1)
  }

  lemma {:induction false} BitsInjective(x: nat, y: nat, n: nat)
    requires x < Power2(n) && y < Power2(n) && BitsOf(x, n) == BitsOf(y, n)
    ensures x == y
  {
    if n > 0 {
      assert BitsOf(x, n)[0] == BitsOf(y, n)[0];
      assert BitsOf(x / 2, n - 1) == BitsOf(x, n)[1..] == BitsOf(y, n)[1..] == BitsOf(y / 2, n - 1);
      BitsInjective(x / 2, y / 2, n - 1);
    }
  }

  function Power2(n: nat): nat {
    if n == 0 then 1 else 2 * Power2(n - 1)
  }

  /** The constant of the bit loop. */
  const POLYNOMIAL := 0xEDB8_8320

  /** The exponents of the generator of section 5.5 below its leading x^32. */
  predicate IsExponent(e: int) {
    e in {26, 23, 22, 16, 12, 11, 10, 8, 7, 5, 4, 2, 1, 0}
  }

  function Generator32(): (g: Poly)
    ensures |g| == 32
  {
    seq(32, i => IsExponent(31 - i))
  }

  /** 1 when x^(31 - i) is a term of the generator. */
  function Coefficient(i: nat): (b: nat)
    ensures b < 2
  {
    if IsExponent(31 - i) then 1 else 0
  }

  /** The number whose bits from `i` on are the generator's coefficients from x^(31 - i) down. */
  function GeneratorNumber(i: nat): nat
    requires i <= 32
    decreases 32 - i
  {
    if i == 32 then 0 else Coefficient(i) + 2 * GeneratorNumber(i + 1)
  }

  lemma {:induction false} GeneratorNumberBits(i: nat, j: nat)
    requires i + j < 32
    ensures BitsOf(GeneratorNumber(i), 32 - i)[j] == IsExponent(31 - i - j)
    decreases 32 - i
  {
    FirstBit(i);
    if j > 0 {
      GeneratorNumberBits(i + 1, j - 1);
    }
  }

  lemma FirstBit(i: nat)
    requires i < 32
    ensures BitsOf(GeneratorNumber(i), 32 - i) == [IsExponent(31 - i)] + BitsOf(GeneratorNumber(i + 1), 31 - i)
  {
    PutBit(GeneratorNumber(i), Coefficient(i), GeneratorNumber(i + 1), 31 - i);
  }

  lemma PutBit(x: nat, b: nat, y: nat, n: nat)
    requires b < 2 && x == b + 2 * y
    ensures BitsOf(x, n + 1) == [b == 1] + BitsOf(y, n)
  {
    assert x / 2 == y && x % 2 == b;
  }

  lemma FourBits(i: nat)
    requires i + 4 <= 32
    ensures GeneratorNumber(i) == Coefficient(i) + 2 * Coefficient(i + 1) + 4 * Coefficient(i + 2)
                                  + 8 * Coefficient(i + 3) + 16 * GeneratorNumber(i + 4)
  {
    assert GeneratorNumber(i) == Coefficient(i) + 2 * GeneratorNumber(i + 1);
    assert GeneratorNumber(i + 1) == Coefficient(i + 1) + 2 * GeneratorNumber(i + 2);
    assert GeneratorNumber(i + 2) == Coefficient(i + 2) + 2 * GeneratorNumber(i + 3);
  }

  lemma GeneratorNumberValue()
    ensures GeneratorNumber(0) == POLYNOMIAL
  {
    FourBits(28);
    FourBits(24);
    assert GeneratorNumber(24) == 0xED;
    FourBits(20);
    FourBits(16);
    assert GeneratorNumber(16) == 0xEDB8;
    FourBits(12);
    FourBits(8);
    assert GeneratorNumber(8) == 0xED_B883;
    FourBits(4);
    FourBits(0);
  }

  lemma NumberBitsAre(x: nat, start: nat, n: nat)
    requires start == 0 && n == 32 && x == GeneratorNumber(start)
    ensures BitsOf(x, n) == Generator32()
  {
    var p := BitsOf(x, n);
    forall i | 0 <= i < n ensures p[i] == IsExponent(31 - i) {
      GeneratorNumberBits(start, i);
    }
    GeneratorFrom(p);
  }

  lemma GeneratorFrom(p: Poly)
    requires |p| == 32 && forall i :: 0 <= i < 32 ==> p[i] == IsExponent(31 - i)
    ensures p == Generator32()
  {
  }

  /** The constant is the generator, its bits reversed. */
  lemma PolynomialIsGenerator()
    ensures BitsOf(POLYNOMIAL, 32) == Generator32()
  {
    GeneratorNumberValue();
    NumberBitsAre(POLYNOMIAL, 0, 32);
  }

  // ----- the checksum -----

  /** The bits of a message in the order the checksum takes them. */
  function MessageBits(message: Bytes): (p: Poly)
    ensures |p| == 8 * |message|
  {
    if message == [] then []
    else MessageBits(message[..|message| - 1]) + BitsOf(message[|message| - 1] as nat, 8)
  }

  function Not(a: Poly): (c: Poly)
    requires |a| == 32
    ensures |c| == 32 && forall i :: 0 <= i < 32 ==> c[i] == !a[i]
  {
    seq(32, i requires 0 <= i < 32 => !a[i])
  }

  function And(a: Poly, b: Poly): (c: Poly)
    requires |a| == |b| == 32
    ensures |c| == 32 && forall i :: 0 <= i < 32 ==> c[i] == (a[i] && b[i])
  {
    seq(32, i requires 0 <= i < 32 => a[i] && b[i])
  }

  /** `wrapping_neg` of a word that is 0 or 1. */
  function Negate(bit: bool): (c: Poly)
    ensures |c| == 32 && forall i :: 0 <= i < 32 ==> c[i] == bit
  {
    seq(32, _ => bit)
  }

  function Crc32(message: Bytes): (crc: Poly)
    ensures |crc| == 32
  {
    Not(Register(Generator32(), MessageBits(message)))
  }

  lemma MaskedShift(crc: Poly)
    requires |crc| == 32
    ensures Xor(Up(crc, 1), And(BitsOf(POLYNOMIAL, 32), Negate(crc[0]))) == Shift(Generator32(), crc)
  {
    PolynomialIsGenerator();
  }

  /** The bit loop of the source feeds the register, for messages of any length. */
  method PngCrc32(chunkType: Bytes, data: Bytes) returns (crc: Poly)
    ensures |crc| == 32
    ensures crc == Crc32(chunkType + data)
  {
    var message := chunkType + data;
    ghost var g := Generator32();
    crc := Negate(true);
    assert crc == Ones();
    for n := 0 to |message|
      invariant |crc| == 32 && crc == Register(g, MessageBits(message[..n]))
    {
      ghost var bits := BitsOf(message[n] as nat, 8);
      ghost var r := crc;
      crc := Xor(crc, Pad(BitsOf(message[n] as nat, 8)));
      for k := 0 to 8
        invariant |crc| == 32 && crc == ShiftN(g, Xor(r, Pad(bits)), k)
      {
        MaskedShift(crc);
        crc := Xor(Up(crc, 1), And(BitsOf(POLYNOMIAL, 32), Negate(crc[0])));
      }
      FeedAtOnce(g, r, bits);
      FeedAllAppend(g, Ones(), MessageBits(message[..n]), bits);
      assert message[..n + 1][..n] == message[..n];
    }
    assert message[..|message|] == message;
    crc := Not(crc);
  }

  /** The complement of the checksum is the remainder of dividing the message by the generator, and nothing else is. */
  lemma CrcIsRemainder(message: Bytes)
    ensures var g, m, r := Generator32(), MessageBits(message), Not(Crc32(message));
            && Divides(g, m, Quotient(g, m), r)
            && forall q', r' :: Divides(g, m, q', r') ==> r' == r
  {
    var g, m := Generator32(), MessageBits(message);
    RegisterDivides(g, m);
    assert Not(Crc32(message)) == Register(g, m);
    forall q', r' | Divides(g, m, q', r') ensures r' == Register(g, m) {
      RemainderUnique(g, m, Quotient(g, m), Register(g, m), q', r');
    }
  }

  lemma PolyAssoc(p: Poly, q: Poly, r: Poly)
    ensures (p + q) + r == p + (q + r)
  {
  }

  lemma {:induction false} MessageBitsAppend(a: Bytes, b: Bytes)
    ensures MessageBits(a + b) == MessageBits(a) + MessageBits(b)
    decreases |b|
  {
    if b == [] {
      assert a + b == a;
    } else {
      var n := |b| - 1;
      MessageBitsAppend(a, b[..n]);
      assert (a + b)[..|a + b| - 1] == a + b[..n] && (a + b)[|a + b| - 1] == b[n];
      PolyAssoc(MessageBits(a), MessageBits(b[..n]), BitsOf(b[n] as nat, 8));
    }
  }

  lemma {:induction false} MessageBitsInjective(a: Bytes, b: Bytes)
    requires |a| == |b| && MessageBits(a) == MessageBits(b)
    ensures a == b
    decreases |a|
  {
    if a != [] {
      var n := |a| - 1;
      var p, q := MessageBits(a[..n]), MessageBits(b[..n]);
      assert p == MessageBits(a)[..8 * n] == MessageBits(b)[..8 * n] == q;
      MessageBitsInjective(a[..n], b[..n]);
      assert BitsOf(a[n] as nat, 8) == MessageBits(a)[8 * n..] == MessageBits(b)[8 * n..] == BitsOf(b[n] as nat, 8);
      assert Power2(8) == 256;
      BitsInjective(a[n] as nat, b[n] as nat, 8);
      assert a == a[..n] + [a[n]] && b == b[..n] + [b[n]];
    }
  }

  lemma BurstChangesRegister(g: Poly, before: Bytes, burst: Bytes, burst': Bytes, after: Bytes)
    requires |g| == 32 && g[31]
    requires |burst| == |burst'| <= 4 && burst != burst'
    ensures Register(g, MessageBits(before + burst + after)) != Register(g, MessageBits(before + burst' + after))
  {
    var r := Register(g, MessageBits(before));
    var m, m' := MessageBits(burst), MessageBits(burst');
    if m == m' {
      MessageBitsInjective(burst, burst');
    }
    RegisterAfter(g, before, burst, after);
    RegisterAfter(g, before, burst', after);
    BurstTellsApart(g, r, m, m');
    FeedKeepsApart(g, FeedAll(g, r, m), FeedAll(g, r, m'), MessageBits(after));
  }

  /** A change confined to four consecutive bytes changes the checksum. */
  lemma BurstChangesCrc(before: Bytes, burst: Bytes, burst': Bytes, after: Bytes)
    requires |burst| == |burst'| <= 4 && burst != burst'
    ensures Crc32(before + burst + after) != Crc32(before + burst' + after)
  {
    var g := Generator32();
    assert g[31];
    BurstChangesRegister(g, before, burst, burst', after);
    var r, r' := Register(g, MessageBits(before + burst + after)), Register(g, MessageBits(before + burst' + after));
    if Not(r) == Not(r') {
      NotInjective(r, r');
    }
  }

  lemma RegisterAfter(g: Poly, before: Bytes, burst: Bytes, after: Bytes)
    requires |g| == 32
    ensures Register(g, MessageBits(before + burst + after))
            == FeedAll(g, FeedAll(g, Register(g, MessageBits(before)), MessageBits(burst)), MessageBits(after))
  {
    MessageBitsAppend(before + burst, after);
    MessageBitsAppend(before, burst);
    FeedAllAppend(g, Ones(), MessageBits(before) + MessageBits(burst), MessageBits(after));
    FeedAllAppend(g, Ones(), MessageBits(before), MessageBits(burst));
  }

  lemma NotInjective(a: Poly, b: Poly)
    requires |a| == |b| == 32 && Not(a) == Not(b)
    ensures a == b
  {
    assert forall i :: 0 <= i < 32 ==> a[i] == !Not(a)[i] && b[i] == !Not(b)[i];
  }

  // ----- the header -----

  const SIGNATURE: Bytes := [0x89, 0x50, 0x4E, 0x47, 0x0D, 0x0A, 0x1A, 0x0A]
  const IHDR: Bytes := [0x49, 0x48, 0x44, 0x52]

  /** The bit depths section 11.2.2 allows with each colour type. */
  predicate ValidDepth(colorType: Byte, bitDepth: Byte) {
    if colorType == 0 then bitDepth == 1 || bitDepth == 2 || bitDepth == 4 || bitDepth == 8 || bitDepth == 16
    else if colorType == 2 || colorType == 4 || colorType == 6 then bitDepth == 8 || bitDepth == 16
    else if colorType == 3 then bitDepth == 1 || bitDepth == 2 || bitDepth == 4 || bitDepth == 8
    else false
  }

  function PngDimensions(bytes: Bytes): Option<Dimensions> {
    if |bytes| < 8 || bytes[..8] != SIGNATURE then None
    else if |bytes| < 12 then None
    else if FromBe(bytes[8..12]) != 13 || |bytes| < 16 || bytes[12..16] != IHDR then None
    else if |bytes| < 33 then None
    else
      var data := bytes[16..29];
      if Crc32(IHDR + data) != BitsOf(FromBe(bytes[29..33]), 32) then None
      else
        var width, height := FromBe(data[0..4]), FromBe(data[4..8]);
        if width == 0 || height == 0 || !ValidDepth(data[9], data[8])
           || data[10] != 0 || data[11] != 0 || data[12] > 1
        then None
        else Some(Dimensions(width, height))
  }

  /** The image header of section 11.2.2. */
  datatype Ihdr = Ihdr(width: nat, height: nat, bitDepth: Byte, colorType: Byte, interlace: Byte)

  ghost predicate ValidIhdr(x: Ihdr) {
    && 1 <= x.width < 0x1_0000_0000
    && 1 <= x.height < 0x1_0000_0000
    && ValidDepth(x.colorType, x.bitDepth)
    && x.interlace <= 1
  }

  ghost function EncodeIhdr(x: Ihdr): (s: Bytes)
    ensures |s| == 13
  {
    Be(x.width, 4) + Be(x.height, 4) + [x.bitDepth, x.colorType, 0, 0, x.interlace]
  }

  /** Signature, a chunk of length 13 and type IHDR, its data, and four bytes that hold its checksum. */
  ghost function EncodePng(x: Ihdr, crc: Bytes): Bytes {
    SIGNATURE + Be(13, 4) + IHDR + EncodeIhdr(x) + crc
  }

  ghost predicate Holds(crc: Bytes, x: Ihdr) {
    |crc| == 4 && BitsOf(FromBe(crc), 32) == Crc32(IHDR + EncodeIhdr(x))
  }

  ghost predicate Derives(bytes: Bytes, d: Dimensions, x: Ihdr, crc: Bytes, rest: Bytes) {
    ValidIhdr(x) && Holds(crc, x) && bytes == EncodePng(x, crc) + rest && d == Dimensions(x.width, x.height)
  }

  lemma EncodePngParts(bytes: Bytes, x: Ihdr, crc: Bytes, rest: Bytes)
    requires |crc| == 4 && bytes == EncodePng(x, crc) + rest
    ensures |bytes| >= 33
    ensures bytes[..8] == SIGNATURE && bytes[8..12] == Be(13, 4) && bytes[12..16] == IHDR
    ensures bytes[16..29] == EncodeIhdr(x) && bytes[29..33] == crc
  {
    SplitTwo(EncodePng(x, crc), rest);
    SplitTwo(SIGNATURE + Be(13, 4) + IHDR + EncodeIhdr(x), crc);
    PrefixPart(bytes, SIGNATURE + Be(13, 4) + IHDR + EncodeIhdr(x), crc);
    PrefixPart(bytes, SIGNATURE + Be(13, 4) + IHDR, EncodeIhdr(x));
    PrefixPart(bytes, SIGNATURE + Be(13, 4), IHDR);
    PrefixPart(bytes, SIGNATURE, Be(13, 4));
  }

  /** If the bytes start with `a + b`, then they start with `a`, and `b` comes next. */
  lemma PrefixPart(bytes: Bytes, a: Bytes, b: Bytes)
    requires |a + b| <= |bytes| && bytes[..|a + b|] == a + b
    ensures bytes[..|a|] == a && bytes[|a|..|a + b|] == b
  {
    SplitTwo(a, b);
    SliceOfTaken(bytes, |a + b|, 0, |a|);
    SliceOfTaken(bytes, |a + b|, |a|, |a + b|);
  }

  lemma EncodeIhdrParts(x: Ihdr)
    ensures var s := EncodeIhdr(x);
            && s[0..4] == Be(x.width, 4) && s[4..8] == Be(x.height, 4)
            && s[8] == x.bitDepth && s[9] == x.colorType && s[10] == 0 && s[11] == 0 && s[12] == x.interlace
  {
  }

  /** Every well-formed prefix is accepted, with its own dimensions. */
  lemma Complete(bytes: Bytes, d: Dimensions, x: Ihdr, crc: Bytes, rest: Bytes)
    requires Derives(bytes, d, x, crc, rest)
    ensures PngDimensions(bytes) == Some(d)
  {
    RadixValues();
    BeValue(13, 4);
    BeValue(x.width, 4);
    BeValue(x.height, 4);
    EncodePngParts(bytes, x, crc, rest);
    EncodeIhdrParts(x);
  }

  lemma DataParts(data: Bytes)
    requires |data| == 13
    ensures data == data[0..4] + data[4..8] + [data[8], data[9], data[10], data[11], data[12]]
  {
  }

  /** The first 33 bytes, put together from their parts. */
  lemma PrefixParts(bytes: Bytes)
    requires |bytes| >= 33
    ensures bytes == bytes[..8] + bytes[8..12] + bytes[12..16] + bytes[16..29] + bytes[29..33] + bytes[33..]
  {
    assert bytes[..8] == bytes[0..8];
    JoinSlices(bytes, 0, 8, 12);
    JoinSlices(bytes, 0, 12, 16);
    JoinSlices(bytes, 0, 16, 29);
    JoinSlices(bytes, 0, 29, 33);
    JoinRest(bytes, 0, 33);
  }

  lemma IhdrOf(data: Bytes) returns (x: Ihdr)
    requires |data| == 13 && data[10] == 0 && data[11] == 0
    ensures EncodeIhdr(x) == data
    ensures x == Ihdr(FromBe(data[0..4]), FromBe(data[4..8]), data[8], data[9], data[12])
    ensures x.width < 0x1_0000_0000 && x.height < 0x1_0000_0000
  {
    RadixValues();
    BeBytes(data[0..4]);
    BeBytes(data[4..8]);
    DataParts(data);
    x := Ihdr(FromBe(data[0..4]), FromBe(data[4..8]), data[8], data[9], data[12]);
  }

  /** What has been checked when a size is answered. */
  lemma PrefixChecked(bytes: Bytes, d: Dimensions)
    requires PngDimensions(bytes) == Some(d)
    ensures |bytes| >= 33 && bytes[..8] == SIGNATURE && FromBe(bytes[8..12]) == 13 && bytes[12..16] == IHDR
    ensures var data := bytes[16..29];
            && Crc32(IHDR + data) == BitsOf(FromBe(bytes[29..33]), 32)
            && d == Dimensions(FromBe(data[0..4]), FromBe(data[4..8])) && d.width != 0 && d.height != 0
            && ValidDepth(data[9], data[8]) && data[10] == 0 && data[11] == 0 && data[12] <= 1
  {
  }

  lemma Sound(bytes: Bytes, d: Dimensions) returns (x: Ihdr, crc: Bytes, rest: Bytes)
    requires PngDimensions(bytes) == Some(d)
    ensures Derives(bytes, d, x, crc, rest)
  {
    PrefixChecked(bytes, d);
    BeBytes(bytes[8..12]);
    x := IhdrOf(bytes[16..29]);
    crc, rest := bytes[29..33], bytes[33..];
    PrefixParts(bytes);
  }

  /** `png_dimensions` accepts exactly the prefixes written by the specification's encoder. */
  lemma DimensionsAreDeclared(bytes: Bytes, d: Dimensions)
    ensures PngDimensions(bytes) == Some(d) <==> exists x, crc, rest :: Derives(bytes, d, x, crc, rest)
  {
    if PngDimensions(bytes) == Some(d) {
      var x, crc, rest := Sound(bytes, d);
    }
    if x, crc, rest :| Derives(bytes, d, x, crc, rest) {
      Complete(bytes, d, x, crc, rest);
    }
  }

  // ----- error detection -----

  ghost predicate AgreeOutside(a: Bytes, b: Bytes, from: nat, to: nat) {
    |a| == |b| && forall i :: 0 <= i < |a| && !(from <= i < to) ==> a[i] == b[i]
  }

  lemma AgreeOn(a: Bytes, b: Bytes, from: nat, to: nat, i: nat, j: nat)
    requires AgreeOutside(a, b, from, to) && i <= j <= |a| && (j <= from || to <= i)
    ensures a[i..j] == b[i..j]
  {
  }

  lemma AgreeEverywhere(a: Bytes, b: Bytes, from: nat, to: nat)
    requires from <= to <= |a| && AgreeOutside(a, b, from, to) && a[from..to] == b[from..to]
    ensures a == b
  {
    forall i | 0 <= i < |a| ensures a[i] == b[i] {
      if from <= i < to {
        assert a[i] == a[from..to][i - from] && b[i] == b[from..to][i - from];
      }
    }
  }

  lemma Around(a: Bytes, from: nat, to: nat)
    requires |a| >= 29 && 16 <= from <= to <= 29
    ensures IHDR + a[16..29] == IHDR + a[16..from] + a[from..to] + a[to..29]
  {
    assert a[16..29] == a[16..from] + a[from..to] + a[to..29];
  }

  lemma DataBurst(a: Bytes, b: Bytes, from: nat, to: nat)
    requires |a| == |b| >= 33 && 16 <= from <= to <= 29 && to - from <= 4
    requires AgreeOutside(a, b, from, to) && a[from..to] != b[from..to]
    ensures Crc32(IHDR + a[16..29]) != Crc32(IHDR + b[16..29])
  {
    var before, after := IHDR + a[16..from], a[to..29];
    AgreeOn(a, b, from, to, 16, from);
    AgreeOn(a, b, from, to, to, 29);
    BurstChangesCrc(before, a[from..to], b[from..to], after);
    Around(a, from, to);
    Around(b, from, to);
  }

  /** Changing up to four consecutive bytes of the header data of an accepted PNG makes it rejected. */
  lemma BurstRejected(a: Bytes, b: Bytes, from: nat, to: nat)
    requires PngDimensions(a).Some?
    requires 16 <= from <= to <= 29 && to - from <= 4 && AgreeOutside(a, b, from, to) && a != b
    ensures PngDimensions(b) == None
  {
    AgreeOn(a, b, from, to, 29, 33);
    if a[from..to] == b[from..to] {
      AgreeEverywhere(a, b, from, to);
    } else {
      DataBurst(a, b, from, to);
    }
  }

  /** Changing any one of the first 33 bytes of an accepted PNG makes it rejected. */
  lemma OneByteRejected(a: Bytes, b: Bytes, k: nat)
    requires PngDimensions(a).Some? && k < 33
    requires |a| == |b| && AgreeOutside(a, b, k, k + 1) && a[k] != b[k]
    ensures PngDimensions(b) == None
  {
    if k < 8 {
      assert a[..8][k] != b[..8][k];
    } else if k < 12 {
      assert a[8..12][k - 8] != b[8..12][k - 8];
      BeBytes(a[8..12]);
      BeBytes(b[8..12]);
    } else if k < 16 {
      assert a[12..16][k - 12] != b[12..16][k - 12];
    } else if k < 29 {
      BurstRejected(a, b, k, k + 1);
    } else {
      ChecksumByteRejected(a, b, k);
    }
  }

  lemma ChecksumByteRejected(a: Bytes, b: Bytes, k: nat)
    requires PngDimensions(a).Some? && 29 <= k < 33
    requires |a| == |b| && AgreeOutside(a, b, k, k + 1) && a[k] != b[k]
    ensures PngDimensions(b) == None
  {
    var s, t := a[29..33], b[29..33];
    assert s[k - 29] != t[k - 29];
    AgreeOn(a, b, k, k + 1, 16, 29);
    BeBytes(s);
    BeBytes(t);
    RadixValues();
    PowerOfWord();
    if BitsOf(FromBe(s), 32) == BitsOf(FromBe(t), 32) {
      BitsInjective(FromBe(s), FromBe(t), 32);
    }
  }

  lemma PowerOfWord()
    ensures Power2(32) == 0x1_0000_0000
  {
    assert Power2(8) == 256;
    assert Power2(16) == 0x1_0000;
    assert Power2(24) == 0x100_0000;
  }

  // ----- check values -----

  lemma ByteFed(message: Bytes, b: Byte)
    ensures Register(Generator32(), MessageBits(message + [b]))
            == ShiftN(Generator32(), Xor(Register(Generator32(), MessageBits(message)), Pad(BitsOf(b as nat, 8))), 8)
  {
    var g, bits := Generator32(), BitsOf(b as nat, 8);
    assert (message + [b])[..|message|] == message;
    FeedAllAppend(g, Ones(), MessageBits(message), bits);
    FeedAtOnce(g, Register(g, MessageBits(message)), bits);
  }

  /** While the bits that leave the register are zero it only moves. */
  lemma {:induction false} OnlyMoves(g: Poly, r: Poly, n: nat)
    requires |g| == |r| == 32 && n <= 32 && forall i :: 0 <= i < n ==> !r[i]
    ensures ShiftN(g, r, n) == Up(r, n)
    decreases n
  {
    if n == 0 {
      assert Up(r, 0) == r;
    } else {
      OnlyMoves(g, r, n - 1);
      assert Up(Up(r, n - 1), 1) == Up(r, n);
    }
  }

  lemma {:induction false} OnesByte(x: nat, n: nat)
    requires x + 1 == Power2(n)
    ensures forall i :: 0 <= i < n ==> BitsOf(x, n)[i]
  {
    if n > 0 {
      OnesByte(x / 2, n - 1);
    }
  }

  lemma OnesCancel(n: nat, bits: Poly)
    requires n + 8 <= 32 && |bits| == 8 && forall i :: 0 <= i < 8 ==> bits[i]
    ensures ShiftN(Generator32(), Xor(Up(Ones(), n), Pad(bits)), 8) == Up(Ones(), n + 8)
  {
    var r := Xor(Up(Ones(), n), Pad(bits));
    OnlyMoves(Generator32(), r, 8);
    forall i | 0 <= i < 32 ensures Up(r, 8)[i] == Up(Ones(), n + 8)[i] {
    }
  }

  /** One more byte of ones empties eight more places. */
  lemma OnesByteFed(message: Bytes, n: nat)
    requires n + 8 <= 32 && Register(Generator32(), MessageBits(message)) == Up(Ones(), n)
    ensures Register(Generator32(), MessageBits(message + [0xFF])) == Up(Ones(), n + 8)
  {
    ByteFed(message, 0xFF);
    assert Power2(8) == 256;
    OnesByte(0xFF, 8);
    OnesCancel(n, BitsOf(0xFF, 8));
  }

  lemma OnesEmpty(ones: Bytes)
    requires ones == [] + [0xFF] + [0xFF] + [0xFF] + [0xFF]
    ensures Register(Generator32(), MessageBits(ones)) == Up(Ones(), 32)
  {
    assert Up(Ones(), 0) == Ones();
    OnesByteFed([], 0);
    OnesByteFed([] + [0xFF], 8);
    OnesByteFed([] + [0xFF] + [0xFF], 16);
    OnesByteFed([] + [0xFF] + [0xFF] + [0xFF], 24);
  }

  /** A complement below a power of two has the complemented bits. */
  lemma {:induction false} ComplementBits(x: nat, y: nat, n: nat)
    requires x + y + 1 == Power2(n)
    ensures forall i :: 0 <= i < n ==> BitsOf(y, n)[i] == !BitsOf(x, n)[i]
  {
    if n > 0 {
      assert x % 2 + y % 2 == 1 && x / 2 + y / 2 + 1 == Power2(n - 1);
      ComplementBits(x / 2, y / 2, n - 1);
    }
  }

  lemma {:induction false} LoneBit(k: nat, n: nat)
    requires k < n
    ensures forall i :: 0 <= i < n ==> BitsOf(Power2(k), n)[i] == (i == k)
    decreases n
  {
    if k > 0 {
      LoneBit(k - 1, n - 1);
    } else {
      NoBits(n - 1);
    }
  }

  lemma {:induction false} NoBits(n: nat)
    ensures forall i :: 0 <= i < n ==> !BitsOf(0, n)[i]
  {
    if n > 0 {
      NoBits(n - 1);
    }
  }

  /** A bit that seven moves bring to where it leaves the register puts the generator in. */
  lemma GeneratorComesIn(bits: Poly, r: Poly)
    requires |bits| == 8 && forall i :: 0 <= i < 8 ==> bits[i] == (i == 7)
    requires r == Xor(Up(Ones(), 32), Pad(bits))
    ensures ShiftN(Generator32(), r, 8) == Generator32()
  {
    OnlyMoves(Generator32(), r, 7);
    assert ShiftN(Generator32(), r, 8) == Shift(Generator32(), Up(r, 7));
    forall i | 0 <= i < 32 ensures Shift(Generator32(), Up(r, 7))[i] == Generator32()[i] {
    }
  }

  lemma GeneratorLeft(ones: Bytes)
    requires Register(Generator32(), MessageBits(ones)) == Up(Ones(), 32)
    ensures Register(Generator32(), MessageBits(ones + [0x80])) == Generator32()
  {
    ByteFed(ones, 0x80);
    assert Power2(7) == 0x80;
    LoneBit(7, 8);
    GeneratorComesIn(BitsOf(0x80, 8), Xor(Up(Ones(), 32), Pad(BitsOf(0x80, 8))));
  }

  lemma NotIs(r: Poly, x: nat, y: nat)
    requires r == BitsOf(x, 32) && x + y == 0xFFFF_FFFF
    ensures Not(r) == BitsOf(y, 32)
  {
    PowerOfWord();
    ComplementBits(x, y, 32);
  }

  lemma EmptyIs()
    ensures Up(Ones(), 32) == BitsOf(0, 32) && Ones() == BitsOf(0xFFFF_FFFF, 32)
  {
    PowerOfWord();
    NoBits(32);
    OnesByte(0xFFFF_FFFF, 32);
  }

  /** Three check values: of nothing, of four bytes of ones, and of those followed by 80. */
  lemma CheckValues(ones: Bytes)
    requires ones == [0xFF, 0xFF, 0xFF, 0xFF]
    ensures Crc32([]) == BitsOf(0, 32)
    ensures Crc32(ones) == BitsOf(0xFFFF_FFFF, 32)
    ensures Crc32(ones + [0x80]) == BitsOf(0x1247_7CDF, 32)
  {
    EmptyIs();
    assert Register(Generator32(), MessageBits([])) == Ones();
    NotIs(Ones(), 0xFFFF_FFFF, 0);
    OnesEmpty(ones);
    NotIs(Up(Ones(), 32), 0, 0xFFFF_FFFF);
    GeneratorLeft(ones);
    PolynomialIsGenerator();
    NotIs(Generator32(), POLYNOMIAL, 0x1247_7CDF);
  }

  // ----- the header, read off the bytes -----

  /** The colour types with their bit depths, table 11.1. */
  lemma DepthsAre(colorType: Byte, bitDepth: Byte)
    ensures ValidDepth(colorType, bitDepth) <==>
            (colorType, bitDepth) in {(0, 1), (0, 2), (0, 4), (0, 8), (0, 16), (2, 8), (2, 16), (3, 1), (3, 2), (3, 4),
                                      (3, 8), (4, 8), (4, 16), (6, 8), (6, 16)}
  {
  }

  /** A number of four bytes, the high one first. */
  function Number(s: Bytes, i: nat): nat
    requires i + 4 <= |s|
  {
    0x100_0000 * (s[i] as int) + 0x1_0000 * (s[i + 1] as int) + 0x100 * (s[i + 2] as int) + s[i + 3] as int
  }

  lemma NumberRead(s: Bytes, i: nat)
    requires i + 4 <= |s|
    ensures FromBe(s[i..i + 4]) == Number(s, i)
  {
    BeFour(s[i..i + 4]);
  }

  /** What the thirteen bytes of the header data must be. */
  predicate DataFits(data: Bytes)
    requires |data| == 13
  {
    && FromBe(data[0..4]) > 0 && FromBe(data[4..8]) > 0 && ValidDepth(data[9], data[8])
    && data[10] == 0 && data[11] == 0 && data[12] <= 1
  }

  lemma HeaderChecks(bytes: Bytes, data: Bytes)
    requires |bytes| >= 33 && data == bytes[16..29]
    ensures PngDimensions(bytes) ==
            if && bytes[..8] == SIGNATURE && FromBe(bytes[8..12]) == 13 && bytes[12..16] == IHDR
               && Crc32(IHDR + data) == BitsOf(FromBe(bytes[29..33]), 32) && DataFits(data)
            then Some(Dimensions(FromBe(data[0..4]), FromBe(data[4..8]))) else None
  {
  }

  lemma DataByBytes(bytes: Bytes, data: Bytes)
    requires |bytes| >= 33 && data == bytes[16..29]
    ensures DataFits(data) <==>
            && Number(bytes, 16) > 0 && Number(bytes, 20) > 0
            && (bytes[25], bytes[24]) in {(0, 1), (0, 2), (0, 4), (0, 8), (0, 16), (2, 8), (2, 16), (3, 1), (3, 2),
                                          (3, 4), (3, 8), (4, 8), (4, 16), (6, 8), (6, 16)}
            && bytes[26] == 0 && bytes[27] == 0 && bytes[28] <= 1
    ensures FromBe(data[0..4]) == Number(bytes, 16) && FromBe(data[4..8]) == Number(bytes, 20)
  {
    DataRead(bytes);
    DepthsAre(bytes[25], bytes[24]);
  }

  lemma FramingByBytes(bytes: Bytes)
    requires |bytes| >= 33
    ensures FromBe(bytes[8..12]) == Number(bytes, 8) && FromBe(bytes[29..33]) == Number(bytes, 29)
    ensures bytes[12..16] == IHDR ==> Crc32(IHDR + bytes[16..29]) == Crc32(bytes[12..29])
  {
    NumberRead(bytes, 8);
    NumberRead(bytes, 29);
    JoinSlices(bytes, 12, 16, 29);
  }

  /** What the bytes must be, one by one, for a size to be answered. */
  lemma DimensionsByBytes(bytes: Bytes)
    requires |bytes| >= 33
    ensures PngDimensions(bytes) ==
            if && bytes[..8] == [0x89, 0x50, 0x4E, 0x47, 0x0D, 0x0A, 0x1A, 0x0A]
               && Number(bytes, 8) == 13 && bytes[12..16] == [0x49, 0x48, 0x44, 0x52]
               && Crc32(bytes[12..29]) == BitsOf(Number(bytes, 29), 32)
               && Number(bytes, 16) > 0 && Number(bytes, 20) > 0
               && (bytes[25], bytes[24]) in {(0, 1), (0, 2), (0, 4), (0, 8), (0, 16), (2, 8), (2, 16), (3, 1), (3, 2),
                                             (3, 4), (3, 8), (4, 8), (4, 16), (6, 8), (6, 16)}
               && bytes[26] == 0 && bytes[27] == 0 && bytes[28] <= 1
            then Some(Dimensions(Number(bytes, 16), Number(bytes, 20))) else None
  {
    HeaderChecks(bytes, bytes[16..29]);
    DataByBytes(bytes, bytes[16..29]);
    FramingByBytes(bytes);
  }

  /** Fewer bytes than a signature and a header chunk declare nothing. */
  lemma TooFewBytes(bytes: Bytes)
    requires |bytes| < 33
    ensures PngDimensions(bytes) == None
  {
  }

  lemma DataRead(bytes: Bytes)
    requires |bytes| >= 33
    ensures var data := bytes[16..29];
            && FromBe(data[0..4]) == Number(bytes, 16) && FromBe(data[4..8]) == Number(bytes, 20)
            && data[8] == bytes[24] && data[9] == bytes[25] && data[10] == bytes[26] && data[11] == bytes[27]
            && data[12] == bytes[28]
  {
    NumberRead(bytes, 16);
    NumberRead(bytes, 20);
    assert bytes[16..29][0..4] == bytes[16..20] && bytes[16..29][4..8] == bytes[20..24];
  }
}
