/**
  `standard_base64_decoded_len` and `decode_bounded`, against the canonical
  padded encoding of sections 3.5 and 4 of RFC 4648.
 */
module Base64 {
  import opened Common

  const PAD: Byte := 0x3D

  // ----- the alphabet -----

  newtype Sextet = x: int | 0 <= x < 64

  function Letter(x: Sextet): Byte {
    if x < 26 then (x as int + 0x41) as Byte
    else if x < 52 then (x as int - 26 + 0x61) as Byte
    else if x < 62 then (x as int - 52 + 0x30) as Byte
    else if x == 62 then 0x2B
    else 0x2F
  }

  function SextetOf(c: Byte): Option<Sextet> {
    if 0x41 <= c <= 0x5A then Some((c as int - 0x41) as Sextet)
    else if 0x61 <= c <= 0x7A then Some((c as int - 0x61 + 26) as Sextet)
    else if 0x30 <= c <= 0x39 then Some((c as int - 0x30 + 52) as Sextet)
    else if c == 0x2B then Some(62)
    else if c == 0x2F then Some(63)
    else None
  }

  lemma LetterRead(x: Sextet)
    ensures SextetOf(Letter(x)) == Some(x)
  {
  }

  lemma LetterWritten(c: Byte)
    requires SextetOf(c).Some?
    ensures Letter(SextetOf(c).value) == c
  {
  }

  // ----- the encoding of section 4 -----

  /** The four six-bit groups of three bytes. */
  function Split(x: Byte, y: Byte, z: Byte): (Sextet, Sextet, Sextet, Sextet) {
    ((x as int / 4) as Sextet,
     (x as int % 4 * 16 + y as int / 16) as Sextet,
     (y as int % 16 * 4 + z as int / 64) as Sextet,
     (z as int % 64) as Sextet)
  }

  /** The three bytes of four six-bit groups. */
  function Join(a: Sextet, b: Sextet, c: Sextet, d: Sextet): (Byte, Byte, Byte) {
    ((a as int * 4 + b as int / 16) as Byte,
     (b as int % 16 * 16 + c as int / 4) as Byte,
     (c as int % 4 * 64 + d as int) as Byte)
  }

  lemma JoinSplit(x: Byte, y: Byte, z: Byte)
    ensures var q := Split(x, y, z); Join(q.0, q.1, q.2, q.3) == (x, y, z)
  {
    Whole4(x as int);
    Digits16(x as int % 4, y as int / 16);
    Whole16(y as int);
    Digits4(y as int % 16, z as int / 64);
    Whole64(z as int);
  }

  lemma SplitJoin(a: Sextet, b: Sextet, c: Sextet, d: Sextet)
    ensures var t := Join(a, b, c, d); Split(t.0, t.1, t.2) == (a, b, c, d)
  {
    Digits4(a as int, b as int / 16);
    Digits16(b as int % 16, c as int / 4);
    Digits64(c as int % 4, d as int);
    Whole16(b as int);
    Whole4(c as int);
  }

  lemma Digits4(q: int, r: int)
    requires 0 <= r < 4
    ensures (q * 4 + r) / 4 == q && (q * 4 + r) % 4 == r
  {
  }

  lemma Digits16(q: int, r: int)
    requires 0 <= r < 16
    ensures (q * 16 + r) / 16 == q && (q * 16 + r) % 16 == r
  {
  }

  lemma Digits64(q: int, r: int)
    requires 0 <= r < 64
    ensures (q * 64 + r) / 64 == q && (q * 64 + r) % 64 == r
  {
  }

  lemma Whole4(x: int)
    ensures x / 4 * 4 + x % 4 == x
  {
  }

  lemma Whole16(x: int)
    ensures x / 16 * 16 + x % 16 == x
  {
  }

  lemma Whole64(x: int)
    ensures x / 64 * 64 + x % 64 == x
  {
  }

  function Encode(b: Bytes): (s: Bytes)
    ensures |s| == (|b| + 2) / 3 * 4
  {
    if b == [] then []
    else if |b| == 1 then
      var q := Split(b[0], 0, 0);
      [Letter(q.0), Letter(q.1), PAD, PAD]
    else if |b| == 2 then
      var q := Split(b[0], b[1], 0);
      [Letter(q.0), Letter(q.1), Letter(q.2), PAD]
    else
      var q := Split(b[0], b[1], b[2]);
      FourMore(|b|);
      [Letter(q.0), Letter(q.1), Letter(q.2), Letter(q.3)] + Encode(b[3..])
  }

  lemma FourMore(n: nat)
    requires n >= 3
    ensures (n + 2) / 3 * 4 == 4 + (n - 3 + 2) / 3 * 4
  {
  }

  // ----- the decoder of the standard engine: padding required, unused bits zero -----

  /** The bytes of the last four characters. */
  function DecodeLast(s: Bytes): Option<Bytes>
    requires |s| == 4
  {
    var a, b, c, d := SextetOf(s[0]), SextetOf(s[1]), SextetOf(s[2]), SextetOf(s[3]);
    if a.None? || b.None? then None
    else if s[2] == PAD && s[3] == PAD then
      if b.value % 16 != 0 then None else Some([Join(a.value, b.value, 0, 0).0])
    else if c.None? then None
    else if s[3] == PAD then
      var t := Join(a.value, b.value, c.value, 0);
      if c.value % 4 != 0 then None else Some([t.0, t.1])
    else if d.None? then None
    else
      var t := Join(a.value, b.value, c.value, d.value);
      Some([t.0, t.1, t.2])
  }

  predicate FourLetters(s: Bytes)
    requires |s| >= 4
  {
    SextetOf(s[0]).Some? && SextetOf(s[1]).Some? && SextetOf(s[2]).Some? && SextetOf(s[3]).Some?
  }

  function Decode(s: Bytes): Option<Bytes> {
    if s == [] then Some([])
    else if |s| < 4 then None
    else if |s| == 4 then DecodeLast(s)
    else if !FourLetters(s) then None
    else
      match Decode(s[4..])
      case None => None
      case Some(rest) =>
        var t := Join(SextetOf(s[0]).value, SextetOf(s[1]).value, SextetOf(s[2]).value, SextetOf(s[3]).value);
        Some([t.0, t.1, t.2] + rest)
  }

  lemma DecodeLastEncode(b: Bytes)
    requires 1 <= |b| <= 3
    ensures |Encode(b)| == 4 && DecodeLast(Encode(b)) == Some(b)
  {
    var y: Byte, z: Byte := if |b| > 1 then b[1] else 0, if |b| > 2 then b[2] else 0;
    var q := Split(b[0], y, z);
    LetterRead(q.0);
    LetterRead(q.1);
    LetterRead(q.2);
    LetterRead(q.3);
    JoinSplit(b[0], y, z);
    UnusedBits(b[0], y);
    if |b| == 1 {
      assert b == [b[0]];
    } else if |b| == 2 {
      assert b == [b[0], b[1]];
    } else {
      assert Encode(b[3..]) == [];
      assert b == [b[0], b[1], b[2]];
    }
  }

  /** The last letter of a short group leaves its unused bits zero. */
  lemma UnusedBits(x: Byte, y: Byte)
    ensures Split(x, 0, 0).1 % 16 == 0 && Split(x, 0, 0).2 == 0 && Split(x, 0, 0).3 == 0
    ensures Split(x, y, 0).2 % 4 == 0 && Split(x, y, 0).3 == 0
  {
    var zero: Byte := 0;
    assert zero as int / 16 == 0 && zero as int % 16 == 0 && zero as int / 64 == 0 && zero as int % 64 == 0;
    Digits16(x as int % 4, 0);
    Digits4(y as int % 16, 0);
  }

  /** Decoding undoes encoding. */
  lemma {:induction false} DecodeEncode(b: Bytes)
    ensures Decode(Encode(b)) == Some(b)
  {
    if 1 <= |b| <= 3 {
      DecodeLastEncode(b);
    } else if b != [] {
      DecodeEncode(b[3..]);
      var q := Split(b[0], b[1], b[2]);
      LetterRead(q.0);
      LetterRead(q.1);
      LetterRead(q.2);
      LetterRead(q.3);
      JoinSplit(b[0], b[1], b[2]);
      assert Encode(b)[4..] == Encode(b[3..]);
      assert b == [b[0], b[1], b[2]] + b[3..];
    }
  }

  lemma EncodeDecodeLast(s: Bytes)
    requires |s| == 4 && DecodeLast(s).Some?
    ensures Encode(DecodeLast(s).value) == s
  {
    var a, b := SextetOf(s[0]).value, SextetOf(s[1]).value;
    LetterWritten(s[0]);
    LetterWritten(s[1]);
    if s[2] == PAD && s[3] == PAD {
      SplitJoin(a, b, 0, 0);
    } else {
      LetterWritten(s[2]);
      if s[3] == PAD {
        SplitJoin(a, b, SextetOf(s[2]).value, 0);
      } else {
        LetterWritten(s[3]);
        SplitJoin(a, b, SextetOf(s[2]).value, SextetOf(s[3]).value);
        assert Encode([]) == [];
      }
    }
  }

  /** Whatever decodes is the encoding of what it decodes to. */
  lemma {:induction false} EncodeDecode(s: Bytes)
    requires Decode(s).Some?
    ensures Encode(Decode(s).value) == s
    decreases |s|
  {
    if |s| == 4 {
      EncodeDecodeLast(s);
    } else if s != [] {
      EncodeDecode(s[4..]);
      var b := Decode(s).value;
      var x0, x1, x2, x3 := SextetOf(s[0]).value, SextetOf(s[1]).value, SextetOf(s[2]).value, SextetOf(s[3]).value;
      LetterWritten(s[0]);
      LetterWritten(s[1]);
      LetterWritten(s[2]);
      LetterWritten(s[3]);
      SplitJoin(x0, x1, x2, x3);
      assert b[3..] == Decode(s[4..]).value;
      DecodedNonEmpty(s);
      assert s == [s[0], s[1], s[2], s[3]] + s[4..];
    }
  }

  lemma DecodedNonEmpty(s: Bytes)
    requires |s| > 4 && Decode(s).Some?
    ensures |Decode(s).value| >= 4
  {
    assert s[4..] != [];
    if |s[4..]| > 4 {
      assert Decode(s[4..]).Some?;
    }
  }

  /** `Decode` answers `b` exactly when `s` is the encoding of `b`. */
  lemma DecodeIsInverse(s: Bytes, b: Bytes)
    ensures Decode(s) == Some(b) <==> s == Encode(b)
  {
    if Decode(s) == Some(b) {
      EncodeDecode(s);
    }
    DecodeEncode(b);
  }

  /** No string encodes two byte strings. */
  lemma EncodeInjective(b: Bytes, b': Bytes)
    requires Encode(b) == Encode(b')
    ensures b == b'
  {
    DecodeEncode(b);
    DecodeEncode(b');
  }

  // ----- standard_base64_decoded_len -----

  function Padding(s: Bytes): (p: nat)
    ensures p <= 2 && p <= |s|
  {
    if |s| >= 2 && s[|s| - 2] == PAD && s[|s| - 1] == PAD then 2
    else if |s| >= 1 && s[|s| - 1] == PAD then 1
    else 0
  }

  predicate CanonicalTail(s: Bytes, padding: nat)
    requires padding <= 2
  {
    if padding == 0 then true
    else if |s| < padding + 1 then false
    else
      match SextetOf(s[|s| - padding - 1])
      case None => false
      case Some(last) => if padding == 1 then last % 4 == 0 else last % 16 == 0
  }

  predicate AllLetters(s: Bytes) {
    forall i :: 0 <= i < |s| ==> SextetOf(s[i]).Some?
  }

  predicate AllPadding(s: Bytes) {
    forall i :: 0 <= i < |s| ==> s[i] == PAD
  }

  function DecodedLen(s: Bytes): Option<nat> {
    if |s| % 4 != 0 then None
    else
      var padding := Padding(s);
      var dataLen := |s| - padding;
      if !AllLetters(s[..dataLen]) || !AllPadding(s[dataLen..]) then None
      else if !CanonicalTail(s, padding) then None
      else if |s| / 4 * 3 < padding then None
      else Some(|s| / 4 * 3 - padding)
  }

  /** The length agrees with the decoder on the last four characters. */
  lemma LenOfLast(s: Bytes)
    requires |s| == 4
    ensures DecodedLen(s) == (if DecodeLast(s).Some? then Some(|DecodeLast(s).value|) else None)
  {
    var dataLen := |s| - Padding(s);
    assert forall i :: 0 <= i < dataLen ==> s[..dataLen][i] == s[i];
    assert AllLetters(s[..dataLen]) <==>
           SextetOf(s[0]).Some? && SextetOf(s[1]).Some?
           && (dataLen > 2 ==> SextetOf(s[2]).Some?) && (dataLen > 3 ==> SextetOf(s[3]).Some?);
  }

  /** The first four characters of a longer string count for three bytes. */
  lemma LenOfFirst(s: Bytes)
    requires |s| > 4 && |s| % 4 == 0
    ensures DecodedLen(s)
            == if FourLetters(s) && DecodedLen(s[4..]).Some? then Some(3 + DecodedLen(s[4..]).value) else None
  {
    var u := s[4..];
    var padding := Padding(s);
    assert Padding(u) == padding;
    var dataLen := |s| - padding;
    assert s[dataLen..] == u[dataLen - 4..];
    assert CanonicalTail(s, padding) == CanonicalTail(u, padding);
    LettersSplit(s, dataLen);
  }

  lemma LettersSplit(s: Bytes, n: nat)
    requires 4 <= n <= |s|
    ensures AllLetters(s[..n]) <==> FourLetters(s) && AllLetters(s[4..][..n - 4])
  {
    assert forall i :: 0 <= i < n ==> s[..n][i] == s[i];
    var u := s[4..][..n - 4];
    assert forall i :: 4 <= i < n ==> s[i] == u[i - 4];
  }

  /** The length is computed for exactly the strings that decode, and is the length of what they decode to. */
  lemma {:induction false} LenAgreesWithDecode(s: Bytes)
    ensures DecodedLen(s) == (if Decode(s).Some? then Some(|Decode(s).value|) else None)
    decreases |s|
  {
    if |s| % 4 != 0 {
      NeverDecodes(s);
    } else if |s| == 4 {
      LenOfLast(s);
    } else if s != [] {
      LenOfFirst(s);
      LenAgreesWithDecode(s[4..]);
    }
  }

  lemma {:induction false} NeverDecodes(s: Bytes)
    requires |s| % 4 != 0
    ensures Decode(s) == None
    decreases |s|
  {
    if |s| > 4 {
      NeverDecodes(s[4..]);
    }
  }

  /** `Some(n)` exactly for the canonical encodings of byte strings of length `n`. */
  lemma DecodedLenExact(s: Bytes, n: nat)
    ensures DecodedLen(s) == Some(n) <==> exists b :: s == Encode(b) && |b| == n
  {
    LenAgreesWithDecode(s);
    if Decode(s).Some? {
      EncodeDecode(s);
      assert s == Encode(Decode(s).value);
    }
    if b :| s == Encode(b) && |b| == n {
      DecodeEncode(b);
    }
  }

  // ----- decode_bounded -----

  datatype Outcome = Decoded(bytes: Bytes) | TooLarge(maxBytes: nat, observedBytes: nat) | InvalidData

  function DecodeBounded(s: Bytes, maxBytes: nat): Outcome {
    var decodedLen := DecodedLen(s);
    if decodedLen.Some? && decodedLen.value > maxBytes then TooLarge(maxBytes, decodedLen.value)
    else
      match Decode(s)
      case None => InvalidData
      case Some(bytes) => if |bytes| > maxBytes then TooLarge(maxBytes, |bytes|) else Decoded(bytes)
  }

  /** The three outcomes, told apart by what the string encodes and the bound alone. */
  lemma DecodeBoundedTrichotomy(s: Bytes, maxBytes: nat)
    ensures forall b :: DecodeBounded(s, maxBytes) == Decoded(b) <==> s == Encode(b) && |b| <= maxBytes
    ensures forall n: nat :: DecodeBounded(s, maxBytes) == TooLarge(maxBytes, n)
                        <==> n > maxBytes && exists b :: s == Encode(b) && |b| == n
    ensures DecodeBounded(s, maxBytes) == InvalidData <==> forall b :: s != Encode(b)
  {
    LenAgreesWithDecode(s);
    forall b ensures Decode(s) == Some(b) <==> s == Encode(b) {
      DecodeIsInverse(s, b);
    }
    if Decode(s).Some? {
      assert s == Encode(Decode(s).value);
    }
  }

  /** Past the length check, nothing decodes to more than the bound: the second size check never fires. */
  lemma SecondCheckUnreachable(s: Bytes, maxBytes: nat, b: Bytes)
    requires DecodedLen(s).Some? ==> DecodedLen(s).value <= maxBytes
    requires Decode(s) == Some(b)
    ensures |b| <= maxBytes
  {
    LenAgreesWithDecode(s);
  }

  // ----- the alphabet and the groups, told apart from their arithmetic -----

  /** Table 1 of RFC 4648. */
  lemma AlphabetIs(x: Sextet)
    ensures x < 26 ==> Letter(x) as int == 'A' as int + x as int
    ensures 26 <= x < 52 ==> Letter(x) as int == 'a' as int + x as int - 26
    ensures 52 <= x < 62 ==> Letter(x) as int == '0' as int + x as int - 52
    ensures x == 62 ==> Letter(x) as int == '+' as int
    ensures x == 63 ==> Letter(x) as int == '/' as int
  {
  }

  /** Three bytes and their four groups are the digits of one number. */
  lemma SplitIsNumber(x: Byte, y: Byte, z: Byte)
    ensures var q := Split(x, y, z);
            x as int * 0x1_0000 + y as int * 0x100 + z as int
            == q.0 as int * 0x4_0000 + q.1 as int * 0x1000 + q.2 as int * 0x40 + q.3 as int
  {
    Whole4(x as int);
    Whole16(y as int);
    Whole64(z as int);
  }

  lemma GroupsUnique(a: Sextet, b: Sextet, c: Sextet, d: Sextet, a': Sextet, b': Sextet, c': Sextet, d': Sextet)
    requires a as int * 0x4_0000 + b as int * 0x1000 + c as int * 0x40 + d as int
             == a' as int * 0x4_0000 + b' as int * 0x1000 + c' as int * 0x40 + d' as int
    ensures (a, b, c, d) == (a', b', c', d')
  {
    Digits64(a as int * 0x1000 + b as int * 0x40 + c as int, d as int);
    Digits64(a' as int * 0x1000 + b' as int * 0x40 + c' as int, d' as int);
    Digits64(a as int * 0x40 + b as int, c as int);
    Digits64(a' as int * 0x40 + b' as int, c' as int);
  }

  /**
    A group of one, two or three bytes, filled up with zeros, is one number, and
    the letters are its digits to the base 64; a letter for no byte is a `=`.
   */
  lemma GroupByDigits(bytes: Bytes, a: Sextet, b: Sextet, c: Sextet, d: Sextet)
    requires 1 <= |bytes| <= 3
    requires var y, z := if |bytes| > 1 then bytes[1] as int else 0, if |bytes| > 2 then bytes[2] as int else 0;
             bytes[0] as int * 0x1_0000 + y * 0x100 + z
             == a as int * 0x4_0000 + b as int * 0x1000 + c as int * 0x40 + d as int
    ensures Encode(bytes) == [Letter(a), Letter(b), if |bytes| > 1 then Letter(c) else 0x3D,
                              if |bytes| > 2 then Letter(d) else 0x3D]
  {
    var y: Byte, z: Byte := if |bytes| > 1 then bytes[1] else 0, if |bytes| > 2 then bytes[2] else 0;
    var q := Split(bytes[0], y, z);
    SplitIsNumber(bytes[0], y, z);
    GroupsUnique(a, b, c, d, q.0, q.1, q.2, q.3);
    assert |bytes| == 3 ==> Encode(bytes[3..]) == [];
  }

  lemma ThreeAlone(first: Bytes)
    requires |first| == 3
    ensures var q := Split(first[0], first[1], first[2]);
            Encode(first) == [Letter(q.0), Letter(q.1), Letter(q.2), Letter(q.3)]
  {
    assert Encode(first[3..]) == [];
  }

  /** Groups of three are written one after the other. */
  lemma GroupsFollow(first: Bytes, rest: Bytes)
    requires |first| == 3
    ensures Encode(first + rest) == Encode(first) + Encode(rest)
    ensures Encode([]) == []
  {
    ThreeAlone(first);
    if rest == [] {
      assert first + rest == first;
    } else {
      SplitTwo(first, rest);
    }
  }
}
