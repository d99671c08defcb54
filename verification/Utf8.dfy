/**
  `String::from_utf8_lossy`, which the request reader applies to each buffer on
  its own: a well-formed sequence gives its scalar value, and every maximal
  ill-formed piece gives one replacement character. Text is a list of scalar
  values.
 */
module Utf8 {
  import opened Common

  type Text = seq<nat>

  const REPLACEMENT: nat := 0xFFFD

  /** How long the sequence opened by a byte must be, or 0 when no sequence starts with it. */
  function Width(first: Byte): nat {
    if first < 0x80 then 1
    else if 0xC2 <= first <= 0xDF then 2
    else if 0xE0 <= first <= 0xEF then 3
    else if 0xF0 <= first <= 0xF4 then 4
    else 0
  }

  predicate Continues(b: Byte) {
    0x80 <= b <= 0xBF
  }

  /** The second byte rules out overlong forms, surrogates and values above U+10FFFF. */
  predicate Second(first: Byte, b: Byte) {
    if first == 0xE0 then 0xA0 <= b <= 0xBF
    else if first == 0xED then 0x80 <= b <= 0x9F
    else if first == 0xF0 then 0x90 <= b <= 0xBF
    else if first == 0xF4 then 0x80 <= b <= 0x8F
    else Continues(b)
  }

  /** The length of the unit at the front: a whole sequence, or as much as could have become one. */
  function Taken(s: Bytes): (n: nat)
    requires s != []
    ensures 1 <= n <= 4 && n <= |s|
  {
    var w := Width(s[0]);
    if w <= 1 || |s| == 1 || !Second(s[0], s[1]) then 1
    else if w == 2 || |s| == 2 || !Continues(s[2]) then 2
    else if w == 3 || |s| == 3 || !Continues(s[3]) then 3
    else 4
  }

  function Bits(b: Byte): (n: nat)
    ensures n < 64
  {
    b as int % 64
  }

  /** What the unit at the front reads as. */
  function Unit(s: Bytes): nat
    requires s != []
  {
    if Taken(s) != Width(s[0]) then REPLACEMENT
    else if Width(s[0]) == 1 then s[0] as int
    else if Width(s[0]) == 2 then (s[0] as int - 0xC0) * 64 + Bits(s[1])
    else if Width(s[0]) == 3 then ((s[0] as int - 0xE0) * 64 + Bits(s[1])) * 64 + Bits(s[2])
    else (((s[0] as int - 0xF0) * 64 + Bits(s[1])) * 64 + Bits(s[2])) * 64 + Bits(s[3])
  }

  function Lossy(s: Bytes): (t: Text)
    ensures s != [] ==> t != []
  {
    if s == [] then [] else [Unit(s)] + Lossy(s[Taken(s)..])
  }

  // ----- the encoder it inverts -----

  predicate IsScalar(c: nat) {
    c < 0xD800 || 0xE000 <= c < 0x11_0000
  }

  /** A continuation byte holding the low six bits of `x`. */
  function Tail(x: nat): (b: Byte)
    ensures Continues(b) && Bits(b) == x % 64
  {
    (0x80 + x % 64) as Byte
  }

  /** The UTF-8 form of one scalar value. */
  function Encode(c: nat): (s: Bytes)
    requires IsScalar(c)
    ensures s != []
  {
    if c < 0x80 then [c as Byte]
    else if c < 0x800 then [(0xC0 + c / 64) as Byte, Tail(c)]
    else if c < 0x1_0000 then [(0xE0 + c / 64 / 64) as Byte, Tail(c / 64), Tail(c)]
    else [(0xF0 + c / 64 / 64 / 64) as Byte, Tail(c / 64 / 64), Tail(c / 64), Tail(c)]
  }

  function EncodeAll(t: Text): Bytes
    requires forall c :: c in t ==> IsScalar(c)
  {
    if t == [] then [] else Encode(t[0]) + EncodeAll(t[1..])
  }

  /** The encoder never writes a lead byte that the table above refuses. */
  lemma SecondFits(c: nat)
    requires IsScalar(c) && 0x800 <= c
    ensures Width(Encode(c)[0]) == |Encode(c)| && Second(Encode(c)[0], Encode(c)[1])
  {
  }

  lemma UnitOfEncode(c: nat, rest: Bytes)
    requires IsScalar(c)
    ensures Taken(Encode(c) + rest) == |Encode(c)| && Unit(Encode(c) + rest) == c
  {
    var s := Encode(c) + rest;
    assert forall i :: 0 <= i < |Encode(c)| ==> s[i] == Encode(c)[i];
    if 0x800 <= c {
      SecondFits(c);
    }
  }

  lemma LossyFirst(c: nat, rest: Bytes)
    requires IsScalar(c)
    ensures Lossy(Encode(c) + rest) == [c] + Lossy(rest)
  {
    UnitOfEncode(c, rest);
    SplitTwo(Encode(c), rest);
  }

  /** Well-formed text is read back as it was written. */
  lemma {:induction false} LossyEncodeAll(t: Text)
    requires forall c :: c in t ==> IsScalar(c)
    ensures Lossy(EncodeAll(t)) == t
  {
    if t != [] {
      var rest := EncodeAll(t[1..]);
      LossyEncodeAll(t[1..]);
      LossyFirst(t[0], rest);
      assert t == [t[0]] + t[1..];
    }
  }

  // ----- cutting the bytes in two -----

  /** `k` bytes are a whole number of units of `s`. */
  ghost predicate Boundary(s: Bytes, k: nat)
    decreases |s|
  {
    k == 0 || (s != [] && Taken(s) <= k && Boundary(s[Taken(s)..], k - Taken(s)))
  }

  /** The unit at the front depends only on its own bytes. */
  lemma UnitIsLocal(a: Bytes, b: Bytes)
    requires a != [] && Taken(a + b) <= |a|
    ensures Taken(a) == Taken(a + b) && Unit(a) == Unit(a + b)
  {
  }

  lemma DropFront(a: Bytes, b: Bytes, n: nat)
    requires n <= |a|
    ensures (a + b)[n..] == a[n..] + b
  {
  }

  lemma TextAssoc(a: Text, b: Text, c: Text)
    ensures a + (b + c) == (a + b) + c
  {
  }

  /** Decoding the parts of a cut between units gives what the whole gives. */
  lemma {:induction false} CutBetweenUnits(a: Bytes, b: Bytes)
    requires Boundary(a + b, |a|)
    ensures Lossy(a + b) == Lossy(a) + Lossy(b)
    decreases |a|
  {
    var s := a + b;
    if a == [] {
      assert s == b;
    } else {
      var n := Taken(s);
      UnitIsLocal(a, b);
      DropFront(a, b, n);
      CutBetweenUnits(a[n..], b);
      TextAssoc([Unit(s)], Lossy(a[n..]), Lossy(b));
    }
  }

  /** A unit cut short is still one unit, and the bytes cut off it each become one more. */
  lemma UnitCut(a: Bytes, b: Bytes)
    requires a != [] && |a| < Taken(a + b)
    ensures Taken(a) == |a|
    ensures forall i :: 0 <= i < Taken(a + b) - |a| ==> Continues(b[i])
  {
    var s := a + b;
    assert forall i :: |a| <= i < |s| ==> s[i] == b[i - |a|];
    assert forall i :: 0 <= i < |a| ==> s[i] == a[i];
    forall i | 0 <= i < Taken(s) - |a| ensures Continues(b[i]) {
      assert b[i] == s[i + |a|];
    }
  }

  lemma {:induction false} StrayBytes(s: Bytes, n: nat)
    requires n <= |s| && forall i :: 0 <= i < n ==> Continues(s[i])
    ensures |Lossy(s)| == n + |Lossy(s[n..])|
  {
    if n == 0 {
      assert s[0..] == s;
    } else {
      assert Continues(s[0]) && Taken(s) == 1;
      StrayBytes(s[1..], n - 1);
      assert s[1..][n - 1..] == s[n..];
    }
  }

  lemma PastFront(a: Bytes, b: Bytes, n: nat)
    requires |a| <= n <= |a| + |b|
    ensures (a + b)[n..] == b[n - |a|..]
  {
  }

  lemma CutInsideFront(a: Bytes, b: Bytes)
    requires a != [] && |a| < Taken(a + b)
    ensures |Lossy(a)| + |Lossy(b)| > |Lossy(a + b)|
  {
    var n, rest := Taken(a + b), Taken(a + b) - |a|;
    UnitCut(a, b);
    StrayBytes(b, rest);
    PastFront(a, b, n);
    assert Lossy(a[Taken(a)..]) == [];
  }

  /** Decoding the parts of a cut inside a unit gives more characters than the whole. */
  lemma {:induction false} CutInsideUnit(a: Bytes, b: Bytes)
    requires !Boundary(a + b, |a|)
    ensures |Lossy(a)| + |Lossy(b)| > |Lossy(a + b)|
    decreases |a|
  {
    var s := a + b;
    var n := Taken(s);
    if n <= |a| {
      UnitIsLocal(a, b);
      DropFront(a, b, n);
      CutInsideUnit(a[n..], b);
    } else {
      CutInsideFront(a, b);
    }
  }

  // ----- any number of pieces -----

  function Flatten(pieces: seq<Bytes>): Bytes {
    if pieces == [] then [] else pieces[0] + Flatten(pieces[1..])
  }

  /** The text put together from the pieces, each decoded on its own. */
  function Assembled(pieces: seq<Bytes>): Text {
    if pieces == [] then [] else Lossy(pieces[0]) + Assembled(pieces[1..])
  }

  /** Where piece `i` starts in the whole. */
  function Start(pieces: seq<Bytes>, i: nat): nat
    requires i <= |pieces|
  {
    if i == 0 then 0 else |pieces[0]| + Start(pieces[1..], i - 1)
  }

  /** No piece starts inside a unit of the whole. */
  ghost predicate CutAtUnits(pieces: seq<Bytes>) {
    forall i: nat :: i < |pieces| ==> Boundary(Flatten(pieces), Start(pieces, i))
  }

  lemma {:induction false} BoundaryAfter(a: Bytes, b: Bytes, k: nat)
    requires Boundary(a + b, |a|)
    ensures Boundary(a + b, |a| + k) <==> Boundary(b, k)
    decreases |a|
  {
    var s := a + b;
    if a == [] {
      assert s == b;
    } else {
      DropFront(a, b, Taken(s));
      BoundaryAfter(a[Taken(s)..], b, k);
    }
  }

  lemma ShiftedCut(pieces: seq<Bytes>, i: nat)
    requires i + 1 < |pieces| && Boundary(Flatten(pieces), |pieces[0]|)
    ensures Boundary(Flatten(pieces[1..]), Start(pieces[1..], i)) <==> Boundary(Flatten(pieces), Start(pieces, i + 1))
  {
    BoundaryAfter(pieces[0], Flatten(pieces[1..]), Start(pieces[1..], i));
  }

  lemma RestIsCut(pieces: seq<Bytes>)
    requires |pieces| > 1 && Boundary(Flatten(pieces), |pieces[0]|) && CutAtUnits(pieces)
    ensures CutAtUnits(pieces[1..])
  {
    forall i: nat | i < |pieces[1..]| ensures Boundary(Flatten(pieces[1..]), Start(pieces[1..], i)) {
      ShiftedCut(pieces, i);
    }
  }

  lemma WholeIsCut(pieces: seq<Bytes>)
    requires |pieces| > 1 && Boundary(Flatten(pieces), |pieces[0]|) && CutAtUnits(pieces[1..])
    ensures CutAtUnits(pieces)
  {
    forall i: nat | i < |pieces| ensures Boundary(Flatten(pieces), Start(pieces, i)) {
      CutAt(pieces, pieces[1..], Flatten(pieces[1..]), i);
    }
  }

  lemma CutAt(pieces: seq<Bytes>, rest: seq<Bytes>, b: Bytes, i: nat)
    requires i < |pieces| && rest == pieces[1..] && b == Flatten(rest) && Boundary(Flatten(pieces), |pieces[0]|)
    requires i > 0 ==> Boundary(b, Start(rest, i - 1))
    ensures Boundary(Flatten(pieces), Start(pieces, i))
  {
    if i > 0 {
      ShiftedCut(pieces, i - 1);
    }
  }

  lemma CutsOfRest(pieces: seq<Bytes>)
    requires |pieces| > 1 && Boundary(Flatten(pieces), |pieces[0]|)
    ensures CutAtUnits(pieces) <==> CutAtUnits(pieces[1..])
  {
    if CutAtUnits(pieces) {
      RestIsCut(pieces);
    }
    if CutAtUnits(pieces[1..]) {
      WholeIsCut(pieces);
    }
  }

  /** Decoding piece by piece never loses characters. */
  lemma {:induction false} AssembledIsLonger(pieces: seq<Bytes>)
    ensures |Assembled(pieces)| >= |Lossy(Flatten(pieces))|
  {
    if pieces != [] {
      var a, b := pieces[0], Flatten(pieces[1..]);
      AssembledIsLonger(pieces[1..]);
      if Boundary(a + b, |a|) {
        CutBetweenUnits(a, b);
      } else {
        CutInsideUnit(a, b);
      }
    }
  }

  lemma FirstPiece(pieces: seq<Bytes>)
    requires pieces != []
    ensures Flatten(pieces) == pieces[0] + Flatten(pieces[1..])
    ensures Assembled(pieces) == Lossy(pieces[0]) + Assembled(pieces[1..])
  {
  }

  /** A first piece that ends inside a unit cannot be made up for. */
  lemma FirstCutInside(pieces: seq<Bytes>)
    requires |pieces| > 1 && !Boundary(Flatten(pieces), |pieces[0]|)
    ensures Assembled(pieces) != Lossy(Flatten(pieces)) && !CutAtUnits(pieces)
  {
    var a, rest := pieces[0], pieces[1..];
    CutInsideUnit(a, Flatten(rest));
    AssembledIsLonger(rest);
    FirstPiece(pieces);
    assert Start(rest, 0) == 0;
    assert Start(pieces, 1) == |a|;
    assert !Boundary(Flatten(pieces), Start(pieces, 1));
  }

  lemma NoneLeft(a: Bytes, t: Text)
    ensures a + [] == a && t + [] == t
  {
  }

  lemma OnePiece(pieces: seq<Bytes>)
    requires |pieces| == 1
    ensures Assembled(pieces) == Lossy(Flatten(pieces)) && CutAtUnits(pieces)
  {
    FirstPiece(pieces);
    assert Flatten(pieces[1..]) == [] && Assembled(pieces[1..]) == [];
    NoneLeft(pieces[0], Lossy(pieces[0]));
    assert Start(pieces, 0) == 0;
  }

  /**
    The text put together piece by piece is the text of the whole exactly when
    no piece starts inside a character, or inside an ill-formed unit.
   */
  lemma {:induction false} AssembledIsWhole(pieces: seq<Bytes>)
    ensures Assembled(pieces) == Lossy(Flatten(pieces)) <==> CutAtUnits(pieces)
  {
    if |pieces| == 1 {
      OnePiece(pieces);
    } else if pieces != [] {
      var a, rest := pieces[0], pieces[1..];
      FirstPiece(pieces);
      if Boundary(Flatten(pieces), |a|) {
        AssembledIsWhole(rest);
        CutBetweenUnits(a, Flatten(rest));
        CutsOfRest(pieces);
        SamePrefix(Lossy(a), Assembled(rest), Lossy(Flatten(rest)));
      } else {
        FirstCutInside(pieces);
      }
    }
  }

  lemma SamePrefix(p: Text, x: Text, y: Text)
    ensures p + x == p + y <==> x == y
  {
    if p + x == p + y {
      assert x == (p + x)[|p|..] && y == (p + y)[|p|..];
    }
  }

  // ----- ASCII -----

  predicate IsAscii(s: Bytes) {
    forall i :: 0 <= i < |s| ==> s[i] < 0x80
  }

  function AsciiText(s: Bytes): Text {
    seq(|s|, i requires 0 <= i < |s| => s[i] as int)
  }

  lemma {:induction false} AsciiUnits(s: Bytes, k: nat)
    requires IsAscii(s) && k <= |s|
    ensures Boundary(s, k)
    decreases |s|
  {
    if k > 0 {
      AsciiUnits(s[1..], k - 1);
    }
  }

  lemma {:induction false} LossyAscii(s: Bytes)
    requires IsAscii(s)
    ensures Lossy(s) == AsciiText(s)
  {
    if s != [] {
      LossyAscii(s[1..]);
      assert AsciiText(s) == [s[0] as int] + AsciiText(s[1..]);
    }
  }

  lemma {:induction false} StartInside(pieces: seq<Bytes>, i: nat)
    requires i <= |pieces|
    ensures Start(pieces, i) <= |Flatten(pieces)|
  {
    if i > 0 {
      StartInside(pieces[1..], i - 1);
    }
  }

  /** ASCII text does not depend on how it is cut. */
  lemma AssembledAscii(pieces: seq<Bytes>)
    requires IsAscii(Flatten(pieces))
    ensures Assembled(pieces) == AsciiText(Flatten(pieces))
  {
    forall i: nat | i < |pieces| ensures Boundary(Flatten(pieces), Start(pieces, i)) {
      StartInside(pieces, i);
      AsciiUnits(Flatten(pieces), Start(pieces, i));
    }
    AssembledIsWhole(pieces);
    LossyAscii(Flatten(pieces));
  }

  /** The euro sign in one buffer is one character, and split over two buffers it is three replacement characters. */
  lemma EuroSignCut(euro: Bytes, head: Bytes, tail: Bytes)
    requires euro == [0xE2, 0x82, 0xAC] && head == [0xE2] && tail == [0x82, 0xAC]
    ensures Flatten([head, tail]) == euro && Lossy(euro) == [0x20AC]
    ensures Assembled([head, tail]) == [0xFFFD, 0xFFFD, 0xFFFD]
  {
    var stray: Bytes := tail[1..];
    assert Taken(euro) == 3 && Unit(euro) == 0x20AC && Lossy(euro) == [Unit(euro)] + Lossy(euro[3..]);
    assert Taken(head) == 1 && Lossy(head) == [REPLACEMENT] + Lossy(head[1..]);
    assert Taken(stray) == 1 && Lossy(stray) == [REPLACEMENT] + Lossy(stray[1..]);
    assert Taken(tail) == 1 && Lossy(tail) == [REPLACEMENT] + Lossy(stray);
    assert [head, tail][1..] == [tail] && Assembled([tail]) == Lossy(tail) + Assembled([tail][1..]);
    assert Flatten([tail]) == tail + Flatten([tail][1..]) == tail;
  }

  // ----- what a unit is, told by the encoder -----

  /** The code points but the surrogates. */
  lemma ScalarIs(c: nat)
    ensures IsScalar(c) <==> c <= 0x10_FFFF && !(0xD800 <= c <= 0xDFFF)
  {
  }

  /** The encoder's form is the shortest there is, and its bytes are the digits of the value after their marks. */
  lemma EncodeIs(c: nat)
    requires c <= 0xD7FF || 0xE000 <= c <= 0x10_FFFF
    ensures var e := Encode(c);
            && (c < 0x80 ==> |e| == 1 && e[0] as int == c)
            && (0x80 <= c < 0x800 ==> |e| == 2 && c == (e[0] as int - 0xC0) * 0x40 + (e[1] as int - 0x80))
            && (0x800 <= c < 0x1_0000 ==>
                  |e| == 3 && c == (e[0] as int - 0xE0) * 0x1000 + (e[1] as int - 0x80) * 0x40 + (e[2] as int - 0x80))
            && (0x1_0000 <= c ==>
                  |e| == 4 && c == (e[0] as int - 0xF0) * 0x4_0000 + (e[1] as int - 0x80) * 0x1000
                                   + (e[2] as int - 0x80) * 0x40 + (e[3] as int - 0x80))
            && forall i :: 1 <= i < |e| ==> 0x80 <= e[i] < 0xC0
  {
    Digits(c);
    Digits(c / 64);
    Digits(c / 64 / 64);
  }

  lemma Digits(x: nat)
    ensures x == x / 64 * 64 + x % 64
  {
  }

  /** The bytes begin the form of some scalar value, or are it. */
  ghost predicate Begins(s: Bytes) {
    exists c :: IsScalar(c) && s <= Encode(c)
  }

  /** A whole unit is the form of what it reads as. */
  lemma EncodeUnit(u: Bytes)
    requires u != [] && Taken(u) == Width(u[0]) == |u|
    ensures IsScalar(Unit(u)) && Encode(Unit(u)) == u
  {
    if |u| == 2 {
      EncodeTwo(u);
    } else if |u| == 3 {
      EncodeThree(u);
    } else if |u| == 4 {
      EncodeFour(u);
    }
  }

  lemma EncodeTwo(u: Bytes)
    requires |u| == 2 && Taken(u) == Width(u[0]) == 2
    ensures IsScalar(Unit(u)) && Encode(Unit(u)) == u
  {
    Rebuild(u[0] as int - 0xC0, Bits(u[1]));
    LowDigit(u[1], Unit(u));
  }

  lemma EncodeThree(u: Bytes)
    requires |u| == 3 && Taken(u) == Width(u[0]) == 3
    ensures IsScalar(Unit(u)) && Encode(Unit(u)) == u
  {
    var c := Unit(u);
    var high := (u[0] as int - 0xE0) * 64 + Bits(u[1]);
    assert c == high * 64 + Bits(u[2]);
    Rebuild(u[0] as int - 0xE0, Bits(u[1]));
    Rebuild(high, Bits(u[2]));
    LowDigit(u[2], c);
    LowDigit(u[1], high);
    assert 0x800 <= c < 0x1_0000;
  }

  lemma EncodeFour(u: Bytes)
    requires |u| == 4 && Taken(u) == Width(u[0]) == 4
    ensures IsScalar(Unit(u)) && Encode(Unit(u)) == u
  {
    var c := Unit(u);
    var top := (u[0] as int - 0xF0) * 64 + Bits(u[1]);
    var high := top * 64 + Bits(u[2]);
    assert c == high * 64 + Bits(u[3]);
    Rebuild(u[0] as int - 0xF0, Bits(u[1]));
    Rebuild(top, Bits(u[2]));
    Rebuild(high, Bits(u[3]));
    LowDigit(u[3], c);
    LowDigit(u[2], high);
    LowDigit(u[1], top);
    assert 0x1_0000 <= c < 0x11_0000;
  }

  lemma LowDigit(b: Byte, x: nat)
    requires Continues(b) && Bits(b) == x % 64
    ensures Tail(x) == b
  {
  }

  lemma Rebuild(q: int, r: nat)
    requires r < 64
    ensures (q * 64 + r) / 64 == q && (q * 64 + r) % 64 == r
  {
  }

  /** A unit of several bytes begins some form: continuation bytes of zeros complete it. */
  lemma UnitBegins(s: Bytes)
    requires s != [] && Taken(s) > 1
    ensures Begins(s[..Taken(s)])
  {
    var n, w := Taken(s), Width(s[0]);
    var zeros: Bytes := seq(w - n, _ => 0x80);
    var u := s[..n] + zeros;
    assert u[0] == s[0] && u[1] == s[1];
    assert forall i :: 0 <= i < w ==> u[i] == if i < n then s[i] else 0x80;
    assert Taken(u) == w;
    EncodeUnit(u);
    assert s[..n] <= Encode(Unit(u));
  }

  /** Bytes that agree with a whole unit are taken with it as far as they agree. */
  lemma TakenAgrees(s: Bytes, e: Bytes, n: nat)
    requires 1 <= n <= |s| && n <= |e| && s[..n] == e[..n] && Taken(e) == Width(e[0]) == |e|
    ensures Taken(s) >= n
  {
    assert forall i :: 0 <= i < n ==> s[i] == s[..n][i] && e[i] == e[..n][i];
  }

  lemma EncodeWhole(c: nat)
    requires IsScalar(c)
    ensures Taken(Encode(c)) == Width(Encode(c)[0]) == |Encode(c)| && Unit(Encode(c)) == c
  {
    UnitOfEncode(c, []);
    assert Encode(c) + [] == Encode(c);
    if 0x800 <= c {
      SecondFits(c);
    }
  }

  lemma BeginsTaken(s: Bytes, n: nat)
    requires 1 <= n <= |s| && Begins(s[..n])
    ensures Taken(s) >= n
  {
    var c :| IsScalar(c) && s[..n] <= Encode(c);
    EncodeWhole(c);
    TakenAgrees(s, Encode(c), n);
  }

  /**
    The unit at the front is the longest start of the bytes that begins the form
    of a scalar value, or a single byte that begins none. It reads as the value
    whose form it is, and as U+FFFD if it is none.
   */
  lemma UnitIsMaximal(s: Bytes, n: nat)
    requires s != []
    ensures Taken(s) > 1 ==> Begins(s[..Taken(s)])
    ensures Taken(s) < n <= |s| ==> !Begins(s[..n])
    ensures forall c :: IsScalar(c) && Encode(c) == s[..Taken(s)] ==> Unit(s) == c
    ensures (forall c :: IsScalar(c) ==> Encode(c) != s[..Taken(s)]) ==> Unit(s) == 0xFFFD
  {
    var u := s[..Taken(s)];
    if Taken(s) > 1 {
      UnitBegins(s);
    }
    if 1 <= n <= |s| && Begins(s[..n]) {
      BeginsTaken(s, n);
    }
    assert s == u + s[Taken(s)..];
    UnitIsLocal(u, s[Taken(s)..]);
    forall c | IsScalar(c) && Encode(c) == u ensures Unit(s) == c {
      EncodeWhole(c);
    }
    if Unit(s) != 0xFFFD {
      assert Taken(s) == Width(s[0]);
      EncodeUnit(u);
    }
  }
}
