/**
  Polynomials over GF(2), coefficients highest degree first, and division by a
  monic generator of degree 32. The generator is given by its coefficients `g`
  below the leading one, from x^31 down.
 */
module Gf2 {

  type Poly = seq<bool>

  /** The coefficient at `i`, zero outside the polynomial. */
  predicate At(p: Poly, i: int) {
    0 <= i < |p| && p[i]
  }

  /** The coefficient at `i` of the generator. */
  predicate Generator(g: Poly, i: int) {
    i == 0 || At(g, i - 1)
  }

  /** The product with the generator: (q x + t) G = (q G) x + t G. */
  function Times(g: Poly, q: Poly): (p: Poly)
    requires |g| == 32
    ensures |p| == |q| + 32
  {
    if q == [] then seq(32, _ => false)
    else
      var n := |q| - 1;
      var shorter := Times(g, q[..n]);
      seq(n + 33, i => At(shorter, i) != (q[n] && Generator(g, i - n)))
  }

  /** The coefficient at `i` of the message times x^32, its first 32 bits complemented. */
  predicate Dividend(m: Poly, i: int) {
    (0 <= i < 32) != At(m, i)
  }

  /** Dividing the dividend by the generator gives `q` and leaves `r`, of degree below 32. */
  ghost predicate Divides(g: Poly, m: Poly, q: Poly, r: Poly)
    requires |g| == 32
  {
    && |q| == |m| && |r| == 32
    && forall i :: 0 <= i < |m| + 32 ==> Dividend(m, i) == (Times(g, q)[i] != At(r, i - |m|))
  }

  // ----- the shift register -----

  function Xor(a: Poly, b: Poly): (c: Poly)
    requires |a| == |b| == 32
    ensures |c| == 32 && forall i :: 0 <= i < 32 ==> c[i] == (a[i] != b[i])
  {
    seq(32, i requires 0 <= i < 32 => a[i] != b[i])
  }

  /** The register moved `n` places up, zeros coming in at the bottom. */
  function Up(a: Poly, n: nat): (c: Poly)
    requires |a| == 32
    ensures |c| == 32 && forall i :: 0 <= i < 32 ==> c[i] == At(a, i + n)
  {
    seq(32, i => At(a, i + n))
  }

  /** A register holding `bit` at place `n` and nothing else. */
  function Unit(n: nat, bit: bool): (c: Poly)
    ensures |c| == 32 && forall i :: 0 <= i < 32 ==> c[i] == (i == n && bit)
  {
    seq(32, i => i == n && bit)
  }

  /** The bits `m` in the top places of a register. */
  function Pad(m: Poly): (c: Poly)
    ensures |c| == 32 && forall i :: 0 <= i < 32 ==> c[i] == At(m, i)
  {
    seq(32, i => At(m, i))
  }

  /** Multiply the register by x and reduce. */
  function Shift(g: Poly, r: Poly): (s: Poly)
    requires |g| == |r| == 32
    ensures |s| == 32 && forall i :: 0 <= i < 32 ==> s[i] == (At(r, i + 1) != (r[0] && g[i]))
  {
    if r[0] then Xor(Up(r, 1), g) else Up(r, 1)
  }

  function Feed(g: Poly, r: Poly, bit: bool): (s: Poly)
    requires |g| == |r| == 32
    ensures |s| == 32
  {
    Shift(g, Xor(r, Unit(0, bit)))
  }

  /** The register after the bits `m`, from the state `r`. */
  function FeedAll(g: Poly, r: Poly, m: Poly): (s: Poly)
    requires |g| == |r| == 32
    ensures |s| == 32
  {
    if m == [] then r else Feed(g, FeedAll(g, r, m[..|m| - 1]), m[|m| - 1])
  }

  function Ones(): (r: Poly)
    ensures |r| == 32 && forall i :: 0 <= i < 32 ==> r[i]
  {
    seq(32, _ => true)
  }

  function Register(g: Poly, m: Poly): (r: Poly)
    requires |g| == 32
    ensures |r| == 32
  {
    FeedAll(g, Ones(), m)
  }

  /** The bits the register reduced by, one for each message bit. */
  function Quotient(g: Poly, m: Poly): (q: Poly)
    requires |g| == 32
    ensures |q| == |m|
  {
    if m == [] then []
    else
      var n := |m| - 1;
      Quotient(g, m[..n]) + [Register(g, m[..n])[0] != m[n]]
  }

  /** The register holds the remainder of the long division, whatever the message. */
  lemma {:induction false} RegisterDivides(g: Poly, m: Poly)
    requires |g| == 32
    ensures Divides(g, m, Quotient(g, m), Register(g, m))
    decreases |m|
  {
    if m != [] {
      var n := |m| - 1;
      RegisterDivides(g, m[..n]);
      DivideOneMore(g, m[..n], m[n], Quotient(g, m[..n]), Register(g, m[..n]));
      assert m == m[..n] + [m[n]];
    }
  }

  lemma DivideOneMore(g: Poly, m: Poly, bit: bool, q: Poly, r: Poly)
    requires |g| == 32 && Divides(g, m, q, r)
    ensures Divides(g, m + [bit], q + [r[0] != bit], Feed(g, r, bit))
  {
    forall i | 0 <= i < |m| + 33
      ensures Dividend(m + [bit], i)
              == (Times(g, q + [r[0] != bit])[i] != At(Feed(g, r, bit), i - |m| - 1))
    {
      DivideOneMoreAt(g, m, bit, q, r, i);
    }
  }

  lemma DivideOneMoreAt(g: Poly, m: Poly, bit: bool, q: Poly, r: Poly, i: int)
    requires |g| == 32 && Divides(g, m, q, r) && 0 <= i < |m| + 33
    ensures Dividend(m + [bit], i)
            == (Times(g, q + [r[0] != bit])[i] != At(Feed(g, r, bit), i - |m| - 1))
  {
    var q' := q + [r[0] != bit];
    assert q'[..|m|] == q;
    TimesAt(g, q', i);
    if i < |m| + 32 {
      DividesAt(g, m, q, r, i);
    }
  }

  lemma DividesAt(g: Poly, m: Poly, q: Poly, r: Poly, i: int)
    requires |g| == 32 && Divides(g, m, q, r) && 0 <= i < |m| + 32
    ensures Dividend(m, i) == (Times(g, q)[i] != At(r, i - |m|))
  {
  }

  /** The quotient is read off the product's leading coefficients. */
  lemma {:induction false} TimesInjective(g: Poly, q: Poly, q': Poly)
    requires |g| == 32 && |q| == |q'|
    requires forall i :: 0 <= i < |q| ==> Times(g, q)[i] == Times(g, q')[i]
    ensures q == q'
    decreases |q|
  {
    if q != [] {
      var n := |q| - 1;
      forall i | 0 <= i < n ensures Times(g, q[..n])[i] == Times(g, q'[..n])[i] {
        TimesAt(g, q, i);
        TimesAt(g, q', i);
      }
      TimesInjective(g, q[..n], q'[..n]);
      TimesAt(g, q, n);
      TimesAt(g, q', n);
      assert q == q[..n] + [q[n]] && q' == q'[..n] + [q'[n]];
    }
  }

  lemma TimesAt(g: Poly, q: Poly, i: int)
    requires |g| == 32 && q != [] && 0 <= i < |q| + 32
    ensures var n := |q| - 1; Times(g, q)[i] == (At(Times(g, q[..n]), i) != (q[n] && Generator(g, i - n)))
  {
  }

  /** Only one quotient and one remainder divide a message. */
  lemma RemainderUnique(g: Poly, m: Poly, q: Poly, r: Poly, q': Poly, r': Poly)
    requires |g| == 32 && Divides(g, m, q, r) && Divides(g, m, q', r')
    ensures q == q' && r == r'
  {
    var n := |m|;
    forall i | 0 <= i < n ensures Times(g, q)[i] == Times(g, q')[i] {
      DividesAt(g, m, q, r, i);
      DividesAt(g, m, q', r', i);
    }
    TimesInjective(g, q, q');
    forall i | 0 <= i < 32 ensures r[i] == r'[i] {
      DividesAt(g, m, q, r, n + i);
      DividesAt(g, m, q', r', n + i);
    }
  }

  // ----- feeding several bits at once -----

  function ShiftN(g: Poly, r: Poly, n: nat): (s: Poly)
    requires |g| == |r| == 32
    ensures |s| == 32
  {
    if n == 0 then r else Shift(g, ShiftN(g, r, n - 1))
  }

  /** Shifting after adding bits below the leading one adds them one place up. */
  lemma ShiftAdds(g: Poly, r: Poly, a: Poly)
    requires |g| == |r| == |a| == 32 && !a[0]
    ensures Shift(g, Xor(r, a)) == Xor(Shift(g, r), Up(a, 1))
  {
  }

  /** `n` shifts carry bits that lie below the top `n` up by `n` places. */
  lemma {:induction false} ShiftNAdds(g: Poly, r: Poly, n: nat, a: Poly)
    requires |g| == |r| == |a| == 32 && n <= 32
    requires forall i :: 0 <= i < n ==> !a[i]
    ensures ShiftN(g, Xor(r, a), n) == Xor(ShiftN(g, r, n), Up(a, n))
    decreases n
  {
    if n == 0 {
      assert Up(a, 0) == a;
    } else {
      ShiftNAdds(g, r, n - 1, a);
      ShiftAdds(g, ShiftN(g, r, n - 1), Up(a, n - 1));
      assert Up(Up(a, n - 1), 1) == Up(a, n);
    }
  }

  /** Up to 32 bits added to the register and then shifted out are the same bits fed one at a time. */
  lemma {:induction false} FeedAtOnce(g: Poly, r: Poly, m: Poly)
    requires |g| == |r| == 32 && |m| <= 32
    ensures FeedAll(g, r, m) == ShiftN(g, Xor(r, Pad(m)), |m|)
    decreases |m|
  {
    if m == [] {
      assert Xor(r, Pad(m)) == r;
    } else {
      var n := |m| - 1;
      FeedAtOnce(g, r, m[..n]);
      var a := Xor(r, Pad(m[..n]));
      assert Xor(r, Pad(m)) == Xor(a, Unit(n, m[n]));
      ShiftNAdds(g, a, n, Unit(n, m[n]));
      assert Up(Unit(n, m[n]), n) == Unit(0, m[n]);
    }
  }

  lemma Init(a: Poly, b: Poly)
    requires b != []
    ensures (a + b)[..|a + b| - 1] == a + b[..|b| - 1] && (a + b)[|a + b| - 1] == b[|b| - 1]
  {
  }

  lemma {:induction false} FeedAllAppend(g: Poly, r: Poly, a: Poly, b: Poly)
    requires |g| == |r| == 32
    ensures FeedAll(g, r, a + b) == FeedAll(g, FeedAll(g, r, a), b)
    decreases |b|
  {
    if b == [] {
      assert a + b == a;
    } else {
      var n := |b| - 1;
      FeedAllAppend(g, r, a, b[..n]);
      Init(a, b);
    }
  }

  // ----- nothing is lost -----

  /** The generator's last coefficient is 1, so the last bit tells whether it was added. */
  lemma ShiftInjective(g: Poly, r: Poly, s: Poly)
    requires |g| == |r| == |s| == 32 && g[31]
    requires Shift(g, r) == Shift(g, s)
    ensures r == s
  {
    assert Shift(g, r)[31] == r[0] && Shift(g, s)[31] == s[0];
    forall i | 1 <= i < 32 ensures r[i] == s[i] {
      assert Shift(g, r)[i - 1] == (At(r, i - 1 + 1) != (r[0] && g[i - 1]));
      assert Shift(g, s)[i - 1] == (At(s, i - 1 + 1) != (s[0] && g[i - 1]));
    }
  }

  lemma {:induction false} ShiftNInjective(g: Poly, r: Poly, s: Poly, n: nat)
    requires |g| == |r| == |s| == 32 && g[31]
    requires ShiftN(g, r, n) == ShiftN(g, s, n)
    ensures r == s
    decreases n
  {
    if n > 0 {
      ShiftInjective(g, ShiftN(g, r, n - 1), ShiftN(g, s, n - 1));
      ShiftNInjective(g, r, s, n - 1);
    }
  }

  lemma XorInjective(r: Poly, a: Poly, b: Poly)
    requires |r| == |a| == |b| == 32 && Xor(r, a) == Xor(r, b)
    ensures a == b
  {
    assert forall i :: 0 <= i < 32 ==> Xor(r, a)[i] == Xor(r, b)[i];
  }

  lemma FeedInjective(g: Poly, r: Poly, s: Poly, bit: bool)
    requires |g| == |r| == |s| == 32 && g[31]
    requires Feed(g, r, bit) == Feed(g, s, bit)
    ensures r == s
  {
    var u := Unit(0, bit);
    ShiftInjective(g, Xor(r, u), Xor(s, u));
    assert forall i :: 0 <= i < 32 ==> Xor(r, u)[i] == Xor(s, u)[i];
  }

  /** Different registers stay different under the same bits. */
  lemma {:induction false} FeedKeepsApart(g: Poly, r: Poly, s: Poly, m: Poly)
    requires |g| == |r| == |s| == 32 && g[31] && r != s
    ensures FeedAll(g, r, m) != FeedAll(g, s, m)
    decreases |m|
  {
    if m != [] {
      var n := |m| - 1;
      FeedKeepsApart(g, r, s, m[..n]);
      if FeedAll(g, r, m) == FeedAll(g, s, m) {
        FeedInjective(g, FeedAll(g, r, m[..n]), FeedAll(g, s, m[..n]), m[n]);
      }
    }
  }

  /** Up to 32 different bits fed to the same register leave it different. */
  lemma BurstTellsApart(g: Poly, r: Poly, m: Poly, m': Poly)
    requires |g| == |r| == 32 && g[31] && |m| == |m'| <= 32 && m != m'
    ensures FeedAll(g, r, m) != FeedAll(g, r, m')
  {
    FeedAtOnce(g, r, m);
    FeedAtOnce(g, r, m');
    var i :| 0 <= i < |m| && m[i] != m'[i];
    assert Pad(m)[i] != Pad(m')[i];
    if FeedAll(g, r, m) == FeedAll(g, r, m') {
      ShiftNInjective(g, Xor(r, Pad(m)), Xor(r, Pad(m')), |m|);
      XorInjective(r, Pad(m), Pad(m'));
    }
  }
}
