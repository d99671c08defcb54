/** Vocabulary shared by every module of the model. */
module Common {

  datatype Option<+T> = None | Some(value: T)

  newtype Byte = x: int | 0 <= x < 256

  type Bytes = seq<Byte>

  /** The largest `usize` of the 64-bit targets the daemon is built for. */
  const USIZE_MAX := 0xFFFF_FFFF_FFFF_FFFF

  /**
    A value assigned to a variable of this type is checked to fit in a `usize`,
    so every `checked_add` that the model writes as a plain sum is shown never
    to take its overflow branch.
   */
  type Usize = x: int | 0 <= x <= USIZE_MAX

  /** No Rust slice is longer than `isize::MAX` bytes. */
  const SLICE_MAX := 0x7FFF_FFFF_FFFF_FFFF

  datatype Dimensions = Dimensions(width: nat, height: nat)

  /** One turn of a header walk stops with an answer, or goes on at a later offset. */
  datatype Turn = Stop(answer: Option<Dimensions>) | Go(next: nat)

  lemma Assoc(a: Bytes, b: Bytes, c: Bytes)
    ensures (a + b) + c == a + (b + c)
  {
  }

  lemma SplitTwo(a: Bytes, b: Bytes)
    ensures (a + b)[..|a|] == a && (a + b)[|a|..] == b
  {
  }

  lemma SliceOfTaken(s: Bytes, k: nat, i: nat, j: nat)
    requires i <= j <= k <= |s|
    ensures s[..k][i..j] == s[i..j]
  {
  }

  lemma DropDropped(s: Bytes, k: nat, i: nat)
    requires k + i <= |s|
    ensures s[k..][i..] == s[k + i..]
  {
  }

  /** Two neighbouring slices make one. */
  lemma JoinSlices(s: Bytes, i: nat, j: nat, k: nat)
    requires i <= j <= k <= |s|
    ensures s[i..j] + s[j..k] == s[i..k]
  {
  }

  lemma JoinRest(s: Bytes, i: nat, j: nat)
    requires i <= j <= |s|
    ensures s[i..j] + s[j..] == s[i..]
  {
  }

  function Be16(x: int): (s: Bytes)
    requires 0 <= x < 0x1_0000
    ensures |s| == 2
  {
    [(x / 256) as Byte, (x % 256) as Byte]
  }

  function FromBe16(hi: Byte, lo: Byte): (x: nat)
    ensures x < 0x1_0000
  {
    hi as int * 256 + lo as int
  }

  lemma Be16Bytes(hi: Byte, lo: Byte)
    ensures Be16(FromBe16(hi, lo)) == [hi, lo]
  {
  }

  lemma Be16Value(x: int)
    requires 0 <= x < 0x1_0000
    ensures FromBe16(Be16(x)[0], Be16(x)[1]) == x
  {
  }

  // Little-endian fields of any width.

  function FromLe(s: Bytes): nat {
    if s == [] then 0 else s[0] as int + 256 * FromLe(s[1..])
  }

  function Le(x: nat, n: nat): (s: Bytes)
    ensures |s| == n
  {
    if n == 0 then [] else [(x % 256) as Byte] + Le(x / 256, n - 1)
  }

  /** How many values a field of `n` bytes has. */
  function Radix(n: nat): nat {
    if n == 0 then 1 else 256 * Radix(n - 1)
  }

  lemma RadixValues()
    ensures Radix(2) == 0x1_0000 && Radix(3) == 0x100_0000 && Radix(4) == 0x1_0000_0000
  {
    assert Radix(1) == 256;
  }

  /** Writing then reading gives the value back. */
  lemma {:induction false} LeValue(x: nat, n: nat)
    requires x < Radix(n)
    ensures FromLe(Le(x, n)) == x
  {
    if n > 0 {
      LeValue(x / 256, n - 1);
      assert Le(x, n)[1..] == Le(x / 256, n - 1);
    }
  }

  /** Reading then writing gives the bytes back. */
  lemma {:induction false} LeBytes(s: Bytes)
    ensures FromLe(s) < Radix(|s|) && Le(FromLe(s), |s|) == s
  {
    if s != [] {
      LeBytes(s[1..]);
      var x := FromLe(s);
      assert x % 256 == s[0] as int && x / 256 == FromLe(s[1..]);
      assert s == [s[0]] + s[1..];
    }
  }

  // Big-endian fields of any width.

  function FromBe(s: Bytes): nat {
    if s == [] then 0 else 256 * FromBe(s[..|s| - 1]) + s[|s| - 1] as int
  }

  function Be(x: nat, n: nat): (s: Bytes)
    ensures |s| == n
  {
    if n == 0 then [] else Be(x / 256, n - 1) + [(x % 256) as Byte]
  }

  lemma {:induction false} BeValue(x: nat, n: nat)
    requires x < Radix(n)
    ensures FromBe(Be(x, n)) == x
  {
    if n > 0 {
      BeValue(x / 256, n - 1);
      assert Be(x, n)[..n - 1] == Be(x / 256, n - 1);
    }
  }

  lemma {:induction false} BeBytes(s: Bytes)
    ensures FromBe(s) < Radix(|s|) && Be(FromBe(s), |s|) == s
  {
    if s != [] {
      var n := |s| - 1;
      BeBytes(s[..n]);
      var x := FromBe(s);
      assert x % 256 == s[n] as int && x / 256 == FromBe(s[..n]);
      assert s == s[..n] + [s[n]];
    }
  }

  // What fields of two, three and four bytes hold.

  lemma LeTwo(s: Bytes)
    requires |s| == 2
    ensures FromLe(s) == s[0] as int + 0x100 * (s[1] as int)
  {
    assert FromLe(s[1..]) == s[1] as int + 256 * FromLe(s[1..][1..]);
  }

  lemma LeThree(s: Bytes)
    requires |s| == 3
    ensures FromLe(s) == s[0] as int + 0x100 * (s[1] as int) + 0x1_0000 * (s[2] as int)
  {
    LeTwo(s[1..]);
  }

  lemma LeFour(s: Bytes)
    requires |s| == 4
    ensures FromLe(s) == s[0] as int + 0x100 * (s[1] as int) + 0x1_0000 * (s[2] as int) + 0x100_0000 * (s[3] as int)
  {
    LeThree(s[1..]);
  }

  lemma BeFour(s: Bytes)
    requires |s| == 4
    ensures FromBe(s) == 0x100_0000 * (s[0] as int) + 0x1_0000 * (s[1] as int) + 0x100 * (s[2] as int) + s[3] as int
  {
    var t, u, v := s[..3], s[..2], s[..1];
    assert t[..2] == u && u[..1] == v && v[..0] == [];
    assert FromBe(v) == s[0] as int && FromBe(u) == 256 * FromBe(v) + s[1] as int;
    assert FromBe(t) == 256 * FromBe(u) + s[2] as int;
  }
}
