/** Rust's `str::trim` and the order of `String`, which is the order of code points. */
module Strings {

  /** The characters of the Unicode property White_Space. */
  predicate IsWhite(c: char) {
    || '\t' <= c <= '\r' || c == ' ' || c == '\U{85}' || c == '\U{A0}' || c == '\U{1680}'
    || '\U{2000}' <= c <= '\U{200A}' || c == '\U{2028}' || c == '\U{2029}' || c == '\U{202F}'
    || c == '\U{205F}' || c == '\U{3000}'
  }

  function TrimStart(s: string): string {
    if s != [] && IsWhite(s[0]) then TrimStart(s[1..]) else s
  }

  function TrimEnd(s: string): string {
    if s != [] && IsWhite(s[|s| - 1]) then TrimEnd(s[..|s| - 1]) else s
  }

  function Trim(s: string): string {
    TrimEnd(TrimStart(s))
  }

  /** Not empty, and without white space around it. */
  predicate Clean(s: string) {
    s != [] && !IsWhite(s[0]) && !IsWhite(s[|s| - 1])
  }

  lemma {:induction false} TrimStartLength(s: string)
    ensures |TrimStart(s)| <= |s|
    ensures TrimStart(s) != [] ==> !IsWhite(TrimStart(s)[0])
  {
    if s != [] && IsWhite(s[0]) {
      TrimStartLength(s[1..]);
    }
  }

  lemma {:induction false} TrimEndLength(s: string)
    ensures |TrimEnd(s)| <= |s|
    ensures |TrimEnd(s)| == |s| ==> TrimEnd(s) == s && (s != [] ==> !IsWhite(s[|s| - 1]))
  {
    if s != [] && IsWhite(s[|s| - 1]) {
      TrimEndLength(s[..|s| - 1]);
    }
  }

  /** Trimming leaves a string as it is, and not empty, exactly when it is clean. */
  lemma TrimKeeps(s: string)
    ensures Trim(s) == s && Trim(s) != [] <==> Clean(s)
  {
    TrimStartLength(s);
    TrimEndLength(TrimStart(s));
    if s != [] && IsWhite(s[0]) {
      TrimStartLength(s[1..]);
    }
  }

  // ----- the order -----

  predicate AtMost(a: string, b: string) {
    a == [] || (b != [] && (a[0] < b[0] || (a[0] == b[0] && AtMost(a[1..], b[1..]))))
  }

  lemma {:induction false} Reflexive(a: string)
    ensures AtMost(a, a)
  {
    if a != [] {
      Reflexive(a[1..]);
    }
  }

  lemma {:induction false} Total(a: string, b: string)
    ensures AtMost(a, b) || AtMost(b, a)
  {
    if a != [] && b != [] && a[0] == b[0] {
      Total(a[1..], b[1..]);
    }
  }

  lemma {:induction false} Antisymmetric(a: string, b: string)
    requires AtMost(a, b) && AtMost(b, a)
    ensures a == b
  {
    if a != [] {
      Antisymmetric(a[1..], b[1..]);
      assert a == [a[0]] + a[1..] && b == [b[0]] + b[1..];
    }
  }

  lemma {:induction false} Transitive(a: string, b: string, c: string)
    requires AtMost(a, b) && AtMost(b, c)
    ensures AtMost(a, c)
  {
    if a != [] && a[0] == b[0] && b[0] == c[0] {
      Transitive(a[1..], b[1..], c[1..]);
    }
  }

  /** A smallest member comes before every other. */
  ghost predicate IsLeast(m: string, s: set<string>) {
    m in s && forall x :: x in s ==> AtMost(m, x)
  }

  lemma {:induction false} HasLeast(s: set<string>) returns (m: string)
    requires s != {}
    ensures IsLeast(m, s)
    decreases |s|
  {
    var x :| x in s;
    var rest := s - {x};
    if rest == {} {
      m := x;
      assert s == {x};
      Reflexive(x);
    } else {
      var y := HasLeast(rest);
      Total(x, y);
      Reflexive(x);
      m := if AtMost(x, y) then x else y;
      forall z | z in s ensures AtMost(m, z) {
        if z != x {
          if AtMost(x, y) {
            Transitive(x, y, z);
          }
        }
      }
    }
  }

  lemma LeastIsUnique(m: string, m': string, s: set<string>)
    requires IsLeast(m, s) && IsLeast(m', s)
    ensures m == m'
  {
    Antisymmetric(m, m');
  }

  /** The members of a set in ascending order. */
  ghost predicate IsSorted(l: seq<string>) {
    forall i, j :: 0 <= i < j < |l| ==> AtMost(l[i], l[j]) && l[i] != l[j]
  }

  ghost function Ascending(s: set<string>): (l: seq<string>)
    ensures |l| == |s| && IsSorted(l)
    ensures forall x :: x in l <==> x in s
    decreases |s|
  {
    if s == {} then []
    else
      assert exists m :: IsLeast(m, s) by {
        var m := HasLeast(s);
      }
      var m :| IsLeast(m, s);
      assert s == (s - {m}) + {m};
      [m] + Ascending(s - {m})
  }

  /** A list in ascending order is the one list of its members. */
  lemma {:induction false} SortedIsAscending(l: seq<string>, s: set<string>)
    requires IsSorted(l) && forall x :: x in l <==> x in s
    ensures l == Ascending(s)
    decreases |s|
  {
    if l == [] {
      assert s == {};
    } else {
      var l' := Ascending(s);
      assert l[0] in s && l'[0] in s;
      assert IsLeast(l[0], s) by {
        FirstIsLeast(l, s);
      }
      assert IsLeast(l'[0], s) by {
        FirstIsLeast(l', s);
      }
      LeastIsUnique(l[0], l'[0], s);
      assert l == [l[0]] + l[1..];
      forall x ensures x in l[1..] <==> x in s - {l[0]} {
        if x in l[1..] {
          var i :| 0 <= i < |l| - 1 && l[1..][i] == x;
          assert l[0] != l[i + 1];
        }
      }
      SortedIsAscending(l[1..], s - {l[0]});
    }
  }

  lemma FirstIsLeast(l: seq<string>, s: set<string>)
    requires l != [] && IsSorted(l) && forall x :: x in l <==> x in s
    ensures IsLeast(l[0], s)
  {
    Reflexive(l[0]);
    forall x | x in s ensures AtMost(l[0], x) {
      var i :| 0 <= i < |l| && l[i] == x;
    }
  }

  // ----- tables and orders, told without recursion -----

  /** The 25 characters of White_Space. */
  lemma WhiteIs(c: char)
    ensures IsWhite(c) <==>
            c in {'\t', '\n', '\U{B}', '\U{C}', '\r', ' ', '\U{85}', '\U{A0}', '\U{1680}', '\U{2000}', '\U{2001}',
                  '\U{2002}', '\U{2003}', '\U{2004}', '\U{2005}', '\U{2006}', '\U{2007}', '\U{2008}', '\U{2009}',
                  '\U{200A}', '\U{2028}', '\U{2029}', '\U{202F}', '\U{205F}', '\U{3000}'}
  {
  }

  /** `a` begins `b`, or is the smaller where they first differ. */
  lemma {:induction false} OrderIs(a: string, b: string)
    ensures AtMost(a, b) <==>
            a <= b || exists i :: 0 <= i < |a| && i < |b| && a[..i] == b[..i] && a[i] < b[i]
    decreases |a|
  {
    if a != [] && b != [] && a[0] == b[0] {
      var u, v := a[1..], b[1..];
      OrderIs(u, v);
      assert a == [a[0]] + u && b == [b[0]] + v;
      if i :| 0 <= i < |u| && i < |v| && u[..i] == v[..i] && u[i] < v[i] {
        assert a[..i + 1] == [a[0]] + u[..i] && b[..i + 1] == [b[0]] + v[..i];
        assert a[i + 1] < b[i + 1];
      }
      if i :| 0 <= i < |a| && i < |b| && a[..i] == b[..i] && a[i] < b[i] {
        assert u[..i - 1] == a[..i][1..] && v[..i - 1] == b[..i][1..];
        assert u[i - 1] < v[i - 1];
      }
    } else if a != [] && b != [] && a[0] < b[0] {
      assert a[..0] == b[..0];
    }
  }

  /** Trimming takes nothing but white space off the ends, and all of it. */
  lemma TrimIs(s: string) returns (before: string, after: string)
    ensures s == before + Trim(s) + after
    ensures (forall c :: c in before ==> IsWhite(c)) && (forall c :: c in after ==> IsWhite(c))
    ensures Trim(s) == [] || Clean(Trim(s))
  {
    before := StartTrimmed(s);
    after := EndTrimmed(TrimStart(s));
    TrimStartLength(s);
    EndKeepsStart(TrimStart(s));
  }

  lemma {:induction false} StartTrimmed(s: string) returns (before: string)
    ensures s == before + TrimStart(s) && forall c :: c in before ==> IsWhite(c)
  {
    before := [];
    if s != [] && IsWhite(s[0]) {
      var more := StartTrimmed(s[1..]);
      before := [s[0]] + more;
      assert s == [s[0]] + s[1..];
    }
  }

  lemma {:induction false} EndTrimmed(s: string) returns (after: string)
    ensures s == TrimEnd(s) + after && forall c :: c in after ==> IsWhite(c)
  {
    after := [];
    if s != [] && IsWhite(s[|s| - 1]) {
      var more := EndTrimmed(s[..|s| - 1]);
      after := more + [s[|s| - 1]];
      assert s == s[..|s| - 1] + [s[|s| - 1]];
    }
  }

  lemma {:induction false} EndKeepsStart(s: string)
    ensures TrimEnd(s) != [] ==> TrimEnd(s)[0] == s[0] && !IsWhite(TrimEnd(s)[|TrimEnd(s)| - 1])
  {
    if s != [] && IsWhite(s[|s| - 1]) {
      EndKeepsStart(s[..|s| - 1]);
    }
  }
}
