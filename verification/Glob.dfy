/**
  The URL condition of `build_condition_check_js`: a pattern with `*` is turned
  into a regular expression by escaping and replacing, and the expression is
  tested. The expression is parsed and matched by the rules of section 22.2 of
  ECMA-262; the glob itself is defined by substitution.
 */
module Glob {
  import opened Common

  // ----- the translation -----

  /** The characters the first `replace` puts a backslash before. */
  predicate IsEscaped(c: char) {
    c in {'.', '+', '^', '$', '{', '}', '(', ')', '|', '[', ']', '\\'}
  }

  /** The first `replace`: a backslash before every such character. */
  function Escape(pat: string): string {
    if pat == [] then []
    else (if IsEscaped(pat[0]) then ['\\', pat[0]] else [pat[0]]) + Escape(pat[1..])
  }

  /** The second `replace`: every star becomes a dot and a star. */
  function ReplaceStars(s: string): string {
    if s == [] then []
    else (if s[0] == '*' then ".*" else [s[0]]) + ReplaceStars(s[1..])
  }

  function Body(pat: string): string {
    ReplaceStars(Escape(pat))
  }

  function Translate(pat: string): string {
    "^" + Body(pat) + "$"
  }

  // ----- regular expressions: the grammar of section 22.2.1, for single-character atoms -----

  datatype Atom = Literal(c: char) | AnyButLineTerminator

  datatype Quantifier = One | ZeroOrMore | ZeroOrOne | OneOrMore

  datatype Node = InputStart | InputEnd | Term(atom: Atom, quantifier: Quantifier)

  datatype Parsed = Pattern(nodes: seq<Node>) | SyntaxError | OutsideFragment

  predicate IsSyntaxCharacter(c: char) {
    c in {'^', '$', '\\', '.', '*', '+', '?', '(', ')', '[', ']', '{', '}', '|'}
  }

  /** The quantifier that may follow an atom, and how many characters it takes; a trailing `?` only makes it lazy. */
  function ParseQuantifier(src: string): (r: (Quantifier, nat))
    ensures r.1 <= |src|
  {
    if src == [] then (One, 0)
    else if src[0] == '*' then (ZeroOrMore, Lazy(src))
    else if src[0] == '+' then (OneOrMore, Lazy(src))
    else if src[0] == '?' then (ZeroOrOne, Lazy(src))
    else (One, 0)
  }

  function Lazy(src: string): (n: nat)
    requires src != []
    ensures n <= |src|
  {
    if |src| > 1 && src[1] == '?' then 2 else 1
  }

  function Prepend(n: Node, p: Parsed): Parsed {
    if p.Pattern? then Pattern([n] + p.nodes) else p
  }

  function ParseTerm(atom: Atom, src: string): Parsed
    decreases |src|, 1
  {
    var (quantifier, taken) := ParseQuantifier(src);
    Prepend(Term(atom, quantifier), Parse(src[taken..]))
  }

  function Parse(src: string): Parsed
    decreases |src|, 0
  {
    if src == [] then Pattern([])
    else if src[0] == '^' then Prepend(InputStart, Parse(src[1..]))
    else if src[0] == '$' then Prepend(InputEnd, Parse(src[1..]))
    else if src[0] == '.' then ParseTerm(AnyButLineTerminator, src[1..])
    else if src[0] == '\\' then
      // an identity escape stands for the character; other escapes are classes and assertions
      if |src| == 1 then SyntaxError
      else if IsSyntaxCharacter(src[1]) then ParseTerm(Literal(src[1]), src[2..])
      else OutsideFragment
    else if src[0] == '*' || src[0] == '+' || src[0] == '?' then SyntaxError
    else if IsSyntaxCharacter(src[0]) then OutsideFragment
    else ParseTerm(Literal(src[0]), src[1..])
  }

  // ----- regular expressions: the matcher of section 22.2.2 -----

  predicate IsLineTerminator(c: char) {
    c == '\n' || c == '\r' || c == '\U{2028}' || c == '\U{2029}'
  }

  predicate Fits(atom: Atom, c: char) {
    match atom
    case Literal(l) => c == l
    case AnyButLineTerminator => !IsLineTerminator(c)
  }

  /** Some way of matching all the nodes from `i` on exists. */
  predicate MatchFrom(nodes: seq<Node>, s: string, i: nat)
    requires i <= |s|
    decreases |nodes|, |s| - i
  {
    if nodes == [] then true
    else
      var rest := nodes[1..];
      match nodes[0]
      case InputStart => i == 0 && MatchFrom(rest, s, i)
      case InputEnd => i == |s| && MatchFrom(rest, s, i)
      case Term(atom, quantifier) =>
        var fits := i < |s| && Fits(atom, s[i]);
        match quantifier
        case One => fits && MatchFrom(rest, s, i + 1)
        case ZeroOrOne => MatchFrom(rest, s, i) || (fits && MatchFrom(rest, s, i + 1))
        case ZeroOrMore => MatchFrom(rest, s, i) || (fits && MatchFrom(nodes, s, i + 1))
        case OneOrMore => fits && (MatchFrom(rest, s, i + 1) || MatchFrom(nodes, s, i + 1))
  }

  /** `regex.test(s)`: a match starting anywhere. */
  predicate Test(nodes: seq<Node>, s: string) {
    exists i :: 0 <= i <= |s| && MatchFrom(nodes, s, i)
  }

  // ----- the condition -----

  datatype Evaluation = Value(met: bool) | Throws

  function UrlCondition(pat: string, url: string): Evaluation {
    if '*' !in pat then Value(exists i :: 0 <= i <= |url| && pat <= url[i..])
    else
      match Parse(Translate(pat))
      case Pattern(nodes) => Value(Test(nodes, url))
      case _ => Throws
  }

  // ----- the glob: every star replaced by some string -----

  function Instance(pat: string, fills: seq<string>): string {
    if pat == [] then []
    else if pat[0] == '*' then
      (if fills == [] then [] else fills[0]) + Instance(pat[1..], if fills == [] then [] else fills[1..])
    else [pat[0]] + Instance(pat[1..], fills)
  }

  ghost predicate GlobMatches(pat: string, url: string) {
    exists fills: seq<string> :: Instance(pat, fills) == url
  }

  predicate NoLineTerminators(s: string) {
    forall i :: 0 <= i < |s| ==> !IsLineTerminator(s[i])
  }

  // ----- parsing a translated pattern -----

  /** What one pattern character becomes. */
  function Piece(c: char): (s: string)
    ensures s != []
  {
    if c == '*' then ".*" else if IsEscaped(c) then ['\\', c] else [c]
  }

  lemma BodyUnfolds(pat: string)
    requires pat != []
    ensures Body(pat) == Piece(pat[0]) + Body(pat[1..])
  {
    var c, e := pat[0], Escape(pat[1..]);
    if IsEscaped(c) {
      assert Escape(pat) == ['\\'] + ([c] + e);
      assert ReplaceStars(['\\'] + ([c] + e)) == ['\\'] + ReplaceStars([c] + e);
      assert ([c] + e)[1..] == e;
      assert ReplaceStars([c] + e) == [c] + ReplaceStars(e);
    } else {
      assert Escape(pat)[1..] == e;
    }
  }

  /** How many characters a quantifier takes when the pattern goes on with `pat`. */
  function Marks(pat: string, limit: nat): (n: nat)
    ensures n <= |pat| && n <= limit
  {
    if pat != [] && pat[0] == '?' && limit > 0 then 1 + Marks(pat[1..], limit - 1) else 0
  }

  function Tail(pat: string): string {
    Body(pat) + "$"
  }

  /** The parser's view of a pattern: stars and literals, each taking the question marks that follow it. */
  function PatternNodes(pat: string): Option<seq<Node>> {
    if pat == [] then Some([InputEnd])
    else if pat[0] == '?' then None
    else
      var marks := Marks(pat[1..], if pat[0] == '*' then 1 else 2);
      match PatternNodes(pat[1 + marks..])
      case None => None
      case Some(nodes) =>
        if pat[0] == '*' then Some([Term(AnyButLineTerminator, ZeroOrMore)] + nodes)
        else Some([Term(Literal(pat[0]), if marks == 0 then One else ZeroOrOne)] + nodes)
  }

  lemma TailUnfolds(pat: string)
    requires pat != []
    ensures Tail(pat) == Piece(pat[0]) + Tail(pat[1..])
  {
    BodyUnfolds(pat);
  }

  /** The rest of the source never opens with `*` or `+`, and opens with `?` only where the pattern does. */
  lemma TailOpens(pat: string)
    ensures var t := Tail(pat); t != [] && t[0] != '*' && t[0] != '+'
    ensures Tail(pat)[0] == '?' <==> pat != [] && pat[0] == '?'
    ensures pat != [] && pat[0] == '?' ==> Tail(pat) == "?" + Tail(pat[1..])
  {
    if pat != [] {
      TailUnfolds(pat);
    }
  }

  lemma LiteralQuantifier(pat: string)
    ensures var marks := Marks(pat, 2);
            && ParseQuantifier(Tail(pat)) == (if marks == 0 then One else ZeroOrOne, marks)
            && Tail(pat)[marks..] == Tail(pat[marks..])
  {
    TailOpens(pat);
    if pat != [] && pat[0] == '?' {
      TailOpens(pat[1..]);
      assert Marks(pat, 2) == 1 + Marks(pat[1..], 1);
      if pat[1..] != [] && pat[1] == '?' {
        assert Marks(pat[1..], 1) == 1;
        assert pat[1..][1..] == pat[2..];
        assert Tail(pat) == "??" + Tail(pat[2..]);
      } else {
        assert Marks(pat[1..], 1) == 0;
      }
    }
  }

  lemma StarQuantifier(pat: string)
    ensures var marks := Marks(pat, 1);
            && ParseQuantifier("*" + Tail(pat)) == (ZeroOrMore, 1 + marks)
            && ("*" + Tail(pat))[1 + marks..] == Tail(pat[marks..])
  {
    TailOpens(pat);
    if pat != [] && pat[0] == '?' {
      assert Marks(pat, 1) == 1 + Marks(pat[1..], 0);
      assert "*" + Tail(pat) == "*?" + Tail(pat[1..]);
    } else {
      assert ("*" + Tail(pat))[1..] == Tail(pat);
    }
  }

  function AsParsed(nodes: Option<seq<Node>>): Parsed {
    match nodes
    case None => SyntaxError
    case Some(n) => Pattern(n)
  }

  /** The parser sees exactly the pattern's stars, literals and question marks, and nothing else. */
  lemma {:induction false} ParseTail(pat: string)
    ensures Parse(Tail(pat)) == AsParsed(PatternNodes(pat))
    decreases |pat|
  {
    if pat == [] {
      assert Tail(pat) == "$";
      assert Parse("$"[1..]) == Pattern([]);
    } else {
      TailUnfolds(pat);
      if pat[0] == '*' {
        ParseStar(pat);
      } else if pat[0] != '?' {
        ParseLiteral(pat);
      }
    }
  }

  lemma StarAtom(t: string)
    ensures Parse(".*" + t) == ParseTerm(AnyButLineTerminator, "*" + t)
  {
    assert (".*" + t)[1..] == "*" + t;
  }

  lemma TermParsed(atom: Atom, src: string)
    ensures var (quantifier, taken) := ParseQuantifier(src);
            ParseTerm(atom, src) == Prepend(Term(atom, quantifier), Parse(src[taken..]))
  {
  }

  lemma ParseStar(pat: string)
    requires pat != [] && pat[0] == '*'
    ensures Parse(Tail(pat)) == AsParsed(PatternNodes(pat))
    decreases |pat|, 0
  {
    var u := pat[1..];
    TailUnfolds(pat);
    StarAtom(Tail(u));
    StarQuantifier(u);
    TermParsed(AnyButLineTerminator, "*" + Tail(u));
    assert u[Marks(u, 1)..] == pat[1 + Marks(u, 1)..];
    ParseTail(pat[1 + Marks(u, 1)..]);
  }

  lemma LiteralAtom(c: char, t: string)
    requires c != '*' && c != '?'
    ensures Parse(Piece(c) + t) == ParseTerm(Literal(c), t)
  {
    if IsEscaped(c) {
      assert (Piece(c) + t)[2..] == t;
    } else {
      assert (Piece(c) + t)[1..] == t;
    }
  }

  /** A literal is read with the question marks that follow it. */
  lemma LiteralRead(pat: string)
    requires pat != [] && pat[0] != '*' && pat[0] != '?'
    ensures var marks := Marks(pat[1..], 2);
            Parse(Tail(pat)) == Prepend(Term(Literal(pat[0]), if marks == 0 then One else ZeroOrOne),
                                        Parse(Tail(pat[1 + marks..])))
  {
    var u := pat[1..];
    TailUnfolds(pat);
    LiteralAtom(pat[0], Tail(u));
    LiteralQuantifier(u);
    TermParsed(Literal(pat[0]), Tail(u));
    assert u[Marks(u, 2)..] == pat[1 + Marks(u, 2)..];
  }

  lemma ParseLiteral(pat: string)
    requires pat != [] && pat[0] != '*' && pat[0] != '?'
    ensures Parse(Tail(pat)) == AsParsed(PatternNodes(pat))
    decreases |pat|, 0
  {
    LiteralRead(pat);
    ParseTail(pat[1 + Marks(pat[1..], 2)..]);
    NodesOfLiteral(pat);
  }

  lemma NodesOfLiteral(pat: string)
    requires pat != [] && pat[0] != '*' && pat[0] != '?'
    ensures var marks := Marks(pat[1..], 2);
            AsParsed(PatternNodes(pat)) == Prepend(Term(Literal(pat[0]), if marks == 0 then One else ZeroOrOne),
                                                   AsParsed(PatternNodes(pat[1 + marks..])))
  {
  }

  // ----- what a parsed pattern matches -----

  /** The anchored expression can only match from the start. */
  lemma TestAnchored(nodes: seq<Node>, s: string)
    ensures Test([InputStart] + nodes, s) <==> MatchFrom(nodes, s, 0)
  {
    var all := [InputStart] + nodes;
    assert all[1..] == nodes;
    forall i | 0 <= i <= |s| ensures MatchFrom(all, s, i) <==> i == 0 && MatchFrom(nodes, s, i) {
    }
    if MatchFrom(nodes, s, 0) {
      assert MatchFrom(all, s, 0);
    }
  }

  /** The condition, in terms of the pattern's nodes. */
  lemma ConditionOf(pat: string, url: string)
    requires '*' in pat
    ensures UrlCondition(pat, url)
            == match PatternNodes(pat)
               case None => Throws
               case Some(nodes) => Value(MatchFrom(nodes, url, 0))
  {
    ParseTail(pat);
    assert Translate(pat) == "^" + Tail(pat);
    assert Translate(pat)[1..] == Tail(pat);
    if PatternNodes(pat).Some? {
      TestAnchored(PatternNodes(pat).value, url);
    }
  }

  // ----- the glob, one character at a time -----

  /** `pat` matches the string from `i` on. */
  ghost predicate GlobFrom(pat: string, s: string, i: nat)
    requires i <= |s|
  {
    GlobMatches(pat, s[i..])
  }

  lemma GlobLiteral(pat: string, s: string, i: nat)
    requires pat != [] && pat[0] != '*' && i <= |s|
    ensures GlobFrom(pat, s, i) <==> i < |s| && s[i] == pat[0] && GlobFrom(pat[1..], s, i + 1)
  {
    if i < |s| {
      FrontAndRest(s, i);
    }
    if fills: seq<string> :| Instance(pat, fills) == s[i..] {
      LiteralTaken(pat, fills, s, i);
    }
    if i < |s| && s[i] == pat[0] && GlobFrom(pat[1..], s, i + 1) {
      var fills: seq<string> :| Instance(pat[1..], fills) == s[i + 1..];
      assert Instance(pat, fills) == [pat[0]] + Instance(pat[1..], fills);
    }
  }

  lemma LiteralTaken(pat: string, fills: seq<string>, s: string, i: nat)
    requires pat != [] && pat[0] != '*' && i <= |s| && Instance(pat, fills) == s[i..]
    ensures i < |s| && s[i] == pat[0] && Instance(pat[1..], fills) == s[i + 1..]
  {
    assert s[i..] == [pat[0]] + Instance(pat[1..], fills);
    FrontAndRest(s, i);
    SameFronts(s[i], s[i + 1..], pat[0], Instance(pat[1..], fills));
  }

  lemma SameFronts(c: char, s: string, d: char, t: string)
    requires [c] + s == [d] + t
    ensures c == d && s == t
  {
    assert s == ([c] + s)[1..] && t == ([d] + t)[1..];
    assert c == ([c] + s)[0] && d == ([d] + t)[0];
  }

  /** A star takes no character, or one and then stays. */
  lemma GlobStar(pat: string, s: string, i: nat)
    requires pat != [] && pat[0] == '*' && i <= |s|
    ensures GlobFrom(pat, s, i) <==> GlobFrom(pat[1..], s, i) || (i < |s| && GlobFrom(pat, s, i + 1))
  {
    var rest := pat[1..];
    if fills: seq<string> :| Instance(pat, fills) == s[i..] {
      var f: string, fs: seq<string> := if fills == [] then [] else fills[0], if fills == [] then [] else fills[1..];
      assert s[i..] == f + Instance(rest, fs);
      if f == [] {
        assert Instance(rest, fs) == s[i..];
      } else {
        StarShrinks(pat, s, i, f, fs);
      }
    }
    if GlobFrom(rest, s, i) {
      var fs: seq<string> :| Instance(rest, fs) == s[i..];
      var f: string := [];
      StarInstance(pat, f, fs);
      assert f + Instance(rest, fs) == s[i..];
    }
    if i < |s| && GlobFrom(pat, s, i + 1) {
      StarGrows(pat, s, i);
    }
  }

  lemma StarInstance(pat: string, f: string, fs: seq<string>)
    requires pat != [] && pat[0] == '*'
    ensures Instance(pat, [f] + fs) == f + Instance(pat[1..], fs)
  {
    assert ([f] + fs)[1..] == fs;
  }

  lemma StarShrinks(pat: string, s: string, i: nat, f: string, fs: seq<string>)
    requires pat != [] && pat[0] == '*' && i <= |s| && f != []
    requires s[i..] == f + Instance(pat[1..], fs)
    ensures i < |s| && GlobFrom(pat, s, i + 1)
  {
    StarInstance(pat, f[1..], fs);
    assert s[i + 1..] == s[i..][1..] == f[1..] + Instance(pat[1..], fs);
  }

  lemma StarGrows(pat: string, s: string, i: nat)
    requires pat != [] && pat[0] == '*' && i < |s| && GlobFrom(pat, s, i + 1)
    ensures GlobFrom(pat, s, i)
  {
    var t := s[i + 1..];
    var fills: seq<string> :| Instance(pat, fills) == t;
    StarGrowsBy(pat, s[i], t, fills);
    FrontAndRest(s, i);
  }

  lemma FrontAndRest(s: string, i: nat)
    requires i < |s|
    ensures s[i..] == [s[i]] + s[i + 1..]
  {
  }

  lemma StarGrowsBy(pat: string, c: char, t: string, fills: seq<string>)
    requires pat != [] && pat[0] == '*' && Instance(pat, fills) == t
    ensures GlobMatches(pat, [c] + t)
  {
    if fills == [] {
      StarLonger(pat, c, t, [], []);
    } else {
      StarLonger(pat, c, t, fills[0], fills[1..]);
    }
  }

  lemma StarLonger(pat: string, c: char, t: string, f: string, fs: seq<string>)
    requires pat != [] && pat[0] == '*' && t == f + Instance(pat[1..], fs)
    ensures GlobMatches(pat, [c] + t)
  {
    StarInstance(pat, [c] + f, fs);
    assert [c] + t == ([c] + f) + Instance(pat[1..], fs);
  }

  // ----- what the expression means -----

  /** How many question marks the first character of the pattern takes. */
  function FirstMarks(pat: string): (n: nat)
    requires pat != []
    ensures 1 + n <= |pat|
  {
    Marks(pat[1..], if pat[0] == '*' then 1 else 2)
  }

  /**
    `plain` is a reading of the pattern: a question mark goes, and the letter
    before it stays or goes too; a star stays.
   */
  predicate Reads(pat: string, plain: string)
    decreases |pat|
  {
    if pat == [] then plain == []
    else if pat[0] == '?' then false
    else
      var next := pat[1 + FirstMarks(pat)..];
      || (plain != [] && plain[0] == pat[0] && Reads(next, plain[1..]))
      || (pat[0] != '*' && FirstMarks(pat) > 0 && Reads(next, plain))
  }

  /** Some reading, taken as a glob, matches the string from `i` on. */
  ghost predicate ReadingFrom(pat: string, s: string, i: nat)
    requires i <= |s|
  {
    exists plain: string :: Reads(pat, plain) && GlobFrom(plain, s, i)
  }

  lemma ReadsFront(pat: string, plain: string)
    requires pat != [] && pat[0] != '?' && Reads(pat[1 + FirstMarks(pat)..], plain)
    ensures Reads(pat, [pat[0]] + plain)
  {
    assert ([pat[0]] + plain)[1..] == plain;
  }

  lemma StarReading(pat: string, s: string, i: nat)
    requires pat != [] && pat[0] == '*' && i <= |s|
    ensures ReadingFrom(pat, s, i)
            <==> ReadingFrom(pat[1 + FirstMarks(pat)..], s, i) || (i < |s| && ReadingFrom(pat, s, i + 1))
  {
    var next := pat[1 + FirstMarks(pat)..];
    if plain: string :| Reads(pat, plain) && GlobFrom(plain, s, i) {
      GlobStar(plain, s, i);
    }
    if plain: string :| Reads(next, plain) && GlobFrom(plain, s, i) {
      ReadsFront(pat, plain);
      GlobStar(['*'] + plain, s, i);
      assert (['*'] + plain)[1..] == plain;
    }
    if i < |s| && ReadingFrom(pat, s, i + 1) {
      var plain: string :| Reads(pat, plain) && GlobFrom(plain, s, i + 1);
      GlobStar(plain, s, i);
    }
  }

  lemma LiteralReading(pat: string, s: string, i: nat)
    requires pat != [] && pat[0] != '*' && pat[0] != '?' && i <= |s|
    ensures var next := pat[1 + FirstMarks(pat)..];
            ReadingFrom(pat, s, i) <==>
              || (i < |s| && s[i] == pat[0] && ReadingFrom(next, s, i + 1))
              || (FirstMarks(pat) > 0 && ReadingFrom(next, s, i))
  {
    var next := pat[1 + FirstMarks(pat)..];
    if plain: string :| Reads(pat, plain) && GlobFrom(plain, s, i) {
      if plain != [] && plain[0] == pat[0] && Reads(next, plain[1..]) {
        GlobLiteral(plain, s, i);
      }
    }
    if i < |s| && s[i] == pat[0] && ReadingFrom(next, s, i + 1) {
      var plain: string :| Reads(next, plain) && GlobFrom(plain, s, i + 1);
      ReadsFront(pat, plain);
      GlobLiteral([pat[0]] + plain, s, i);
      assert ([pat[0]] + plain)[1..] == plain;
    }
    if FirstMarks(pat) > 0 && ReadingFrom(next, s, i) {
      var plain: string :| Reads(next, plain) && GlobFrom(plain, s, i);
      assert Reads(pat, plain);
    }
  }

  /** The nodes of a pattern match only what its readings match as globs, and all of it on one line. */
  lemma {:induction false} NodesMeanReadings(pat: string, s: string, i: nat)
    requires PatternNodes(pat).Some? && i <= |s|
    ensures MatchFrom(PatternNodes(pat).value, s, i) ==> ReadingFrom(pat, s, i)
    ensures NoLineTerminators(s) && ReadingFrom(pat, s, i) ==> MatchFrom(PatternNodes(pat).value, s, i)
    decreases |pat|, |s| - i
  {
    if pat == [] {
      NoReadingLeft(s, i);
    } else {
      var next := pat[1 + FirstMarks(pat)..];
      var nodes := PatternNodes(pat).value;
      assert nodes[1..] == PatternNodes(next).value;
      NodesMeanReadings(next, s, i);
      if i < |s| {
        NodesMeanReadings(next, s, i + 1);
      }
      if pat[0] == '*' {
        StarReading(pat, s, i);
        if i < |s| {
          NodesMeanReadings(pat, s, i + 1);
        }
      } else {
        LiteralReading(pat, s, i);
      }
    }
  }

  lemma NoReadingLeft(s: string, i: nat)
    requires i <= |s|
    ensures MatchFrom([InputEnd], s, i) <==> ReadingFrom([], s, i)
  {
    var none: seq<string> := [];
    assert Instance([], none) == [];
    assert [InputEnd][1..] == [];
    if i == |s| {
      assert Reads([], []) && GlobFrom([], s, i);
    }
  }

  /** A pattern whose expression throws has no reading. */
  lemma {:induction false} ReadsParsed(pat: string, plain: string)
    requires Reads(pat, plain)
    ensures PatternNodes(pat).Some?
    decreases |pat|
  {
    if pat != [] {
      var next := pat[1 + FirstMarks(pat)..];
      if plain != [] && plain[0] == pat[0] && Reads(next, plain[1..]) {
        ReadsParsed(next, plain[1..]);
      } else {
        ReadsParsed(next, plain);
      }
    }
  }

  /**
    For every pattern with a star, the condition is met only if some reading of
    the pattern matches as a glob, and on strings of one line whenever one does.
   */
  lemma ConditionIsReadings(pat: string, url: string)
    requires '*' in pat
    ensures var read := exists plain: string :: Reads(pat, plain) && GlobMatches(plain, url);
            && (Met(pat, url) ==> read)
            && (NoLineTerminators(url) && read ==> Met(pat, url))
  {
    ConditionOf(pat, url);
    assert url[0..] == url;
    if PatternNodes(pat).Some? {
      NodesMeanReadings(pat, url, 0);
      if plain: string :| Reads(pat, plain) && GlobMatches(plain, url) {
        assert GlobFrom(plain, url, 0);
      }
    } else if plain: string :| Reads(pat, plain) && GlobMatches(plain, url) {
      ReadsParsed(pat, plain);
    }
  }

  // ----- question marks after stars only -----

  /** Every question mark stands straight after a star. */
  predicate OnlyAfterStars(pat: string) {
    forall i :: 0 <= i < |pat| && pat[i] == '?' ==> i > 0 && pat[i - 1] == '*'
  }

  /** The pattern without its question marks. */
  function Bare(pat: string): string {
    if pat == [] then [] else (if pat[0] == '?' then [] else [pat[0]]) + Bare(pat[1..])
  }

  lemma RestKeepsMarks(pat: string, n: nat)
    requires OnlyAfterStars(pat) && n <= |pat| && (n < |pat| ==> pat[n] != '?')
    ensures OnlyAfterStars(pat[n..])
  {
    forall i | 0 <= i < |pat[n..]| && pat[n..][i] == '?' ensures i > 0 && pat[n..][i - 1] == '*' {
      assert pat[n + i] == '?';
    }
  }

  lemma MarksTaken(pat: string)
    requires pat != [] && OnlyAfterStars(pat)
    ensures FirstMarks(pat) == if pat[0] == '*' && |pat| > 1 && pat[1] == '?' then 1 else 0
  {
    assert pat[1..] != [] ==> pat[1..][0] == pat[1];
    if pat[0] == '*' && |pat| > 1 && pat[1] == '?' {
      assert Marks(pat[1..], 1) == 1 + Marks(pat[1..][1..], 0);
    }
  }

  /** Such question marks are all taken by stars. */
  lemma StarsTake(pat: string)
    requires pat != [] && OnlyAfterStars(pat)
    ensures pat[0] != '?' && (pat[0] != '*' ==> FirstMarks(pat) == 0)
    ensures OnlyAfterStars(pat[1 + FirstMarks(pat)..])
    ensures Bare(pat) == [pat[0]] + Bare(pat[1 + FirstMarks(pat)..])
  {
    MarksTaken(pat);
    RestKeepsMarks(pat, 1 + FirstMarks(pat));
    BareTakes(pat, FirstMarks(pat));
  }

  lemma BareTakes(pat: string, marks: nat)
    requires pat != [] && pat[0] != '?' && marks <= 1 && marks < |pat| && (marks == 1 ==> pat[1] == '?')
    ensures Bare(pat) == [pat[0]] + Bare(pat[1 + marks..])
  {
    if marks == 1 {
      assert pat[1..][1..] == pat[2..];
      assert Bare(pat[1..]) == Bare(pat[2..]);
    }
  }

  lemma {:induction false} OnlyReading(pat: string, plain: string)
    requires OnlyAfterStars(pat)
    ensures Reads(pat, plain) <==> plain == Bare(pat)
    decreases |pat|
  {
    if pat != [] {
      StarsTake(pat);
      if plain != [] {
        OnlyReading(pat[1 + FirstMarks(pat)..], plain[1..]);
        assert plain == [plain[0]] + plain[1..];
      }
    }
  }

  /** A star and the question mark it takes spell what the star alone can. */
  lemma StarWithMark(pat: string, fills: seq<string>) returns (f: string, fs: seq<string>)
    requires pat != [] && pat[0] == '*' && OnlyAfterStars(pat)
    ensures Instance(pat, fills) == f + Instance(pat[1 + FirstMarks(pat)..], fs)
  {
    StarsTake(pat);
    f, fs := if fills == [] then [] else fills[0], if fills == [] then [] else fills[1..];
    if FirstMarks(pat) == 1 {
      MarksAreMarks(pat[1..], 1);
      assert pat[1..][1..] == pat[2..];
      MarkSpelled(pat[1..], fs);
      TextAssoc(f, ['?'], Instance(pat[2..], fs));
      f := f + ['?'];
    }
  }

  lemma TextAssoc(a: string, b: string, c: string)
    ensures a + (b + c) == (a + b) + c
  {
  }

  lemma MarkSpelled(pat: string, fills: seq<string>)
    requires pat != [] && pat[0] == '?'
    ensures Instance(pat, fills) == ['?'] + Instance(pat[1..], fills)
  {
  }

  /** What the glob matches is matched without the question marks too, each of them going into its star. */
  lemma {:induction false} BareInstance(pat: string, fills: seq<string>) returns (more: seq<string>)
    requires OnlyAfterStars(pat)
    ensures Instance(Bare(pat), more) == Instance(pat, fills)
    decreases |pat|
  {
    more := [];
    if pat != [] {
      StarsTake(pat);
      var next := pat[1 + FirstMarks(pat)..];
      assert Bare(pat)[1..] == Bare(next);
      if pat[0] == '*' {
        var f, fs := StarWithMark(pat, fills);
        var rest := BareInstance(next, fs);
        more := [f] + rest;
        StarInstance(Bare(pat), f, rest);
      } else {
        more := BareInstance(next, fills);
      }
    }
  }

  /**
    When every question mark stands straight after a star, the condition is the
    glob without them. So it is met wherever the glob matches, and too early at
    an address without a question mark that only the rest of the pattern matches.
   */
  lemma StarredMarksDrop(pat: string, url: string)
    requires '*' in pat && OnlyAfterStars(pat) && NoLineTerminators(url)
    ensures UrlCondition(pat, url) == Value(GlobMatches(Bare(pat), url))
    ensures GlobMatches(pat, url) ==> Met(pat, url)
    ensures '?' in pat && '?' !in url ==> !GlobMatches(pat, url)
  {
    ConditionOf(pat, url);
    ConditionIsReadings(pat, url);
    OnlyReading(pat, Bare(pat));
    ReadsParsed(pat, Bare(pat));
    forall plain: string ensures Reads(pat, plain) <==> plain == Bare(pat) {
      OnlyReading(pat, plain);
    }
    if fills: seq<string> :| Instance(pat, fills) == url {
      var more := BareInstance(pat, fills);
      if '?' in pat {
        LettersAreHeld(pat, fills, '?');
      }
    }
  }

  /** A wait for any address with a query is over at one that has none and only ends like it. */
  lemma QueryMetEarly(x: string, w: string)
    requires Plain(w) && '?' !in x && NoLineTerminators(x + w)
    ensures var pat, url := ['*'] + (['?'] + w), x + w;
            !GlobMatches(pat, url) && UrlCondition(pat, url) == Value(true)
  {
    var pat := ['*'] + (['?'] + w);
    StarredQuery(w);
    StarredMarksDrop(pat, x + w);
    EndsSo(x, w);
  }

  lemma BareFront(c: char, w: string)
    ensures Bare([c] + w) == (if c == '?' then [] else [c]) + Bare(w)
  {
    assert ([c] + w)[1..] == w;
  }

  lemma StarredQuery(w: string)
    requires Plain(w)
    ensures OnlyAfterStars(['*'] + (['?'] + w)) && Bare(['*'] + (['?'] + w)) == ['*'] + w
  {
    NothingToDrop(w);
    BareFront('?', w);
    BareFront('*', ['?'] + w);
    MarkAfterStar(w);
  }

  lemma MarkAfterStar(w: string)
    requires '?' !in w
    ensures OnlyAfterStars(['*'] + (['?'] + w))
  {
    var pat := ['*'] + (['?'] + w);
    forall i | 2 <= i < |pat| ensures pat[i] != '?' {
      assert pat[i] == w[i - 2];
    }
  }

  lemma QueryAddressMetEarly(pat: string, url: string)
    requires pat == "*?q=1" && url == "https://a.test/q=1"
    ensures !GlobMatches(pat, url) && UrlCondition(pat, url) == Value(true)
  {
    assert pat == ['*'] + (['?'] + "q=1") && url == "https://a.test/" + "q=1";
    QueryMetEarly("https://a.test/", "q=1");
  }

  /** A star and an end match every string that ends so. */
  lemma EndsSo(x: string, w: string)
    requires '*' !in w
    ensures GlobMatches(['*'] + w, x + w)
  {
    PlainInstance(w, []);
    StarInstance(['*'] + w, x, []);
    assert (['*'] + w)[1..] == w && Instance(['*'] + w, [x] + []) == x + w;
  }

  // ----- with a question mark it never does -----

  /** How many characters every match of the pattern as a glob has at least. */
  function Letters(pat: string): nat {
    if pat == [] then 0 else (if pat[0] == '*' then 0 else 1) + Letters(pat[1..])
  }

  lemma {:induction false} InstanceLength(pat: string, fills: seq<string>)
    ensures |Instance(pat, fills)| >= Letters(pat)
    decreases |pat|
  {
    if pat != [] {
      InstanceLength(pat[1..], fills);
      InstanceLength(pat[1..], if fills == [] then [] else fills[1..]);
    }
  }

  /** The characters the nodes insist on. */
  function Needed(nodes: seq<Node>): string {
    if nodes == [] then []
    else (if nodes[0].Term? && nodes[0].quantifier == One && nodes[0].atom.Literal? then [nodes[0].atom.c] else [])
         + Needed(nodes[1..])
  }

  lemma {:induction false} LettersSkip(pat: string, n: nat)
    requires n <= |pat| && forall i :: 0 <= i < n ==> pat[i] == '?'
    ensures Letters(pat) == n + Letters(pat[n..])
    decreases n
  {
    if n > 0 {
      LettersSkip(pat[1..], n - 1);
      assert pat[1..][n - 1..] == pat[n..];
    } else {
      assert pat[0..] == pat;
    }
  }

  lemma {:induction false} MarksAreMarks(pat: string, limit: nat)
    ensures forall i :: 0 <= i < Marks(pat, limit) ==> pat[i] == '?'
    decreases limit
  {
    if pat != [] && pat[0] == '?' && limit > 0 {
      MarksAreMarks(pat[1..], limit - 1);
      forall i | 0 <= i < Marks(pat, limit) ensures pat[i] == '?' {
        assert i > 0 ==> pat[i] == pat[1..][i - 1];
      }
    }
  }

  /** Terms that insist on a literal or on nothing, then the end of the input. */
  ghost predicate Shaped(nodes: seq<Node>) {
    nodes != []
    && if |nodes| == 1 then nodes[0] == InputEnd
       else nodes[0].Term? && nodes[0].quantifier != OneOrMore
            && (nodes[0].quantifier == One ==> nodes[0].atom.Literal?)
            && Shaped(nodes[1..])
  }

  lemma {:induction false} PatternShaped(pat: string)
    requires PatternNodes(pat).Some?
    ensures Shaped(PatternNodes(pat).value)
    decreases |pat|
  {
    if pat != [] {
      var next := pat[1 + Marks(pat[1..], if pat[0] == '*' then 1 else 2)..];
      PatternShaped(next);
      assert PatternNodes(pat).value[1..] == PatternNodes(next).value;
    }
  }

  /** The string of needed characters is matched. */
  lemma {:induction false} NeededMatches(nodes: seq<Node>, done: string, s: string)
    requires Shaped(nodes) && s == done + Needed(nodes)
    ensures MatchFrom(nodes, s, |done|)
    decreases |nodes|
  {
    if |nodes| == 1 {
      assert nodes[1..] == [];
    } else if nodes[0].quantifier == One {
      var more := done + [nodes[0].atom.c];
      assert s == more + Needed(nodes[1..]);
      NeededMatches(nodes[1..], more, s);
      LetterMatches(nodes, s, |done|);
    } else {
      assert Needed(nodes) == Needed(nodes[1..]);
      NeededMatches(nodes[1..], done, s);
      NothingMatches(nodes, s, |done|);
    }
  }

  lemma LetterMatches(nodes: seq<Node>, s: string, i: nat)
    requires nodes != [] && nodes[0].Term? && nodes[0].atom.Literal? && nodes[0].quantifier == One
    requires i < |s| && s[i] == nodes[0].atom.c && MatchFrom(nodes[1..], s, i + 1)
    ensures MatchFrom(nodes, s, i)
  {
  }

  lemma NothingMatches(nodes: seq<Node>, s: string, i: nat)
    requires nodes != [] && nodes[0].Term? && (nodes[0].quantifier == ZeroOrMore || nodes[0].quantifier == ZeroOrOne)
    requires i <= |s| && MatchFrom(nodes[1..], s, i)
    ensures MatchFrom(nodes, s, i)
  {
  }

  /** A question mark is a letter of the glob that no node insists on. */
  lemma {:induction false} NeededIsShort(pat: string)
    requires PatternNodes(pat).Some?
    ensures |Needed(PatternNodes(pat).value)| + (if '?' in pat then 1 else 0) <= Letters(pat)
    decreases |pat|
  {
    if pat == [] {
      assert [InputEnd][1..] == [];
    } else {
      var u := pat[1..];
      var marks := Marks(u, if pat[0] == '*' then 1 else 2);
      var next := u[marks..];
      assert pat[1 + marks..] == next;
      NeededIsShort(next);
      var nodes := PatternNodes(pat).value;
      assert nodes[1..] == PatternNodes(next).value;
      MarksAreMarks(u, if pat[0] == '*' then 1 else 2);
      LettersSkip(u, marks);
      QuestionMarkWhere(pat, marks);
      assert |Needed(nodes)| <= (if pat[0] == '*' || marks > 0 then 0 else 1) + |Needed(nodes[1..])|;
    }
  }

  lemma QuestionMarkWhere(pat: string, marks: nat)
    requires pat != [] && pat[0] != '?' && 1 + marks <= |pat|
    ensures '?' in pat ==> marks > 0 || '?' in pat[1..][marks..]
  {
    if '?' in pat && marks == 0 {
      var i :| 0 <= i < |pat| && pat[i] == '?';
      assert pat[1..][0..][i - 1] == '?';
    }
  }

  lemma {:induction false} NeededFromPattern(pat: string)
    requires PatternNodes(pat).Some? && NoLineTerminators(pat)
    ensures NoLineTerminators(Needed(PatternNodes(pat).value))
    decreases |pat|
  {
    if pat == [] {
      assert [InputEnd][1..] == [];
    } else {
      var next := pat[1 + Marks(pat[1..], if pat[0] == '*' then 1 else 2)..];
      NeededFromPattern(next);
      assert PatternNodes(pat).value[1..] == PatternNodes(next).value;
    }
  }

  // ----- what a question mark does -----

  /** The wait is over; an expression that throws never ends it. */
  predicate Met(pat: string, url: string) {
    UrlCondition(pat, url) == Value(true)
  }

  /** The condition is met exactly when the glob matches. */
  ghost predicate Agrees(pat: string, url: string) {
    Met(pat, url) <==> GlobMatches(pat, url)
  }

  lemma {:induction false} InstanceClean(pat: string)
    requires NoLineTerminators(pat)
    ensures NoLineTerminators(Instance(pat, []))
  {
    if pat != [] {
      InstanceClean(pat[1..]);
    }
  }

  /**
    Some string tells the condition from the glob: the shortest one that the
    expression accepts, or the pattern without its stars if the expression throws.
   */
  lemma QuestionMarkDisagrees(pat: string) returns (url: string)
    requires '*' in pat && '?' in pat
    ensures !Agrees(pat, url)
    ensures NoLineTerminators(pat) || AcceptsOneLine(pat) ==> NoLineTerminators(url)
  {
    if PatternNodes(pat) == None {
      url := Instance(pat, []);
      ConditionOf(pat, url);
      if NoLineTerminators(pat) {
        InstanceClean(pat);
      }
    } else {
      url := Needed(PatternNodes(pat).value);
      ConditionOf(pat, url);
      assert url == [] + Needed(PatternNodes(pat).value);
      PatternShaped(pat);
      NeededMatches(PatternNodes(pat).value, [], url);
      NeededIsShort(pat);
      forall fills: seq<string> ensures Instance(pat, fills) != url {
        InstanceLength(pat, fills);
      }
      if NoLineTerminators(pat) {
        NeededFromPattern(pat);
      }
    }
  }

  /** For a pattern with a star and no question mark, the condition is the glob on every URL. */
  lemma ConditionIsGlob(pat: string, url: string)
    requires '*' in pat && '?' !in pat && NoLineTerminators(url)
    ensures UrlCondition(pat, url) == Value(GlobMatches(pat, url))
  {
    StarredMarksDrop(pat, url);
    NothingToDrop(pat);
  }

  lemma {:induction false} NothingToDrop(pat: string)
    requires '?' !in pat
    ensures OnlyAfterStars(pat) && Bare(pat) == pat
    decreases |pat|
  {
    if pat != [] {
      NothingToDrop(pat[1..]);
      assert pat[0] in pat;
    }
  }

  /** The expression accepts a string without line terminators. */
  predicate AcceptsOneLine(pat: string) {
    PatternNodes(pat).Some? && NoLineTerminators(Needed(PatternNodes(pat).value))
  }

  /** Whatever the nodes match holds the characters they insist on. */
  lemma {:induction false} NeededIsHeld(nodes: seq<Node>, s: string, i: nat, c: char)
    requires i <= |s| && MatchFrom(nodes, s, i) && c in Needed(nodes)
    ensures c in s
    decreases |nodes|, |s| - i
  {
    var rest := nodes[1..];
    if nodes[0].Term? {
      match nodes[0].quantifier
      case One =>
        if c != s[i] || nodes[0].atom.AnyButLineTerminator? {
          NeededIsHeld(rest, s, i + 1, c);
        }
      case ZeroOrOne => NeededIsHeld(rest, s, if MatchFrom(rest, s, i) then i else i + 1, c);
      case ZeroOrMore =>
        if MatchFrom(rest, s, i) {
          NeededIsHeld(rest, s, i, c);
        } else {
          NeededIsHeld(nodes, s, i + 1, c);
        }
      case OneOrMore =>
        if MatchFrom(rest, s, i + 1) {
          NeededIsHeld(rest, s, i + 1, c);
        } else {
          NeededIsHeld(nodes, s, i + 1, c);
        }
    } else {
      NeededIsHeld(rest, s, i, c);
    }
  }

  /** Whatever the glob matches holds the pattern's own characters. */
  lemma {:induction false} LettersAreHeld(pat: string, fills: seq<string>, c: char)
    requires c in pat && c != '*'
    ensures c in Instance(pat, fills)
    decreases |pat|
  {
    if pat[0] != c {
      LettersAreHeld(pat[1..], if pat[0] == '*' && fills != [] then fills[1..] else fills, c);
    }
  }

  /**
    A pattern that holds a line terminator matches no single line, and the
    condition may be met by one only if it is accepted.
   */
  lemma OneLineAgrees(pat: string, url: string)
    requires '*' in pat && !NoLineTerminators(pat) && !AcceptsOneLine(pat) && NoLineTerminators(url)
    ensures Agrees(pat, url)
  {
    var k :| 0 <= k < |pat| && IsLineTerminator(pat[k]);
    forall fills: seq<string> ensures Instance(pat, fills) != url {
      LettersAreHeld(pat, fills, pat[k]);
    }
    ConditionOf(pat, url);
    if PatternNodes(pat).Some? && MatchFrom(PatternNodes(pat).value, url, 0) {
      var needed := Needed(PatternNodes(pat).value);
      var j :| 0 <= j < |needed| && IsLineTerminator(needed[j]);
      NeededIsHeld(PatternNodes(pat).value, url, 0, needed[j]);
      assert false;
    }
  }

  /**
    Over all strings of one line, the condition means the glob exactly when the
    pattern has no question mark, or has a line terminator that the expression insists on.
   */
  lemma TranslationExact(pat: string)
    requires '*' in pat
    ensures (forall url: string :: NoLineTerminators(url) ==> Agrees(pat, url))
            <==> '?' !in pat || (!NoLineTerminators(pat) && !AcceptsOneLine(pat))
  {
    if '?' !in pat {
      forall url: string | NoLineTerminators(url) ensures Agrees(pat, url) {
        ConditionIsGlob(pat, url);
      }
    } else if NoLineTerminators(pat) || AcceptsOneLine(pat) {
      var url := QuestionMarkDisagrees(pat);
    } else {
      forall url: string | NoLineTerminators(url) ensures Agrees(pat, url) {
        OneLineAgrees(pat, url);
      }
    }
  }

  // ----- addresses with a query -----

  predicate Plain(w: string) {
    '*' !in w && '?' !in w
  }

  /** The pattern `a`, a letter, a question mark, and `b`. */
  function Query(a: string, c: char, b: string): string {
    a + [c, '?'] + b
  }

  lemma {:induction false} PlainInstance(w: string, fills: seq<string>)
    requires '*' !in w
    ensures Instance(w, fills) == w
  {
    if w != [] {
      PlainInstance(w[1..], fills);
    }
  }

  /** The letter before the question mark goes or stays. */
  lemma OptionalReads(c: char, b: string, plain: string)
    requires c != '*' && c != '?' && Plain(b)
    ensures Reads([c, '?'] + b, plain) ==> plain == [c] + b || plain == b
    ensures Reads([c, '?'] + b, b)
  {
    var pat := [c, '?'] + b;
    assert pat[1..] == ['?'] + b && pat[1..][1..] == b && pat[2..] == b;
    assert Marks(b, 1) == 0;
    assert FirstMarks(pat) == 1;
    NothingToDrop(b);
    OnlyReading(b, plain);
    OnlyReading(b, b);
    if plain != [] {
      OnlyReading(b, plain[1..]);
      assert plain == [plain[0]] + plain[1..];
    }
  }

  lemma QueryFront(a: string, c: char, b: string)
    requires a != [] && Plain(a) && c != '*' && c != '?'
    ensures Query(a, c, b)[1..] == Query(a[1..], c, b) && FirstMarks(Query(a, c, b)) == 0
  {
    var pat := Query(a, c, b);
    assert pat[1..] == Query(a[1..], c, b);
    assert pat[1..][0] == if |a| > 1 then a[1] else c;
  }

  lemma ReadsLiteral(pat: string, plain: string)
    requires pat != [] && pat[0] != '?' && FirstMarks(pat) == 0
    ensures Reads(pat, plain) <==> plain != [] && plain[0] == pat[0] && Reads(pat[1..], plain[1..])
  {
  }

  lemma {:induction false} QueryReads(a: string, c: char, b: string, plain: string)
    requires Plain(a) && c != '*' && c != '?' && Plain(b)
    ensures Reads(Query(a, c, b), plain) ==> plain == a + ([c] + b) || plain == a + b
    decreases |a|
  {
    if a == [] {
      assert Query(a, c, b) == [c, '?'] + b && a + b == b && a + ([c] + b) == [c] + b;
      OptionalReads(c, b, plain);
    } else {
      QueryFront(a, c, b);
      ReadsLiteral(Query(a, c, b), plain);
      if plain != [] {
        QueryReads(a[1..], c, b, plain[1..]);
        FrontOf(a, [c] + b);
        FrontOf(a, b);
        assert plain == [plain[0]] + plain[1..];
      }
    }
  }

  lemma {:induction false} ShortQueryReads(a: string, c: char, b: string)
    requires Plain(a) && c != '*' && c != '?' && Plain(b)
    ensures Reads(Query(a, c, b), a + b)
    decreases |a|
  {
    if a == [] {
      assert Query(a, c, b) == [c, '?'] + b && a + b == b;
      OptionalReads(c, b, b);
    } else {
      QueryFront(a, c, b);
      ReadsLiteral(Query(a, c, b), a + b);
      ShortQueryReads(a[1..], c, b);
      FrontOf(a, b);
    }
  }

  lemma FrontOf(a: string, b: string)
    requires a != []
    ensures a + b == [a[0]] + (a[1..] + b) && (a + b)[1..] == a[1..] + b
  {
  }

  /** What a star and a plain end match ends so. */
  lemma StarThenPlain(w: string, url: string) returns (x: string)
    requires Plain(w) && GlobMatches(['*'] + w, url)
    ensures url == x + w
  {
    var fills: seq<string> :| Instance(['*'] + w, fills) == url;
    assert (['*'] + w)[1..] == w;
    PlainInstance(w, if fills == [] then [] else fills[1..]);
    x := if fills == [] then [] else fills[0];
  }

  /** An address that spells the query out ends neither way that the expression can. */
  lemma QueryEndsOtherwise(x: string, a: string, c: char, b: string, y: string)
    requires a != [] && Plain(a) && c != '?'
    ensures x + Query(a, c, b) != y + (a + ([c] + b)) && x + Query(a, c, b) != y + (a + b)
  {
    var url, with, without := x + Query(a, c, b), y + (a + ([c] + b)), y + (a + b);
    var k := |url| - |b| - 1;
    assert url[k] == '?';
    assert |with| == |url| ==> with[k] == c;
    assert |without| == |url| ==> without[k] == a[|a| - 1];
  }

  /**
    The glob matches every address that ends as the pattern spells it, with its
    question mark, and the condition is met by none of them.
   */
  lemma QueryNeverMet(x: string, a: string, c: char, b: string)
    requires a != [] && Plain(a) && c != '*' && c != '?' && Plain(b)
    ensures var pat, url := ['*'] + Query(a, c, b), x + Query(a, c, b);
            GlobMatches(pat, url) && UrlCondition(pat, url) == Value(false)
  {
    var pat, url := ['*'] + Query(a, c, b), x + Query(a, c, b);
    EndsSo(x, Query(a, c, b));
    ConditionOf(pat, url);
    ConditionIsReadings(pat, url);
    assert pat[1..] == Query(a, c, b) && pat[1..][0] == a[0] && FirstMarks(pat) == 0;
    ShortQueryReads(a, c, b);
    ReadsFront(pat, a + b);
    ReadsParsed(pat, ['*'] + (a + b));
    if plain: string :| Reads(pat, plain) && GlobMatches(plain, url) {
      var w := plain[1..];
      QueryReads(a, c, b, w);
      assert plain == ['*'] + w;
      var y := StarThenPlain(w, url);
      QueryEndsOtherwise(x, a, c, b, y);
    }
  }

  /** A wait for an address with a query never ends, although the page is there. */
  lemma QueryAddressNeverMet(pat: string, url: string)
    requires pat == "*/s?q=1" && url == "https://a.test/s?q=1"
    ensures GlobMatches(pat, url) && UrlCondition(pat, url) == Value(false)
  {
    assert pat == ['*'] + Query("/", 's', "q=1") && url == "https://a.test" + Query("/", 's', "q=1");
    QueryNeverMet("https://a.test", "/", 's', "q=1");
  }

  // ----- what the condition says of addresses -----

  /** A pattern without a star is met wherever the address holds it. */
  lemma StarlessIsSearched(pat: string, url: string)
    requires '*' !in pat
    ensures UrlCondition(pat, url) == Value(exists x: string, y: string :: url == x + pat + y)
  {
    if i :| 0 <= i <= |url| && pat <= url[i..] {
      assert url == url[..i] + pat + url[i..][|pat|..];
    }
    if x: string, y: string :| url == x + pat + y {
      assert url[|x|..] == pat + y;
      assert pat <= url[|x|..];
    }
  }

  /** A star stands for anything. */
  lemma StarIsAnything(a: string, b: string, url: string)
    requires Plain(a) && Plain(b)
    ensures GlobMatches(a + ['*'] + b, url) <==> exists x: string :: url == a + x + b
  {
    var pat := a + ['*'] + b;
    if fills: seq<string> :| Instance(pat, fills) == url {
      StarInside(a, b, fills);
    }
    if x: string :| url == a + x + b {
      StarInside(a, b, [x]);
      assert Instance(pat, [x]) == url;
    }
  }

  lemma StarFront(b: string, fills: seq<string>)
    requires Plain(b)
    ensures Instance(['*'] + b, fills) == (if fills == [] then [] else fills[0]) + b
  {
    assert (['*'] + b)[1..] == b;
    PlainInstance(b, if fills == [] then [] else fills[1..]);
  }

  lemma {:induction false} StarInside(a: string, b: string, fills: seq<string>)
    requires Plain(a) && Plain(b)
    ensures Instance(a + ['*'] + b, fills) == a + (if fills == [] then [] else fills[0]) + b
    decreases |a|
  {
    var fill := if fills == [] then [] else fills[0];
    if a == [] {
      StarFront(b, fills);
      assert a + ['*'] + b == ['*'] + b && a + fill + b == fill + b;
    } else {
      StarInside(a[1..], b, fills);
      FrontOfThree(a, ['*'], b);
      FrontOfThree(a, fill, b);
      LetterInstance(a[0], a[1..] + ['*'] + b, fills);
    }
  }

  lemma LetterInstance(c: char, rest: string, fills: seq<string>)
    requires c != '*'
    ensures Instance([c] + rest, fills) == [c] + Instance(rest, fills)
  {
    assert ([c] + rest)[1..] == rest;
  }

  lemma FrontOfThree(a: string, x: string, b: string)
    requires a != []
    ensures a + x + b == [a[0]] + (a[1..] + x + b)
  {
  }

  /**
    So the condition for a pattern with one star and no question mark asks how an
    address of one line starts and ends.
   */
  lemma OneStarCondition(a: string, b: string, url: string)
    requires Plain(a) && Plain(b) && NoLineTerminators(url)
    ensures UrlCondition(a + ['*'] + b, url) == Value(exists x: string :: url == a + x + b)
  {
    assert (a + ['*'] + b)[|a|] == '*';
    ConditionIsGlob(a + ['*'] + b, url);
    StarIsAnything(a, b, url);
  }

  /** A star takes every character but the four that end a line. */
  lemma StarStopsAtLines(pat: string, c: char)
    requires pat == "*"
    ensures UrlCondition(pat, [c]) == Value(c !in {'\n', '\r', '\U{2028}', '\U{2029}'})
  {
    var s, nodes, end := [c], [Term(AnyButLineTerminator, ZeroOrMore), InputEnd], [InputEnd];
    ConditionOf(pat, s);
    assert pat[1..] == [] && Marks([], 1) == 0;
    assert pat[1 + 0..] == [] && PatternNodes([]) == Some(end);
    assert PatternNodes(pat) == Some([Term(AnyButLineTerminator, ZeroOrMore)] + end);
    assert nodes[1..] == end && end[1..] == [];
    assert MatchFrom([], s, 1) && MatchFrom(end, s, 1) && !MatchFrom(end, s, 0);
    assert MatchFrom(nodes, s, 1);
    assert MatchFrom(nodes, s, 0) <==> Fits(AnyButLineTerminator, c);
  }

  /** A letter with a question mark after it is there or not. */
  lemma QueryMeans(a: string, c: char, b: string, url: string)
    requires Plain(a) && a != [] && c != '*' && c != '?' && Plain(b) && NoLineTerminators(url)
    ensures UrlCondition(['*'] + Query(a, c, b), url)
            == Value(exists x: string :: url == x + (a + [c] + b) || url == x + (a + b))
  {
    var pat := ['*'] + Query(a, c, b);
    ConditionOf(pat, url);
    QueryReading(a, c, b);
    if Met(pat, url) {
      var x := QueryMet(a, c, b, url);
    }
    if x: string :| url == x + (a + [c] + b) || url == x + (a + b) {
      QueryEnds(a, c, b, x, url);
    }
  }

  lemma QueryMet(a: string, c: char, b: string, url: string) returns (x: string)
    requires Plain(a) && a != [] && c != '*' && c != '?' && Plain(b) && Met(['*'] + Query(a, c, b), url)
    ensures url == x + (a + [c] + b) || url == x + (a + b)
  {
    var pat := ['*'] + Query(a, c, b);
    ConditionIsReadings(pat, url);
    QueryReading(a, c, b);
    var plain: string :| Reads(pat, plain) && GlobMatches(plain, url);
    ReadsLiteral(pat, plain);
    var w := plain[1..];
    QueryReads(a, c, b, w);
    TextAssoc(a, [c], b);
    assert plain == ['*'] + w;
    x := StarThenPlain(w, url);
  }

  lemma QueryEnds(a: string, c: char, b: string, x: string, url: string)
    requires Plain(a) && a != [] && c != '*' && c != '?' && Plain(b) && NoLineTerminators(url)
    requires url == x + (a + [c] + b) || url == x + (a + b)
    ensures Met(['*'] + Query(a, c, b), url)
  {
    var w := if url == x + (a + [c] + b) then a + [c] + b else a + b;
    QueryReading(a, c, b);
    EndsSo(x, w);
    assert Reads(['*'] + Query(a, c, b), ['*'] + w);
    ConditionIsReadings(['*'] + Query(a, c, b), url);
  }

  lemma {:induction false} LongQueryReads(a: string, c: char, b: string)
    requires Plain(a) && c != '*' && c != '?' && Plain(b)
    ensures Reads(Query(a, c, b), a + [c] + b)
    decreases |a|
  {
    var plain := a + [c] + b;
    if a == [] {
      var pat := [c, '?'] + b;
      assert Query(a, c, b) == pat && plain == [c] + b;
      assert pat[1..] == ['?'] + b && pat[1..][1..] == b && pat[2..] == b;
      assert Marks(b, 1) == 0;
      assert FirstMarks(pat) == 1;
      NothingToDrop(b);
      OnlyReading(b, b);
      assert plain[1..] == b;
    } else {
      QueryFront(a, c, b);
      ReadsLiteral(Query(a, c, b), plain);
      LongQueryReads(a[1..], c, b);
      assert plain == [a[0]] + (a[1..] + [c] + b) && plain[1..] == a[1..] + [c] + b;
    }
  }

  /** Both readings of a star and a query. */
  lemma QueryReading(a: string, c: char, b: string)
    requires Plain(a) && a != [] && c != '*' && c != '?' && Plain(b)
    ensures var pat := ['*'] + Query(a, c, b);
            && pat[1..] == Query(a, c, b) && FirstMarks(pat) == 0 && PatternNodes(pat).Some?
            && Reads(pat, ['*'] + (a + [c] + b)) && Reads(pat, ['*'] + (a + b))
  {
    var pat := ['*'] + Query(a, c, b);
    assert pat[1..] == Query(a, c, b) && pat[1..][0] == a[0] && FirstMarks(pat) == 0;
    LongQueryReads(a, c, b);
    ShortQueryReads(a, c, b);
    ReadsFront(pat, a + [c] + b);
    ReadsFront(pat, a + b);
    ReadsParsed(pat, ['*'] + (a + b));
  }

  /**
    A question mark with nothing before it to repeat throws: at the front, the
    third after a letter, the second after a star.
   */
  lemma NothingToRepeat(c: char, w: string, url: string)
    requires '*' in w && c != '*' && c != '?'
    ensures UrlCondition(['?'] + w, url) == Throws
    ensures UrlCondition([c, '?', '?', '?'] + w, url) == Throws
    ensures UrlCondition(['*', '?', '?'] + w, url) == Throws
  {
    assert forall p: string :: '*' in p + w;
    FrontThrows(w, url);
    LetterThrows(c, w, url);
    StarThrows(w, url);
  }

  lemma FrontThrows(w: string, url: string)
    requires '*' in w
    ensures UrlCondition(['?'] + w, url) == Throws
  {
    ConditionOf(['?'] + w, url);
  }

  lemma LetterThrows(c: char, w: string, url: string)
    requires '*' in w && c != '*' && c != '?'
    ensures UrlCondition([c, '?', '?', '?'] + w, url) == Throws
  {
    var pat := [c, '?', '?', '?'] + w;
    assert pat[1..] == ['?', '?', '?'] + w && pat[1..][1..] == ['?', '?'] + w;
    assert Marks(pat[1..][1..], 1) == 1;
    assert Marks(pat[1..], 2) == 2;
    assert pat[3..] == ['?'] + w;
    ConditionOf(pat, url);
  }

  lemma StarThrows(w: string, url: string)
    requires '*' in w
    ensures UrlCondition(['*', '?', '?'] + w, url) == Throws
  {
    var pat := ['*', '?', '?'] + w;
    assert pat[1..] == ['?', '?'] + w && Marks(pat[1..], 1) == 1;
    assert pat[2..] == ['?'] + w;
    ConditionOf(pat, url);
  }

  /** A second question mark after a letter makes no difference. */
  lemma SecondMarkIsIdle(c: char, w: string, url: string)
    requires '*' in w && c != '*' && c != '?' && w[0] != '?'
    ensures UrlCondition([c, '?', '?'] + w, url) == UrlCondition([c, '?'] + w, url)
  {
    ConditionOf([c, '?'] + w, url);
    ConditionOf([c, '?', '?'] + w, url);
    OneMarkNodes(c, w);
    TwoMarksNodes(c, w);
  }

  /** The nodes of a letter that may be left out, before those of `w`. */
  function OptionalFront(c: char, w: string): Option<seq<Node>> {
    match PatternNodes(w)
    case None => None
    case Some(nodes) => Some([Term(Literal(c), ZeroOrOne)] + nodes)
  }

  lemma OneMarkNodes(c: char, w: string)
    requires c != '*' && c != '?' && w != [] && w[0] != '?'
    ensures PatternNodes([c, '?'] + w) == OptionalFront(c, w)
  {
    var pat := [c, '?'] + w;
    assert pat[1..] == ['?'] + w && pat[1..][1..] == w && pat[2..] == w;
    assert Marks(w, 1) == 0;
    assert Marks(pat[1..], 2) == 1;
  }

  lemma TwoMarksNodes(c: char, w: string)
    requires c != '*' && c != '?' && w != [] && w[0] != '?'
    ensures PatternNodes([c, '?', '?'] + w) == OptionalFront(c, w)
  {
    var pat := [c, '?', '?'] + w;
    var u := ['?'] + w;
    assert pat[1..] == ['?', '?'] + w && pat[1..][1..] == u && u[1..] == w && pat[3..] == w;
    assert Marks(w, 0) == 0;
    assert Marks(u, 1) == 1;
    assert Marks(pat[1..], 2) == 2;
  }
}
