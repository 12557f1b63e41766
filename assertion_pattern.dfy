/**
 * The detector `cssImportAssertRegex(source)`: a regular expression built from the import
 * specifier followed by a fixed assertion clause, searched anywhere in the importer's text.
 *
 * The expression is written as a list of atoms. `Matches` is the backtracking meaning a
 * JavaScript regular expression gives such a list; `Greedy` is a single-pass matcher that
 * never backtracks. The two agree on every deterministic list (each `*` run is followed by
 * an atom that cannot start with a character of the run), and the assertion pattern is one.
 */
module AssertionPattern {
  import opened Wrappers

  datatype Atom =
    | Lit(c: char)                         // one literal character
    | AnyChar                              // `.` without the dotAll flag
    | OneOf(cs: set<char>)                 // a character class `[...]`
    | Many(cs: set<char>)                  // a character or a class under `*`
    | Either(left: string, right: string)  // a group `(?:left|right)`

  /** The line terminators that `.` does not match. */
  predicate IsLineTerminator(c: char) {
    c == '\n' || c == '\r' || c == '\U{2028}' || c == '\U{2029}'
  }

  /** Characters other than `.` that would make the interpolated specifier a non-literal pattern. */
  predicate IsRegexMeta(c: char) {
    c == '\\' || c == '^' || c == '$' || c == '|' || c == '?' || c == '*' || c == '+' ||
    c == '(' || c == ')' || c == '[' || c == ']' || c == '{' || c == '}'
  }

  /** The specifier consists of literal characters and dots only. */
  predicate NoRegexMeta(source: string) {
    forall i :: 0 <= i < |source| ==> !IsRegexMeta(source[i])
  }

  /** Whether atom `a` can consume `c` as its first character. */
  predicate CanStart(a: Atom, c: char) {
    match a
    case Lit(d) => c == d
    case AnyChar => !IsLineTerminator(c)
    case OneOf(cs) => c in cs
    case Many(cs) => true
    case Either(l, r) => (|l| > 0 && c == l[0]) || (|r| > 0 && c == r[0])
  }

  /** Backtracking semantics: the atoms match the whole of `s`. */
  predicate Matches(p: seq<Atom>, s: string)
    decreases |p|, |s|
  {
    if p == [] then s == []
    else match p[0]
      case Lit(c) => |s| > 0 && s[0] == c && Matches(p[1..], s[1..])
      case AnyChar => |s| > 0 && !IsLineTerminator(s[0]) && Matches(p[1..], s[1..])
      case OneOf(cs) => |s| > 0 && s[0] in cs && Matches(p[1..], s[1..])
      case Many(cs) =>
        Matches(p[1..], s) || (|s| > 0 && s[0] in cs && Matches(p, s[1..]))
      case Either(l, r) =>
        (l <= s && Matches(p[1..], s[|l|..])) || (r <= s && Matches(p[1..], s[|r|..]))
  }

  /** Each `*` run is followed by a non-run atom that cannot start with a run character, and alternatives start differently. */
  predicate Deterministic(p: seq<Atom>) {
    if p == [] then true
    else
      (match p[0]
       case Many(cs) => |p| > 1 && !p[1].Many? && forall c :: c in cs ==> !CanStart(p[1], c)
       case Either(l, r) => |l| > 0 && |r| > 0 && l[0] != r[0]
       case _ => true)
      && Deterministic(p[1..])
  }

  /** The length of the longest prefix of `s` drawn from `cs`. */
  function Run(cs: set<char>, s: string): (n: nat)
    ensures n <= |s|
    ensures forall i :: 0 <= i < n ==> s[i] in cs
    ensures n < |s| ==> s[n] !in cs
  {
    if |s| > 0 && s[0] in cs then 1 + Run(cs, s[1..]) else 0
  }

  function Shift(r: Option<nat>, n: nat): Option<nat> {
    match r
    case None => None
    case Some(m) => Some(n + m)
  }

  /** The single-pass matcher: the length of the prefix of `s` the atoms match, each run taken whole. */
  function Greedy(p: seq<Atom>, s: string): (r: Option<nat>)
    ensures r.Some? ==> r.value <= |s|
    decreases |p|
  {
    if p == [] then Some(0)
    else match p[0]
      case Lit(c) => if |s| > 0 && s[0] == c then Shift(Greedy(p[1..], s[1..]), 1) else None
      case AnyChar => if |s| > 0 && !IsLineTerminator(s[0]) then Shift(Greedy(p[1..], s[1..]), 1) else None
      case OneOf(cs) => if |s| > 0 && s[0] in cs then Shift(Greedy(p[1..], s[1..]), 1) else None
      case Many(cs) =>
        var n := Run(cs, s);
        Shift(Greedy(p[1..], s[n..]), n)
      case Either(l, r) =>
        if l <= s then Shift(Greedy(p[1..], s[|l|..]), |l|)
        else if r <= s then Shift(Greedy(p[1..], s[|r|..]), |r|)
        else None
  }

  // ---------------------------------------------------------------------------
  // The pattern of `cssImportAssertRegex`
  // ---------------------------------------------------------------------------

  const Quotes: set<char> := {'\'', '"'}
  const Space: set<char> := {' '}
  /** `[(?:\r?\n) \t]`: a class, so it admits each of its characters in any order. */
  const BraceBlank: set<char> := {'(', '?', ':', '\r', '\n', ')', ' ', '\t'}
  /** `[(?:\r?\n) ]`: the same class without the tab. */
  const CloseBlank: set<char> := {'(', '?', ':', '\r', '\n', ')', ' '}

  /** The atoms of a literal word. */
  function Word(w: string): (p: seq<Atom>)
    ensures |p| == |w|
    ensures forall i :: 0 <= i < |w| ==> p[i] == Lit(w[i])
  {
    if w == [] then [] else [Lit(w[0])] + Word(w[1..])
  }

  /** The specifier as a pattern: a dot is `.`, every other character stands for itself. */
  function SpecifierAtoms(source: string): (p: seq<Atom>)
    ensures |p| == |source|
  {
    if source == [] then []
    else [if source[0] == '.' then AnyChar else Lit(source[0])] + SpecifierAtoms(source[1..])
  }

  /** `['"] *(?:with|assert) *{[(?:\r?\n) \t]*`: the specifier's closing quote up to the blanks inside the brace. */
  function OpeningAtoms(): seq<Atom> {
    [OneOf(Quotes), Many(Space), Either("with", "assert"), Many(Space), Lit('{'), Many(BraceBlank)]
  }

  /** `type: *['"]css['"][(?:\r?\n) ]*};` */
  function TypeAtoms(): seq<Atom> {
    Word("type:") + [Many(Space), OneOf(Quotes)] + Word("css") + [OneOf(Quotes), Many(CloseBlank)] + Word("};")
  }

  /** The part of the expression that follows the specifier. */
  function ClauseAtoms(): seq<Atom> {
    OpeningAtoms() + TypeAtoms()
  }

  function Pattern(source: string): seq<Atom>
    requires NoRegexMeta(source)
  {
    SpecifierAtoms(source) + ClauseAtoms()
  }

  /** `regxp.test(text)`: the greedy matcher succeeds from some position of the text. */
  predicate Detect(source: string, text: string)
    requires NoRegexMeta(source)
  {
    exists i | 0 <= i <= |text| :: Greedy(Pattern(source), text[i..]).Some?
  }

  // ---------------------------------------------------------------------------
  // The greedy matcher agrees with the backtracking semantics
  // ---------------------------------------------------------------------------

  /** A `*` run absorbs any prefix drawn from its class. */
  lemma {:induction false} ManyAbsorbs(p: seq<Atom>, w: string, u: string)
    requires p != [] && p[0].Many?
    requires forall i :: 0 <= i < |w| ==> w[i] in p[0].cs
    requires Matches(p[1..], u)
    ensures Matches(p, w + u)
    decreases |w|
  {
    if w == [] {
      assert w + u == u;
    } else {
      ManyAbsorbs(p, w[1..], u);
      assert (w + u)[1..] == w[1..] + u;
    }
  }

  /** An atom that consumes exactly one character. */
  predicate IsSingle(a: Atom) {
    a.Lit? || a.AnyChar? || a.OneOf?
  }

  /** A one-character atom matches exactly the characters it can start with. */
  lemma SingleStep(p: seq<Atom>, s: string)
    requires p != [] && IsSingle(p[0])
    ensures Matches(p, s) <==> |s| > 0 && CanStart(p[0], s[0]) && Matches(p[1..], s[1..])
    ensures Greedy(p, s) == if |s| > 0 && CanStart(p[0], s[0]) then Shift(Greedy(p[1..], s[1..]), 1) else None
  {
  }

  lemma SoundSingle(p: seq<Atom>, s: string)
    requires p != [] && IsSingle(p[0]) && Greedy(p, s).Some?
    requires Greedy(p[1..], s[1..]).Some? ==> Matches(p[1..], s[1..][..Greedy(p[1..], s[1..]).value])
    ensures Matches(p, s[..Greedy(p, s).value])
  {
    SingleStep(p, s);
    var n := Greedy(p, s).value;
    assert s[..n][1..] == s[1..][..n - 1];
    SingleStep(p, s[..n]);
  }

  lemma SoundMany(p: seq<Atom>, s: string)
    requires p != [] && p[0].Many? && Greedy(p, s).Some?
    requires var k := Run(p[0].cs, s);
      Greedy(p[1..], s[k..]).Some? ==> Matches(p[1..], s[k..][..Greedy(p[1..], s[k..]).value])
    ensures Matches(p, s[..Greedy(p, s).value])
  {
    var n := Greedy(p, s).value;
    var k := Run(p[0].cs, s);
    assert s[..n] == s[..k] + s[k..][..n - k];
    ManyAbsorbs(p, s[..k], s[k..][..n - k]);
  }

  lemma SoundEither(p: seq<Atom>, s: string)
    requires p != [] && p[0].Either? && Greedy(p, s).Some?
    requires var l := p[0].left;
      l <= s && Greedy(p[1..], s[|l|..]).Some? ==> Matches(p[1..], s[|l|..][..Greedy(p[1..], s[|l|..]).value])
    requires var l, r := p[0].left, p[0].right;
      !(l <= s) && r <= s && Greedy(p[1..], s[|r|..]).Some? ==> Matches(p[1..], s[|r|..][..Greedy(p[1..], s[|r|..]).value])
    ensures Matches(p, s[..Greedy(p, s).value])
  {
    var n := Greedy(p, s).value;
    var l, r := p[0].left, p[0].right;
    if l <= s {
      assert s[..n][|l|..] == s[|l|..][..n - |l|];
      assert l <= s[..n];
    } else {
      assert s[..n][|r|..] == s[|r|..][..n - |r|];
      assert r <= s[..n];
    }
  }

  /** Whatever the greedy matcher accepts, the backtracking semantics accepts too. */
  lemma {:induction false} GreedySound(p: seq<Atom>, s: string)
    ensures Greedy(p, s).Some? ==> Matches(p, s[..Greedy(p, s).value])
    decreases |p|
  {
    if p != [] && Greedy(p, s).Some? {
      if IsSingle(p[0]) {
        GreedySound(p[1..], s[1..]);
        SoundSingle(p, s);
      } else if p[0].Many? {
        GreedySound(p[1..], s[Run(p[0].cs, s)..]);
        SoundMany(p, s);
      } else {
        var l, r := p[0].left, p[0].right;
        if l <= s {
          GreedySound(p[1..], s[|l|..]);
        } else if r <= s {
          GreedySound(p[1..], s[|r|..]);
        }
        SoundEither(p, s);
      }
    }
  }

  /** A match of a list that does not start with a run consumes a first character its head admits. */
  lemma FirstCharacter(p: seq<Atom>, t: string)
    requires p != [] && !p[0].Many?
    requires p[0].Either? ==> |p[0].left| > 0 && |p[0].right| > 0
    requires Matches(p, t)
    ensures |t| > 0 && CanStart(p[0], t[0])
  {
  }

  /** On a run, the greedy matcher takes the whole run and goes on after it. */
  lemma GreedyMany(p: seq<Atom>, s: string)
    requires p != [] && p[0].Many?
    ensures var n := Run(p[0].cs, s); Greedy(p, s) == Shift(Greedy(p[1..], s[n..]), n)
  {
  }

  lemma ShiftTwice(g: Option<nat>, k: nat)
    ensures Shift(Shift(g, k), 1) == Shift(g, 1 + k)
  {
  }

  /** Starting on a run character, the greedy matcher is one character further along. */
  lemma GreedyManyStep(p: seq<Atom>, s: string)
    requires p != [] && p[0].Many? && |s| > 0 && s[0] in p[0].cs
    ensures Greedy(p, s) == Shift(Greedy(p, s[1..]), 1)
  {
    var k := Run(p[0].cs, s[1..]);
    assert Run(p[0].cs, s) == 1 + k;
    assert s[1 + k..] == s[1..][k..];
    GreedyMany(p, s);
    GreedyMany(p, s[1..]);
    ShiftTwice(Greedy(p[1..], s[1 + k..]), k);
  }

  /** On a deterministic list, every backtracking match of a prefix is the one the greedy matcher finds. */
  lemma {:induction false} GreedyComplete(p: seq<Atom>, s: string, j: nat)
    requires Deterministic(p) && j <= |s| && Matches(p, s[..j])
    ensures Greedy(p, s) == Some(j)
    decreases |p|, |s|, 1
  {
    if p != [] {
      match p[0]
      case Lit(c) =>
        assert s[..j][1..] == s[1..][..j - 1];
        GreedyComplete(p[1..], s[1..], j - 1);
      case AnyChar =>
        assert s[..j][1..] == s[1..][..j - 1];
        GreedyComplete(p[1..], s[1..], j - 1);
      case OneOf(cs) =>
        assert s[..j][1..] == s[1..][..j - 1];
        GreedyComplete(p[1..], s[1..], j - 1);
      case Many(cs) =>
        CompleteMany(p, s, j);
      case Either(l, r) =>
        if l <= s[..j] && Matches(p[1..], s[..j][|l|..]) {
          assert s[..j][|l|..] == s[|l|..][..j - |l|];
          GreedyComplete(p[1..], s[|l|..], j - |l|);
        } else {
          assert s[0] == r[0];
          assert !(l <= s);
          assert s[..j][|r|..] == s[|r|..][..j - |r|];
          GreedyComplete(p[1..], s[|r|..], j - |r|);
        }
    }
  }

  lemma {:induction false} CompleteMany(p: seq<Atom>, s: string, j: nat)
    requires p != [] && p[0].Many?
    requires Deterministic(p) && j <= |s| && Matches(p, s[..j])
    ensures Greedy(p, s) == Some(j)
    decreases |p|, |s|, 0
  {
    var cs := p[0].cs;
    if Matches(p[1..], s[..j]) {
      FirstCharacter(p[1..], s[..j]);
      assert s[0] !in cs;
      assert Run(cs, s) == 0;
      GreedyMany(p, s);
      assert s[0..] == s;
      GreedyComplete(p[1..], s, j);
    } else {
      assert s[..j][1..] == s[1..][..j - 1];
      GreedyComplete(p, s[1..], j - 1);
      GreedyManyStep(p, s);
    }
  }

  // ---------------------------------------------------------------------------
  // Composing and splitting matches
  // ---------------------------------------------------------------------------

  /** Matches of two lists compose into a match of their concatenation. */
  lemma {:induction false} MatchesConcat(p: seq<Atom>, q: seq<Atom>, s: string, t: string)
    requires Matches(p, s) && Matches(q, t)
    ensures Matches(p + q, s + t)
    decreases |p|, |s|, 1
  {
    if p == [] {
      assert p + q == q && s + t == t;
    } else if IsSingle(p[0]) {
      ConcatSingle(p, q, s, t);
    } else if p[0].Many? {
      ConcatMany(p, q, s, t);
    } else {
      ConcatEither(p, q, s, t);
    }
  }

  lemma {:induction false} ConcatSingle(p: seq<Atom>, q: seq<Atom>, s: string, t: string)
    requires p != [] && IsSingle(p[0]) && Matches(p, s) && Matches(q, t)
    ensures Matches(p + q, s + t)
    decreases |p|, |s|, 0
  {
    SingleStep(p, s);
    MatchesConcat(p[1..], q, s[1..], t);
    ConcatHead(p, q);
    assert (s + t)[1..] == s[1..] + t;
    SingleStep(p + q, s + t);
  }

  lemma {:induction false} ConcatMany(p: seq<Atom>, q: seq<Atom>, s: string, t: string)
    requires p != [] && p[0].Many? && Matches(p, s) && Matches(q, t)
    ensures Matches(p + q, s + t)
    decreases |p|, |s|, 0
  {
    ConcatHead(p, q);
    if Matches(p[1..], s) {
      MatchesConcat(p[1..], q, s, t);
    } else {
      MatchesConcat(p, q, s[1..], t);
      assert (s + t)[1..] == s[1..] + t;
    }
  }

  lemma {:induction false} ConcatEither(p: seq<Atom>, q: seq<Atom>, s: string, t: string)
    requires p != [] && p[0].Either? && Matches(p, s) && Matches(q, t)
    ensures Matches(p + q, s + t)
    decreases |p|, |s|, 0
  {
    ConcatHead(p, q);
    var l, r := p[0].left, p[0].right;
    if l <= s && Matches(p[1..], s[|l|..]) {
      MatchesConcat(p[1..], q, s[|l|..], t);
      assert (s + t)[|l|..] == s[|l|..] + t;
      assert l <= s + t;
    } else {
      MatchesConcat(p[1..], q, s[|r|..], t);
      assert (s + t)[|r|..] == s[|r|..] + t;
      assert r <= s + t;
    }
  }

  lemma ConcatHead(p: seq<Atom>, q: seq<Atom>)
    requires p != []
    ensures (p + q)[0] == p[0] && (p + q)[1..] == p[1..] + q
  {
  }

  lemma JoinSingle(p: seq<Atom>, u: string, k: nat)
    requires p != [] && IsSingle(p[0])
    requires |u| > 0 && CanStart(p[0], u[0]) && k < |u| && Matches(p[1..], u[1..][..k])
    ensures Matches(p, u[..k + 1]) && u[k + 1..] == u[1..][k..]
  {
    assert u[..k + 1][1..] == u[1..][..k];
    SingleStep(p, u[..k + 1]);
  }

  lemma JoinMany(p: seq<Atom>, u: string, k: nat)
    requires p != [] && p[0].Many?
    requires |u| > 0 && u[0] in p[0].cs && k < |u| && Matches(p, u[1..][..k])
    ensures Matches(p, u[..k + 1]) && u[k + 1..] == u[1..][k..]
  {
    assert u[..k + 1][1..] == u[1..][..k];
  }

  lemma JoinWord(p: seq<Atom>, w: string, u: string, k: nat)
    requires p != [] && p[0].Either? && (w == p[0].left || w == p[0].right)
    requires w <= u && k <= |u| - |w| && Matches(p[1..], u[|w|..][..k])
    ensures Matches(p, u[..|w| + k]) && u[|w| + k..] == u[|w|..][k..]
  {
    assert u[..|w| + k][|w|..] == u[|w|..][..k];
    assert w <= u[..|w| + k];
  }

  /** A match of a concatenation splits into a match of each part. */
  lemma {:induction false} MatchesSplit(p: seq<Atom>, q: seq<Atom>, u: string) returns (k: nat)
    requires Matches(p + q, u)
    ensures k <= |u| && Matches(p, u[..k]) && Matches(q, u[k..])
    decreases |p|, |u|, 1
  {
    if p == [] {
      assert p + q == q;
      k := 0;
      assert u[0..] == u;
    } else if IsSingle(p[0]) {
      k := SplitSingle(p, q, u);
    } else if p[0].Many? {
      k := SplitMany(p, q, u);
    } else {
      k := SplitEither(p, q, u);
    }
  }

  lemma {:induction false} SplitSingle(p: seq<Atom>, q: seq<Atom>, u: string) returns (k: nat)
    requires p != [] && IsSingle(p[0]) && Matches(p + q, u)
    ensures k <= |u| && Matches(p, u[..k]) && Matches(q, u[k..])
    decreases |p|, |u|, 0
  {
    ConcatHead(p, q);
    SingleStep(p + q, u);
    var k' := MatchesSplit(p[1..], q, u[1..]);
    JoinSingle(p, u, k');
    k := k' + 1;
  }

  lemma {:induction false} SplitMany(p: seq<Atom>, q: seq<Atom>, u: string) returns (k: nat)
    requires p != [] && p[0].Many? && Matches(p + q, u)
    ensures k <= |u| && Matches(p, u[..k]) && Matches(q, u[k..])
    decreases |p|, |u|, 0
  {
    ConcatHead(p, q);
    if Matches(p[1..] + q, u) {
      k := MatchesSplit(p[1..], q, u);
    } else {
      var k' := MatchesSplit(p, q, u[1..]);
      JoinMany(p, u, k');
      k := k' + 1;
    }
  }

  lemma {:induction false} SplitEither(p: seq<Atom>, q: seq<Atom>, u: string) returns (k: nat)
    requires p != [] && p[0].Either? && Matches(p + q, u)
    ensures k <= |u| && Matches(p, u[..k]) && Matches(q, u[k..])
    decreases |p|, |u|, 0
  {
    ConcatHead(p, q);
    var l, r := p[0].left, p[0].right;
    if l <= u && Matches(p[1..] + q, u[|l|..]) {
      var k' := MatchesSplit(p[1..], q, u[|l|..]);
      JoinWord(p, l, u, k');
      k := |l| + k';
    } else {
      var k' := MatchesSplit(p[1..], q, u[|r|..]);
      JoinWord(p, r, u, k');
      k := |r| + k';
    }
  }

  // ---------------------------------------------------------------------------
  // What the detector accepts
  // ---------------------------------------------------------------------------

  /** Text that the specifier, read as a pattern, matches: its dots stand for any non-line-terminator. */
  predicate FitsSpecifier(source: string, t: string) {
    |t| == |source| &&
    forall i :: 0 <= i < |t| ==> if source[i] == '.' then !IsLineTerminator(t[i]) else t[i] == source[i]
  }

  lemma {:induction false} SpecifierMatches(source: string, t: string)
    ensures Matches(SpecifierAtoms(source), t) <==> FitsSpecifier(source, t)
  {
    if source != [] && |t| > 0 {
      SpecifierMatches(source[1..], t[1..]);
      if FitsSpecifier(source[1..], t[1..]) {
        assert forall i :: 1 <= i < |t| ==> t[i] == t[1..][i - 1] && source[i] == source[1..][i - 1];
      }
    } else if source == [] {
      assert SpecifierAtoms(source) == [];
    }
  }

  lemma {:induction false} SpecifierThenDeterministic(source: string, q: seq<Atom>)
    requires Deterministic(q)
    ensures Deterministic(SpecifierAtoms(source) + q)
  {
    if source != [] {
      SpecifierThenDeterministic(source[1..], q);
      ConcatHead(SpecifierAtoms(source), q);
    } else {
      assert SpecifierAtoms(source) + q == q;
    }
  }

  /** The condition `Deterministic` places on the atom at position `k`. */
  predicate AtomOk(p: seq<Atom>, k: nat)
    requires k < |p|
  {
    match p[k]
    case Many(cs) => k + 1 < |p| && !p[k + 1].Many? && forall c :: c in cs ==> !CanStart(p[k + 1], c)
    case Either(l, r) => |l| > 0 && |r| > 0 && l[0] != r[0]
    case _ => true
  }

  lemma {:induction false} DeterministicAt(p: seq<Atom>)
    requires forall k :: 0 <= k < |p| ==> AtomOk(p, k)
    ensures Deterministic(p)
  {
    if p != [] {
      forall k | 0 <= k < |p| - 1 ensures AtomOk(p[1..], k) {
        assert AtomOk(p, k + 1);
      }
      DeterministicAt(p[1..]);
      assert AtomOk(p, 0);
    }
  }

  lemma ClauseDeterministic()
    ensures Deterministic(ClauseAtoms())
  {
    var c := ClauseAtoms();
    forall k | 0 <= k < |c| ensures AtomOk(c, k) {
    }
    DeterministicAt(c);
  }

  lemma PatternDeterministic(source: string)
    requires NoRegexMeta(source)
    ensures Deterministic(Pattern(source))
  {
    ClauseDeterministic();
    SpecifierThenDeterministic(source, ClauseAtoms());
  }

  /** A greedy success at position `i` is a backtracking match of a slice starting there. */
  lemma GreedyMatchAt(p: seq<Atom>, text: string, i: nat) returns (j: nat)
    requires i <= |text| && Greedy(p, text[i..]).Some?
    ensures i <= j <= |text| && Matches(p, text[i..j])
  {
    GreedySound(p, text[i..]);
    var n := Greedy(p, text[i..]).value;
    assert text[i..][..n] == text[i..i + n];
    j := i + n;
  }

  lemma DetectFindsMatch(source: string, text: string) returns (i: nat, j: nat)
    requires NoRegexMeta(source) && Detect(source, text)
    ensures i <= j <= |text| && Matches(Pattern(source), text[i..j])
  {
    var P := Pattern(source);
    i :| 0 <= i <= |text| && Greedy(P, text[i..]).Some?;
    j := GreedyMatchAt(P, text, i);
  }

  lemma MatchIsDetected(source: string, text: string, i: nat, j: nat)
    requires NoRegexMeta(source) && i <= j <= |text| && Matches(Pattern(source), text[i..j])
    ensures Detect(source, text)
  {
    assert text[i..j] == text[i..][..j - i];
    PatternDeterministic(source);
    GreedyComplete(Pattern(source), text[i..], j - i);
  }

  /** The single-pass detector finds exactly what a backtracking search for the expression finds. */
  lemma DetectIsRegexSearch(source: string, text: string)
    requires NoRegexMeta(source)
    ensures Detect(source, text) <==>
      exists i, j :: 0 <= i <= j <= |text| && Matches(Pattern(source), text[i..j])
  {
    if Detect(source, text) {
      var i, j := DetectFindsMatch(source, text);
    }
    if exists i, j :: 0 <= i <= j <= |text| && Matches(Pattern(source), text[i..j]) {
      var i, j :| 0 <= i <= j <= |text| && Matches(Pattern(source), text[i..j]);
      MatchIsDetected(source, text, i, j);
    }
  }

  // ---------------------------------------------------------------------------
  // The assertion clause, written out
  // ---------------------------------------------------------------------------

  /** Every character of `w` belongs to `cs`. */
  predicate AllIn(w: string, cs: set<char>) {
    forall i :: 0 <= i < |w| ==> w[i] in cs
  }

  /**
   * An assertion clause as the expression admits it: the closing quote of the specifier,
   * spaces, `with` or `assert`, spaces, `{`, blanks, `type:`, spaces, a quoted `css`
   * (either quote at each end), blanks without tab, and `};`.
   */
  function ClauseText(q1: char, sp1: string, kw: string, sp2: string, ws1: string,
                      sp3: string, q2: char, q3: char, ws2: string): string
  {
    OpeningText(q1, sp1, kw, sp2, ws1) + TypeText(sp3, q2, q3, ws2)
  }

  function OpeningText(q1: char, sp1: string, kw: string, sp2: string, ws1: string): string {
    [q1] + sp1 + kw + sp2 + "{" + ws1
  }

  function TypeText(sp3: string, q2: char, q3: char, ws2: string): string {
    "type:" + sp3 + [q2] + "css" + [q3] + ws2 + "};"
  }

  predicate OpeningPieces(q1: char, sp1: string, kw: string, sp2: string, ws1: string) {
    q1 in Quotes && AllIn(sp1, Space) && (kw == "with" || kw == "assert") && AllIn(sp2, Space) &&
    AllIn(ws1, BraceBlank)
  }

  predicate TypePieces(sp3: string, q2: char, q3: char, ws2: string) {
    AllIn(sp3, Space) && q2 in Quotes && q3 in Quotes && AllIn(ws2, CloseBlank)
  }

  /** `t` is, as a whole, one assertion clause. */
  ghost predicate IsAssertionClause(t: string) {
    exists q1, sp1, kw, sp2, ws1, sp3, q2, q3, ws2 ::
      OpeningPieces(q1, sp1, kw, sp2, ws1) && TypePieces(sp3, q2, q3, ws2) &&
      t == ClauseText(q1, sp1, kw, sp2, ws1, sp3, q2, q3, ws2)
  }

  lemma RunMatches(cs: set<char>, w: string)
    requires AllIn(w, cs)
    ensures Matches([Many(cs)], w)
  {
    assert [Many(cs)][1..] == [];
    ManyAbsorbs([Many(cs)], w, []);
    assert w + [] == w;
  }

  lemma SingleMatches(a: Atom, c: char)
    requires IsSingle(a) && CanStart(a, c)
    ensures Matches([a], [c])
  {
    SingleStep([a], [c]);
  }

  lemma {:induction false} WordMatches(w: string)
    ensures Matches(Word(w), w)
  {
    if w != [] {
      WordMatches(w[1..]);
      assert Word(w)[1..] == Word(w[1..]);
      SingleStep(Word(w), w);
    }
  }

  lemma OpeningMatches(q1: char, sp1: string, kw: string, sp2: string, ws1: string)
    requires OpeningPieces(q1, sp1, kw, sp2, ws1)
    ensures Matches(OpeningAtoms(), OpeningText(q1, sp1, kw, sp2, ws1))
  {
    var a: seq<Atom>, t: string := [OneOf(Quotes)], [q1];
    SingleMatches(OneOf(Quotes), q1);
    RunMatches(Space, sp1);
    MatchesConcat(a, [Many(Space)], t, sp1);
    a, t := a + [Many(Space)], t + sp1;
    assert Matches([Either("with", "assert")], kw);
    MatchesConcat(a, [Either("with", "assert")], t, kw);
    a, t := a + [Either("with", "assert")], t + kw;
    RunMatches(Space, sp2);
    MatchesConcat(a, [Many(Space)], t, sp2);
    a, t := a + [Many(Space)], t + sp2;
    SingleMatches(Lit('{'), '{');
    MatchesConcat(a, [Lit('{')], t, "{");
    a, t := a + [Lit('{')], t + "{";
    RunMatches(BraceBlank, ws1);
    MatchesConcat(a, [Many(BraceBlank)], t, ws1);
    a, t := a + [Many(BraceBlank)], t + ws1;
    assert a == OpeningAtoms();
  }

  lemma TypeMatches(sp3: string, q2: char, q3: char, ws2: string)
    requires TypePieces(sp3, q2, q3, ws2)
    ensures Matches(TypeAtoms(), TypeText(sp3, q2, q3, ws2))
  {
    WordMatches("type:");
    RunMatches(Space, sp3);
    MatchesConcat(Word("type:"), [Many(Space)], "type:", sp3);
    SingleMatches(OneOf(Quotes), q2);
    MatchesConcat(Word("type:") + [Many(Space)], [OneOf(Quotes)], "type:" + sp3, [q2]);
    assert Word("type:") + [Many(Space)] + [OneOf(Quotes)] == Word("type:") + [Many(Space), OneOf(Quotes)];
    WordMatches("css");
    MatchesConcat(Word("type:") + [Many(Space), OneOf(Quotes)], Word("css"), "type:" + sp3 + [q2], "css");
    var a := Word("type:") + [Many(Space), OneOf(Quotes)] + Word("css");
    var t := "type:" + sp3 + [q2] + "css";
    SingleMatches(OneOf(Quotes), q3);
    MatchesConcat(a, [OneOf(Quotes)], t, [q3]);
    RunMatches(CloseBlank, ws2);
    MatchesConcat(a + [OneOf(Quotes)], [Many(CloseBlank)], t + [q3], ws2);
    assert a + [OneOf(Quotes)] + [Many(CloseBlank)] == a + [OneOf(Quotes), Many(CloseBlank)];
    WordMatches("};");
    MatchesConcat(a + [OneOf(Quotes), Many(CloseBlank)], Word("};"), t + [q3] + ws2, "};");
  }

  /** Every written-out clause is matched by the clause's atoms. */
  lemma ClauseMatches(q1: char, sp1: string, kw: string, sp2: string, ws1: string,
                      sp3: string, q2: char, q3: char, ws2: string)
    requires OpeningPieces(q1, sp1, kw, sp2, ws1) && TypePieces(sp3, q2, q3, ws2)
    ensures Matches(ClauseAtoms(), ClauseText(q1, sp1, kw, sp2, ws1, sp3, q2, q3, ws2))
  {
    OpeningMatches(q1, sp1, kw, sp2, ws1);
    TypeMatches(sp3, q2, q3, ws2);
    MatchesConcat(OpeningAtoms(), TypeAtoms(), OpeningText(q1, sp1, kw, sp2, ws1), TypeText(sp3, q2, q3, ws2));
  }

  lemma PeelSingle(p: seq<Atom>, t: string)
    requires p != [] && IsSingle(p[0]) && Matches(p, t)
    ensures |t| > 0 && CanStart(p[0], t[0]) && Matches(p[1..], t[1..])
  {
    SingleStep(p, t);
  }

  lemma {:induction false} PeelMany(p: seq<Atom>, t: string) returns (k: nat)
    requires p != [] && p[0].Many? && Matches(p, t)
    ensures k <= |t| && AllIn(t[..k], p[0].cs) && Matches(p[1..], t[k..])
    decreases |t|
  {
    if Matches(p[1..], t) {
      k := 0;
      assert t[0..] == t;
    } else {
      var k' := PeelMany(p, t[1..]);
      k := k' + 1;
      assert t[..k] == [t[0]] + t[1..][..k'];
      assert t[k..] == t[1..][k'..];
    }
  }

  lemma PeelEither(p: seq<Atom>, t: string) returns (w: string)
    requires p != [] && p[0].Either? && Matches(p, t)
    ensures (w == p[0].left || w == p[0].right) && w <= t && Matches(p[1..], t[|w|..])
  {
    if p[0].left <= t && Matches(p[1..], t[|p[0].left|..]) {
      w := p[0].left;
    } else {
      w := p[0].right;
    }
  }

  lemma {:induction false} PeelWord(w: string, q: seq<Atom>, t: string)
    requires Matches(Word(w) + q, t)
    ensures w <= t && Matches(q, t[|w|..])
  {
    if w == [] {
      assert Word(w) + q == q;
    } else {
      ConcatHead(Word(w), q);
      assert Word(w)[1..] == Word(w[1..]);
      PeelSingle(Word(w) + q, t);
      PeelWord(w[1..], q, t[1..]);
      assert t[1..][|w| - 1..] == t[|w|..];
    }
  }

  lemma SplitAt(s: string, k: nat)
    requires k <= |s|
    ensures s == s[..k] + s[k..]
  {
  }

  lemma WholeWord(w: string, t: string)
    requires w <= t && Matches([], t[|w|..])
    ensures t == w
  {
  }

  lemma HeadSplit(s: string)
    requires |s| > 0
    ensures s == [s[0]] + s[1..]
  {
  }

  lemma PrefixSplit(w: string, s: string)
    requires w <= s
    ensures s == w + s[|w|..]
  {
  }

  lemma AssembleOpening(t: string, q1: char, sp1: string, kw: string, sp2: string, ws1: string, rest: string,
                        t1: string, t2: string, t3: string, t4: string, t5: string)
    requires t == [q1] + t1 && t1 == sp1 + t2 && t2 == kw + t3 && t3 == sp2 + t4
    requires t4 == "{" + t5 && t5 == ws1 + rest
    ensures t == OpeningText(q1, sp1, kw, sp2, ws1) + rest
  {
  }

  lemma AssembleType(t: string, sp3: string, q2: char, q3: char, ws2: string,
                     t0: string, t1: string, t2: string, t3: string, t4: string, t5: string)
    requires t == "type:" + t0 && t0 == sp3 + t1 && t1 == [q2] + t2 && t2 == "css" + t3
    requires t3 == [q3] + t4 && t4 == ws2 + t5 && t5 == "};"
    ensures t == TypeText(sp3, q2, q3, ws2)
  {
  }

  lemma PeelSingleCons(a: Atom, q: seq<Atom>, t: string)
    requires IsSingle(a) && Matches([a] + q, t)
    ensures |t| > 0 && CanStart(a, t[0]) && Matches(q, t[1..])
  {
    ConcatHead([a], q);
    PeelSingle([a] + q, t);
  }

  lemma PeelManyCons(cs: set<char>, q: seq<Atom>, t: string) returns (k: nat)
    requires Matches([Many(cs)] + q, t)
    ensures k <= |t| && AllIn(t[..k], cs) && Matches(q, t[k..])
  {
    ConcatHead([Many(cs)], q);
    k := PeelMany([Many(cs)] + q, t);
  }

  lemma PeelEitherCons(l: string, r: string, q: seq<Atom>, t: string) returns (w: string)
    requires Matches([Either(l, r)] + q, t)
    ensures (w == l || w == r) && w <= t && Matches(q, t[|w|..])
  {
    ConcatHead([Either(l, r)], q);
    w := PeelEither([Either(l, r)] + q, t);
  }

  /** A match of the opening followed by further atoms starts with a written-out opening. */
  lemma ParseOpening(q: seq<Atom>, t: string) returns (q1: char, sp1: string, kw: string, sp2: string,
                                                        ws1: string, rest: string)
    requires Matches(OpeningAtoms() + q, t)
    ensures OpeningPieces(q1, sp1, kw, sp2, ws1)
    ensures t == OpeningText(q1, sp1, kw, sp2, ws1) + rest && Matches(q, rest)
  {
    var p5 := [Many(BraceBlank)] + q;
    var p4 := [Lit('{')] + p5;
    var p3 := [Many(Space)] + p4;
    var p2 := [Either("with", "assert")] + p3;
    var p1 := [Many(Space)] + p2;
    assert OpeningAtoms() + q == [OneOf(Quotes)] + p1;
    PeelSingleCons(OneOf(Quotes), p1, t);
    q1 := t[0];
    var t1 := t[1..];
    var k1 := PeelManyCons(Space, p2, t1);
    sp1 := t1[..k1];
    var t2 := t1[k1..];
    kw := PeelEitherCons("with", "assert", p3, t2);
    var t3 := t2[|kw|..];
    var k3 := PeelManyCons(Space, p4, t3);
    sp2 := t3[..k3];
    var t4 := t3[k3..];
    PeelSingleCons(Lit('{'), p5, t4);
    var t5 := t4[1..];
    var k5 := PeelManyCons(BraceBlank, q, t5);
    ws1 := t5[..k5];
    rest := t5[k5..];
    SplitAt(t5, k5);
    HeadSplit(t4);
    SplitAt(t3, k3);
    PrefixSplit(kw, t2);
    SplitAt(t1, k1);
    HeadSplit(t);
    AssembleOpening(t, q1, sp1, kw, sp2, ws1, rest, t1, t2, t3, t4, t5);
  }

  /** Every text the type part matches is a written-out type part. */
  lemma ParseType(t: string) returns (sp3: string, q2: char, q3: char, ws2: string)
    requires Matches(TypeAtoms(), t)
    ensures TypePieces(sp3, q2, q3, ws2) && t == TypeText(sp3, q2, q3, ws2)
  {
    var p5 := Word("};") + [];
    var p4 := [Many(CloseBlank)] + p5;
    var p3 := [OneOf(Quotes)] + p4;
    var p2 := Word("css") + p3;
    var p1 := [OneOf(Quotes)] + p2;
    var p0 := [Many(Space)] + p1;
    assert TypeAtoms() == Word("type:") + p0;
    PeelWord("type:", p0, t);
    var t0 := t[5..];
    var k0 := PeelManyCons(Space, p1, t0);
    sp3 := t0[..k0];
    var t1 := t0[k0..];
    PeelSingleCons(OneOf(Quotes), p2, t1);
    q2 := t1[0];
    var t2 := t1[1..];
    PeelWord("css", p3, t2);
    var t3 := t2[3..];
    PeelSingleCons(OneOf(Quotes), p4, t3);
    q3 := t3[0];
    var t4 := t3[1..];
    var k4 := PeelManyCons(CloseBlank, p5, t4);
    ws2 := t4[..k4];
    var t5 := t4[k4..];
    PeelWord("};", [], t5);
    WholeWord("};", t5);
    SplitAt(t4, k4);
    HeadSplit(t3);
    PrefixSplit("css", t2);
    HeadSplit(t1);
    SplitAt(t0, k0);
    PrefixSplit("type:", t);
    AssembleType(t, sp3, q2, q3, ws2, t0, t1, t2, t3, t4, t5);
  }

  /** The clause's atoms match exactly the written-out clauses. */
  lemma ClauseMatchesIff(t: string)
    ensures Matches(ClauseAtoms(), t) <==> IsAssertionClause(t)
  {
    if Matches(ClauseAtoms(), t) {
      var q1, sp1, kw, sp2, ws1, rest := ParseOpening(TypeAtoms(), t);
      var sp3, q2, q3, ws2 := ParseType(rest);
      assert t == ClauseText(q1, sp1, kw, sp2, ws1, sp3, q2, q3, ws2);
    }
    if IsAssertionClause(t) {
      var q1, sp1, kw, sp2, ws1, sp3, q2, q3, ws2 :|
        OpeningPieces(q1, sp1, kw, sp2, ws1) && TypePieces(sp3, q2, q3, ws2) &&
        t == ClauseText(q1, sp1, kw, sp2, ws1, sp3, q2, q3, ws2);
      ClauseMatches(q1, sp1, kw, sp2, ws1, sp3, q2, q3, ws2);
    }
  }

  // ---------------------------------------------------------------------------
  // The detector, stated on the importer's text
  // ---------------------------------------------------------------------------

  lemma PatternMatchSplits(source: string, u: string)
    requires NoRegexMeta(source) && Matches(Pattern(source), u)
    ensures |source| <= |u| && FitsSpecifier(source, u[..|source|]) && IsAssertionClause(u[|source|..])
  {
    var k := MatchesSplit(SpecifierAtoms(source), ClauseAtoms(), u);
    SpecifierMatches(source, u[..k]);
    ClauseMatchesIff(u[k..]);
  }

  lemma PatternMatchJoins(source: string, u: string)
    requires NoRegexMeta(source)
    requires |source| <= |u| && FitsSpecifier(source, u[..|source|]) && IsAssertionClause(u[|source|..])
    ensures Matches(Pattern(source), u)
  {
    SpecifierMatches(source, u[..|source|]);
    ClauseMatchesIff(u[|source|..]);
    MatchesConcat(SpecifierAtoms(source), ClauseAtoms(), u[..|source|], u[|source|..]);
    SplitAt(u, |source|);
  }

  /** At `text[i..j]` stands the specifier followed by a complete assertion clause. */
  ghost predicate AssertionAt(source: string, text: string, i: int, j: int) {
    0 <= i && i + |source| <= j <= |text| &&
    FitsSpecifier(source, text[i..i + |source|]) && IsAssertionClause(text[i + |source|..j])
  }

  lemma SliceParts(text: string, i: nat, m: nat, j: nat)
    requires i <= m <= j <= |text|
    ensures text[i..j][..m - i] == text[i..m] && text[i..j][m - i..] == text[m..j]
  {
  }

  lemma MatchIsAssertion(source: string, text: string, i: nat, j: nat)
    requires NoRegexMeta(source) && i <= j <= |text| && Matches(Pattern(source), text[i..j])
    ensures AssertionAt(source, text, i, j)
  {
    PatternMatchSplits(source, text[i..j]);
    SliceParts(text, i, i + |source|, j);
  }

  lemma AssertionIsMatch(source: string, text: string, i: int, j: int)
    requires NoRegexMeta(source) && AssertionAt(source, text, i, j)
    ensures 0 <= i <= j <= |text| && Matches(Pattern(source), text[i..j])
  {
    SliceParts(text, i, i + |source|, j);
    PatternMatchJoins(source, text[i..j]);
  }

  /**
   * The detector fires exactly when, at some position of the text, the specifier is followed
   * by a complete assertion clause.
   */
  lemma DetectIffAssertion(source: string, text: string)
    requires NoRegexMeta(source)
    ensures Detect(source, text) <==> exists i, j :: AssertionAt(source, text, i, j)
  {
    DetectIsRegexSearch(source, text);
    if Detect(source, text) {
      var i, j :| 0 <= i <= j <= |text| && Matches(Pattern(source), text[i..j]);
      MatchIsAssertion(source, text, i, j);
    }
    if exists i, j :: AssertionAt(source, text, i, j) {
      var i, j :| AssertionAt(source, text, i, j);
      AssertionIsMatch(source, text, i, j);
    }
  }

  /**
   * Whatever the spacing, the quotes and the keyword, a specifier followed by a written-out
   * clause is detected, wherever it stands in the text.
   */
  lemma AssertionDetected(source: string, before: string, spec: string, after: string,
                          q1: char, sp1: string, kw: string, sp2: string, ws1: string,
                          sp3: string, q2: char, q3: char, ws2: string)
    requires NoRegexMeta(source) && FitsSpecifier(source, spec)
    requires OpeningPieces(q1, sp1, kw, sp2, ws1) && TypePieces(sp3, q2, q3, ws2)
    ensures Detect(source, before + spec + ClauseText(q1, sp1, kw, sp2, ws1, sp3, q2, q3, ws2) + after)
  {
    var c := ClauseText(q1, sp1, kw, sp2, ws1, sp3, q2, q3, ws2);
    var text := before + spec + c + after;
    var i, j := |before|, |before| + |spec| + |c|;
    assert text[i..i + |source|] == spec;
    assert text[i + |source|..j] == c;
    assert AssertionAt(source, text, i, j);
    DetectIffAssertion(source, text);
  }

  /** In `[q1] + sp1 + kw + rest`, the keyword follows the quote after spaces only. */
  lemma KeywordAfterSpaces(q1: char, sp1: string, kw: string, rest: string)
    requires AllIn(sp1, Space) && (kw == "with" || kw == "assert")
    ensures var t := [q1] + sp1 + kw + rest;
      exists n :: 1 <= n <= |t| && AllIn(t[1..n], Space) && ("with" <= t[n..] || "assert" <= t[n..])
  {
    var t := [q1] + sp1 + kw + rest;
    var n := 1 + |sp1|;
    assert t[1..n] == sp1;
    assert t[n..] == kw + rest;
  }

  /**
   * Between the specifier's closing quote and the keyword only spaces may stand: no line break,
   * no tab.
   */
  lemma ClauseKeywordOnSameLine(t: string)
    requires IsAssertionClause(t)
    ensures |t| >= 1 && t[0] in Quotes
    ensures exists n :: 1 <= n <= |t| && AllIn(t[1..n], Space) && ("with" <= t[n..] || "assert" <= t[n..])
  {
    var q1, sp1, kw, sp2, ws1, sp3, q2, q3, ws2 :|
      OpeningPieces(q1, sp1, kw, sp2, ws1) && TypePieces(sp3, q2, q3, ws2) &&
      t == ClauseText(q1, sp1, kw, sp2, ws1, sp3, q2, q3, ws2);
    var rest := sp2 + "{" + ws1 + TypeText(sp3, q2, q3, ws2);
    assert t == [q1] + sp1 + kw + rest;
    KeywordAfterSpaces(q1, sp1, kw, rest);
  }

  lemma ClauseTextEnds(q1: char, sp1: string, kw: string, sp2: string, ws1: string,
                       sp3: string, q2: char, q3: char, ws2: string)
    ensures var c := ClauseText(q1, sp1, kw, sp2, ws1, sp3, q2, q3, ws2);
      |c| >= 2 && c[|c| - 2..] == "};"
  {
    var front := OpeningText(q1, sp1, kw, sp2, ws1) + "type:" + sp3 + [q2] + "css" + [q3] + ws2;
    assert ClauseText(q1, sp1, kw, sp2, ws1, sp3, q2, q3, ws2) == front + "};";
  }

  /** A clause ends with `};`. */
  lemma ClauseEndsWithTerminator(t: string)
    requires IsAssertionClause(t)
    ensures |t| >= 2 && t[|t| - 2..] == "};"
  {
    var q1, sp1, kw, sp2, ws1, sp3, q2, q3, ws2 :|
      OpeningPieces(q1, sp1, kw, sp2, ws1) && TypePieces(sp3, q2, q3, ws2) &&
      t == ClauseText(q1, sp1, kw, sp2, ws1, sp3, q2, q3, ws2);
    ClauseTextEnds(q1, sp1, kw, sp2, ws1, sp3, q2, q3, ws2);
  }

  /** `w` occurs somewhere in `text`. */
  predicate Occurs(w: string, text: string) {
    exists k :: 0 <= k <= |text| && w <= text[k..]
  }

  /** An importer in which `};` never occurs is never intercepted: a plain import carries no assertion. */
  lemma DetectNeedsTerminator(source: string, text: string)
    requires NoRegexMeta(source) && Detect(source, text)
    ensures Occurs("};", text)
  {
    DetectIffAssertion(source, text);
    var i, j :| AssertionAt(source, text, i, j);
    ClauseEndsWithTerminator(text[i + |source|..j]);
    assert text[j - 2..j] == text[i + |source|..j][j - i - |source| - 2..];
    assert "};" <= text[j - 2..];
  }
}
