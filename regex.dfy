/** The fragment of ECMAScript regular expressions that app.js uses: an
    optional leading `\b` followed by a concatenation of quantified character
    classes (`[A-Z]{2,4}`, `\s?`, `.{1,100}`, `[^\]]+`, ...).

    `Match` is the backtracking matcher of the ECMAScript standard
    (section 22.2.2 of ECMA-262, RepeatMatcher for a greedy quantifier):
    every quantifier first takes as many characters as it can and gives
    them back one at a time when the rest of the pattern fails. `Fits` is
    the declarative reading of the same pattern and `Preferred` the order in
    which the backtracking tries the alternatives; `MatchSpec` proves that
    `Match` returns the first fitting alternative in that order.
    `Search` is `String.prototype.match` / `RegExp.prototype.exec` without
    the `g` flag: the leftmost start position wins. */
module Regex {
  import opened Wrappers
  import opened Text

  /** The character classes that occur in the patterns of app.js. */
  datatype CharClass =
    | Chr(c: char)            // a literal character
    | Folded(c: char)         // a literal character under the `i` flag
    | UpperAscii              // [A-Z]
    | Digit                   // \d
    | Space                   // \s
    | Dash                    // [-–]  (U+002D, U+2013)
    | AnyButLineTerminator    // .
    | NotCloseBracket         // [^\]]
    | CapitalInitial          // [A-ZÀ-Ú]  (U+00C0..U+00DA)
    | NameChar                // [A-Za-zÀ-ú\s'´`^~\-]  (U+00C0..U+00FA)

  predicate IsUpperAscii(c: char) { 'A' <= c <= 'Z' }
  predicate IsLowerAscii(c: char) { 'a' <= c <= 'z' }
  predicate IsDigit(c: char) { '0' <= c <= '9' }

  /** ASCII word characters are never whitespace. */
  lemma WordCharNotWs(c: char)
    requires IsWordChar(c)
    ensures !IsWs(c)
  {
  }

  /** The characters `\w` matches; `\b` is defined from them, so an accented
      letter is not a word character. */
  predicate IsWordChar(c: char) {
    IsUpperAscii(c) || IsLowerAscii(c) || IsDigit(c) || c == '_'
  }

  /** Canonicalize of the `i` flag without `u`, for the ASCII letters only:
      an ASCII pattern letter then matches exactly its two ASCII cases, since
      no non-ASCII character canonicalizes to an ASCII one. The case pairs of
      non-ASCII letters are not modelled. */
  function FoldCase(c: char): char {
    if IsLowerAscii(c) then (c as int - 32) as char else c
  }

  predicate InClass(k: CharClass, c: char) {
    match k
    case Chr(x) => c == x
    case Folded(x) => FoldCase(c) == FoldCase(x)
    case UpperAscii => IsUpperAscii(c)
    case Digit => IsDigit(c)
    case Space => IsWs(c)
    case Dash => c == '-' || c as int == 0x2013
    case AnyButLineTerminator => !IsLineTerminator(c)
    case NotCloseBracket => c != ']'
    case CapitalInitial => IsUpperAscii(c) || 0xC0 <= c as int <= 0xDA
    case NameChar =>
      IsUpperAscii(c) || IsLowerAscii(c) || (0xC0 <= c as int <= 0xFA) || IsWs(c)
      || c == '\'' || c as int == 0xB4 || c == '`' || c == '^' || c == '~' || c == '-'
  }

  /** The upper bound of a quantifier: `{m,n}` or `+` / `*`. */
  datatype Bound = AtMost(n: nat) | Unbounded

  /** A character class with a greedy quantifier `{min,max}`. */
  datatype Atom = Atom(cls: CharClass, min: nat, max: Bound)

  /** A pattern: an optional `\b` at its start, then the atoms in sequence. */
  datatype Pattern = Pattern(wordBoundary: bool, atoms: seq<Atom>)

  /** The literal word `w` as a pattern, each letter once; `folded` for the
      `i` flag. */
  function Word(w: string, folded: bool): (p: seq<Atom>)
    ensures |p| == |w|
  {
    if w == [] then []
    else [Atom(if folded then Folded(w[0]) else Chr(w[0]), 1, AtMost(1))] + Word(w[1..], folded)
  }

  /** Length of the longest run of characters of class `k` starting at `j`. */
  function Run(k: CharClass, s: string, j: nat): (n: nat)
    requires j <= |s|
    ensures j + n <= |s|
    ensures forall i :: j <= i < j + n ==> InClass(k, s[i])
    ensures j + n == |s| || !InClass(k, s[j + n])
    decreases |s| - j
  {
    if j < |s| && InClass(k, s[j]) then 1 + Run(k, s, j + 1) else 0
  }

  function Cap(b: Bound, n: nat): nat {
    match b
    case AtMost(m) => if n < m then n else m
    case Unbounded => n
  }

  /** How many characters a greedy atom takes at `j` before any backtracking. */
  function Greedy(a: Atom, s: string, j: nat): nat
    requires j <= |s|
  {
    Cap(a.max, Run(a.cls, s, j))
  }

  function Sum(c: seq<nat>): nat {
    if c == [] then 0 else c[0] + Sum(c[1..])
  }

  /** The shortest length any match of `p` has. */
  function MinLen(p: seq<Atom>): nat {
    if p == [] then 0 else p[0].min + MinLen(p[1..])
  }

  lemma {:induction false} SumAppend(a: seq<nat>, b: seq<nat>)
    ensures Sum(a + b) == Sum(a) + Sum(b)
  {
    if a == [] {
      assert a + b == b;
    } else {
      assert (a + b)[1..] == a[1..] + b;
      SumAppend(a[1..], b);
    }
  }

  // ----- the backtracking matcher -----

  /** Matches the atoms `p` at position `j`; the result gives, per atom, how
      many characters it took. */
  function Match(p: seq<Atom>, s: string, j: nat): (r: Option<seq<nat>>)
    requires j <= |s|
    ensures r.Some? ==> |r.value| == |p| && j + Sum(r.value) <= |s|
    ensures r.Some? ==> Sum(r.value) >= MinLen(p)
    decreases |p|, 1, 0
  {
    if p == [] then Some([]) else Try(p, s, j, Greedy(p[0], s, j))
  }

  /** The first atom takes `n` characters, then `n - 1`, ... down to its
      minimum, until the remaining atoms match. */
  function Try(p: seq<Atom>, s: string, j: nat, n: nat): (r: Option<seq<nat>>)
    requires p != [] && j + n <= |s|
    ensures r.Some? ==> |r.value| == |p| && r.value[0] <= n && j + Sum(r.value) <= |s|
    ensures r.Some? ==> Sum(r.value) >= MinLen(p)
    decreases |p|, 0, n
  {
    if n < p[0].min then None
    else
      match Match(p[1..], s, j + n)
      case Some(rest) =>
        assert ([n] + rest)[1..] == rest;
        Some([n] + rest)
      case None => if n == 0 then None else Try(p, s, j, n - 1)
  }

  // ----- the declarative reading -----

  /** Atom `a` can take exactly `n` characters at `j`. */
  predicate AtomFits(a: Atom, s: string, j: nat, n: nat) {
    a.min <= n && (a.max.AtMost? ==> n <= a.max.n) && j + n <= |s|
    && forall i :: j <= i < j + n ==> InClass(a.cls, s[i])
  }

  /** The counts `c` describe a match of the atoms `p` at `j`. */
  predicate Fits(p: seq<Atom>, s: string, j: nat, c: seq<nat>)
    decreases |p|
  {
    if p == [] then c == [] && j <= |s|
    else |c| > 0 && AtomFits(p[0], s, j, c[0]) && Fits(p[1..], s, j + c[0], c[1..])
  }

  /** Backtracking tries the counts `a` before the counts `b`: `a` is
      lexicographically greater. */
  predicate Preferred(a: seq<nat>, b: seq<nat>) {
    |a| > 0 && |b| > 0 && (a[0] > b[0] || (a[0] == b[0] && Preferred(a[1..], b[1..])))
  }

  lemma GreedyBound(a: Atom, s: string, j: nat, n: nat)
    requires j <= |s| && AtomFits(a, s, j, n)
    ensures n <= Greedy(a, s, j)
  {
    assert n <= Run(a.cls, s, j);
  }

  lemma GreedyFits(a: Atom, s: string, j: nat, n: nat)
    requires j <= |s| && a.min <= n <= Greedy(a, s, j)
    ensures AtomFits(a, s, j, n)
  {
    assert n <= Run(a.cls, s, j);
  }

  /** One step of `Fits`: the first atom, then the rest. */
  lemma FitsCons(a: Atom, p: seq<Atom>, s: string, j: nat, c: seq<nat>)
    requires Fits([a] + p, s, j, c)
    ensures |c| > 0 && AtomFits(a, s, j, c[0]) && Fits(p, s, j + c[0], c[1..])
    ensures Sum(c) == c[0] + Sum(c[1..])
  {
    assert ([a] + p)[1..] == p;
  }

  lemma {:induction false} FitsWithin(p: seq<Atom>, s: string, j: nat, c: seq<nat>)
    requires Fits(p, s, j, c)
    ensures |c| == |p| && j + Sum(c) <= |s|
    decreases |p|
  {
    if p != [] {
      FitsWithin(p[1..], s, j + c[0], c[1..]);
    }
  }

  /** Fitting counts for `p + q` split into fitting counts for `p` and `q`. */
  lemma {:induction false} FitsSplit(p: seq<Atom>, q: seq<Atom>, s: string, j: nat, c: seq<nat>)
    requires Fits(p + q, s, j, c)
    ensures |c| >= |p| && Fits(p, s, j, c[..|p|])
    ensures Fits(q, s, j + Sum(c[..|p|]), c[|p|..])
    decreases |p|
  {
    if p == [] {
      assert p + q == q;
      assert c[..0] == [] && c[0..] == c;
    } else {
      assert (p + q)[1..] == p[1..] + q;
      FitsSplit(p[1..], q, s, j + c[0], c[1..]);
      assert c[..|p|][1..] == c[1..][..|p| - 1];
      assert c[1..][|p| - 1..] == c[|p|..];
    }
  }

  /** Fitting counts for `p` and `q` join into fitting counts for `p + q`. */
  lemma {:induction false} FitsJoin(p: seq<Atom>, q: seq<Atom>, s: string, j: nat, a: seq<nat>, b: seq<nat>)
    requires Fits(p, s, j, a) && Fits(q, s, j + Sum(a), b)
    ensures Fits(p + q, s, j, a + b)
    decreases |p|
  {
    if p == [] {
      assert p + q == q && a + b == b;
    } else {
      assert (p + q)[1..] == p[1..] + q;
      assert (a + b)[1..] == a[1..] + b;
      FitsJoin(p[1..], q, s, j + a[0], a[1..], b);
    }
  }

  function Ones(n: nat): (c: seq<nat>)
    ensures |c| == n && Sum(c) == n
  {
    if n == 0 then [] else [1] + Ones(n - 1)
  }

  predicate CharMatches(folded: bool, c: char, x: char) {
    if folded then FoldCase(c) == FoldCase(x) else c == x
  }

  /** The text spells the word `w` from `j` on. */
  predicate WordAt(s: string, j: nat, w: string, folded: bool) {
    j + |w| <= |s| && forall m :: 0 <= m < |w| ==> CharMatches(folded, s[j + m], w[m])
  }

  /** A literal word fits exactly where the text spells it, one character
      per counted atom. */
  lemma {:induction false} WordFits(w: string, folded: bool, s: string, j: nat, c: seq<nat>)
    ensures Fits(Word(w, folded), s, j, c) <==> (c == Ones(|w|) && WordAt(s, j, w, folded))
    decreases |w|
  {
    var p := Word(w, folded);
    if w != [] {
      var k := if folded then Folded(w[0]) else Chr(w[0]);
      assert p[0] == Atom(k, 1, AtMost(1)) && p[1..] == Word(w[1..], folded);
      assert Ones(|w|) == [1] + Ones(|w| - 1);
      WordAtCons(s, j, w, folded);
      if c != [] && c[0] == 1 && j < |s| {
        WordFits(w[1..], folded, s, j + 1, c[1..]);
        assert InClass(k, s[j]) <==> CharMatches(folded, s[j], w[0]);
        assert (c == Ones(|w|)) <==> (c[1..] == Ones(|w| - 1));
      }
    }
  }

  lemma WordAtCons(s: string, j: nat, w: string, folded: bool)
    requires w != []
    ensures WordAt(s, j, w, folded) <==>
      j < |s| && CharMatches(folded, s[j], w[0]) && WordAt(s, j + 1, w[1..], folded)
  {
    if j < |s| && CharMatches(folded, s[j], w[0]) && WordAt(s, j + 1, w[1..], folded) {
      forall m | 0 <= m < |w| ensures CharMatches(folded, s[j + m], w[m]) {
        if m > 0 {
          assert w[m] == w[1..][m - 1];
        }
      }
    }
    if WordAt(s, j, w, folded) {
      forall m | 0 <= m < |w| - 1 ensures CharMatches(folded, s[j + 1 + m], w[1..][m]) {
        assert w[1..][m] == w[m + 1];
      }
    }
  }

  /** Taking one more character in the last atom is tried first. */
  lemma {:induction false} PreferredLast(a: seq<nat>, x: nat, y: nat)
    requires x > y
    ensures Preferred(a + [x], a + [y])
  {
    if a != [] {
      assert (a + [x])[1..] == a[1..] + [x];
      assert (a + [y])[1..] == a[1..] + [y];
      PreferredLast(a[1..], x, y);
    }
  }

  // ----- the matcher and its specification -----

  lemma {:induction false} MatchSpec(p: seq<Atom>, s: string, j: nat)
    requires j <= |s|
    ensures Match(p, s, j).Some? ==>
      Fits(p, s, j, Match(p, s, j).value)
      && forall d :: Fits(p, s, j, d) ==> !Preferred(d, Match(p, s, j).value)
    ensures Match(p, s, j).None? ==> forall d :: !Fits(p, s, j, d)
    decreases |p|, 1, 0
  {
    if p != [] {
      var g := Greedy(p[0], s, j);
      TrySpec(p, s, j, g);
      forall d | Fits(p, s, j, d) ensures d[0] <= g {
        GreedyBound(p[0], s, j, d[0]);
      }
    }
  }

  lemma {:induction false} TrySpec(p: seq<Atom>, s: string, j: nat, n: nat)
    requires p != [] && j <= |s| && n <= Greedy(p[0], s, j)
    ensures j + n <= |s|
    ensures Try(p, s, j, n).Some? ==>
      var c := Try(p, s, j, n).value;
      Fits(p, s, j, c)
      && forall d :: Fits(p, s, j, d) && d[0] <= n ==> !Preferred(d, c)
    ensures Try(p, s, j, n).None? ==> forall d :: Fits(p, s, j, d) ==> d[0] > n
    decreases |p|, 0, n
  {
    var t := Try(p, s, j, n);
    var q := p[1..];
    if n < p[0].min {
      assert t.None?;
    } else {
      MatchSpec(q, s, j + n);
      var m := Match(q, s, j + n);
      if m.Some? {
        var c := [n] + m.value;
        assert t == Some(c);
        assert c[0] == n && c[1..] == m.value;
        GreedyFits(p[0], s, j, n);
        assert Fits(p, s, j, c);
        forall d | Fits(p, s, j, d) && d[0] <= n ensures !Preferred(d, c) {
          assert Fits(q, s, j + d[0], d[1..]);
        }
      } else {
        forall d | Fits(p, s, j, d) ensures d[0] != n {
          assert Fits(q, s, j + d[0], d[1..]);
        }
        if n > 0 {
          TrySpec(p, s, j, n - 1);
          assert t == Try(p, s, j, n - 1);
        } else {
          assert t.None?;
        }
      }
    }
  }

  // ----- word boundary, match at a position, leftmost search -----

  /** `\b` at position `i`. */
  predicate AtWordBoundary(s: string, i: nat)
    requires i <= |s|
  {
    (i > 0 && IsWordChar(s[i - 1])) != (i < |s| && IsWordChar(s[i]))
  }

  /** The declarative reading of a whole pattern at position `i`. */
  predicate MatchesAt(re: Pattern, s: string, i: nat, c: seq<nat>) {
    i <= |s| && (re.wordBoundary ==> AtWordBoundary(s, i)) && Fits(re.atoms, s, i, c)
  }

  /** No match of `re` starts anywhere in `s`. */
  ghost predicate NoMatch(re: Pattern, s: string) {
    forall i, c :: !MatchesAt(re, s, i, c)
  }

  function MatchAt(re: Pattern, s: string, i: nat): (r: Option<seq<nat>>)
    requires i <= |s|
    ensures r.Some? ==> i + Sum(r.value) <= |s| && Sum(r.value) >= MinLen(re.atoms)
  {
    if re.wordBoundary && !AtWordBoundary(s, i) then None else Match(re.atoms, s, i)
  }

  lemma MatchAtSpec(re: Pattern, s: string, i: nat)
    requires i <= |s|
    ensures MatchAt(re, s, i).Some? ==>
      MatchesAt(re, s, i, MatchAt(re, s, i).value)
      && forall d :: MatchesAt(re, s, i, d) ==> !Preferred(d, MatchAt(re, s, i).value)
    ensures MatchAt(re, s, i).None? ==> forall d :: !MatchesAt(re, s, i, d)
  {
    MatchSpec(re.atoms, s, i);
  }

  /** A match: where it starts and how many characters each atom took. */
  datatype Found = Found(start: nat, counts: seq<nat>) {
    function End(): nat { start + Sum(counts) }
  }

  /** The leftmost match at or after `from`. */
  function Search(re: Pattern, s: string, from: nat): (r: Option<Found>)
    requires from <= |s|
    ensures r.Some? ==> from <= r.value.start <= r.value.End() <= |s|
    ensures r.Some? ==> MatchAt(re, s, r.value.start) == Some(r.value.counts)
    ensures r.Some? ==> forall k :: from <= k < r.value.start ==> MatchAt(re, s, k).None?
    ensures r.None? ==> forall k :: from <= k <= |s| ==> MatchAt(re, s, k).None?
    decreases |s| - from
  {
    match MatchAt(re, s, from)
    case Some(c) => Some(Found(from, c))
    case None => if from == |s| then None else Search(re, s, from + 1)
  }

  /** `Search` in terms of the declarative reading: the match starts at the
      leftmost position where the pattern fits at all, and among the ways it
      fits there it is the one backtracking tries first. */
  lemma SearchSpec(re: Pattern, s: string, from: nat)
    requires from <= |s|
    ensures Search(re, s, from).Some? ==>
      var f := Search(re, s, from).value;
      MatchesAt(re, s, f.start, f.counts)
      && (forall d :: MatchesAt(re, s, f.start, d) ==> !Preferred(d, f.counts))
      && (forall k, d :: from <= k < f.start ==> !MatchesAt(re, s, k, d))
    ensures Search(re, s, from).None? ==> forall k, d :: from <= k ==> !MatchesAt(re, s, k, d)
  {
    match Search(re, s, from)
    case Some(f) =>
      MatchAtSpec(re, s, f.start);
      forall k, d | from <= k < f.start ensures !MatchesAt(re, s, k, d) {
        MatchAtSpec(re, s, k);
      }
    case None =>
      forall k, d | from <= k ensures !MatchesAt(re, s, k, d) {
        if k <= |s| {
          MatchAtSpec(re, s, k);
        }
      }
  }

  /** What `Search` finds is a match. */
  lemma SearchMatches(re: Pattern, s: string, from: nat, f: Found)
    requires from <= |s| && Search(re, s, from) == Some(f)
    ensures MatchesAt(re, s, f.start, f.counts)
  {
    MatchAtSpec(re, s, f.start);
  }

  /** No match starts before the one `Search` finds. */
  lemma SearchLeftmost(re: Pattern, s: string, from: nat, f: Found, k: nat, d: seq<nat>)
    requires from <= |s| && Search(re, s, from) == Some(f)
    requires from <= k < f.start
    ensures !MatchesAt(re, s, k, d)
  {
    MatchAtSpec(re, s, k);
  }

  /** No way of matching at the found start is preferred to the one found. */
  lemma SearchGreedy(re: Pattern, s: string, from: nat, f: Found, d: seq<nat>)
    requires from <= |s| && Search(re, s, from) == Some(f)
    requires MatchesAt(re, s, f.start, d)
    ensures !Preferred(d, f.counts)
  {
    MatchAtSpec(re, s, f.start);
  }

  /** `Search` returns None exactly when the pattern occurs nowhere. */
  lemma SearchNoneIff(re: Pattern, s: string)
    ensures Search(re, s, 0).None? <==> NoMatch(re, s)
  {
    SearchSpec(re, s, 0);
  }

  /** `match[0]`: the text of a match. */
  function MatchedText(s: string, f: Found): string
    requires f.start <= f.End() <= |s|
  {
    s[f.start..f.End()]
  }

  // ----- replace with the empty string -----

  /** `s.replace(re, "")` without the `g` flag: the leftmost match is cut out. */
  function RemoveFirst(re: Pattern, s: string): (r: string)
    ensures |r| <= |s|
  {
    match Search(re, s, 0)
    case None => s
    case Some(f) => s[..f.start] + s[f.End()..]
  }

  /** `s.replace(re, "")` with the `g` flag, scanning from `from`: every
      leftmost match is cut out and scanning resumes after it. Only patterns
      whose matches are never empty are replaced globally in app.js. */
  function RemoveAll(re: Pattern, s: string, from: nat): (r: string)
    requires from <= |s| && MinLen(re.atoms) > 0
    ensures |r| <= |s| - from
    decreases |s| - from
  {
    match Search(re, s, from)
    case None => s[from..]
    case Some(f) => s[from..f.start] + RemoveAll(re, s, f.End())
  }

  /** A prefix in which no match starts is left alone by `RemoveFirst`. */
  lemma RemoveFirstKeepsPrefix(re: Pattern, s: string, h: nat)
    requires h <= |s|
    requires forall k :: 0 <= k < h ==> MatchAt(re, s, k).None?
    ensures h <= |RemoveFirst(re, s)| && RemoveFirst(re, s)[..h] == s[..h]
  {
  }

  /** A prefix in which no match starts is left alone by `RemoveAll`. */
  lemma RemoveAllKeepsPrefix(re: Pattern, s: string, h: nat)
    requires h <= |s| && MinLen(re.atoms) > 0
    requires forall k :: 0 <= k < h ==> MatchAt(re, s, k).None?
    ensures h <= |RemoveAll(re, s, 0)| && RemoveAll(re, s, 0)[..h] == s[..h]
  {
  }
}
