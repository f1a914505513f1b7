/** Label extraction of app.js: `extractTurma` (class codes),
    `extractProfessor` (teacher names) and the `extractLabel` dispatch. */
module Labels {
  import opened Wrappers
  import opened Text
  import opened Regex

  // ----- the patterns of app.js -----

  /** `[A-Z]{2,4}\s?T?\d{1,2}`: the class code. */
  const CodeAtoms: seq<Atom> :=
    [Atom(UpperAscii, 2, AtMost(4)), Atom(Space, 0, AtMost(1)), Atom(Chr('T'), 0, AtMost(1)), Atom(Digit, 1, AtMost(2))]

  /** `\s?[-–]\s?.{1,100}`: the separator and the description. */
  const DescriptionAtoms: seq<Atom> :=
    [Atom(Space, 0, AtMost(1)), Atom(Dash, 1, AtMost(1)), Atom(Space, 0, AtMost(1)), Atom(AnyButLineTerminator, 1, AtMost(100))]

  /** `/\b[A-Z]{2,4}\s?T?\d{1,2}\s?[-–]\s?.{1,100}/` */
  const TurmaPattern: Pattern := Pattern(true, CodeAtoms + DescriptionAtoms)

  /** `\s`, the word `w` in any ASCII case, then `.*`. */
  function CutAtoms(w: string): seq<Atom> {
    [Atom(Space, 1, AtMost(1))] + Word(w, true) + [Atom(AnyButLineTerminator, 0, Unbounded)]
  }

  const IntegradoAtoms: seq<Atom> := CutAtoms("Integrado")

  // `/\sIntegrado.*/i`
  const IntegradoPattern: Pattern := Pattern(false, IntegradoAtoms)

  const BracketAtoms: seq<Atom> :=
    [Atom(Chr('['), 1, AtMost(1)), Atom(NotCloseBracket, 1, Unbounded), Atom(Chr(']'), 1, AtMost(1))]

  /** `/\[[^\]]+\]/g` */
  const BracketPattern: Pattern := Pattern(false, BracketAtoms)

  /** `[a]?\s+[A-ZÀ-Ú][A-Za-zÀ-ú\s'´`^~\-]{2,90}` */
  const NameAtoms: seq<Atom> :=
    [Atom(Chr('a'), 0, AtMost(1)), Atom(Space, 1, Unbounded), Atom(CapitalInitial, 1, AtMost(1)), Atom(NameChar, 2, AtMost(90))]

  /** The word `w`, then the name. */
  function TitleAtoms(w: string): seq<Atom> {
    Word(w, false) + NameAtoms
  }

  /** `/\bProfessor[a]?\s+[A-ZÀ-Ú][A-Za-zÀ-ú\s'´`^~\-]{2,90}/` */
  const ProfessorPattern: Pattern := Pattern(true, TitleAtoms("Professor"))

  // ----- the extractors -----

  /** `extractTurma(text)`: the leftmost class-code match of the normalized
      text, cleaned up, or null. */
  function ExtractTurma(text: string): Option<string> {
    var t := Normalize(text);
    match Search(TurmaPattern, t, 0)
    case None => None
    case Some(f) => Some(CleanTurma(MatchedText(t, f)))
  }

  /** The clean-up of app.js:40-42: cut from the first `\sIntegrado`, delete
      every `[...]` annotation, normalize again. */
  function CleanTurma(raw: string): string {
    Normalize(RemoveAll(BracketPattern, RemoveFirst(IntegradoPattern, raw), 0))
  }

  /** `extractProfessor(text)`: the leftmost teacher-name match of the
      normalized text, normalized, or null. */
  function ExtractProfessor(text: string): Option<string> {
    var t := Normalize(text);
    match Search(ProfessorPattern, t, 0)
    case None => None
    case Some(f) => Some(Normalize(MatchedText(t, f)))
  }

  /** `extractLabel(text, type)`. */
  function ExtractLabel(text: string, tag: string): (r: Option<string>)
    ensures tag == "prof" ==> r == ExtractProfessor(text)
    ensures tag != "prof" ==> r == ExtractTurma(text)
  {
    if tag == "prof" then ExtractProfessor(text) else ExtractTurma(text)
  }

  // ----- what a class label looks like -----

  /** From position `o` on, `x` holds `n` upper-case ASCII letters, `sp`
      spaces, `tt` letters `T` and `d` digits, with the counts the code
      pattern allows. */
  predicate CodeHead(x: string, o: nat, n: nat, sp: nat, tt: nat, d: nat) {
    2 <= n <= 4 && sp <= 1 && tt <= 1 && 1 <= d <= 2 && o + n + sp + tt + d <= |x|
    && (forall k :: o <= k < o + n ==> IsUpperAscii(x[k]))
    && (sp == 1 ==> x[o + n] == ' ')
    && (tt == 1 ==> x[o + n + sp] == 'T')
    && (forall k :: o + n + sp + tt <= k < o + n + sp + tt + d ==> IsDigit(x[k]))
  }

  lemma CodeFits(s: string, j: nat, c: seq<nat>)
    requires Fits(CodeAtoms, s, j, c) && WsIsSpace(s)
    ensures |c| == 4 && Sum(c) == c[0] + c[1] + c[2] + c[3] && j + Sum(c) <= |s|
    ensures CodeHead(s, j, c[0], c[1], c[2], c[3])
  {
    var a0, a1, a2, a3 := CodeAtoms[0], CodeAtoms[1], CodeAtoms[2], CodeAtoms[3];
    assert CodeAtoms == [a0] + ([a1] + ([a2] + [a3]));
    FitsCons(a0, [a1] + ([a2] + [a3]), s, j, c);
    var c1 := c[1..];
    FitsCons(a1, [a2] + [a3], s, j + c[0], c1);
    var c2 := c1[1..];
    FitsCons(a2, [a3], s, j + c[0] + c1[0], c2);
    var c3 := c2[1..];
    FitsCons(a3, [], s, j + c[0] + c1[0] + c2[0], c3);
    assert c3[1..] == [];
    assert c == [c[0], c1[0], c2[0], c3[0]];
  }

  lemma DescriptionFits(s: string, j: nat, c: seq<nat>)
    requires Fits(DescriptionAtoms, s, j, c)
    ensures Sum(c) <= 103
  {
    var a0, a1, a2, a3 := DescriptionAtoms[0], DescriptionAtoms[1], DescriptionAtoms[2], DescriptionAtoms[3];
    assert DescriptionAtoms == [a0] + ([a1] + ([a2] + [a3]));
    FitsCons(a0, [a1] + ([a2] + [a3]), s, j, c);
    var c1 := c[1..];
    FitsCons(a1, [a2] + [a3], s, j + c[0], c1);
    var c2 := c1[1..];
    FitsCons(a2, [a3], s, j + c[0] + c1[0], c2);
    var c3 := c2[1..];
    FitsCons(a3, [], s, j + c[0] + c1[0] + c2[0], c3);
    assert c3[1..] == [];
  }

  // ----- the `\sIntegrado.*` cut -----

  /** Whitespace at `k`, then the word `w` in any ASCII case. */
  predicate CutAt(s: string, k: nat, w: string) {
    k < |s| && IsWs(s[k]) && WordAt(s, k + 1, w, true)
  }

  /** Whitespace followed by "Integrado" in any ASCII case starts at `k`. */
  predicate IntegradoAt(s: string, k: nat) {
    CutAt(s, k, "Integrado")
  }

  /** The counts of a cut match: the whitespace, the word, and `x` more. */
  function CutCount(w: string, x: nat): seq<nat> {
    [1] + Ones(|w|) + [x]
  }

  lemma CutFits(w: string, s: string, k: nat, d: seq<nat>)
    requires Fits(CutAtoms(w), s, k, d)
    ensures CutAt(s, k, w)
    ensures |d| == |w| + 2 && d == CutCount(w, d[|w| + 1]) && Sum(d) == |w| + 1 + d[|w| + 1]
  {
    var sp := Atom(Space, 1, AtMost(1));
    var wd := Word(w, true);
    var dot := [Atom(AnyButLineTerminator, 0, Unbounded)];
    FitsSplit([sp] + wd, dot, s, k, d);
    var n := |w| + 1;
    var d1 := d[..n];
    FitsCons(sp, wd, s, k, d1);
    WordFits(w, true, s, k + 1, d1[1..]);
    FitsCons(dot[0], [], s, k + Sum(d1), d[n..]);
    assert d1 == [1] + Ones(|w|);
    assert d == d1 + d[n..];
    SumAppend(d1, d[n..]);
    assert d[n..] == [d[n]];
  }

  lemma CutCounts(w: string, s: string, k: nat, x: nat)
    requires CutAt(s, k, w) && k + 1 + |w| + x <= |s|
    requires forall m :: k + 1 + |w| <= m < k + 1 + |w| + x ==> !IsLineTerminator(s[m])
    ensures Fits(CutAtoms(w), s, k, CutCount(w, x))
  {
    var sp := Atom(Space, 1, AtMost(1));
    var wd := Word(w, true);
    var dot := [Atom(AnyButLineTerminator, 0, Unbounded)];
    assert Fits([sp], s, k, [1]);
    WordFits(w, true, s, k + 1, Ones(|w|));
    FitsJoin([sp], wd, s, k, [1], Ones(|w|));
    SumAppend([1], Ones(|w|));
    assert Fits(dot, s, k + 1 + |w|, [x]);
    FitsJoin([sp] + wd, dot, s, k, [1] + Ones(|w|), [x]);
  }

  // The pattern `\s<w>.*` with the `i` flag, replaced by "" on a line
  // without line terminators.
  lemma WordCut(w: string, s: string)
    requires forall k :: 0 <= k < |s| ==> !IsLineTerminator(s[k])
    ensures var r := RemoveFirst(Pattern(false, CutAtoms(w)), s);
      r == s[..|r|]
      && (forall k :: !CutAt(r, k, w))
      && (|r| < |s| ==> CutAt(s, |r|, w))
  {
    var re := Pattern(false, CutAtoms(w));
    match Search(re, s, 0)
    case None =>
      CutAbsent(w, s);
    case Some(f) =>
      CutLeftmost(w, s, f);
      CutToEnd(w, s, f);
      var r := s[..f.start];
      assert RemoveFirst(re, s) == r;
      forall k | CutAt(r, k, w) ensures CutAt(s, k, w) {
      }
  }

  /** The leftmost cut match starts at the leftmost whitespace-then-word. */
  lemma CutLeftmost(w: string, s: string, f: Found)
    requires Search(Pattern(false, CutAtoms(w)), s, 0) == Some(f)
    ensures CutAt(s, f.start, w) && forall k :: 0 <= k < f.start ==> !CutAt(s, k, w)
  {
    var re := Pattern(false, CutAtoms(w));
    forall k | 0 <= k < f.start ensures !CutAt(s, k, w) {
      CutMatches(w, s, k);
      SearchLeftmost(re, s, 0, f, k, CutCount(w, 0));
    }
    SearchMatches(re, s, 0, f);
    CutFits(w, s, f.start, f.counts);
  }

  lemma CutMatches(w: string, s: string, k: nat)
    ensures CutAt(s, k, w) ==> MatchesAt(Pattern(false, CutAtoms(w)), s, k, CutCount(w, 0))
  {
    if CutAt(s, k, w) {
      CutCounts(w, s, k, 0);
    }
  }

  /** Without a cut match there is no whitespace-then-word. */
  lemma CutAbsent(w: string, s: string)
    requires Search(Pattern(false, CutAtoms(w)), s, 0).None?
    ensures forall k :: !CutAt(s, k, w)
  {
    var re := Pattern(false, CutAtoms(w));
    forall k | CutAt(s, k, w) ensures MatchesAt(re, s, k, CutCount(w, 0)) {
      CutCounts(w, s, k, 0);
    }
    SearchSpec(re, s, 0);
  }

  /** On a line, `.*` takes everything up to the end. */
  lemma CutToEnd(w: string, s: string, f: Found)
    requires forall k :: 0 <= k < |s| ==> !IsLineTerminator(s[k])
    requires Search(Pattern(false, CutAtoms(w)), s, 0) == Some(f)
    ensures f.End() == |s|
  {
    var re := Pattern(false, CutAtoms(w));
    SearchMatches(re, s, 0, f);
    var c := f.counts;
    CutFits(w, s, f.start, c);
    var x := c[|w| + 1];
    if f.start + 1 + |w| + x < |s| {
      CutLonger(w, s, f.start, x);
      SearchGreedy(re, s, 0, f, CutCount(w, x + 1));
      assert false;
    }
  }

  /** One more character for `.*` gives a preferred way of matching. */
  lemma CutLonger(w: string, s: string, k: nat, x: nat)
    requires forall m :: 0 <= m < |s| ==> !IsLineTerminator(s[m])
    requires CutAt(s, k, w) && k + 1 + |w| + x < |s|
    ensures MatchesAt(Pattern(false, CutAtoms(w)), s, k, CutCount(w, x + 1))
    ensures Preferred(CutCount(w, x + 1), CutCount(w, x))
  {
    CutCounts(w, s, k, x + 1);
    PreferredLast([1] + Ones(|w|), x + 1, x);
  }

  // Replacing `\sIntegrado.*` (flag `i`) by "" in a line without line
  // terminators keeps exactly the text before the first whitespace that is
  // followed by "Integrado" in any ASCII case.
  lemma IntegradoCut(s: string)
    requires forall k :: 0 <= k < |s| ==> !IsLineTerminator(s[k])
    ensures var r := RemoveFirst(IntegradoPattern, s);
      r == s[..|r|]
      && (forall k :: !IntegradoAt(r, k))
      && (|r| < |s| ==> IntegradoAt(s, |r|))
  {
    WordCut("Integrado", s);
  }

  // ----- the `[...]` deletion -----

  /** `[`, one or more characters other than `]`, and `]`, from `i` to `j`. */
  predicate Annotation(s: string, i: nat, j: nat) {
    i + 1 < j < |s| && s[i] == '[' && s[j] == ']' && forall k :: i < k < j ==> s[k] != ']'
  }

  ghost predicate NoAnnotation(s: string) {
    forall i, j :: !Annotation(s, i, j)
  }

  /** No annotation of `s` starts in `[from, until)`. */
  ghost predicate NoAnnotationIn(s: string, from: nat, until: nat) {
    forall i, j :: from <= i < until ==> !Annotation(s, i, j)
  }

  lemma BracketFits(s: string, k: nat, d: seq<nat>)
    requires Fits(BracketAtoms, s, k, d)
    ensures k + Sum(d) <= |s| && Sum(d) >= 3 && Annotation(s, k, k + Sum(d) - 1)
  {
    var a0, a1, a2 := BracketAtoms[0], BracketAtoms[1], BracketAtoms[2];
    assert BracketAtoms == [a0] + ([a1] + [a2]);
    FitsCons(a0, [a1] + [a2], s, k, d);
    var d1 := d[1..];
    FitsCons(a1, [a2], s, k + 1, d1);
    var d2 := d1[1..];
    FitsCons(a2, [], s, k + 1 + d1[0], d2);
    assert d2[1..] == [];
  }

  lemma AnnotationFits(s: string, i: nat, j: nat)
    requires Annotation(s, i, j)
    ensures Fits(BracketAtoms, s, i, [1, j - i - 1, 1])
  {
    var a0, a1, a2 := BracketAtoms[0], BracketAtoms[1], BracketAtoms[2];
    assert BracketAtoms == [a0] + ([a1] + [a2]);
    assert Fits([a2], s, j, [1]);
    assert Fits([a1] + [a2], s, i + 1, [j - i - 1, 1]);
  }

  /** An annotation in `s[from..st] + rest`, where `s` has one from `st` to
      `m`, lies in `rest` or begins in `s[from..st]` and ends at `m` or
      sooner. */
  lemma AnnotationAcross(s: string, from: nat, st: nat, m: nat, rest: string, a: nat, b: nat)
    requires from <= st <= |s| && Annotation(s, st, m)
    ensures var n := st - from;
      Annotation(s[from..st] + rest, a, b) ==>
        (a >= n && b >= n && Annotation(rest, a - n, b - n))
        || (a < n && Annotation(s, from + a, if b < n then from + b else m))
  {
    var seg := s[from..st];
    var r := seg + rest;
    if !Annotation(r, a, b) {
      return;
    }
    assert forall x :: 0 <= x < |seg| ==> r[x] == s[from + x];
    assert forall x :: |seg| <= x < |r| ==> r[x] == rest[x - |seg|];
    if a >= |seg| {
      forall k | a - |seg| < k < b - |seg| ensures rest[k] != ']' {
        assert rest[k] == r[k + |seg|];
      }
      assert Annotation(rest, a - |seg|, b - |seg|);
    } else if b < |seg| {
      forall k | from + a < k < from + b ensures s[k] != ']' {
        assert s[k] == r[k - from];
      }
      assert Annotation(s, from + a, from + b);
    } else {
      forall k | from + a < k < m ensures s[k] != ']' {
        if k < st {
          assert s[k] == r[k - from];
        }
      }
      assert Annotation(s, from + a, m);
    }
  }

  /** Where no bracket match starts, no annotation starts. */
  lemma NoAnnotationWhereNoMatch(s: string, from: nat, until: nat)
    requires forall k, d :: from <= k < until ==> !MatchesAt(BracketPattern, s, k, d)
    ensures NoAnnotationIn(s, from, until)
  {
    forall i, j | Annotation(s, i, j) ensures MatchesAt(BracketPattern, s, i, [1, j - i - 1, 1]) {
      AnnotationFits(s, i, j);
    }
  }

  /** Text in front of a leftmost annotation, joined to a tail without
      annotations, has none either. */
  lemma NoAnnotationJoined(s: string, from: nat, st: nat, m: nat, rest: string)
    requires from <= st <= |s| && Annotation(s, st, m)
    requires NoAnnotationIn(s, from, st)
    requires NoAnnotation(rest)
    ensures NoAnnotation(s[from..st] + rest)
  {
    forall a: nat, b: nat ensures !Annotation(s[from..st] + rest, a, b) {
      AnnotationAcross(s, from, st, m, rest, a, b);
    }
  }

  /** After `label.replace(/\[[^\]]+\]/g, "")` no bracket annotation is
      left, not even one that the deletions brought together. */
  lemma {:induction false} BracketsRemoved(s: string, from: nat)
    requires from <= |s|
    ensures NoAnnotation(RemoveAll(BracketPattern, s, from))
    decreases |s| - from
  {
    var r := RemoveAll(BracketPattern, s, from);
    match Search(BracketPattern, s, from)
    case None =>
      assert r == s[from..];
      forall a: nat, b: nat | Annotation(r, a, b) ensures Annotation(s, from + a, from + b) {
      }
      BracketSearch(s, from);
    case Some(f) =>
      BracketSearch(s, from);
      var rest := RemoveAll(BracketPattern, s, f.End());
      BracketsRemoved(s, f.End());
      NoAnnotationJoined(s, from, f.start, f.End() - 1, rest);
      assert r == s[from..f.start] + rest;
  }

  /** What the leftmost bracket match from `from` says about annotations. */
  lemma BracketSearch(s: string, from: nat)
    requires from <= |s|
    ensures match Search(BracketPattern, s, from)
      case None => NoAnnotationIn(s, from, |s| + 1)
      case Some(f) =>
        f.start + 2 < f.End() && Annotation(s, f.start, f.End() - 1) && NoAnnotationIn(s, from, f.start)
  {
    SearchSpec(BracketPattern, s, from);
    match Search(BracketPattern, s, from)
    case None =>
      NoAnnotationWhereNoMatch(s, from, |s| + 1);
    case Some(f) =>
      BracketFits(s, f.start, f.counts);
      NoAnnotationWhereNoMatch(s, from, f.start);
  }

  /** Position `k` of `s` lies inside some annotation, brackets included. */
  ghost predicate Covered(s: string, k: nat) {
    exists i: nat, j: nat :: Annotation(s, i, j) && i <= k <= j
  }

  /** The characters of `s[from..]` that lie inside no annotation, in order. */
  ghost function Outside(s: string, from: nat): string
    requires from <= |s|
    decreases |s| - from
  {
    if from == |s| then []
    else (if Covered(s, from) then [] else [s[from]]) + Outside(s, from + 1)
  }

  /** No annotation that starts before `from` reaches `from`. */
  ghost predicate Clear(s: string, from: nat) {
    forall i: nat, j: nat :: Annotation(s, i, j) && i < from ==> j < from
  }

  /** A run of uncovered positions is kept whole. */
  lemma {:induction false} OutsideKeeps(s: string, from: nat, st: nat)
    requires from <= st <= |s|
    requires forall k :: from <= k < st ==> !Covered(s, k)
    ensures Outside(s, from) == s[from..st] + Outside(s, st)
    decreases st - from
  {
    if from < st {
      var tail := Outside(s, from + 1);
      assert !Covered(s, from);
      assert Outside(s, from) == [s[from]] + tail;
      OutsideKeeps(s, from + 1, st);
      assert s[from..st] == [s[from]] + s[from + 1..st];
      assert [s[from]] + (s[from + 1..st] + Outside(s, st)) == s[from..st] + Outside(s, st);
    }
  }

  /** Before the leftmost annotation from a clear position nothing is
      covered. */
  lemma UncoveredRun(s: string, from: nat, st: nat)
    requires Clear(s, from) && NoAnnotationIn(s, from, st)
    ensures forall k :: from <= k < st ==> !Covered(s, k)
  {
  }

  /** Two annotations that overlap share their closing `]`, so after the
      leftmost annotation from a clear position the scan is clear again. */
  lemma ClearAfter(s: string, from: nat, st: nat, m: nat)
    requires Clear(s, from) && from <= st && Annotation(s, st, m) && NoAnnotationIn(s, from, st)
    ensures Clear(s, m + 1)
  {
    forall i: nat, j: nat | Annotation(s, i, j) && i < m + 1 ensures j < m + 1 {
      assert s[m] == ']' && s[i] == '[';
    }
  }

  /** The text in front of the leftmost annotation from a clear position is
      kept. */
  lemma OutsideFront(s: string, from: nat, st: nat)
    requires from <= st <= |s| && Clear(s, from) && NoAnnotationIn(s, from, st)
    ensures Outside(s, from) == s[from..st] + Outside(s, st)
  {
    UncoveredRun(s, from, st);
    OutsideKeeps(s, from, st);
  }

  /** The positions of an annotation from `k` on are dropped. */
  lemma {:induction false} OutsideAnnotation(s: string, st: nat, k: nat, m: nat)
    requires Annotation(s, st, m) && st <= k <= m + 1
    ensures Outside(s, k) == Outside(s, m + 1)
    decreases m + 1 - k
  {
    if k <= m {
      assert Covered(s, k) by {
        assert Annotation(s, st, m) && st <= k <= m;
      }
      OutsideAnnotation(s, st, k + 1, m);
    }
  }

  /** One step of the scan: the leftmost annotation from a clear position
      is dropped, the text in front of it kept, and the scan is clear after
      it. */
  lemma OutsideStep(s: string, from: nat, st: nat, m: nat)
    requires from <= st && Clear(s, from) && Annotation(s, st, m) && NoAnnotationIn(s, from, st)
    ensures Outside(s, from) == s[from..st] + Outside(s, m + 1) && Clear(s, m + 1)
  {
    OutsideFront(s, from, st);
    OutsideAnnotation(s, st, st, m);
    ClearAfter(s, from, st, m);
  }

  /** `replace(/\[[^\]]+\]/g, "")` scanning from a clear position keeps
      exactly the characters outside the annotations, in order. */
  lemma {:induction false} BracketsKeptFrom(s: string, from: nat)
    requires from <= |s| && Clear(s, from)
    ensures RemoveAll(BracketPattern, s, from) == Outside(s, from)
    decreases |s| - from
  {
    BracketSearch(s, from);
    match Search(BracketPattern, s, from)
    case None =>
      UncoveredRun(s, from, |s|);
      OutsideKeeps(s, from, |s|);
    case Some(f) =>
      OutsideStep(s, from, f.start, f.End() - 1);
      BracketsKeptFrom(s, f.End());
  }

  /** `label.replace(/\[[^\]]+\]/g, "")` keeps exactly the characters that
      lie inside no annotation, in order. */
  lemma BracketsKept(s: string)
    ensures RemoveAll(BracketPattern, s, 0) == Outside(s, 0)
  {
    BracketsKeptFrom(s, 0);
  }

  // ----- what extractTurma returns -----

  /** `extractTurma` returns null exactly when the normalized text holds no
      class-code match. */
  lemma TurmaNoneIff(text: string)
    ensures ExtractTurma(text).None? <==> NoMatch(TurmaPattern, Normalize(text))
  {
    SearchNoneIff(TurmaPattern, Normalize(text));
  }

  /** A normalized string has no line terminator: its only whitespace is
      the plain space. */
  lemma NormalizedHasNoLineTerminator(t: string)
    requires WsIsSpace(t)
    ensures forall k :: 0 <= k < |t| ==> !IsLineTerminator(t[k])
  {
  }

  /** The raw match `match[0]` of a class label: it begins with the code
      and spans at most 111 characters. */
  lemma TurmaMatchShape(t: string, f: Found)
    requires WsIsSpace(t) && f.End() <= |t| && MatchesAt(TurmaPattern, t, f.start, f.counts)
    ensures |f.counts| == 8
    ensures var c := f.counts; var h := c[0] + c[1] + c[2] + c[3];
      CodeHead(t, f.start, c[0], c[1], c[2], c[3]) && h <= Sum(c) <= 111
  {
    var c := f.counts;
    var i := f.start;
    FitsSplit(CodeAtoms, DescriptionAtoms, t, i, c);
    CodeFits(t, i, c[..4]);
    DescriptionFits(t, i + Sum(c[..4]), c[4..]);
    FitsWithin(DescriptionAtoms, t, i + Sum(c[..4]), c[4..]);
    assert c == c[..4] + c[4..];
    SumAppend(c[..4], c[4..]);
  }

  /** The code at `i` of single-spaced text is, in a slice from `i`, at the
      front and normalized on its own. */
  lemma CodeInSlice(t: string, i: nat, e: nat, n: nat, sp: nat, tt: nat, d: nat)
    requires NoAdjacentWs(t) && WsIsSpace(t) && CodeHead(t, i, n, sp, tt, d)
    requires i + n + sp + tt + d <= e <= |t|
    ensures CodeHead(t[i..e], 0, n, sp, tt, d) && IsNormalized(t[i..e][..n + sp + tt + d])
  {
    var h := n + sp + tt + d;
    assert forall k :: 0 <= k < e - i ==> t[i..e][k] == t[i + k];
    assert t[i..e][..h] == t[i..i + h];
    SpacedSlice(t, i, i + h);
    WordCharNotWs(t[i]);
    WordCharNotWs(t[i + h - 1]);
  }

  /** No cut match starts where no whitespace-then-word starts. */
  lemma NoCutMatch(w: string, s: string, h: nat)
    requires h <= |s| && forall k :: 0 <= k < h ==> !CutAt(s, k, w)
    ensures forall k :: 0 <= k < h ==> MatchAt(Pattern(false, CutAtoms(w)), s, k).None?
  {
    forall k | 0 <= k < h ensures MatchAt(Pattern(false, CutAtoms(w)), s, k).None? {
      MatchAtSpec(Pattern(false, CutAtoms(w)), s, k);
      forall d | Fits(CutAtoms(w), s, k, d) ensures CutAt(s, k, w) {
        CutFits(w, s, k, d);
      }
    }
  }

  /** No bracket match starts where no `[` is. */
  lemma NoBracketMatch(s: string, h: nat)
    requires h <= |s| && forall k :: 0 <= k < h ==> s[k] != '['
    ensures forall k :: 0 <= k < h ==> MatchAt(BracketPattern, s, k).None?
  {
    forall k | 0 <= k < h ensures MatchAt(BracketPattern, s, k).None? {
      MatchAtSpec(BracketPattern, s, k);
      forall d | Fits(BracketAtoms, s, k, d) ensures s[k] == '[' {
        BracketFits(s, k, d);
      }
    }
  }

  /** A code has no `[` and no whitespace followed by an `I`. */
  lemma CodeHasNoCut(raw: string, n: nat, sp: nat, tt: nat, d: nat)
    requires CodeHead(raw, 0, n, sp, tt, d)
    ensures forall k :: 0 <= k < n + sp + tt + d ==> raw[k] != '[' && !IntegradoAt(raw, k)
  {
    var h := n + sp + tt + d;
    forall k | 0 <= k < h ensures raw[k] != '[' && !IntegradoAt(raw, k) {
      if k == n && sp == 1 {
        assert k + 1 < h && FoldCase(raw[k + 1]) == raw[k + 1];
        assert !CharMatches(true, raw[k + 1], "Integrado"[0]);
      } else {
        assert !IsWs(raw[k]);
      }
    }
  }

  /** The clean-up never touches the code at the front of the match. */
  lemma CleanKeepsCode(raw: string, n: nat, sp: nat, tt: nat, d: nat)
    requires CodeHead(raw, 0, n, sp, tt, d) && IsNormalized(raw[..n + sp + tt + d])
    ensures var h := n + sp + tt + d;
      h <= |CleanTurma(raw)| && CleanTurma(raw)[..h] == raw[..h]
  {
    var h := n + sp + tt + d;
    var cut := RemoveFirst(IntegradoPattern, raw);
    assert h <= |cut| && cut[..h] == raw[..h] by {
      CodeHasNoCut(raw, n, sp, tt, d);
      IntegradoKeepsFront(raw, h);
    }
    var b := RemoveAll(BracketPattern, cut, 0);
    assert h <= |b| && b[..h] == raw[..h] by {
      CodeHasNoCut(raw, n, sp, tt, d);
      SameFront(cut, raw, h);
      BracketsKeepFront(cut, h);
    }
    NormalizeKeepsHead(b, h);
  }

  lemma SameFront(x: string, y: string, h: nat)
    requires h <= |x| && h <= |y| && x[..h] == y[..h]
    ensures forall k :: 0 <= k < h ==> x[k] == y[k]
  {
    assert forall k :: 0 <= k < h ==> x[k] == x[..h][k] && y[k] == y[..h][k];
  }

  lemma IntegradoKeepsFront(s: string, h: nat)
    requires h <= |s| && forall k :: 0 <= k < h ==> !IntegradoAt(s, k)
    ensures h <= |RemoveFirst(IntegradoPattern, s)| && RemoveFirst(IntegradoPattern, s)[..h] == s[..h]
  {
    forall k | 0 <= k < h ensures !CutAt(s, k, "Integrado") {
      assert !IntegradoAt(s, k);
    }
    NoCutMatch("Integrado", s, h);
    RemoveFirstKeepsPrefix(IntegradoPattern, s, h);
  }

  lemma BracketsKeepFront(s: string, h: nat)
    requires h <= |s| && forall k :: 0 <= k < h ==> s[k] != '['
    ensures h <= |RemoveAll(BracketPattern, s, 0)| && RemoveAll(BracketPattern, s, 0)[..h] == s[..h]
  {
    NoBracketMatch(s, h);
    RemoveAllKeepsPrefix(BracketPattern, s, h);
  }

  /** The first `h` characters of `r` are those of `t` from `i` on. */
  predicate Copied(r: string, t: string, i: nat, h: nat) {
    h <= |r| && i + h <= |t| && r[..h] == t[i..i + h]
  }

  /** `r` starts with the code of the counts `c`, copied from `t` at `i`. */
  predicate KeepsCode(r: string, t: string, i: nat, c: seq<nat>) {
    |c| >= 4 && CodeHead(r, 0, c[0], c[1], c[2], c[3]) && Copied(r, t, i, c[0] + c[1] + c[2] + c[3])
  }

  /** A class label starts with the code that matched, character for
      character: 2-4 capitals, an optional space, an optional `T` and 1-2
      digits. */
  lemma TurmaKeepsCode(text: string, f: Found)
    requires Search(TurmaPattern, Normalize(text), 0) == Some(f)
    ensures var t := Normalize(text);
      var c := f.counts;
      var r := CleanTurma(MatchedText(t, f));
      ExtractTurma(text) == Some(r) && |c| == 8 && KeepsCode(r, t, f.start, c)
  {
    var t := Normalize(text);
    SearchMatches(TurmaPattern, t, 0, f);
    TurmaMatchKeepsCode(t, f);
  }

  lemma TurmaMatchKeepsCode(t: string, f: Found)
    requires IsNormalized(t) && f.End() <= |t| && MatchesAt(TurmaPattern, t, f.start, f.counts)
    ensures |f.counts| == 8 && KeepsCode(CleanTurma(MatchedText(t, f)), t, f.start, f.counts)
  {
    TurmaMatchShape(t, f);
    CleanedMatchKeepsCode(t, f.start, f.End(), f.counts);
    assert MatchedText(t, f) == t[f.start..f.End()];
  }

  /** The clean-up of a match `t[i..e]` keeps the code at its front. */
  lemma CleanedMatchKeepsCode(t: string, i: nat, e: nat, c: seq<nat>)
    requires IsNormalized(t) && |c| >= 4 && CodeHead(t, i, c[0], c[1], c[2], c[3])
    requires i + c[0] + c[1] + c[2] + c[3] <= e <= |t|
    ensures KeepsCode(CleanTurma(t[i..e]), t, i, c)
  {
    CodeInSlice(t, i, e, c[0], c[1], c[2], c[3]);
    CleanedSliceKeepsCode(t[i..e], t, i, e, c);
  }

  lemma CleanedSliceKeepsCode(raw: string, t: string, i: nat, e: nat, c: seq<nat>)
    requires i <= e <= |t| && raw == t[i..e] && |c| >= 4
    requires CodeHead(raw, 0, c[0], c[1], c[2], c[3]) && IsNormalized(raw[..c[0] + c[1] + c[2] + c[3]])
    ensures KeepsCode(CleanTurma(raw), t, i, c)
  {
    CleanKeepsCode(raw, c[0], c[1], c[2], c[3]);
    FrontKeepsCode(t, i, e, c, CleanTurma(raw));
  }

  /** A string that starts like the match `t[i..e]` keeps its code. */
  lemma FrontKeepsCode(t: string, i: nat, e: nat, c: seq<nat>, r: string)
    requires |c| >= 4 && i <= e <= |t| && CodeHead(t[i..e], 0, c[0], c[1], c[2], c[3])
    requires var h := c[0] + c[1] + c[2] + c[3]; h <= |r| && h <= e - i && r[..h] == t[i..e][..h]
    ensures KeepsCode(r, t, i, c)
  {
    var n, sp, tt, d := c[0], c[1], c[2], c[3];
    var h := n + sp + tt + d;
    CodeHeadPrefix(t[i..e], r, n, sp, tt, d);
    SliceOfSlice(t, i, e, h);
  }

  /** A code at the front survives into any string with the same front. */
  lemma CodeHeadPrefix(x: string, y: string, n: nat, sp: nat, tt: nat, d: nat)
    requires CodeHead(x, 0, n, sp, tt, d)
    requires n + sp + tt + d <= |y| && y[..n + sp + tt + d] == x[..n + sp + tt + d]
    ensures CodeHead(y, 0, n, sp, tt, d)
  {
    var h := n + sp + tt + d;
    assert forall k :: 0 <= k < h ==> y[k] == y[..h][k] == x[..h][k] == x[k];
  }

  /** The clean-up in full: the text is cut before the first whitespace
      followed by "Integrado" (any ASCII case), the bracket step keeps
      exactly the characters outside annotations and leaves no annotation,
      and that is normalized. */
  lemma CleanTurmaSpec(raw: string)
    requires WsIsSpace(raw)
    ensures var cut := RemoveFirst(IntegradoPattern, raw);
      var b := RemoveAll(BracketPattern, cut, 0);
      cut == raw[..|cut|]
      && (forall k :: !IntegradoAt(cut, k))
      && (|cut| < |raw| ==> IntegradoAt(raw, |cut|))
      && NoAnnotation(b)
      && b == Outside(cut, 0)
      && CleanTurma(raw) == Normalize(b)
  {
    NormalizedHasNoLineTerminator(raw);
    IntegradoCut(raw);
    BracketsRemoved(RemoveFirst(IntegradoPattern, raw), 0);
    BracketsKept(RemoveFirst(IntegradoPattern, raw));
  }

  /** Every class label is normalized, starts with a class code and has at
      most 111 characters. */
  lemma TurmaShape(text: string, r: string)
    requires ExtractTurma(text) == Some(r)
    ensures Normalize(r) == r && 3 <= |r| <= 111
    ensures exists n, sp, tt, d :: CodeHead(r, 0, n, sp, tt, d)
  {
    var t := Normalize(text);
    var f := Search(TurmaPattern, t, 0).value;
    assert Search(TurmaPattern, t, 0) == Some(f) && r == CleanTurma(MatchedText(t, f));
    TurmaFoundShape(t, f);
  }

  /** The clean-up of the leftmost class-code match of normalized text. */
  lemma TurmaFoundShape(t: string, f: Found)
    requires IsNormalized(t) && Search(TurmaPattern, t, 0) == Some(f)
    ensures var r := CleanTurma(MatchedText(t, f)); var c := f.counts;
      |c| == 8 && Normalize(r) == r && 3 <= |r| <= 111 && CodeHead(r, 0, c[0], c[1], c[2], c[3])
  {
    var c := f.counts;
    var raw := MatchedText(t, f);
    var r := CleanTurma(raw);
    TurmaFoundCode(t, f);
    TurmaFoundLength(t, f);
    var b := RemoveAll(BracketPattern, RemoveFirst(IntegradoPattern, raw), 0);
    assert Normalize(r) == r && |r| <= |raw| by {
      NormalizeIdempotent(b);
    }
  }

  lemma TurmaFoundCode(t: string, f: Found)
    requires IsNormalized(t) && Search(TurmaPattern, t, 0) == Some(f)
    ensures |f.counts| == 8 && KeepsCode(CleanTurma(MatchedText(t, f)), t, f.start, f.counts)
  {
    SearchMatches(TurmaPattern, t, 0, f);
    TurmaMatchKeepsCode(t, f);
  }

  lemma TurmaFoundLength(t: string, f: Found)
    requires IsNormalized(t) && Search(TurmaPattern, t, 0) == Some(f)
    ensures |MatchedText(t, f)| <= 111
  {
    SearchMatches(TurmaPattern, t, 0, f);
    TurmaMatchShape(t, f);
  }

  // ----- what extractProfessor returns -----

  /** `extractProfessor` returns null exactly when the normalized text holds
      no teacher-name match. */
  lemma ProfessorNoneIff(text: string)
    ensures ExtractProfessor(text).None? <==> NoMatch(ProfessorPattern, Normalize(text))
  {
    SearchNoneIff(ProfessorPattern, Normalize(text));
  }

  /** From offset `j` up to `e`, `s` spells the title `w`, then an `a`
      when `q` is one past it, a single space at `j + q`, a capital initial
      and at least one more name character, and nothing but name characters
      after that. */
  predicate TitleAt(s: string, j: nat, e: nat, w: string, q: nat) {
    j + q + 3 <= e <= |s| && (q == |w| || (q == |w| + 1 && s[j + |w|] == 'a'))
    && WordAt(s, j, w, false)
    && s[j + q] == ' ' && InClass(CapitalInitial, s[j + q + 1])
    && forall k :: j + q + 2 <= k < e ==> InClass(NameChar, s[k])
  }

  /** "Professor" or "Professora", a space and a capitalised name. */
  predicate ProfessorTitle(r: string) {
    TitleAt(r, 0, |r|, "Professor", 9) || TitleAt(r, 0, |r|, "Professor", 10)
  }

  /** The name part `[a]?\s+[A-ZÀ-Ú][...]{2,90}` in single-spaced text: the
      whitespace run is a single space. */
  lemma NameFits(s: string, j: nat, c: seq<nat>)
    requires Fits(NameAtoms, s, j, c) && NoAdjacentWs(s) && WsIsSpace(s)
    ensures |c| == 4 && c[0] <= 1 && c[1] == 1 && 2 <= c[3] <= 90
    ensures Sum(c) == c[0] + 2 + c[3] && j + Sum(c) <= |s|
    ensures (c[0] == 1 ==> s[j] == 'a') && s[j + c[0]] == ' ' && InClass(CapitalInitial, s[j + c[0] + 1])
    ensures forall k :: j + c[0] + 2 <= k < j + Sum(c) ==> InClass(NameChar, s[k])
  {
    var a0, a1, a2, a3 := NameAtoms[0], NameAtoms[1], NameAtoms[2], NameAtoms[3];
    assert NameAtoms == [a0] + ([a1] + ([a2] + [a3]));
    FitsCons(a0, [a1] + ([a2] + [a3]), s, j, c);
    var c1 := c[1..];
    var j1 := j + c[0];
    FitsCons(a1, [a2] + [a3], s, j1, c1);
    assert IsWs(s[j1]);
    assert j1 + 1 < |s| ==> !IsWs(s[j1 + 1]);
    var c2 := c1[1..];
    FitsCons(a2, [a3], s, j1 + c1[0], c2);
    var c3 := c2[1..];
    FitsCons(a3, [], s, j1 + c1[0] + c2[0], c3);
    assert c3[1..] == [];
    assert c == [c[0], c1[0], c2[0], c3[0]];
  }

  /** A match of the title `w` and a name in single-spaced text. */
  lemma TitleFits(w: string, s: string, j: nat, c: seq<nat>)
    requires Fits(TitleAtoms(w), s, j, c) && NoAdjacentWs(s) && WsIsSpace(s)
    ensures |c| == |w| + 4 && |w| + c[|w|] + 4 <= Sum(c) <= |w| + 93
    ensures TitleAt(s, j, j + Sum(c), w, |w| + c[|w|])
  {
    FitsSplit(Word(w, false), NameAtoms, s, j, c);
    var cw := c[..|w|];
    var cn := c[|w|..];
    WordFits(w, false, s, j, cw);
    NameFits(s, j + |w|, cn);
    assert c == cw + cn;
    SumAppend(cw, cn);
  }

  /** The title shape moves with the slice that holds it. */
  lemma TitleSlice(s: string, j: nat, e: nat, w: string, q: nat)
    requires TitleAt(s, j, e, w, q)
    ensures TitleAt(s[j..e], 0, e - j, w, q)
  {
    assert forall k :: 0 <= k < e - j ==> s[j..e][k] == s[j + k];
  }

  /** A whole-match text that begins with a non-space title loses at most
      its trailing space to `normalize`, and keeps its title shape. */
  lemma TitleNormalized(raw: string, w: string, q: nat)
    requires TitleAt(raw, 0, |raw|, w, q) && q + 4 <= |raw| && NoAdjacentWs(raw) && WsIsSpace(raw)
    requires |w| > 0 && !IsWs(w[0])
    ensures var r := Normalize(raw); TitleAt(r, 0, |r|, w, q) && |r| <= |raw|
  {
    NormalizeSpaced(raw);
    var r := TrimEnd(raw);
    assert !(IsWs(raw[|raw| - 2]) && IsWs(raw[|raw| - 1]));
    assert |r| + 1 >= |raw|;
    assert forall k :: 0 <= k < |r| ==> r[k] == raw[k];
  }

  /** The normalized text of a teacher-name match. */
  lemma ProfessorMatchShape(t: string, f: Found)
    requires NoAdjacentWs(t) && WsIsSpace(t) && f.End() <= |t|
    requires MatchesAt(ProfessorPattern, t, f.start, f.counts)
    ensures var r := Normalize(MatchedText(t, f)); |r| <= 102 && ProfessorTitle(r)
  {
    TitleMatchShape("Professor", t, f);
    var r := Normalize(MatchedText(t, f));
    var q := 9 + f.counts[9];
    assert TitleAt(r, 0, |r|, "Professor", q);
    assert q == 9 || q == 10;
  }

  /** The normalized text of a match of the title `w` and a name. */
  lemma TitleMatchShape(w: string, t: string, f: Found)
    requires NoAdjacentWs(t) && WsIsSpace(t) && f.End() <= |t|
    requires MatchesAt(Pattern(true, TitleAtoms(w)), t, f.start, f.counts)
    requires |w| > 0 && !IsWs(w[0])
    ensures |f.counts| == |w| + 4
    ensures var r := Normalize(MatchedText(t, f));
      |r| <= |w| + 93 && TitleAt(r, 0, |r|, w, |w| + f.counts[|w|])
  {
    var c := f.counts;
    TitleFits(w, t, f.start, c);
    TitleSliceNormalized(t, f.start, f.End(), w, |w| + c[|w|]);
    assert MatchedText(t, f) == t[f.start..f.End()];
  }

  /** A title match `t[i..e]` of single-spaced text, normalized. */
  lemma TitleSliceNormalized(t: string, i: nat, e: nat, w: string, q: nat)
    requires TitleAt(t, i, e, w, q) && i + q + 4 <= e && NoAdjacentWs(t) && WsIsSpace(t)
    requires |w| > 0 && !IsWs(w[0])
    ensures var r := Normalize(t[i..e]); TitleAt(r, 0, |r|, w, q) && |r| <= e - i
  {
    TitleSlice(t, i, e, w, q);
    SpacedSlice(t, i, e);
    TitleNormalized(t[i..e], w, q);
  }

  /** Every teacher label is normalized, reads "Professor" or "Professora",
      a space and a capitalised name, and has at most 102 characters. */
  lemma ProfessorShape(text: string, r: string)
    requires ExtractProfessor(text) == Some(r)
    ensures Normalize(r) == r && |r| <= 102 && ProfessorTitle(r)
  {
    var t := Normalize(text);
    var f := Search(ProfessorPattern, t, 0).value;
    SearchMatches(ProfessorPattern, t, 0, f);
    ProfessorMatchShape(t, f);
    NormalizeIdempotent(MatchedText(t, f));
  }
}
