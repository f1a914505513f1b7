/** ECMAScript whitespace and the `normalize` helper of app.js:
    `(text || "").replace(/\s+/g, " ").trim()`. */
module Text {
  import opened Wrappers

  /** ECMAScript LineTerminator: LF, CR, LINE SEPARATOR, PARAGRAPH SEPARATOR. */
  predicate IsLineTerminator(c: char) {
    c == '\n' || c == '\r' || c as int == 0x2028 || c as int == 0x2029
  }

  /** The characters matched by `\s` and removed by `trim()`: ECMAScript
      WhiteSpace (TAB, VT, FF, ZWNBSP and every Unicode space separator)
      together with LineTerminator. */
  predicate IsWs(c: char) {
    var u := c as int;
    IsLineTerminator(c) || u == 0x09 || u == 0x0B || u == 0x0C || u == 0x20
    || u == 0xA0 || u == 0x1680 || (0x2000 <= u <= 0x200A) || u == 0x202F
    || u == 0x205F || u == 0x3000 || u == 0xFEFF
  }

  predicate NoAdjacentWs(s: string) {
    forall k :: 0 <= k < |s| - 1 ==> !(IsWs(s[k]) && IsWs(s[k + 1]))
  }

  predicate WsIsSpace(s: string) {
    forall k :: 0 <= k < |s| && IsWs(s[k]) ==> s[k] == ' '
  }

  predicate Trimmed(s: string) {
    |s| > 0 ==> !IsWs(s[0]) && !IsWs(s[|s| - 1])
  }

  /** The shape of every string `normalize` returns. */
  predicate IsNormalized(s: string) {
    NoAdjacentWs(s) && WsIsSpace(s) && Trimmed(s)
  }

  predicate AllWs(s: string) {
    forall k :: 0 <= k < |s| ==> IsWs(s[k])
  }

  /** The non-whitespace characters of `s`, in order. */
  function NonWs(s: string): string {
    if s == [] then [] else (if IsWs(s[0]) then [] else [s[0]]) + NonWs(s[1..])
  }

  lemma {:induction false} NonWsAppend(a: string, b: string)
    ensures NonWs(a + b) == NonWs(a) + NonWs(b)
  {
    if a != [] {
      var h := if IsWs(a[0]) then [] else [a[0]];
      assert (a + b)[1..] == a[1..] + b;
      NonWsAppend(a[1..], b);
      calc {
        NonWs(a + b);
        h + NonWs(a[1..] + b);
        h + (NonWs(a[1..]) + NonWs(b));
        (h + NonWs(a[1..])) + NonWs(b);
      }
    } else {
      assert a + b == b;
    }
  }

  lemma {:induction false} NonWsOfAllWs(s: string)
    requires AllWs(s)
    ensures NonWs(s) == []
  {
    if s != [] {
      NonWsOfAllWs(s[1..]);
    }
  }

  /** `s.replace(/\s+/g, " ")`: every maximal run of whitespace becomes one
      space; the last character of a run stands for the whole run. */
  function Collapse(s: string): (r: string)
    ensures |r| <= |s|
    ensures |s| > 0 ==> |r| > 0 && (IsWs(r[0]) <==> IsWs(s[0]))
    ensures NoAdjacentWs(r) && WsIsSpace(r)
    ensures NonWs(r) == NonWs(s)
  {
    if s == [] then []
    else if IsWs(s[0]) && |s| > 1 && IsWs(s[1]) then Collapse(s[1..])
    else
      var x := if IsWs(s[0]) then ' ' else s[0];
      var rest := Collapse(s[1..]);
      assert ([x] + rest)[1..] == rest;
      [x] + rest
  }

  /** Leading half of `String.prototype.trim`. */
  function TrimStart(s: string): (r: string)
    ensures |r| <= |s| && r == s[|s| - |r|..]
    ensures |r| > 0 ==> !IsWs(r[0])
    ensures forall k :: 0 <= k < |s| - |r| ==> IsWs(s[k])
  {
    if s != [] && IsWs(s[0]) then TrimStart(s[1..]) else s
  }

  /** Trailing half of `String.prototype.trim`. */
  function TrimEnd(s: string): (r: string)
    ensures |r| <= |s| && r == s[..|r|]
    ensures |r| > 0 ==> !IsWs(r[|r| - 1])
    ensures forall k :: |r| <= k < |s| ==> IsWs(s[k])
  {
    if s != [] && IsWs(s[|s| - 1]) then TrimEnd(s[..|s| - 1]) else s
  }

  function Trim(s: string): string {
    TrimEnd(TrimStart(s))
  }

  lemma TrimStartKeepsNonWs(s: string)
    ensures NonWs(TrimStart(s)) == NonWs(s)
  {
    var a := TrimStart(s);
    var d := |s| - |a|;
    var w := s[..d];
    assert s == w + a;
    assert AllWs(w) by {
      forall k | 0 <= k < d ensures IsWs(w[k]) {
        assert w[k] == s[k];
      }
    }
    NonWsAppend(w, a);
    NonWsOfAllWs(w);
  }

  lemma TrimEndKeepsNonWs(s: string)
    ensures NonWs(TrimEnd(s)) == NonWs(s)
  {
    var b := TrimEnd(s);
    var w := s[|b|..];
    assert s == b + w;
    assert AllWs(w) by {
      forall k | 0 <= k < |w| ensures IsWs(w[k]) {
        assert w[k] == s[|b| + k];
      }
    }
    NonWsAppend(b, w);
    NonWsOfAllWs(w);
  }

  /** Trimming keeps every non-whitespace character. */
  lemma TrimKeepsNonWs(s: string)
    ensures NonWs(Trim(s)) == NonWs(s)
  {
    TrimStartKeepsNonWs(s);
    TrimEndKeepsNonWs(TrimStart(s));
  }

  /** `normalize(text)` on a string. */
  function Normalize(s: string): (r: string)
    ensures IsNormalized(r)
    ensures |r| <= |s|
    ensures NonWs(r) == NonWs(s)
  {
    var c := Collapse(s);
    TrimKeepsNonWs(c);
    Trim(c)
  }

  /** `normalize(text)` for a value that may be null or undefined (None):
      `(text || "")` turns it into the empty string first. */
  function NormalizeValue(text: Option<string>): (r: string)
    ensures text.None? ==> r == ""
    ensures text == Some("") ==> r == ""
    ensures text.Some? ==> r == Normalize(text.value)
  {
    Normalize(text.GetOr(""))
  }

  lemma {:induction false} CollapseFixed(s: string)
    requires NoAdjacentWs(s) && WsIsSpace(s)
    ensures Collapse(s) == s
  {
    if s != [] {
      CollapseFixed(s[1..]);
    }
  }

  /** A string is left unchanged by `normalize` exactly when it already has
      the normalized shape. */
  lemma NormalizeFixedPoint(s: string)
    ensures Normalize(s) == s <==> IsNormalized(s)
  {
    if IsNormalized(s) {
      CollapseFixed(s);
    }
  }

  lemma NormalizeIdempotent(s: string)
    ensures Normalize(Normalize(s)) == Normalize(s)
  {
    NormalizeFixedPoint(Normalize(s));
  }

  /** Collapsing distributes over a split after a non-whitespace character. */
  lemma {:induction false} CollapseAppend(a: string, b: string)
    requires |a| > 0 && !IsWs(a[|a| - 1])
    ensures Collapse(a + b) == Collapse(a) + Collapse(b)
  {
    assert (a + b)[1..] == a[1..] + b;
    if |a| > 1 {
      CollapseAppend(a[1..], b);
    } else {
      assert a[1..] == [];
    }
  }

  /** A string without whitespace is left alone by the collapse. */
  lemma CollapseNoWs(s: string)
    requires forall k :: 0 <= k < |s| ==> !IsWs(s[k])
    ensures Collapse(s) == s
  {
    CollapseFixed(s);
  }

  /** A non-empty run of whitespace in front of `b` collapses to one space. */
  lemma {:induction false} CollapseRun(w: string, b: string)
    requires |w| > 0 && AllWs(w)
    requires |b| > 0 ==> !IsWs(b[0])
    ensures Collapse(w + b) == " " + Collapse(b)
  {
    var s := w + b;
    assert s[1..] == w[1..] + b;
    if |w| > 1 {
      assert IsWs(s[0]) && IsWs(s[1]);
      CollapseRun(w[1..], b);
    } else {
      assert s[1..] == b;
    }
  }

  /** A whitespace run between two words becomes exactly one space. */
  lemma CollapseJoin(a: string, w: string, b: string)
    requires |a| > 0 ==> !IsWs(a[|a| - 1])
    requires |w| > 0 && AllWs(w)
    requires |b| > 0 ==> !IsWs(b[0])
    ensures Collapse(a + w + b) == Collapse(a) + " " + Collapse(b)
  {
    var t := w + b;
    var y := Collapse(b);
    assert Collapse(t) == " " + y by {
      CollapseRun(w, b);
    }
    assert a + w + b == a + t;
    if |a| > 0 {
      assert Collapse(a + t) == Collapse(a) + Collapse(t) by {
        CollapseAppend(a, t);
      }
    } else {
      assert a + t == t;
    }
  }

  /** Collapsing keeps a non-whitespace last character. */
  lemma {:induction false} CollapseLast(a: string)
    requires |a| > 0 && !IsWs(a[|a| - 1])
    ensures |Collapse(a)| > 0 && Collapse(a)[|Collapse(a)| - 1] == a[|a| - 1]
  {
    if |a| > 1 {
      CollapseLast(a[1..]);
    }
  }

  /** Leading whitespace is trimmed within a front block that ends in a
      non-whitespace character. */
  lemma {:induction false} TrimStartAppend(x: string, y: string)
    requires |x| > 0 && !IsWs(x[|x| - 1])
    ensures TrimStart(x + y) == TrimStart(x) + y
  {
    var s := x + y;
    if IsWs(x[0]) {
      assert |x| > 1;
      assert s[1..] == x[1..] + y;
      TrimStartAppend(x[1..], y);
    }
  }

  /** Trailing whitespace is trimmed within a back block that starts with a
      non-whitespace character. */
  lemma {:induction false} TrimEndAppend(x: string, y: string)
    requires |y| > 0 && !IsWs(y[0])
    ensures TrimEnd(x + y) == x + TrimEnd(y)
  {
    var s := x + y;
    if IsWs(y[|y| - 1]) {
      assert |y| > 1;
      assert s[..|s| - 1] == x + y[..|y| - 1];
      TrimEndAppend(x, y[..|y| - 1]);
    }
  }

  /** Trimming two words joined by a space trims each of them on its outer
      side only. */
  lemma TrimJoin(x: string, y: string)
    requires |x| > 0 && !IsWs(x[|x| - 1])
    requires |y| > 0 && !IsWs(y[0])
    ensures Trim(x + (" " + y)) == Trim(x) + " " + Trim(y)
  {
    var u := TrimStart(x);
    TrimStartAppend(x, " " + y);
    assert u + (" " + y) == (u + " ") + y;
    TrimEndAppend(u + " ", y);
    assert TrimEnd(u) == u;
    assert TrimStart(y) == y;
  }

  /** `normalize` of two texts joined by a whitespace run is their two
      normalized forms joined by one space. */
  lemma NormalizeJoin(a: string, w: string, b: string)
    requires |a| > 0 && !IsWs(a[|a| - 1])
    requires |w| > 0 && AllWs(w)
    requires |b| > 0 && !IsWs(b[0])
    ensures Normalize(a + w + b) == Normalize(a) + " " + Normalize(b)
  {
    var x := Collapse(a);
    var y := Collapse(b);
    assert Collapse(a + w + b) == x + (" " + y) by {
      CollapseJoin(a, w, b);
      assert x + " " + y == x + (" " + y);
    }
    assert Trim(x + (" " + y)) == Trim(x) + " " + Trim(y) by {
      CollapseLast(a);
      TrimJoin(x, y);
    }
  }

  /** When `s` begins with a block `s[..h]` that is already normalized and
      ends in a non-whitespace character, `normalize` keeps that block. */
  lemma NormalizeKeepsHead(s: string, h: nat)
    requires 0 < h <= |s|
    requires IsNormalized(s[..h])
    ensures h <= |Normalize(s)| && Normalize(s)[..h] == s[..h]
  {
    var head := s[..h];
    var c := Collapse(s);
    assert c[..h] == head && h <= |c| by {
      assert s == head + s[h..];
      CollapseAppend(head, s[h..]);
      CollapseFixed(head);
    }
    assert TrimStart(c) == c by {
      assert c[0] == head[0];
    }
    var r := TrimEnd(c);
    assert Normalize(s) == r;
    assert c[h - 1] == head[h - 1];
    assert h <= |r|;
    assert r[..h] == c[..h];
  }

  /** A string with single spaces only and no leading whitespace keeps
      everything but a trailing space under `normalize`. */
  lemma NormalizeSpaced(s: string)
    requires NoAdjacentWs(s) && WsIsSpace(s)
    requires |s| > 0 && !IsWs(s[0])
    ensures Normalize(s) == TrimEnd(s)
  {
    CollapseFixed(s);
  }

  /** Every slice of a single-spaced string is single-spaced. */
  lemma SpacedSlice(t: string, i: nat, e: nat)
    requires NoAdjacentWs(t) && WsIsSpace(t) && i <= e <= |t|
    ensures NoAdjacentWs(t[i..e]) && WsIsSpace(t[i..e])
  {
    assert forall k :: 0 <= k < e - i ==> t[i..e][k] == t[i + k];
  }

  lemma SliceOfSlice(t: string, i: nat, e: nat, h: nat)
    requires i + h <= e <= |t|
    ensures t[i..e][..h] == t[i..i + h]
  {
  }
}
