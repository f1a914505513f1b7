/** The page list that `loadPdf` builds in app.js: one entry per page, whose
    value is the page number and whose label is the extracted label or the
    placeholder `Página p`. */
module Catalog {
  import opened Wrappers
  import opened Regex
  import opened Labels

  // ----- page numbers as text -----

  function DigitChar(d: nat): (c: char)
    requires d < 10
    ensures IsDigit(c) && c as int - '0' as int == d
  {
    ('0' as int + d) as char
  }

  predicate AllDigits(s: string) {
    forall k :: 0 <= k < |s| ==> IsDigit(s[k])
  }

  /** `String(p)` and `${p}` for a non-negative integer: its decimal digits,
      without leading zeros. */
  function Decimal(n: nat): (r: string)
    ensures |r| > 0 && AllDigits(r)
    ensures r[0] == '0' ==> n == 0
  {
    if n < 10 then [DigitChar(n)] else Decimal(n / 10) + [DigitChar(n % 10)]
  }

  /** The value of a string of decimal digits, most significant first. */
  function DigitsValue(s: string): nat
    requires AllDigits(s)
  {
    if s == [] then 0
    else 10 * DigitsValue(s[..|s| - 1]) + (s[|s| - 1] as int - '0' as int)
  }

  /** Reading an option value back as a page number, for a string that is a
      plain run of decimal digits; anything else gives None. */
  function ParseDecimal(s: string): Option<nat> {
    if s != [] && AllDigits(s) then Some(DigitsValue(s)) else None
  }

  /** Reading the digits of `n` gives `n` back. */
  lemma {:induction false} DecimalRoundTrip(n: nat)
    ensures ParseDecimal(Decimal(n)) == Some(n)
  {
    var r := Decimal(n);
    if n >= 10 {
      DecimalRoundTrip(n / 10);
      var h := Decimal(n / 10);
      assert r == h + [DigitChar(n % 10)];
      assert r[..|r| - 1] == h;
      assert DigitsValue(h) == n / 10;
      assert DigitsValue(r) == 10 * (n / 10) + n % 10;
    } else {
      assert DigitsValue(r) == 10 * DigitsValue([]) + n;
    }
  }

  /** Different pages have different option values. */
  lemma DecimalInjective(a: nat, b: nat)
    ensures Decimal(a) == Decimal(b) <==> a == b
  {
    DecimalRoundTrip(a);
    DecimalRoundTrip(b);
  }

  // ----- labels and entries -----

  const PlaceholderPrefix: string := "Página "

  /** The fallback label `Página ${p}`. */
  function Placeholder(p: nat): string {
    PlaceholderPrefix + Decimal(p)
  }

  /** Every placeholder has an `á` at index 1. */
  lemma PlaceholderInitial(p: nat)
    ensures |Placeholder(p)| > 7 && Placeholder(p)[1] == 'á'
  {
    var d := Decimal(p);
    assert PlaceholderPrefix[1] == 'á';
    assert (PlaceholderPrefix + d)[1] == PlaceholderPrefix[1];
  }

  /** One `<option>`: its value and its text. */
  datatype Entry = Entry(value: string, caption: string)

  /** `label || "Página " + p`: a null or empty label falls back to the
      placeholder. */
  function Fallback(found: Option<string>, p: nat): string {
    if found.Some? && found.value != "" then found.value else Placeholder(p)
  }

  /** `extractLabel(text, type) || "Página " + p`. */
  function PageLabel(text: string, tag: string, p: nat): string {
    Fallback(ExtractLabel(text, tag), p)
  }

  /** The entry of page `p` when extraction gave `found`. */
  function EntryOf(found: Option<string>, p: nat): Entry {
    Entry(Decimal(p), Fallback(found, p))
  }

  /** The entry of page `p` (counted from 1) whose text is `text`. */
  function PageEntry(text: string, tag: string, p: nat): Entry {
    EntryOf(ExtractLabel(text, tag), p)
  }

  /** A teacher label starts with "Pr". */
  lemma ProfessorInitial(text: string, l: string)
    requires ExtractProfessor(text) == Some(l)
    ensures |l| >= 2 && l[1] == 'r'
  {
    ProfessorShape(text, l);
    assert WordAt(l, 0, "Professor", false);
    assert CharMatches(false, l[1], "Professor"[1]);
  }

  /** A class label has an uppercase ASCII letter at index 1. */
  lemma TurmaInitial(text: string, l: string)
    requires ExtractTurma(text) == Some(l)
    ensures |l| >= 2 && IsUpperAscii(l[1])
  {
    TurmaShape(text, l);
    var n, sp, tt, d :| CodeHead(l, 0, n, sp, tt, d);
    assert IsUpperAscii(l[1]);
  }

  /** An extracted label is never empty and never a placeholder: a class
      label has an uppercase ASCII letter at index 1, a teacher label an `r`,
      and every placeholder an `á`. */
  lemma ExtractedLabelShape(text: string, tag: string, l: string, p: nat)
    requires ExtractLabel(text, tag) == Some(l)
    ensures |l| >= 2 && l != Placeholder(p)
  {
    var h := Placeholder(p);
    PlaceholderInitial(p);
    if tag == "prof" {
      ProfessorInitial(text, l);
    } else {
      TurmaInitial(text, l);
    }
    assert l[1] != h[1];
  }

  /** The page label is the extracted label whenever there is one, and the
      placeholder is shown exactly when nothing was extracted. */
  lemma PageLabelSpec(text: string, tag: string, p: nat)
    ensures PageLabel(text, tag, p) != ""
    ensures forall l :: ExtractLabel(text, tag) == Some(l) ==> PageLabel(text, tag, p) == l
    ensures PageLabel(text, tag, p) == Placeholder(p) <==> ExtractLabel(text, tag).None?
  {
    match ExtractLabel(text, tag)
    case Some(l) =>
      ExtractedLabelShape(text, tag, l, p);
    case None =>
  }

  /** What an entry says about its page: the value reads back as the page
      number, and the caption is the page label, so it obeys
      `PageLabelSpec`. */
  lemma PageEntrySpec(text: string, tag: string, p: nat)
    ensures ParseDecimal(PageEntry(text, tag, p).value) == Some(p)
    ensures PageEntry(text, tag, p).caption == PageLabel(text, tag, p)
    ensures PageEntry(text, tag, p).caption != ""
    ensures PageEntry(text, tag, p).caption == Placeholder(p) <==> ExtractLabel(text, tag).None?
  {
    DecimalRoundTrip(p);
    PageLabelSpec(text, tag, p);
  }

  /** What extraction gives for each page, page 1 first. */
  function PageLabels(pages: seq<string>, tag: string): (r: seq<Option<string>>)
    ensures |r| == |pages| && forall k :: 0 <= k < |pages| ==> r[k] == ExtractLabel(pages[k], tag)
  {
    seq(|pages|, k requires 0 <= k < |pages| => ExtractLabel(pages[k], tag))
  }

  /** The entries built from the extraction results `found`, page 1 first. */
  function EntriesOf(found: seq<Option<string>>): seq<Entry> {
    if found == [] then []
    else EntriesOf(found[..|found| - 1]) + [EntryOf(found[|found| - 1], |found|)]
  }

  function Entries(pages: seq<string>, tag: string): seq<Entry> {
    EntriesOf(PageLabels(pages, tag))
  }

  lemma EntriesOfLength(found: seq<Option<string>>)
    ensures |EntriesOf(found)| == |found|
  {
  }

  /** Entry `k` belongs to page `k + 1`. */
  lemma {:induction false} EntriesOfAt(found: seq<Option<string>>, k: nat)
    requires k < |found|
    ensures |EntriesOf(found)| == |found| && EntriesOf(found)[k] == EntryOf(found[k], k + 1)
  {
    var front := found[..|found| - 1];
    EntriesOfLength(front);
    if k < |front| {
      EntriesOfAt(front, k);
      assert found[k] == front[k];
    }
  }

  /** The entries of the first `p` results extend those of the first
      `p - 1` by the entry of page `p`. */
  lemma EntriesOfSnoc(found: seq<Option<string>>, p: nat)
    requires 1 <= p <= |found|
    ensures EntriesOf(found[..p]) == EntriesOf(found[..p - 1]) + [EntryOf(found[p - 1], p)]
  {
    var q := found[..p];
    assert q[..p - 1] == found[..p - 1];
    assert q[p - 1] == found[p - 1];
  }

  /** One entry per page, in page order. */
  lemma EntriesSpec(pages: seq<string>, tag: string)
    ensures |Entries(pages, tag)| == |pages|
    ensures forall k :: 0 <= k < |pages| ==> Entries(pages, tag)[k] == PageEntry(pages[k], tag, k + 1)
  {
    var found := PageLabels(pages, tag);
    EntriesOfLength(found);
    forall k | 0 <= k < |pages| ensures Entries(pages, tag)[k] == PageEntry(pages[k], tag, k + 1) {
      EntriesOfAt(found, k);
    }
  }

  /** The `for` loop of `loadPdf`: page `p` of `pages` (counted from 1)
      gets one entry, appended in page order, with no sorting. */
  method BuildEntries(pages: seq<string>, tag: string) returns (entries: seq<Entry>)
    ensures entries == Entries(pages, tag)
  {
    ghost var found := PageLabels(pages, tag);
    entries := [];
    for p := 1 to |pages| + 1
      invariant entries == EntriesOf(found[..p - 1])
    {
      var text := pages[p - 1];
      var extracted := ExtractLabel(text, tag);
      var caption := if extracted.Some? && extracted.value != "" then extracted.value else Placeholder(p);
      assert Entry(Decimal(p), caption) == EntryOf(found[p - 1], p);
      EntriesOfSnoc(found, p);
      entries := entries + [Entry(Decimal(p), caption)];
    }
    assert found[..|pages|] == found;
  }

  /** Entry `k` of any entry list has the value `k + 1`, read back. */
  lemma EntriesOfValues(found: seq<Option<string>>)
    ensures |EntriesOf(found)| == |found|
    ensures forall k :: 0 <= k < |found| ==> ParseDecimal(EntriesOf(found)[k].value) == Some(k + 1)
  {
    EntriesOfLength(found);
    forall k | 0 <= k < |found| ensures ParseDecimal(EntriesOf(found)[k].value) == Some(k + 1) {
      EntriesOfAt(found, k);
      DecimalRoundTrip(k + 1);
    }
  }

  /** The entries of a page list name every page once: their values are the
      page numbers 1..N in order, so no two are equal. */
  lemma EntriesDistinct(pages: seq<string>, tag: string)
    ensures var e := Entries(pages, tag);
      |e| == |pages|
      && (forall k :: 0 <= k < |e| ==> ParseDecimal(e[k].value) == Some(k + 1))
      && (forall i, j :: 0 <= i < j < |e| ==> e[i].value != e[j].value)
  {
    EntriesOfValues(PageLabels(pages, tag));
  }
}
