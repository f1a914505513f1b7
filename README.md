# Label extraction of horarios-iffarsan, in Dafny

The web page of horarios-iffarsan shows timetable PDFs, one page per
teacher or per class. To fill its page selector it reads the text of every
page and turns it into a label. This project models that label-extraction
core of `app.js` and proves properties of the model:

- `normalize` (`Text.Normalize`) collapses every run of ECMAScript
  whitespace to one space and trims both ends. `(text || "")` is modelled
  by `Text.NormalizeValue`.
- `extractTurma` (`Labels.ExtractTurma`) finds the class code with
  `/\b[A-Z]{2,4}\s?T?\d{1,2}\s?[-–]\s?.{1,100}/`. It cuts the match before
  `\sIntegrado.*` (`i` flag), deletes every `[...]` annotation and
  normalizes again.
- `extractProfessor` (`Labels.ExtractProfessor`) finds
  `/\bProfessor[a]?\s+[A-ZÀ-Ú][A-Za-zÀ-ú\s'´`^~\-]{2,90}/` and normalizes
  the match.
- `extractLabel` (`Labels.ExtractLabel`) dispatches on the category tag.
- The `for` loop of `loadPdf` (`Catalog.BuildEntries`) builds one
  (value, caption) entry per page, in page order. The value is the page
  number. The caption is the extracted label, or the placeholder
  `Página p` when nothing was extracted.

The regular expressions are not treated as black boxes. Module `Regex`
models the fragment of ECMAScript regular expressions that these four
patterns use: an optional `\b` followed by a sequence of greedily
quantified character classes. The backtracking matcher (`Regex.Match`)
follows the RepeatMatcher of section 22.2.2 of ECMA-262. It is proved
equal to a declarative reading:

- `Fits` says the pattern fits with given per-atom counts.
- `Preferred` is the order in which backtracking tries those counts, the
  lexicographic order with more characters first.
- Search takes the leftmost start position.

The properties of the extractors are proved against that reading. The
character classes follow ECMAScript:

- `\s` and `trim` cover WhiteSpace and LineTerminator.
- `.` excludes the line terminators.
- `\b` uses ASCII word characters.
- With the `i` flag, an ASCII pattern letter matches exactly its two ASCII
  cases. The only folded pattern, `\sIntegrado.*`, is all ASCII.

Modules:

- `Wrappers`: the `Option` type for JavaScript `null`.
- `Text`: whitespace, `normalize`.
- `Regex`: the pattern fragment, the matcher and its specification.
- `Labels`: the patterns of `app.js` and the extractors.
- `Catalog`: page numbers as text, captions, the page-list loop.

## Model

| member | source | states |
|---|---|---|
| Text.Normalize | app.js:24-26 | The result has no two adjacent whitespace characters. Its only whitespace is the plain space. It neither starts nor ends with whitespace. It is never longer than the input. It keeps exactly the non-whitespace characters of the input, in order. `Text.NormalizeJoin` adds that a whitespace run between two words becomes exactly one space. |
| Text.NormalizeValue | app.js:24-26 | A null or undefined value and the empty string both give ""; any other string gives its normalized form. |
| Text.NormalizeFixedPoint | app.js:24-26 | `normalize` leaves a string unchanged if and only if the string already has the normalized shape. |
| Text.NormalizeIdempotent | app.js:24-26 | Normalizing twice gives the same result as normalizing once. |
| Text.Collapse | app.js:25 | `replace(/\s+/g, " ")` leaves no adjacent whitespace and no whitespace other than a space. It keeps every non-whitespace character in order. It does not lengthen the string, and its first character is whitespace exactly when the input's is. `Text.CollapseJoin` adds that a run between two non-whitespace characters becomes exactly one space. |
| Text.CollapseNoWs | app.js:25 | A string without whitespace is left unchanged by `replace(/\s+/g, " ")`. |
| Text.CollapseRun | app.js:25 | A non-empty whitespace run in front of a text that does not start with whitespace becomes exactly one space. |
| Text.CollapseJoin | app.js:25 | A whitespace run between a text that does not end with whitespace and a text that does not start with it becomes exactly one space between their collapsed forms. |
| Text.NormalizeJoin | app.js:24-26 | `normalize` of a text that ends with a non-whitespace character and a text that starts with one, joined by a whitespace run, is their two normalized forms joined by exactly one space. |
| Text.Trim | app.js:25 | `trim` is its leading half then its trailing half; their contracts are `Text.TrimStart` and `Text.TrimEnd`, and `Text.TrimKeepsNonWs` states what it keeps. |
| Text.TrimStart | app.js:25 | The leading half of `trim` returns a suffix of the input. That suffix does not start with whitespace, and every character removed is whitespace. |
| Text.TrimEnd | app.js:25 | The trailing half of `trim` returns a prefix of the input. That prefix does not end with whitespace, and every character removed is whitespace. |
| Text.TrimKeepsNonWs | app.js:25 | `trim` keeps every non-whitespace character. |
| Text.NormalizeKeepsHead | app.js:42 | A normalized front block that ends in a non-space survives `normalize` unchanged. |
| Regex.Match | app.js:36 | The backtracking matcher returns counts for every atom and never reads past the text. `Regex.MatchSpec` states what it returns. |
| Regex.Search | app.js:36 | `String.prototype.match` without `g`: a found match lies inside the text, the matcher succeeds at its start, and fails at every earlier start. `Regex.SearchSpec` restates this against the declarative reading. |
| Regex.MatchSpec | app.js:36 | The backtracking matcher returns counts that fit the pattern, and no fitting counts are tried before them. It fails only when nothing fits. |
| Regex.MatchAt | app.js:36 | One match attempt at a start position, as `match` makes for the patterns at lines 36 and 48: the leading `\b` is checked first, then the matcher runs; a result never reads past the text and is at least as long as the pattern's minimum. `Regex.MatchAtSpec` states what it returns. |
| Regex.MatchAtSpec | app.js:36 | The same holds at a single position, with a leading `\b` checked first. |
| Regex.SearchSpec | app.js:36 | `String.prototype.match` without `g` starts at the leftmost position where the pattern fits at all. There it returns the first fitting counts in backtracking order; without a match nothing fits anywhere. |
| Regex.SearchNoneIff | app.js:36-37 | The search returns null if and only if the pattern fits nowhere in the string. |
| Regex.SearchLeftmost | app.js:36 | No match starts before the one found. |
| Regex.SearchGreedy | app.js:36 | No way of fitting at the found start is preferred by backtracking to the counts returned. |
| Regex.RemoveFirst | app.js:40 | `replace` without `g` never lengthens the text. `Regex.RemoveFirstKeepsPrefix` and `Labels.WordCut` state what it keeps. |
| Regex.RemoveAll | app.js:41 | `replace` with `g` never lengthens the text. For the bracket pattern, `Labels.BracketsKept` states that it keeps exactly the characters outside every annotation, in order, and `Labels.BracketsRemoved` that no annotation is left. `Regex.RemoveAllKeepsPrefix` covers any pattern. |
| Regex.RemoveFirstKeepsPrefix | app.js:40 | `replace` without `g` leaves untouched a prefix in which no match starts. |
| Regex.RemoveAllKeepsPrefix | app.js:41 | `replace` with `g` leaves untouched a prefix in which no match starts. |
| Labels.ExtractTurma | app.js:34-43 | `extractTurma`: normalize, the leftmost class-code match, then the clean-up. Its contract is `Labels.TurmaNoneIff`, `Labels.TurmaKeepsCode` and `Labels.TurmaShape`. |
| Labels.CleanTurma | app.js:39-42 | The clean-up of a class match. Its contract is `Labels.CleanTurmaSpec`, which fixes the result exactly through `Labels.IntegradoCut` and `Labels.BracketsKept`, and `Labels.CleanKeepsCode`. |
| Labels.ExtractProfessor | app.js:46-51 | `extractProfessor`: normalize, the leftmost teacher match, then normalize again. Its contract is `Labels.ProfessorNoneIff`, `Labels.ProfessorMatchShape` and `Labels.ProfessorShape`. |
| Labels.ExtractLabel | app.js:53-55 | The tag "prof" yields `extractProfessor`; every other tag yields `extractTurma`. |
| Labels.TurmaNoneIff | app.js:35-37 | `extractTurma` returns null if and only if the class-code pattern occurs nowhere in the normalized text. |
| Labels.TurmaMatchShape | app.js:36 | A class-code match starts with 2-4 capitals, an optional space, an optional `T` and 1-2 digits. It has at most 111 characters. |
| Labels.TurmaKeepsCode | app.js:34-43 | For the leftmost match, `extractTurma` returns the cleaned match. The cleaned match starts with the code that matched, character for character as in the normalized text. |
| Labels.TurmaFoundShape | app.js:36-42 | The cleaned leftmost match is normalized, starts with a class code, and has 3 to 111 characters. |
| Labels.TurmaShape | app.js:34-43 | Every non-null result of `extractTurma` is a fixed point of `normalize`. It has 3 to 111 characters and starts with a class code. |
| Labels.IntegradoCut | app.js:40 | On a line without line terminators, `replace(/\sIntegrado.*/i, "")` keeps a prefix of the text. The prefix contains no whitespace followed by "Integrado" in any ASCII case. If anything was removed, such a whitespace starts exactly where the prefix ends. |
| Labels.WordCut | app.js:40 | The same cut for any word in place of "Integrado". For a word of ASCII characters, as "Integrado" is, this is also what JavaScript does. |
| Labels.CutToEnd | app.js:40 | On a line, `.*` runs to the end of the text. |
| Labels.CutLeftmost | app.js:40 | The cut starts at the first whitespace that is followed by the word. |
| Labels.BracketsRemoved | app.js:41 | After `replace(/\[[^\]]+\]/g, "")`, no `[`, one or more non-`]` characters and `]` remain. This includes annotations that the deletions brought together. |
| Labels.BracketSearch | app.js:41 | The leftmost bracket match is an annotation, and no annotation starts before it. Without a match there is no annotation at all. |
| Labels.BracketsKept | app.js:41 | `replace(/\[[^\]]+\]/g, "")` returns exactly the characters that lie inside no annotation (the brackets included), in their order. |
| Labels.BracketsKeptFrom | app.js:41 | The same for the scan resumed at any position that no earlier annotation reaches. Two overlapping annotations share their closing `]`, so the scan after each match resumes at such a position. |
| Labels.CleanTurmaSpec | app.js:39-42 | For a match whose only whitespace is the plain space, as every match of normalized text is: the cut text is a prefix with no "Integrado" cut point in it, the bracket step keeps exactly the characters of the cut text outside annotations (`Labels.BracketsKept`) and leaves no annotation, and the result is that text normalized. |
| Labels.CleanKeepsCode | app.js:40-42 | The clean-up never changes a class code at the front of the match. |
| Labels.ProfessorNoneIff | app.js:47-49 | `extractProfessor` returns null if and only if the teacher pattern occurs nowhere in the normalized text. |
| Labels.ProfessorMatchShape | app.js:48-50 | A normalized teacher match reads "Professor" or "Professora", then one space and a capital initial (`A-Z` or U+00C0..U+00DA). Every later character is a name character or a space. It has at most 102 characters. |
| Labels.ProfessorShape | app.js:46-51 | Every non-null result of `extractProfessor` is a fixed point of `normalize` and has at most 102 characters. It has the title shape above. |
| Catalog.Placeholder | app.js:87 | The fallback text `Página p`. `Catalog.PlaceholderInitial` and `Catalog.ExtractedLabelShape` tell it apart from every extracted label. |
| Catalog.Fallback | app.js:87 | The logical-or fallback on a null or empty label. `Catalog.PageLabelSpec` states its contract. |
| Catalog.PageLabel | app.js:87 | The caption of one page. `Catalog.PageLabelSpec` states its contract. |
| Catalog.PageEntry | app.js:86-91 | The option built for one page from that page's text: `String(p)` as value and the page label as caption. `Catalog.PageEntrySpec` states its contract, and `Catalog.EntriesSpec` says that entry `k` of the list is the one for page `k + 1`. |
| Catalog.EntryOf | app.js:87-91 | The option of one page, given what extraction found. `Catalog.PageEntrySpec` states its contract. |
| Catalog.Entries | app.js:84-93 | The option list of the pages. `Catalog.EntriesSpec` and `Catalog.EntriesDistinct` state its contract, and `Catalog.BuildEntries` is proved equal to it. |
| Catalog.Decimal | app.js:90 | `String(p)` is a non-empty run of decimal digits with no leading zero. |
| Catalog.DecimalRoundTrip | app.js:90 | Reading the digits of a page number gives that number back. |
| Catalog.DecimalInjective | app.js:90 | Two page numbers have the same text if and only if they are equal. |
| Catalog.PlaceholderInitial | app.js:87 | Every placeholder `Página p` has an `á` at index 1. |
| Catalog.ExtractedLabelShape | app.js:87 | An extracted label, class or teacher, is never empty and never equal to a placeholder. |
| Catalog.PageLabelSpec | app.js:87 | The caption is never empty. It is the extracted label whenever there is one. It is the placeholder if and only if extraction returned null. |
| Catalog.PageEntrySpec | app.js:87-91 | An entry's value reads back as its page number. Its caption is the page label, so it is the extracted label whenever there is one. It is non-empty, and it is the placeholder exactly when nothing was extracted. |
| Catalog.EntriesOfAt | app.js:84-93 | Entry `k` of the list is the entry of page `k + 1`. |
| Catalog.EntriesSpec | app.js:84-93 | There is one entry per page, in page order. Entry `k` is the entry of page `k + 1`, built from that page's text; nothing is sorted. |
| Catalog.BuildEntries | app.js:84-93 | The loop appends, for p = 1..N, the entry of page p, so its result is the entry list of the pages. |
| Catalog.EntriesDistinct | app.js:84-93 | Entry `k` has value `k + 1`, read back, so no two entries share a value. |

## Left out

- The DOM: element lookup, `setStatus`, creating and appending `<option>` elements, and enabling the select. Entries are modelled as a sequence of (value, caption) pairs.
- pdf.js: the worker, `getDocument`, `getPage`, `getTextContent` and `getPageText`. These are foreign asynchronous calls. The page texts are an input sequence, page 1 first.
- `renderPage`: canvas sizing with floating-point `Math.floor` and rendering.
- The event listeners, the `parseInt` on selection, the re-entrancy of the asynchronous `loadPdf`, and the global `pdfDoc`.
- Strings are sequences of Unicode scalar values. JavaScript counts UTF-16 code units, so a character outside the Basic Multilingual Plane counts once here and twice there, for `.{1,100}` and `{2,90}`.
- Text.NormalizeValue: values other than strings and null/undefined are not modelled, for example a number passed as text.
- Regex.RemoveAll: global replacement is defined only for patterns whose matches are never empty. The one pattern that `app.js` replaces globally by the empty string, `\[[^\]]+\]`, has that property, so the empty-match step of `String.prototype.replace` is not modelled.
- The regular-expression model covers only a `\b` and a concatenation of quantified character classes. Alternation, groups and lookaround are not used by `app.js` and are not modelled.
- Catalog.ParseDecimal reads only plain digit strings, which is all the entries hold. The rest of `parseInt` (signs, whitespace, radix prefixes, trailing junk) is not modelled.
- `app.js` has no retry on whitespace-stripped text and no proper-noun fallback filtered by a blacklist. It does not accept the abbreviation `Prof.`. It does not sort the list, does not shorten long labels with an ellipsis, and does not cancel a load that a newer one supersedes. The model has none of these either.
- On the text "Professor Adelino Jacó Seibt   turma ...", the name class of `app.js` also takes lowercase letters and spaces, so the label it returns ends with the word "turma". `Labels.ProfessorMatchShape` states exactly that class.
- Regex.FoldCase: only the ASCII letters fold. JavaScript also matches the case variants of a non-ASCII pattern letter, so the model is exact only for folded patterns whose letters are ASCII, which the one folded pattern of `app.js` (`\sIntegrado.*`) is.
