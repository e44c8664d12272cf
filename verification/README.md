# Self-citation checker: author matching, modelled in Dafny

The Self-cite Checker looks at a scholar's publications. For each citing
work of a paper, it decides whether the citing work shares an author with
the paper (a self-citation) or not. This project models the logic that
makes that decision, all of it in `main.py`:

- `get_author_names` splits a raw author string with the regular expression
  `,|\band\b`. It then strips each piece and lower-cases it. The model is
  `AuthorSplit.GetAuthorNames` (file `split.dfy`). It is built on a
  character-level scan, `AuthorSplit.SplitFrom`, that finds the regex
  matches from left to right. The word boundaries `\b` are judged against
  the whole string, as Python's regex engine does.
- `is_self_citation` turns both name lists into sets and tests whether they
  intersect. The model is `SelfCitation.IsSelfCitation` (file `selfcite.dfy`).
- The per-paper tally in `analyze_citations` splits the paper's author
  string once. It then starts the self and non-self counters at zero, and
  adds one to exactly one of them for each citing work. The model is the
  recursive `CitationTally.Tally` and the loop `CitationTally.AnalyzePaper`
  (file `tally.dfy`).

Python's `str.isspace`, `str.lower` and the regex class `\w` work on Unicode.
Module `Text` (file `text.dfy`) models them on ASCII only. The whitespace
set is tab, line feed, vertical tab, form feed, carriage return, 0x1C-0x1F
and space. A word character is a letter, a digit or `_`. Lower-casing maps
`A`-`Z` to `a`-`z`.

File `split_examples.dfy` proves the result of the splitter on four concrete
inputs.

The model follows `main.py`: only the comma / lower-case `and` split and
exact-match set intersection.

## Model

| member | source | states |
|---|---|---|
| Text.IsSpace | main.py:35 | The whitespace `.strip()` removes, on ASCII: tab, line feed, vertical tab, form feed, carriage return, 0x1C-0x1F and space, the characters `str.isspace` accepts there. |
| Text.IsWordChar | main.py:34 | The regex class `\w` that `\b` tests, on ASCII: letters, digits and `_`. |
| Text.LowerChar | main.py:35 | Lower-casing one character never yields an upper-case letter. It maps `A`-`Z` to the letter 32 code points up and keeps every other character. It does not change whether a character is whitespace or a word character. |
| Text.Lower | main.py:35 | `.lower()` on a whole name. Its contract is carried by `Text.LowerSpec`. |
| Text.LowerSpec | main.py:35 | `.lower()` keeps the length, leaves no upper-case letter, keeps non-upper-case characters and lowers upper-case ones. |
| Text.Strip | main.py:35 | `.strip()` with no argument. Its contract is carried by `Text.StripSpec`, `Text.StripAt` and `Text.StrippedAtUnique`. |
| Text.StripSpec | main.py:35 | `.strip()` removes only leading and trailing whitespace, and what is left neither starts nor ends with whitespace. |
| Text.StrippedAtUnique | main.py:35 | The stripped text is determined by the string alone: any two ways of cutting it into leading whitespace, a non-space-bounded middle and trailing whitespace give the same middle. |
| Text.StripAt | main.py:35 | Any cut into leading whitespace, a non-space-bounded middle and trailing whitespace gives the result of `.strip()`. |
| Text.StripIdempotent | main.py:35 | Stripping an already stripped name changes nothing. |
| AuthorSplit.AndAt | main.py:34 | The alternative `\band\b`: the lower-case letters `and` with no word character right before or right after them, judged against the whole string. |
| AuthorSplit.MatchLen | main.py:34 | At one position the separator pattern matches either nothing, a one-character `,` or the three characters `and`. It matches exactly when the character is a comma or a whole lower-case word `and` starts there. |
| AuthorSplit.SplitFrom | main.py:34 | The left-to-right scan of `re.split`: there is exactly one more piece than separators. Its contents are stated by `AuthorSplit.SplitRoundTrip` and `AuthorSplit.RawPiecesHaveNoSeparator`. |
| AuthorSplit.RawSplit | main.py:34 | `re.split` of the author string at every comma and every standalone lower-case `and`, together with the separators it consumed: one more piece than separators, see `AuthorSplit.SplitRoundTrip`. |
| AuthorSplit.GetAuthorNames | main.py:32-35 | `get_author_names`: one name per raw piece, in order. Each name is the piece stripped and lower-cased. See `AuthorSplit.NamesCountMatches` and `AuthorSplit.NamesAreClean`. |
| AuthorSplit.NamesCountMatches | main.py:34-35 | `get_author_names` returns one name per position where the separator pattern matches, plus one. Empty pieces are never dropped. |
| AuthorSplit.SplitRoundTrip | main.py:34 | The unstripped pieces, in input order, rejoined with the separators that were matched, give back the original string. Every separator is `,` or `and`. |
| AuthorSplit.RawPiecesHaveNoSeparator | main.py:34 | No raw piece contains a comma or a standalone lower-case `and`, even when the piece is read on its own. |
| AuthorSplit.StrippedPiecesHaveNoSeparator | main.py:34-35 | Stripping a piece cannot create a comma or a standalone `and`. |
| AuthorSplit.NamesAreClean | main.py:35 | Every returned name has no whitespace at either end, no upper-case letter and no comma. |
| AuthorSplit.AndInNameWasUpperCase | main.py:34-35 | A standalone `and` in a returned name was written with an upper-case letter (`And`, `AND`). The split runs before `.lower()`, so only lower-case `and` separates. |
| AuthorSplit.EmptyInputGivesOneEmptyName | main.py:34-35 | The empty string yields `[""]`. |
| AuthorSplit.TrailingCommaGivesEmptyLastName | main.py:34-35 | A string ending in a comma yields a trailing empty name. |
| AuthorSplit.SplitFromSkip | main.py:34 | Positions where the pattern does not match never start a new piece. |
| AuthorSplit.SplitFromReachesComma | main.py:34 | Every comma ends a piece: the piece that begins right after any comma is one of the pieces. An `and` match cannot swallow a comma. |
| AuthorSplit.EmptyNameAfterComma | main.py:34-35 | A comma followed only by whitespace up to another separator or the end of the string yields the name `""`. Examples: `"A,"`, `"A, , B"`, `"A, and B"`. |
| AuthorSplit.NoSeparatorGivesOneName | main.py:34-35 | A string without a comma and without a lower-case standalone `and` is returned as one stripped, lower-cased name. |
| AuthorSplitExamples.SampleNames | main.py:32-35 | `"Sandy and Bo, Li"` gives `["sandy", "bo", "li"]`. The `and` inside `Sandy` is not a word and does not split. |
| AuthorSplitExamples.UpperCaseAndIsNotSeparator | main.py:34-35 | `"Bo AND Li"` gives the single name `["bo and li"]`. |
| AuthorSplitExamples.SerialCommaGivesEmptyName | main.py:34-35 | `"Bo, and Li"` gives `["bo", "", "li"]`. The serial comma and the `and` both split, and the space between them becomes the empty name in the middle. |
| AuthorSplitExamples.CommaAndGivesThreeEmptyNames | main.py:34-35 | `",and"` gives `["", "", ""]`. |
| SelfCitation.IsSelfCitation | main.py:38-42 | `is_self_citation`: the two name sets intersect. Its contract is carried by `SelfCitation.IsSelfCitationIffCommonName`. |
| SelfCitation.IsSelfCitationIffCommonName | main.py:38-42 | Two author lists are a self-citation exactly when some name occurs in both. |
| SelfCitation.IsSelfCitationSymmetric | main.py:40-42 | The verdict does not change when the two lists are swapped. |
| SelfCitation.IsSelfCitationOnlyNamesMatter | main.py:40-42 | The verdict depends only on the sets of names, not on their order or on repeated names. |
| SelfCitation.IsSelfCitationEmpty | main.py:40-42 | An empty list on either side is never a self-citation. |
| SelfCitation.IsSelfCitationReflexive | main.py:40-42 | A non-empty list is a self-citation of itself. |
| CitationTally.Classify | main.py:119-124 | One citing work adds one to exactly one counter: the self counter when its split author names share a name with the paper's, the non-self counter otherwise. The total is untouched. |
| CitationTally.Tally | main.py:99-124 | Starting from zero counters, after `n` citing works the two counters add up to `n` and the total is the value it started with. |
| CitationTally.SelfCitingMembers | main.py:119-121 | The reference list of self-citing works holds exactly the citing works whose authors share a name with the paper. |
| CitationTally.TallyCountsSelfCiting | main.py:118-124 | The self counter equals the number of self-citing works. The non-self counter equals the number of the remaining works. |
| CitationTally.TallyConcat | main.py:118-124 | Tallying two runs of citing works one after the other adds their counts. |
| CitationTally.TallySwap | main.py:118-124 | The counts do not depend on which of two runs of citing works comes first. |
| CitationTally.TotalCitations | main.py:95-97 | The paper's total is `num_citations` when the record has one and 0 otherwise. See `CitationTally.AnalyzePaper`. |
| CitationTally.AnalyzePaper | main.py:94-124 | The paper's record keeps the reported citation count, 0 when it is missing. With no positive count both counters stay 0. Otherwise the loop's counters equal the recursive tally: they sum to the number of citing works, and the self counter is the number of self-citing works. |
| CitationTally.BlankNamesShareEmptyName | main.py:34-42 | Empty pieces are kept. So two author strings that each hold a comma followed only by whitespace before the next separator or the end share the name `""`, for example `"A,"` and `"B, and C"`. Such a pair counts as a self-citation even when no real name is common. |

## Left out

- `setup_driver` and `get_citations_from_page` (main.py:14-29, 45-68) drive a browser and read the page. They are I/O with no logic to verify. In the model, the citing works arrive as the `citations` parameter of `AnalyzePaper`.
- The `scholarly` library calls, the profile-URL regex, `driver.get`, `time.sleep`, the citation URL, the `tqdm` progress display (main.py:118) and all printing (main.py:73-92, 106-116, 128-144) are network and console code. The paper's author string and `num_citations` become parameters.
- The `break` at main.py:126 means only the first publication is analysed. The model tallies one paper and has no multi-paper aggregation. The `results` dictionary keyed by title is not modelled for the same reason.
- Exception handling is left out. The `try` in `get_citations_from_page` (main.py:48-66) swallows fetch errors. The `except Exception` at main.py:141-144 catches every error raised in `analyze_citations`, prints it and skips printing all results. Such errors include the `AttributeError` from `.group(1)` (main.py:74) when the URL has no `user=`, and a `KeyError` for a missing `"bib"`/`"author"` (main.py:93-94) or `"cites_id"` (main.py:108). None of these comes from the modelled functions: they are total and cannot fail on any string input.
- Unicode: `str.strip`, `str.lower` and the regex class `\w` are modelled on ASCII only. Non-ASCII letters count as non-word characters, and non-ASCII whitespace is not stripped. Case mappings that change a string's length are not modelled.
- Text.LowerSpec: states the ASCII case mapping only, because the Unicode tables behind `str.lower` are not modelled.
