# Mini semantic search, modelled in Dafny

This is a Dafny model of the deterministic core of `main.py`, a command-line
semantic search tool. The tool loads a corpus with one passage per line and
embeds the passages with a sentence-embedding model. It then answers typed
queries with the `top_k` passages whose cosine similarity to the query is
highest. The model covers the three parts of that script that are plain logic:

- **Corpus loading** (`load_lines`, module `Corpus`). The file text is split
  into lines and each line is stripped. Blank lines are skipped, and each kept
  line becomes a `Doc` whose id is the number of documents kept before it. A
  corpus with no kept line is an error. `LoadLines` is a loop over the lines,
  proved against the specification function `Texts`.
- **Result building in `search`** (module `Ranker`). `top_k` is clamped to
  the corpus size. The clamped count of positions with the highest scores is
  selected in non-increasing score order, and each position is mapped back to
  its document. Scores are an input: one exact number per document.
- **The query loop** (module `Shell`). Each input line is stripped. A blank
  line re-prompts, `q` in either case quits, and anything else is searched for.
  `Session` runs the loop over a given sequence of input lines.

Module `Text` gives the two Python string operations these rely on:
`str.strip()`, with Python's `str.isspace()` character set, and
`str.splitlines()`, with Python's line-boundary set and `"\r\n"` counted as
one boundary.

Ties among equal scores: `torch.topk` (main.py:39) gives no order among
equal scores, so callers must not rely on one. `IsTopK` admits every valid
order of ties. `TopKScoresUnique` proves that the list of returned scores is
the same whichever order is chosen.

## Model

| member | source | states |
|---|---|---|
| `Text.Strip` | main.py:18 | `str.strip()`: the result is no longer than the line; StripSpec and StripSlice state which characters it keeps |
| `Text.StripSpec` | main.py:18 | a stripped line is empty exactly when the line is all whitespace; otherwise it starts and ends with a non-space character |
| `Text.StripSlice` | main.py:18 | strip keeps one contiguous slice of the line, and only whitespace lies outside that slice |
| `Text.StripUnique` | main.py:18 | whitespace + trimmed middle + whitespace strips to the middle: strip is the unique such cut |
| `Text.StripIdempotent` | main.py:18 | stripping twice equals stripping once |
| `Text.StripPadding` | main.py:70 | whitespace added around a string does not change what strip returns |
| `Text.SplitLines` | main.py:17 | `str.splitlines()`: the empty text has no lines, and any other text has at least one; SplitJoin states what the lines are |
| `Text.SplitLinesNoBreaks` | main.py:17 | no line returned by splitlines contains a line boundary |
| `Text.SplitJoin` | main.py:17 | splitlines gives back boundary-free lines written out with any separators ("\r\n" or one boundary character, a lone "\r" not followed by "\n"), plus a final line with no boundary after it |
| `Text.SplitExample` | main.py:17 | "\r\n" is one boundary, and a final boundary adds no empty line |
| `Corpus.Texts` | main.py:18-20 | every kept text is non-empty, and no more texts are kept than there are lines |
| `Corpus.LoadLines` | main.py:14-23 | raises the empty-corpus error exactly when every line is whitespace-only; otherwise returns a non-empty list whose j-th document is `Doc(j, j-th stripped non-blank line)` |
| `Corpus.TextsEmpty` | main.py:19-22 | nothing is kept exactly when every line is blank |
| `Corpus.TextAt` | main.py:17-20 | no non-blank line is lost: line i stripped is the document whose id is the number of non-blank lines before i |
| `Corpus.TextOrder` | main.py:17-20 | ids follow file order: a non-blank line gets a smaller id than every kept line after it |
| `Corpus.TextOrigin` | main.py:17-20 | nothing is invented: each document comes from a non-blank line, at the id given by that line's position |
| `Corpus.TextsTrimmed` | main.py:18-20 | every document text is already stripped |
| `Corpus.TextsExample` | main.py:17-20 | a blank line and padding are dropped, and the kept lines keep their order |
| `Ranker.EffectiveK` | main.py:38 | the clamped count is the minimum of `top_k` and the number of documents |
| `Ranker.TopK` | main.py:39 | returns exactly k distinct in-range positions in non-increasing score order; no position left out scores higher than a chosen one; each value is its position's score |
| `Ranker.Search` | main.py:37-43 | returns `min(top_k, len(docs))` results in non-increasing score order; each pairs a selected position's score with `docs` at that position, and the positions form a valid top-k selection |
| `Ranker.Dominates` | main.py:39 | at each rank, a valid selection's score is at most that of any other valid selection |
| `Ranker.TopKScoresUnique` | main.py:39 | any two valid top-k selections list the same scores in the same order, whatever the tie order |
| `Ranker.TieExample` | main.py:39 | with two equal top scores, a top-1 answer may name either of them but never the lower-scored document |
| `Shell.Lower` | main.py:76 | `str.lower()` on ASCII letters: same length, each letter lowercased and every other character unchanged |
| `Shell.Classify` | main.py:70-78 | what the loop does with one input line; a query is non-empty and no longer than its line (ClassifySpec states the full case split) |
| `Shell.ClassifySpec` | main.py:70-78 | a whitespace-only line re-prompts; "q" or "Q" with any padding quits; any other line becomes a query equal to its stripped form |
| `Shell.QueryStable` | main.py:70-80 | classifying a query's text again gives the same query |
| `Shell.ClassifyIgnoresPadding` | main.py:70 | whitespace around an input line never changes its classification |
| `Shell.Issued` | main.py:68-80 | the queries the loop searches for, given its input lines; there are never more queries than lines |
| `Shell.Session` | main.py:68-80 | the queries searched for are exactly those of `Issued`: the stripped non-blank lines before the first quit, in order |
| `Shell.IssuedAreQueries` | main.py:74-80 | every query passed to search is non-empty, already stripped, and neither "q" nor "Q" |
| `Shell.IssuedAt` | main.py:68-80 | no query is dropped: a query line with no quit before it is searched for, right after the queries of the lines before it |
| `Shell.IssuedOrigin` | main.py:68-80 | nothing is searched for that was not typed: the n-th search is a query line with no quit before it, preceded by lines that issued n searches |
| `Shell.IssuedConcat` | main.py:68-80 | lines without a quit add their queries and let the loop carry on with what follows |
| `Shell.QuitEndsSession` | main.py:76-78 | once a quit line has been read, later input lines have no effect |

## Left out

- Embedding (`SentenceTransformer`, `model.encode`, main.py:27, 36, 62) and `util.cos_sim` (main.py:37) are a foreign model and floating-point library code. The scores reach `Search` as an input sequence, one per document.
- Scores are exact reals. Floating-point rounding, NaN, and the unit-norm guarantee of `normalize_embeddings=True` are not modelled, so no score range is claimed.
- Order among equal scores is not asserted, because `torch.topk` does not promise one. `TopK` picks the first of equal maxima, but no contract relies on that.
- A query vector whose dimension differs from the corpus vectors would make the torch call fail. That path is part of the embedding code, which is not modelled.
- File I/O: `path.read_text` with UTF-8 decoding, the existence check and `sys.exit(1)` (main.py:17, 53-56). `LoadLines` takes the decoded file contents as a string. Universal-newline translation in `read_text` does not change the result of `splitlines`, so it is not modelled separately.
- Negative `top_k` makes `torch.topk` raise. The model takes `top_k` as a `nat`.
- `torch.topk` requires `k <= len(scores)`. `Search` always passes the clamped count, and `TopK` states that requirement as its precondition.
- `Lower` lowercases ASCII letters only. For the comparison with "q" at main.py:76 this is exact, because no other character lowercases to "q".
- `argparse` options, the progress, farewell and result printing with 4-decimal scores (main.py:46-51, 58-67, 81-83) are user-interface output.
- `EOFError` and `KeyboardInterrupt` (main.py:71-73) both end the loop. `Session` models them as the end of its input sequence.
