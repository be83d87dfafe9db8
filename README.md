# LRP Compare: text handling, modelled in Dafny

The dashboard `lrp_contrast.py` lets a user compare Layer-wise Relevance
Propagation maps of two translation models ("baseline" and "augmented")
sentence by sentence. Everything it computes itself, as opposed to handing to
a UI, plotting, pickle or BLEU library, is text handling. This project models
that text handling and proves what it guarantees:

- `desentencepiece` turns SentencePiece output into plain text. It deletes
  every ASCII space, turns each `▁` (U+2581) word-boundary marker into a
  space, and strips whitespace from both ends.
- `tok` splits a string on single spaces to get the heatmap labels.
- `get_src_sents` builds the sentence table. Row `i` has `Id == i` and the
  detokenised source of record `i`.
- `load_ref` detokenises every stripped line of the reference file.
- `gen_plot` builds the two axis-label lists. Each is `tok` of a sentence
  with `'<EOS>'` appended.
- The main block takes the `Id` of the selected table row and uses it,
  without a bounds check, to index the references and both result lists.

Files:

- `pystr.dfy` (module `PyStr`): Python string operations in two groups.
  The dashboard calls three of them: one-character `replace`, `strip()` and
  `split(sep)`. The others are there to define those three or to state
  their properties: `isspace` with Python's exact whitespace set (what
  `strip()` removes), `lstrip` and `rstrip` (which make up `strip()`),
  `count`, `sep.join` (the inverse of `split`) and a character filter.
- `lrp_contrast.dfy` (module `LrpContrast`): the dashboard's own functions
  and the main-block selection.
- `sentencepiece.dfy` (module `SentencePiece`): a reference definition of
  SentencePiece-marked text. It proves that `desentencepiece` followed by
  `tok` recovers the words.

`desentencepiece`, `tok` and the list comprehensions in `get_src_sents`
(line 54) and `load_ref` (line 38) are pure, so they are Dafny functions;
`load_ref`'s file reading is left out. `gen_plot`'s label building appends to a
local list, and the main block assigns `id` and the shown values step by step,
so both are methods.

Python's `str.strip()` removes every character for which `str.isspace()`
holds. That includes tabs, newlines, U+00A0, U+2000–U+200A, U+3000 and the
others listed in `PyStr.IsSpace`, not only the ASCII space. The marker U+2581
is not whitespace. The marker is not simply deleted: the code turns each
marker into a space and deletes the spaces that separate pieces. The model
follows the code.

In `gen_plot`, the list the code calls `xtoks` is built from
`dst` and becomes the y-axis labels, and `ytoks` is built from `src` and
becomes the x-axis labels. The model names the lists `Ticks.y` and `Ticks.x`
after the axis each one labels.

## Model

| member | source | states |
|---|---|---|
| `LrpContrast.Desentencepiece` | lrp_contrast.py:27-28 | the result contains no `▁` and neither starts nor ends with a whitespace character |
| `LrpContrast.DesentencepieceSpaceBound` | lrp_contrast.py:28 | the result has at most as many spaces as the input has `▁` markers, because the input's own spaces are deleted before the markers become spaces |
| `LrpContrast.DesentencepieceKeepsText` | lrp_contrast.py:28 | leaving out whitespace and `▁`, the result has exactly the input's characters in the same order, with none added or dropped |
| `PyStr.ReplaceChar` | lrp_contrast.py:28 | `replace` with a one-character pattern leaves no occurrence of the pattern unless the replacement holds one |
| `PyStr.ReplaceCharSubstitute` | lrp_contrast.py:28 | `replace` by a single character keeps the length, puts that character wherever the pattern was and keeps every other character in place |
| `PyStr.ReplaceCharDelete` | lrp_contrast.py:28 | `replace` by the empty string is exactly the input with every occurrence of the pattern deleted and all other characters kept in order |
| `LrpContrast.UnmarkIsJoin` | lrp_contrast.py:28 | `Unmark`, the two replacements of line 28, exactly: cut the input at its markers, delete the ASCII spaces of each segment, join the segments with single spaces |
| `LrpContrast.UnmarkSpaces` | lrp_contrast.py:28 | after the two replacements there is exactly one space per marker of the input |
| `LrpContrast.DesentencepieceExact` | lrp_contrast.py:28 | for every input, the result is exactly the marker-separated segments with their ASCII spaces deleted, joined by single spaces and stripped, so inner whitespace other than U+0020 is kept |
| `LrpContrast.DesentencepieceIgnoresEdgeSpace` | lrp_contrast.py:28 | stripping the input first gives the same result |
| `LrpContrast.Tok` | lrp_contrast.py:31-32 | the result has one more piece than the input has spaces, no piece contains a space, and joining the pieces with `' '` gives back the input |
| `LrpContrast.TokJoin` | lrp_contrast.py:31-32 | for a non-empty list of space-free pieces, `tok` of their `' '`-join gives back the list |
| `LrpContrast.SrcTexts` | lrp_contrast.py:54 | one entry per record, and entry `i` is the detokenised `src` of record `i` |
| `LrpContrast.Enumerate` | lrp_contrast.py:55 | one row per text, and row `i` pairs `start + i` with text `i` |
| `LrpContrast.SrcSents` | lrp_contrast.py:52-55 | one row per record, and row `i` has `Id == i` and `Sent` equal to the detokenised `src` of record `i` |
| `LrpContrast.RowOfTable` | lrp_contrast.py:53-55 | any row of the table has an `Id` below the number of records, is the row at that index, and shows that record's detokenised source |
| `LrpContrast.LoadRef` | lrp_contrast.py:36-40 | one reference per line, and reference `i` is the detokenised stripped line `i` |
| `LrpContrast.LoadRefIsDetokenised` | lrp_contrast.py:38 | reference `i` equals the detokenised line `i`, so the extra `strip` changes nothing |
| `LrpContrast.AxisLabels` | lrp_contrast.py:62-63 | the labels are `tok(sent)` followed by `'<EOS>'`: there is one more label than there are tokens, the last is `'<EOS>'`, and the others joined with `' '` give back the sentence |
| `LrpContrast.GenPlot` | lrp_contrast.py:58-69 | the y labels are `tok(dst)` then `'<EOS>'`, the x labels are `tok(src)` then `'<EOS>'`, and the lengths are the space counts plus two |
| `LrpContrast.ShowSelection` | lrp_contrast.py:110-152 | nothing is shown exactly when no row is selected; otherwise the first selected row's `Id` is a valid index into the baseline records, the row shows that record's source, and the shown reference, hypotheses and both plots' labels come from index `Id` of the three lists |
| `LrpContrast.EveryRowSelectable` | lrp_contrast.py:114-127 | every table row can be selected without an index error if and only if the reference list and the augmented list are at least as long as the baseline list |
| `SentencePiece.RoundTrip` | lrp_contrast.py:27-32 | for non-empty words cut into pieces of text (a piece may be empty, so a bare marker piece such as `▁ x` is covered), with each word's first piece marked and all pieces joined by spaces, detokenising gives the words joined by single spaces, and `tok` of that gives back the words |
| `PyStr.LStrip` | lrp_contrast.py:28 | the result is a suffix of the input, what was removed is all whitespace, and the result does not start with whitespace |
| `PyStr.RStrip` | lrp_contrast.py:28 | the result is a prefix of the input, what was removed is all whitespace, and the result does not end with whitespace |
| `PyStr.Strip` | lrp_contrast.py:28 | the result neither starts nor ends with whitespace |
| `PyStr.StripParts` | lrp_contrast.py:28 | the input is whitespace, then the stripped result, then whitespace |
| `PyStr.StripSpaceEnds` | lrp_contrast.py:28 | whitespace added at either end does not change the stripped result |
| `PyStr.Split` | lrp_contrast.py:32 | `split(sep)` gives one more piece than there are separators, and no piece contains the separator |
| `PyStr.JoinSplit` | lrp_contrast.py:32 | joining the pieces of a split with the separator gives back the string |
| `PyStr.SplitJoin` | lrp_contrast.py:32 | splitting the join of a non-empty list of separator-free parts gives back the list |

## Left out

- Page layout, headers, columns and all `st.write`/`st.pyplot` output (lrp_contrast.py:77-152): UI rendering with no logic to state.
- The AgGrid table widget and its selection callback (lrp_contrast.py:101-110): a foreign UI library. The selection is an input to `ShowSelection`. Its precondition says that the first selected row is a row of the table built from the baseline records, which is what the widget returns.
- `ShowSelection`: the unchecked indexing is a precondition. An `Id` at or above the length of `refs` or of the augmented list makes the Python code raise `IndexError`, and the model does not represent that crash. `EveryRowSelectable` states exactly when it cannot happen.
- File opening, line iteration and `pickle.load` (lrp_contrast.py:37, 45-50): I/O and deserialisation. The reference file is given as its sequence of lines, newlines included. The result files are given as sequences of records.
- The `inp_lrp` relevance matrix of each record, its shape, the tick positions from `np.arange` and the `imshow` call (lrp_contrast.py:59-61, 65-66, 70): floating-point data and plotting side effects. Only the label lists are modelled. Whether matplotlib gets as many labels as ticks is therefore not modelled.
- `sacrebleu.sentence_bleu` and its scores (lrp_contrast.py:129-130): a foreign call with floating-point results.
- `@st.cache` (lrp_contrast.py:35, 44, 52): memoisation that does not change results.
- The pandas DataFrame (lrp_contrast.py:55): modelled as a sequence of `Row(id, sent)` values.
- `Row.id` is a `nat`. Python would also accept a negative index and count it from the end, but table `Id`s come from `enumerate` and are never negative.
