# IdeatorPromptPacks build script, modelled in Dafny

`build.js` rebuilds the catalog of prompt packs. Each pack directory holds a
`manifest.json` and TSV files of prompts. For every TSV file the script does three things:

1. **Normalise.** It drops the old header and blank lines, splits a trailing `(…)` into a
   help column, collapses three or more tab fields into two, capitalises the text and
   regenerates the header.
2. **Validate.** It checks the header and each row's column count.
3. **Alphabetise.** It sorts the data rows of a file that passed validation.

A pack enters the catalog only if it has a manifest and all of its files passed. The
catalog is sorted by id and written only when no file failed anywhere.

This project restates those steps as pure functions over strings, from which the
file-system calls have been removed. It proves what the steps promise.

The modules:

- `Wrappers` (wrappers.dfy) holds the optional value shared by the other modules.
- `Text` (text.dfy) covers `trim`, one-character `split`, `join`, `capitalizeFirst` and the
  case tables.
- `Collation` (collation.dfy) holds the order that stands in for `localeCompare` and the
  sort built on it.
- `Normalizer` (normalizer.dfy) models `normalizeTsvFile`, including the regular expression
  `/^(.*?)[\s]*\(([^)]*)\)$/`.
- `Validator` (validator.dfy) models `validateTsvFormat`.
- `Alphabetizer` (alphabetizer.dfy) models `alphabetizeTsvFile` and `countPrompts`.
- `Pipeline` (pipeline.dfy) states what happens when normalisation, validation and
  alphabetisation run in turn on one file.
- `Catalog` (catalog.dfy) models `getPackInfo` and the decisions of `buildPacksJson`.

Consequences of the code that the proofs make precise:

- **Mixed help is rejected.** A file that mixes lines with help and lines without is
  written with the `text<TAB>help` header. It keeps one-column rows under that header, so
  the validator always rejects it, at the first one-column row
  (`Pipeline.MixedHelpRejected`). A file with no help at all always passes
  (`Pipeline.NoHelpValidates`).
- **`File is empty` is never reported.** Splitting always yields at least one line, so
  empty content fails with `Invalid header: ""` (`Validator.EmptyContentHasInvalidHeader`).
- **Sorting can break a valid file.** A line whose final field is whitespace, once sorted
  last, loses its tab to `trim`. Take `text<TAB>help`, `b<TAB><space>`, `a<TAB>x`: the
  middle line's help is a single space. After sorting, the `b` row comes last, and `trim`
  strips its tab along with the end of the file, leaving one column where two are expected
  (`Alphabetizer.AlphabetizeCanBreakValidity`). Files the normaliser wrote cannot end a
  line in whitespace, so they stay valid (`Pipeline.AlphabetizeNormalized`).

## Model

| member | source | states |
|---|---|---|
| Text.Trim | build.js:31 | the result has no whitespace at either end and is no longer than the input |
| Text.TrimCutsEnds | build.js:31 | the input is the result with a run of whitespace before it and a run after it |
| Text.TrimBlank | build.js:31-32 | `trim` yields the empty string exactly when every character is whitespace, which is when a line counts as blank |
| Text.TrimPadded | build.js:77 | a string with solid ends followed by whitespace trims back to that string; this is how a trailing newline disappears |
| Text.TrimIdempotent | build.js:31 | trimming twice is trimming once |
| Text.Split | build.js:34 | splitting on a character yields at least one field, no field contains the separator, and a string without the separator is its own single field |
| Text.JoinSplit | build.js:34 | joining the fields of a split with the same separator gives back the original string |
| Text.SplitJoin | build.js:69-70 | splitting a join of separator-free parts gives back the parts |
| Text.SplitCount | build.js:77-79 | splitting yields one more field than the separator occurs in the string |
| Text.JoinTerminated | build.js:70 | parts joined with a separator and ending in one split back into the parts plus one empty piece |
| Text.ToUpper | build.js:11 | upper-casing yields at least one character, which is either the character itself or capitals only; lower-case ASCII letters map to their capitals and capitals stay as they are |
| Text.ToLower | build.js:133 | lower-casing keeps the length, maps A-Z to a-z, leaves characters that are not capitals unchanged, and leaves no capital behind |
| Text.CapitalizeFirst | build.js:9-12 | the empty string stays empty; otherwise the first character is replaced by its upper-case form and the rest is kept verbatim |
| Text.CapitalizeIdempotent | build.js:9-12 | capitalising twice is capitalising once |
| Text.CapitalizeKeepsTrimmed | build.js:39 | capitalising a string with non-blank ends keeps both ends non-blank |
| Collation.LocaleLeqTotal | build.js:133 | any two strings are comparable in the collation order |
| Collation.LocaleLeqTransitive | build.js:133 | the collation order is transitive |
| Collation.SortBy | build.js:130-134 | the sorted sequence is a permutation of the input whose keys are in non-decreasing collation order |
| Normalizer.FindMatchLeast | build.js:37 | the scan returns a matching position with no match before it, and returns none exactly when the pattern matches nowhere |
| Normalizer.ParenMatchLeast | build.js:37 | the regular expression fails exactly when no `(` opens a `)`-free group that runs to the line's final `)` with only single-line text before it; on success the groups are cut at the leftmost such `(` |
| Normalizer.ParenMatchPieces | build.js:37-40 | a character absent from the line is absent from both capture groups |
| Normalizer.SingleFieldRow | build.js:35-48 | a tab-free line gets help exactly when the pattern matches; the help is `(` + trimmed inner + `)`, the text is the trimmed, capitalised prefix, and otherwise the text is the capitalised line; the row is normal |
| Normalizer.MultiFieldRowShape | build.js:51-64 | for a line of two or more tab fields, the text is the trimmed, capitalised first field; the help is the remaining fields joined by spaces and trimmed, never empty, and for two fields just the trimmed second field |
| Normalizer.MultiFieldHelp | build.js:54-56 | on a trimmed line with two or more tab fields, the later fields joined by spaces are never blank, so the `help ? … : [text]` fallback never fires |
| Normalizer.NormalizeLine | build.js:34-64 | each non-blank line becomes one normal row: its columns are tab- and newline-free with non-blank ends and are not both empty; tab lines always get help, and tab-free lines get help exactly when the pattern matches |
| Normalizer.NormalizeRowsPerLine | build.js:30-32 | the rows are the non-blank data lines in order, one row per line, each trimmed and passed through the line rule |
| Normalizer.NormalizeRowsNormal | build.js:30-65 | every produced row is normal |
| Normalizer.AnyHelp | build.js:41 | the flag is set exactly when some row has help |
| Normalizer.SerializeShape | build.js:69 | a normal row's line is non-empty, newline-free, ends in non-whitespace, is not blank, and splits on tabs into exactly the row's columns |
| Normalizer.RenderLines | build.js:67-70 | the written content splits on newlines into the header, one line per row, and the empty piece after the final newline |
| Normalizer.RenderTrim | build.js:67-70 | trimming the written content removes exactly its final newline |
| Normalizer.NormalizeLayout | build.js:19-73 | `hasHelp` holds exactly when some row has help; the header is `text<TAB>help` exactly then and `text` otherwise; the output lines are the header, the serialised rows and a final newline; the rows are the non-blank lines after the first, one each, in order |
| Normalizer.Normalize | build.js:19-73 | the written content ends in a newline and begins with `text<TAB>` when help was found and with `text` and a newline otherwise |
| Normalizer.NormalizeIdempotent | build.js:19-73 | normalising the normaliser's own output writes the same content back and reports the same `hasHelp` |
| Normalizer.FirstLineDiscarded | build.js:24-25 | whatever the first line holds, it does not affect the result |
| Validator.Validate | build.js:141-171 | `File is empty` is never reported; a refused header is one outside `text` and `text<TAB>help`; any other refusal names a data line between 2 and the line count; a pass implies an accepted header |
| Validator.CheckRows | build.js:155-168 | a refusal is an empty line or a column count; it names a line from the starting one to the last; an empty-line refusal names a blank line, and a column-count refusal reports the expected count and a different one found |
| Validator.FirstBadLine | build.js:156-168 | every line before the returned index passes the row check, and the line at that index, if any, fails it |
| Validator.CheckRowsFirstFailure | build.js:155-168 | the row loop accepts when no data line fails, and otherwise reports the first failing line: a blank line as an empty line, and anything else as its column count against the expected one |
| Validator.FirstBadLineUnique | build.js:156-168 | a line preceded only by passing lines and failing itself is the first failing line |
| Validator.ValidateIsWellFormed | build.js:141-171 | the validator accepts exactly the content whose trimmed first line is `text` or `text<TAB>help` and whose later lines are non-blank with 1 or 2 tab fields respectively |
| Validator.ValidateReportsFirstFailure | build.js:141-171 | the empty-file error never occurs; a bad header is reported as such; otherwise the first failing data line is reported, and content with none passes |
| Validator.EmptyContentHasInvalidHeader | build.js:143-153 | empty content is refused with `Invalid header: ""` |
| Alphabetizer.CountPrompts | build.js:75-80 | the prompt count is the number of newlines left in the content once trimmed |
| Alphabetizer.MaxZero | build.js:79 | `Math.max(0, x)` is at least `x` and is `0` or `x` |
| Alphabetizer.CountIsDataLines | build.js:75-80 | the prompt count is the number of lines after the header in the trimmed content; blank content counts 0 |
| Alphabetizer.AlphabetizeLines | build.js:120-139 | content of at most one line is left as it is; otherwise the output lines are the original first line, then a permutation of the data lines sorted by their lower-cased first field, then the empty piece after the final newline |
| Alphabetizer.AlphabetizedLines | build.js:120-137 | when every data line ends in non-whitespace, the validator reads the output back as the header followed by the sorted data lines |
| Alphabetizer.AlphabetizeKeepsValid | build.js:120-137 | a valid file whose data lines end in non-whitespace stays valid when sorted and keeps its prompt count |
| Alphabetizer.AlphabetizeKeepsWellFormed | build.js:120-137 | a well-formed file whose data lines end in non-whitespace stays well formed when sorted and keeps its number of lines |
| Alphabetizer.RowsPermutedWellFormed | build.js:130-136 | keeping the header of well-formed content and rearranging its data lines gives well-formed content |
| Alphabetizer.AlphabetizeCanBreakValidity | build.js:122-136 | the valid file `text<TAB>help`, `b<TAB><space>`, `a<TAB>x` becomes invalid once sorted: line 3 has 1 column where 2 are expected |
| Pipeline.FirstPlainRow | build.js:56 | the returned index is the first row without help, or the row count when every row has help |
| Pipeline.RenderedLines | build.js:69-70 | the validator reads written content back as the header followed by one line per row |
| Pipeline.WrittenRowOk | build.js:161-167 | a written row line passes the row check exactly when the row has the number of columns being checked for |
| Pipeline.WrittenFirstBad | build.js:155-168 | in written content the first failing line is the first row without help when the header is `text<TAB>help`; with the `text` header no line fails |
| Pipeline.ValidateRendered | build.js:67-70 | written content with no help always passes; with help it passes exactly when every row has help, and otherwise fails at the first row without help (line number = row index + 2) as 1 column where 2 were expected |
| Pipeline.NoHelpValidates | build.js:195-196 | a file from which normalisation extracts no help always passes validation afterwards |
| Pipeline.AllHelpValidates | build.js:195-196 | a file whose normalised rows all have help passes validation afterwards |
| Pipeline.MixedHelpRejected | build.js:195-196 | normalising a file with at least one row with help and one without gives the `text<TAB>help` header, and the validator refuses the result at the first row without help |
| Pipeline.NormalizedValidIff | build.js:195-196 | normalised content validates exactly when its rows all have help or all lack it |
| Pipeline.CountRendered | build.js:75-79 | the prompt count of written content is its number of rows |
| Pipeline.NormalizedCount | build.js:75-79 | after normalisation a file counts one prompt per non-blank line after its first |
| Pipeline.WrittenRowsEndSolid | build.js:69 | every data line of written content ends in non-whitespace |
| Pipeline.AlphabetizeNormalized | build.js:203-204 | sorting normalised content that validated keeps it valid, with one prompt per row |
| Catalog.BaseName | build.js:105 | the base name followed by `.tsv` is the file name |
| Catalog.TsvNames | build.js:105 | there are no more names than files; every name followed by `.tsv` is the name of a file in the pack, and every TSV file's base name is listed |
| Catalog.TsvNamesAppend | build.js:105 | the names follow the listing order: those of a front part of the listing come before those of the rest |
| Catalog.TsvNamesSingle | build.js:105 | a single TSV file contributes exactly its base name, and any other file nothing |
| Catalog.ProcessFile | build.js:193-205 | the verdict is never `File is empty`; a file that passed is left valid with one prompt per row normalisation produced; a refused file is left in a state the normaliser maps to the same result, and the validator refuses it again for the same reason |
| Catalog.ProcessEntry | build.js:192-206 | processing a file keeps its name |
| Catalog.ProcessEntries | build.js:192-206 | the files are processed one by one in listing order, each on its own |
| Catalog.PackInfo | build.js:82-118 | a description exists exactly when the pack has a manifest; its version and author are never empty and its categories are in collation order |
| Catalog.SortedLabels | build.js:103-106 | the categories are a permutation of the labels in non-decreasing collation order |
| Catalog.LoopDirs | build.js:184-219 | every directory is rewritten by its own file loop, in directory order |
| Catalog.SortedById | build.js:226-227 | the packs are permuted into non-decreasing id order |
| Catalog.Build | build.js:173-234 | every directory is rewritten under its own name and manifest; the catalog is written exactly when no refusal was reported, and it is sorted by id |
| Catalog.FileErrorsEmptyIff | build.js:192-206 | a pack reports no refusal exactly when every one of its TSV files validates after normalisation |
| Catalog.LoopErrorsEmptyIff | build.js:184-219 | the pack loop reports no refusal exactly when no pack reports one |
| Catalog.BuildWritesIffAllValid | build.js:221-230 | the catalog is written exactly when every TSV file of every pack validates after normalisation |
| Catalog.PackStepDecision | build.js:208-216 | a pack is pushed exactly when it has a manifest and all its files validate, and it is described from its rewritten files |
| Catalog.MissingManifestSkipped | build.js:85-88 | a pack without a manifest is never pushed, and it reports a refusal only when one of its files fails |
| Catalog.PushedMembers | build.js:210-212 | a value is pushed exactly when some pass produced it |
| Catalog.PushedAppend | build.js:184-219 | the values pushed over two runs of passes are the first run's followed by the second's, so pushing keeps listing order |
| Catalog.PushedSingle | build.js:210-212 | one pass pushes its value exactly once, or nothing |
| Catalog.PushedPacks | build.js:184-219 | the pushed packs are exactly those the individual passes produce |
| Catalog.ValidPushedPacks | build.js:208-216 | when every file validates, the pushed packs are the descriptions of the packs that have a manifest |
| Catalog.CatalogSorted | build.js:226-227 | the written catalog is a permutation of the pushed packs in non-decreasing id order |
| Catalog.ValidLoopPacks | build.js:184-219 | when every file validates, the pushed list is the descriptions of the directories with a manifest, one per directory, in listing order |
| Catalog.CatalogIsManifestPacks | build.js:208-227 | a written catalog is a rearrangement of that list, so its length is the number of directories with a manifest |
| Catalog.CatalogContents | build.js:208-227 | a written catalog holds exactly the descriptions of the packs that have a manifest, one entry per such directory |
| Catalog.PromptCountIsRows | build.js:92-100 | in a pack whose files all validate, the prompt total is the number of rows normalisation produced from its TSV files |
| Catalog.PackInfoShape | build.js:103-117 | a listed pack keeps the manifest's id, name and description and counts its rows; its categories are a sorted arrangement of the manifest's labels or, without them, of the TSV base names; a non-empty version or author is kept and a missing or empty one becomes `1.0.0` or `Idea Loom`; the download URL is the packs prefix followed by the id and `/` |
| Catalog.TsvNamesKept | build.js:105 | processing the files leaves the category names taken from file names unchanged |
| Catalog.CategoriesFromFileNames | build.js:103-106 | with no categories in the manifest, files `idea.tsv` and `critique.tsv` give the categories `critique`, `idea` |
| Catalog.NoPacksWritesEmptyCatalog | build.js:221-230 | with no pack directories the empty catalog is written |

## Left out

- File-system access is not modelled. That covers `readFileSync`, `writeFileSync`,
  `readdirSync` and `statSync`. Contents are given as strings, and the pack directories are
  given in listing order, already restricted to directories. Each file's end state is
  returned instead of written.
- `JSON.parse` and `JSON.stringify` are not modelled: the manifest is an already-parsed
  record, and the catalog is the value that would be serialised. A manifest that fails to
  parse stops the real script; that path is not modelled.
- Console output is left out. `process.exit(1)` appears only as the catalog not being
  written.
- Collation.LocaleLeq: locale-sensitive `localeCompare` is replaced by code-point
  lexicographic order. The sort's guarantees rely only on that order being total and
  transitive.
- Collation.SortBy: the result is proved sorted and a permutation. Stability is not stated,
  although JavaScript's sort is stable, so the order among rows with equal keys is not
  pinned down.
- Text.ToUpper: `toUpperCase` is a partial table covering the lower-case letters of
  Latin-1: a-z, the accented letters, y with diaeresis (to U+0178), the micro sign (to
  U+039C) and sharp s, which becomes `SS`. Every other character maps to itself.
- Text.ToLower: `toLowerCase` uses the same partial table and keeps the length. The full
  Unicode mapping can lengthen a string (capital I with dot above).
- Strings are sequences of Unicode scalar values. JavaScript works on UTF-16 code units, so
  `charAt(0)` on a character outside the Basic Multilingual Plane behaves differently in
  JavaScript.
- Catalog.Label: a category with neither `name` nor `id` is not modelled. An empty string
  stands for a missing field.
- Normalizer.Normalize: the `rawLines.length === 0` branch cannot be taken, since splitting
  yields at least one line. It is kept as written and returns the content unchanged with
  `hasHelp` false.

