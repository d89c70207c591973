# react-source-dump: a verified model of the recovery core

`react-source-dump` takes minified JavaScript bundles that come with a
`<file>.map` source map and recovers readable sources from them. This project
models the two parts of `main.js` that hold its logic, and proves properties
of the model in Dafny.

1. **`handleFile`** (main.js:34-109) works on one minified file.
   - It builds the `sourceContents` object, mapping each source to its
     embedded text or null.
   - If any source has embedded text, it writes every non-null text verbatim
     to `path.join(path.dirname(file), source)`.
   - Otherwise it rebuilds the file from the position mappings. Every column
     of every line is looked up. A column contributes nothing when it is
     unmapped. It contributes the original name when that name is truthy,
     and `minifiedCode.charAt(column)` otherwise. Each line ends with a
     newline.
   - The rebuilt text goes through the formatter, best effort. It is written
     to `<dirname>/<basename without .js>-recovered.js`.
   - Every written path is pushed onto the global `recoveredFiles` list.
2. **`printRecoveredFilesTree`** with its inner `printTree` (main.js:140-171)
   builds the report.
   - It groups the recovered paths into a trie of nested objects, with one
     level per `/`-separated segment. A `null` value marks a file.
   - It renders the trie as `|-- ` / `` `-- `` lines, indented by `|   ` or
     four spaces, down to the maximum depth.

Modules:

- `Wrappers` defines `Option`.
- `Strings` models JavaScript `split` and `join` on one character, and
  occurrence counting.
- `Objects` models plain objects: insertion-ordered keys, where assigning to
  an existing key keeps its place.
- `Paths` models `path.dirname`, `path.basename(p, ext)`, `path.join` and the
  two output-path expressions.
- `Reconstruction` models the per-column rebuild. Loop methods are proved
  against left-recursive specification functions.
- `Recovery` holds the strategy choice and the embedded writes. Its class
  `Recoverer` holds the global `recoveredFiles` and the files on disk, and
  `HandleFile` is its method.
- `FileTree` models trie insertion, the grouping loop and the renderer.

The source-map library, the formatter and the file system are outside the
model:

- `SourceMap.contentFor` and `SourceMap.lookup` (the column query) are
  uninterpreted function parameters.
- The formatter is a parameter that returns `None` when it throws.
- The files on disk are a `map` from path to text.

The fallback character at main.js:85 is `minifiedCode.charAt(column)`: it
indexes the whole file, not the current line. So a nameless mapped column on
a later line copies a character from the start of the file, which can be a
newline, and the rebuilt file does not always have as many lines as the
minified one. The model follows the code:

- `NamelessColumnsCopyFilePrefix` shows that nameless mapped columns copy
  the start of the file.
- `LineCountKept` proves the line count is kept when no line is longer than
  the first and no name holds a newline. These conditions suffice but are
  not necessary: a file with nothing mapped keeps its line count whatever
  its line lengths (`UnmappedFileIsBlankLines`).
- `LongerLaterLineAddsNewline` gives a two-line file whose rebuilt text has
  three newlines.

## Model

| member | source | states |
|---|---|---|
| Strings.Split | main.js:69 | `split('\n')` always yields at least one piece, and no piece contains the separator |
| Strings.JoinSplit | main.js:69 | joining the pieces of a split with the separator gives back the split string |
| Strings.SplitJoin | main.js:142 | splitting a join of separator-free pieces gives back the pieces, so the segments of a path are exactly its `/`-free parts |
| Strings.SplitCount | main.js:69 | a split has exactly one more piece than the string has separators |
| Objects.IndexOfKey | main.js:52 | finds the first property with the key, or reports -1 exactly when no property has it |
| Objects.Assign | main.js:52 | `obj[key] = value` replaces an existing key's value in place and appends a new key last; other properties and all key positions are unchanged |
| Objects.AssignAt | main.js:147 | after an assignment the key is found at its old index, or last when it was new, holding the assigned value |
| Paths.LastIndexOf | main.js:60 | the result is the index of the last separator, or -1 when the path has none |
| Paths.EmbeddedPathInjective | main.js:60 | two sources get the same output path under the same minified file if and only if they are the same source |
| Paths.RecoveredPathInDirectory | main.js:99 | `dir/name.js` is rebuilt into `dir/name-recovered.js`: the trailing `.js` is removed before the suffix is added |
| Paths.RecoveredPathBare | main.js:99 | a bare `name.js` is rebuilt into `name-recovered.js` in the current directory |
| Paths.RecoveredPathOtherExtension | main.js:99 | a base name not ending in `.js` is kept whole, e.g. `dir/app.mjs` becomes `dir/app.mjs-recovered.js` |
| Reconstruction.Reconstructed | main.js:69-90 | the unformatted rebuild is never empty and always ends in a newline |
| Reconstruction.LineColumns | main.js:76-87 | the column loop queries columns 0 .. count-1 of the 1-based line in order; unmapped columns are skipped, and each other column adds its truthy name or the file's character at that column |
| Reconstruction.ReconstructBody | main.js:69-90 | the line loop produces the concatenation, over the pieces of `split('\n')`, of each line's column text followed by one newline |
| Reconstruction.NameRepeatedPerColumn | main.js:82-83 | a named mapping that covers k consecutive columns writes its name k times in a row |
| Reconstruction.NamelessColumnsCopyFilePrefix | main.js:84-85 | nameless mapped columns 0 .. n-1 of any line produce the first n characters of the whole file (fewer when the file is shorter) |
| Reconstruction.UnmappedColumnsEmpty | main.js:80 | columns whose lookup has a null source contribute nothing |
| Reconstruction.UnmappedFileIsBlankLines | main.js:69-90 | when no position is mapped, the rebuild is one newline per line of the minified file |
| Reconstruction.SingleLineRoundTrip | main.js:69-90 | a one-line file, fully mapped without names, is rebuilt as itself followed by a newline |
| Reconstruction.ColumnsHaveNoNewline | main.js:80-86 | a line no longer than the first line contributes no newline, provided no name holds one |
| Reconstruction.LineCountKept | main.js:69-90 | the rebuild has one line per minified line when no line is longer than the first and no name holds a newline |
| Reconstruction.LongerLaterLineAddsNewline | main.js:85 | for `"a\nbc"` fully mapped without names, the rebuild is `"a\na\n\n"`: 3 newlines for 2 lines, because column 1 reads the file's newline |
| Recovery.SourceContents | main.js:51-54 | every property of `sourceContents` holds its own source's embedded text (or null) |
| Recovery.SourceIsKey | main.js:51-54 | every source is a property of `sourceContents` |
| Recovery.KeyIsSource | main.js:51-54 | every property of `sourceContents` is one of the sources |
| Recovery.SourceContentsDistinct | main.js:51-54 | `sourceContents` never holds a key twice, even when `sources` repeats one |
| Recovery.DistinctSourcesKeepOrder | main.js:51-58 | with distinct sources, the properties are exactly the sources in their order |
| Recovery.StrategySelection | main.js:56 | the embedded strategy is chosen if and only if some source has non-null embedded text |
| Recovery.EmbeddedWritesSound | main.js:58-62 | every embedded write is some property's non-null text, verbatim, at that property's output path |
| Recovery.EmbeddedWritesComplete | main.js:58-62 | every property with non-null text is written, with that text, at its output path |
| Recovery.EarlierPathsDiffer | main.js:58-62 | writes for properties with other keys never target a given key's output path |
| Recovery.EmbeddedPathsDistinct | main.js:58-62 | distinct properties are written to pairwise distinct paths |
| Recovery.AppliedHoldsLastWrite | main.js:62 | a path written and not overwritten later holds the written text |
| Recovery.AppliedUntouched | main.js:62 | a path no write targets keeps its previous state |
| Recovery.EmbeddedRoundTrip | main.js:56-65 | after recovery, the output path of every source with embedded text holds exactly that text |
| Recovery.NullSourceSkipped | main.js:59 | under the embedded strategy, a source with null text gets no write, and its path keeps its previous presence and content |
| Recovery.AllEmbeddedInOrder | main.js:58-64 | with distinct sources that all embed text, one file per source is written, in source order, with that source's text |
| Recovery.EmbeddedAllPresent | main.js:58-64 | when every property has text, the writes are the properties in order, one each |
| Recovery.ReconstructionWritesOneFile | main.js:67-103 | without embedded text, exactly one file is written, at the `-recovered.js` path, holding the formatted rebuild |
| Recovery.FormatFailureKeepsRawText | main.js:93-103 | when the formatter fails, the unformatted rebuild, ending in a newline, is written and its path recorded |
| Recovery.Recoverer.constructor | main.js:32 | the tool starts with an empty `recoveredFiles` list and no written files |
| Recovery.Recoverer.WriteFile | main.js:62-64 | one write stores the text at the path and appends the path to `recoveredFiles` |
| Recovery.Recoverer.WriteEmbedded | main.js:58-65 | the embedded loop appends the output paths in property order and leaves the disk as the writes in that order leave it |
| Recovery.Recoverer.HandleFile | main.js:34-109 | a missing or unparsable map writes and records nothing; otherwise `recoveredFiles` grows by exactly the chosen strategy's output paths, in order, and the disk is the old disk updated by those writes |
| FileTree.InsertMakesFile | main.js:145-150 | inserting a path that is absent or already a file leaves its last segment a file (`null`), not a directory; segments on the way are directories |
| FileTree.InsertHas | main.js:145-150 | after a path is inserted, the trie has it |
| FileTree.InsertKeepsHas | main.js:145-150 | inserting a path never loses a path the trie already had; a file entry may turn into a directory, but its key stays |
| FileTree.InsertPresentIsNoop | main.js:146-149 | inserting a path the trie already has changes nothing |
| FileTree.InsertIdempotent | main.js:141-153 | inserting the same path twice gives the same trie as inserting it once |
| FileTree.InsertTopLevelOrder | main.js:146-147 | existing top-level keys keep their positions, and a new first segment becomes the last key |
| FileTree.InsertWellFormed | main.js:146-147 | insertion keeps keys distinct on every level |
| FileTree.GroupedHasAll | main.js:141-153 | every recovered path is in the grouped trie |
| FileTree.RecordingAgainChangesNothing | main.js:141-153 | recording a path a second time leaves the grouped trie unchanged |
| FileTree.GroupedWellFormed | main.js:141-153 | the grouped trie has distinct keys on every level |
| FileTree.GroupFiles | main.js:141-153 | the `reduce` loop builds the left fold of insertions over the paths' `/`-segments; the result is well formed and has every path |
| FileTree.PrintRecoveredFilesTree | main.js:140-171 | the report is the rendering of the grouped trie from the root, with empty indent and depth 0 |
| FileTree.KeyLinePlacement | main.js:158-166 | the line for key k is `KeyLine`: a file gets the indent, the non-final branch marker and its key, even when it is the last key; a directory gets the final marker `` `-- `` when last, the non-final marker otherwise, then `key + "/"`. A directory's subtree follows right after its line, every subtree line starting with `ChildIndent`: four spaces after the last key, a bar and three spaces otherwise |
| FileTree.KeyLinesInOrder | main.js:158 | the keys' lines appear in the keys' insertion order |
| FileTree.EveryKeyPrinted | main.js:156-162 | within the maximum depth, every key of a level gets its line |
| FileTree.RenderIndented | main.js:162-165 | every line printed for a subtree starts with that subtree's indent |
| FileTree.RenderLineCount | main.js:155-167 | at most one line per key is printed, and exactly one per key when the whole trie lies within the maximum depth |
| FileTree.ReportExample | main.js:140-171 | `a/b.js`, `a/c.js`, `d.js` are reported as four lines: `a/`, then `b.js` and `c.js` indented under it, then `d.js`; the directory and the last file both get the non-final branch marker |
| FileTree.ReportLastDirExample | main.js:155-167 | adding `e/f.js` makes the directory `e` the last key: it gets the `` `-- `` marker and its child the four-space indent; with maximum depth 0 only the three top-level lines are printed |

## Left out

- VLQ decoding, JSON parsing of the map and `originalPositionFor` are left out. They belong to the external `source-map` package, so `lookup` and `contentFor` are uninterpreted parameters, and a map that cannot be parsed is the `Unparsable` case.
- `prettier.format` is left out. It is external; the formatter is a parameter, synchronous as in prettier 2, that fails by returning `None`.
- File-system calls (`existsSync`, `readFileSync`, `mkdirSync`, `writeFileSync`) are left out. The minified text and the map are inputs, and a write is a map update. Directory creation and I/O errors are not modelled.
- An exception thrown mid-way through the embedded loop is left out. The code catches it at main.js:106 after some files were already written; the model assumes every write succeeds.
- `handlePath` (main.js:111-138) is left out. It is a directory walk whose `fileCount` counter has no effect. The `main` entry point, yargs option parsing and `console` messages are left out too; `printTree` returns its lines instead of printing them.
- async/await is left out. The calls run one after another, so there is no concurrency to model.
- Paths.Join: `path.join` normalisation is not modelled. `.` and `..` segments, repeated separators and trailing separators are kept as they are. With normalisation, two sources such as `./a.js` and `a.js` would share a path: a later one would overwrite the earlier one's file, and a null one would share the path of a written one. EmbeddedPathInjective, EmbeddedPathsDistinct, EmbeddedRoundTrip and NullSourceSkipped rely on the un-normalised join.
- Paths.Dirname: trailing separators are not stripped before the last segment is taken, unlike Node's `path.dirname`.
- Objects.Assign: JavaScript's ordering of integer-like keys before other keys is not modelled. Keys inherited from the prototype (`constructor`, `__proto__`) are not modelled either.
- FileTree.Insert: the trie is built on values, a rebuilt node per level, instead of by mutating nested objects through a `currentLevel` cursor. No node is ever shared, so the resulting trie is the same.
- FileTree.Insert: paths are split on `/` only, i.e. `path.sep` on POSIX.
- Strings: a Dafny `char` stands for one UTF-16 code unit of a JavaScript string. `line.length`, `charAt` and source-map columns count code units, and a Dafny `char` cannot be a lone surrogate, so text with characters outside the Basic Multilingual Plane (surrogate pairs) is not modelled.
- Paths.RecoveredPathOtherExtension: stated only for a non-empty base name; a path ending in `/` is subject to Node's trailing-separator stripping, which is not modelled (see Paths.Dirname above).
- `react-source-dump.py` is not part of this model. It does HTTP scraping and shells out to `main.js`.
