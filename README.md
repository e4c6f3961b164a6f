# RepoToText: path selection and snapshot serialisation

This project models the core of `repototext`. The tool walks a repository and
picks files by a fixed inclusion rule. It then writes one text snapshot: one
delimited block per picked file, in walk order, followed by a block holding the
output of the `tree` command.

The model has five modules:

- `Wrappers` (`wrappers.dfy`): `Option`, with `UnwrapOr` for Rust's `unwrap_or`.
- `Strings` (`strings.dfy`): `Contains`, `StartsWith` and `EndsWith` as Rust's `str` methods define them. `Contains` is recursive. `ContainsIff` proves that it holds exactly when some occurrence exists.
- `PathFilter` (`path_filter.dfy`): the three constant tables and `is_included`. A path is `Option<string>`, where `None` is a path that is not valid UTF-8.
- `Serializer` (`serializer.dfy`): the output as values. It has the block format, the spec function `Snapshot` for the whole file, and its partners:
  - `ParseBlock` is the inverse of the block format.
  - `Selection` / `ConcatBlocks` give a second, independent reading of the file part.
  - `FirstLine` is used to state the header line.
- `RepoToText` (`repo_to_text.dfy`): the imperative part of `main`. `OutputFile` is the output stream, and each `writeln!` call is `WriteLine`. `Run` is the loop over the walked entries plus the tree block. Its contract is `text == Snapshot(pkg, entries, tree)`.

Exclusion is plain substring containment; the code has no layered rules and
no glob matching. `"*.log"` is literal text, not a glob.

## Model

| member | source | states |
|---|---|---|
| `Strings.ContainsIff` | src/main.rs:104-106 | `str::contains` as modelled holds exactly when the pattern occurs at some index of the text. |
| `PathFilter.ContainsAnyIff` | src/main.rs:104-106 | `iter().any(contains)` over a table holds exactly when some entry of the table is contained in the text. |
| `PathFilter.IsIncludedIff` | src/main.rs:100-116 | With every table written out: a path is accepted iff it contains none of `node_modules/`, `.git/`, `.DS_Store`, `dist/`, `build/`, `*.log` and either contains `package.json`, `../../README.md` or `README.md`, or ends with `.ts` or `.tsx`. |
| `PathFilter.EndsWithAnyIff` | src/main.rs:115 | `iter().any(ends_with)` over a table holds exactly when the text ends with some entry of the table. |
| `PathFilter.ExclusionWins` | src/main.rs:104-109 | A path whose text contains any exclusion literal is rejected, whatever include marker or extension it also has. |
| `PathFilter.NonUtf8Rejected` | src/main.rs:101 | A path that is not valid UTF-8 is tested as `""` and is always rejected. |
| `PathFilter.RunLogNotExcludedButRejected` | src/main.rs:8-17 | `run.log` is not excluded, because `*.log` is literal text. It is rejected only because it has no marker and no `.ts`/`.tsx` ending. |
| `PathFilter.LogNameWithTsAccepted` | src/main.rs:104-115 | `src/a.log.ts` is accepted. A `.log` inside a name does not exclude it. |
| `PathFilter.LiteralStarLogExcluded` | src/main.rs:14 | `src/*.log.ts` holds the literal text `*.log`, so it is excluded and rejected even though it ends in `.ts`. |
| `PathFilter.RelativeReadmeMarkerRedundant` | src/main.rs:16 | The marker test gives the same answer without `../../README.md`: any text containing it also contains `README.md`. |
| `PathFilter.ExampleRepository` | src/main.rs:100-116 | In a walk from `repo`: `src/app.ts` and `README.md` are accepted; `node_modules/lib.js` and a README under `node_modules/` are rejected. |
| `Serializer.SelectionMembers` | src/main.rs:56-62 | An entry gets a block iff it was walked, passes `is_included` and is a regular file. |
| `Serializer.SelectionAppend` | src/main.rs:56-60 | Selection keeps walk order: selecting a concatenated walk gives the two selections concatenated. |
| `Serializer.FileBlocksAreSelectionBlocks` | src/main.rs:56-80 | The file part of the output is the blocks of the selected entries, one after another, in walk order. |
| `Serializer.FileBlocksAppend` | src/main.rs:56-80 | The file part of a concatenated walk is the two file parts concatenated. |
| `Serializer.SkippedEntryContributesNothing` | src/main.rs:59-62 | An entry that fails `is_included` or is not a regular file leaves the output unchanged, wherever it sits in the walk and whatever the tree step gave. |
| `Serializer.SnapshotLayout` | src/main.rs:56-94 | The output is the selected file blocks in walk order followed by the tree section. When `tree` could not be run (`None`) there is no tree block. When it ran, even with empty output, the file ends with the tree block. |
| `Serializer.BlockRoundTrip` | src/main.rs:66-78 | The body parsed back from a block is its content unchanged. A text parses to a body only when it is exactly the block of that body. |
| `Serializer.FileBlockRoundTrip` | src/main.rs:66-78 | Between `===== BEGIN pkg/path =====` and `===== END pkg/path =====` a file block holds the file content byte for byte, plus the one newline `writeln!` adds. |
| `Serializer.TreeBlockRoundTrip` | src/main.rs:87-89 | Between `===== BEGIN TREE =====` and `===== END TREE =====` the tree block holds the tree text unchanged. |
| `Serializer.FileBlockHeader` | src/main.rs:66-71 | When pkg and path hold no newline, the first line of a file block is `===== BEGIN <pkg>/<path> =====`. With the default empty package name it is `===== BEGIN /<path> =====`. |
| `Serializer.SelectedPathIsText` | src/main.rs:59-70 | Every path named in a block is valid UTF-8, so its `display()` is its text. |
| `RepoToText.OutputFile.constructor` | src/main.rs:53 | `File::create` gives an empty output. |
| `RepoToText.OutputFile.WriteLine` | src/main.rs:72 | `writeln!` appends its text and exactly one newline. |
| `RepoToText.Run` | src/main.rs:52-96 | After the walk loop and the tree step, the output file holds exactly `Snapshot(pkg, entries, tree)`. The loop keeps the written text equal to the file blocks of the entries seen so far. |

The exact bytes of each block come from `Serializer.Block` (see `Run`'s
contract): `begin + "\n" + body + "\n" + end + "\n\n" + "\n"`. The end
format string already ends in `\n\n`, and `writeln!` adds one more newline.

## Left out

- Command-line parsing with clap (src/main.rs:21-50) is left out. The package name is a parameter, and `""` is the value `main` uses when none is given.
- The output path and `File::create` failing (src/main.rs:53) are left out. So are the write errors that `?` propagates (src/main.rs:66-89). These are I/O, and the output is modelled as a string that is only appended to.
- `WalkDir` traversal and `filter_map(|e| e.ok())` (src/main.rs:56-58) are left out. The surviving entries are an input sequence in walk order. The filter does not prune descent, so each entry is judged on its own path.
- `path.is_file()` is taken as a flag on each entry. Following symbolic links is part of that flag.
- `read_to_string` (src/main.rs:64) is left out: the content of each entry is given. Its fatal error on unreadable or non-UTF-8 files ends the run early, and the model does not capture this.
- Spawning `tree` and decoding with `from_utf8_lossy` (src/main.rs:83-86) are left out. Their result is an `Option<string>`, where `None` means the command could not be spawned. `eprintln!` (src/main.rs:92) is logging only.
- `Run` always returns (src/main.rs:96), so the model has no error status. The only errors in this code are the I/O errors above.
- `path.display()` of a path that is not valid UTF-8 is left out. No such path passes `is_included`, so none is ever printed (`SelectedPathIsText`).
