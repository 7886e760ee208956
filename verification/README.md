# pkg-graph: the installed-package catalog parser

`pkg-graph` asks FreeBSD's `pkg info` for the installed packages and then
asks `pkg info --raw-format json` for each package's direct dependencies.
This project models the part of it that turns the text `pkg info` prints
into `Package` records: `list_packages` and `split_name_version` in
`src/main.rs`, and the `Package` record of `src/package.rs`.

`pkg info` prints one package per line, for example
`foo-1.2.3   some description`. Each line is cut at its first space and at
the first non-space after that space. The part before the spaces is a
`name-version` token, which is split at its last hyphen. The rest of the
line is the description. A line with no space, a line starting with a
space and a line with only spaces after its first space are skipped. A kept
line whose token has no hyphen makes the program panic.

Modules, one per concern:

- `wrappers.dfy` (`Wrappers`): `Option` and `Result`.
- `package.dfy` (`Packages`): the `Package` record. src/package.rs declares
  `dependencies` as `Option<Vec<String>>`, but the parser stores
  `Vec::new()` in it and the dependency fetcher pushes onto it. It is a plain
  sequence here, empty when the parser creates the record.
- `text.dfy` (`Text`): the string primitives the parser uses. These are the
  scan for a space and for a non-space, `str::rfind` and `str::split('\n')`.
  The split comes with its round trip against `Join`.
- `catalog.dfy` (`Catalog`): `SplitNameVersion`, and the per-line split as a
  function (`ClassifyLine`, `ParseLine`). `ParseCatalog` is the whole-catalog
  function. `ScanLine` is the character loop as a method, and `ListPackages`
  is the line loop as a method; both are proved against those functions.
- `byte_slicing.dfy` (`ByteSlicing`): the same line parser as the program
  really cuts the text. The scan counts characters and the slices use those
  counts as byte offsets (see Findings).

The process panic at `src/main.rs:60` is modelled as the result
`Failure(NoHyphenInToken(token))`. Lines are handled in order, so the first
such line decides the outcome. The `assert!(space_end > space_start)` at
`src/main.rs:58` is an `assert` in `ListPackages`, and the verifier proves it
never fails.

Only the space character `' '` separates the token from the description; a
tab does not (src/main.rs:40, 44).

## Model

| member | source | states |
|---|---|---|
| Text.FindFrom | src/main.rs:38-43 | The first index holding the character, at or after a start. It is `None` exactly when no later index holds it, and no index before the result holds it. |
| Text.FindOtherFrom | src/main.rs:44-47 | The first index at or after a start holding a different character. It is `None` exactly when every later index holds the given character. |
| Text.LastIndexOf | src/main.rs:75-78 | `rfind`: `None` exactly when the character is absent. Otherwise the index holds it and no later index does. |
| Text.Split | src/main.rs:33 | `split('\n')` gives at least one piece, and no piece contains the separator. |
| Text.JoinSplit | src/main.rs:33 | Joining the pieces of a split with the separator gives back the original text. |
| Text.SplitJoin | src/main.rs:33 | Splitting a join of separator-free pieces gives back exactly those pieces. |
| Catalog.SplitNameVersion | src/main.rs:74-81 | `None` exactly when the token has no hyphen. Otherwise `name + "-" + version` is the token and the version has no hyphen. |
| Catalog.SplitNameVersionUnique | src/main.rs:75-80 | Any split into a name, a hyphen and a hyphen-free version is the one returned: the cut is at the last hyphen. |
| Catalog.ScanLine | src/main.rs:34-49 | The character loop gives the first space, and the first non-space after that space (`None` if either is missing). |
| Catalog.ClassifyLine | src/main.rs:34-56 | For a kept line, `0 < spaceStart < spaceEnd < \|line\|`. The token has no space, everything from `spaceStart` up to `spaceEnd` is a space, and `line[spaceEnd]` is not. |
| Catalog.ClassifyLineKeeps | src/main.rs:51-53 | A line is kept if and only if it does not start with a space and some non-space follows some space. Every other line has no space, starts with one, or has only spaces after its first space. |
| Catalog.ClassifyLineUnique | src/main.rs:38-53 | A space-free token, then spaces, then a description starting with a non-space: the line is cut exactly at those two points. |
| Catalog.ParseLine | src/main.rs:51-68 | One line gives a panic exactly when it is kept and its token has no hyphen. It gives nothing exactly when it is skipped. Otherwise it gives a package whose name, hyphen and version make the token, whose description is the rest after the spaces, and whose dependency list is empty. |
| Catalog.LineReconstructs | src/main.rs:60-61 | The package a line gives, joined as name, hyphen, version, a run of spaces and description, is exactly the line. |
| Catalog.ParseFormatLine | src/main.rs:55-68 | The inverse: the line printed for a package is parsed back to that package. The name and version must have no space, the version no hyphen, and the description must not start with a space. |
| Catalog.ParseCatalog | src/main.rs:32-71 | The whole line loop as a function: on success at most one package per line, each with an empty dependency list. Its partner lemmas below give the exact packages, order and failure. |
| Catalog.ParseCatalogPackages | src/main.rs:32-71 | On success there is exactly one package per kept line, in input-line order. Each package is the one its line describes, with no dependencies. |
| Catalog.ParseCatalogSucceeds | src/main.rs:32-71 | The catalog parses if and only if no line is kept with a hyphen-free token. |
| Catalog.ParseCatalogFailure | src/main.rs:33-60 | A failure names the token of the first line that panics. |
| Catalog.ParseCatalogAppend | src/main.rs:33-69 | Parsing two blocks of lines is parsing each in turn and concatenating the packages. Line order is kept, and the first panic wins. |
| Catalog.ListPackages | src/main.rs:30-71 | The loop over the lines of the text returns exactly `ParseCatalog` of the split text. |
| ByteSlicing.ByteSlice | src/main.rs:60-61 | `&s[a..b]` on byte offsets. When it does not panic, it returns the characters between two character indices whose byte offsets are `a` and `b`, and the slice has exactly `b - a` bytes. |
| ByteSlicing.ByteSliceAt | src/main.rs:60-61 | The converse: when `a` and `b` are the byte offsets of character indices `i <= j`, the slice does not panic and returns `s[i..j]`. Together with `ByteSlice`, it panics exactly when an offset is off a character boundary or past the end, or the range is reversed. |
| ByteSlicing.PrefixSlice | src/main.rs:60 | `&line[0..b]` panics exactly when `b` is not the byte offset of a character index (or the end). Otherwise it is the characters before that index. |
| ByteSlicing.SuffixSlice | src/main.rs:61 | `&line[a..]` panics exactly when `a` is not the byte offset of a character index (or the end). Otherwise it is the characters from that index to the end. |
| ByteSlicing.ParseLineAsWritten | src/main.rs:37-61 | One line as the program cuts it, with character counts used as byte offsets. It skips exactly the lines `ClassifyLine` skips. It panics on a slice only when the first-space or first-non-space count is not the byte offset of any character, and always when the first-space count is not. A yielded package's `name-version` is the characters before the character whose byte offset is the first-space count, its description is the characters from the one whose byte offset is the first-non-space count, its version has no hyphen and its dependency list is empty. An unwrap panic carries that hyphen-free token. |
| ByteSlicing.AsWrittenAgreesOnAscii | src/main.rs:37-61 | Whenever the token before the first space is ASCII (the description may hold any characters), the byte-offset slicing of the program gives the same package, skip or panic as `ParseLine`. |
| ByteSlicing.AsWrittenPanicsOnWideVersion | src/main.rs:37-61 | On the line `a-é x`, `ParseLine` gives package `a`, version `é`, description `x`. The code as written cuts inside `é` and panics. |

## Findings

| source | as written | input that shows it | evidently intended | confidence | as-written member | corrected member |
|---|---|---|---|---|---|---|
| src/main.rs:37-61 | `i` counts characters of `line.chars()`, but `&line[0..space_start]` and `&line[space_end..]` take it as a byte offset | `a-é x`: the first space is character 3 but byte 4, so the token slice ends inside the two-byte `é` and the slice panics | cut the line at the character positions the scan found, giving name `a`, version `é`, description `x` | not executed; a line whose token is ASCII is proved unaffected, while a non-ASCII character in the token can misplace both cuts, but `pkg` names and versions are normally ASCII | ByteSlicing.AsWrittenPanicsOnWideVersion | Catalog.ParseLine |

## Left out

- Running `pkg info` as a subprocess and its `Err` when the command cannot start (src/main.rs:25-29) are process I/O. `ListPackages` starts from the text the command printed.
- `String::from_utf8_lossy` (src/main.rs:30) is a library decoding of raw bytes. The model starts from decoded characters.
- `retrieve_dependencies` (src/main.rs:84-118) runs a second subprocess and reads its JSON with `serde_json`. That library is not part of this model, and the order in which it lists the `deps` keys belongs to it. So the model never fills the `dependencies` field.
- The printing loop of `main` (src/main.rs:11-21) only produces output.
- src/main.rs has no code that builds, reverses or prints a dependency graph at this version. `main` only prints each package and its direct dependencies (src/main.rs:11-21).
- Catalog.ListPackages: the panic ends the whole process in `list_packages`. Here it ends the loop with a `Failure` result, and nothing after the panicking line is looked at, just as in `list_packages`.
- Catalog.ListPackages: characters are indexed as characters; the byte-offset behaviour of `list_packages` is modelled only in `ByteSlicing`, for one line at a time.
