# ouch: file-name extensions, path conflicts and format sniffing

This is a Dafny model of the part of the `ouch` compressor that decides what a file is and where output goes:

- **The format catalog.** It is the closed `CompressionFormat` enumeration, plus the table that maps a textual token (`tar`, `tgz`, `bz2`, …) to an `Extension`. An `Extension` is a non-empty stack of formats, outermost first, with its display text. The lists `SUPPORTED_EXTENSIONS` and `SUPPORTED_ALIASES` are part of it.
- **The parsers.**
  - `separate_known_extensions_from_name` peels known tokens off the right of a file name and refuses an archive token that is not the outermost one.
  - `extensions_from_path` is that parser without the stem.
  - `parse_format_flag` reads the dotted value of `--format`.
  - `flatten_compression_formats` and `split_first_compression_format` turn a chain into a pipeline.
  - `build_archive_file_suggestion` inserts an archive extension before the first listed token of a path.
- **The path-conflict logic.**
  - `rename_or_increment_filename` is the rename step: `file.txt` becomes `file_1.txt`, which becomes `file_2.txt`.
  - `rename_for_available_filename` is the search for a free name.
  - `resolve_path_conflict` acts on the four answers: cancel, overwrite, rename and merge.
  - `remove_file_or_dir`.
  - `is_path_stdin`.

  The disk is a `FileSystem` object holding a set of files and a set of directories. The methods change that object in place.
- **The magic-byte sniffer** `try_infer_extension`: a 270-byte buffer, thirteen signature tests, first match wins.

Layout:

| file | module | contents |
|---|---|---|
| `wrappers.dfy` | `Wrappers` | `Option`, `Result` |
| `strings.dfy` | `Strings` | `rsplit_once`, `split`, `trim_matches` and digit parsing, as functions on `seq<char>` with their laws |
| `paths.dfy` | `Paths` | `Path` as a parent and a file name; Rust's `file_stem` and `extension` rules |
| `extension.dfy` | `Extensions` | `src/extension.rs` |
| `fs.dfy` | `Fs` | the path and conflict part of `src/utils/fs.rs` |
| `sniff.dfy` | `Sniff` | `try_infer_extension` of `src/utils/fs.rs` |

How the pieces are modelled:

- **Pure code** (the catalog, `to_extension`, `split_extension_at_end`, `parse_format_flag`, flattening, the rename step, the signature tests) becomes functions with contracts and lemmas.
- **Loops** become methods with `while` loops, proved against a specification function:
  - `separate_known_extensions_from_name` against the recursive `Peel`;
  - `build_archive_file_suggestion` against the first-dot scan `Suggestion`;
  - `rename_for_available_filename` against the iterate `Walk` of the rename step, for the step as written and for the corrected one.
- **Logging.** The parser's log message is reduced to a `warnsStem` flag in its result.
- **The user's answer.** The reply to the overwrite question is a `Result<Decision>` parameter.
- **File reads.** What the first read delivers is a `seq<bv8>` parameter. Whether the file opens is a `bool` parameter.

## Model

| member | source | states |
|---|---|---|
| Extensions.ArchiveFormat | src/extension.rs:112-118 | a format is an archive exactly when it is tar, zip, rar or 7z |
| Extensions.Extension.IsArchive | src/extension.rs:66-69 | an extension is an archive exactly when its outermost format is one |
| Extensions.NewExtension | src/extension.rs:57-63 | the extension holds the given non-empty formats and text; it is an archive exactly when the first format is one |
| Extensions.SupportedTokenIsIn | src/extension.rs:13-31 | the check "listed extension or alias" is membership in `SUPPORTED_EXTENSIONS` or `SUPPORTED_ALIASES` (with rar built in) |
| Extensions.CatalogFormats | src/extension.rs:121-151 | every entry of the table is one format, or tar followed by one non-archive compressor |
| Extensions.ToExtension | src/extension.rs:121-151 | a decoded token keeps the token as display text; only the outermost format can be an archive |
| Extensions.ToExtensionDomain | src/extension.rs:13-31 | the table decodes exactly the listed extensions and aliases, plus `bz3`, `tbz2` and `tbz3` |
| Extensions.ToExtensionSynonyms | src/extension.rs:121-151 | `tgz` is tar+gzip; `bz` and `bz2` are bzip; `tbz` and `tbz2` are tar+bzip |
| Extensions.ToExtensionRefuses | src/extension.rs:121-151 | the match is case-sensitive; `lzip` and the empty token are unknown |
| Extensions.SplitExtensionAtEnd | src/extension.rs:153-160 | a cut is at the last dot: stem + "." + token rebuilds the name, the token is dot-free and known, the stem is not `""`, `.` or `..`; a name without a dot gives nothing |
| Extensions.SplitExtensionAtEndFinds | src/extension.rs:153-160 | conversely, every admissible last-dot cut with a known token is found |
| Extensions.SplitExtensionAtEndRefuses | src/extension.rs:153-160 | a cut with a reserved stem or an unknown token is refused |
| Extensions.Peel | src/extension.rs:201-227 | (body) the specification of the loop: no admissible last-dot cut leaves the name as the stem; a cut with an archive token fails when a further cut is possible to its left; otherwise the token is put in front of what peeling the rest gives |
| Extensions.PeelReconstructs | src/extension.rs:201-227 | the stem followed by the dotted tokens spells the original name |
| Extensions.PeelArchiveOutermost | src/extension.rs:201-227 | in a parsed chain only the outermost extension can be an archive |
| Extensions.PeelStemIsFinal | src/extension.rs:201-227 | nothing more can be peeled from the stem that is left |
| Extensions.PeelFromCatalog | src/extension.rs:201-227 | every extension in the chain is the table's entry for its own text |
| Extensions.PeelFailure | src/extension.rs:204-224 | a failure comes from an archive token that has a further known token to its left, with only non-archive tokens to its right |
| Extensions.SeparateKnownExtensionsFromName | src/extension.rs:194-239 | the loop returns the peeled stem and chain, whether the stem warning is logged, or the misplacement error; a path without a file name comes back unchanged |
| Extensions.ExtensionsFromPath | src/extension.rs:242-244 | succeeds exactly when the separation succeeds, with its chain |
| Extensions.PeelPlainName | src/extension.rs:311-339 | `file`, and even `tar`: a dot-free name is its own stem with an empty chain |
| Extensions.PeelHiddenName | src/extension.rs:311-339 | `.tar`: the part before a single leading dot is empty, so nothing is peeled |
| Extensions.PeelArchiveOnPlainName | src/extension.rs:311-339 | `file.tar` gives stem `file` and the chain of the archive token alone |
| Extensions.PeelCompressorOverArchive | src/extension.rs:311-339 | `file.tar.gz` gives stem `file` and chain [tar, gz] |
| Extensions.PeelCompressorOverHiddenName | src/extension.rs:311-339 | `.tar.gz` gives stem `.tar` and chain [gz] |
| Extensions.PeelArchiveOverToken | src/extension.rs:394-397 | `file.tar.zip` and the like: an archive token with a known token to its left is an error |
| Extensions.PeelErrorPersists | src/extension.rs:394-397 | `file.7z.zst.zip.lz4`: the error survives further compressor tokens on the right |
| Extensions.StemWarns | src/extension.rs:229-236 | (body) the warning condition: the stem with its leading and trailing dots trimmed is a listed extension or alias |
| Extensions.StemWarnsOnToken | src/extension.rs:229-236 | the warning fires when the leftover stem, dots trimmed, is a listed token (`tar`, `.tar`) |
| Extensions.StemQuiet | src/extension.rs:229-236 | an ordinary stem such as `file` draws no warning |
| Extensions.FlattenCompressionFormats | src/extension.rs:253-259 | the pipeline is at least as long as the chain |
| Extensions.FlattenAppend | src/extension.rs:253-259 | flattening maps concatenation of chains to concatenation of pipelines |
| Extensions.FlattenMembers | src/extension.rs:253-259 | a format is in the pipeline exactly when some extension of the chain has it |
| Extensions.SplitFirstCompressionFormat | src/extension.rs:247-251 | the first format followed by the rest is the flattened pipeline; the first is the outermost format of the first extension |
| Extensions.FlattenNoArchive | src/extension.rs:253-259 | catalog extensions with a non-archive outermost format contribute no archive format |
| Extensions.PeelPipelineArchiveFirst | src/extension.rs:299-308 | in the pipeline of a parsed chain, an archive format can only come first |
| Extensions.ToExtensions | src/extension.rs:170-179 | succeeds exactly when every segment is known; then one extension per segment, each the table's entry |
| Extensions.ParseFormatFlag | src/extension.rs:162-189 | succeeds exactly when there is at least one non-empty segment and every segment is known; then one extension per segment, left to right, with the segment as text |
| Extensions.FlagSegments | src/extension.rs:170-172 | (body) the value split at every dot, empty segments dropped |
| Extensions.FlagSegmentsCover | src/extension.rs:170-172 | splitting at dots loses nothing but the dots; every kept segment is non-empty and dot-free |
| Extensions.FlagSegmentsOfJoin | src/extension.rs:170-172 | non-empty dot-free tokens joined with dots split back into the same tokens |
| Extensions.ParseFormatFlagOfJoin | src/extension.rs:343-370 | `tar.gz` and the like decode token by token, left to right |
| Extensions.ParseFormatFlagOnlyDots | src/extension.rs:181-186 | an empty value, or one of dots only, is an error |
| Extensions.ParseFormatFlagIgnoresExtraDots | src/extension.rs:343-370 | leading, trailing and doubled dots do not change the result (`..tar..gz.....` means `tar.gz`) |
| Extensions.Segment | src/extension.rs:276-280 | the text after a dot up to the next dot, or to the end: a dot-free prefix ending at a dot or at the end |
| Extensions.FirstDotFromIsFirst | src/extension.rs:271-290 | the scan stops at the first dot whose segment passes the test, and finds none only if there is none |
| Extensions.SuggestionAt | src/extension.rs:265-293 | the suggestion inserts the archive text right before the first dot followed by a listed token |
| Extensions.NoSuggestion | src/extension.rs:265-293 | without such a dot there is no suggestion |
| Extensions.WalkTurn | src/extension.rs:271-290 | one turn of the loop: a passing segment decides the result; a failing one is passed over |
| Extensions.WalkEnd | src/extension.rs:271-292 | a loop that runs out of dots yields nothing |
| Extensions.SuggestBeforeFirstDot | src/extension.rs:265-293 | the dot-to-dot loop computes the first-dot suggestion, for any segment test |
| Extensions.BuildArchiveFileSuggestion | src/extension.rs:265-293 | with the test "listed extension or alias", the loop gives the suggestion |
| Extensions.SupportedDotInPrefix | src/extension.rs:276-280 | whether a dot inside a prefix starts a listed token does not depend on the dotted text after the prefix |
| Extensions.NoListedDotInStem | src/extension.rs:373-391 | a dot-free name such as `linux` holds no dot that starts a listed token |
| Extensions.NoListedDotAfterUnknown | src/extension.rs:373-391 | appending an unknown token after a dot (`.pkg`, `.info`) keeps it so |
| Extensions.SuggestionAfterPrefix | src/extension.rs:373-391 | after such a prefix, the first listed token gets the text at its dot: `linux.xz.gz.zst`, `linux.pkg.xz.gz.zst`, `linux.pkg.zst` and `linux.pkg.info.zst` give `linux.tar.xz.gz.zst`, `linux.pkg.tar.xz.gz.zst`, `linux.pkg.tar.zst` and `linux.pkg.info.tar.zst` |
| Extensions.NoSuggestionForPrefix | src/extension.rs:373-391 | a name that is such a prefix, such as `linux.png`, gets no suggestion |
| Fs.IsPathStdin | src/utils/fs.rs:18-20 | (body) the path is standard input exactly when it is written as a lone `-` |
| Fs.Incremented | src/utils/fs.rs:80-86 | (body) a stem that splits at its last `_` into a base and an all-digit number gets `base_(number+1)`, the empty number counting as 0; any other stem gets `_1` appended |
| Fs.Numbered | src/utils/fs.rs:80-86 | `base_n` starts with the base followed by `_` |
| Fs.NumberedReadsBack | src/utils/fs.rs:80-86 | `base_n` splits at its last `_` into the base and the digits of n |
| Fs.IncrementedShape | src/utils/fs.rs:80-86 | every new stem is some `base_n` with n at least 1 |
| Fs.IncrementedCounts | src/utils/fs.rs:80-86 | `file_n` becomes `file_(n+1)` |
| Fs.IncrementedFresh | src/utils/fs.rs:80-86 | a stem without `_` gets `_1` |
| Fs.IncrementedEmptyNumber | src/utils/fs.rs:80-86 | `file_` becomes `file_1`: an empty number counts as 0 |
| Fs.IncrementedNotANumber | src/utils/fs.rs:80-86 | `file_v2` becomes `file_v2_1`: a suffix that is not all digits is kept |
| Fs.RenameOrIncrementFilename | src/utils/fs.rs:75-94 | the rename step (corrected, see Findings) keeps the directory; with an extension, the new name keeps it and has the incremented stem |
| Fs.RenameWithoutExtension | src/utils/fs.rs:88-91 | without an extension the new name is the incremented stem |
| Fs.RenameAddsSuffix | src/utils/fs.rs:70-94 | `file.txt` becomes `file_1.txt` |
| Fs.RenameCountsUp | src/utils/fs.rs:70-94 | `file_1.txt` becomes `file_2.txt` |
| Fs.RenameOrIncrementFilenameAsWritten | src/utils/fs.rs:75-94 | the step as written keeps the directory; with an extension, the new name keeps it, and its stem is the stem of the incremented old stem (for `archive.tar.gz`, `archive`; see Findings) |
| Fs.AsWrittenAgrees | src/utils/fs.rs:88-91 | for a stem without an inner dot, the step as written and the corrected step agree |
| Fs.AsWrittenDropsInnerPart | src/utils/fs.rs:88-91 | `archive.tar.gz` becomes `archive.gz` as written, where the corrected step gives `archive.tar_1.gz` |
| Fs.SettledOnward | src/utils/fs.rs:62-68 | once the name is numbered with a settled extension, every step adds one to the number |
| Fs.FreeNumber | src/utils/fs.rs:62-68 | some number from n on gives a path outside any finite set |
| Fs.CountingWalk | src/utils/fs.rs:62-68 | a walk of counting steps reaches `base_(n+i)` i steps after `base_n` |
| Fs.EventuallyAvailable | src/utils/fs.rs:62-68 | whatever the finite set of existing paths, repeated renaming with the corrected step reaches one outside it, so the loop ends |
| Fs.WalkShift | src/utils/fs.rs:62-68 | walking a + b steps is walking a steps and then b more |
| Fs.NumberedKeepsLastDot | src/utils/fs.rs:80-86 | `base_n` keeps the text up to a last dot of the base and adds no dot after it |
| Fs.IncrementedKeepsLastDot | src/utils/fs.rs:80-86 | the incremented stem keeps the text up to the stem's last dot, and has no dot after it |
| Fs.AsWrittenShortensStem | src/utils/fs.rs:88-91 | for a stem with an inner dot, the step as written leaves the stem cut at that last dot, so it gets shorter |
| Fs.LastInnerDot | src/utils/fs.rs:88-91 | a stem with a dot after its first character has a last such dot |
| Fs.StemLength | src/utils/fs.rs:77 | the length of the stem, the measure the step as written shortens |
| Fs.WalkReaches | src/utils/fs.rs:62-68 | a step that shortens a measure wherever a property fails reaches, in some number of steps, a path where it holds |
| Fs.WalksAlike | src/utils/fs.rs:62-68 | two steps that agree on the paths where a property holds, one of which keeps it, walk alike from such a path |
| Fs.AsWrittenShortens | src/utils/fs.rs:88-91 | where the stem has an inner dot, the step as written shortens it |
| Fs.ReachesPlainStem | src/utils/fs.rs:62-68 | some number of steps as written reaches a name whose stem has no inner dot |
| Fs.StepKeepsPlainStem | src/utils/fs.rs:80-91 | from a stem without an inner dot, the corrected step gives another such stem |
| Fs.StepsAgreeOnPlainStems | src/utils/fs.rs:88-91 | on every stem without an inner dot, the two steps agree and the result again has no inner dot |
| Fs.WalksAgree | src/utils/fs.rs:62-68 | from a stem without an inner dot, the walk of the step as written is the walk of the corrected step |
| Fs.WalkThenLeave | src/utils/fs.rs:62-68 | walking to a path where two steps agree, then walking on until the taken set is left, is one walk that leaves it |
| Fs.EventuallyAvailableAsWritten | src/utils/fs.rs:62-68 | whatever the finite set of existing paths, repeated renaming with the step as written reaches one outside it, so the loop as written ends |
| Fs.FileSystem.constructor | src/utils/fs.rs:52-59 | a disk of given files and directories, none both |
| Fs.FileSystem.RemoveFileOrDir | src/utils/fs.rs:52-59 | afterwards the path does not exist and every other path is as before |
| Fs.FileSystem.RenameUntilFree | src/utils/fs.rs:62-68 | the loop, for any step whose walk leaves the disk: the result does not exist, is reached from the path in one or more steps, and every path met before it exists |
| Fs.FileSystem.RenameForAvailableFilenameAsWritten | src/utils/fs.rs:62-68 | the loop with the step as written: the result does not exist, is reached in one or more steps as written, and every path met before it exists |
| Fs.FileSystem.RenameForAvailableFilename | src/utils/fs.rs:62-68 | the same with the corrected step |
| Fs.FileSystem.ResolvePathConflict | src/utils/fs.rs:29-50 | a free path is used as it is; otherwise the answer decides: an error is passed on, cancel gives nothing, overwrite removes the path and reuses it, rename gives the first free path of the walk of the rename step it is given (the program's step is the one as written; both steps come with a bound, by Fs.EventuallyAvailableAsWritten and Fs.EventuallyAvailable), with every path before it existing; merge reuses the path; only overwrite changes the disk |
| Fs.FileSystem.ResolvePathConflictAsWritten | src/utils/fs.rs:29-68 | the resolver as the program runs it, with the step as written and no bound asked of the caller: the same four answers and disk effects, rename giving the first free path of the walk as written |
| Sniff.IsZip | src/utils/fs.rs:121-125 | (body) zip means `PK` followed by 03 04, 05 06 or 07 08 |
| Sniff.IsGz | src/utils/fs.rs:129-131 | (body) gzip means the buffer starts with 1F 8B 08 |
| Sniff.IsBz2 | src/utils/fs.rs:132-134 | (body) bzip2 means the buffer starts with `BZh` |
| Sniff.IsBz3 | src/utils/fs.rs:135-137 | (body) bzip3 means the buffer starts with `BZ3v1` |
| Sniff.IsXz | src/utils/fs.rs:141-143 | (body) xz means the buffer starts with FD `7zXZ` 00 |
| Sniff.IsLzip | src/utils/fs.rs:144-146 | (body) lzip means the buffer starts with `LZIP` |
| Sniff.IsLz4 | src/utils/fs.rs:147-149 | (body) lz4 means the buffer starts with 04 22 4D 18 |
| Sniff.IsSz | src/utils/fs.rs:150-152 | (body) snappy means the buffer starts with the ten-byte stream identifier FF 06 00 00 `sNaPpY` |
| Sniff.IsZst | src/utils/fs.rs:153-155 | (body) zstd means the buffer starts with 28 B5 2F FD |
| Sniff.IsSevenZ | src/utils/fs.rs:164-166 | (body) 7z means the buffer starts with `7z` BC AF 27 1C |
| Sniff.Classify | src/utils/fs.rs:181-210 | (body) the if-chain: the first test that holds, in the order zip, tar, gz, bz2, bz3, lzma, xz, lzip, lz4, sz, zst, rar, 7z, gives its format |
| Sniff.TryInferExtension | src/utils/fs.rs:120-211 | (body) a file that cannot be opened gives nothing; otherwise the 270-byte buffer of the first read is classified |
| Sniff.Buffer | src/utils/fs.rs:168-179 | the buffer holds the delivered bytes, at most 270, then zeros |
| Sniff.ClassifyIsFirstMatch | src/utils/fs.rs:181-210 | the if-chain gives the answer of the first test of the signature table that holds |
| Sniff.ClassifyFirstMatchWins | src/utils/fs.rs:181-210 | the answer is test j's exactly when test j holds and no earlier one does; nothing exactly when no test holds |
| Sniff.AnswersDistinct | src/utils/fs.rs:181-210 | the thirteen answers name thirteen different formats |
| Sniff.ClassifyAnswers | src/utils/fs.rs:181-210 | every answer is a single format, never brotli, displayed with its catalog token, except lzip, whose text `lzip` the catalog does not know |
| Sniff.TarSignature | src/utils/fs.rs:126-128 | tar means `ustar` at offsets 257-261 |
| Sniff.LzmaSignature | src/utils/fs.rs:138-140 | lzma means byte 0 is 0x5D, byte 12 is 0x00 or 0xFF, and byte 13 is 0x00 |
| Sniff.RarSignatures | src/utils/fs.rs:156-163 | rar means the buffer starts with the 7-byte RAR 1.5-4 signature or the 8-byte RAR 5 signature |
| Sniff.ShortReadIsNotTar | src/utils/fs.rs:126-128 | a read that delivers at most 257 bytes is never tar |
| Sniff.ZerosMatchNothing | src/utils/fs.rs:168-210 | a buffer of zeros matches no signature |
| Sniff.NothingReadIsUnknown | src/utils/fs.rs:168-179 | a file that cannot be opened, or whose read delivers nothing, gives no format |
| Sniff.TrailingZerosDoNotMatter | src/utils/fs.rs:168-179 | a delivery followed by zeros is classified like the delivery alone |
| Strings.ParseShowNat | src/utils/fs.rs:82-83 | printing a number and parsing it back gives the number |
| Strings.RSplitOnceAt | src/utils/fs.rs:80 | `rsplit_once` cuts at the last separator |
| Paths.FileStem | src/utils/fs.rs:77 | the stem is a prefix of the file name |
| Paths.FileExtension | src/utils/fs.rs:78 | the extension holds no dot |
| Paths.StemAndExtensionOf | src/utils/fs.rs:76-78 | for `stem.ext` with a non-empty stem and a dot-free extension, the stem and the extension are read back |

## Left out

- **Files and errors.**
  - Opening and reading a file, existence checks, deleting files and directories, and the user prompt are not performed. They become parameters, or the `FileSystem` sets, as described above.
  - I/O errors of removal are not modelled; removal always succeeds.
  - The disk holds only files and directories. `remove_file_or_dir` returns without removing anything for a path that is neither, such as a fifo, a socket or a device, so there the program's overwrite answer hands back a path that still exists. The model cannot represent such a path.
  - The contents of a removed directory are not modelled.
  - The error messages of `FinalError` are not modelled: every error is a plain `Err`.
  - The text of the log message is not modelled; only whether it is logged (`warnsStem`).
- **Race.** The race between the existence check and the action on the disk is not modelled, since the model runs alone.
- **Text encoding.**
  - The model works on `seq<char>`. `OsStr`, byte paths, `to_str` failing on non-UTF-8 names, `to_string_lossy` and `u32` formatting widths are not modelled.
  - `parse_format_flag` rejects a value that is not UTF-8; here every value is text, so that error cannot arise.
  - A path is a parent text and a file name. Joining, `..` and root handling of `std::path` are not modelled beyond `file_stem` and `extension` of the file name.
- **Digits.**
  - Fs.Incremented: `char::is_numeric` accepts every Unicode numeric character (`²`, `½`, `Ⅻ` as well as the digits of other scripts); the model accepts ASCII digits only. For a suffix of such characters that is not ASCII digits, `parse::<u32>` fails and the program gives `base_1`, where the model appends `_1` to the whole stem.
  - Fs.Incremented: `u32` parsing turns a digit string over 4294967295 into 0, and `number + 1` can overflow. The model counts with unbounded numbers.
- **Build option.** RAR support is fixed on: `rar` is in `SUPPORTED_EXTENSIONS` and the rar signature is checked.
- **Operations not modelled.** `create_dir_if_non_existent`, `cd_into_same_dir_as` and `rename_recursively` in src/utils/fs.rs change the process or walk a directory tree, outside this model. `PRETTY_SUPPORTED_EXTENSIONS` is display text only.
- **Rename step.** Fs.FileSystem.ResolvePathConflict takes the rename step as a parameter, with a ghost bound on its walk. Fs.FileSystem.ResolvePathConflictAsWritten fixes it to the program's step as written, and Fs.FileSystem.RenameForAvailableFilenameAsWritten is the program's loop. Fs.FileSystem.RenameForAvailableFilename is the loop with the corrected step (see Findings).
- **Test cases.** The unit tests of src/extension.rs are stated as general lemmas over names of the same shape. Concrete strings are not instantiated.

Differences between the code and the lists it exposes, as modelled:

- `to_extension` decodes `bz3`, `tbz2` and `tbz3`, but none of them is in `SUPPORTED_EXTENSIONS` or `SUPPORTED_ALIASES`. The names `Extensions.UnlistedTokens` and `Extensions.ToExtensionDomain` record this. Two consequences follow:
  - a stem `bz3` draws no warning;
  - `build_archive_file_suggestion` skips such a token.
- `PRETTY_SUPPORTED_EXTENSIONS` does list `bz3`.
- Tar is checked before the compressors, so a gzip stream with `ustar` at offset 257 is reported as tar.
- The sniffer reports lzip with the text `lzip`, which `to_extension` does not decode.
- `is_zip` guards with a length of at least 3 but reads bytes 2 and 3. With a 270-byte buffer the guard is always true either way.
- A failed `read` after a successful open is not checked: `File::open(..).map(read)` is an error only when the open fails. The buffer then stays zeros, so `Sniff.NothingReadIsUnknown` covers this case through `delivered == []`.

## Findings

| source | as written | input that shows it | evidently intended | confidence | as-written member | corrected member |
|---|---|---|---|---|---|---|
| src/utils/fs.rs:88-91 | the new stem is joined to the directory, then `set_extension` replaces everything after the last dot of that name, which for a dotted stem is part of the incremented stem | `archive.tar.gz` becomes `archive.gz` (the stem `archive.tar` is incremented to `archive.tar_1`, then `set_extension("gz")` replaces `tar_1`) | `archive.tar_1.gz`: the incremented stem followed by the old extension, as the doc comment at lines 70-73 describes | not executed | Fs.RenameOrIncrementFilenameAsWritten, Fs.AsWrittenDropsInnerPart, Fs.FileSystem.RenameForAvailableFilenameAsWritten | Fs.RenameOrIncrementFilename, Fs.FileSystem.RenameForAvailableFilename |
