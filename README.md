# DevTools GRD generator: a verified model

The DevTools front-end is packed into the browser as GRIT resources.
`scripts/build/generate_devtools_grd.py` writes the GRIT resource file (`.grd`).
It reads a list of relative file paths. It starts from a fixed template that holds one
`<include>`: the compressed protocol JSON. It then appends one `<include>` per file to
the template's `<includes>` node. Each new include carries:

- `file`: the path, or the path plus `.compressed` when compression is on and the file's
  extension is one of `.css .html .js .svg .json .md`;
- `name`: the path with `/`, `\`, `-` and `.` turned into `_`, upper-cased;
- `resource_path`: the path itself;
- `type="BINDATA"` and `compress="false"`.

A path that occurs twice in the list is an error.

The model has one Dafny module per part of that script:

- `results.dfy` (`Results`): `Option` and `Result`. They stand for Python's missing value and
  its raised exceptions.
- `resource_names.dfy` (`ResourceNames`): `make_name_from_filename`, built from `str.replace`
  and `str.upper`.
- `posix_path.dfy` (`PosixPath`): `os.path.splitext` under POSIX rules, built from `str.rfind`.
  It is checked against an independent description of where an extension starts.
- `arg_parsing.dfy` (`ArgParsing`): `parse_args` and the `ParsedArgs` constructor. This covers
  `list.index` and `list.count`. It covers three kinds of error, in the order they are raised:
  the `ValueError` of a missing flag, the `IndexError` of a flag with nothing after it, and the
  failure to open the file list. Errors from reading or splitting the file list are not modelled (see below).
- `grd.dfy` (`Grd`): the `<includes>` children as a sequence of text nodes and `<include>`
  elements. Each element's attributes are kept in the order they are set. The template's
  children are there too. `GrdDocument` is a class whose `AddFile` method is
  `add_file_to_grd`: it appends to the sequence in place.
- `generator.dfy` (`Generator`): `main`'s loop with its set of written names. It is proved to
  yield the template followed by one indent-and-include pair per file, in input order.
  Otherwise it yields the first repeated name.

The template parses to three children of `<includes>`: the whitespace before the protocol
include, the include itself, and the whitespace before `</includes>`. New children go after
the last of these. `kDevToolsResourcePrefix` (line 12) is declared but never used, so
resource names carry no prefix.

The model follows the generator script as written.

## Model

| member | source | states |
|---|---|---|
| ResourceNames.MakeNamePointwise | scripts/build/generate_devtools_grd.py:56-57 | the name has the file name's length; at each position it holds `_` where the file name has `/`, `\`, `-` or `.`, and the upper-cased character otherwise; no position holds a separator or an ASCII lower-case letter |
| ResourceNames.MakeNameIdempotent | scripts/build/generate_devtools_grd.py:57 | mangling a mangled name gives the same name |
| ResourceNames.SeparatorCollision | scripts/build/generate_devtools_grd.py:57 | two different paths that differ only by a separator versus `_` at one position (`a-b.js`, `a_b.js`) get the same resource name |
| PosixPath.SplitExt | scripts/build/generate_devtools_grd.py:64 | root and extension concatenate back to the path |
| PosixPath.RFindLast | scripts/build/generate_devtools_grd.py:64 | `str.rfind` returns -1 or an index holding the character, with no later occurrence |
| PosixPath.RFindIs | scripts/build/generate_devtools_grd.py:64 | an occurrence with no later occurrence is the one `str.rfind` returns |
| PosixPath.RFindBefore | scripts/build/generate_devtools_grd.py:64 | when the character does not occur from a position on, `str.rfind` returns an earlier position |
| PosixPath.AllDotsIff | scripts/build/generate_devtools_grd.py:64 | splitext's leading-dot skip sees only dots exactly when every character is a dot |
| PosixPath.ExtAt | scripts/build/generate_devtools_grd.py:64 | when a `.` has no later `.` or `/` and a non-dot character precedes it in the final component, the extension is exactly the suffix from that `.` |
| PosixPath.ExtIsDescribed | scripts/build/generate_devtools_grd.py:64 | a non-empty extension always starts at such a `.`, so a leading-dot name like `.bashrc` has none |
| PosixPath.ExtOfAppendedSuffix | scripts/build/generate_devtools_grd.py:64 | only the final extension counts: `p + "." + s` has extension `"." + s` or none |
| ArgParsing.Index | scripts/build/generate_devtools_grd.py:49-50 | `list.index` finds a position exactly when the token occurs, and that position is its first occurrence |
| ArgParsing.Count | scripts/build/generate_devtools_grd.py:52 | `list.count` equals the token's multiplicity and is positive exactly when the token occurs |
| ArgParsing.FirstIsUnique | scripts/build/generate_devtools_grd.py:49-50 | a token has one first occurrence |
| ArgParsing.ParseArgs | scripts/build/generate_devtools_grd.py:44-53 | on success `compress` holds exactly when `--compress` occurs anywhere; both flags occur; the source files are the contents of the named file list |
| ArgParsing.ParseArgsSuccess | scripts/build/generate_devtools_grd.py:49-53 | with both flags present and not last, and the file list readable, parsing yields the tokens right after the first `--file_list` and the first `--output`, that list's files, and the `--compress` switch |
| ArgParsing.ParseArgsErrors | scripts/build/generate_devtools_grd.py:49-50 | a missing `--file_list` is reported first; a missing `--output` is reported when `--file_list` is present |
| ArgParsing.FlagInLastPosition | scripts/build/generate_devtools_grd.py:51-53 | a flag whose only occurrence is the last token makes parsing fail; with `--file_list` last and `--output` present, the missing `--file_list` value is the error reported |
| Grd.NewIncludeKeys | scripts/build/generate_devtools_grd.py:65-75 | a new include's attributes are `file`, `name`, `resource_path`, `type`, `compress`, in the order they are set |
| Grd.NewIncludeValues | scripts/build/generate_devtools_grd.py:67-75 | each attribute of a new include reads back the value it was set to, with `type` `BINDATA` and `compress` `false` |
| Grd.NewIncludeAbsent | scripts/build/generate_devtools_grd.py:65-75 | a new include has no `use_base_dir` and no `skip_in_resource_map` |
| Grd.NewIncludeAttributes | scripts/build/generate_devtools_grd.py:65-75 | the three facts above together |
| Grd.IncludeAttributes | scripts/build/generate_devtools_grd.py:72-75 | whatever the compression choice, the include for a file has `name` = the mangled path, `resource_path` = the path, `type` `BINDATA`, `compress` `false` |
| Grd.ProtocolIncludeHasNoResourcePath | scripts/build/generate_devtools_grd.py:26 | the template's protocol include has no `resource_path` |
| Grd.FileAttributeIff | scripts/build/generate_devtools_grd.py:66-70 | `file` is the path plus `.compressed` exactly when compression is on and the extension is compressible; it is the path unchanged exactly when not |
| Grd.CompressedByExtension | scripts/build/generate_devtools_grd.py:64-68 | with compression on, a path whose final extension (by the independent description) is compressible is packed compressed |
| Grd.SourceMapsNeverCompressed | scripts/build/generate_devtools_grd.py:64-70 | a path ending in `.map` (such as `x.js.map`) is never compressed |
| Grd.GrdDocument.constructor | scripts/build/generate_devtools_grd.py:82 | the parsed template's `<includes>` holds the indent, the protocol include and the closing whitespace |
| Grd.GrdDocument.AddFile | scripts/build/generate_devtools_grd.py:60-76 | the new children are the old ones followed by exactly an indent text node and the file's include; all earlier children, the protocol include among them, are unchanged |
| Generator.IndentedLength | scripts/build/generate_devtools_grd.py:85-90 | two children are appended per include |
| Generator.IndentedAt | scripts/build/generate_devtools_grd.py:85-90 | the k-th include sits at position 2k+1, right after an indent at 2k |
| Generator.EntriesAt | scripts/build/generate_devtools_grd.py:85-90 | for the k-th file, child 2k is the indent and child 2k+1 is that file's include |
| Generator.EntriesSnoc | scripts/build/generate_devtools_grd.py:90 | one more file adds its indent and include at the end |
| Generator.ResourcePathsAppend | scripts/build/generate_devtools_grd.py:85-90 | the resource paths of two child lists in a row are those of the first followed by those of the second |
| Generator.TemplateHasNoResourcePaths | scripts/build/generate_devtools_grd.py:24-27 | the template's `<includes>` carries no resource path |
| Generator.EntryResourcePath | scripts/build/generate_devtools_grd.py:73 | the children added for one file carry that file as their only resource path |
| Generator.EntriesResourcePaths | scripts/build/generate_devtools_grd.py:85-90 | the resource paths of the added includes are the file list, in order |
| Generator.ResourcePathsInOrder | scripts/build/generate_devtools_grd.py:84-90 | the finished `<includes>` holds exactly one include per source file, in input order |
| Generator.DistinctSnoc | scripts/build/generate_devtools_grd.py:87-89 | a name not yet written keeps the written names distinct |
| Generator.NamesIff | scripts/build/generate_devtools_grd.py:84-89 | the set of written names holds exactly the names of the files seen so far |
| Generator.WrittenIsDuplicate | scripts/build/generate_devtools_grd.py:87-88 | a name already in the written set is the first repeated position of the list, which is then not distinct |
| Generator.WriteNew | scripts/build/generate_devtools_grd.py:89 | adding a new name to the written set keeps it equal to the names seen, and those names distinct |
| Generator.DuplicateNotDistinct | scripts/build/generate_devtools_grd.py:87-88 | a list with a repeated position is not distinct |
| Generator.FirstDuplicateUnique | scripts/build/generate_devtools_grd.py:87-88 | the first position whose name was already written is unique |
| Generator.FirstDuplicateExists | scripts/build/generate_devtools_grd.py:87-88 | a list with a repeated name has a first repeated position |
| Generator.AddSourceFiles | scripts/build/generate_devtools_grd.py:84-90 | with distinct names the loop appends exactly the file entries, in input order, after the existing children; otherwise it reports the first repeated name and leaves the children as the old ones plus the entries of the files before it; names are compared as exact strings only |
| Generator.GenerateGrd | scripts/build/generate_devtools_grd.py:79-93 | an argument error is passed on unchanged; with distinct names the result is the output path and the template followed by the file entries in input order; otherwise the error names the file at the first repeated position |

## Left out

- Writing the output file and its XML text (lines 92-93, `doc.toxml`) are I/O and serialisation. `GenerateGrd` returns the output path and the final `<includes>` children instead.
- The template's `<outputs>` and `<release>` wrappers are constant data that no code reads or changes.
- `minidom` parsing is replaced by the template's known `<includes>` children. `getElementsByTagName('includes')[0]` is the only `<includes>` node, so the document is modelled by that node's children.
- Reading the file list (lines 37-38) and `shlex.split` (line 39) are a file read and a foreign tokenizer. They are replaced by a map from readable paths to their already-split tokens. A path not in the map is the constructor's `open` failure. The errors those two steps can raise are not modelled either: a decoding error from `read()` (line 38), and a `ValueError` from `shlex.split` on an unclosed quote or a trailing escape (line 39). Such a file list is either absent from the map, and reported as `FileListUnreadable`, or present with some token list.
- `sys.exit` and the exception message texts are left out. Each exception is an error value naming its cause.
- ResourceNames.MakeNamePointwise: states `str.upper` for ASCII letters only; every other character is left unchanged. Python's full Unicode case mapping is not modelled; it can change the length, as `ß` becomes `SS`. The statement is exact for ASCII file names.
- PosixPath.SplitExt: follows POSIX `os.path.splitext`. On Windows `ntpath` also treats `\` and drive letters as separators; that variant is not modelled.
