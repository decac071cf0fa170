# pack.c in Dafny

A model of the data-packing generator `test/pack.c` of the Mongoose
repository. The generator takes a list of files on its command line, with an
optional `-z <command>` filter flag in between, and writes one C source file.
That file declares every input's bytes as a table `v<i>[]`, where `<i>` is
the argument position. Each table ends with one extra zero byte. The output
then holds a `packed_files[]` directory that ends with a NULL sentinel row,
and the two accessors `mg_unlist` and `mg_unpack`.

The model is functional. The file system, the filter process and `stat` are
oracles: `Packer.Env` gives the bytes read from a path, the bytes read from a
command's output, and a path's mtime. The output text is modelled as
structured tokens, not as text:

- `types.dfy` (`Types`): bytes, `Option`, `Result`.
- `decimal.dfy` (`Decimal`): the `%d` rendering used for table names.
- `args.dfy` (`Args`): pass one, the argument scan that carries the current filter.
- `byte_table.dfy` (`ByteTable`): the byte-table encoder. `Encode` is a
  chunk-by-chunk reference definition. `EncodeStream` is the generator's
  `j`/`ascii[12]` loop, proved equal to it.
- `directory.dfy` (`Directory`): pass two as written, its relation to pass one,
  and the corrected directory.
- `accessors.dfy` (`Accessors`): the compiled `packed_files[]`, `mg_unlist` and `mg_unpack`.
- `packer.dfy` (`Packer`): the oracles, acquisition, the whole run (`Pack`),
  and linking the rows to the tables (`Link`). Linking is what the C compiler
  does with `v<i>` and `sizeof(v<i>)`.
- `properties.dfy` (`Properties`): end-to-end properties: the compiled
  directory, the sentinel, the round trip, and where the two passes differ.

The model follows the code as written, including where it departs from its evident intent:

- The `zipped` column is one flag for the whole run: `zip_cmd != NULL` after
  pass one. It is not set per entry.
- A `-z` filter is never cleared.
- A lone `-z` in the last position is read as a file by pass one. A run that
  fails in pass one is modelled like any other failure. Only a run that gets
  through pass one would then have pass two read `argv[argc]`. `Packer.Pack`'s
  precondition excludes just that case.

## Model

| member | source | states |
|---|---|---|
| `Args.ScanFrom` | test/pack.c:52-58 | The final filter is set exactly when a filter was set on entry or some `-z` was obeyed. |
| `Args.ScanEntriesPlaced` | test/pack.c:52-58 | Every file entry keeps its argument position and its own argument as its path, and the positions strictly increase. |
| `Args.ScanDirectivesPlaced` | test/pack.c:52-55 | `-z` is obeyed only when another argument follows it. The obeyed positions hold `-z` and strictly increase. |
| `Args.ScanFilters` | test/pack.c:45-63 | Each file entry is read through the value of the most recent obeyed directive before it, or through no filter when there is none. The filter is never cleared. The final `zip_cmd` is the value of the last directive. |
| `Args.ScanPartition` | test/pack.c:52-55 | Every argument position is exactly one of three things: an obeyed `-z`, that directive's value, or a file entry. A trailing lone `-z` is therefore a file. |
| `Args.ScanObeys` | test/pack.c:52-55 | Conversely, a `-z` that has a following argument and is not itself the value of the directive just before it is obeyed. With `ScanPartition` this fixes which positions are read as files. |
| `Args.Command` | test/pack.c:62 | The `popen` command is a prefix of `"<filter> <path>"` with fewer than 2048 characters. It is the whole string when that string fits, and exactly 2047 characters when it does not. |
| `Packer.Acquire` | test/pack.c:59-69 | An entry with no filter is read from its path; a filtered entry is read from the filter command. The read fails exactly when the oracle's `fopen`/`popen` fails. On success the bytes are the oracle's answer: `readFile(path)` without a filter, `runFilter(command)` with one. The failure names the command when a filter is set, and the path otherwise. |
| `Packer.Tables` | test/pack.c:52-86 | On success there is one table per entry, in order, with `id` equal to the entry's argument position and body equal to `Encode` of the entry's bytes. Success happens exactly when every entry can be opened. Otherwise the error is the first entry's failure, and every entry before it was read. |
| `Packer.Pack` | test/pack.c:43-109 | A run succeeds exactly when every file entry can be opened. Otherwise it fails with `Cannot open [target]` for the first entry that cannot be opened. Only a successful run whose pass two would read `argv[argc]` is excluded. |
| `Packer.FindTable` | test/pack.c:101 | Resolves `v<id>`. It finds a table exactly when one with that id was declared, and returns a declared table with that id. |
| `Packer.Resolve` | test/pack.c:101 | A row compiles exactly when it is the sentinel or names a declared table. A compiled row's data is that table's literals and its size is their count (`sizeof`). Its name, mtime and zipped flag are the row's. The sentinel row compiles to the sentinel. |
| `Packer.LinkRows` | test/pack.c:101-104 | The compiled directory exists exactly when every row compiles. It then has one compiled row per row, in order. |
| `Packer.PackFixed` | test/pack.c:43-109 | The corrected run fails exactly like `Pack`: at the first file entry that cannot be opened. |
| `Decimal.Show` | test/pack.c:71 | `%d` output is non-empty, all decimal digits, and has no leading zero. |
| `Decimal.ReadShow` | test/pack.c:71 | Reading the printed index back gives the index. |
| `Decimal.ShowInjective` | test/pack.c:71 | Two indices print the same exactly when they are equal. |
| `ByteTable.TableNamesDistinct` | test/pack.c:71 | `v<i>` and `v<j>` are the same identifier exactly when `i == j`. |
| `ByteTable.Shown` | test/pack.c:77 | A comment character is printable (`' '..'~'`) and never a backslash. It equals the byte exactly when the byte is printable and not a backslash; otherwise it is `.`. |
| `ByteTable.EncodeElements` | test/pack.c:71-83 | The table's literals are exactly the stream bytes in order, followed by one `0`. The length is n + 1 and the last element is 0. |
| `ByteTable.EncodeComments` | test/pack.c:72-83 | A stream of n bytes gets (n-1)/12 full 12-character comments (none when n = 0), then one final comment. The final comment has n - 12·((n-1)/12) characters: 1..12 when n > 0, and 0 when n = 0. Read in order, the comments spell the rendering of the whole stream. |
| `ByteTable.EncodeLayout` | test/pack.c:72-83 | Byte m is at token position m + m/12. The comment for chunk c comes right after that chunk's twelfth literal, so before the 13th, 25th, ... byte. The zero literal and the final comment close the table, and the length is n + mid-comments + 2. |
| `ByteTable.EncodeSplit` | test/pack.c:72-83 | The table is the whole chunks of the stream, each with its comment, then the bytes of the last open chunk, the zero literal and that chunk's comment. |
| `ByteTable.EmittedSplit` | test/pack.c:72-79 | After k bytes the loop has written the whole chunks, each closed by its comment, then the literals of the open chunk, and nothing more. |
| `ByteTable.StreamFlush` | test/pack.c:73-78 | When a byte arrives with 12 bytes in the open chunk, the loop writes that chunk's comment from the `ascii` buffer, and the byte becomes the first of a new chunk. |
| `ByteTable.StreamGrow` | test/pack.c:77-78 | A byte that arrives with fewer than 12 bytes in the open chunk adds its literal and its rendering to that chunk, and no comment is written. |
| `ByteTable.EncodeStream` | test/pack.c:72-83 | The generator's loop computes the reference `Encode`. It uses the open-chunk counter `j`, the `ascii` buffer, and flushes a comment when a 13th byte arrives. |
| `Directory.DefinedIff` | test/pack.c:97-101 | Pass two never reads past `argv` exactly when pass one did not take a final lone `-z` as a file. |
| `Directory.RowsFromScan` | test/pack.c:97-103 | Pass two writes one row per pass-one entry, in order: name `"/"+path`, table `v<index>`, the `stat` time of the original path, and the run's zipped flag. It adds one extra row for the last argument exactly when pass one's last directive took that argument as its value. |
| `Directory.PassesAgree` | test/pack.c:52-103 | When every obeyed `-z value` pair is followed by another argument, the two passes give exactly the same positions and paths. |
| `Directory.TrailingPairRow` | test/pack.c:99-101 | When the last argument is the value of the last directive, pass two's last row points at `v<argc-1>`, and that position is no pass-one entry. |
| `Directory.CorrectedRows` | test/pack.c:97-104 | The corrected directory has one row per pass-one entry naming that entry's table and `"/"+path`. Each row is zipped exactly when its entry was filtered. The sentinel comes last. |
| `Accessors.SizeMinusOne` | test/pack.c:36 | `size - 1` in 64-bit `size_t`: the predecessor, or `SIZE_MAX` for 0. |
| `Accessors.Store` | test/pack.c:36-37 | An out-variable is written only through a non-NULL pointer, and then holds the stored value. |
| `Accessors.Unlist` | test/pack.c:28-30 | `mg_unlist(no)` is NULL exactly on the sentinel; otherwise it is row `no`'s name. |
| `Accessors.FirstSentinel` | test/pack.c:34 | The scan stops at the first sentinel, and every row before it is a file row. |
| `Accessors.UnpackFrom` | test/pack.c:32-40 | On a hit, the result is the data of the first row before the sentinel whose name equals the query. Only the non-NULL out-variables are written: `size - 1` and the mtime. On a miss, which happens exactly when no row before the sentinel has that name, the result is NULL and nothing is written. |
| `Properties.LinkAligned` | test/pack.c:101 | A directory whose rows line up with pass one's entries compiles. Row k holds entry k's bytes plus the zero terminator, size n + 1, and the original path's mtime. The sentinel comes last. |
| `Properties.LinkCompiles` | test/pack.c:101-104 | Every row of a directory aligned with pass one's entries names a declared table or is the sentinel, so the directory compiles. |
| `Properties.SentinelEnds` | test/pack.c:104 | The `mg_unpack` scan of such a directory stops after exactly the real rows, and `mg_unlist(number_of_files)` is NULL. |
| `Properties.UnpackAligned` | test/pack.c:32-40 | `mg_unpack(name)` hits exactly the names `"/"+path` of entries. For the first entry with that path, it returns that entry's bytes plus a zero, size n, and the original file's mtime. A miss leaves both out-variables untouched. |
| `Properties.WellFormedRows` | test/pack.c:97-103 | In a run whose passes agree, pass two's rows are exactly pass one's entries plus the sentinel, each flagged with the run's one zipped value. |
| `Properties.WellFormedRun` | test/pack.c:97-104 | A successful run whose passes agree compiles, and the sentinel ends it. Every row's zipped flag is the same: true exactly when pass one obeyed some `-z`. |
| `Properties.RoundTrip` | test/pack.c:32-40 | In a successful run whose passes agree (no `-z value` pair ends `argv`): `mg_unpack("/"+p, &size, &mtime)` for the first entry with path p returns n + 1 bytes. The first n are the bytes read for p, byte n is 0, `size == n`, and `mtime` is p's mtime. |
| `Properties.TrailingPairBreaksLink` | test/pack.c:99-101 | When the value of the last obeyed `-z` is the last argument, the output of a successful run does not compile. |
| `Properties.UnfilteredFileMarkedZipped` | test/pack.c:102 | In a run as written where pass one obeyed some `-z`, every file entry read without a filter still gets a row flagged zipped. |
| `Properties.ZippedExample` | test/pack.c:52-102 | For `pack a.txt -z "gzip -c" b.txt`, `a.txt` is read without a filter and `b.txt` through `gzip -c`, but `a.txt`'s row is flagged zipped. |
| `Properties.FixedRun` | test/pack.c:97-104 | With the corrected directory, every successful run compiles. Each row is flagged zipped exactly when its entry was read through a filter. |
| `Properties.HelloScan` | test/pack.c:52-58 | For `pack hello.txt`, pass one sees one unfiltered entry at position 1 and no `-z`, and pass two stays inside `argv`. |
| `Properties.HelloRun` | test/pack.c:52-104 | `pack hello.txt` with a five-byte file compiles to one row `{"/hello.txt", h e l l o 0, 6, mtime, 0}` and the sentinel. |
| `Properties.HelloExample` | test/pack.c:32-40 | In that run, `mg_unpack("/hello.txt")` gives the five bytes and a zero, size 5 and the mtime. `mg_unpack("/nonexistent", NULL, NULL)` gives NULL. |
| `Properties.LoneFlagFailure` | test/pack.c:52-68 | For `pack missing.txt -z`, pass one takes the final `-z` as a file and pass two would read past `argv`. When `missing.txt` cannot be opened, the run still fails with `Cannot open [missing.txt]`. |
| `Properties.FilterExample` | test/pack.c:52-69 | `pack -z "gzip -c" a.txt` has one entry read through `gzip -c a.txt`. A failure to start that command names the command. |

## Findings

| source | as written | input that shows it | evidently intended | confidence | as-written member | corrected member |
|---|---|---|---|---|---|---|
| test/pack.c:99 | The test `++i + 1 < argc` lets a `-z value` pair whose value is the last argument fall through to the row code. That row points at `v<argc-1>`, which pass one never declared. | `pack a.txt -z "gzip -c"` | Pass two writes rows only for pass one's file entries. | medium, not executed | `Properties.TrailingPairBreaksLink` | `Properties.FixedRun` |
| test/pack.c:102 | `zipped` is `zip_cmd != NULL` after pass one, the same for every row. | `pack a.txt -z "gzip -c" b.txt` marks `a.txt` zipped. | A row is zipped exactly when its file was read through a filter. | medium, not executed | `Properties.UnfilteredFileMarkedZipped` | `Properties.FixedRun` |

`Packer.Pack` models the program as written. `Packer.PackFixed` is the same
run, but its directory comes from `Directory.CorrectedRows`.
`Properties.FixedRun` proves that the corrected run always compiles and gets
the zipped flag right.

## Left out

- File and process I/O (`fopen`, `popen`, `fgetc`, `fclose`, `pclose`) and `stat` are oracles in `Packer.Env`. A read error that `fgetc` reports as EOF is indistinguishable from the end of the stream, so the oracle returns the bytes read.
- The `errno`/`strerror` text of the diagnostic is left out. Only the target it names is kept (`Packer.Failure`).
- Output written to stdout before a fatal failure is not modelled. A failed run is `Err` and has no artifact.
- Exact text layout is not modelled: `printf` padding (`" %3u,"`), the `#include` header lines (test/pack.c:47-50), the struct declaration (test/pack.c:89-95) and the fixed accessor text (test/pack.c:106). Tables and rows are structured values.
- C string-literal escaping is not modelled. A row's name is taken to be `"/" + path`. A path holding `"` or `\` would be read differently by the C compiler.
- `strcmp` is modelled as string equality. A Dafny string that holds `'\0'` stands for no C string, because C would stop at the NUL. Neither `argv` nor the `mg_unpack` query is checked for one.
- Pass two's read of `argv[argc]` (undefined behaviour) is not modelled. `Packer.Pack` requires `Directory.DefinedFrom` only of runs whose every entry was read, because only those reach pass two. `Directory.DefinedIff` says exactly which command lines `DefinedFrom` excludes.
- A failing `stat` leaves `st` uninitialised. The mtime oracle is total instead.
- `mg_unlist` with an index past the sentinel is excluded by its precondition.
- Accessors.SizeMinusOne: models only a 64-bit `size_t`.
- Args.Command: each Dafny `char` stands for one byte of a C argument. Multi-byte characters are not modelled, so `snprintf`'s cut at 2047 bytes is modelled as a cut at 2047 characters.
- The `%lu` formatting of `time_t` is left out. The mtime is an integer.
