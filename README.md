# sap_fs `Filesystem` — a Dafny model

`sap::fs::Filesystem` gives file access confined to a root directory. Every operation
takes a path relative to the root. It first runs the path validator: the validator rejects
an empty path, joins the root and the argument, normalises `.` and `..` lexically, and
accepts the result only when its string starts with the root's string. Then the operation
reads, writes, removes, stats or lists the entry on disk.

The model has four modules:

- `Outcomes` (`outcomes.dfy`): the error kinds `InvalidPath`, `PathEscape`, `IOError` and
  `NotADirectory`, and `Result<T> = Success(value) | Error(kind)`. This stands for the
  library's result type, whose message text is dropped.
- `Paths` (`paths.dfy`): the pure part.
  - A path string is split on `/`, resolved piece by piece into a `Path` (a sequence of
    names; `/` is `[]`), and rendered back with `Render`.
  - `Append` is `std::filesystem`'s `operator/` on POSIX: an absolute argument replaces the
    root.
  - `ValidatePath` is the validator, with the textual prefix test exactly as written.
  - `ValidateContained` is the same validator with a component-wise test.
  - `RelativeTo` is the lexically relative form that listings report.
- `Volume` (`volume.dfy`): the disk as a table `map<Path, Node>`, where
  `Node = File(bytes, mtime) | Dir(mtime)`. `WellFormed` says every entry's parent is a
  directory entry. Each storage call is a function from the table before to the outcome:
  create directories, write, remove, set the modification time.
- `SapFs` (`filesystem.dfy`): the class `Filesystem`.
  - `root` is a `const`, so no operation can change it.
  - `tree` is the disk table.
  - The const queries (`Exists`, `Read`, `ReadString`, `Size`, `Mtime`, `Absolute`) are
    functions that read `this`, so they cannot change anything.
  - `Write`, `WriteText`, `Remove`, `SetMtime` and `Mkdir` are methods that modify `this`.
  - `List` and `ListRecursive` are loops that collect into an accumulator and commit only
    on full success. They have no `modifies` clause.

Storage failures are parameters, because the model cannot see the OS:

- `ioFails: bool` for a call that may fail.
- `WriteFault` for the four failure points of a write: creating directories, opening the
  file, a short write after truncation, and bytes lost when the stream's buffer is flushed
  at close. The last is reported as success, because the stream is closed only after the
  function has returned (see Findings).
- `openFails` and `badEntries` for listings: the directory cannot be opened, or some
  entries cannot be made relative.

The clock is the `now` parameter of `Write` and `Mkdir`.

What the validator guarantees, as the code is written:

- The containment test is a character-prefix test on strings. It is not a component-wise
  check.
- A relative path that climbs above the root is not always rejected. `../data/x` under
  root `/data` comes back inside the root and is accepted. A sibling such as
  `../data-other/x` is accepted too (see Findings). What is proved:
  - `AcceptedSharesRoot`: every accepted path matches all of the root's components except
    the last exactly.
  - `AboveRootRejected`: a path that ends above the root is rejected.
  - `InRootAccepted`: a path that never climbs above the root is always accepted.

Reading a directory makes `fs::file_size` (the overload without an error code) throw. The
model returns `IOError`.

## Model

| member | source | states |
|---|---|---|
| `Paths.ValidatePath` | src/fs.cpp:11-27 | The empty path is an `InvalidPath` error. The only errors are `InvalidPath` and `PathEscape`. An accepted path is normalised, and its string starts with the root's string. |
| `Paths.Append` | src/fs.cpp:17 | `root / p`: an absolute `p` replaces the root. Otherwise the result starts with the root's text. |
| `Paths.Normalize` | src/fs.cpp:19 | Lexical normalisation produces only proper names: no empty piece, no `.`, no `..`, no separator. |
| `Paths.NormalizeJoined` | src/fs.cpp:17-19 | Joining a relative argument to the root and normalising is the same as resolving the argument's pieces from the root. |
| `Paths.PrefixCheckMeaning` | src/fs.cpp:21-25 | The textual prefix test holds exactly when the path matches every root component but the last, and the root's last component is a character prefix of the path's component at that position. Both directions are proved. |
| `Paths.ValidateRelative` | src/fs.cpp:13-26 | For a non-empty relative argument, the validator returns the resolved target when that target shares the root as above, and `PathEscape` otherwise. |
| `Paths.AcceptedSharesRoot` | src/fs.cpp:20-26 | Every accepted path is at least as deep as the root and agrees with it on all root components but the last. So a target anywhere else is rejected. |
| `Paths.AboveRootRejected` | src/fs.cpp:23-25 | A relative argument whose target ends above the root fails with `PathEscape`. |
| `Paths.InRootAccepted` | src/fs.cpp:13-26 | A relative argument whose `..` pieces never climb above the root is accepted. It lands inside the root, and the corrected validator gives the same answer. |
| `Paths.TraversalRejected` | src/fs.cpp:17-25 | With root `/sandbox`, `../etc/passwd` fails with `PathEscape`. |
| `Paths.SiblingPassesPrefixCheck` | src/fs.cpp:21-25 | With root `/data`, `../data-other/x` is accepted as `/data-other/x`, which is outside the root. The component-wise check rejects it. |
| `Paths.ValidateContained` | src/fs.cpp:20-26 | The corrected validator: anything it accepts lies inside the root component-wise. |
| `Paths.ContainedNarrowsPrefixCheck` | src/fs.cpp:23-25 | Whatever the corrected validator accepts, the written one accepts with the same result. The written one accepts more only for a sibling whose last component begins with the root's last component. |
| `Paths.AbsoluteEscapes` | src/fs.cpp:233 | `absolute("../etc")` under root `/data` is the plain join `/data/../etc`. It starts with the root's text but normalises to `/etc`, which the validator rejects. |
| `Paths.RelativeRoundTrip` | src/fs.cpp:173-176 | The root-relative form of any entry the validator could reach validates back to that same entry. |
| `Volume.MakeDirsEffect` | src/fs.cpp:220-231 | Creating directories succeeds exactly when no leading part of the path is a regular file. On success every leading part is a directory, existing entries are unchanged, new entries are leading parts only, and the table stays well-formed. |
| `Volume.WriteFileWellFormed` | src/fs.cpp:63-85 | Every outcome of a write, including each fault, leaves a well-formed table. |
| `Volume.WriteRoundTrip` | src/fs.cpp:63-85 | After a successful write with no storage fault, reading the file gives exactly the content and its size is the content's length. Every ancestor is a directory. Every other entry is unchanged. The only new entries are the file and its ancestors. |
| `Volume.WriteSucceedsExactly` | src/fs.cpp:69-80 | Without storage faults, a write succeeds exactly when the target is not `/`, no ancestor is a regular file, and the target is not a directory. |
| `Volume.OverwriteReplaces` | src/fs.cpp:77-83 | A second write to the same file replaces its content and changes nothing else: the file is truncated first. |
| `Volume.RemoveEffect` | src/fs.cpp:92-105 | Removing a missing entry succeeds and leaves the table unchanged. A successful removal deletes exactly that entry, keeps the table well-formed, and a second removal changes nothing. The only refusal is a directory that still has entries. |
| `Volume.SetMtimeRoundTrip` | src/fs.cpp:120-149 | Setting a time succeeds exactly for an existing entry. The time reads back unchanged. Entries and file contents are untouched. |
| `Volume.CloseLosesData` | src/fs.cpp:77-84 | As written, a write whose buffered bytes are lost when the stream closes still reports success. The file then holds only the bytes that reached it, not the content. |
| `Volume.CheckedWriteRoundTrip` | src/fs.cpp:77-84 | The corrected write, `WriteFileChecked`, checks the stream at close. For every fault, a success it reports leaves a well-formed table in which the file reads back exactly as the content. |
| `Volume.WrittenFileIsListed` | src/fs.cpp:170-177 | A file that was just written is a child of its parent and a file under each of its ancestors. |
| `Volume.MissingDirectoryIsEmpty` | src/fs.cpp:162-164 | A missing directory has no children and no descendants. So the early empty answer agrees with the table. |
| `SapFs.BytesOf` | src/fs.cpp:87-88 | Converting text to bytes keeps each character's value, one byte per character. |
| `SapFs.CharsOf` | src/fs.cpp:59-60 | Converting bytes to text keeps each byte's value, with no encoding check. |
| `SapFs.TextBytesRoundTrip` | src/fs.cpp:54-61 | Text to bytes and bytes to text are mutually inverse. |
| `SapFs.Filesystem.constructor` | src/fs.cpp:9 | The root is the one given at construction. The field is `const`, so no method changes it. |
| `SapFs.Filesystem.Absolute` | src/fs.cpp:233 | No validation is done. For a relative argument the result starts with the root's text. When the validator accepts the argument, it accepts exactly this result's normal form. |
| `SapFs.Filesystem.Exists` | src/fs.cpp:29-34 | True exactly when the path validates and the validated path is in the table. Every validation failure gives false. |
| `SapFs.Filesystem.Read` | src/fs.cpp:36-52 | A validation error is passed on with its kind. Any other failure is `IOError`. The read succeeds exactly when there is no fault and the path names a regular file, and it returns all of that file's bytes. |
| `SapFs.Filesystem.ReadString` | src/fs.cpp:54-61 | Succeeds exactly when `Read` succeeds, with the same error kind otherwise. The text's bytes are exactly the bytes read. |
| `SapFs.Filesystem.Size` | src/fs.cpp:107-118 | A validation error is passed on. Any other failure is `IOError`. Succeeds exactly when `Read` would, and returns the number of bytes `Read` returns. |
| `SapFs.Filesystem.Mtime` | src/fs.cpp:120-133 | A validation error is passed on. Any other failure is `IOError`. Succeeds exactly for an existing entry when there is no fault, and returns that entry's stored modification time. |
| `SapFs.Filesystem.Write` | src/fs.cpp:63-85 | On a validation error the table is unchanged. Otherwise the status and new table are those of `WriteFile`. After a success with no fault, `Read` returns the content and `Size` its length. After a success that lost bytes at close, `Read` returns only the bytes that reached the file. After any success, every ancestor is a directory and every other entry is unchanged. |
| `SapFs.Filesystem.WriteText` | src/fs.cpp:87-90 | Same effect as `Write` with the text's bytes. After a success that lost nothing at close, `ReadString` returns the text. |
| `SapFs.Filesystem.Remove` | src/fs.cpp:92-105 | A validation error is passed on with the table unchanged. Otherwise the effect is `RemoveAt` or `IOError`. After success the path does not exist. Removing a missing path succeeds and changes nothing. |
| `SapFs.Filesystem.SetMtime` | src/fs.cpp:135-149 | A validation error is passed on. Otherwise the effect is `SetMtimeAt` or `IOError`. After success `Mtime` returns the time. No file's content changes. |
| `SapFs.Filesystem.Mkdir` | src/fs.cpp:220-231 | A validation error is passed on. Otherwise the effect is `MakeDirs` or `IOError`. After success the path and all its ancestors are directories, and existing entries are unchanged. |
| `SapFs.Filesystem.List` | src/fs.cpp:151-183 | The empty argument (the default) means the root, with no validation. A missing directory gives `[]`. A file gives `NotADirectory`. For a directory, the call succeeds exactly when the directory opens and no child fails relativisation; any failure is `IOError` with nothing returned. On success the result holds the root-relative forms of exactly the children, each once, in some order. An argument with a trailing separator is treated as the same path without it (see Left out). |
| `SapFs.Filesystem.ListRecursive` | src/fs.cpp:185-218 | Same as `List`, but over the regular files anywhere underneath. Directories are never reported. An argument with a trailing separator is treated as the same path without it (see Left out). |

## Findings

| source | as written | input that shows it | evidently intended | confidence | as-written member | corrected member |
|---|---|---|---|---|---|---|
| src/fs.cpp:23 | Containment is a character-prefix test on the path strings. | Root `/data` with path `../data-other/x` is accepted as `/data-other/x`. | Accept only paths whose leading components are the root's components. | high; not executed | `Paths.SiblingPassesPrefixCheck` | `Paths.ValidateContained` |
| src/fs.cpp:77-84 | The `std::ofstream` is flushed and closed by its destructor, after success has been returned. A failure at that point is never checked. | A write whose last buffered bytes cannot be flushed at close (no space left on the device) returns success and leaves a truncated file. | Report an I/O error whenever fewer bytes than the content reach the file. | medium; not executed | `Volume.CloseLosesData` | `Volume.CheckedWriteRoundTrip` |

The class `Filesystem` runs the validator as written, so its operations behave as the
source does, weakness included. `Paths.ContainedNarrowsPrefixCheck` proves that swapping
in `ValidateContained` changes exactly one thing: these sibling paths would be rejected.
Every other answer stays the same.

The write also stays as written: `Filesystem.Write` can report success under the
`LostAtClose` fault. `Volume.WriteFileChecked` is the corrected write, which also checks
the stream once it is closed. `Volume.CheckedWriteRoundTrip` proves that every success it
reports reads back the full content.

## Left out

- Windows paths. `Split` treats only `/` as a separator, and `Append` knows no root name
  such as a drive letter. On Windows, `std::filesystem` also splits on `\` and honours
  drive letters, so there `..\x` climbs above the root; in the model it is a single plain
  name. The model describes the library on POSIX systems only.
- Symbolic links. `weakly_canonical` resolves them in the part of the path that exists.
  The model normalises lexically only.
- `Paths.ValidatePath`: does not keep a trailing separator. `weakly_canonical` keeps a
  trailing `/` when the target does not fully exist, for example after a final `.` or
  `..` or when the argument itself ends in `/`. The model's `Path` has no trailing
  separator, so `a/` validates to the same path as `a`. The prefix test is not affected,
  but the operations are:
  - `write("a/")` with `a` missing: the source creates the directory `a` (its parent path)
    and then fails to open `a/`, an `IOError`. The model writes a regular file `a` and
    succeeds.
  - `a` an existing regular file: in the source every operation on `a/` sees a path whose
    every stat fails with "not a directory":
    - `write`, `read`, `remove`, `size`, `mtime` and `set_mtime` fail.
    - `exists` returns false.
    - `list` and `list_recursive` take the "does not exist" branch and return an empty
      list.

    The model treats `a/` as `a` throughout:
    - It overwrites, reads and removes `a`.
    - It returns `a`'s size and modification time, and sets that time.
    - It answers true.
    - Both listings give `NotADirectory`.
- `SapFs.Filesystem.constructor`: requires the root to be in normal form, with no
  trailing separator and no `.` or `..`. The source takes any path as given; the model
  relies on normal form for the prefix test.
- Exceptions. The source calls several functions through their overloads without an
  error code, and those calls can throw:
  - `fs::weakly_canonical` in the validator, for example on a permission failure while
    examining a component.
  - `fs::exists`.
  - `fs::file_size` in `read`.
  - `fs::is_directory` in both listings.
  - `entry.is_regular_file()` in the recursive listing.
  - The directory iterators' increment.

  The model has no exceptions:
  - The validator is total. Every operation, `exists` included, therefore either
    validates or fails with a validation error; the source could throw instead.
  - `Exists` takes no fault parameter.
  - The type test in a listing never fails.
  - Reading a directory is `IOError`.
  - An increment failure in the middle of a listing is not modelled. Open failures and
    relativisation failures are modelled.
- Partially created directories. When directory creation fails because of a storage
  fault, the model leaves the table unchanged.
- Directory modification times. Creating or removing an entry does not change its
  parent directory's modification time in the model.
- Clock conversions. The conversion between `file_clock` and milliseconds is not
  modelled. Times are stored as integer milliseconds, so `SetMtime` followed by `Mtime`
  returns the same value.
- Integer widths. Sizes are unbounded `nat` rather than `size_t`, and timestamps are
  unbounded `int`.
- Enumeration order is left open. A listing is specified by a ghost `order` that lists
  each entry exactly once.
- Error messages and `std::error_code` contents. Only the error kind is kept.
- Concurrency. Operations are sequential method calls on one object.
