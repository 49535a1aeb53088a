# binspan decoders, modelled in Dafny

binspan decodes binary files into a reflective value tree. Every node of that tree records the
bytes it came from (`Meta.bytes`). When decoding fails part-way, the tree keeps everything
decoded before the failure and attaches the error to the node that failed. This project models
the decoding kit and the three format decoders built on it, and proves what each operation
promises.

| module | file | models |
|---|---|---|
| `Wrappers` | `wrappers.dfy` | `Option` and `Result` |
| `Buffers` | `buffers.dfy` | the `Bytes` cursor: an absolute offset plus the remaining bytes. Pointer arithmetic (`as_ptr() - init.as_ptr()`) becomes offset arithmetic. Also the little-endian value of a byte string |
| `Text` | `text.dfy` | NUL truncation, space trimming, base-8 parsing (`from_str_radix(_, 8)`) and the UTF-8 check of `from_utf8` |
| `Decode` | `decode.dfy` | `src/decode.rs`: the cursor operations, the `Val`/`Obj`/`Arr`/`Meta`/`Error` tree, the integer readers and `Val::eval` |
| `Tar` | `tar.dfy` | `src/tar.rs`: the ustar decoder that builds an `Obj`/`Arr` tree |
| `Tar2` | `tar2.dfy` | `src/tar2.rs`: the `Option`-based ustar decoder over plain byte slices, plus its iterator |
| `Zip` | `zip.dfy` | `src/zip.rs`: its own earlier copy of the kit, plus the ZIP structures of PKWARE's APPNOTE.TXT. These are the end of central directory record (section 4.3.16), the central directory header (4.3.12), the local file header (4.3.7), the general purpose bit flags (4.4.4) and the compression methods (4.4.5) |

How the Rust maps onto the model:

- **Mutable borrows become values.** A `&mut Bytes` cursor or a `&mut Obj` under construction is
  an exclusive borrow of a value. Each becomes an input plus an output of a Dafny method: `b` in,
  `b'` out; `o` in, `o'` out.
- **Closures are run by the caller.** The closures handed to `add_mut`, `add_consumed`,
  `consumed`, `consume` and `set_consumed` are run at the call site, starting from the default
  value. The combinator then receives the entry's final state and the closure's result, and the
  model states what the combinator does with them.
- **Parsers state what they build.** Each straight-line parser states, for every outcome, the
  exact fields it appends (name, byte span, value) and where it leaves the cursor.
- **Loops are proved against specification functions.** The loops over central directory
  records, local files and tar records are proved against front-recursive functions that walk
  the input the same way.
- **Panics become preconditions.** A `requires` says exactly that the panic cannot happen:
  - an `unwrap` of `from_str_radix`;
  - an `unwrap` of `from_utf8`;
  - an `unwrap` of `find_eocds`;
  - an out-of-range `Bytes::slice`.

  `ZipOk`, `Tar.HeaderOk`, `Tar.ArchiveOk`, `Tar2.HeaderOk`, `Tar2.ItemsOk` and
  `Text.OctalFieldOk` name those conditions. Under them, each decoder's contract covers both its
  success and its failure. Where a failure contract states less than the code does, the line
  under "## Left out" that starts with the member's name says what is missing.
- **The two tar decoders are compared on whole archives.** Suppose every record up to the end
  marker is whole (`Tar.ArchiveFits`). Then `Tar2.ItemsAreTarFiles` proves that the iterator of
  `tar2.rs` yields one file per element of the `files` array of `tar.rs`, with the same byte
  spans. When a record is cut short, `tar.rs` fails and the iterator yields a `None`
  (`Tar2.ItemsFailOnlyWhenShort`). What the two build in that case is not compared.

The model follows the code even where the code departs from the ustar layout: both tar decoders
pad a whole extra block after data that ends on a block boundary (see "## Findings"). Three
properties of the code shape the model:

- **Byte granularity.** Provenance is kept per byte, not per bit.
- **No encoder and no derivation registry.** There is no encoder and no registry of derived values
  with invalidation; `Val::Lazy` is a one-shot thunk.
- **Failed nodes keep their children.** A failed node is the entry whose `Meta.error` is set. It
  keeps the children its decoder produced before failing.

## Model

| member | source | states |
|---|---|---|
| `Decode.WithIndex` | src/decode.rs:31-34 | the error keeps its position and message; its path gains exactly the given index at its end |
| `Decode.EvalForces` | src/decode.rs:97-107 | evaluating a tree leaves no lazy node anywhere in it |
| `Decode.EvalFixesForced` | src/decode.rs:97-107 | a tree without lazy nodes evaluates to itself |
| `Decode.EvalIdempotent` | src/decode.rs:97-107 | evaluating twice gives the same tree as evaluating once |
| `Decode.EvalKeepsShape` | src/decode.rs:98-105 | evaluation keeps every array's length and every element's metadata, and every object's field names and metadata, in order; atoms are unchanged |
| `Decode.MakeArr` | src/decode.rs:109-115 | whatever the value was, it becomes an empty array |
| `Decode.MakeObj` | src/decode.rs:117-123 | whatever the value was, it becomes an empty object |
| `Decode.TrySplitOff` | src/decode.rs:194-200 | if `at` exceeds the length, the cursor is unchanged and the error is "expected `at` bytes" at the cursor; otherwise the cursor keeps exactly `at` bytes, the result is the adjacent rest, and the two concatenate to the original |
| `Decode.Take` | src/decode.rs:189-192 | when short: same error, cursor unchanged; otherwise returns the first `n` bytes, the cursor moves past them, and returned ++ new cursor == old cursor |
| `Decode.ToRange` | src/decode.rs:202-221 | Unbounded start is 0 and Unbounded end is the length; Included end and Excluded start add one; an overflowing `+1` (at `usize::MAX`) fails with that bound; Ok(begin..end) only when both are within the length, and otherwise Err of the larger one, which exceeds the length |
| `Decode.TrySlice` | src/decode.rs:223-227 | fails with "expected n bytes" at `b` exactly when `to_range` fails, with n its error; otherwise it is the bytes `begin..end` of `b`, at the right offset. `begin <= end` is required because the code panics otherwise |
| `Decode.Consumed` | src/decode.rs:229-234 | the sub-decoder's error passes through; on success it returns the prefix of the starting cursor that the sub-decoder advanced past, and that prefix followed by the new cursor is the starting cursor |
| `Decode.Consume` | src/decode.rs:236-244 | on failure the target metadata is untouched; on success its bytes become exactly the consumed prefix (prefix ++ cursor after == cursor before) and its error is kept |
| `Decode.LeU8` | src/decode.rs:246-260 | consumes exactly 1 byte, with `Meta` spanning it and value `U8` of it, or fails "expected 1 bytes" with the cursor unchanged |
| `Decode.LeU16` | src/decode.rs:246-261 | consumes exactly 2 bytes, and the value is their little-endian number; if fewer remain, it fails with the cursor unchanged |
| `Decode.LeU32` | src/decode.rs:246-262 | same for 4 bytes |
| `Decode.LeU64` | src/decode.rs:246-263 | same for 8 bytes |
| `Buffers.LittleEndianIsPositionalSum` | src/decode.rs:252 | the little-endian number of a byte string is the positional sum of b[i]·256^i |
| `Buffers.LittleEndianBound` | src/decode.rs:252 | the little-endian number of w bytes is below 256^w, so it fits the w-byte integer type |
| `Decode.ReadRaw` | src/decode.rs:266-269 | consumes exactly `n` bytes and returns them with `Meta` spanning them and a default value; if fewer remain, it fails with the cursor unchanged |
| `Decode.Precise` | src/decode.rs:271-280 | short input fails with "expected byte sequence" and the cursor unchanged. Otherwise it always consumes as many bytes as `s` holds and succeeds iff they equal `s` or `force` is set; on a mismatch the error carries the same message and the consumed bytes as its position |
| `Decode.ObjAdd` | src/decode.rs:158-162 | on success it appends exactly one `(field, meta, val)` at the end and returns the payload; on failure the object is unchanged and the error path gains `Str(field)` |
| `Decode.ObjAddMut` | src/decode.rs:137-149 | always appends exactly one entry and leaves earlier entries alone; on failure that entry's `meta.error` holds the error and the returned error path gains `Str(field)` |
| `Decode.ObjAddConsumed` | src/decode.rs:151-156 | on success the appended entry's bytes are exactly what the closure consumed; on failure they are the whole starting cursor, with the error attached |
| `Decode.ArrAddMut` | src/decode.rs:166-179 | always appends exactly one element; on failure it carries the error and the returned path gains `Int(i)`, where i is the array's previous length |
| `Decode.ArrAddConsumed` | src/decode.rs:181-186 | like `ObjAddConsumed` for array elements, with index `Int(i)` |
| `Text.NulIndexSpec` | src/tar.rs:6 | no NUL precedes the position found, and the byte there is a NUL unless it is the end |
| `Text.BeforeNulSpec` | src/tar2.rs:65-68 | the bytes kept before the first NUL are a prefix of the input without NUL; the next input byte is NUL; with no NUL the whole input is kept |
| `Text.TrimSpacesRemovesOnlySpaces` | src/tar2.rs:61-63 | trimming removes only spaces, from both ends (input == spaces ++ trimmed ++ spaces), and the trimmed text neither starts nor ends with a space |
| `Text.OctalValueBound` | src/tar.rs:41 | a base-8 numeral of k digits is below 8^k |
| `Text.OctalField` | src/tar.rs:39-41 | the number a field that parses denotes fits the target width: below 2^bits |
| `Text.OctalFieldIsUtf8` | src/tar.rs:40 | the `from_utf8(...).unwrap()` on an octal field that parses cannot panic: the text is UTF-8 |
| `Tar.DecodeStrSpec` | src/tar.rs:4-11 | the result starts at the same offset, is the longest NUL-free prefix (the next byte is a NUL), and is the whole input when there is no NUL |
| `Tar.TakeStr` | src/tar.rs:27-32 | consumes exactly `n` bytes; `Meta` spans all `n`, while the value is the NUL-truncated prefix; when short, it fails "expected n bytes" with the cursor unchanged |
| `Tar.TakeOctal` | src/tar.rs:34-45 | consumes exactly the field width; `Meta` spans the field and the number is the base-8 value of its trimmed, NUL-truncated text, below 2^bits |
| `Tar.TakeOct8` | src/tar.rs:46 | width 2, value `U8` of the parsed number |
| `Tar.TakeOct32` | src/tar.rs:47 | width 8, value `U32` of the parsed number |
| `Tar.TakeOct64` | src/tar.rs:48 | width 12, value `U64` of the parsed number |
| `Tar.AddStr` | src/tar.rs:55 | appends one string field spanning exactly `n` bytes at its offset in the record, or leaves the object unchanged and fails with the field named in the path |
| `Tar.AddRaw` | src/tar.rs:14 | the same for a raw field |
| `Tar.AddOct` | src/tar.rs:56 | the same for an octal field, returning the parsed number |
| `Tar.DecodeUstar` | src/tar.rs:13-22 | succeeds iff 243 bytes remain, appending magic, version, uname, gname, devmajor, devminor and prefix with widths 6, 2, 32, 32, 8, 8, 155 in that order; on failure the error names one field and its position is where the cursor stopped |
| `Tar.DecodeHeader` | src/tar.rs:55-63 | succeeds iff 257 bytes remain; appends the nine header fields with widths 100, 8, 8, 8, 12, 12, 8, 1, 100 in order and returns the parsed `size` |
| `Tar.StartsWithMagic` | src/tar.rs:64 | the rest after the 257 header bytes starts with "ustar\0" exactly when the record carries the ustar part |
| `Tar.AddUstar` | src/tar.rs:64-66 | adds one `ustar` object whose bytes are exactly the 243 it consumed; on failure the error path is two deep |
| `Tar.DecodeBody` | src/tar.rs:67-70 | pads the header to its block, then adds `data` of exactly `size` bytes, then the code's padding `512 - offset % 512` (offset from the record start), which is a whole block when the data ends on a boundary; succeeds iff all of that is present |
| `Tar.DecodeFile` | src/tar.rs:50-72 | succeeds iff the record, as the code measures it (`RecordLenOf`), fits; then the object is the record's fields in order and the cursor has moved past exactly that length |
| `Tar.PaddingAsWrittenAligns` | src/tar.rs:53 | the code's padding lies in 1..512 and reaches a block boundary |
| `Tar.PaddingAsWrittenToBlock` | src/tar.rs:67 | the header padding fills the header block exactly to 512 bytes |
| `Tar.PaddingAsWrittenPeriodic` | src/tar2.rs:101 | the code's padding depends only on the offset modulo 512, so `padding(size)` is the padding after `512 + size` bytes |
| `Tar.PaddingAsWrittenSkipsBlock` | src/tar.rs:53 | for a data size that is a multiple of 512 the code pads a whole extra block, where the corrected padding is 0 |
| `Tar.Padding` | src/tar.rs:53 | the corrected padding, which the decoders do not use: below 512, and offset + padding is a multiple of 512 |
| `Tar.PaddingMinimal` | src/tar.rs:53 | no shorter padding reaches a block boundary |
| `Tar.PaddingPeriodic` | src/tar.rs:53 | the corrected padding depends only on the offset modulo 512 |
| `Tar.PaddingAgreesOffBoundary` | src/tar.rs:53 | off a block boundary the corrected padding equals the code's `512 - offset % 512` |
| `Tar.Size` | src/tar.rs:59 | the parsed `size` fits in 64 bits |
| `Tar.RecordLenOf` | src/tar.rs:67-70 | what `decode_file` consumes: the 512-byte header, the `size` data bytes and 1 to 512 bytes of padding |
| `Tar.RecordLenInBlocks` | src/tar.rs:67-70 | that is a whole number of blocks, `2 + size / 512` of them |
| `Tar.PaddedRecordLen` | src/tar.rs:67-70 | the corrected record: the header, the data and less than one block of padding |
| `Tar.RecordLenIsPadded` | src/tar.rs:67-70 | the corrected record is the header block plus one block per started block of data |
| `Tar.RecordLenOverruns` | src/tar.rs:70 | the code's record equals the corrected one when the data ends inside a block, and is one block longer when it ends on a boundary |
| `Tar.RecordLen` | src/tar.rs:50-72 | a record that fits is at least one block and no longer than the input |
| `Tar.AlignedRecordAtEndRejected` | src/tar.rs:70 | a whole record whose data ends on a block boundary, with nothing after it, does not fit, so `DecodeFile` fails on it |
| `Tar.AlignedRecordTakesNextBlock` | src/tar.rs:70 | with another block after it, such a record fits and takes that block as its padding |
| `Tar.AllZeroSpec` | src/tar.rs:77 | the end-marker test holds exactly when every byte is zero |
| `Tar.FilesLen` | src/tar.rs:75-81 | the files before the end marker lie within the input |
| `Tar.FilesLenInBlocks` | src/tar.rs:77-79 | the files before the end marker take a whole number of blocks |
| `Tar.FilesTiled` | src/tar.rs:75-79 | the elements' byte spans tile the consumed prefix in order, without gaps or overlap |
| `Tar.FirstShort` | src/tar.rs:77-78 | in an archive with a record cut short, it points at a record that is neither the end nor whole |
| `Tar.FilesStep` | src/tar.rs:77-79 | after one whole record, the rest of the archive has the remaining files, the remaining length and the same first short record |
| `Tar.AddFile` | src/tar.rs:78 | appends one element; on success it is the record's element and the cursor moves past the record; on failure the element spans the cursor where it started and carries an error; the error returned is that element's error with the element's index appended to its path |
| `Tar.ScannedShort` | src/tar.rs:78 | when a record does not fit, the elements built so far are exactly the files before it, and it is the archive's first short record |
| `Tar.ScannedEnd` | src/tar.rs:77-79 | when the loop stops at the end marker or the end, the elements built are exactly the archive's files and the cursor has moved by their total length |
| `Tar.DecodeFiles` | src/tar.rs:75-80 | the loop succeeds iff every record up to the end marker fits; then the array is the files in order, and the consumed length is their total. On failure the array is the files before the first short record, then one element that spans the input from that record and carries an error; the error returned is that element's error with its index appended |
| `Tar.DecodeTar` | src/tar.rs:74-84 | succeeds iff every record fits; then adds one `files` entry spanning exactly the consumed records, holding one element per file. On failure the `files` entry is still added, spans the whole input, carries the error and holds the array `DecodeFiles` left. The entry's error is the failed element's error with the element's index appended, and the error returned is the entry's error with `files` appended |
| `Tar2.Take` | src/tar2.rs:80-91 | returns the first `n` bytes and the rest, which concatenate to the input, or `None` with the cursor unchanged when short |
| `Tar2.Utf8` | src/tar2.rs:65-68 | the text is no longer than the field (its content is `Text.BeforeNulSpec`) |
| `Tar2.NumOf` | src/tar2.rs:103-104 | a parsed octal number fits its width |
| `Tar2.MagicText` | src/tar2.rs:81 | the magic "ustar\0" converts to the text "ustar" |
| `Tar2.HeaderOf` | src/tar2.rs:106-117 | the header's `size` is the same number `tar.rs` parses |
| `Tar2.DecodeUstar` | src/tar2.rs:77-93 | yields the ustar part iff 243 bytes remain and they start with "ustar\0"; otherwise `None` |
| `Tar2.DecodeHeader` | src/tar2.rs:106-117 | yields the header iff 257 bytes remain, and then exactly the fields at their offsets |
| `Tar2.DecodeFile` | src/tar2.rs:98-124 | yields a file iff the record, as the code measures it (`Tar.RecordLenOf`), fits; its `src` followed by the remaining cursor is the input, so `src` is exactly what was consumed |
| `Tar2.DecodeBlocks` | src/tar2.rs:118-123 | after the header it pads to 512, takes `size` data bytes and then `512 - size % 512` bytes, a whole block when the data ends on a boundary; yields the file iff all of that is there |
| `Tar2.NextFile` | src/tar2.rs:127 | the iterator stops exactly at the end marker or end of input; otherwise it yields `Some(file)` iff the record fits, and `Some(None)` for any nonempty input under 100 bytes |
| `Tar2.ItemsStep` | src/tar2.rs:127 | after a whole record, the iterator continues at the next record |
| `Tar2.ItemsAreTarFiles` | src/tar2.rs:126-128 | the iterator yields as many files as `tar.rs` puts in its `files` array, with the same byte spans |
| `Tar2.ItemsFailOnlyWhenShort` | src/tar2.rs:126-128 | a `None` item appears iff some record before the end marker is cut short |
| `Tar2.ItemsFailOnlyLast` | src/tar2.rs:126-128 | among the items up to and including the first `None`, every item but the last is a file |
| `Tar2.AlignedRecordAtEndIsNone` | src/tar2.rs:121-122 | a whole record whose data ends on a block boundary, with nothing after it, yields `None`; the cursor is then at the end of the input, so the iterator ends after that `None` |
| `Zip.WithIndex` | src/zip.rs:43-46 | the error keeps position, expected length and type; its path gains exactly the index at its end |
| `Zip.ObjAdd` | src/zip.rs:72-76 | appends one field on success; leaves the object unchanged on failure, with `Str(field)` added to the path |
| `Zip.ObjAddMut` | src/zip.rs:61-70 | always appends one field; the error path gains `Str(field)` |
| `Zip.ArrAddMut` | src/zip.rs:80-90 | always appends one element; the error path gains `Int(i)` with i the previous length |
| `Zip.Take` | src/zip.rs:157-165 | when short: `expect_len` n, position the current bytes, cursor unchanged; otherwise the prefix of length n and the adjacent suffix, which concatenate to the input |
| `Zip.Consumed` | src/zip.rs:167-172 | returns the prefix the closure advanced past, which joins the new cursor back into the start |
| `Zip.SetConsumed` | src/zip.rs:174-178 | on success the cursor becomes that consumed prefix; on failure it stays where decoding stopped |
| `Zip.U16AtIsLittleEndian` | src/zip.rs:182 | the two-byte reading is the little-endian value of those bytes |
| `Zip.U32AtIsLittleEndian` | src/zip.rs:188 | the four-byte reading is the little-endian value of those bytes |
| `Zip.U16Le` | src/zip.rs:180-184 | consumes 2 bytes, giving atom `U16` of their little-endian value; when short, it fails with `expect_len` 2 and `Expect::Int` and the cursor unchanged |
| `Zip.U32Le` | src/zip.rs:186-190 | the same for 4 bytes |
| `Zip.ReadRaw` | src/zip.rs:192-194 | consumes exactly `n` bytes as a raw atom, or fails with `expect_len` n and the cursor unchanged |
| `Zip.Precise` | src/zip.rs:196-204 | succeeds iff the next bytes equal `s`; both the short-input and the mismatch error have `Expect::Raw(s)`; a mismatch still consumes the bytes |
| `Zip.FindEocds` | src/zip.rs:440-443 | a found offset starts an end of central directory signature |
| `Zip.FindEocdsSpec` | src/zip.rs:440-443 | the offset found is the last signature among the last 128 four-byte windows (so at most 131 bytes before the end); `None` iff the input is under 4 bytes or no window matches |
| `Zip.EvalFlags` | src/zip.rs:319-326 | one boolean field per named flag, in declaration order, each spanning the flag bytes and true iff its bit is set |
| `Zip.EvalFlagsOfBits` | src/zip.rs:247-268 | all 16 bits are retained: for any bit pattern each named flag reads back its own bit |
| `Zip.DecodeFlags` | src/zip.rs:328-336 | consumes 2 bytes and gives a `U16` atom whose explanation is the lazy flags object, returning the number |
| `Zip.FromU16` | src/zip.rs:270-287 | a recognised code maps to the method with that code |
| `Zip.FromU16Code` | src/zip.rs:270-287 | every method is recognised from its own code |
| `Zip.FromU16Unknown` | src/zip.rs:270-287 | exactly the codes 7, 11, 13, 15-17, 20-97 and above 98 are unknown |
| `Zip.AsStrInjective` | src/zip.rs:289-310 | distinct methods have distinct names |
| `Zip.AddU16` | src/zip.rs:223 | appends one `U16` field spanning the two bytes at its offset in the record, or leaves the object unchanged and fails with `Expect::Int` and the field in the path |
| `Zip.AddU32` | src/zip.rs:227 | the same for a four-byte field |
| `Zip.AddRaw` | src/zip.rs:230 | the same for a raw field of `n` bytes |
| `Zip.AddFlags` | src/zip.rs:340 | the same for the `flags` field |
| `Zip.AddSignature` | src/zip.rs:222 | succeeds iff the next four bytes are the signature, appending the `signature` field. A failure leaves the object unchanged; its error has `Expect::Raw(sig)`, the path `signature`, and the position of the four bytes read, or the cursor itself when fewer than four remain |
| `Zip.DecodeEocdNumbers` | src/zip.rs:223-229 | appends the seven number fields of the record in order and returns the record's disk number, directory size and offset, plus the comment length |
| `Zip.DecodeEocd` | src/zip.rs:221-236 | succeeds iff the signature matches and 22 bytes plus the comment length are present; then the fields are signature … comment in declared order and the cursor moves past them |
| `Zip.CdRange` | src/zip.rs:214-218 | the central directory range starts at `offset_cd` and is `size_cd` long |
| `Zip.DecodeCommonHead` | src/zip.rs:339-343 | succeeds iff 10 bytes remain; then appends the five fields from `version_needed` to `last_modification_date` and returns flags and method. A failure's path is the one field that runs short, and its position and the cursor are at that field's start |
| `Zip.DecodeCommonTail` | src/zip.rs:344-348 | succeeds iff all 26 bytes remain; then appends the five fields from `crc_32` to `extra_field_length` and returns the compressed size and both lengths. A failure's path is the one field that runs short, and its position and the cursor are at that field's start |
| `Zip.DecodeCommon` | src/zip.rs:338-356 | succeeds iff 26 bytes remain; appends the ten fields in order and returns the common part they encode. A failure's path is the first field that does not fit, and its position and the cursor are at that field's start |
| `Zip.DecodeCdrNumbers` | src/zip.rs:370-374 | appends the five number fields after the common part and returns comment length, start disk and local file offset |
| `Zip.DecodeCdrFixed` | src/zip.rs:365-374 | succeeds iff the 46 fixed bytes are present and start with the central directory signature |
| `Zip.AddNameExtra` | src/zip.rs:376-377 | appends `file_name` and `extra_fields` of exactly the declared lengths. When the name does not fit, the object is unchanged and the path is `file_name`. When only the extra fields do not fit, the object has gained `file_name` and the path is `extra_fields`. The cursor is at the field that failed |
| `Zip.DecodeCdrVariable` | src/zip.rs:376-378 | appends name, extra fields and comment of exactly the declared lengths |
| `Zip.DecodeCdr` | src/zip.rs:365-385 | succeeds iff the whole record is present; then the object is the record's fields in order and the cursor moves past exactly the record |
| `Zip.Uncompressed` | src/zip.rs:415-423 | an `uncompressed` child exists iff the method is deflate (8) or stored (0) |
| `Zip.DecodeLocalHeader` | src/zip.rs:399-403 | succeeds iff the signature, common part, name and extra fields are present |
| `Zip.DecodeCompressed` | src/zip.rs:412-427 | a `compressed` field of exactly `n` bytes with the explanation for its method, or the error for `n` bytes and nothing added |
| `Zip.DecodeLocalFile` | src/zip.rs:398-431 | succeeds iff header and compressed data fit. The compressed size is the central directory's when the local one is 0, and a `compressed` field is added only when it is positive. The cursor stops where decoding stopped. When the header fits but the data does not, the object is the header's entries and the error is `Error::new` at the cursor, expecting the compressed size in bytes, with an empty path |
| `Zip.DecodeExtraField` | src/zip.rs:433-438 | succeeds iff tag, size and `size` data bytes are present; then it appends the three fields |
| `Zip.DecodeCdElem` | src/zip.rs:459-463 | appends one element: the record's element on success, or an element spanning the rest of the directory with the error index `Int(i)` |
| `Zip.DecodeCds` | src/zip.rs:455-467 | succeeds iff the whole directory splits into records; the array starts with all records that decode, in order; on success it is exactly them and the returned records match |
| `Zip.CdElemsTiled` | src/zip.rs:458-465 | the records' byte spans tile the central directory in order |
| `Zip.CdrsMatchElems` | src/zip.rs:458-466 | one decoded record per array element, and every element is an object |
| `Zip.LocalsSkip` | src/zip.rs:472 | records on another disk add no local file |
| `Zip.LocalsStep` | src/zip.rs:472-479 | a record on the disk adds the local file at its offset, or ends the local files when that file does not fit |
| `Zip.DecodeLocalElem` | src/zip.rs:474-478 | appends one element: the local file on success, or a failed element spanning the bytes from where decoding stopped, with the error index `Int(i)` |
| `Zip.DecodeLocalFiles` | src/zip.rs:470-482 | visits exactly the records on the disk of the end record; succeeds iff all of their local files fit; on failure the failed file is the last element |
| `Zip.AddEocd` | src/zip.rs:448-452 | adds one `end_of_central_dir_record` entry spanning from the signature found to the end; succeeds iff the record decodes |
| `Zip.AddCds` | src/zip.rs:454-467 | adds one `central_directories` entry spanning the directory; succeeds iff it splits into records, which it returns. The entry holds one element per whole record; when a record does not fit, one more element, an object spanning the rest of the directory, ends the array |
| `Zip.AddLocalFiles` | src/zip.rs:469-482 | adds one `local_files` entry spanning everything before the central directory, holding the local files (and the failed one last) |
| `Zip.DecodeDirectory` | src/zip.rs:454-484 | succeeds iff the directory decodes; a failure while decoding the local files is not propagated. The `central_directories` entry holds the whole records' elements, then, on failure, the element of the record cut short |
| `Zip.DecodeAfterEocd` | src/zip.rs:454-484 | decodes the central directory at `cd_range` and the local files before it, with the entries `DecodeDirectory` states |
| `Zip.DecodeZip` | src/zip.rs:446-485 | succeeds iff the end record and the central directory decode, whatever the local files hold. The root gains, in order, the end record entry, then the directory entry (unless the end record failed), then the local files entry (unless the directory failed); each failure path names its entry. A failed directory's entry ends with the element of the record cut short |

## Left out

- `Val::eval` of the lazy explanations of `src/zip.rs` (`Uncompress::eval`, src/zip.rs:390-396):
  DEFLATE decompression is a foreign library (`miniz_oxide`), so the lazy node is an opaque
  thunk over the compressed bytes.
- `Val::unfold` (src/zip.rs:117-128) is not modelled: its lazy branch is `todo!()`.
- `Rc`/`LazyCell` sharing and memoisation (src/decode.rs:87, 125-127): a lazy node is the value
  its thunk yields. Memoisation is not observable in a value model.
- `Meta.format`, `Meta.description`, `Meta::describe`, `Debug` output and the text of error
  messages: messages are a datatype (`ExpectedBytes(n)`, `ExpectedByteSequence(s)`), not
  formatted strings.
- `bitflags!` mechanics: only what they give is modelled, namely the named flags and all 16 bits
  retained.
- `tar2.rs` `AsVal::as_src_val` (src/tar2.rs:3-34): it rests on macros and types that
  src/tar2.rs does not define.
- `src/main.rs` (argument parsing, file mapping, printing) is I/O and is not part of this model.
- No module of the crate defines a `take` over `&mut &[u8]`, which `tar2.rs` calls: the two
  `take` functions (src/decode.rs:189, src/zip.rs:157) take `&mut Bytes`, and src/tar2.rs imports
  only `crate::tar::*`. `Tar2.Take` models the call as the prefix/suffix split of `decode.rs`
  `take`, with `None` when short.
- `Decoded::new(m, v, y)` in `tar.rs` is read as the tuple `(m, v, y)` that `Decoded` is
  (src/decode.rs:37).
- `usize` is taken to be 64 bits, so `size.try_into().unwrap()` never panics and a 32-bit offset
  plus a 32-bit length never overflows.
- Panics are not modelled as behaviour: the inputs on which the code panics are excluded by
  `requires` (`Zip.DecodeZip`, `Tar.DecodeTar`, `Tar.DecodeFile`, `Tar2.DecodeFile`,
  `Tar2.NextFile`, `Tar.TakeOctal` and the functions they name).
- The data descriptor after compressed data (the "TODO: read data descriptor" at src/zip.rs:429)
  is not read by the code, and not by the model.
- Tar.DecodeTar: on failure it states the files before the failed record, the failed element's
  bytes, and how the errors of the element, the entry and the result relate. It does not state
  the fields that element holds (those `decode_file` added before the field that ran short), nor
  the position or message of the error, which `Tar.DecodeFile` leaves open.
- Tar.DecodeFiles: the same for the failed element that ends the array.
- Tar.AddFile: the same for the one element it appends.
- Tar2.Items: it stops at the first `None`. The iterator of src/tar2.rs:127 goes on after a
  `None` from wherever `decode_file` left the cursor. `Tar2.NextFile` states each such call: when
  fewer than 100 bytes remain the cursor does not move, so it yields `None` forever. No function
  lists the items after the first `None`.
- Tar.DecodeUstar: on failure it states where the cursor stopped and that one field is named, not
  the partially filled object.
- Tar.DecodeHeader: on failure it states where the cursor stopped and that one field is named, not
  the partially filled object.
- Tar.DecodeFile: on failure it states where the cursor stopped and that the path has one or two
  entries, not which field ran short.
- Tar.DecodeBody: on failure it states where the cursor stopped, not which field ran short.
- Tar.AddUstar: on failure it states where the cursor stopped, not the partial `ustar` object.
- Tar2.Utf8: its own contract gives only the length bound; what it keeps is stated by
  `Text.BeforeNulSpec` about the same truncation.
- Zip.DecodeEocd: on failure it states that the path names one field and where the cursor
  stopped, not which field or the partial object.
- Zip.DecodeEocdNumbers: on failure it states that the path names one field, not which field.
- Zip.DecodeCdr: on failure it states that the path names one field, not which field or the
  partial object.
- Zip.DecodeCdrFixed: on failure it states that the path names one field.
- Zip.DecodeCdrNumbers: on failure it states that the path names one field.
- Zip.DecodeCdrVariable: on failure it states that the path names one field.
- Zip.DecodeCommonHead: on failure it states the field that runs short and where the cursor
  stopped, not the fields appended before it.
- Zip.DecodeCommonTail: on failure it states the field that runs short and where the cursor
  stopped, not the fields appended before it.
- Zip.DecodeCommon: on failure it states the field that runs short and where the cursor stopped,
  not the fields appended before it.
- Zip.DecodeLocalFile: when the header does not fit, it states that the path names one field and
  where the cursor stopped, not which field or the partial object (see `Zip.DecodeLocalHeader`).
- Zip.DecodeLocalHeader: on failure it states that the path names one field and where the cursor
  stopped.
- Zip.DecodeExtraField: on failure it states where the cursor stopped and that earlier fields are
  kept, not which field failed.
- Zip.DecodeCdElem: a failed record's element is stated to be an object spanning the rest of the
  directory, not which fields it holds.
- Zip.DecodeCds: the same for the failed record that ends the array.
- Zip.DecodeLocalElem: a failed local file's element is stated to be an object with its bytes,
  not which fields it holds.
- Zip.DecodeLocalFiles: the same for the failed local file that ends the array.
- Zip.AddEocd: on failure the entry is stated to be an object spanning the record, not which
  fields it holds.

## Findings

Both decoders are modelled as written. The corrected record length (`Tar.PaddedRecordLen`) is
defined beside them, and `Tar.RecordLenOverruns` relates the two.

| source | as written | input that shows it | evidently intended | confidence | as-written member | corrected member |
|---|---|---|---|---|---|---|
| src/tar.rs:53 | `padding` is `512 - offset % 512`, which is 512, not 0, when the offset is already on a block boundary; `data_block_padding` (src/tar.rs:70) then asks for a whole extra block | a 512-byte record of an empty file (size 0) with nothing after it: `decode_file` fails at `data_block_padding`; with more blocks after it, the next block is consumed as padding | pad to the next block boundary, `(512 - offset % 512) % 512`, so that a record is 512·(1 + ⌈size/512⌉) bytes | not executed | `Tar.AlignedRecordAtEndRejected` | `Tar.RecordLenIsPadded` |
| src/tar2.rs:101 | the same `padding` closure; `take(d, padding(size))` (line 121) and `src` (line 122) take an extra block when `size % 512 == 0` | the same 512-byte record: `decode_file` returns `None` and the iterator ends after it | the same padded record length | not executed | `Tar2.AlignedRecordAtEndIsNone` | `Tar.RecordLenIsPadded` |
