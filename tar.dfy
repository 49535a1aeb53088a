/**
 * The ustar decoder of `src/tar.rs` (the ustar interchange format of the pax utility, IEEE Std
 * 1003.1), which builds the `Obj`/`Arr` tree of `src/decode.rs`.
 *
 * A file record is a 512-byte header block followed by the file's data, padded to a whole number
 * of blocks. The header holds NUL-terminated text fields and space-trimmed octal number fields at
 * fixed offsets; a header whose bytes at 257 are "ustar\0" carries a further 243-byte ustar part.
 * The archive ends with two zero blocks or at the end of the input.
 *
 * The octal fields are parsed with `from_str_radix(..).unwrap()`, which panics on text that is
 * not an octal number of the field's width; the decoders require that no reachable field does
 * (`HeaderOk`, `ArchiveOk`).
 */
module Tar {
  import opened Wrappers
  import opened Buffers
  import opened Text
  import opened Decode

  const BLOCK_BYTES: nat := 512

  /** `END_MARKER` is two blocks of zeros; this is its length. */
  const END_MARKER_BYTES: nat := 2 * BLOCK_BYTES

  /** "ustar\0" */
  const USTAR_MAGIC: seq<uint8> := [0x75, 0x73, 0x74, 0x61, 0x72, 0x00]

  // ---------------------------------------------------------------------------------------------
  // Fields
  // ---------------------------------------------------------------------------------------------

  /** `decode_str`: the longest prefix without a NUL (`DecodeStrSpec`). */
  function DecodeStr(b: Bytes): Bytes
  {
    Prefix(b, |BeforeNul(b.data)|)
  }

  /**
   * `decode_str` keeps a prefix of its input that holds no NUL and is followed by one, or all of
   * the input when it has no NUL.
   */
  lemma DecodeStrSpec(b: Bytes)
    ensures DecodeStr(b).pos == b.pos && |DecodeStr(b).data| <= |b.data|
    ensures DecodeStr(b).data == b.data[..|DecodeStr(b).data|]
    ensures forall j :: 0 <= j < |DecodeStr(b).data| ==> DecodeStr(b).data[j] != NUL
    ensures |DecodeStr(b).data| < |b.data| ==> b.data[|DecodeStr(b).data|] == NUL
    ensures (forall j :: 0 <= j < |b.data| ==> b.data[j] != NUL) ==> DecodeStr(b) == b
  {
    BeforeNulSpec(b.data);
  }

  /**
   * `take_str(b, n)`: `n` bytes, of which the metadata covers all and the value is the text
   * before the first NUL.
   */
  method TakeStr(b: Bytes, n: nat) returns (b': Bytes, r: Result<Decoded<Bytes>, Error>)
    ensures n > |b.data| ==> b' == b && r == Err(NewError(b, ExpectedBytes(n)))
    ensures n <= |b.data| ==> (b' == Drop(b, n) &&
      r == Ok((MetaFrom(Prefix(b, n)), Val.Str(DecodeStr(Prefix(b, n))), DecodeStr(Prefix(b, n)))))
  {
    var t;
    b', t := Take(b, n);
    if t.Err? {
      return b', Err(t.error);
    }
    var s := DecodeStr(t.value);
    r := Ok((MetaFrom(t.value), Val.Str(s), s));
  }

  /** The `Val` constructor for an unsigned number of `bits` bits. */
  function UnsignedVal(n: nat, bits: nat): (v: Val)
    requires (bits == 8 || bits == 32 || bits == 64) && n < UintBound(bits)
    ensures bits == 8 ==> v.U8? && v.u8 == n
    ensures bits == 32 ==> v.U32? && v.u32 == n
    ensures bits == 64 ==> v.U64? && v.u64 == n
  {
    if bits == 8 then U8(n) else if bits == 32 then U32(n) else U64(n)
  }

  /**
   * The body of `take_oct_str!`: `w` bytes whose text before the first NUL, trimmed of spaces,
   * is the octal number returned; the metadata covers all `w` bytes. The text is UTF-8 and
   * parses whenever the bytes are there, as the caller guarantees.
   */
  method TakeOctal(b: Bytes, w: nat, bits: nat) returns (b': Bytes, r: Result<(Meta, nat), Error>)
    requires (bits == 8 || bits == 32 || bits == 64)
    requires w <= |b.data| ==> OctalFieldOk(b.data[..w], bits)
    ensures w > |b.data| ==> b' == b && r == Err(NewError(b, ExpectedBytes(w)))
    ensures w <= |b.data| ==> (b' == Drop(b, w) &&
      r == Ok((MetaFrom(Prefix(b, w)), OctalField(b.data[..w], bits))))
    ensures r.Ok? ==> r.value.1 < UintBound(bits)
  {
    var t;
    b', t := Take(b, w);
    if t.Err? {
      return b', Err(t.error);
    }
    var s := DecodeStr(t.value);
    // `from_utf8(&s).unwrap()` cannot panic: an octal field that parses is ASCII.
    OctalFieldIsUtf8(t.value.data, bits);
    assert IsUtf8(s.data);
    var u := OctalValue(OctDigits(TrimSpaces(s.data)));
    r := Ok((MetaFrom(t.value), u));
  }

  /** `take_oct8`: a 2-byte octal field read as `u8`. */
  method TakeOct8(b: Bytes) returns (b': Bytes, r: Result<Decoded<uint8>, Error>)
    requires 2 <= |b.data| ==> OctalFieldOk(b.data[..2], 8)
    ensures 2 > |b.data| ==> b' == b && r == Err(NewError(b, ExpectedBytes(2)))
    ensures 2 <= |b.data| ==> (b' == Drop(b, 2) && r.Ok? && r.value.2 == OctalField(b.data[..2], 8) &&
      r.value.0 == MetaFrom(Prefix(b, 2)) && r.value.1 == U8(r.value.2))
  {
    var t;
    b', t := TakeOctal(b, 2, 8);
    if t.Err? {
      return b', Err(t.error);
    }
    var u: uint8 := t.value.1;
    r := Ok((t.value.0, U8(u), u));
  }

  /** `take_oct32`: an 8-byte octal field read as `u32`. */
  method TakeOct32(b: Bytes) returns (b': Bytes, r: Result<Decoded<uint32>, Error>)
    requires 8 <= |b.data| ==> OctalFieldOk(b.data[..8], 32)
    ensures 8 > |b.data| ==> b' == b && r == Err(NewError(b, ExpectedBytes(8)))
    ensures 8 <= |b.data| ==> (b' == Drop(b, 8) && r.Ok? && r.value.2 == OctalField(b.data[..8], 32) &&
      r.value.0 == MetaFrom(Prefix(b, 8)) && r.value.1 == U32(r.value.2))
  {
    var t;
    b', t := TakeOctal(b, 8, 32);
    if t.Err? {
      return b', Err(t.error);
    }
    var u: uint32 := t.value.1;
    r := Ok((t.value.0, U32(u), u));
  }

  /** `take_oct64`: a 12-byte octal field read as `u64`. */
  method TakeOct64(b: Bytes) returns (b': Bytes, r: Result<Decoded<uint64>, Error>)
    requires 12 <= |b.data| ==> OctalFieldOk(b.data[..12], 64)
    ensures 12 > |b.data| ==> b' == b && r == Err(NewError(b, ExpectedBytes(12)))
    ensures 12 <= |b.data| ==> (b' == Drop(b, 12) && r.Ok? && r.value.2 == OctalField(b.data[..12], 64) &&
      r.value.0 == MetaFrom(Prefix(b, 12)) && r.value.1 == U64(r.value.2))
  {
    var t;
    b', t := TakeOctal(b, 12, 64);
    if t.Err? {
      return b', Err(t.error);
    }
    var u: uint64 := t.value.1;
    r := Ok((t.value.0, U64(u), u));
  }

  // ---------------------------------------------------------------------------------------------
  // Block padding
  // ---------------------------------------------------------------------------------------------

  /**
   * The padding after `offset` bytes of a record as `tar.rs` computes it:
   * `BLOCK_BYTES - offset % BLOCK_BYTES`, which is a whole block when `offset` is already aligned.
   */
  function PaddingAsWritten(offset: nat): nat
  {
    BLOCK_BYTES - offset % BLOCK_BYTES
  }

  /** The as-written padding is between 1 and 512 bytes and ends on a block boundary. */
  lemma PaddingAsWrittenAligns(offset: nat)
    ensures 1 <= PaddingAsWritten(offset) <= BLOCK_BYTES
    ensures (offset + PaddingAsWritten(offset)) % BLOCK_BYTES == 0
  {
  }

  /** Inside the first block, the as-written padding runs to its end. */
  lemma PaddingAsWrittenToBlock(offset: nat)
    requires 0 < offset < BLOCK_BYTES
    ensures offset + PaddingAsWritten(offset) == BLOCK_BYTES
  {
  }

  /** The as-written padding depends only on the offset within the block. */
  lemma PaddingAsWrittenPeriodic(offset: nat)
    ensures PaddingAsWritten(offset + BLOCK_BYTES) == PaddingAsWritten(offset)
  {
  }

  /**
   * After data whose size is a multiple of 512 (for example an empty file or a directory), the
   * as-written padding skips a whole block: the header of the next record, or the first half of
   * the end marker.
   */
  lemma PaddingAsWrittenSkipsBlock(size: nat)
    requires size % BLOCK_BYTES == 0
    ensures PaddingAsWritten(BLOCK_BYTES + size) == BLOCK_BYTES
    ensures Padding(BLOCK_BYTES + size) == 0
  {
  }

  /**
   * The padding a ustar record needs after `offset` bytes: the fewest bytes, possibly none, that
   * bring it to a block boundary. `PaddedRecordLen` uses it; the decoders keep `PaddingAsWritten`.
   */
  function Padding(offset: nat): (p: nat)
    ensures p < BLOCK_BYTES && (offset + p) % BLOCK_BYTES == 0
  {
    PaddingAsWrittenAligns(offset);
    if offset % BLOCK_BYTES == 0 then 0 else PaddingAsWritten(offset)
  }

  /** No shorter padding reaches a block boundary. */
  lemma PaddingMinimal(offset: nat, q: nat)
    requires q < Padding(offset)
    ensures (offset + q) % BLOCK_BYTES != 0
  {
  }

  /** Padding depends only on the offset within the block. */
  lemma PaddingPeriodic(offset: nat)
    ensures Padding(offset + BLOCK_BYTES) == Padding(offset)
  {
  }

  /** The two formulas differ only at block boundaries. */
  lemma PaddingAgreesOffBoundary(offset: nat)
    requires offset % BLOCK_BYTES != 0
    ensures Padding(offset) == PaddingAsWritten(offset)
  {
  }

  // ---------------------------------------------------------------------------------------------
  // Header layout
  // ---------------------------------------------------------------------------------------------

  /** The octal field of `w` bytes at `off` parses as a `bits`-bit number, if the bytes are there. */
  predicate OctAt(d: seq<uint8>, off: nat, w: nat, bits: nat)
  {
    off + w <= |d| ==> OctalFieldOk(d[off..off + w], bits)
  }

  /** The header carries the ustar part: it continues with "ustar\0" after `linkname`. */
  predicate IsUstar(d: seq<uint8>)
  {
    |d| >= 263 && d[257..263] == USTAR_MAGIC
  }

  /** The octal fields of a ustar part `u` (version, devmajor, devminor) parse where present. */
  predicate UstarOk(u: seq<uint8>)
  {
    OctAt(u, 6, 2, 8) && OctAt(u, 72, 8, 32) && OctAt(u, 80, 8, 32)
  }

  /**
   * Decoding the header at the start of `d` cannot panic: every octal field that the decoder
   * reaches (mode, uid, gid, size, mtime, chksum and, with the ustar part, its three) parses.
   */
  predicate HeaderOk(d: seq<uint8>)
  {
    NumbersOk(d) && (IsUstar(d) ==> UstarOk(d[257..]))
  }

  /** The six octal fields of the header proper, from `mode` to `chksum`, parse where present. */
  predicate NumbersOk(d: seq<uint8>)
  {
    OctAt(d, 100, 8, 32) && OctAt(d, 108, 8, 32) && OctAt(d, 116, 8, 32) && OctAt(d, 124, 12, 64) &&
    OctAt(d, 136, 12, 64) && OctAt(d, 148, 8, 32)
  }

  /** The `size` header field. */
  function Size(d: seq<uint8>): (n: nat)
    requires |d| >= 136 && HeaderOk(d)
    ensures n < UintBound(64)
  {
    OctalField(d[124..136], 64)
  }

  // ---------------------------------------------------------------------------------------------
  // Record length
  // ---------------------------------------------------------------------------------------------

  /**
   * The bytes `decode_file` consumes for a record with `size` bytes of data: the header block,
   * the data and the as-written padding after them, so always more than the two.
   */
  function RecordLenOf(size: nat): (n: nat)
    ensures BLOCK_BYTES + size < n <= 2 * BLOCK_BYTES + size
  {
    PaddingAsWrittenAligns(BLOCK_BYTES + size);
    BLOCK_BYTES + size + PaddingAsWritten(BLOCK_BYTES + size)
  }

  /** The number of blocks `decode_file` consumes: the header's, and one per started or whole block of data plus one. */
  function RecordBlocks(size: nat): nat
  {
    2 + size / BLOCK_BYTES
  }

  /** What `decode_file` consumes is a whole number of blocks. */
  lemma RecordLenInBlocks(size: nat)
    ensures RecordLenOf(size) == BLOCK_BYTES * RecordBlocks(size)
  {
    var q, r := size / BLOCK_BYTES, size % BLOCK_BYTES;
    assert size == BLOCK_BYTES * q + r;
    assert (BLOCK_BYTES + size) % BLOCK_BYTES == r;
  }

  /**
   * The length of a ustar record with `size` bytes of data: the header block, the data, and the
   * fewest bytes of padding that end it on a block boundary.
   */
  function PaddedRecordLen(size: nat): (n: nat)
    ensures BLOCK_BYTES + size <= n < 2 * BLOCK_BYTES + size
  {
    BLOCK_BYTES + size + Padding(BLOCK_BYTES + size)
  }

  /** The padded record is the header block and as many blocks as the data starts: the padding fills the last data block and no more. */
  lemma RecordLenIsPadded(size: nat)
    ensures PaddedRecordLen(size) == BLOCK_BYTES * (1 + (size + BLOCK_BYTES - 1) / BLOCK_BYTES)
  {
    var q, r := size / BLOCK_BYTES, size % BLOCK_BYTES;
    assert size == BLOCK_BYTES * q + r;
    assert (BLOCK_BYTES + size) % BLOCK_BYTES == r;
    if r == 0 {
      assert (size + BLOCK_BYTES - 1) / BLOCK_BYTES == q;
    } else {
      assert (size + BLOCK_BYTES - 1) / BLOCK_BYTES == q + 1;
    }
  }

  /**
   * `decode_file` consumes the padded record when the data ends inside a block, and one block
   * more when it ends on a block boundary.
   */
  lemma RecordLenOverruns(size: nat)
    ensures size % BLOCK_BYTES != 0 ==> RecordLenOf(size) == PaddedRecordLen(size)
    ensures size % BLOCK_BYTES == 0 ==> RecordLenOf(size) == PaddedRecordLen(size) + BLOCK_BYTES
  {
    if size % BLOCK_BYTES != 0 {
      PaddingAgreesOffBoundary(BLOCK_BYTES + size);
    } else {
      PaddingAsWrittenSkipsBlock(size);
    }
  }

  /** The whole record is there: the header block, the data and its padding. */
  predicate RecordFits(d: seq<uint8>)
    requires HeaderOk(d)
  {
    |d| >= BLOCK_BYTES && RecordLenOf(Size(d)) <= |d|
  }

  /** The length of the record at the start of `d`. */
  function RecordLen(d: seq<uint8>): (n: nat)
    requires HeaderOk(d) && RecordFits(d)
    ensures BLOCK_BYTES <= n <= |d|
  {
    RecordLenOf(Size(d))
  }

  /**
   * A whole record whose data ends on a block boundary (an empty file, a directory), with
   * nothing after it, does not fit: `decode_file` asks for one more block of padding.
   */
  lemma AlignedRecordAtEndRejected(d: seq<uint8>)
    requires |d| >= BLOCK_BYTES && HeaderOk(d) && Size(d) % BLOCK_BYTES == 0
    requires |d| == PaddedRecordLen(Size(d))
    ensures !RecordFits(d)
  {
    RecordLenOverruns(Size(d));
  }

  /**
   * With more bytes after it, such a record takes the next block as its padding: the header
   * of the next record, or the first half of the end marker.
   */
  lemma AlignedRecordTakesNextBlock(d: seq<uint8>)
    requires |d| >= BLOCK_BYTES && HeaderOk(d) && Size(d) % BLOCK_BYTES == 0
    requires |d| >= PaddedRecordLen(Size(d)) + BLOCK_BYTES
    ensures RecordFits(d) && RecordLen(d) == PaddedRecordLen(Size(d)) + BLOCK_BYTES
  {
    RecordLenOverruns(Size(d));
  }

  /** A text field's entry: the metadata covers the field's bytes `s`; the value stops at a NUL. */
  function StrEntry(name: string, s: Bytes): Field
  {
    Field(name, MetaFrom(s), Val.Str(DecodeStr(s)))
  }

  /** An octal field's entry. */
  function OctEntry(name: string, s: Bytes, bits: nat): Field
    requires (bits == 8 || bits == 32 || bits == 64) && OctalFieldOk(s.data, bits)
  {
    Field(name, MetaFrom(s), UnsignedVal(OctalField(s.data, bits), bits))
  }

  /** An uninterpreted field's entry. */
  function RawEntry(name: string, s: Bytes): Field
  {
    Field(name, MetaFrom(s), Default)
  }

  /** The entries of a ustar part `u`, by their offsets in it. */
  function UstarEntries(u: Bytes): seq<Field>
    requires |u.data| >= 243 && UstarOk(u.data)
  {
    [ RawEntry("magic", Slice(u, 0, 6)),
      OctEntry("version", Slice(u, 6, 8), 8),
      StrEntry("uname", Slice(u, 8, 40)),
      StrEntry("gname", Slice(u, 40, 72)),
      OctEntry("devmajor", Slice(u, 72, 80), 32),
      OctEntry("devminor", Slice(u, 80, 88), 32),
      StrEntry("prefix", Slice(u, 88, 243)) ]
  }

  /** `UstarEntries`, as the decoder appends them one by one. */
  lemma UstarEntriesAppended(u: Bytes)
    requires |u.data| >= 243 && UstarOk(u.data)
    ensures [] + [RawEntry("magic", Slice(u, 0, 6))] + [OctEntry("version", Slice(u, 6, 8), 8)] +
      [StrEntry("uname", Slice(u, 8, 40))] + [StrEntry("gname", Slice(u, 40, 72))] +
      [OctEntry("devmajor", Slice(u, 72, 80), 32)] + [OctEntry("devminor", Slice(u, 80, 88), 32)] +
      [StrEntry("prefix", Slice(u, 88, 243))] == UstarEntries(u)
  {
    AppendSeven(RawEntry("magic", Slice(u, 0, 6)), OctEntry("version", Slice(u, 6, 8), 8),
      StrEntry("uname", Slice(u, 8, 40)), StrEntry("gname", Slice(u, 40, 72)),
      OctEntry("devmajor", Slice(u, 72, 80), 32), OctEntry("devminor", Slice(u, 80, 88), 32),
      StrEntry("prefix", Slice(u, 88, 243)));
  }

  /** The entries of the header fields up to `linkname`, 257 bytes in all. */
  function HeaderEntries(b: Bytes): seq<Field>
    requires |b.data| >= 257 && NumbersOk(b.data)
  {
    [ StrEntry("name", Slice(b, 0, 100)),
      OctEntry("mode", Slice(b, 100, 108), 32),
      OctEntry("uid", Slice(b, 108, 116), 32),
      OctEntry("gid", Slice(b, 116, 124), 32),
      OctEntry("size", Slice(b, 124, 136), 64),
      OctEntry("mtime", Slice(b, 136, 148), 64),
      OctEntry("chksum", Slice(b, 148, 156), 32),
      StrEntry("typeflag", Slice(b, 156, 157)),
      StrEntry("linkname", Slice(b, 157, 257)) ]
  }

  /** `HeaderEntries`, as the decoder appends them one by one. */
  lemma HeaderEntriesAppended(b: Bytes)
    requires |b.data| >= 257 && NumbersOk(b.data)
    ensures [] + [StrEntry("name", Slice(b, 0, 100))] + [OctEntry("mode", Slice(b, 100, 108), 32)] +
      [OctEntry("uid", Slice(b, 108, 116), 32)] + [OctEntry("gid", Slice(b, 116, 124), 32)] +
      [OctEntry("size", Slice(b, 124, 136), 64)] + [OctEntry("mtime", Slice(b, 136, 148), 64)] +
      [OctEntry("chksum", Slice(b, 148, 156), 32)] + [StrEntry("typeflag", Slice(b, 156, 157))] +
      [StrEntry("linkname", Slice(b, 157, 257))] == HeaderEntries(b)
  {
    AppendNine(StrEntry("name", Slice(b, 0, 100)), OctEntry("mode", Slice(b, 100, 108), 32),
      OctEntry("uid", Slice(b, 108, 116), 32), OctEntry("gid", Slice(b, 116, 124), 32),
      OctEntry("size", Slice(b, 124, 136), 64), OctEntry("mtime", Slice(b, 136, 148), 64),
      OctEntry("chksum", Slice(b, 148, 156), 32), StrEntry("typeflag", Slice(b, 156, 157)),
      StrEntry("linkname", Slice(b, 157, 257)));
  }

  /** The `ustar` entry, if the header has the ustar part: an object over bytes 257 to 500. */
  function UstarEntry(b: Bytes): seq<Field>
    requires HeaderOk(b.data) && |b.data| >= HeaderEnd(b.data)
  {
    if IsUstar(b.data) then [Field("ustar", MetaFrom(Slice(b, 257, 500)), Obj(UstarEntries(Drop(b, 257))))] else []
  }

  /** Where the header fields end and the header padding begins. */
  function HeaderEnd(d: seq<uint8>): nat
  {
    if IsUstar(d) then 500 else 257
  }

  /**
   * The padding from `hend` to the end of the header block, the `size` bytes of data, and the
   * padding to the end of their last block.
   */
  function BodyEntries(b: Bytes, hend: nat, size: nat): seq<Field>
    requires hend <= BLOCK_BYTES && RecordLenOf(size) <= |b.data|
  {
    [ RawEntry("header_block_padding", Slice(b, hend, BLOCK_BYTES)),
      RawEntry("data", Slice(b, BLOCK_BYTES, BLOCK_BYTES + size)),
      RawEntry("data_block_padding", Slice(b, BLOCK_BYTES + size, RecordLenOf(size))) ]
  }

  /**
   * The entries of the file record at the start of `b`, by their offsets in it: the header
   * fields, the ustar part when the header has one, the padding to the end of the header block,
   * the `size` bytes of data and the padding after them.
   */
  function FileEntries(b: Bytes): seq<Field>
    requires HeaderOk(b.data) && RecordFits(b.data)
  {
    HeaderEntries(b) + UstarEntry(b) + BodyEntries(b, HeaderEnd(b.data), Size(b.data))
  }

  /** The outermost path steps a failing `decode_file` can report. */
  const FILE_FIELDS: seq<Index> :=
    [Index.Str("name"), Index.Str("mode"), Index.Str("uid"), Index.Str("gid"), Index.Str("size"),
     Index.Str("mtime"), Index.Str("chksum"), Index.Str("typeflag"), Index.Str("linkname"),
     Index.Str("ustar"), Index.Str("header_block_padding"), Index.Str("data"), Index.Str("data_block_padding")]

  // ---------------------------------------------------------------------------------------------
  // Decoders
  // ---------------------------------------------------------------------------------------------

  // The helpers below are `o.add(field, take_..(b, ..))?` for the field of a record `rec` at
  // offset `k`, where the cursor `b` is.

  /** `o.add(field, take_str(b, n))?`. */
  method AddStr(o: Obj, field: string, b: Bytes, n: nat, ghost rec: Bytes, ghost k: nat)
    returns (o': Obj, b': Bytes, r: Result<(), Error>)
    requires k <= |rec.data| && b == Drop(rec, k)
    ensures r.Ok? <==> k + n <= |rec.data|
    ensures r.Err? ==> o' == o && b' == b && r.error == Error(b, [Index.Str(field)], ExpectedBytes(n))
    ensures r.Ok? ==> o' == o + [StrEntry(field, Slice(rec, k, k + n))] && b' == Drop(rec, k + n)
  {
    var d, y;
    b', d := TakeStr(b, n);
    o', y := ObjAdd(o, field, d);
    r := if y.Err? then Err(y.error) else Ok(());
    PrefixOfDrop(rec, k, n);
    if k + n <= |rec.data| {
      DropDrop(rec, k, n);
    }
  }

  /** `o.add(field, raw(b, n))?`. */
  method AddRaw(o: Obj, field: string, b: Bytes, n: nat, ghost rec: Bytes, ghost k: nat)
    returns (o': Obj, b': Bytes, r: Result<(), Error>)
    requires k <= |rec.data| && b == Drop(rec, k)
    ensures r.Ok? <==> k + n <= |rec.data|
    ensures r.Err? ==> o' == o && b' == b && r.error == Error(b, [Index.Str(field)], ExpectedBytes(n))
    ensures r.Ok? ==> o' == o + [RawEntry(field, Slice(rec, k, k + n))] && b' == Drop(rec, k + n)
  {
    var d, y;
    b', d := ReadRaw(b, n);
    o', y := ObjAdd(o, field, d);
    r := if y.Err? then Err(y.error) else Ok(());
    PrefixOfDrop(rec, k, n);
    if k + n <= |rec.data| {
      DropDrop(rec, k, n);
    }
  }

  /** The width of the octal fields read as `u8`, `u32` and `u64`. */
  function OctWidth(bits: nat): nat
  {
    if bits == 8 then 2 else if bits == 32 then 8 else 12
  }

  /** `o.add(field, take_oct8/32/64(b))?`, returning the number read. */
  method AddOct(o: Obj, field: string, b: Bytes, bits: nat, ghost rec: Bytes, ghost k: nat)
    returns (o': Obj, b': Bytes, r: Result<nat, Error>)
    requires (bits == 8 || bits == 32 || bits == 64)
    requires k <= |rec.data| && b == Drop(rec, k) && OctAt(rec.data, k, OctWidth(bits), bits)
    ensures r.Ok? <==> k + OctWidth(bits) <= |rec.data|
    ensures r.Err? ==> o' == o && b' == b && r.error == Error(b, [Index.Str(field)], ExpectedBytes(OctWidth(bits)))
    ensures r.Ok? ==> (b' == Drop(rec, k + OctWidth(bits)) &&
      o' == o + [OctEntry(field, Slice(rec, k, k + OctWidth(bits)), bits)] &&
      r.value == OctalField(rec.data[k..k + OctWidth(bits)], bits))
  {
    var w := OctWidth(bits);
    PrefixOfDrop(rec, k, w);
    if k + w <= |rec.data| {
      DropDrop(rec, k, w);
    }
    if bits == 8 {
      var d, y;
      b', d := TakeOct8(b);
      o', y := ObjAdd(o, field, d);
      r := if y.Err? then Err(y.error) else Ok(y.value);
    } else if bits == 32 {
      var d, y;
      b', d := TakeOct32(b);
      o', y := ObjAdd(o, field, d);
      r := if y.Err? then Err(y.error) else Ok(y.value);
    } else {
      var d, y;
      b', d := TakeOct64(b);
      o', y := ObjAdd(o, field, d);
      r := if y.Err? then Err(y.error) else Ok(y.value);
    }
  }

  /**
   * `decode_ustar`, run on the fresh object its caller makes: the seven fields of the ustar part,
   * 243 bytes in all. It fails exactly when fewer than 243 bytes remain, with the error of the
   * field that runs out, which starts at the cursor it leaves; the entries added before stay.
   */
  method DecodeUstar(b: Bytes) returns (o: Obj, b': Bytes, r: Result<(), Error>)
    requires UstarOk(b.data)
    ensures r.Ok? <==> |b.data| >= 243
    ensures r.Ok? ==> o == UstarEntries(b) && b' == Drop(b, 243)
    ensures r.Err? ==> (b' == r.error.position && |r.error.path| == 1 &&
      r.error.msg.ExpectedBytes? && r.error.msg.n > |b'.data|)
  {
    // `v.make_obj()` of the caller: the entries go into a fresh object.
    var v := MakeObj(Default);
    o, b' := v.obj, b;
    var n;
    assert b == Drop(b, 0);
    o, b', r := AddRaw(o, "magic", b', 6, b, 0);
    if r.Err? {
      return;
    }
    o, b', n := AddOct(o, "version", b', 8, b, 6);
    if n.Err? {
      return o, b', Err(n.error);
    }
    o, b', r := AddStr(o, "uname", b', 32, b, 8);
    if r.Err? {
      return;
    }
    o, b', r := AddStr(o, "gname", b', 32, b, 40);
    if r.Err? {
      return;
    }
    o, b', n := AddOct(o, "devmajor", b', 32, b, 72);
    if n.Err? {
      return o, b', Err(n.error);
    }
    o, b', n := AddOct(o, "devminor", b', 32, b, 80);
    if n.Err? {
      return o, b', Err(n.error);
    }
    o, b', r := AddStr(o, "prefix", b', 155, b, 88);
    if r.Err? {
      return;
    }
    UstarEntriesAppended(b);
  }

  /**
   * The header fields of `decode_file`, from `name` to `linkname` (257 bytes), returning the
   * `size` field. It fails exactly when fewer than 257 bytes remain, with the error of the field
   * that runs out, which starts at the cursor it leaves.
   */
  method DecodeHeader(b: Bytes) returns (o: Obj, b': Bytes, r: Result<nat, Error>)
    requires NumbersOk(b.data)
    ensures r.Ok? <==> |b.data| >= 257
    ensures r.Ok? ==> o == HeaderEntries(b) && b' == Drop(b, 257) && r.value == OctalField(b.data[124..136], 64)
    ensures r.Err? ==> (b' == r.error.position && |r.error.path| == 1 &&
      r.error.msg.ExpectedBytes? && r.error.msg.n > |b'.data|)
  {
    // `o.make_obj()` of the caller: the entries go into a fresh object.
    var v := MakeObj(Default);
    o, b' := v.obj, b;
    var y, n;
    assert b == Drop(b, 0);
    o, b', y := AddStr(o, "name", b', 100, b, 0);
    if y.Err? {
      return o, b', Err(y.error);
    }
    o, b', n := AddOct(o, "mode", b', 32, b, 100);
    if n.Err? {
      return o, b', n;
    }
    o, b', n := AddOct(o, "uid", b', 32, b, 108);
    if n.Err? {
      return o, b', n;
    }
    o, b', n := AddOct(o, "gid", b', 32, b, 116);
    if n.Err? {
      return o, b', n;
    }
    o, b', r := AddOct(o, "size", b', 64, b, 124);
    if r.Err? {
      return;
    }
    o, b', n := AddOct(o, "mtime", b', 64, b, 136);
    if n.Err? {
      return o, b', n;
    }
    o, b', n := AddOct(o, "chksum", b', 32, b, 148);
    if n.Err? {
      return o, b', n;
    }
    o, b', y := AddStr(o, "typeflag", b', 1, b, 156);
    if y.Err? {
      return o, b', Err(y.error);
    }
    o, b', y := AddStr(o, "linkname", b', 100, b, 157);
    if y.Err? {
      return o, b', Err(y.error);
    }
    HeaderEntriesAppended(b);
  }

  /** `b.starts_with(b"ustar\0")` after the 257 bytes up to `linkname`: the header has a ustar part. */
  lemma StartsWithMagic(d: seq<uint8>)
    requires |d| >= 257
    ensures StartsWith(d[257..], USTAR_MAGIC) <==> IsUstar(d)
  {
    if |d| >= 263 {
      assert d[257..][..6] == d[257..263];
    }
  }

  /**
   * `o.add_consumed("ustar", b, |b, v| decode_ustar(v.make_obj(), b))?` at offset 257 of the
   * record `rec`: the entry covers what `decode_ustar` consumed (all of it when it fails) and
   * holds the object it built.
   */
  method AddUstar(o: Obj, b: Bytes, ghost rec: Bytes) returns (o': Obj, b': Bytes, r: Result<(), Error>)
    requires |rec.data| >= 257 && b == Drop(rec, 257) && UstarOk(b.data)
    ensures r.Ok? <==> |rec.data| >= 500
    ensures r.Ok? ==> (b' == Drop(rec, 500) &&
      o' == o + [Field("ustar", MetaFrom(Slice(rec, 257, 500)), Obj(UstarEntries(b)))])
    ensures r.Err? ==> (b' == r.error.position && |r.error.path| == 2 &&
      r.error.msg.ExpectedBytes? && r.error.msg.n > |b'.data|)
  {
    var u, y;
    u, b', y := DecodeUstar(b);
    if y.Ok? {
      DropDrop(rec, 257, 243);
      PrefixOfDrop(rec, 257, 243);
    }
    o', r := ObjAddConsumed(o, "ustar", b, b', Obj(u), y);
  }

  /**
   * The end of `decode_file`, from `hend` bytes into the record that starts at `init`: the
   * padding to the end of the header block, `size` bytes of data and the padding after them,
   * each padding taken from the cursor's offset from `init`.
   */
  method DecodeBody(o: Obj, b: Bytes, init: Bytes, hend: nat, size: nat)
    returns (o': Obj, b': Bytes, r: Result<(), Error>)
    requires 0 < hend < BLOCK_BYTES && hend <= |init.data| && b == Drop(init, hend)
    ensures r.Ok? <==> BLOCK_BYTES <= |init.data| && RecordLenOf(size) <= |init.data|
    ensures r.Ok? ==> o' == o + BodyEntries(init, hend, size) && b' == Drop(init, RecordLenOf(size))
    ensures r.Err? ==> (b' == r.error.position && |r.error.path| == 1 &&
      r.error.msg.ExpectedBytes? && r.error.msg.n > |b'.data|)
  {
    var offset := b.pos - init.pos;
    PaddingAsWrittenToBlock(hend);
    o', b', r := AddRaw(o, "header_block_padding", b, PaddingAsWritten(offset), init, hend);
    if r.Err? {
      return;
    }
    // `size.try_into().unwrap()` cannot panic: `usize` is 64 bits wide.
    o', b', r := AddRaw(o', "data", b', size, init, BLOCK_BYTES);
    if r.Err? {
      return;
    }
    offset := b'.pos - init.pos;
    o', b', r := AddRaw(o', "data_block_padding", b', PaddingAsWritten(offset), init, BLOCK_BYTES + size);
    if r.Err? {
      return;
    }
    AppendThree(o, RawEntry("header_block_padding", Slice(init, hend, BLOCK_BYTES)),
      RawEntry("data", Slice(init, BLOCK_BYTES, BLOCK_BYTES + size)),
      RawEntry("data_block_padding", Slice(init, BLOCK_BYTES + size, RecordLenOf(size))));
  }

  /**
   * `decode_file`, run on the fresh object its caller makes: the header fields, the ustar part
   * when the bytes after `linkname` start with "ustar\0", the padding to the end of the header
   * block, `size` bytes of data and the padding to the end of their last block. It succeeds
   * exactly when the whole record is there and then consumes it, with the entries of
   * `FileEntries`; otherwise it fails with the error of the field that runs out, which starts
   * at the cursor it leaves.
   */
  method DecodeFile(b: Bytes) returns (o: Obj, b': Bytes, r: Result<(), Error>)
    requires HeaderOk(b.data)
    ensures r.Ok? <==> RecordFits(b.data)
    ensures r.Ok? ==> o == FileEntries(b) && b' == Drop(b, RecordLen(b.data))
    ensures r.Err? ==> (b' == r.error.position && 1 <= |r.error.path| <= 2 &&
      r.error.msg.ExpectedBytes? && r.error.msg.n > |b'.data|)
  {
    var size;
    o, b', size := DecodeHeader(b);
    if size.Err? {
      return o, b', Err(size.error);
    }
    StartsWithMagic(b.data);
    if StartsWith(b'.data, USTAR_MAGIC) {
      o, b', r := AddUstar(o, b', b);
      if r.Err? {
        return;
      }
    }
    assert o == HeaderEntries(b) + UstarEntry(b) && b' == Drop(b, HeaderEnd(b.data));
    o, b', r := DecodeBody(o, b', b, HeaderEnd(b.data), size.value);
  }

  // ---------------------------------------------------------------------------------------------
  // Archives
  // ---------------------------------------------------------------------------------------------

  /** The loop of `decode_tar` stops at the end marker or at the end of the input. */
  predicate AtEnd(d: seq<uint8>)
  {
    StartsWithEndMarker(d) || d == []
  }

  /** `b.starts_with(&END_MARKER)`: the first two blocks are there and are all zeros. */
  predicate StartsWithEndMarker(d: seq<uint8>)
  {
    |d| >= END_MARKER_BYTES && AllZero(d[..END_MARKER_BYTES])
  }

  /** Every byte of `s` is zero, checked from the front. */
  predicate AllZero(s: seq<uint8>)
  {
    s == [] || (s[0] == 0 && AllZero(s[1..]))
  }

  lemma {:induction false} AllZeroSpec(s: seq<uint8>)
    ensures AllZero(s) <==> forall i :: 0 <= i < |s| ==> s[i] == 0
  {
    if s != [] {
      AllZeroSpec(s[1..]);
      if forall i :: 0 <= i < |s| ==> s[i] == 0 {
        assert forall i :: 0 <= i < |s[1..]| ==> s[1..][i] == s[i + 1];
      } else if AllZero(s) {
        forall i | 0 <= i < |s| ensures s[i] == 0 {
          if i > 0 {
            assert s[i] == s[1..][i - 1];
          }
        }
      }
    }
  }

  /**
   * Decoding the archive `d` cannot panic: every header that the loop of `decode_tar` reaches
   * passes `HeaderOk`.
   */
  predicate ArchiveOk(d: seq<uint8>)
    decreases |d|
  {
    !AtEnd(d) ==> HeaderOk(d) && (RecordFits(d) ==> ArchiveOk(d[RecordLen(d)..]))
  }

  /** Every record up to the end marker or the end of the input is whole. */
  predicate ArchiveFits(d: seq<uint8>)
    requires ArchiveOk(d)
    decreases |d|
  {
    !AtEnd(d) ==> RecordFits(d) && ArchiveFits(d[RecordLen(d)..])
  }

  /** The number of bytes of the records before the end marker or the end of the input. */
  function FilesLen(d: seq<uint8>): (n: nat)
    requires ArchiveOk(d) && ArchiveFits(d)
    ensures n <= |d|
    decreases |d|
  {
    if AtEnd(d) then 0 else RecordLen(d) + FilesLen(d[RecordLen(d)..])
  }

  /** The number of blocks of the records before the end marker or the end of the input. */
  function FilesBlocks(d: seq<uint8>): nat
    requires ArchiveOk(d) && ArchiveFits(d)
    decreases |d|
  {
    if AtEnd(d) then 0 else RecordBlocks(Size(d)) + FilesBlocks(d[RecordLen(d)..])
  }

  /** The records before the end marker fill a whole number of blocks. */
  lemma {:induction false} FilesLenInBlocks(d: seq<uint8>)
    requires ArchiveOk(d) && ArchiveFits(d)
    ensures FilesLen(d) == BLOCK_BYTES * FilesBlocks(d)
    decreases |d|
  {
    if !AtEnd(d) {
      RecordLenInBlocks(Size(d));
      FilesLenInBlocks(d[RecordLen(d)..]);
    }
  }

  /**
   * The elements of the `files` array read without error: one object per record, covering the
   * record, up to the end marker, the end of the input or the first record that does not fit.
   */
  function Files(b: Bytes): (es: Arr)
    requires ArchiveOk(b.data)
    decreases |b.data|
  {
    if AtEnd(b.data) || !RecordFits(b.data) then [] else [FileElem(b)] + Files(Drop(b, RecordLen(b.data)))
  }

  /** The cursor at the first record that does not fit, in an archive that has one. */
  function FirstShort(b: Bytes): (c: Bytes)
    requires ArchiveOk(b.data) && !ArchiveFits(b.data)
    ensures !AtEnd(c.data) && HeaderOk(c.data) && !RecordFits(c.data)
    decreases |b.data|
  {
    if !RecordFits(b.data) then b else FirstShort(Drop(b, RecordLen(b.data)))
  }

  /**
   * The `files` array that `decode_tar` leaves when a record is cut short: the files before it,
   * then the element of that record, which covers the input from its start and holds the error.
   */
  predicate FilesCutShort(es: Arr, b: Bytes)
    requires ArchiveOk(b.data) && !ArchiveFits(b.data)
  {
    var n := |Files(b)|;
    |es| == n + 1 && es[..n] == Files(b) && es[n].meta.bytes == FirstShort(b) && es[n].meta.error.Some?
  }

  /** The element of the record at the start of `b`: it covers the record and holds its entries. */
  function FileElem(b: Bytes): Elem
    requires HeaderOk(b.data) && RecordFits(b.data)
  {
    Elem(MetaFrom(Prefix(b, RecordLen(b.data))), Obj(FileEntries(b)))
  }

  /**
   * The elements of `files` cover the archive's records one after the other, without gap or
   * overlap: together they are the bytes the `files` entry covers.
   */
  lemma {:induction false} FilesTiled(b: Bytes)
    requires ArchiveOk(b.data) && ArchiveFits(b.data)
    ensures Tiled(Files(b), Prefix(b, FilesLen(b.data)))
    decreases |b.data|
  {
    if !AtEnd(b.data) {
      var n := RecordLen(b.data);
      var rest := Drop(b, n);
      var m := FilesLen(b.data);
      var whole := Prefix(b, m);
      FilesTiled(rest);
      assert m == n + FilesLen(rest.data);
      PrefixOfPrefix(b, n, m);
      TiledCons(FileElem(b), Files(rest), whole);
    }
  }

  /** One record of `Files`, `FilesLen`, `FirstShort` and `ArchiveFits`, as the loop of `decode_tar` steps over it. */
  lemma FilesStep(b: Bytes)
    requires ArchiveOk(b.data) && !AtEnd(b.data) && RecordFits(b.data)
    ensures ArchiveOk(b.data[RecordLen(b.data)..])
    ensures Files(b) == [FileElem(b)] + Files(Drop(b, RecordLen(b.data)))
    ensures ArchiveFits(b.data) <==> ArchiveFits(b.data[RecordLen(b.data)..])
    ensures ArchiveFits(b.data) ==> FilesLen(b.data) == RecordLen(b.data) + FilesLen(b.data[RecordLen(b.data)..])
    ensures !ArchiveFits(b.data) ==> FirstShort(b) == FirstShort(Drop(b, RecordLen(b.data)))
  {
  }

  /**
   * `a.add_consumed(b, |b, o| decode_file(o.make_obj(), b))?`: one element for the record at the
   * start of `b`, covering what `decode_file` consumed.
   */
  method AddFile(a: Arr, b: Bytes) returns (a': Arr, b': Bytes, r: Result<(), Error>)
    requires HeaderOk(b.data)
    ensures r.Ok? <==> RecordFits(b.data)
    ensures r.Ok? ==> a' == a + [FileElem(b)] && b' == Drop(b, RecordLen(b.data))
    ensures r.Err? ==> |a'| == |a| + 1 && a'[..|a|] == a && a'[|a|].meta.bytes == b && a'[|a|].meta.error.Some?
    ensures r.Err? ==> |r.error.path| >= 1 && r.error.path[|r.error.path| - 1] == Index.Int(|a|)
    ensures r.Err? ==> r.error == WithIndex(a'[|a|].meta.error.value, Index.Int(|a|))
  {
    var file;
    file, b', r := DecodeFile(b);
    if r.Ok? {
      ConsumedPrefix(b, b', RecordLen(b.data));
    }
    a', r := ArrAddConsumed(a, b, b', Obj(file), r);
    if r.Err? {
      AppendKeepsPrefix(a, [a'[|a|]]);
    }
  }

  /**
   * The state of the loop of `decode_tar` after it has read the records of `a`, the first `k`
   * bytes of `b`, and holds the rest in `cur`: those are the first records of `Files(b)` and
   * `Files(cur)` are the rest of them; the first record cut short, if any, lies ahead.
   */
  ghost predicate Scanned(b: Bytes, cur: Bytes, a: Arr, k: nat)
  {
    k + |cur.data| == |b.data| && ArchiveOk(b.data) && ArchiveOk(cur.data) &&
    Files(b) == a + Files(cur) &&
    (ArchiveFits(b.data) <==> ArchiveFits(cur.data)) &&
    (ArchiveFits(b.data) ==> FilesLen(b.data) == k + FilesLen(cur.data)) &&
    (!ArchiveFits(b.data) ==> FirstShort(b) == FirstShort(cur))
  }

  lemma ScannedStart(b: Bytes)
    requires ArchiveOk(b.data)
    ensures Scanned(b, b, [], 0)
  {
    assert [] + Files(b) == Files(b);
  }

  /** Reading one record keeps the loop state. */
  lemma ScannedStep(b: Bytes, start: Bytes, cur: Bytes, a0: Arr, a: Arr, k: nat)
    requires Scanned(b, start, a0, k) && !AtEnd(start.data) && RecordFits(start.data)
    requires a == a0 + [FileElem(start)] && cur == Drop(start, RecordLen(start.data))
    ensures Scanned(b, cur, a, k + RecordLen(start.data))
  {
    var n := RecordLen(start.data);
    FilesStep(start);
    assert cur.data == start.data[n..];
    AppendAssoc(a0, [FileElem(start)], Files(cur));
  }

  /** At a record that does not fit, the loop has read every file before it. */
  lemma ScannedShort(b: Bytes, cur: Bytes, a: Arr, k: nat)
    requires Scanned(b, cur, a, k) && !AtEnd(cur.data) && !RecordFits(cur.data)
    ensures !ArchiveFits(b.data) && Files(b) == a && FirstShort(b) == cur
  {
    assert a + [] == a;
  }

  /** At the end marker or the end of the input, the loop has read the whole archive. */
  lemma ScannedEnd(b: Bytes, cur: Bytes, a: Arr, k: nat)
    requires Scanned(b, cur, a, k) && AtEnd(cur.data)
    ensures ArchiveFits(b.data) && a == Files(b) && k == FilesLen(b.data)
  {
    assert ArchiveFits(cur.data);
    assert Files(cur) == [] && FilesLen(cur.data) == 0;
    assert a + [] == a;
  }

  /**
   * The closure of `decode_tar`: the elements of a fresh array, one per file record, read until
   * the end marker or the end of the input. It succeeds exactly when every record before that is
   * whole, and then has read `Files(b)` from the first `FilesLen` bytes of `b`. Otherwise it stops
   * at the first record that does not fit, after the files before it, with its element and error.
   */
  method DecodeFiles(b: Bytes) returns (a: Arr, cur: Bytes, y: Result<(), Error>)
    requires ArchiveOk(b.data)
    ensures y.Ok? <==> ArchiveFits(b.data)
    ensures y.Ok? ==> a == Files(b) && |cur.data| <= |b.data| && |b.data| - |cur.data| == FilesLen(b.data)
    ensures y.Err? ==> FilesCutShort(a, b)
    ensures y.Err? ==> |y.error.path| >= 1 && y.error.path[|y.error.path| - 1] == Index.Int(|Files(b)|)
    ensures y.Err? ==> y.error == WithIndex(a[|Files(b)|].meta.error.value, Index.Int(|Files(b)|))
  {
    // `a.make_arr()`: the elements go into a fresh array.
    var v := MakeArr(Default);
    cur, a, y := b, v.arr, Ok(());
    ghost var k: nat := 0;
    ScannedStart(b);
    while !StartsWithEndMarker(cur.data) && cur.data != []
      invariant Scanned(b, cur, a, k)
      decreases |cur.data|
    {
      var start, z := cur, Ok(());
      ghost var a0 := a;
      a, cur, z := AddFile(a, start);
      if z.Err? {
        ScannedShort(b, start, a0, k);
        y := z;
        return;
      }
      ScannedStep(b, start, cur, a0, a, k);
      k := k + RecordLen(start.data);
    }
    ScannedEnd(b, cur, a, k);
  }

  /** The bytes consumed up to the cursor `cur`, when they are `n`, are the first `n` bytes of `b`. */
  lemma ConsumedPrefix(b: Bytes, cur: Bytes, n: nat)
    requires |cur.data| <= |b.data| && |b.data| - |cur.data| == n
    ensures Prefix(b, |b.data| - |cur.data|) == Prefix(b, n)
  {
  }

  /**
   * `decode_tar`: one `files` entry, an array with one object per file record, read until the
   * end marker or the end of the input. It succeeds exactly when every record before that is
   * whole; the entry then covers the records and holds `Files(b)`. Otherwise the entry covers
   * the input, records the error, and holds the files before the first record that does not fit
   * followed by that record's element (`FilesCutShort`); the error's path names both.
   */
  method DecodeTar(o: Obj, b: Bytes) returns (o': Obj, r: Result<(), Error>)
    requires ArchiveOk(b.data)
    ensures r.Ok? <==> ArchiveFits(b.data)
    ensures r.Ok? ==> o' == o + [Field("files", MetaFrom(Prefix(b, FilesLen(b.data))), Arr(Files(b)))]
    ensures r.Err? ==> (|o'| == |o| + 1 && o'[..|o|] == o && o'[|o|].name == "files" &&
      o'[|o|].meta.bytes == b && o'[|o|].meta.error.Some?)
    ensures r.Err? ==> o'[|o|].val.Arr? && FilesCutShort(o'[|o|].val.arr, b)
    ensures r.Err? ==> (|r.error.path| >= 2 && r.error.path[|r.error.path| - 2] == Index.Int(|Files(b)|) &&
      r.error.path[|r.error.path| - 1] == Index.Str("files"))
    ensures r.Err? ==> r.error == WithIndex(o'[|o|].meta.error.value, Index.Str("files"))
    ensures r.Err? ==>
      o'[|o|].meta.error.value == WithIndex(o'[|o|].val.arr[|Files(b)|].meta.error.value, Index.Int(|Files(b)|))
  {
    var a, cur, y := DecodeFiles(b);
    if y.Ok? {
      ConsumedPrefix(b, cur, FilesLen(b.data));
    }
    o', r := ObjAddConsumed(o, "files", b, cur, Arr(a), y);
    if r.Err? {
      AppendKeepsPrefix(o, [o'[|o|]]);
    }
  }
}
