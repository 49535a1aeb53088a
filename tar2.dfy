/**
 * The second ustar decoder, `src/tar2.rs`: the record layout of `Tar`, read into plain values
 * (`Header`, `UStar`, `File`) that view slices of the input, with `None` for input that runs
 * short. The cursor `&mut &[u8]` is modelled as the bytes it still views; since it only ever
 * moves forward through the record, `offset(d)` is the record's length minus the cursor's.
 *
 * Every text field goes through `utf8`, which unwraps `from_utf8`, and every number field through
 * `from_str_radix(..).unwrap()`; the decoders require that no field they reach panics
 * (`HeaderOk`).
 */
module Tar2 {
  import opened Wrappers
  import opened Buffers
  import opened Text
  import Tar
  import Decode

  /** `U8`, `U32`, `U64`: the text of a number field before trimming, and the number it writes. */
  datatype Num = Num(text: seq<uint8>, value: nat)

  datatype UStar = UStar(magic: seq<uint8>, version: Num, uname: seq<uint8>, gname: seq<uint8>,
    devmajor: Num, devminor: Num, prefix: seq<uint8>)

  datatype Header = Header(name: seq<uint8>, mode: Num, uid: Num, gid: Num, size: Num, mtime: Num,
    chksum: Num, typeflag: seq<uint8>, linkname: seq<uint8>, ustar: Option<UStar>)

  /** A file record: the bytes it spans, its header and its data. */
  datatype File = File(src: seq<uint8>, header: Header, data: seq<uint8>)

  // ---------------------------------------------------------------------------------------------
  // Fields
  // ---------------------------------------------------------------------------------------------

  /**
   * `take(d, n)`: the first `n` bytes, which with the rest left in the cursor make up the input;
   * `None`, with the cursor unchanged, when fewer than `n` remain.
   */
  method Take(d: seq<uint8>, n: nat) returns (d': seq<uint8>, r: Option<seq<uint8>>)
    ensures r.Some? <==> n <= |d|
    ensures r.Some? ==> r.value == d[..n] && d' == d[n..] && r.value + d' == d
    ensures r.None? ==> d' == d
  {
    if n > |d| {
      return d, None;
    }
    d', r := d[n..], Some(d[..n]);
    assert d[..n] + d[n..] == d;
  }

  /**
   * `utf8`: the bytes before the first NUL, or all of them (`BeforeNulSpec`);
   * `from_utf8(..).unwrap()` requires them to be UTF-8.
   */
  function Utf8(s: seq<uint8>): (r: seq<uint8>)
    requires IsUtf8(BeforeNul(s))
    ensures |r| <= |s|
  {
    BeforeNul(s)
  }

  /** `oct8`/`oct32`/`oct64` of `utf8(f)`: the text before the NUL and the `bits`-bit number it writes. */
  function NumOf(f: seq<uint8>, bits: nat): (n: Num)
    requires OctalFieldOk(f, bits)
    ensures n.value < UintBound(bits)
  {
    OctalFieldIsUtf8(f, bits);
    Num(Utf8(f), OctalField(f, bits))
  }

  /** The `w`-byte text field at `off` is UTF-8 before its NUL, if the bytes are there. */
  predicate TextAt(d: seq<uint8>, off: nat, w: nat)
  {
    off + w <= |d| ==> IsUtf8(BeforeNul(d[off..off + w]))
  }

  /** The text fields of a ustar part `u` (uname, gname, prefix) are UTF-8 where present. */
  predicate UstarTextsOk(u: seq<uint8>)
  {
    TextAt(u, 8, 32) && TextAt(u, 40, 32) && TextAt(u, 88, 155)
  }

  /** Decoding the ustar part `u` cannot panic: after the magic, its fields convert where present. */
  predicate UstarOk(u: seq<uint8>)
  {
    StartsWith(u, Tar.USTAR_MAGIC) ==> Tar.UstarOk(u) && UstarTextsOk(u)
  }

  /**
   * Decoding the header at the start of `d` cannot panic: the number fields parse as for `Tar`,
   * and name, typeflag, linkname and, with the ustar part, its text fields are UTF-8.
   */
  predicate HeaderOk(d: seq<uint8>)
  {
    Tar.HeaderOk(d) && TextAt(d, 0, 100) && TextAt(d, 156, 1) && TextAt(d, 157, 100) &&
    (Tar.IsUstar(d) ==> UstarTextsOk(d[257..]))
  }

  // ---------------------------------------------------------------------------------------------
  // Records by their layout
  // ---------------------------------------------------------------------------------------------

  /** The ustar part at the start of `u`, by the offsets of its fields. */
  function UStarOf(u: seq<uint8>): UStar
    requires |u| >= 243 && StartsWith(u, Tar.USTAR_MAGIC) && UstarOk(u)
  {
    MagicText();
    UStar(Utf8(u[..6]), NumOf(u[6..8], 8), Utf8(u[8..40]), Utf8(u[40..72]),
      NumOf(u[72..80], 32), NumOf(u[80..88], 32), Utf8(u[88..243]))
  }

  /** The magic converts: its text is "ustar". */
  lemma MagicText()
    ensures BeforeNul(Tar.USTAR_MAGIC) == Tar.USTAR_MAGIC[..5] && IsUtf8(BeforeNul(Tar.USTAR_MAGIC))
  {
    assert NulIndex(Tar.USTAR_MAGIC) == 5;
    AsciiIsUtf8(Tar.USTAR_MAGIC[..5]);
  }

  /**
   * The header at the start of `d`, by the offsets of its fields. It carries the ustar part when
   * the bytes after `linkname` start with the magic and the part is whole.
   */
  function HeaderOf(d: seq<uint8>): (h: Header)
    requires |d| >= 257 && HeaderOk(d)
    ensures h.size.value == Tar.Size(d)
  {
    Tar.StartsWithMagic(d);
    Header(Utf8(d[..100]), NumOf(d[100..108], 32), NumOf(d[108..116], 32), NumOf(d[116..124], 32),
      NumOf(d[124..136], 64), NumOf(d[136..148], 64), NumOf(d[148..156], 32), Utf8(d[156..157]),
      Utf8(d[157..257]), if Tar.IsUstar(d) && |d| >= 500 then Some(UStarOf(d[257..])) else None)
  }

  /** The file record at the start of `d`: all of its blocks, its header, and the data after the header block. */
  function FileOf(d: seq<uint8>): File
    requires HeaderOk(d) && Tar.RecordFits(d)
  {
    FileWith(d, HeaderOf(d))
  }

  /** The file record at the start of `d` whose header says `header`. */
  function FileWith(d: seq<uint8>, header: Header): (f: File)
    requires Tar.RecordLenOf(header.size.value) <= |d|
  {
    File(d[..Tar.RecordLenOf(header.size.value)], header, d[Tar.BLOCK_BYTES..Tar.BLOCK_BYTES + header.size.value])
  }

  // ---------------------------------------------------------------------------------------------
  // Decoders
  // ---------------------------------------------------------------------------------------------

  // Each `take(d, w)` of a header field is written at the field's offset `k` in the record `d`:
  // it fails when fewer than `k + w` bytes are there, leaving the cursor at `d[k..]`, and
  // otherwise yields `d[k..k + w]` and leaves `d[k + w..]`, which is what `Take` on the cursor
  // `d[k..]` does.

  /**
   * The bytes `decode_ustar` consumes from `u`: none when the magic runs short, the magic when it
   * is wrong, up to the start of the field that runs short, or the whole part of 243 bytes.
   */
  function UstarConsumed(u: seq<uint8>): (n: nat)
    ensures n <= |u| && n <= 243
  {
    if |u| < 6 then 0
    else if u[..6] != Tar.USTAR_MAGIC then 6
    else if |u| < 8 then 6
    else if |u| < 40 then 8
    else if |u| < 72 then 40
    else if |u| < 80 then 72
    else if |u| < 88 then 80
    else if |u| < 243 then 88
    else 243
  }

  /**
   * `decode_ustar`: the seven fields of the ustar part, 243 bytes in all, when the part starts
   * with the magic and is whole; otherwise `None`, with the cursor where `UstarConsumed` says.
   */
  method DecodeUstar(d: seq<uint8>) returns (d': seq<uint8>, r: Option<UStar>)
    requires UstarOk(d)
    ensures r.Some? <==> |d| >= 243 && StartsWith(d, Tar.USTAR_MAGIC)
    ensures r.Some? ==> r.value == UStarOf(d)
    ensures d' == d[UstarConsumed(d)..]
  {
    if |d| < 6 {
      return d, None;
    }
    if d[..6] != Tar.USTAR_MAGIC {
      return d[6..], None;
    }
    MagicText();
    var magic := Utf8(d[..6]);
    if |d| < 8 {
      return d[6..], None;
    }
    var version := NumOf(d[6..8], 8);
    if |d| < 40 {
      return d[8..], None;
    }
    var uname := Utf8(d[8..40]);
    if |d| < 72 {
      return d[40..], None;
    }
    var gname := Utf8(d[40..72]);
    if |d| < 80 {
      return d[72..], None;
    }
    var devmajor := NumOf(d[72..80], 32);
    if |d| < 88 {
      return d[80..], None;
    }
    var devminor := NumOf(d[80..88], 32);
    if |d| < 243 {
      return d[88..], None;
    }
    var prefix := Utf8(d[88..243]);
    d' := d[243..];
    r := Some(UStar(magic, version, uname, gname, devmajor, devminor, prefix));
  }

  /** The bytes the header fields from `name` to `linkname` consume from `n < 257` bytes: up to the start of the field that runs short. */
  function FieldsConsumed(n: nat): (c: nat)
    requires n < 257
    ensures c <= n && (c == 0 <==> n < 100)
  {
    if n < 100 then 0
    else if n < 108 then 100
    else if n < 116 then 108
    else if n < 124 then 116
    else if n < 136 then 124
    else if n < 148 then 136
    else if n < 156 then 148
    else if n < 157 then 156
    else 157
  }

  /** The bytes the header of `decode_file` consumes: its fields and then whatever `decode_ustar` takes. */
  function HeaderConsumed(d: seq<uint8>): (n: nat)
    ensures n <= |d| && n <= 500
    ensures |d| >= 257 ==> 257 <= n
  {
    if |d| < 257 then FieldsConsumed(|d|) else 257 + UstarConsumed(d[257..])
  }

  /**
   * The `Header` of `decode_file`: `None` when a field from `name` to `linkname` runs short;
   * otherwise the header, with the ustar part if `decode_ustar` finds one.
   */
  method DecodeHeader(d: seq<uint8>) returns (d': seq<uint8>, r: Option<Header>)
    requires HeaderOk(d)
    ensures r.Some? <==> |d| >= 257
    ensures r.Some? ==> r.value == HeaderOf(d)
    ensures d' == d[HeaderConsumed(d)..]
  {
    if |d| < 100 {
      return d, None;
    }
    var name := Utf8(d[..100]);
    if |d| < 108 {
      return d[100..], None;
    }
    var mode := NumOf(d[100..108], 32);
    if |d| < 116 {
      return d[108..], None;
    }
    var uid := NumOf(d[108..116], 32);
    if |d| < 124 {
      return d[116..], None;
    }
    var gid := NumOf(d[116..124], 32);
    if |d| < 136 {
      return d[124..], None;
    }
    var size := NumOf(d[124..136], 64);
    if |d| < 148 {
      return d[136..], None;
    }
    var mtime := NumOf(d[136..148], 64);
    if |d| < 156 {
      return d[148..], None;
    }
    var chksum := NumOf(d[148..156], 32);
    if |d| < 157 {
      return d[156..], None;
    }
    var typeflag := Utf8(d[156..157]);
    if |d| < 257 {
      return d[157..], None;
    }
    var linkname := Utf8(d[157..257]);
    Tar.StartsWithMagic(d);
    var u := d[257..];
    var ustar;
    d', ustar := DecodeUstar(u);
    assert d' == d[257 + UstarConsumed(u)..];
    r := Some(Header(name, mode, uid, gid, size, mtime, chksum, typeflag, linkname, ustar));
  }

  /**
   * The bytes `decode_file` consumes from `d`: the header's when the header block runs short,
   * and otherwise as `BlocksConsumed` says for the `size` field.
   */
  function FileConsumed(d: seq<uint8>): (n: nat)
    requires HeaderOk(d)
    ensures n <= |d|
  {
    if |d| < Tar.BLOCK_BYTES then HeaderConsumed(d) else BlocksConsumed(|d|, Tar.Size(d))
  }

  /**
   * The bytes `decode_file` consumes from a record of `len >= 512` bytes with `size` bytes of
   * data: the header block when the data runs short, the block and the data when their padding
   * runs short, and the whole record otherwise.
   */
  function BlocksConsumed(len: nat, size: nat): (n: nat)
    requires len >= Tar.BLOCK_BYTES
    ensures n <= len
  {
    if len < Tar.BLOCK_BYTES + size then Tar.BLOCK_BYTES
    else if len < Tar.RecordLenOf(size) then Tar.BLOCK_BYTES + size
    else Tar.RecordLenOf(size)
  }

  /**
   * `decode_file`: the record at the start of `d` when all of it is there, its `src` being exactly
   * the bytes consumed; otherwise `None`, with the cursor where `FileConsumed` says.
   */
  method DecodeFile(d: seq<uint8>) returns (d': seq<uint8>, r: Option<File>)
    requires HeaderOk(d)
    ensures r.Some? <==> Tar.RecordFits(d)
    ensures r.Some? ==> r.value == FileOf(d) && r.value.src + d' == d
    ensures d' == d[FileConsumed(d)..]
  {
    var header;
    d', header := DecodeHeader(d);
    if header.None? {
      return d', None;
    }
    assert header.value.size.value == Tar.Size(d);
    HeaderCursor(d, d');
    d', r := DecodeBlocks(d, d', header.value);
  }

  /** The cursor a complete header leaves is the record less its first 257 to 500 bytes. */
  lemma HeaderCursor(d: seq<uint8>, cur: seq<uint8>)
    requires |d| >= 257 && cur == d[HeaderConsumed(d)..]
    ensures 257 <= |d| - |cur| <= 500 && cur == d[|d| - |cur|..]
  {
  }

  /**
   * The rest of `decode_file` after the header, from the cursor `cur` that the header left in the
   * record `d`: the header padding, the data and the data padding `padding(size)`, which is
   * that of `512 + size` and a whole block when `size` is a multiple of 512.
   */
  method DecodeBlocks(d: seq<uint8>, cur: seq<uint8>, header: Header) returns (d': seq<uint8>, r: Option<File>)
    requires |cur| <= |d| && cur == d[|d| - |cur|..] && 257 <= |d| - |cur| <= 500
    ensures r.Some? <==> Tar.RecordLenOf(header.size.value) <= |d|
    ensures r.Some? ==> r.value == FileWith(d, header)
    ensures r.Some? ==> r.value.src + d' == d
    ensures |d| < Tar.BLOCK_BYTES ==> d' == cur
    ensures |d| >= Tar.BLOCK_BYTES ==> d' == d[BlocksConsumed(|d|, header.size.value)..]
  {
    var pad, data, tail;
    Tar.PaddingAsWrittenToBlock(|d| - |cur|);
    d', pad := Take(cur, Tar.PaddingAsWritten(|d| - |cur|));
    if pad.None? {
      return d', None;
    }
    assert d' == d[Tar.BLOCK_BYTES..];
    var size := header.size.value;
    d', data := Take(d', size);
    if data.None? {
      return d', None;
    }
    assert data.value == d[Tar.BLOCK_BYTES..Tar.BLOCK_BYTES + size];
    assert d' == d[Tar.BLOCK_BYTES + size..];
    Tar.PaddingAsWrittenPeriodic(size);
    d', tail := Take(d', Tar.PaddingAsWritten(size));
    if tail.None? {
      return d', None;
    }
    var n := Tar.BLOCK_BYTES + size + Tar.PaddingAsWritten(size);
    assert d' == d[n..];
    assert d[..n] + d[n..] == d;
    r := Some(File(d[..n], header, data.value));
  }

  // ---------------------------------------------------------------------------------------------
  // The archive iterator
  // ---------------------------------------------------------------------------------------------

  /**
   * One call of the closure of `decode_tar`: no item at the end marker or the end of the input,
   * else the outcome of `decode_file`. Where a field runs short already in the first 100 bytes,
   * the item is `Some(None)` and the cursor stays, so every later call yields the same.
   */
  method NextFile(d: seq<uint8>) returns (d': seq<uint8>, item: Option<Option<File>>)
    requires !Tar.AtEnd(d) ==> HeaderOk(d)
    ensures item.None? <==> Tar.AtEnd(d)
    ensures item.None? ==> d' == d
    ensures item.Some? ==> (item.value.Some? <==> Tar.RecordFits(d)) && d' == d[FileConsumed(d)..]
    ensures item.Some? && item.value.Some? ==> item.value.value == FileOf(d)
    ensures 0 < |d| < 100 ==> item == Some(None) && d' == d
  {
    if !Tar.StartsWithEndMarker(d) && d != [] {
      var f;
      d', f := DecodeFile(d);
      item := Some(f);
    } else {
      d', item := d, None;
    }
  }

  /** The headers that the iterator reaches from `d`, up to its end or its first `None`, decode without a panic. */
  predicate ItemsOk(d: seq<uint8>)
    decreases |d|
  {
    !Tar.AtEnd(d) ==> HeaderOk(d) && (Tar.RecordFits(d) ==> ItemsOk(d[Tar.RecordLen(d)..]))
  }

  /**
   * The items the iterator of `decode_tar` yields from `d`, up to its end or its first `None`:
   * after a whole record the cursor is at the next one (`DecodeFile`).
   */
  function Items(d: seq<uint8>): seq<Option<File>>
    requires ItemsOk(d)
    decreases |d|
  {
    if Tar.AtEnd(d) then []
    else if !Tar.RecordFits(d) then [None]
    else [Some(FileOf(d))] + Items(d[Tar.RecordLen(d)..])
  }

  /** The `src` of each item, empty for `None`. */
  function Sources(items: seq<Option<File>>): seq<seq<uint8>>
  {
    if items == [] then [] else [if items[0].Some? then items[0].value.src else []] + Sources(items[1..])
  }

  /** The bytes each element of a `tar.rs` array covers. */
  function Spans(es: Decode.Arr): seq<seq<uint8>>
  {
    if es == [] then [] else [es[0].meta.bytes.data] + Spans(es[1..])
  }

  /**
   * On an archive whose records are all whole, the iterator yields one file for each element of
   * the `files` array of `tar.rs`, each spanning the same bytes, and then ends.
   */
  lemma {:induction false} ItemsAreTarFiles(b: Bytes)
    requires ItemsOk(b.data) && Tar.ArchiveOk(b.data) && Tar.ArchiveFits(b.data)
    ensures |Items(b.data)| == |Tar.Files(b)|
    ensures Sources(Items(b.data)) == Spans(Tar.Files(b))
    decreases |b.data|
  {
    var d := b.data;
    if !Tar.AtEnd(d) {
      var k := Tar.RecordLen(d);
      var rest := Drop(b, k);
      Tar.FilesStep(b);
      ItemsAreTarFiles(rest);
      var items, es := Items(d), Tar.Files(b);
      assert items == [Some(FileOf(d))] + Items(rest.data);
      assert items[1..] == Items(rest.data);
      assert es[1..] == Tar.Files(rest);
      assert FileOf(d).src == es[0].meta.bytes.data;
    }
  }

  /**
   * The iterator yields `None` exactly when some record up to the end marker is cut short, and
   * only as its last item: every item before is a file.
   */
  lemma {:induction false} ItemsFailOnlyWhenShort(d: seq<uint8>)
    requires ItemsOk(d) && Tar.ArchiveOk(d)
    ensures None in Items(d) <==> !Tar.ArchiveFits(d)
    decreases |d|
  {
    if !Tar.AtEnd(d) && Tar.RecordFits(d) {
      var rest := d[Tar.RecordLen(d)..];
      ItemsFailOnlyWhenShort(rest);
      ItemsStep(d);
      NoneInCons(FileOf(d), Items(rest));
    }
  }

  /** Among the items up to the first `None`, where `Items` stops, every item but the last is a file. */
  lemma {:induction false} ItemsFailOnlyLast(d: seq<uint8>)
    requires ItemsOk(d)
    ensures forall i :: 0 <= i < |Items(d)| - 1 ==> Items(d)[i].Some?
    decreases |d|
  {
    if !Tar.AtEnd(d) && Tar.RecordFits(d) {
      var rest := d[Tar.RecordLen(d)..];
      ItemsFailOnlyLast(rest);
      ItemsStep(d);
      SomeBeforeLastCons(FileOf(d), Items(rest));
    }
  }

  /** One step of `Items`: a whole record contributes its file, then come the rest. */
  lemma ItemsStep(d: seq<uint8>)
    requires ItemsOk(d) && !Tar.AtEnd(d) && Tar.RecordFits(d)
    ensures Items(d) == [Some(FileOf(d))] + Items(d[Tar.RecordLen(d)..])
  {
  }

  lemma NoneInCons(f: File, items: seq<Option<File>>)
    ensures None in [Some(f)] + items <==> None in items
  {
    assert ([Some(f)] + items)[1..] == items;
  }

  lemma SomeBeforeLastCons(f: File, items: seq<Option<File>>)
    requires forall i :: 0 <= i < |items| - 1 ==> items[i].Some?
    ensures forall i :: 0 <= i < |[Some(f)] + items| - 1 ==> ([Some(f)] + items)[i].Some?
  {
  }

  // ---------------------------------------------------------------------------------------------
  // Records that end on a block boundary
  // ---------------------------------------------------------------------------------------------

  /**
   * A whole record whose data ends on a block boundary (an empty file, a directory), with
   * nothing after it, comes out as `None`: `padding(size)` asks for one more block. The cursor
   * is then at the end of the input, so the iterator yields that `None` and ends.
   */
  lemma AlignedRecordAtEndIsNone(d: seq<uint8>)
    requires |d| >= Tar.BLOCK_BYTES && HeaderOk(d) && Tar.Size(d) % Tar.BLOCK_BYTES == 0
    requires |d| == Tar.PaddedRecordLen(Tar.Size(d))
    ensures !Tar.RecordFits(d) && FileConsumed(d) == |d|
  {
    Tar.RecordLenOverruns(Tar.Size(d));
  }
}
