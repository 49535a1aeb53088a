/**
 * The ZIP decoder of `src/zip.rs`, after the .ZIP File Format Specification of PKWARE
 * (APPNOTE.TXT): the end of central directory record (section 4.3.16), the central directory
 * file header (section 4.3.12), the local file header (section 4.3.7), the general purpose bit
 * flags (section 4.4.4) and the compression method codes (section 4.4.5).
 *
 * `zip.rs` carries its own, earlier copy of the decoding kit: entries of an object or array hold
 * the bytes they cover directly (there is no `Meta`, so a failing entry does not record its
 * error), errors say how many bytes of what kind were expected, and a lazy node is one of the
 * two `Eval` implementations of the file. As in `Decode`, a `&mut` argument is an input value
 * plus an output value, and a closure given to `add_mut` is run by the caller, whose results
 * (the entry as the closure left it and what it returned) are handed to the combinator.
 *
 * Offsets: a record decoder that starts on the cursor `Drop(rec, k)` of a record `rec` is
 * specified by offsets into `rec`, as in `Tar`.
 */
module Zip {
  import opened Wrappers
  import opened Buffers

  /** "PK\x01\x02" */
  const CENTRAL_DIR_SIG: seq<uint8> := [0x50, 0x4B, 0x01, 0x02]
  /** "PK\x03\x04" */
  const LOCAL_FILE_SIG: seq<uint8> := [0x50, 0x4B, 0x03, 0x04]
  /** "PK\x05\x06" */
  const END_OF_CENTRAL_DIR_SIG: seq<uint8> := [0x50, 0x4B, 0x05, 0x06]

  // ---------------------------------------------------------------------------------------------
  // Errors and the value tree
  // ---------------------------------------------------------------------------------------------

  datatype Index = Str(name: string) | Int(i: nat)

  /** What kind of bytes were expected: any bytes, an integer, or a given byte string. */
  datatype Expect = ExpectBytes | ExpectInt | ExpectRaw(s: seq<uint8>)

  /**
   * Where decoding failed, the path from the failing value outwards (`path[0]` innermost), and
   * how many bytes of what kind were expected there.
   */
  datatype Error = Error(position: Bytes, path: seq<Index>, expectLen: nat, expectTyp: Expect)

  /** `Error::new`: `expect_len` bytes of any kind were expected at `position`. */
  function NewError(position: Bytes, expectLen: nat): Error
  {
    Error(position, [], expectLen, ExpectBytes)
  }

  /** `Error::with_index`: the error seen from one level further out. */
  function WithIndex(e: Error, i: Index): (r: Error)
    ensures r.position == e.position && r.expectLen == e.expectLen && r.expectTyp == e.expectTyp
    ensures |r.path| == |e.path| + 1 && r.path[..|e.path|] == e.path && r.path[|e.path|] == i
  {
    e.(path := e.path + [i])
  }

  /** `Error::with_typ`. */
  function WithTyp(e: Error, t: Expect): Error
  {
    e.(expectTyp := t)
  }

  datatype Atom = Bool(b: bool) | U16(u16: uint16) | U32(u32: uint32) | Str(s: string) | Raw

  /**
   * A lazy node holds which `Eval` implementation it is and what it closes over: the flags
   * word of `FlagsObj`, or the compressed bytes of `Uncompress`.
   */
  datatype Thunk = FlagsObj(bytes: Bytes, flags: uint16) | Uncompress(compressed: Bytes)

  /** `Val`: an atom may carry a further value that explains it (`Atom(Atom, Option<Box<Val>>)`). */
  datatype Val =
    | Arr(arr: seq<Elem>)
    | Obj(obj: seq<Field>)
    | Atom(atom: Atom, sub: Option<Val>)
    | Lazy(thunk: Thunk)

  datatype Field = Field(name: string, bytes: Bytes, val: Val)

  datatype Elem = Elem(bytes: Bytes, val: Val)

  /** `Obj(Vec<(&str, Bytes, Val)>)`. */
  type Obj = seq<Field>

  /** `Arr(Vec<(Bytes, Val)>)`. */
  type Arr = seq<Elem>

  /** `Val::default()` and `Atom::Raw.into()`. */
  const Default: Val := Atom(Raw, None)

  /** What a primitive decoder returns: the bytes it read, their value and its own result. */
  type Decoded<T> = (Bytes, Val, T)

  /**
   * `Obj::add(field, r)`: on success append the one entry `(field, bytes, val)` and pass on the
   * decoder's own result; on failure leave the object as it was and extend the error's path
   * with the field name.
   */
  method ObjAdd<T>(o: Obj, field: string, d: Result<Decoded<T>, Error>) returns (o': Obj, r: Result<T, Error>)
    ensures r.Ok? <==> d.Ok?
    ensures r.Ok? ==> o' == o + [Field(field, d.value.0, d.value.1)] && r.value == d.value.2
    ensures r.Err? ==> o' == o && r.error == WithIndex(d.error, Index.Str(field))
  {
    if d.Err? {
      return o, Err(WithIndex(d.error, Index.Str(field)));
    }
    var (b, v, y) := d.value;
    o' := o + [Field(field, b, v)];
    r := Ok(y);
  }

  /**
   * `Obj::add_mut(field, b, f)`: the entry `(field, b, Val::default())` is pushed and `f` works
   * on its bytes and value; `fb`, `fv` are the entry as `f` left it and `y` what `f` returned.
   * The object gains that one entry whatever happens; on failure the error's path gains the
   * field name.
   */
  method ObjAddMut<T>(o: Obj, field: string, fb: Bytes, fv: Val, y: Result<T, Error>) returns (o': Obj, r: Result<T, Error>)
    ensures o' == o + [Field(field, fb, fv)]
    ensures r.Ok? <==> y.Ok?
    ensures r.Ok? ==> r.value == y.value
    ensures r.Err? ==> r.error == WithIndex(y.error, Index.Str(field))
  {
    o' := o + [Field(field, fb, fv)];
    r := if y.Err? then Err(WithIndex(y.error, Index.Str(field))) else y;
  }

  /** `Arr::add_mut(b, f)`: like `Obj::add_mut`; the path gains the new element's index, the old length. */
  method ArrAddMut<T>(a: Arr, fb: Bytes, fv: Val, y: Result<T, Error>) returns (a': Arr, r: Result<T, Error>)
    ensures a' == a + [Elem(fb, fv)]
    ensures r.Ok? <==> y.Ok?
    ensures r.Ok? ==> r.value == y.value
    ensures r.Err? ==> r.error == WithIndex(y.error, Index.Int(|a|))
  {
    var i := |a|;
    a' := a + [Elem(fb, fv)];
    r := if y.Err? then Err(WithIndex(y.error, Index.Int(i))) else y;
  }

  // ---------------------------------------------------------------------------------------------
  // The cursor and primitive decoders
  // ---------------------------------------------------------------------------------------------

  /**
   * `take(b, n)`: the first `n` bytes, with `b` advanced past them, so that the bytes returned
   * followed by the new `b` are the old `b`; when fewer than `n` remain, an error expecting `n`
   * bytes at the cursor, which stays where it was.
   */
  method Take(b: Bytes, n: nat) returns (b': Bytes, r: Result<Bytes, Error>)
    ensures r.Ok? <==> n <= |b.data|
    ensures r.Ok? ==> r.value == Prefix(b, n) && b' == Drop(b, n)
    ensures r.Ok? ==> Adjacent(r.value, b') && Concat(r.value, b') == b
    ensures r.Err? ==> b' == b && r.error == NewError(b, n)
  {
    if n > |b.data| {
      return b, Err(NewError(b, n));
    }
    PrefixDropJoin(b, n);
    b', r := Drop(b, n), Ok(Prefix(b, n));
  }

  /**
   * `consumed(b, f)`: what `f` consumed of the cursor, with `f`'s result; `start` is the cursor
   * before `f`, `b` after it. An error of `f` is passed on. The `truncate` underflows unless `f`
   * left `b` no longer than it was.
   */
  function Consumed<T>(start: Bytes, b: Bytes, y: Result<T, Error>): (r: Result<(Bytes, T), Error>)
    requires y.Ok? ==> |b.data| <= |start.data|
    ensures r.Ok? <==> y.Ok?
    ensures r.Err? ==> r.error == y.error
    ensures r.Ok? ==> r.value.1 == y.value && r.value.0 == Prefix(start, |start.data| - |b.data|)
    ensures r.Ok? && SuffixOf(b, start) ==> Adjacent(r.value.0, b) && Concat(r.value.0, b) == start
  {
    match y
    case Err(e) => Err(e)
    case Ok(v) =>
      if SuffixOf(b, start) then
        PrefixDropJoin(start, |start.data| - |b.data|);
        Ok((Prefix(start, |start.data| - |b.data|), v))
      else
        Ok((Prefix(start, |start.data| - |b.data|), v))
  }

  /**
   * `set_consumed(b, f)`: on success the cursor becomes exactly what `f` consumed; on failure
   * it stays where `f` left it (`b`).
   */
  method SetConsumed<T>(start: Bytes, b: Bytes, y: Result<T, Error>) returns (b': Bytes, r: Result<T, Error>)
    requires y.Ok? ==> |b.data| <= |start.data|
    ensures r == y
    ensures r.Ok? ==> b' == Prefix(start, |start.data| - |b.data|)
    ensures r.Err? ==> b' == b
  {
    var c := Consumed(start, b, y);
    if c.Err? {
      return b, Err(c.error);
    }
    b', r := c.value.0, Ok(c.value.1);
  }

  /** The little-endian `u16` at `off`. */
  function U16At(d: seq<uint8>, off: nat): uint16
    requires off + 2 <= |d|
  {
    d[off] as int + 256 * (d[off + 1] as int)
  }

  /** The little-endian `u32` at `off`. */
  function U32At(d: seq<uint8>, off: nat): uint32
    requires off + 4 <= |d|
  {
    d[off] as int + 256 * (d[off + 1] as int) + 65536 * (d[off + 2] as int) + 16777216 * (d[off + 3] as int)
  }

  /** `U16At` reads the two bytes at `off` as a little-endian number, least significant first. */
  lemma U16AtIsLittleEndian(d: seq<uint8>, off: nat)
    requires off + 2 <= |d|
    ensures U16At(d, off) == LeAt(d, off, 2)
  {
    var s := d[off..off + 2];
    assert s[1..][1..] == [];
    assert LittleEndian(s[1..]) == s[1];
  }

  /** `U32At` reads the four bytes at `off` as a little-endian number, least significant first. */
  lemma U32AtIsLittleEndian(d: seq<uint8>, off: nat)
    requires off + 4 <= |d|
    ensures U32At(d, off) == LeAt(d, off, 4)
  {
    var s := d[off..off + 4];
    assert LittleEndian(s[3..]) == s[3] by {
      assert s[3..][1..] == [];
    }
    assert LittleEndian(s[2..]) == s[2] as int + 256 * (s[3] as int) by {
      assert s[2..][1..] == s[3..];
    }
    assert LittleEndian(s[1..]) == s[1] as int + 256 * (s[2] as int) + 65536 * (s[3] as int) by {
      assert s[1..][1..] == s[2..];
    }
  }

  /** `u16_le`: two bytes, least significant first; running short expects an integer. */
  method U16Le(b: Bytes) returns (b': Bytes, r: Result<Decoded<uint16>, Error>)
    ensures r.Ok? <==> 2 <= |b.data|
    ensures r.Ok? ==> b' == Drop(b, 2) && r.value == (Prefix(b, 2), Atom(U16(U16At(b.data, 0)), None), U16At(b.data, 0))
    ensures r.Err? ==> b' == b && r.error == Error(b, [], 2, ExpectInt)
  {
    var t;
    b', t := Take(b, 2);
    if t.Err? {
      return b', Err(WithTyp(t.error, ExpectInt));
    }
    assert t.value.data == b.data[0..2];
    var u := U16At(t.value.data, 0);
    r := Ok((t.value, Atom(U16(u), None), u));
  }

  /** `u32_le`: four bytes, least significant first; running short expects an integer. */
  method U32Le(b: Bytes) returns (b': Bytes, r: Result<Decoded<uint32>, Error>)
    ensures r.Ok? <==> 4 <= |b.data|
    ensures r.Ok? ==> b' == Drop(b, 4) && r.value == (Prefix(b, 4), Atom(U32(U32At(b.data, 0)), None), U32At(b.data, 0))
    ensures r.Err? ==> b' == b && r.error == Error(b, [], 4, ExpectInt)
  {
    var t;
    b', t := Take(b, 4);
    if t.Err? {
      return b', Err(WithTyp(t.error, ExpectInt));
    }
    assert t.value.data == b.data[0..4];
    var u := U32At(t.value.data, 0);
    r := Ok((t.value, Atom(U32(u), None), u));
  }

  /** `raw(b, n)`: `n` uninterpreted bytes. */
  method ReadRaw(b: Bytes, n: nat) returns (b': Bytes, r: Result<Decoded<()>, Error>)
    ensures r.Ok? <==> n <= |b.data|
    ensures r.Ok? ==> b' == Drop(b, n) && r.value == (Prefix(b, n), Default, ())
    ensures r.Err? ==> b' == b && r.error == NewError(b, n)
  {
    var t;
    b', t := Take(b, n);
    if t.Err? {
      return b', Err(t.error);
    }
    r := Ok((t.value, Default, ()));
  }

  /**
   * `precise(b, s)`: `|s|` bytes that must be `s`. Running short and a mismatch both expect
   * `|s|` bytes of `s`; a mismatch consumes the bytes and reports them as its position.
   */
  method Precise(b: Bytes, s: seq<uint8>) returns (b': Bytes, r: Result<Decoded<()>, Error>)
    ensures r.Ok? <==> |s| <= |b.data| && b.data[..|s|] == s
    ensures r.Ok? ==> b' == Drop(b, |s|) && r.value == (Prefix(b, |s|), Default, ())
    ensures r.Err? && |s| > |b.data| ==> b' == b && r.error == Error(b, [], |s|, ExpectRaw(s))
    ensures r.Err? && |s| <= |b.data| ==> b' == Drop(b, |s|) && r.error == Error(Prefix(b, |s|), [], |s|, ExpectRaw(s))
  {
    var t;
    b', t := Take(b, |s|);
    if t.Err? {
      return b', Err(WithTyp(t.error, ExpectRaw(s)));
    }
    if t.value.data == s {
      r := Ok((t.value, Default, ()));
    } else {
      r := Err(WithTyp(NewError(t.value, |s|), ExpectRaw(s)));
    }
  }

  // ---------------------------------------------------------------------------------------------
  // Finding the end of central directory record
  // ---------------------------------------------------------------------------------------------

  /** The end of central directory signature starts at offset `q` of `d`. */
  predicate SigAt(d: seq<uint8>, q: nat)
  {
    q + 4 <= |d|
    && d[q] == END_OF_CENTRAL_DIR_SIG[0] && d[q + 1] == END_OF_CENTRAL_DIR_SIG[1]
    && d[q + 2] == END_OF_CENTRAL_DIR_SIG[2] && d[q + 3] == END_OF_CENTRAL_DIR_SIG[3]
  }

  /** How many of the last four-byte windows `find_eocds` looks at. */
  const EOCD_WINDOWS: nat := 128

  /** How many windows `find_eocds` looks at: the last 128, or all of them in a shorter slice. */
  function WindowCount(d: seq<uint8>): nat
    requires |d| >= 4
  {
    if |d| - 3 < EOCD_WINDOWS then |d| - 3 else EOCD_WINDOWS
  }

  /**
   * `find_eocds`: the offset of the last window of four bytes that is the signature, looking at
   * no more than the last 128 windows (`FindEocdsSpec`).
   */
  function FindEocds(d: seq<uint8>): (r: Option<nat>)
    ensures r.Some? ==> SigAt(d, r.value)
  {
    if |d| < 4 then None else SearchWindows(d, WindowCount(d))
  }

  /**
   * `rev().position(..)` over the last `n` windows: the windows at offsets `|d| - 4` down to
   * `|d| - 3 - n`, the last of them looked at last.
   */
  function SearchWindows(d: seq<uint8>, n: nat): (r: Option<nat>)
    requires n + 3 <= |d|
    ensures r.Some? ==> SigAt(d, r.value) && r.value + 3 + n >= |d|
    decreases n
  {
    if n == 0 then None
    else
      var r := SearchWindows(d, n - 1);
      if r.Some? then r
      else if SigAt(d, |d| - 3 - n) then Some(|d| - 3 - n)
      else None
  }

  /** The first window `find_eocds` looks at: 131 bytes before the end, or the start. */
  function WindowsStart(d: seq<uint8>): nat
  {
    if |d| < EOCD_WINDOWS + 3 then 0 else |d| - (EOCD_WINDOWS + 3)
  }

  /** No window from `lo` to `hi` (both included) is the signature. */
  predicate NoSigIn(d: seq<uint8>, lo: int, hi: int)
  {
    forall q: nat :: lo <= q <= hi ==> !SigAt(d, q)
  }

  lemma {:induction false} SearchWindowsSpec(d: seq<uint8>, n: nat)
    requires n + 3 <= |d|
    ensures SearchWindows(d, n).Some? ==> NoSigIn(d, SearchWindows(d, n).value + 1, |d| - 4)
    ensures SearchWindows(d, n).None? ==> NoSigIn(d, |d| - 3 - n, |d| - 4)
    decreases n
  {
    if n > 0 {
      SearchWindowsSpec(d, n - 1);
      var r := SearchWindows(d, n - 1);
      if r.None? {
        forall q: nat | |d| - 3 - n < q <= |d| - 4 ensures !SigAt(d, q) {
          assert |d| - 3 - (n - 1) <= q;
        }
      }
    }
  }

  /**
   * `find_eocds` finds the signature at the largest offset among the last 128 windows, which is
   * at least `|d| - 131`; it finds nothing when `d` is shorter than a window or none of those
   * windows is the signature.
   */
  lemma FindEocdsSpec(d: seq<uint8>)
    ensures FindEocds(d).Some? ==> var p := FindEocds(d).value;
      SigAt(d, p) && p >= WindowsStart(d) && NoSigIn(d, p + 1, |d| - 4)
    ensures FindEocds(d).None? <==> |d| < 4 || NoSigIn(d, WindowsStart(d), |d| - 4)
  {
    if |d| >= 4 {
      SearchWindowsSpec(d, WindowCount(d));
    }
  }

  // ---------------------------------------------------------------------------------------------
  // General purpose bit flags and compression methods
  // ---------------------------------------------------------------------------------------------

  /** Bit `k` (the value `1 << k`) is set in `x`. */
  predicate HasBit(x: nat, k: nat)
  {
    if k == 0 then x % 2 == 1 else HasBit(x / 2, k - 1)
  }

  /** The number whose bits, least significant first, are `bits`. */
  function BitsValue(bits: seq<bool>): nat
  {
    if bits == [] then 0 else (if bits[0] then 1 else 0) + 2 * BitsValue(bits[1..])
  }

  /** Reading bit `k` of a number built from bits gives back bit `k`. */
  lemma {:induction false} HasBitOfBitsValue(bits: seq<bool>, k: nat)
    requires k < |bits|
    ensures HasBit(BitsValue(bits), k) == bits[k]
  {
    var x := BitsValue(bits);
    var low := if bits[0] then 1 else 0;
    assert x % 2 == low && x / 2 == BitsValue(bits[1..]);
    if k > 0 {
      HasBitOfBitsValue(bits[1..], k - 1);
    }
  }

  /** The named flags of `Flags`, in declaration order, with their bit numbers (APPNOTE.TXT section 4.4.4). */
  const FLAG_NAMES: seq<(string, nat)> :=
    [ ("encrypted", 0), ("compression1", 1), ("compression0", 2), ("data_descriptor", 3),
      ("enhanced_deflation", 4), ("compressed_patched_data", 5), ("strong_encryption", 6),
      ("language_encoding", 11), ("mask_header_values", 13) ]

  /**
   * `FlagsObj::eval`: one boolean entry per named flag, in declaration order, each covering the
   * bytes of the flags field; the unnamed bits (`const _ = !0`) have no entry.
   */
  function EvalFlags(bytes: Bytes, flags: uint16): (r: (Bytes, Val))
    ensures r.0 == bytes && r.1.Obj? && |r.1.obj| == |FLAG_NAMES|
    ensures forall i :: 0 <= i < |FLAG_NAMES| ==>
      r.1.obj[i] == Field(FLAG_NAMES[i].0, bytes, Atom(Bool(HasBit(flags, FLAG_NAMES[i].1)), None))
  {
    (bytes, Obj(seq(|FLAG_NAMES|, i requires 0 <= i < |FLAG_NAMES| =>
      Field(FLAG_NAMES[i].0, bytes, Atom(Bool(HasBit(flags, FLAG_NAMES[i].1)), None)))))
  }

  /**
   * A flags word built from sixteen bits shows each named flag's entry as that flag's bit: no bit
   * of the word is lost (`from_bits_retain`) and none is read from the wrong position.
   */
  lemma EvalFlagsOfBits(bytes: Bytes, bits: seq<bool>)
    requires |bits| == 16 && BitsValue(bits) < 0x1_0000
    ensures forall i :: 0 <= i < |FLAG_NAMES| ==>
      EvalFlags(bytes, BitsValue(bits)).1.obj[i].val == Atom(Bool(bits[FLAG_NAMES[i].1]), None)
  {
    forall i | 0 <= i < |FLAG_NAMES|
      ensures EvalFlags(bytes, BitsValue(bits)).1.obj[i].val == Atom(Bool(bits[FLAG_NAMES[i].1]), None)
    {
      var (_, k) := FLAG_NAMES[i];
      HasBitOfBitsValue(bits, k);
    }
  }

  /** `decode_flags`: the flags field, a `u16` explained by the lazy object of its named flags. */
  method DecodeFlags(b: Bytes) returns (b': Bytes, r: Result<Decoded<uint16>, Error>)
    ensures r.Ok? <==> 2 <= |b.data|
    ensures r.Ok? ==> b' == Drop(b, 2) && r.value == FlagsDecoded(Prefix(b, 2), U16At(b.data, 0))
    ensures r.Err? ==> b' == b && r.error == Error(b, [], 2, ExpectInt)
  {
    var d;
    b', d := U16Le(b);
    if d.Err? {
      return b', Err(d.error);
    }
    var (s, _, u) := d.value;
    var flags := u;
    r := Ok((s, Atom(U16(u), Some(Lazy(FlagsObj(s, flags)))), flags));
  }

  /** What `decode_flags` returns for the flags word `u` read from `s`. */
  function FlagsDecoded(s: Bytes, u: uint16): Decoded<uint16>
  {
    (s, Atom(U16(u), Some(Lazy(FlagsObj(s, u)))), u)
  }

  /** `CompressionMethod` (APPNOTE.TXT section 4.4.5); `Stored` is the variant `None`. */
  datatype CompressionMethod =
    | Stored | Shrunk
    | ReducedCompressionFactor1 | ReducedCompressionFactor2 | ReducedCompressionFactor3 | ReducedCompressionFactor4
    | Imploded | Deflated | EnhancedDeflated | PKWareDCLImploded | Bzip2 | LZMA | IBMTERSE | IBMLZ77z | PPMd

  /** The discriminant of each method: its code in the `compression_method` field. */
  function Code(m: CompressionMethod): uint16
  {
    match m
    case Stored => 0
    case Shrunk => 1
    case ReducedCompressionFactor1 => 2
    case ReducedCompressionFactor2 => 3
    case ReducedCompressionFactor3 => 4
    case ReducedCompressionFactor4 => 5
    case Imploded => 6
    case Deflated => 8
    case EnhancedDeflated => 9
    case PKWareDCLImploded => 10
    case Bzip2 => 12
    case LZMA => 14
    case IBMTERSE => 18
    case IBMLZ77z => 19
    case PPMd => 98
  }

  /** `CompressionMethod::from_u16` (derived by `FromPrimitive`): the method with code `u`, if any. */
  function FromU16(u: uint16): (r: Option<CompressionMethod>)
    ensures r.Some? ==> Code(r.value) == u
  {
    if u == 0 then Some(Stored)
    else if u == 1 then Some(Shrunk)
    else if u == 2 then Some(ReducedCompressionFactor1)
    else if u == 3 then Some(ReducedCompressionFactor2)
    else if u == 4 then Some(ReducedCompressionFactor3)
    else if u == 5 then Some(ReducedCompressionFactor4)
    else if u == 6 then Some(Imploded)
    else if u == 8 then Some(Deflated)
    else if u == 9 then Some(EnhancedDeflated)
    else if u == 10 then Some(PKWareDCLImploded)
    else if u == 12 then Some(Bzip2)
    else if u == 14 then Some(LZMA)
    else if u == 18 then Some(IBMTERSE)
    else if u == 19 then Some(IBMLZ77z)
    else if u == 98 then Some(PPMd)
    else None
  }

  /** Every method is found again from its code, so no two methods share a code. */
  lemma FromU16Code(m: CompressionMethod)
    ensures FromU16(Code(m)) == Some(m)
  {
  }

  /** The codes that name no method: 7, 11, 13, 15 to 17, 20 to 97 and above 98. */
  lemma FromU16Unknown(u: uint16)
    ensures FromU16(u).None? <==> u == 7 || u == 11 || u == 13 || 15 <= u <= 17 || 20 <= u <= 97 || u > 98
  {
  }

  /** `CompressionMethod::as_str`: the method's name in snake case. */
  function AsStr(m: CompressionMethod): string
  {
    match m
    case Stored => "none"
    case Shrunk => "shrunk"
    case ReducedCompressionFactor1 => "reduced_compression_factor1"
    case ReducedCompressionFactor2 => "reduced_compression_factor2"
    case ReducedCompressionFactor3 => "reduced_compression_factor3"
    case ReducedCompressionFactor4 => "reduced_compression_factor4"
    case Imploded => "imploded"
    case Deflated => "deflated"
    case EnhancedDeflated => "enhanced_deflated"
    case PKWareDCLImploded => "pk_ware_dcl_imploded"
    case Bzip2 => "bzip2"
    case LZMA => "lzma"
    case IBMTERSE => "ibmterse"
    case IBMLZ77z => "ibmlz77z"
    case PPMd => "pp_md"
  }

  /** No two methods have the same name, so the name identifies the method. */
  lemma AsStrInjective(m: CompressionMethod, n: CompressionMethod)
    requires AsStr(m) == AsStr(n)
    ensures m == n
  {
  }

  // ---------------------------------------------------------------------------------------------
  // Fields of a record, by their offsets
  // ---------------------------------------------------------------------------------------------

  /** The entry of the little-endian `u16` field at offset `k` of the record `rec`. */
  function U16Field(name: string, rec: Bytes, k: nat): Field
    requires k + 2 <= |rec.data|
  {
    Field(name, Slice(rec, k, k + 2), Atom(U16(U16At(rec.data, k)), None))
  }

  /** The entry of the little-endian `u32` field at offset `k` of the record `rec`. */
  function U32Field(name: string, rec: Bytes, k: nat): Field
    requires k + 4 <= |rec.data|
  {
    Field(name, Slice(rec, k, k + 4), Atom(U32(U32At(rec.data, k)), None))
  }

  /** The entry of the uninterpreted bytes `lo..hi` of the record `rec`. */
  function RawField(name: string, rec: Bytes, lo: nat, hi: nat): Field
    requires lo <= hi <= |rec.data|
  {
    Field(name, Slice(rec, lo, hi), Default)
  }

  /** The entry of the flags field at offset `k` of the record `rec`. */
  function FlagsField(rec: Bytes, k: nat): Field
    requires k + 2 <= |rec.data|
  {
    var d := FlagsDecoded(Slice(rec, k, k + 2), U16At(rec.data, k));
    Field("flags", d.0, d.1)
  }

  // The helpers below are `o.add(field, ..(b))?` for the field of a record `rec` at offset `k`,
  // where the cursor `b` is.

  /** `o.add(field, u16_le(b))?`. */
  method AddU16(o: Obj, field: string, b: Bytes, ghost rec: Bytes, ghost k: nat)
    returns (o': Obj, b': Bytes, r: Result<uint16, Error>)
    requires k <= |rec.data| && b == Drop(rec, k)
    ensures r.Ok? <==> k + 2 <= |rec.data|
    ensures r.Ok? ==> o' == o + [U16Field(field, rec, k)] && b' == Drop(rec, k + 2) && r.value == U16At(rec.data, k)
    ensures r.Err? ==> o' == o && b' == b && r.error == Error(b, [Index.Str(field)], 2, ExpectInt)
  {
    var d;
    b', d := U16Le(b);
    o', r := ObjAdd(o, field, d);
    PrefixOfDrop(rec, k, 2);
    if k + 2 <= |rec.data| {
      DropDrop(rec, k, 2);
    }
  }

  /** `o.add(field, u32_le(b))?`. */
  method AddU32(o: Obj, field: string, b: Bytes, ghost rec: Bytes, ghost k: nat)
    returns (o': Obj, b': Bytes, r: Result<uint32, Error>)
    requires k <= |rec.data| && b == Drop(rec, k)
    ensures r.Ok? <==> k + 4 <= |rec.data|
    ensures r.Ok? ==> o' == o + [U32Field(field, rec, k)] && b' == Drop(rec, k + 4) && r.value == U32At(rec.data, k)
    ensures r.Err? ==> o' == o && b' == b && r.error == Error(b, [Index.Str(field)], 4, ExpectInt)
  {
    var d;
    b', d := U32Le(b);
    o', r := ObjAdd(o, field, d);
    PrefixOfDrop(rec, k, 4);
    if k + 4 <= |rec.data| {
      DropDrop(rec, k, 4);
    }
  }

  /** `o.add(field, raw(b, n))?`. */
  method AddRaw(o: Obj, field: string, b: Bytes, n: nat, ghost rec: Bytes, ghost k: nat)
    returns (o': Obj, b': Bytes, r: Result<(), Error>)
    requires k <= |rec.data| && b == Drop(rec, k)
    ensures r.Ok? <==> k + n <= |rec.data|
    ensures r.Ok? ==> o' == o + [RawField(field, rec, k, k + n)] && b' == Drop(rec, k + n)
    ensures r.Err? ==> o' == o && b' == b && r.error == Error(b, [Index.Str(field)], n, ExpectBytes)
  {
    var d;
    b', d := ReadRaw(b, n);
    o', r := ObjAdd(o, field, d);
    PrefixOfDrop(rec, k, n);
    if k + n <= |rec.data| {
      DropDrop(rec, k, n);
    }
  }

  /** `o.add("flags", decode_flags(b))?`. */
  method AddFlags(o: Obj, b: Bytes, ghost rec: Bytes, ghost k: nat)
    returns (o': Obj, b': Bytes, r: Result<uint16, Error>)
    requires k <= |rec.data| && b == Drop(rec, k)
    ensures r.Ok? <==> k + 2 <= |rec.data|
    ensures r.Ok? ==> o' == o + [FlagsField(rec, k)] && b' == Drop(rec, k + 2) && r.value == U16At(rec.data, k)
    ensures r.Err? ==> o' == o && b' == b && r.error == Error(b, [Index.Str("flags")], 2, ExpectInt)
  {
    var d;
    b', d := DecodeFlags(b);
    o', r := ObjAdd(o, "flags", d);
    PrefixOfDrop(rec, k, 2);
    if k + 2 <= |rec.data| {
      DropDrop(rec, k, 2);
    }
  }

  /** `o.add("signature", precise(b, sig))?` at the start of a record. */
  method AddSignature(o: Obj, b: Bytes, sig: seq<uint8>)
    returns (o': Obj, b': Bytes, r: Result<(), Error>)
    requires |sig| == 4
    ensures r.Ok? <==> 4 <= |b.data| && b.data[..4] == sig
    ensures r.Ok? ==> o' == o + [RawField("signature", b, 0, 4)] && b' == Drop(b, 4)
    ensures r.Err? ==> o' == o && |r.error.path| == 1 && r.error.expectTyp == ExpectRaw(sig)
    ensures r.Err? ==> b' == if |b.data| < 4 then b else Drop(b, 4)
    ensures r.Err? ==> r.error.path == [Index.Str("signature")]
    ensures r.Err? ==> r.error.position == if |b.data| < 4 then b else Prefix(b, 4)
  {
    var d;
    b', d := Precise(b, sig);
    o', r := ObjAdd(o, "signature", d);
  }

  // ---------------------------------------------------------------------------------------------
  // End of central directory record (APPNOTE.TXT section 4.3.16)
  // ---------------------------------------------------------------------------------------------

  /** The fields `decode_zip` keeps of the end of central directory record. */
  datatype EndOfCentralDirRecord = EndOfCentralDirRecord(diskNr: uint16, sizeCd: uint32, offsetCd: uint32)

  /** The fixed part of the record: the signature, six numbers and the comment length. */
  const EOCD_FIXED: nat := 22

  /** The record at the start of `d` is whole, comment included, and starts with its signature. */
  predicate EocdFits(d: seq<uint8>)
  {
    |d| >= EOCD_FIXED && d[..4] == END_OF_CENTRAL_DIR_SIG && EocdLen(d) <= |d|
  }

  /** The record's length: its fixed part and `comment_length` bytes of comment. */
  function EocdLen(d: seq<uint8>): nat
    requires |d| >= EOCD_FIXED
  {
    EOCD_FIXED + U16At(d, 20)
  }

  function EocdOf(d: seq<uint8>): EndOfCentralDirRecord
    requires |d| >= EOCD_FIXED
  {
    EndOfCentralDirRecord(U16At(d, 4), U32At(d, 12), U32At(d, 16))
  }

  /** The entries of the seven numbers of the record at the start of `b`, from offset 4 to 22. */
  function EocdNumberEntries(b: Bytes): seq<Field>
    requires |b.data| >= EOCD_FIXED
  {
    [ U16Field("disk_nr", b, 4),
      U16Field("start_disk_nr", b, 6),
      U16Field("nr_of_central_dir_records_on_disk", b, 8),
      U16Field("nr_of_central_dir_records", b, 10),
      U32Field("size_of_central_dir", b, 12),
      U32Field("offset_of_start_of_central_dir", b, 16),
      U16Field("comment_length", b, 20) ]
  }

  /** The entries of the record at the start of `b`, in the order of APPNOTE.TXT section 4.3.16. */
  function EocdEntries(b: Bytes): seq<Field>
    requires EocdFits(b.data)
  {
    [RawField("signature", b, 0, 4)] + EocdNumberEntries(b) + [RawField("comment", b, EOCD_FIXED, EocdLen(b.data))]
  }

  /**
   * The seven numbers of `decode_eocd`, read from the cursor `b` just past the signature of the
   * record `rec`: they are there exactly when the fixed part of the record is whole, and then
   * the result holds the record's fields and its comment length.
   */
  method DecodeEocdNumbers(o: Obj, b: Bytes, ghost rec: Bytes)
    returns (o': Obj, b': Bytes, r: Result<(EndOfCentralDirRecord, uint16), Error>)
    requires 4 <= |rec.data| && b == Drop(rec, 4)
    ensures r.Ok? <==> EOCD_FIXED <= |rec.data|
    ensures r.Ok? ==> o' == o + EocdNumberEntries(rec) && b' == Drop(rec, EOCD_FIXED)
    ensures r.Ok? ==> r.value == (EocdOf(rec.data), U16At(rec.data, 20))
    ensures r.Err? ==> |r.error.path| == 1 && r.error.position == b'
  {
    var es: Obj := [];
    var n;
    var diskNr;
    es, b', diskNr := AddU16(es, "disk_nr", b, rec, 4);
    if diskNr.Err? {
      return o + es, b', Err(diskNr.error);
    }
    es, b', n := AddU16(es, "start_disk_nr", b', rec, 6);
    if n.Err? {
      return o + es, b', Err(n.error);
    }
    es, b', n := AddU16(es, "nr_of_central_dir_records_on_disk", b', rec, 8);
    if n.Err? {
      return o + es, b', Err(n.error);
    }
    es, b', n := AddU16(es, "nr_of_central_dir_records", b', rec, 10);
    if n.Err? {
      return o + es, b', Err(n.error);
    }
    var sizeCd, offsetCd;
    es, b', sizeCd := AddU32(es, "size_of_central_dir", b', rec, 12);
    if sizeCd.Err? {
      return o + es, b', Err(sizeCd.error);
    }
    es, b', offsetCd := AddU32(es, "offset_of_start_of_central_dir", b', rec, 16);
    if offsetCd.Err? {
      return o + es, b', Err(offsetCd.error);
    }
    var commentLength;
    es, b', commentLength := AddU16(es, "comment_length", b', rec, 20);
    if commentLength.Err? {
      return o + es, b', Err(commentLength.error);
    }
    AppendSeven(U16Field("disk_nr", rec, 4), U16Field("start_disk_nr", rec, 6),
      U16Field("nr_of_central_dir_records_on_disk", rec, 8), U16Field("nr_of_central_dir_records", rec, 10),
      U32Field("size_of_central_dir", rec, 12), U32Field("offset_of_start_of_central_dir", rec, 16),
      U16Field("comment_length", rec, 20));
    o' := o + es;
    r := Ok((EndOfCentralDirRecord(diskNr.value, sizeCd.value, offsetCd.value), commentLength.value));
  }

  /**
   * `decode_eocd`, on the fresh object its caller makes: the nine fields of the record in order,
   * 22 bytes and the comment. It succeeds exactly when the record starts with its signature and
   * is whole, and then returns `disk_nr`, `size_of_central_dir` and
   * `offset_of_start_of_central_dir`. A failure names the field; unless it is a wrong
   * signature, it points at the cursor, where that field starts.
   */
  method DecodeEocd(b: Bytes) returns (o: Obj, b': Bytes, r: Result<EndOfCentralDirRecord, Error>)
    ensures r.Ok? <==> EocdFits(b.data)
    ensures r.Ok? ==> o == EocdEntries(b) && b' == Drop(b, EocdLen(b.data)) && r.value == EocdOf(b.data)
    ensures r.Err? ==> |r.error.path| == 1 && (r.error.expectTyp.ExpectRaw? || r.error.position == b')
  {
    var y, n;
    o, b', y := AddSignature([], b, END_OF_CENTRAL_DIR_SIG);
    if y.Err? {
      return o, b', Err(y.error);
    }
    o, b', n := DecodeEocdNumbers(o, b', b);
    if n.Err? {
      return o, b', Err(n.error);
    }
    o, b', y := AddRaw(o, "comment", b', n.value.1, b, EOCD_FIXED);
    if y.Err? {
      return o, b', Err(y.error);
    }
    r := Ok(n.value.0);
  }

  /** `EndOfCentralDirRecord::cd_range`: where the central directory lies in the archive. */
  function CdRange(e: EndOfCentralDirRecord): (r: (nat, nat))
    ensures r.0 == e.offsetCd && r.0 <= r.1 && r.1 - r.0 == e.sizeCd
  {
    // `try_into().unwrap()` from `u32` to `usize` cannot panic: `usize` is 64 bits wide.
    (e.offsetCd, e.offsetCd + e.sizeCd)
  }

  // ---------------------------------------------------------------------------------------------
  // The fields a central directory record and a local file header share (APPNOTE.TXT section 4.4)
  // ---------------------------------------------------------------------------------------------

  /** The fields of the common part that `decode_zip` uses later. */
  datatype Common = Common(flags: uint16, compressionMethod: uint16, compressedSize: uint32,
                           filenameLen: uint16, extraFieldLen: uint16)

  /** The common part is 26 bytes long. */
  const COMMON_LEN: nat := 26

  /** The common part at offset `k` of `d`. */
  function CommonOf(d: seq<uint8>, k: nat): Common
    requires k + COMMON_LEN <= |d|
  {
    Common(U16At(d, k + 2), U16At(d, k + 4), U32At(d, k + 14), U16At(d, k + 22), U16At(d, k + 24))
  }

  /** The entries of the first five fields of the common part at offset `k`: five `u16`s. */
  function CommonHeadEntries(rec: Bytes, k: nat): seq<Field>
    requires k + 10 <= |rec.data|
  {
    [ U16Field("version_needed", rec, k),
      FlagsField(rec, k + 2),
      U16Field("compression_method", rec, k + 4),
      U16Field("last_modification_time", rec, k + 6),
      U16Field("last_modification_date", rec, k + 8) ]
  }

  /** The entries of the last five fields of the common part at offset `k`: three `u32`s, two `u16`s. */
  function CommonTailEntries(rec: Bytes, k: nat): seq<Field>
    requires k + COMMON_LEN <= |rec.data|
  {
    [ U32Field("crc_32", rec, k + 10),
      U32Field("compressed_size", rec, k + 14),
      U32Field("uncompressed_size", rec, k + 18),
      U16Field("file_name_length", rec, k + 22),
      U16Field("extra_field_length", rec, k + 24) ]
  }

  function CommonEntries(rec: Bytes, k: nat): seq<Field>
    requires k + COMMON_LEN <= |rec.data|
  {
    CommonHeadEntries(rec, k) + CommonTailEntries(rec, k)
  }

  /**
   * Where in the common part decoding stops when only `n < 26` of its bytes are there: at the
   * start of the first field that does not fit.
   */
  function CommonStop(n: nat): (r: nat)
    ensures n < COMMON_LEN ==> r <= n
  {
    if n < 2 then 0 else if n < 4 then 2 else if n < 6 then 4 else if n < 8 then 6
    else if n < 10 then 8 else if n < 14 then 10 else if n < 18 then 14 else if n < 22 then 18
    else if n < 24 then 22 else 24
  }

  /** The field of the common part that runs short when only `n` of its bytes are there. */
  function CommonShortField(n: nat): string
    requires n < COMMON_LEN
  {
    if n < 2 then "version_needed" else if n < 4 then "flags" else if n < 6 then "compression_method"
    else if n < 8 then "last_modification_time" else if n < 10 then "last_modification_date"
    else if n < 14 then "crc_32" else if n < 18 then "compressed_size" else if n < 22 then "uncompressed_size"
    else if n < 24 then "file_name_length" else "extra_field_length"
  }

  /** The first half of `decode_common`, at offset `k` of the record `rec`: flags and method. */
  method DecodeCommonHead(o: Obj, b: Bytes, ghost rec: Bytes, ghost k: nat)
    returns (o': Obj, b': Bytes, r: Result<(uint16, uint16), Error>)
    requires k <= |rec.data| && b == Drop(rec, k)
    ensures r.Ok? <==> k + 10 <= |rec.data|
    ensures r.Ok? ==> o' == o + CommonHeadEntries(rec, k) && b' == Drop(rec, k + 10)
    ensures r.Ok? ==> r.value == (U16At(rec.data, k + 2), U16At(rec.data, k + 4))
    ensures r.Err? ==> r.error.path == [Index.Str(CommonShortField(|rec.data| - k))]
    ensures r.Err? ==> r.error.position == b' && b' == Drop(rec, k + CommonStop(|rec.data| - k))
  {
    var es: Obj := [];
    var n, flags, compression;
    es, b', n := AddU16(es, "version_needed", b, rec, k);
    if n.Err? {
      return o + es, b', Err(n.error);
    }
    es, b', flags := AddFlags(es, b', rec, k + 2);
    if flags.Err? {
      return o + es, b', Err(flags.error);
    }
    es, b', compression := AddU16(es, "compression_method", b', rec, k + 4);
    if compression.Err? {
      return o + es, b', Err(compression.error);
    }
    es, b', n := AddU16(es, "last_modification_time", b', rec, k + 6);
    if n.Err? {
      return o + es, b', Err(n.error);
    }
    es, b', n := AddU16(es, "last_modification_date", b', rec, k + 8);
    if n.Err? {
      return o + es, b', Err(n.error);
    }
    AppendFive(U16Field("version_needed", rec, k), FlagsField(rec, k + 2), U16Field("compression_method", rec, k + 4),
      U16Field("last_modification_time", rec, k + 6), U16Field("last_modification_date", rec, k + 8));
    o' := o + es;
    r := Ok((flags.value, compression.value));
  }

  /** The second half of `decode_common`: sizes and lengths. */
  method DecodeCommonTail(o: Obj, b: Bytes, ghost rec: Bytes, ghost k: nat)
    returns (o': Obj, b': Bytes, r: Result<(uint32, uint16, uint16), Error>)
    requires k + 10 <= |rec.data| && b == Drop(rec, k + 10)
    ensures r.Ok? <==> k + COMMON_LEN <= |rec.data|
    ensures r.Ok? ==> o' == o + CommonTailEntries(rec, k) && b' == Drop(rec, k + COMMON_LEN)
    ensures r.Ok? ==> r.value == (U32At(rec.data, k + 14), U16At(rec.data, k + 22), U16At(rec.data, k + 24))
    ensures r.Err? ==> r.error.path == [Index.Str(CommonShortField(|rec.data| - k))]
    ensures r.Err? ==> r.error.position == b' && b' == Drop(rec, k + CommonStop(|rec.data| - k))
  {
    var es: Obj := [];
    var n, size, filenameLen, extraFieldLen;
    es, b', n := AddU32(es, "crc_32", b, rec, k + 10);
    if n.Err? {
      return o + es, b', Err(n.error);
    }
    es, b', size := AddU32(es, "compressed_size", b', rec, k + 14);
    if size.Err? {
      return o + es, b', Err(size.error);
    }
    es, b', n := AddU32(es, "uncompressed_size", b', rec, k + 18);
    if n.Err? {
      return o + es, b', Err(n.error);
    }
    es, b', filenameLen := AddU16(es, "file_name_length", b', rec, k + 22);
    if filenameLen.Err? {
      return o + es, b', Err(filenameLen.error);
    }
    es, b', extraFieldLen := AddU16(es, "extra_field_length", b', rec, k + 24);
    if extraFieldLen.Err? {
      return o + es, b', Err(extraFieldLen.error);
    }
    AppendFive(U32Field("crc_32", rec, k + 10), U32Field("compressed_size", rec, k + 14),
      U32Field("uncompressed_size", rec, k + 18), U16Field("file_name_length", rec, k + 22),
      U16Field("extra_field_length", rec, k + 24));
    o' := o + es;
    r := Ok((size.value, filenameLen.value, extraFieldLen.value));
  }

  /**
   * `decode_common`, at offset `k` of the record `rec`: it adds the ten fields of the common part
   * in order and succeeds exactly when all 26 bytes are there; a failure names the first field
   * that does not fit and leaves the cursor at its start.
   */
  method DecodeCommon(o: Obj, b: Bytes, ghost rec: Bytes, ghost k: nat)
    returns (o': Obj, b': Bytes, r: Result<Common, Error>)
    requires k <= |rec.data| && b == Drop(rec, k)
    ensures r.Ok? <==> k + COMMON_LEN <= |rec.data|
    ensures r.Ok? ==> o' == o + CommonEntries(rec, k) && b' == Drop(rec, k + COMMON_LEN) && r.value == CommonOf(rec.data, k)
    ensures r.Err? ==> r.error.path == [Index.Str(CommonShortField(|rec.data| - k))]
    ensures r.Err? ==> r.error.position == b' && b' == Drop(rec, k + CommonStop(|rec.data| - k))
  {
    var head, tail;
    o', b', head := DecodeCommonHead(o, b, rec, k);
    if head.Err? {
      return o', b', Err(head.error);
    }
    o', b', tail := DecodeCommonTail(o', b', rec, k);
    if tail.Err? {
      return o', b', Err(tail.error);
    }
    r := Ok(Common(head.value.0, head.value.1, tail.value.0, tail.value.1, tail.value.2));
  }

  // ---------------------------------------------------------------------------------------------
  // Central directory record (APPNOTE.TXT section 4.3.12)
  // ---------------------------------------------------------------------------------------------

  /** The fields of a central directory record that `decode_zip` uses. */
  datatype CentralDirRecord = CentralDirRecord(common: Common, diskNrStart: uint16, localFileOffset: uint32)

  /** The fixed part of the record: signature, version, common part and five more numbers. */
  const CDR_FIXED: nat := 46

  /** The record's length: the fixed part, the file name, the extra fields and the file comment. */
  function CdrLen(d: seq<uint8>): nat
    requires |d| >= CDR_FIXED
  {
    CDR_FIXED + U16At(d, 28) + U16At(d, 30) + U16At(d, 32)
  }

  /** The record at the start of `d` starts with its signature and is whole. */
  predicate CdrFits(d: seq<uint8>)
  {
    |d| >= CDR_FIXED && d[..4] == CENTRAL_DIR_SIG && CdrLen(d) <= |d|
  }

  function CdrOf(d: seq<uint8>): CentralDirRecord
    requires |d| >= CDR_FIXED
  {
    CentralDirRecord(CommonOf(d, 6), U16At(d, 34), U32At(d, 42))
  }

  /** The entries of the five numbers after the common part, offsets 32 to 46. */
  function CdrNumberEntries(b: Bytes): seq<Field>
    requires |b.data| >= CDR_FIXED
  {
    [ U16Field("file_comment_length", b, 32),
      U16Field("disk_number_where_file_starts", b, 34),
      U16Field("internal_file_attributes", b, 36),
      U32Field("external_file_attributes", b, 38),
      U32Field("relative_offset_of_local_file_header", b, 42) ]
  }

  /** The entries of the fixed part of the record at the start of `b`. */
  function CdrFixedEntries(b: Bytes): seq<Field>
    requires |b.data| >= CDR_FIXED
  {
    [RawField("signature", b, 0, 4), U16Field("version_made_by", b, 4)] + CommonEntries(b, 6) + CdrNumberEntries(b)
  }

  /** The entries of the file name and the extra fields, `nameLen` and `extraLen` bytes at offset `k`. */
  function NameExtraEntries(rec: Bytes, k: nat, nameLen: nat, extraLen: nat): seq<Field>
    requires k + nameLen + extraLen <= |rec.data|
  {
    [ RawField("file_name", rec, k, k + nameLen),
      RawField("extra_fields", rec, k + nameLen, k + nameLen + extraLen) ]
  }

  /** The entries of the record at the start of `b`, in the order of APPNOTE.TXT section 4.3.12. */
  function CdrEntries(b: Bytes): seq<Field>
    requires CdrFits(b.data)
  {
    CdrFixedEntries(b)
      + NameExtraEntries(b, CDR_FIXED, U16At(b.data, 28), U16At(b.data, 30))
      + [RawField("file_comment", b, CDR_FIXED + U16At(b.data, 28) + U16At(b.data, 30), CdrLen(b.data))]
  }

  /** The entries of a record are those of its fixed part, then its name and extra fields, then its comment. */
  lemma CdrEntriesSplit(b: Bytes)
    requires CdrFits(b.data)
    ensures CdrEntries(b) == CdrFixedEntries(b) + NameExtraEntries(b, CDR_FIXED, U16At(b.data, 28), U16At(b.data, 30))
                             + [RawField("file_comment", b, CDR_FIXED + U16At(b.data, 28) + U16At(b.data, 30), CdrLen(b.data))]
  {
  }

  /**
   * `o.add("file_name", ..)?` and `o.add("extra_fields", ..)?`, the variable-length fields both
   * records have after their fixed part at offset `k` of `rec`.
   */
  method AddNameExtra(o: Obj, b: Bytes, nameLen: nat, extraLen: nat, ghost rec: Bytes, ghost k: nat)
    returns (o': Obj, b': Bytes, r: Result<(), Error>)
    requires k <= |rec.data| && b == Drop(rec, k)
    ensures r.Ok? <==> k + nameLen + extraLen <= |rec.data|
    ensures r.Ok? ==> o' == o + NameExtraEntries(rec, k, nameLen, extraLen) && b' == Drop(rec, k + nameLen + extraLen)
    ensures r.Err? ==> r.error.position == b'
    ensures r.Err? ==> b' == Drop(rec, if |rec.data| < k + nameLen then k else k + nameLen)
    ensures r.Err? && |rec.data| < k + nameLen ==> o' == o && r.error.path == [Index.Str("file_name")]
    ensures r.Err? && k + nameLen <= |rec.data| ==>
      o' == o + [RawField("file_name", rec, k, k + nameLen)] && r.error.path == [Index.Str("extra_fields")]
  {
    o', b', r := AddRaw(o, "file_name", b, nameLen, rec, k);
    if r.Err? {
      return;
    }
    o', b', r := AddRaw(o', "extra_fields", b', extraLen, rec, k + nameLen);
  }

  /** The five numbers of `decode_cdr` after the common part, from the cursor at offset 32 of `rec`. */
  method DecodeCdrNumbers(o: Obj, b: Bytes, ghost rec: Bytes)
    returns (o': Obj, b': Bytes, r: Result<(uint16, uint16, uint32), Error>)
    requires 32 <= |rec.data| && b == Drop(rec, 32)
    ensures r.Ok? <==> CDR_FIXED <= |rec.data|
    ensures r.Ok? ==> o' == o + CdrNumberEntries(rec) && b' == Drop(rec, CDR_FIXED)
    ensures r.Ok? ==> r.value == (U16At(rec.data, 32), U16At(rec.data, 34), U32At(rec.data, 42))
    ensures r.Err? ==> |r.error.path| == 1
  {
    var es: Obj := [];
    var n, fileCommentLen, diskNrStart, localFileOffset;
    es, b', fileCommentLen := AddU16(es, "file_comment_length", b, rec, 32);
    if fileCommentLen.Err? {
      return o + es, b', Err(fileCommentLen.error);
    }
    es, b', diskNrStart := AddU16(es, "disk_number_where_file_starts", b', rec, 34);
    if diskNrStart.Err? {
      return o + es, b', Err(diskNrStart.error);
    }
    es, b', n := AddU16(es, "internal_file_attributes", b', rec, 36);
    if n.Err? {
      return o + es, b', Err(n.error);
    }
    var m;
    es, b', m := AddU32(es, "external_file_attributes", b', rec, 38);
    if m.Err? {
      return o + es, b', Err(m.error);
    }
    es, b', localFileOffset := AddU32(es, "relative_offset_of_local_file_header", b', rec, 42);
    if localFileOffset.Err? {
      return o + es, b', Err(localFileOffset.error);
    }
    AppendFive(U16Field("file_comment_length", rec, 32), U16Field("disk_number_where_file_starts", rec, 34),
      U16Field("internal_file_attributes", rec, 36), U32Field("external_file_attributes", rec, 38),
      U32Field("relative_offset_of_local_file_header", rec, 42));
    o' := o + es;
    r := Ok((fileCommentLen.value, diskNrStart.value, localFileOffset.value));
  }

  /** The fixed part of `decode_cdr`: signature, version, common part and five numbers. */
  method DecodeCdrFixed(b: Bytes) returns (o: Obj, b': Bytes, r: Result<(Common, uint16, uint16, uint32), Error>)
    ensures r.Ok? <==> |b.data| >= CDR_FIXED && b.data[..4] == CENTRAL_DIR_SIG
    ensures r.Ok? ==> o == CdrFixedEntries(b) && b' == Drop(b, CDR_FIXED)
    ensures r.Ok? ==> r.value == (CommonOf(b.data, 6), U16At(b.data, 32), U16At(b.data, 34), U32At(b.data, 42))
    ensures r.Err? ==> |r.error.path| == 1
  {
    var y, n, common, numbers;
    o, b', y := AddSignature([], b, CENTRAL_DIR_SIG);
    if y.Err? {
      return o, b', Err(y.error);
    }
    o, b', n := AddU16(o, "version_made_by", b', b, 4);
    if n.Err? {
      return o, b', Err(n.error);
    }
    o, b', common := DecodeCommon(o, b', b, 6);
    if common.Err? {
      return o, b', Err(common.error);
    }
    o, b', numbers := DecodeCdrNumbers(o, b', b);
    if numbers.Err? {
      return o, b', Err(numbers.error);
    }
    r := Ok((common.value, numbers.value.0, numbers.value.1, numbers.value.2));
  }

  /** The variable part of `decode_cdr`: file name, extra fields and file comment, from offset 46 of `rec`. */
  method DecodeCdrVariable(o: Obj, b: Bytes, nameLen: nat, extraLen: nat, commentLen: nat, ghost rec: Bytes)
    returns (o': Obj, b': Bytes, r: Result<(), Error>)
    requires CDR_FIXED <= |rec.data| && b == Drop(rec, CDR_FIXED)
    ensures r.Ok? <==> CDR_FIXED + nameLen + extraLen + commentLen <= |rec.data|
    ensures r.Ok? ==> o' == o + NameExtraEntries(rec, CDR_FIXED, nameLen, extraLen)
                              + [RawField("file_comment", rec, CDR_FIXED + nameLen + extraLen, CDR_FIXED + nameLen + extraLen + commentLen)]
    ensures r.Ok? ==> b' == Drop(rec, CDR_FIXED + nameLen + extraLen + commentLen)
    ensures r.Err? ==> |r.error.path| == 1
  {
    o', b', r := AddNameExtra(o, b, nameLen, extraLen, rec, CDR_FIXED);
    if r.Err? {
      return;
    }
    o', b', r := AddRaw(o', "file_comment", b', commentLen, rec, CDR_FIXED + nameLen + extraLen);
  }

  /**
   * `decode_cdr`, on the fresh object its caller makes: the twenty fields of the record in
   * order. It succeeds exactly when the record starts with its signature and is whole, and then
   * returns its common part, the disk it starts on and the offset of its local file header.
   */
  method DecodeCdr(b: Bytes) returns (o: Obj, b': Bytes, r: Result<CentralDirRecord, Error>)
    ensures r.Ok? <==> CdrFits(b.data)
    ensures r.Ok? ==> o == CdrEntries(b) && b' == Drop(b, CdrLen(b.data)) && r.value == CdrOf(b.data)
    ensures r.Err? ==> |r.error.path| == 1
  {
    var y, fixed;
    o, b', fixed := DecodeCdrFixed(b);
    if fixed.Err? {
      return o, b', Err(fixed.error);
    }
    var (common, fileCommentLen, diskNrStart, localFileOffset) := fixed.value;
    o, b', y := DecodeCdrVariable(o, b', common.filenameLen, common.extraFieldLen, fileCommentLen, b);
    if y.Err? {
      return o, b', Err(y.error);
    }
    ghost var fnl, efl := U16At(b.data, 28), U16At(b.data, 30);
    assert common.filenameLen == fnl && common.extraFieldLen == efl && fileCommentLen == U16At(b.data, 32);
    assert CdrLen(b.data) == CDR_FIXED + fnl + efl + fileCommentLen;
    CdrEntriesSplit(b);
    r := Ok(CentralDirRecord(common, diskNrStart, localFileOffset));
  }

  // ---------------------------------------------------------------------------------------------
  // Local file header and file data (APPNOTE.TXT sections 4.3.7 and 4.3.8)
  // ---------------------------------------------------------------------------------------------

  /** The fixed part of a local file header: the signature and the common part. */
  const LOCAL_FIXED: nat := 30

  /** The header's length: the fixed part, the file name and the extra fields. */
  function LocalHeaderLen(d: seq<uint8>): nat
    requires |d| >= LOCAL_FIXED
  {
    LOCAL_FIXED + U16At(d, 26) + U16At(d, 28)
  }

  /** The header at the start of `d` starts with its signature and is whole. */
  predicate LocalHeaderFits(d: seq<uint8>)
  {
    |d| >= LOCAL_FIXED && d[..4] == LOCAL_FILE_SIG && LocalHeaderLen(d) <= |d|
  }

  /**
   * The size of the compressed data: the local header's own `compressed_size`, or the central
   * directory's when the local one is zero (APPNOTE.TXT section 4.4.4, bit 3 of the flags: the sizes then
   * follow the data and the local header holds zero).
   */
  function CompressedSize(local: Common, central: Common): uint32
  {
    if local.compressedSize == 0 then central.compressedSize else local.compressedSize
  }

  /** The whole local file at the start of `d`: header and compressed data. */
  function LocalLen(d: seq<uint8>, central: Common): nat
    requires |d| >= LOCAL_FIXED
  {
    LocalHeaderLen(d) + CompressedSize(CommonOf(d, 4), central)
  }

  /** The local file at the start of `d` is whole. */
  predicate LocalFits(d: seq<uint8>, central: Common)
  {
    LocalHeaderFits(d) && LocalLen(d, central) <= |d|
  }

  /**
   * The explanation of compressed data `c`: a lazily inflated value when the method is deflate,
   * the same bytes when they are stored, nothing for any other method.
   */
  function Uncompressed(compressionMethod: uint16, c: Bytes): (r: Option<Val>)
    ensures r.Some? <==> compressionMethod == Code(Deflated) || compressionMethod == Code(Stored)
  {
    FromU16Code(Deflated);
    FromU16Code(Stored);
    match FromU16(compressionMethod)
    case Some(Deflated) => Some(Obj([Field("uncompressed", c, Lazy(Uncompress(c)))]))
    case Some(Stored) => Some(Obj([Field("uncompressed", c, Default)]))
    case _ => None
  }

  /** The entry of `n` bytes of compressed data at offset `lo` of `rec`; there is none when `n` is zero. */
  function CompressedEntries(rec: Bytes, lo: nat, n: nat, compressionMethod: uint16): seq<Field>
    requires lo + n <= |rec.data|
  {
    if n == 0 then []
    else
      var c := Slice(rec, lo, lo + n);
      [Field("compressed", c, Atom(Raw, Uncompressed(compressionMethod, c)))]
  }

  /** The entries of the header at the start of `b`. */
  function LocalHeaderEntries(b: Bytes): seq<Field>
    requires LocalHeaderFits(b.data)
  {
    [RawField("signature", b, 0, 4)] + CommonEntries(b, 4) + NameExtraEntries(b, LOCAL_FIXED, U16At(b.data, 26), U16At(b.data, 28))
  }

  /** The entries of the local file at the start of `b`, in the order of APPNOTE.TXT section 4.3.7. */
  function LocalEntries(b: Bytes, central: Common): seq<Field>
    requires LocalFits(b.data, central)
  {
    LocalHeaderEntries(b) + CompressedEntries(b, LocalHeaderLen(b.data), CompressedSize(CommonOf(b.data, 4), central), U16At(b.data, 8))
  }

  /** Where decoding a header that does not fit stops: at the start of the first field that does not fit. */
  function LocalHeaderStop(d: seq<uint8>): (r: nat)
    ensures r <= |d|
  {
    if |d| < 4 then 0
    else if d[..4] != LOCAL_FILE_SIG then 4
    else if |d| < LOCAL_FIXED then 4 + CommonStop(|d| - 4)
    else if |d| < LOCAL_FIXED + U16At(d, 26) then LOCAL_FIXED
    else if |d| < LocalHeaderLen(d) then LOCAL_FIXED + U16At(d, 26)
    else LocalHeaderLen(d)
  }

  /** Where decoding the local file at the start of `d` leaves the cursor, whether it succeeds or not. */
  function LocalStop(d: seq<uint8>, central: Common): (r: nat)
    ensures r <= |d|
    ensures r == |d| <== LocalFits(d, central) && |d| == LocalLen(d, central)
  {
    if !LocalHeaderFits(d) then LocalHeaderStop(d)
    else if |d| < LocalLen(d, central) then LocalHeaderLen(d)
    else LocalLen(d, central)
  }

  /**
   * The header part of `decode_local_file`: signature, common part, file name and extra fields.
   * It succeeds exactly when the header starts with its signature and is whole.
   */
  method DecodeLocalHeader(b: Bytes) returns (o: Obj, b': Bytes, r: Result<Common, Error>)
    ensures r.Ok? <==> LocalHeaderFits(b.data)
    ensures r.Ok? ==> o == LocalHeaderEntries(b) && b' == Drop(b, LocalHeaderLen(b.data)) && r.value == CommonOf(b.data, 4)
    ensures r.Err? ==> |r.error.path| == 1 && b' == Drop(b, LocalHeaderStop(b.data))
  {
    var y;
    o, b', y := AddSignature([], b, LOCAL_FILE_SIG);
    if y.Err? {
      return o, b', Err(y.error);
    }
    o, b', r := DecodeCommon(o, b', b, 4);
    if r.Err? {
      return;
    }
    var common := r.value;
    assert common.filenameLen == U16At(b.data, 26) && common.extraFieldLen == U16At(b.data, 28);
    o, b', y := AddNameExtra(o, b', common.filenameLen, common.extraFieldLen, b, LOCAL_FIXED);
    if y.Err? {
      return o, b', Err(y.error);
    }
  }

  /**
   * The data part of `decode_local_file`, from the cursor `b` just past the header of the local
   * file `rec`: `n` bytes of compressed data, none when `n` is zero. When they are not all
   * there, the error of `raw` goes out as it is, with no field name added.
   */
  method DecodeCompressed(o: Obj, b: Bytes, n: nat, compressionMethod: uint16, ghost rec: Bytes, ghost k: nat)
    returns (o': Obj, b': Bytes, r: Result<(), Error>)
    requires k <= |rec.data| && b == Drop(rec, k)
    ensures r.Ok? <==> k + n <= |rec.data|
    ensures r.Ok? ==> o' == o + CompressedEntries(rec, k, n, compressionMethod) && b' == Drop(rec, k + n)
    ensures r.Err? ==> o' == o && b' == b && r.error == NewError(b, n)
  {
    o', b' := o, b;
    if n > 0 {
      var d;
      b', d := ReadRaw(b, n);
      if d.Err? {
        return o, b', Err(d.error);
      }
      var (compressed, _, _) := d.value;
      var entry := (compressed, Atom(Raw, Uncompressed(compressionMethod, compressed)), ());
      o', r := ObjAdd(o, "compressed", Ok(entry));
      PrefixOfDrop(rec, k, n);
      DropDrop(rec, k, n);
    } else {
      r := Ok(());
    }
  }

  /**
   * `decode_local_file`, on the fresh object its caller makes, given the common part of the
   * central directory record that points at it: it succeeds exactly when the header starts with
   * its signature and the header and the compressed data are whole, and leaves the cursor where
   * `LocalStop` says. Missing compressed data fail with an error that names no field.
   */
  method DecodeLocalFile(b: Bytes, central: Common) returns (o: Obj, b': Bytes, r: Result<(), Error>)
    ensures r.Ok? <==> LocalFits(b.data, central)
    ensures r.Ok? ==> o == LocalEntries(b, central)
    ensures b' == Drop(b, LocalStop(b.data, central))
    ensures r.Err? && LocalHeaderFits(b.data) ==> r.error == NewError(b', CompressedSize(CommonOf(b.data, 4), central))
    ensures r.Err? && LocalHeaderFits(b.data) ==> o == LocalHeaderEntries(b)
    ensures r.Err? && !LocalHeaderFits(b.data) ==> |r.error.path| == 1
  {
    var header;
    o, b', header := DecodeLocalHeader(b);
    if header.Err? {
      return o, b', Err(header.error);
    }
    var local := header.value;
    // `try_into().unwrap()` from `u32` to `usize` cannot panic: `usize` is 64 bits wide.
    var compressedSize := if local.compressedSize == 0 then central.compressedSize else local.compressedSize;
    o, b', r := DecodeCompressed(o, b', compressedSize, local.compressionMethod, b, LocalHeaderLen(b.data));
  }

  // ---------------------------------------------------------------------------------------------
  // Extra field (APPNOTE.TXT section 4.5.1)
  // ---------------------------------------------------------------------------------------------

  /** The extra field at the start of `d` is whole: its tag, its size and `size` bytes of data. */
  predicate ExtraFieldFits(d: seq<uint8>)
  {
    4 <= |d| && 4 + U16At(d, 2) <= |d|
  }

  function ExtraFieldEntries(b: Bytes): seq<Field>
    requires ExtraFieldFits(b.data)
  {
    [U16Field("tag", b, 0), U16Field("size", b, 2), RawField("data", b, 4, 4 + U16At(b.data, 2))]
  }

  /**
   * `decode_extra_field`: the tag, the size and that many bytes of data. It succeeds exactly when
   * the field is whole; a failure names the field that does not fit, keeps the entries before it
   * and leaves the cursor at its start.
   */
  method DecodeExtraField(o: Obj, b: Bytes) returns (o': Obj, b': Bytes, r: Result<(), Error>)
    ensures r.Ok? <==> ExtraFieldFits(b.data)
    ensures r.Ok? ==> o' == o + ExtraFieldEntries(b) && b' == Drop(b, 4 + U16At(b.data, 2))
    ensures r.Err? ==> |r.error.path| == 1 && r.error.position == b' && |o| <= |o'| && o'[..|o|] == o
  {
    var n, size;
    o', b', n := AddU16(o, "tag", b, b, 0);
    if n.Err? {
      return o', b', Err(n.error);
    }
    o', b', size := AddU16(o', "size", b', b, 2);
    if size.Err? {
      return o', b', Err(size.error);
    }
    o', b', r := AddRaw(o', "data", b', size.value, b, 4);
  }

  // ---------------------------------------------------------------------------------------------
  // The central directory: a sequence of records (APPNOTE.TXT section 4.3.12)
  // ---------------------------------------------------------------------------------------------

  /** The element of the record at the start of `cd`: the bytes it was decoded from and its fields. */
  function CdrElem(cd: Bytes): Elem
    requires CdrFits(cd.data)
  {
    Elem(Prefix(cd, CdrLen(cd.data)), Obj(CdrEntries(cd)))
  }

  /** `d` is a whole number of whole central directory records. */
  predicate CdFits(d: seq<uint8>)
    decreases |d|
  {
    d == [] || (CdrFits(d) && CdFits(d[CdrLen(d)..]))
  }

  /** The elements of the whole records at the start of `cd`, up to the first that does not fit. */
  function CdElems(cd: Bytes): seq<Elem>
    decreases |cd.data|
  {
    if cd.data == [] || !CdrFits(cd.data) then [] else [CdrElem(cd)] + CdElems(Drop(cd, CdrLen(cd.data)))
  }

  /** The records whose elements `CdElems` lists. */
  function Cdrs(d: seq<uint8>): seq<CentralDirRecord>
    decreases |d|
  {
    if d == [] || !CdrFits(d) then [] else [CdrOf(d)] + Cdrs(d[CdrLen(d)..])
  }

  /** The cursor after the whole records at the start of `cd`: empty, or at a record that does not fit. */
  function CdRest(cd: Bytes): Bytes
    decreases |cd.data|
  {
    if cd.data == [] || !CdrFits(cd.data) then cd else CdRest(Drop(cd, CdrLen(cd.data)))
  }

  /** One step of the central directory: the record at the start of `cur` fits. */
  lemma CdStep(cur: Bytes)
    requires cur.data != [] && CdrFits(cur.data)
    ensures CdElems(cur) == [CdrElem(cur)] + CdElems(Drop(cur, CdrLen(cur.data)))
    ensures Cdrs(cur.data) == [CdrOf(cur.data)] + Cdrs(Drop(cur, CdrLen(cur.data)).data)
    ensures CdFits(cur.data) <==> CdFits(Drop(cur, CdrLen(cur.data)).data)
    ensures CdRest(cur) == CdRest(Drop(cur, CdrLen(cur.data)))
  {
  }

  /**
   * One `cd.add_mut(cd_slice.clone(), ..)` of `decode_zip`: the record at the start of the cursor
   * `cur`, added to the array with the bytes it consumed, or, when it does not fit, with all of
   * `cur`; the error names the new element's index.
   */
  method DecodeCdElem(a: Arr, cur: Bytes) returns (a': Arr, cur': Bytes, r: Result<CentralDirRecord, Error>)
    ensures r.Ok? <==> CdrFits(cur.data)
    ensures r.Ok? ==> a' == a + [CdrElem(cur)] && cur' == Drop(cur, CdrLen(cur.data)) && r.value == CdrOf(cur.data)
    ensures r.Err? ==> |a'| == |a| + 1 && a'[..|a|] == a && a'[|a|].bytes == cur && a'[|a|].val.Obj?
    ensures r.Err? ==> |r.error.path| == 2 && r.error.path[1] == Index.Int(|a|)
  {
    var o, y;
    o, cur', y := DecodeCdr(cur);
    var c := Consumed(cur, cur', y);
    if c.Err? {
      a', r := ArrAddMut(a, cur, Obj(o), Err(c.error));
      return;
    }
    var (consumed, cdr) := c.value;
    a', r := ArrAddMut(a, consumed, Obj(o), Ok(cdr));
  }

  /**
   * The closure `decode_zip` gives `root.add_mut("central_directories", ..)`: records one after the
   * other, while any bytes are left, each added to the array with the bytes it consumed. It
   * succeeds exactly when the central directory is a whole number of whole records, and then
   * returns the records in order. Otherwise the array ends with an element for the record that
   * does not fit, holding all the bytes from its start, and the error names its index.
   */
  method DecodeCds(cd: Bytes) returns (a: Arr, r: Result<seq<CentralDirRecord>, Error>)
    ensures r.Ok? <==> CdFits(cd.data)
    ensures |CdElems(cd)| <= |a| && a[..|CdElems(cd)|] == CdElems(cd)
    ensures r.Ok? ==> a == CdElems(cd) && r.value == Cdrs(cd.data)
    ensures r.Err? ==> |a| == |CdElems(cd)| + 1 && a[|a| - 1].bytes == CdRest(cd) && a[|a| - 1].val.Obj?
    ensures r.Err? ==> |r.error.path| == 2 && r.error.path[1] == Index.Int(|a| - 1)
  {
    a := [];
    var cds := [];
    var cur := cd;
    while cur.data != []
      invariant CdElems(cd) == a + CdElems(cur)
      invariant Cdrs(cd.data) == cds + Cdrs(cur.data)
      invariant CdFits(cd.data) <==> CdFits(cur.data)
      invariant CdRest(cd) == CdRest(cur)
      decreases |cur.data|
    {
      ghost var (a0, cur0) := (a, cur);
      var y;
      a, cur, y := DecodeCdElem(a, cur);
      if y.Err? {
        assert CdElems(cur0) == [] && CdRest(cur0) == cur0;
        return a, Err(y.error);
      }
      CdStep(cur0);
      AppendAssoc(a0, [CdrElem(cur0)], CdElems(cur));
      AppendAssoc(cds, [y.value], Cdrs(cur.data));
      cds := cds + [y.value];
    }
    return a, Ok(cds);
  }

  /** A sequence of elements covers `b`: each starts where the one before it ends, and the last ends where `b` does. */
  predicate Tiled(es: seq<Elem>, b: Bytes)
    decreases |es|
  {
    if es == [] then b.data == []
    else |es[0].bytes.data| <= |b.data| && es[0].bytes == Prefix(b, |es[0].bytes.data|)
         && Tiled(es[1..], Drop(b, |es[0].bytes.data|))
  }

  /** The elements of a central directory that is a whole number of records cover it exactly. */
  lemma {:induction false} CdElemsTiled(cd: Bytes)
    requires CdFits(cd.data)
    ensures Tiled(CdElems(cd), cd)
    decreases |cd.data|
  {
    if cd.data != [] {
      var rest := Drop(cd, CdrLen(cd.data));
      CdElemsTiled(rest);
      assert CdElems(cd)[1..] == CdElems(rest);
    }
  }

  /** The records listed are those the elements hold, one for each. */
  lemma {:induction false} CdrsMatchElems(cd: Bytes)
    ensures |Cdrs(cd.data)| == |CdElems(cd)|
    ensures forall i :: 0 <= i < |CdElems(cd)| ==> CdElems(cd)[i].val.Obj?
    decreases |cd.data|
  {
    if cd.data != [] && CdrFits(cd.data) {
      CdrsMatchElems(Drop(cd, CdrLen(cd.data)));
    }
  }

  // ---------------------------------------------------------------------------------------------
  // The local files the central directory points at
  // ---------------------------------------------------------------------------------------------

  /**
   * Every local file offset that decoding reaches lies within `lf`, so that `lf_slice.slice(offset..)`
   * does not panic: those of the records on `disk`, up to the first local file that does not fit.
   */
  predicate OffsetsOk(lf: seq<uint8>, cds: seq<CentralDirRecord>, disk: uint16)
    decreases |cds|
  {
    cds == [] ||
    if cds[0].diskNrStart != disk then OffsetsOk(lf, cds[1..], disk)
    else cds[0].localFileOffset <= |lf|
         && (LocalFits(lf[cds[0].localFileOffset..], cds[0].common) ==> OffsetsOk(lf, cds[1..], disk))
  }

  /** The element of the local file at the start of `s`. */
  function LocalElem(s: Bytes, central: Common): Elem
    requires LocalFits(s.data, central)
  {
    Elem(Prefix(s, LocalLen(s.data, central)), Obj(LocalEntries(s, central)))
  }

  /** The elements of the local files of the records on `disk`, up to the first that does not fit. */
  function LocalElems(lf: Bytes, cds: seq<CentralDirRecord>, disk: uint16): seq<Elem>
    requires OffsetsOk(lf.data, cds, disk)
    decreases |cds|
  {
    if cds == [] then []
    else if cds[0].diskNrStart != disk then LocalElems(lf, cds[1..], disk)
    else
      var s := Drop(lf, cds[0].localFileOffset);
      if LocalFits(s.data, cds[0].common) then [LocalElem(s, cds[0].common)] + LocalElems(lf, cds[1..], disk)
      else []
  }

  /** The local files of all the records on `disk` fit. */
  predicate LocalsFit(lf: seq<uint8>, cds: seq<CentralDirRecord>, disk: uint16)
    requires OffsetsOk(lf, cds, disk)
    decreases |cds|
  {
    cds == [] ||
    if cds[0].diskNrStart != disk then LocalsFit(lf, cds[1..], disk)
    else LocalFits(lf[cds[0].localFileOffset..], cds[0].common) && LocalsFit(lf, cds[1..], disk)
  }

  /**
   * The bytes of the element of the first local file that does not fit: `set_consumed` leaves the
   * cursor where decoding stopped, so they run from there to the end of `lf`.
   */
  function LocalFailure(lf: Bytes, cds: seq<CentralDirRecord>, disk: uint16): Bytes
    requires OffsetsOk(lf.data, cds, disk) && !LocalsFit(lf.data, cds, disk)
    decreases |cds|
  {
    if cds[0].diskNrStart != disk then LocalFailure(lf, cds[1..], disk)
    else
      var s := Drop(lf, cds[0].localFileOffset);
      if LocalFits(s.data, cds[0].common) then LocalFailure(lf, cds[1..], disk)
      else Drop(s, LocalStop(s.data, cds[0].common))
  }

  /**
   * One `a.add_mut(lf_slice.slice(offset..), ..)` of `decode_zip`: the local file at the start of
   * `s`, added to the array with the bytes it consumed, or, when it does not fit, with the bytes
   * from where decoding stopped; the error names the new element's index last.
   */
  method DecodeLocalElem(a: Arr, s: Bytes, central: Common) returns (a': Arr, r: Result<(), Error>)
    ensures r.Ok? <==> LocalFits(s.data, central)
    ensures r.Ok? ==> a' == a + [LocalElem(s, central)]
    ensures r.Err? ==> |a'| == |a| + 1 && a'[..|a|] == a && a'[|a|].bytes == Drop(s, LocalStop(s.data, central))
    ensures r.Err? ==> a'[|a|].val.Obj? && |r.error.path| >= 1 && r.error.path[|r.error.path| - 1] == Index.Int(|a|)
  {
    var o, cursor, y := DecodeLocalFile(s, central);
    var consumed, z := SetConsumed(s, cursor, y);
    a', r := ArrAddMut(a, consumed, Obj(o), z);
  }

  /** One step of the local files: the first record is not on `disk`, so it is passed over. */
  lemma LocalsSkip(lf: Bytes, cds: seq<CentralDirRecord>, disk: uint16)
    requires cds != [] && cds[0].diskNrStart != disk && OffsetsOk(lf.data, cds, disk)
    ensures OffsetsOk(lf.data, cds[1..], disk)
    ensures LocalElems(lf, cds, disk) == LocalElems(lf, cds[1..], disk)
    ensures LocalsFit(lf.data, cds, disk) <==> LocalsFit(lf.data, cds[1..], disk)
    ensures !LocalsFit(lf.data, cds, disk) ==> LocalFailure(lf, cds, disk) == LocalFailure(lf, cds[1..], disk)
  {
  }

  /** One step of the local files: the first record is on `disk`. */
  lemma LocalsStep(lf: Bytes, cds: seq<CentralDirRecord>, disk: uint16)
    requires cds != [] && cds[0].diskNrStart == disk && OffsetsOk(lf.data, cds, disk)
    ensures cds[0].localFileOffset <= |lf.data|
    ensures var s := Drop(lf, cds[0].localFileOffset);
      if LocalFits(s.data, cds[0].common) then
        OffsetsOk(lf.data, cds[1..], disk)
        && LocalElems(lf, cds, disk) == [LocalElem(s, cds[0].common)] + LocalElems(lf, cds[1..], disk)
        && (LocalsFit(lf.data, cds, disk) <==> LocalsFit(lf.data, cds[1..], disk))
        && (!LocalsFit(lf.data, cds, disk) ==> LocalFailure(lf, cds, disk) == LocalFailure(lf, cds[1..], disk))
      else
        LocalElems(lf, cds, disk) == [] && !LocalsFit(lf.data, cds, disk)
        && LocalFailure(lf, cds, disk) == Drop(s, LocalStop(s.data, cds[0].common))
  {
  }

  /**
   * The closure `decode_zip` gives `root.add_mut("local_files", ..)`: for each record on the disk
   * of the end of central directory record, in order, the local file at its offset, added to the
   * array with the bytes it consumed. It succeeds exactly when all of those local files fit; the
   * first that does not ends the array, with the bytes from its start to where decoding stopped.
   */
  method DecodeLocalFiles(lf: Bytes, cds: seq<CentralDirRecord>, disk: uint16) returns (a: Arr, r: Result<(), Error>)
    requires OffsetsOk(lf.data, cds, disk)
    ensures r.Ok? <==> LocalsFit(lf.data, cds, disk)
    ensures |LocalElems(lf, cds, disk)| <= |a| && a[..|LocalElems(lf, cds, disk)|] == LocalElems(lf, cds, disk)
    ensures r.Ok? ==> a == LocalElems(lf, cds, disk)
    ensures r.Err? ==> |a| == |LocalElems(lf, cds, disk)| + 1 && a[|a| - 1].bytes == LocalFailure(lf, cds, disk)
    ensures r.Err? ==> a[|a| - 1].val.Obj? && |r.error.path| >= 1 && r.error.path[|r.error.path| - 1] == Index.Int(|a| - 1)
  {
    a := [];
    for i := 0 to |cds|
      invariant OffsetsOk(lf.data, cds[i..], disk)
      invariant LocalElems(lf, cds, disk) == a + LocalElems(lf, cds[i..], disk)
      invariant LocalsFit(lf.data, cds, disk) <==> LocalsFit(lf.data, cds[i..], disk)
      invariant !LocalsFit(lf.data, cds, disk) ==> LocalFailure(lf, cds, disk) == LocalFailure(lf, cds[i..], disk)
    {
      assert cds[i..][1..] == cds[i + 1..];
      var cdr := cds[i];
      if cdr.diskNrStart == disk {
        LocalsStep(lf, cds[i..], disk);
        // `lf_slice.slice(offset..)`; the offset's `try_into().unwrap()` cannot panic.
        var s := Drop(lf, cdr.localFileOffset);
        ghost var a0 := a;
        var y;
        a, y := DecodeLocalElem(a, s, cdr.common);
        if y.Err? {
          return a, Err(y.error);
        }
        AppendAssoc(a0, [LocalElem(s, cdr.common)], LocalElems(lf, cds[i + 1..], disk));
      } else {
        LocalsSkip(lf, cds[i..], disk);
      }
    }
    assert cds[|cds|..] == [];
    r := Ok(());
  }

  // ---------------------------------------------------------------------------------------------
  // The archive
  // ---------------------------------------------------------------------------------------------

  /** The archive from where `find_eocds` finds the end of central directory record to its end. */
  function EocdSlice(b: Bytes): Bytes
    requires FindEocds(b.data).Some?
  {
    Drop(b, FindEocds(b.data).value)
  }

  /** The end of central directory record is found and decodes. */
  predicate EocdOk(b: Bytes)
  {
    FindEocds(b.data).Some? && EocdFits(EocdSlice(b).data)
  }

  function Eocd(b: Bytes): EndOfCentralDirRecord
    requires EocdOk(b)
  {
    EocdOf(EocdSlice(b).data)
  }

  /** The central directory the end of central directory record points at lies within the archive. */
  predicate CdInRange(b: Bytes)
    requires EocdOk(b)
  {
    CdRange(Eocd(b)).1 <= |b.data|
  }

  /** `b.slice(eocd.cd_range())`. */
  function CdSlice(b: Bytes): Bytes
    requires EocdOk(b) && CdInRange(b)
  {
    Slice(b, CdRange(Eocd(b)).0, CdRange(Eocd(b)).1)
  }

  /** `b.slice(..eocd.cd_range().start)`: everything before the central directory. */
  function LfSlice(b: Bytes): Bytes
    requires EocdOk(b) && CdInRange(b)
  {
    Prefix(b, CdRange(Eocd(b)).0)
  }

  /**
   * The local file offsets decoding reaches lie within `lf`: those of the records of the central
   * directory `cd`, when it is whole.
   */
  predicate DirectoryOk(cd: Bytes, lf: Bytes, disk: uint16)
  {
    CdFits(cd.data) ==> OffsetsOk(lf.data, Cdrs(cd.data), disk)
  }

  /**
   * `decode_zip` does not panic on `b`: `find_eocds` finds a record, the central directory it
   * points at lies within the archive, and the local file offsets decoding reaches lie within
   * the part before the central directory.
   */
  predicate ZipOk(b: Bytes)
  {
    FindEocds(b.data).Some?
    && (EocdFits(EocdSlice(b).data) ==> CdInRange(b) && DirectoryOk(CdSlice(b), LfSlice(b), Eocd(b).diskNr))
  }

  /**
   * The entry `decode_zip` adds for the central directory `cd`: its bytes and the elements of its
   * whole records, then, when one does not fit, an object holding all the bytes from its start.
   */
  predicate CdEntry(f: Field, cd: Bytes)
  {
    var es := CdElems(cd);
    f.name == "central_directories" && f.bytes == cd
    && f.val.Arr? && |es| <= |f.val.arr| && f.val.arr[..|es|] == es
    && (CdFits(cd.data) ==> f.val.arr == es)
    && (!CdFits(cd.data) ==>
          |f.val.arr| == |es| + 1 && f.val.arr[|es|].bytes == CdRest(cd) && f.val.arr[|es|].val.Obj?)
  }

  /**
   * The entry `decode_zip` adds for the local files: everything before the central directory,
   * and the local files of the records on the disk of the end of central directory record, up to
   * the first that does not fit, which comes last.
   */
  predicate LocalFilesEntry(f: Field, lf: Bytes, cds: seq<CentralDirRecord>, disk: uint16)
    requires OffsetsOk(lf.data, cds, disk)
  {
    var es := LocalElems(lf, cds, disk);
    f.name == "local_files" && f.bytes == lf && f.val.Arr?
    && |es| <= |f.val.arr| && f.val.arr[..|es|] == es
    && (LocalsFit(lf.data, cds, disk) ==> f.val.arr == es)
    && (!LocalsFit(lf.data, cds, disk) ==> |f.val.arr| == |es| + 1 && f.val.arr[|es|].bytes == LocalFailure(lf, cds, disk))
  }

  /**
   * `root.add_mut("end_of_central_dir_record", eocd_slice(), ..)`: the record found by
   * `find_eocds`, decoded into a fresh object, added with all the bytes from its start.
   */
  method AddEocd(root: Obj, b: Bytes) returns (root': Obj, ghost f: Field, r: Result<EndOfCentralDirRecord, Error>)
    requires FindEocds(b.data).Some?
    ensures r.Ok? <==> EocdOk(b)
    ensures root' == root + [f]
    ensures f.name == "end_of_central_dir_record" && f.bytes == EocdSlice(b) && f.val.Obj?
    ensures r.Ok? ==> f.val == Obj(EocdEntries(EocdSlice(b))) && r.value == Eocd(b)
    ensures r.Err? ==> |r.error.path| >= 1 && r.error.path[|r.error.path| - 1] == Index.Str("end_of_central_dir_record")
  {
    var eocdSlice := Drop(b, FindEocds(b.data).value);
    var o, _, e := DecodeEocd(eocdSlice);
    root', r := ObjAddMut(root, "end_of_central_dir_record", eocdSlice, Obj(o), e);
    f := Field("end_of_central_dir_record", eocdSlice, Obj(o));
  }

  /** `root.add_mut("central_directories", cd_slice.clone(), ..)`. */
  method AddCds(root: Obj, cd: Bytes) returns (root': Obj, ghost f: Field, r: Result<seq<CentralDirRecord>, Error>)
    ensures r.Ok? <==> CdFits(cd.data)
    ensures root' == root + [f] && CdEntry(f, cd)
    ensures r.Ok? ==> f.val == Arr(CdElems(cd)) && r.value == Cdrs(cd.data)
    ensures r.Err? ==> |r.error.path| >= 1 && r.error.path[|r.error.path| - 1] == Index.Str("central_directories")
  {
    var a, y := DecodeCds(cd);
    root', r := ObjAddMut(root, "central_directories", cd, Arr(a), y);
    f := Field("central_directories", cd, Arr(a));
  }

  /** `root.add_mut("local_files", lf_slice.clone(), ..)`, whose result `decode_zip` drops. */
  method AddLocalFiles(root: Obj, lf: Bytes, cds: seq<CentralDirRecord>, disk: uint16) returns (root': Obj, ghost f: Field)
    requires OffsetsOk(lf.data, cds, disk)
    ensures root' == root + [f] && LocalFilesEntry(f, lf, cds, disk)
  {
    var a, y := DecodeLocalFiles(lf, cds, disk);
    root', y := ObjAddMut(root, "local_files", lf, Arr(a), y);
    f := Field("local_files", lf, Arr(a));
  }

  /** The error names `name` last. */
  predicate ErrorAt(e: Error, name: string)
  {
    |e.path| >= 1 && e.path[|e.path| - 1] == Index.Str(name)
  }

  /**
   * What the rest of `decode_zip` does to `root` once the end of central directory record has
   * decoded, giving `root'` and `r`: it adds the entry of the central directory `cd` and, when
   * that is whole, the entry of the local files in `lf` of the records on `disk`; it succeeds
   * exactly when the central directory is whole, and otherwise fails naming it last.
   */
  predicate DirectoryDecoded(root: Obj, cd: Bytes, lf: Bytes, disk: uint16,
                             root': Obj, cdEntry: Field, lfEntry: Field, r: Result<(), Error>)
    requires DirectoryOk(cd, lf, disk)
  {
    (r.Ok? <==> CdFits(cd.data))
    && CdEntry(cdEntry, cd)
    && (r.Err? ==> root' == root + [cdEntry] && ErrorAt(r.error, "central_directories"))
    && (r.Ok? ==>
          root' == root + [cdEntry] + [lfEntry] && cdEntry.val == Arr(CdElems(cd))
          && LocalFilesEntry(lfEntry, lf, Cdrs(cd.data), disk))
  }

  /**
   * The rest of `decode_zip` once the end of central directory record has decoded: the
   * central directory `cd`, then the local files in `lf` of the records on `disk`.
   */
  method DecodeDirectory(root: Obj, cd: Bytes, lf: Bytes, disk: uint16)
    returns (root': Obj, ghost cdEntry: Field, ghost lfEntry: Field, r: Result<(), Error>)
    requires DirectoryOk(cd, lf, disk)
    ensures DirectoryDecoded(root, cd, lf, disk, root', cdEntry, lfEntry, r)
  {
    var cds;
    root', cdEntry, cds := AddCds(root, cd);
    if cds.Err? {
      return root', cdEntry, cdEntry, Err(cds.error);
    }
    root', lfEntry := AddLocalFiles(root', lf, cds.value, disk);
    r := Ok(());
  }

  /** The entry `decode_zip` adds for the end of central directory record found in `b`. */
  predicate EocdEntry(f: Field, b: Bytes)
    requires FindEocds(b.data).Some?
  {
    f.name == "end_of_central_dir_record" && f.bytes == EocdSlice(b) && f.val.Obj?
    && (EocdOk(b) ==> f.val == Obj(EocdEntries(EocdSlice(b))))
  }

  /**
   * What `decode_zip` does to `root`, giving `root'` and `r`: it adds the entry of the end of
   * central directory record; when that does not decode, it fails naming it last, and
   * otherwise it goes on with the central directory and the local files it cuts out of `b`.
   */
  predicate ZipDecoded(root: Obj, b: Bytes, root': Obj, eocdEntry: Field, cdEntry: Field, lfEntry: Field, r: Result<(), Error>)
    requires ZipOk(b)
  {
    EocdEntry(eocdEntry, b)
    && (!EocdOk(b) ==> root' == root + [eocdEntry] && r.Err? && ErrorAt(r.error, "end_of_central_dir_record"))
    && (EocdOk(b) ==>
          DirectoryDecoded(root + [eocdEntry], CdSlice(b), LfSlice(b), Eocd(b).diskNr, root', cdEntry, lfEntry, r))
  }

  /**
   * What `decode_zip` does once the end of central directory record has decoded: it cuts the
   * central directory and everything before it out of the archive and decodes them.
   */
  method DecodeAfterEocd(root: Obj, b: Bytes, eocd: EndOfCentralDirRecord)
    returns (root': Obj, ghost cdEntry: Field, ghost lfEntry: Field, r: Result<(), Error>)
    requires ZipOk(b) && EocdOk(b) && eocd == Eocd(b)
    ensures DirectoryDecoded(root, CdSlice(b), LfSlice(b), eocd.diskNr, root', cdEntry, lfEntry, r)
  {
    var (lo, hi) := CdRange(eocd);
    var cdSlice := Slice(b, lo, hi);
    var lfSlice := Prefix(b, lo);
    root', cdEntry, lfEntry, r := DecodeDirectory(root, cdSlice, lfSlice, eocd.diskNr);
  }

  /**
   * `decode_zip`: it adds to `root` the end of central directory record, then the central
   * directory, then the local files, and stops at the first of the first two that fails, with an
   * error that names that entry last. It succeeds exactly when the end of central directory
   * record decodes and the central directory is a whole number of whole records: a local file
   * that does not fit is recorded in the tree but does not make decoding fail.
   */
  method DecodeZip(root: Obj, b: Bytes)
    returns (root': Obj, ghost eocdEntry: Field, ghost cdEntry: Field, ghost lfEntry: Field, r: Result<(), Error>)
    requires ZipOk(b)
    ensures r.Ok? <==> EocdOk(b) && CdFits(CdSlice(b).data)
    ensures ZipDecoded(root, b, root', eocdEntry, cdEntry, lfEntry, r)
  {
    var e;
    root', eocdEntry, e := AddEocd(root, b);
    if e.Err? {
      return root', eocdEntry, eocdEntry, eocdEntry, Err(e.error);
    }
    root', cdEntry, lfEntry, r := DecodeAfterEocd(root', b, e.value);
  }
}
