/**
 * The decoding kit of `src/decode.rs`: a `Bytes` cursor consumed from the front, bounds-checked
 * slices, little-endian integer readers and a magic-bytes matcher, and the reflective value tree
 * (`Val`, `Obj`, `Arr`) whose entries carry their provenance (`Meta.bytes`) and, when decoding
 * them failed, the error.
 *
 * A `&mut` argument of the Rust code is an exclusive borrow of an owned value, so each one is
 * modelled as an input value plus an output value of a method (`b` and `b'`, `o` and `o'`).
 *
 * The combinators `add_mut`, `add_consumed`, `consumed` and `consume` take a closure `f` that
 * works on the cursor and on the entry just pushed. Dafny cannot pass a method as a value, so the
 * caller runs `f`'s body itself, on the cursor and on a fresh entry `(m, Default)`, and hands the
 * combinator the cursor before and after `f`, the entry as `f` left it and `f`'s result. As `f`
 * can reach nothing of the `Obj`/`Arr` but that entry, running it before the push is the same.
 */
module Decode {
  import opened Wrappers
  import opened Buffers

  /** One step of an error's path: a field name or an array index. */
  datatype Index = Str(name: string) | Int(i: nat)

  /** What an error message says; it stands for the text `format!` renders from it. */
  datatype Msg =
    | ExpectedBytes(n: nat)                  // "expected {n} bytes"
    | ExpectedByteSequence(s: seq<uint8>)    // "expected byte sequence {s:?}"

  /**
   * Where decoding failed, and the path from the failing value outwards: every enclosing
   * `add` appends its field name or index, so `path[0]` is the innermost step.
   */
  datatype Error = Error(position: Bytes, path: seq<Index>, msg: Msg)

  /** `Error::new`: an error with an empty path. */
  function NewError(position: Bytes, msg: Msg): Error
  {
    Error(position, [], msg)
  }

  /** `Error::with_index`: the error seen from one level further out. */
  function WithIndex(e: Error, i: Index): (r: Error)
    ensures r.position == e.position && r.msg == e.msg
    ensures |r.path| == |e.path| + 1 && r.path[..|e.path|] == e.path && r.path[|e.path|] == i
  {
    e.(path := e.path + [i])
  }

  /** `Meta` without its `format` and `description` fields. */
  datatype Meta = Meta(bytes: Bytes, error: Option<Error>)

  /** `Meta::from(bytes)`. */
  function MetaFrom(b: Bytes): Meta
  {
    Meta(b, None)
  }

  /**
   * `Val`. A `Lazy` node holds the value its closure yields when it is forced; the source wraps
   * the closure in `Rc<LazyCell>` so that it runs at most once, which a pure value cannot observe.
   */
  datatype Val =
    | Bool(b: bool)
    | U8(u8: uint8)
    | U16(u16: uint16)
    | U32(u32: uint32)
    | U64(u64: uint64)
    | Raw(gap: bool)
    | Str(s: Bytes)
    | Arr(arr: Arr)
    | Obj(obj: Obj)
    | Lazy(forced: Val)

  datatype Field = Field(name: string, meta: Meta, val: Val)

  datatype Elem = Elem(meta: Meta, val: Val)

  /** `Obj(Vec<(&str, Meta, Val)>)`: named entries in the order they were added. */
  type Obj = seq<Field>

  /** `Arr(Vec<(Meta, Val)>)`. */
  type Arr = seq<Elem>

  /** `Val::default()`. */
  const Default: Val := Raw(false)

  /** `Decoded<T>`: the metadata and value of what was decoded, and the decoder's own result. */
  type Decoded<T> = (Meta, Val, T)

  // ---------------------------------------------------------------------------------------------
  // The value tree
  // ---------------------------------------------------------------------------------------------

  /** `Val::eval`: the value with every lazy node forced, recursively. */
  function Eval(v: Val): (r: Val)
  {
    match v
    case Lazy(l) => Eval(l)
    case Arr(a) => Arr(seq(|a|, i requires 0 <= i < |a| => Elem(a[i].meta, Eval(a[i].val))))
    case Obj(o) => Obj(seq(|o|, i requires 0 <= i < |o| => Field(o[i].name, o[i].meta, Eval(o[i].val))))
    case _ => v
  }

  /** No lazy node is left anywhere in `v`. */
  predicate Forced(v: Val)
  {
    match v
    case Lazy(_) => false
    case Arr(a) => forall i :: 0 <= i < |a| ==> Forced(a[i].val)
    case Obj(o) => forall i :: 0 <= i < |o| ==> Forced(o[i].val)
    case _ => true
  }

  /** After `eval` no lazy node remains. */
  lemma {:induction false} EvalForces(v: Val)
    ensures Forced(Eval(v))
  {
    match v
    case Lazy(l) => EvalForces(l);
    case Arr(a) =>
      forall i | 0 <= i < |a| ensures Forced(Eval(v).arr[i].val) {
        EvalForces(a[i].val);
      }
    case Obj(o) =>
      forall i | 0 <= i < |o| ensures Forced(Eval(v).obj[i].val) {
        EvalForces(o[i].val);
      }
    case _ =>
  }

  /** `eval` changes nothing in a value without lazy nodes. */
  lemma {:induction false} EvalFixesForced(v: Val)
    requires Forced(v)
    ensures Eval(v) == v
  {
    match v
    case Arr(a) =>
      forall i | 0 <= i < |a| ensures Eval(a[i].val) == a[i].val {
        EvalFixesForced(a[i].val);
      }
      assert Eval(v).arr == a;
    case Obj(o) =>
      forall i | 0 <= i < |o| ensures Eval(o[i].val) == o[i].val {
        EvalFixesForced(o[i].val);
      }
      assert Eval(v).obj == o;
    case _ =>
  }

  /** Evaluating twice is evaluating once. */
  lemma EvalIdempotent(v: Val)
    ensures Eval(Eval(v)) == Eval(v)
  {
    EvalForces(v);
    EvalFixesForced(Eval(v));
  }

  /**
   * `eval` keeps the shape of the tree: an array or object keeps its length, and every entry
   * its name and metadata (and so its provenance and error); leaves other than lazy nodes stay.
   */
  lemma EvalKeepsShape(v: Val)
    ensures v.Arr? ==> (Eval(v).Arr? && |Eval(v).arr| == |v.arr| &&
      forall i :: 0 <= i < |v.arr| ==> Eval(v).arr[i].meta == v.arr[i].meta)
    ensures v.Obj? ==> (Eval(v).Obj? && |Eval(v).obj| == |v.obj| &&
      forall i :: 0 <= i < |v.obj| ==>
        Eval(v).obj[i].name == v.obj[i].name && Eval(v).obj[i].meta == v.obj[i].meta)
    ensures !v.Arr? && !v.Obj? && !v.Lazy? ==> Eval(v) == v
  {
  }

  /** `Val::make_arr`: overwrite the value with an empty array (which the caller then fills). */
  method MakeArr(v: Val) returns (v': Val)
    ensures v'.Arr? && v'.arr == []
  {
    v' := Arr([]);
  }

  /** `Val::make_obj`: overwrite the value with an empty object (which the caller then fills). */
  method MakeObj(v: Val) returns (v': Val)
    ensures v'.Obj? && v'.obj == []
  {
    v' := Obj([]);
  }

  // ---------------------------------------------------------------------------------------------
  // The cursor
  // ---------------------------------------------------------------------------------------------

  /**
   * `try_split_off(b, at)`: on success `b` keeps its first `at` bytes and the rest is returned;
   * when `b` is shorter, it fails with "expected `at` bytes" and `b` is unchanged.
   */
  method TrySplitOff(b: Bytes, at: nat) returns (b': Bytes, r: Result<Bytes, Error>)
    ensures at > |b.data| ==> b' == b && r == Err(NewError(b, ExpectedBytes(at)))
    ensures at <= |b.data| ==> r.Ok? && |b'.data| == at && Adjacent(b', r.value) && Concat(b', r.value) == b
  {
    if at > |b.data| {
      b', r := b, Err(NewError(b, ExpectedBytes(at)));
    } else {
      PrefixDropJoin(b, at);
      b', r := Prefix(b, at), Ok(Drop(b, at));
    }
  }

  /**
   * `take(b, n)`: the first `n` bytes, with `b` advanced past them, so that the bytes returned
   * followed by the new `b` are the old `b`; when fewer than `n` remain, it fails with
   * "expected `n` bytes" and leaves `b` as it was.
   */
  method Take(b: Bytes, n: nat) returns (b': Bytes, r: Result<Bytes, Error>)
    ensures n > |b.data| ==> b' == b && r == Err(NewError(b, ExpectedBytes(n)))
    ensures n <= |b.data| ==> r == Ok(Prefix(b, n)) && b' == Drop(b, n)
    ensures n <= |b.data| ==> Adjacent(r.value, b') && Concat(r.value, b') == b
  {
    var right;
    b', right := TrySplitOff(b, n);
    if right.Err? {
      return b', Err(right.error);
    }
    assert b'.data == b.data[..n] by {
      assert b'.data + right.value.data == b.data;
    }
    r := Ok(b');
    b' := right.value;
    assert right.value.data == b.data[n..] by {
      assert r.value.data + right.value.data == b.data;
    }
    PrefixDropJoin(b, n);
  }

  /** A bound of a `RangeBounds<usize>`. */
  datatype Bound = Included(n: usize) | Excluded(n: usize) | Unbounded

  /**
   * `to_range(bounds, len)`: the half-open range `begin..end` the bounds denote in a sequence of
   * length `len`, or `Err(n)` for the first bound `n` whose `+ 1` overflows, or `Err(max)` when
   * the larger end of the range lies beyond `len`.
   */
  function ToRange(start: Bound, end: Bound, len: usize): (r: Result<(nat, nat), nat>)
    ensures start.Excluded? && start.n == USIZE_MAX ==> r == Err(USIZE_MAX)
    ensures !(start.Excluded? && start.n == USIZE_MAX) && end.Included? && end.n == USIZE_MAX ==>
      r == Err(USIZE_MAX)
    ensures r.Ok? ==> r.value.0 <= len && r.value.1 <= len
    ensures r.Ok? ==> match start
      case Included(n) => r.value.0 == n
      case Excluded(n) => r.value.0 == n + 1
      case Unbounded => r.value.0 == 0
    ensures r.Ok? ==> match end
      case Included(n) => r.value.1 == n + 1
      case Excluded(n) => r.value.1 == n
      case Unbounded => r.value.1 == len
    ensures r.Err? && !(start.Excluded? && start.n == USIZE_MAX) && !(end.Included? && end.n == USIZE_MAX) ==>
      r.error > len &&
      r.error == Max(match start case Included(n) => n case Excluded(n) => n + 1 case Unbounded => 0,
                     match end case Included(n) => n + 1 case Excluded(n) => n case Unbounded => len)
  {
    var begin: Result<nat, nat> :=
      match start
      case Included(n) => Ok(n)
      case Excluded(n) => if n == USIZE_MAX then Err(n) else Ok(n + 1)
      case Unbounded => Ok(0);
    if begin.Err? then Err(begin.error)
    else
      var end: Result<nat, nat> :=
        match end
        case Included(n) => if n == USIZE_MAX then Err(n) else Ok(n + 1)
        case Excluded(n) => Ok(n)
        case Unbounded => Ok(len);
      if end.Err? then Err(end.error)
      else
        var max := Max(begin.value, end.value);
        if max > len then Err(max) else Ok((begin.value, end.value))
  }

  function Max(a: nat, b: nat): nat
  {
    if a < b then b else a
  }

  /**
   * `try_slice(b, range)`: the sub-slice the range denotes, failing with "expected `n` bytes"
   * exactly when `to_range` fails with `n`. A range whose start lies after its end makes
   * `Bytes::slice` panic, so callers must not pass one.
   */
  function TrySlice(b: Bytes, start: Bound, end: Bound): (r: Result<Bytes, Error>)
    requires |b.data| <= USIZE_MAX
    requires ToRange(start, end, |b.data|).Ok? ==>
      ToRange(start, end, |b.data|).value.0 <= ToRange(start, end, |b.data|).value.1
    ensures r.Err? <==> ToRange(start, end, |b.data|).Err?
    ensures r.Err? ==> r.error == NewError(b, ExpectedBytes(ToRange(start, end, |b.data|).error))
    ensures r.Ok? ==> var (lo, hi) := ToRange(start, end, |b.data|).value;
      r.value.pos == b.pos + lo && r.value.data == b.data[lo..hi]
  {
    match ToRange(start, end, |b.data|)
    case Err(n) => Err(NewError(b, ExpectedBytes(n)))
    case Ok((lo, hi)) => Ok(Slice(b, lo, hi))
  }

  /**
   * `consumed(b, f)`: what `f` consumed of the cursor, with `f`'s result. `start` is the cursor
   * before `f` ran, `b` the cursor after, `y` what `f` returned. An error of `f` is passed on.
   * `start.truncate(start.len() - b.len())` underflows unless `f` left `b` no longer than it was.
   */
  function Consumed<T>(start: Bytes, b: Bytes, y: Result<T, Error>): (r: Result<(Bytes, T), Error>)
    requires y.Ok? ==> |b.data| <= |start.data|
    ensures y.Err? ==> r == Err(y.error)
    ensures y.Ok? ==> (r.Ok? && r.value.1 == y.value && r.value.0.pos == start.pos &&
      r.value.0.data == start.data[..|start.data| - |b.data|])
    ensures y.Ok? && SuffixOf(b, start) ==> Adjacent(r.value.0, b) && Concat(r.value.0, b) == start
  {
    match y
    case Err(e) => Err(e)
    case Ok(v) =>
      var c := Prefix(start, |start.data| - |b.data|);
      assert SuffixOf(b, start) ==> c.data + b.data == start.data by {
        if SuffixOf(b, start) {
          PrefixDropJoin(start, |start.data| - |b.data|);
        }
      }
      Ok((c, v))
  }

  /**
   * `consume(b, to, f)`: run `f` on the cursor and, if it succeeds, record in `to.bytes` exactly
   * the prefix it advanced past; if it fails, `to` is untouched.
   */
  method Consume<T>(to: Meta, start: Bytes, b: Bytes, y: Result<T, Error>) returns (to': Meta, r: Result<T, Error>)
    requires y.Ok? ==> |b.data| <= |start.data|
    ensures y.Err? ==> to' == to && r == y
    ensures y.Ok? ==> r == y && to'.error == to.error && to'.bytes == Prefix(start, |start.data| - |b.data|)
    ensures y.Ok? && SuffixOf(b, start) ==> Adjacent(to'.bytes, b) && Concat(to'.bytes, b) == start
  {
    var c := Consumed(start, b, y);
    if c.Err? {
      return to, Err(c.error);
    }
    to' := to.(bytes := c.value.0);
    r := Ok(c.value.1);
  }

  // ---------------------------------------------------------------------------------------------
  // Primitive decoders
  // ---------------------------------------------------------------------------------------------

  /** `le::u8`: one byte. */
  method LeU8(b: Bytes) returns (b': Bytes, r: Result<Decoded<uint8>, Error>)
    ensures |b.data| < 1 ==> b' == b && r == Err(NewError(b, ExpectedBytes(1)))
    ensures |b.data| >= 1 ==> (b' == Drop(b, 1) && r.Ok? &&
      r.value.0 == MetaFrom(Prefix(b, 1)) && r.value.2 == LittleEndian(b.data[..1]) && r.value.1 == U8(r.value.2))
  {
    var t;
    b', t := Take(b, 1);
    if t.Err? {
      return b', Err(t.error);
    }
    LittleEndianBound(t.value.data);
    var u: uint8 := LittleEndian(t.value.data);
    r := Ok((MetaFrom(t.value), U8(u), u));
  }

  /** `le::u16`: two bytes, least significant first. */
  method LeU16(b: Bytes) returns (b': Bytes, r: Result<Decoded<uint16>, Error>)
    ensures |b.data| < 2 ==> b' == b && r == Err(NewError(b, ExpectedBytes(2)))
    ensures |b.data| >= 2 ==> (b' == Drop(b, 2) && r.Ok? &&
      r.value.0 == MetaFrom(Prefix(b, 2)) && r.value.2 == LittleEndian(b.data[..2]) && r.value.1 == U16(r.value.2))
  {
    var t;
    b', t := Take(b, 2);
    if t.Err? {
      return b', Err(t.error);
    }
    LittleEndianBound(t.value.data);
    var u: uint16 := LittleEndian(t.value.data);
    r := Ok((MetaFrom(t.value), U16(u), u));
  }

  /** `le::u32`: four bytes, least significant first. */
  method LeU32(b: Bytes) returns (b': Bytes, r: Result<Decoded<uint32>, Error>)
    ensures |b.data| < 4 ==> b' == b && r == Err(NewError(b, ExpectedBytes(4)))
    ensures |b.data| >= 4 ==> (b' == Drop(b, 4) && r.Ok? &&
      r.value.0 == MetaFrom(Prefix(b, 4)) && r.value.2 == LittleEndian(b.data[..4]) && r.value.1 == U32(r.value.2))
  {
    var t;
    b', t := Take(b, 4);
    if t.Err? {
      return b', Err(t.error);
    }
    LittleEndianBound(t.value.data);
    var u: uint32 := LittleEndian(t.value.data);
    r := Ok((MetaFrom(t.value), U32(u), u));
  }

  /** `le::u64`: eight bytes, least significant first. */
  method LeU64(b: Bytes) returns (b': Bytes, r: Result<Decoded<uint64>, Error>)
    ensures |b.data| < 8 ==> b' == b && r == Err(NewError(b, ExpectedBytes(8)))
    ensures |b.data| >= 8 ==> (b' == Drop(b, 8) && r.Ok? &&
      r.value.0 == MetaFrom(Prefix(b, 8)) && r.value.2 == LittleEndian(b.data[..8]) && r.value.1 == U64(r.value.2))
  {
    var t;
    b', t := Take(b, 8);
    if t.Err? {
      return b', Err(t.error);
    }
    LittleEndianBound(t.value.data);
    var u: uint64 := LittleEndian(t.value.data);
    r := Ok((MetaFrom(t.value), U64(u), u));
  }

  /** `raw(b, n)`: `n` uninterpreted bytes. */
  method ReadRaw(b: Bytes, n: nat) returns (b': Bytes, r: Result<Decoded<Bytes>, Error>)
    ensures n > |b.data| ==> b' == b && r == Err(NewError(b, ExpectedBytes(n)))
    ensures n <= |b.data| ==> b' == Drop(b, n) && r == Ok((MetaFrom(Prefix(b, n)), Default, Prefix(b, n)))
  {
    var t;
    b', t := Take(b, n);
    if t.Err? {
      return b', Err(t.error);
    }
    r := Ok((MetaFrom(t.value), Default, t.value));
  }

  /**
   * `precise(b, s, force)`: consume `|s|` bytes and succeed when they are `s` or when `force` is
   * set. Running short and a mismatch both fail with "expected byte sequence `s`"; a mismatch
   * still consumes the bytes and reports them as its position.
   */
  method Precise(b: Bytes, s: seq<uint8>, force: bool) returns (b': Bytes, r: Result<Decoded<()>, Error>)
    ensures |s| > |b.data| ==> b' == b && r == Err(NewError(b, ExpectedByteSequence(s)))
    ensures |s| <= |b.data| ==> b' == Drop(b, |s|) && (r.Ok? <==> b.data[..|s|] == s || force)
    ensures |s| <= |b.data| && r.Ok? ==> r.value == (MetaFrom(Prefix(b, |s|)), Default, ())
    ensures |s| <= |b.data| && r.Err? ==> r.error == NewError(Prefix(b, |s|), ExpectedByteSequence(s))
  {
    var t;
    b', t := Take(b, |s|);
    if t.Err? {
      return b', Err(t.error.(msg := ExpectedByteSequence(s)));
    }
    if t.value.data == s || force {
      r := Ok((MetaFrom(t.value), Default, ()));
    } else {
      r := Err(NewError(t.value, ExpectedByteSequence(s)));
    }
  }

  // ---------------------------------------------------------------------------------------------
  // Building objects and arrays
  // ---------------------------------------------------------------------------------------------

  /**
   * `Obj::add(field, r)`: on success append exactly one entry `(field, meta, val)` at the end
   * and pass on the decoder's own result; on failure leave the object as it was and extend the
   * error's path with the field name.
   */
  method ObjAdd<T>(o: Obj, field: string, d: Result<Decoded<T>, Error>) returns (o': Obj, r: Result<T, Error>)
    ensures d.Ok? ==> o' == o + [Field(field, d.value.0, d.value.1)] && r == Ok(d.value.2)
    ensures d.Err? ==> o' == o && r == Err(WithIndex(d.error, Index.Str(field)))
  {
    if d.Err? {
      return o, Err(WithIndex(d.error, Index.Str(field)));
    }
    var (m, v, y) := d.value;
    o' := o + [Field(field, m, v)];
    r := Ok(y);
  }

  /**
   * `Obj::add_mut(field, m, f)`. The entry `(field, m, Default)` is pushed and `f` works on it;
   * `fm`, `fv` are the entry as `f` left it and `y` is what `f` returned. Whatever happens, the
   * object gains that one entry at its end and keeps its earlier ones; if `f` failed, the entry
   * stays, its `meta.error` holds the error, and the error returned has the field name appended
   * to its path.
   */
  method ObjAddMut<T>(o: Obj, field: string, fm: Meta, fv: Val, y: Result<T, Error>) returns (o': Obj, r: Result<T, Error>)
    ensures y.Ok? ==> o' == o + [Field(field, fm, fv)] && r == y
    ensures y.Err? ==>
      o' == o + [Field(field, fm.(error := Some(y.error)), fv)] && r == Err(WithIndex(y.error, Index.Str(field)))
  {
    if y.Err? {
      o' := o + [Field(field, fm.(error := Some(y.error)), fv)];
      r := Err(WithIndex(y.error, Index.Str(field)));
    } else {
      o' := o + [Field(field, fm, fv)];
      r := y;
    }
  }

  /**
   * `Obj::add_consumed(field, b, f)`: `add_mut` with `Meta::from(b)`, running `f` under
   * `consume`. `start` is the cursor when the entry was pushed, `b` after `f`, `fv` the value
   * `f` built (from `Default`) and `y` its result. On success the entry's bytes are exactly the
   * prefix `f` consumed; on failure they are the whole cursor `f` started from, with the error.
   */
  method ObjAddConsumed<T>(o: Obj, field: string, start: Bytes, b: Bytes, fv: Val, y: Result<T, Error>)
    returns (o': Obj, r: Result<T, Error>)
    requires y.Ok? ==> |b.data| <= |start.data|
    ensures y.Ok? ==> o' == o + [Field(field, MetaFrom(Prefix(start, |start.data| - |b.data|)), fv)] && r == y
    ensures y.Err? ==>
      o' == o + [Field(field, Meta(start, Some(y.error)), fv)] && r == Err(WithIndex(y.error, Index.Str(field)))
  {
    var m, z := Consume(MetaFrom(start), start, b, y);
    o', r := ObjAddMut(o, field, m, fv, z);
  }

  /**
   * `Arr::add_mut(m, f)`: like `Obj::add_mut`; an error's path gains the index of the new
   * element, which is the array's length before the push.
   */
  method ArrAddMut<T>(a: Arr, fm: Meta, fv: Val, y: Result<T, Error>) returns (a': Arr, r: Result<T, Error>)
    ensures y.Ok? ==> a' == a + [Elem(fm, fv)] && r == y
    ensures y.Err? ==> a' == a + [Elem(fm.(error := Some(y.error)), fv)] && r == Err(WithIndex(y.error, Index.Int(|a|)))
  {
    var i := |a|;
    if y.Err? {
      a' := a + [Elem(fm.(error := Some(y.error)), fv)];
      r := Err(WithIndex(y.error, Index.Int(i)));
    } else {
      a' := a + [Elem(fm, fv)];
      r := y;
    }
  }

  /** `Arr::add_consumed(b, f)`: `Arr::add_mut` with `Meta::from(b)`, running `f` under `consume`. */
  method ArrAddConsumed<T>(a: Arr, start: Bytes, b: Bytes, fv: Val, y: Result<T, Error>) returns (a': Arr, r: Result<T, Error>)
    requires y.Ok? ==> |b.data| <= |start.data|
    ensures y.Ok? ==> a' == a + [Elem(MetaFrom(Prefix(start, |start.data| - |b.data|)), fv)] && r == y
    ensures y.Err? ==> a' == a + [Elem(Meta(start, Some(y.error)), fv)] && r == Err(WithIndex(y.error, Index.Int(|a|)))
  {
    var m, z := Consume(MetaFrom(start), start, b, y);
    a', r := ArrAddMut(a, m, fv, z);
  }

  // ---------------------------------------------------------------------------------------------
  // Provenance of arrays
  // ---------------------------------------------------------------------------------------------

  /** The elements' bytes follow each other without gap or overlap and together make up `whole`. */
  predicate Tiled(es: Arr, whole: Bytes)
    decreases |es|
  {
    if es == [] then whole.data == []
    else
      var s := es[0].meta.bytes;
      s.pos == whole.pos && |s.data| <= |whole.data| && s.data == whole.data[..|s.data|] &&
      Tiled(es[1..], Drop(whole, |s.data|))
  }

  /** An element covering the start of `whole`, before elements tiling the rest of it, tiles `whole`. */
  lemma TiledCons(e: Elem, es: Arr, whole: Bytes)
    requires |e.meta.bytes.data| <= |whole.data| && e.meta.bytes == Prefix(whole, |e.meta.bytes.data|)
    requires Tiled(es, Drop(whole, |e.meta.bytes.data|))
    ensures Tiled([e] + es, whole)
  {
    assert ([e] + es)[0] == e && ([e] + es)[1..] == es;
  }

  /** Appending an element whose bytes come right after a tiled region extends the region by them. */
  lemma {:induction false} TiledSnoc(es: Arr, whole: Bytes, e: Elem)
    requires Tiled(es, whole) && Adjacent(whole, e.meta.bytes)
    ensures Tiled(es + [e], Concat(whole, e.meta.bytes))
  {
    var next := Concat(whole, e.meta.bytes);
    if es == [] {
      assert (es + [e])[0] == e && (es + [e])[1..] == [];
      assert next.data[..|e.meta.bytes.data|] == e.meta.bytes.data;
    } else {
      var s := es[0].meta.bytes;
      var rest := Drop(whole, |s.data|);
      TiledSnoc(es[1..], rest, e);
      assert (es + [e])[1..] == es[1..] + [e];
      assert Concat(rest, e.meta.bytes) == Drop(next, |s.data|);
      assert next.data[..|s.data|] == s.data;
    }
  }
}
