/**
 * The pieces of Rust's `core` text handling that the tar decoders rely on, over bytes:
 * the first NUL (`iter().position(|c| *c == b'\0')`), `str::trim_matches(' ')`,
 * `u8/u32/u64::from_str_radix(_, 8)` and the UTF-8 check of `core::str::from_utf8`.
 */
module Text {
  import opened Buffers

  const NUL: uint8 := 0x00
  const SPACE: uint8 := 0x20
  const PLUS: uint8 := 0x2B

  /** Where the first NUL of `s` is, or `|s|` when there is none (`NulIndexSpec`). */
  function NulIndex(s: seq<uint8>): (i: nat)
    ensures i <= |s|
  {
    if s == [] then 0
    else if s[0] == NUL then 0
    else 1 + NulIndex(s[1..])
  }

  lemma {:induction false} NulIndexSpec(s: seq<uint8>)
    ensures forall j :: 0 <= j < NulIndex(s) ==> s[j] != NUL
    ensures NulIndex(s) < |s| ==> s[NulIndex(s)] == NUL
  {
    if s != [] && s[0] != NUL {
      NulIndexSpec(s[1..]);
      forall j | 0 < j < NulIndex(s) ensures s[j] != NUL {
        assert s[1..][j - 1] == s[j];
      }
    }
  }

  /** The longest prefix of `s` without a NUL (`BeforeNulSpec`). */
  function BeforeNul(s: seq<uint8>): (r: seq<uint8>)
    ensures |r| <= |s|
  {
    s[..NulIndex(s)]
  }

  /**
   * `BeforeNul(s)` is a prefix of `s` without a NUL, and it is the longest: either it is all of
   * `s` or a NUL follows it.
   */
  lemma BeforeNulSpec(s: seq<uint8>)
    ensures BeforeNul(s) == s[..|BeforeNul(s)|]
    ensures forall j :: 0 <= j < |BeforeNul(s)| ==> BeforeNul(s)[j] != NUL
    ensures |BeforeNul(s)| < |s| ==> s[|BeforeNul(s)|] == NUL
    ensures (forall j :: 0 <= j < |s| ==> s[j] != NUL) ==> BeforeNul(s) == s
  {
    NulIndexSpec(s);
  }

  predicate AllSpaces(s: seq<uint8>)
  {
    forall i :: 0 <= i < |s| ==> s[i] == SPACE
  }

  /** How many spaces `s` starts with (`LeadingSpacesSpec`). */
  function LeadingSpaces(s: seq<uint8>): (n: nat)
    ensures n <= |s|
  {
    if s != [] && s[0] == SPACE then 1 + LeadingSpaces(s[1..]) else 0
  }

  lemma {:induction false} LeadingSpacesSpec(s: seq<uint8>)
    ensures AllSpaces(s[..LeadingSpaces(s)])
    ensures LeadingSpaces(s) < |s| ==> s[LeadingSpaces(s)] != SPACE
  {
    if s != [] && s[0] == SPACE {
      LeadingSpacesSpec(s[1..]);
      var n := LeadingSpaces(s);
      forall i | 0 < i < n ensures s[i] == SPACE {
        assert s[1..][..n - 1][i - 1] == s[i];
      }
      if n < |s| {
        assert s[1..][n - 1] == s[n];
      }
    }
  }

  /** How many spaces `s` ends with (`TrailingSpacesSpec`). */
  function TrailingSpaces(s: seq<uint8>): (n: nat)
    ensures n <= |s|
  {
    if s != [] && s[|s| - 1] == SPACE then 1 + TrailingSpaces(s[..|s| - 1]) else 0
  }

  lemma {:induction false} TrailingSpacesSpec(s: seq<uint8>)
    ensures AllSpaces(s[|s| - TrailingSpaces(s)..])
    ensures TrailingSpaces(s) < |s| ==> s[|s| - TrailingSpaces(s) - 1] != SPACE
  {
    if s != [] && s[|s| - 1] == SPACE {
      var init := s[..|s| - 1];
      TrailingSpacesSpec(init);
      var n := TrailingSpaces(s);
      forall i | |s| - n <= i < |s| ensures s[i] == SPACE {
        if i < |s| - 1 {
          assert init[|init| - (n - 1)..][i - (|s| - n)] == s[i];
        }
      }
      if n < |s| {
        assert init[|init| - (n - 1) - 1] == s[|s| - n - 1];
      }
    }
  }

  /** The bounds `trim_matches(' ')` keeps (`TrimBoundsSpec`). */
  function TrimBounds(s: seq<uint8>): (r: (nat, nat))
    ensures r.0 <= r.1 <= |s|
  {
    var lo := LeadingSpaces(s);
    if lo == |s| then (lo, lo)
    else
      var t := TrailingSpaces(s);
      LeadingSpacesSpec(s);
      TrailingSpacesSpec(s);
      assert s[lo] != SPACE;
      assert |s| - t > lo;
      (lo, |s| - t)
  }

  /**
   * Everything before the lower bound and from the upper bound on is a space, and what is kept
   * neither starts nor ends with one.
   */
  lemma TrimBoundsSpec(s: seq<uint8>)
    ensures AllSpaces(s[..TrimBounds(s).0]) && AllSpaces(s[TrimBounds(s).1..])
    ensures TrimBounds(s).0 < TrimBounds(s).1 ==> s[TrimBounds(s).0] != SPACE && s[TrimBounds(s).1 - 1] != SPACE
  {
    LeadingSpacesSpec(s);
    TrailingSpacesSpec(s);
  }

  /** `s.trim_matches(' ')`: `s` without its leading and trailing spaces. */
  function TrimSpaces(s: seq<uint8>): (r: seq<uint8>)
  {
    s[TrimBounds(s).0..TrimBounds(s).1]
  }

  /** Trimming removes spaces at both ends and nothing else. */
  lemma TrimSpacesRemovesOnlySpaces(s: seq<uint8>)
    ensures var (lo, hi) := TrimBounds(s);
      s == s[..lo] + TrimSpaces(s) + s[hi..] && AllSpaces(s[..lo]) && AllSpaces(s[hi..])
    ensures TrimSpaces(s) != [] ==>
      TrimSpaces(s)[0] != SPACE && TrimSpaces(s)[|TrimSpaces(s)| - 1] != SPACE
  {
    TrimBoundsSpec(s);
    var (lo, hi) := TrimBounds(s);
    assert s == s[..lo] + s[lo..hi] + s[hi..];
  }

  predicate IsOctDigit(c: uint8)
  {
    0x30 <= c <= 0x37
  }

  /** Every byte of `d` is an octal digit, checked from the back as `OctalValue` reads them. */
  predicate AllOctDigits(d: seq<uint8>)
  {
    d == [] || (AllOctDigits(d[..|d| - 1]) && IsOctDigit(d[|d| - 1]))
  }

  lemma {:induction false} AllOctDigitsSpec(d: seq<uint8>)
    ensures AllOctDigits(d) <==> forall i :: 0 <= i < |d| ==> IsOctDigit(d[i])
  {
    if d != [] {
      var init := d[..|d| - 1];
      AllOctDigitsSpec(init);
      assert forall i :: 0 <= i < |init| ==> init[i] == d[i];
    }
  }

  /** The digits `from_str_radix` reads for an unsigned type: a leading `+` is skipped. */
  function OctDigits(s: seq<uint8>): seq<uint8>
  {
    if s != [] && s[0] == PLUS then s[1..] else s
  }

  /**
   * `from_str_radix(s, 8)` succeeds for an unsigned type: `s` is not empty, is not a lone
   * sign, and after an optional `+` holds only the digits 0 to 7.
   */
  predicate ParsesOctal(s: seq<uint8>)
  {
    s != [] && OctDigits(s) != [] && AllOctDigits(OctDigits(s))
  }

  /** The number the octal digits `d` write. */
  function OctalValue(d: seq<uint8>): nat
    requires AllOctDigits(d)
  {
    if d == [] then 0 else 8 * OctalValue(d[..|d| - 1]) + (d[|d| - 1] - 0x30)
  }

  /** One more than the largest `u8`, `u16`, `u32` or `u64`, for `bits` 8, 16, 32 or 64. */
  function UintBound(bits: nat): (r: nat)
    ensures r > 0
  {
    if bits == 8 then 0x100
    else if bits == 16 then 0x1_0000
    else if bits == 32 then 0x1_0000_0000
    else 0x1_0000_0000_0000_0000
  }

  function Pow8(n: nat): (r: nat)
    ensures r > 0
  {
    if n == 0 then 1 else 8 * Pow8(n - 1)
  }

  /** `n` octal digits write a number below 8^n. */
  lemma {:induction false} OctalValueBound(d: seq<uint8>)
    requires AllOctDigits(d)
    ensures OctalValue(d) < Pow8(|d|)
  {
    if d != [] {
      var init := d[..|d| - 1];
      OctalValueBound(init);
      var v := OctalValue(init);
      assert v + 1 <= Pow8(|d| - 1);
      assert 8 * (v + 1) <= 8 * Pow8(|d| - 1);
    }
  }

  /**
   * The text of an octal header field parses as a `bits`-bit unsigned number: what precedes the
   * first NUL, with spaces trimmed, passes `from_str_radix(_, 8)` without overflow.
   */
  predicate OctalFieldOk(f: seq<uint8>, bits: nat)
  {
    var t := TrimSpaces(BeforeNul(f));
    ParsesOctal(t) && OctalValue(OctDigits(t)) < UintBound(bits)
  }

  /** The value of an octal header field that parses. */
  function OctalField(f: seq<uint8>, bits: nat): (n: nat)
    requires OctalFieldOk(f, bits)
    ensures n < UintBound(bits)
  {
    OctalValue(OctDigits(TrimSpaces(BeforeNul(f))))
  }

  /**
   * Well-formed UTF-8 as `core::str::from_utf8` accepts it: the byte sequences of
   * table 3-7 of the Unicode Standard (no overlong forms, no surrogates, nothing above U+10FFFF).
   */
  predicate IsUtf8(s: seq<uint8>)
    decreases |s|
  {
    if s == [] then true
    else if s[0] < 0x80 then IsUtf8(s[1..])
    else if 0xC2 <= s[0] <= 0xDF then
      |s| >= 2 && IsCont(s[1]) && IsUtf8(s[2..])
    else if 0xE0 <= s[0] <= 0xEF then
      |s| >= 3 && SecondOk(s[0], s[1]) && IsCont(s[2]) && IsUtf8(s[3..])
    else if 0xF0 <= s[0] <= 0xF4 then
      |s| >= 4 && SecondOk(s[0], s[1]) && IsCont(s[2]) && IsCont(s[3]) && IsUtf8(s[4..])
    else false
  }

  predicate IsCont(c: uint8)
  {
    0x80 <= c <= 0xBF
  }

  /** The range table 3-7 allows for the second byte, given the lead byte of a 3- or 4-byte form. */
  predicate SecondOk(lead: uint8, c: uint8)
  {
    if lead == 0xE0 then 0xA0 <= c <= 0xBF
    else if lead == 0xED then 0x80 <= c <= 0x9F
    else if lead == 0xF0 then 0x90 <= c <= 0xBF
    else if lead == 0xF4 then 0x80 <= c <= 0x8F
    else IsCont(c)
  }

  predicate IsAscii(s: seq<uint8>)
  {
    forall i :: 0 <= i < |s| ==> s[i] < 0x80
  }

  lemma {:induction false} AsciiIsUtf8(s: seq<uint8>)
    requires IsAscii(s)
    ensures IsUtf8(s)
  {
    if s != [] {
      assert IsAscii(s[1..]) by {
        forall i | 0 <= i < |s[1..]| ensures s[1..][i] < 0x80 {
          assert s[1..][i] == s[i + 1];
        }
      }
      AsciiIsUtf8(s[1..]);
    }
  }

  /**
   * An octal field that parses is ASCII before its NUL, so the `from_utf8(..).unwrap()` that
   * precedes the parse cannot panic.
   */
  lemma OctalFieldIsUtf8(f: seq<uint8>, bits: nat)
    requires OctalFieldOk(f, bits)
    ensures IsUtf8(BeforeNul(f))
  {
    var s := BeforeNul(f);
    TrimBoundsSpec(s);
    var (lo, hi) := TrimBounds(s);
    var t := TrimSpaces(s);
    assert t == s[lo..hi];
    AllOctDigitsSpec(OctDigits(t));
    assert IsAscii(s) by {
      forall i | 0 <= i < |s| ensures s[i] < 0x80 {
        if i < lo {
          assert s[..lo][i] == s[i];
        } else if i >= hi {
          assert s[hi..][i - hi] == s[i];
        } else {
          assert t[i - lo] == s[i];
          if t[0] == PLUS && i > lo {
            assert OctDigits(t)[i - lo - 1] == t[i - lo];
          } else if t[0] != PLUS {
            assert OctDigits(t)[i - lo] == t[i - lo];
          }
        }
      }
    }
    AsciiIsUtf8(s);
  }
}
