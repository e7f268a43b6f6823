/**
 * UTF-8 over raw bytes, scanned the way Rust's core library scans it
 * (`str::from_utf8` and `<[u8]>::utf8_chunks` share one table: Table 3-7,
 * "Well-Formed UTF-8 Byte Sequences", of the Unicode Standard).
 *
 * `IsUtf8` is defined by that scanner; `Encode`/`Decode` relate it to
 * sequences of Unicode scalar values (Dafny's `char`), which is what a Rust
 * `str` holds.
 */
module Utf8 {
  import opened Wrappers

  type byte = x: int | 0 <= x < 0x100

  /** A byte of the form 10xxxxxx (`b as i8 < -64` in the Rust scanner). */
  predicate IsContinuation(b: byte) {
    0x80 <= b < 0xC0
  }

  /** Number of bytes a sequence starting with `lead` must have; 0 when `lead` can never start one. */
  function Width(lead: byte): (w: nat)
    ensures w <= 4
    ensures w == 1 <==> lead < 0x80
  {
    if lead < 0x80 then 1
    else if lead < 0xC2 then 0
    else if lead < 0xE0 then 2
    else if lead < 0xF0 then 3
    else if lead < 0xF5 then 4
    else 0
  }

  /** The range the second byte must lie in after a given lead byte. */
  predicate SecondOk(lead: byte, b: byte) {
    if lead == 0xE0 then 0xA0 <= b < 0xC0
    else if lead == 0xED then 0x80 <= b < 0xA0
    else if lead == 0xF0 then 0x90 <= b < 0xC0
    else if lead == 0xF4 then 0x80 <= b < 0x90
    else IsContinuation(b)
  }

  /**
   * What the scanner finds at the head of a byte string: one well-formed
   * character of `len` bytes, or a maximal ill-formed prefix of `len` bytes.
   * `truncated` says the prefix was cut off by the end of the input (the
   * case `Utf8Error::error_len` reports as `None`).
   */
  datatype Scan = Char(len: nat) | Bad(len: nat, truncated: bool)

  function ScanChar(s: seq<byte>): (r: Scan)
    requires s != []
    ensures 1 <= r.len <= 4 && r.len <= |s|
    ensures r.Char? ==> r.len == Width(s[0])
    ensures r.Bad? && r.truncated ==> r.len == |s|
  {
    var w := Width(s[0]);
    if w == 1 then Char(1)
    else if w == 0 then Bad(1, false)
    else if |s| < 2 then Bad(1, true)
    else if !SecondOk(s[0], s[1]) then Bad(1, false)
    else if w == 2 then Char(2)
    else if |s| < 3 then Bad(2, true)
    else if !IsContinuation(s[2]) then Bad(2, false)
    else if w == 3 then Char(3)
    else if |s| < 4 then Bad(3, true)
    else if !IsContinuation(s[3]) then Bad(3, false)
    else Char(4)
  }

  /** Well-formed UTF-8: the scanner reads a character at every step to the end. */
  predicate IsUtf8(s: seq<byte>)
    decreases |s|
  {
    s == [] || (ScanChar(s).Char? && IsUtf8(s[ScanChar(s).len..]))
  }

  /** A well-formed character is recognised by its own bytes, whatever follows it. */
  lemma ScanExtends(s: seq<byte>, t: seq<byte>)
    requires s != [] && ScanChar(s).Char?
    ensures ScanChar(s[..ScanChar(s).len] + t) == ScanChar(s)
  {
    var n := ScanChar(s).len;
    var u := s[..n] + t;
    assert forall k :: 0 <= k < n ==> u[k] == s[k];
  }

  lemma {:induction false} ConcatUtf8(a: seq<byte>, b: seq<byte>)
    requires IsUtf8(a) && IsUtf8(b)
    ensures IsUtf8(a + b)
    decreases |a|
  {
    if a == [] {
      assert a + b == b;
    } else {
      var n := ScanChar(a).len;
      assert a[..n] + (a[n..] + b) == a + b;
      ScanExtends(a, a[n..] + b);
      ConcatUtf8(a[n..], b);
      assert (a + b)[n..] == a[n..] + b;
    }
  }

  /** A well-formed character followed by a well-formed prefix of the rest is a well-formed prefix. */
  lemma PrefixUtf8(s: seq<byte>, m: nat)
    requires s != [] && ScanChar(s).Char?
    requires m <= |s| - ScanChar(s).len && IsUtf8(s[ScanChar(s).len..][..m])
    ensures IsUtf8(s[..ScanChar(s).len + m])
  {
    var n := ScanChar(s).len;
    var t := s[n..][..m];
    assert s[..n + m] == s[..n] + t;
    ScanExtends(s, t);
    assert (s[..n] + t)[n..] == t;
  }

  /** ASCII bytes are UTF-8 on their own. */
  lemma {:induction false} AsciiIsUtf8(s: seq<byte>)
    requires forall k :: 0 <= k < |s| ==> s[k] < 0x80
    ensures IsUtf8(s)
    decreases |s|
  {
    if s != [] {
      AsciiIsUtf8(s[1..]);
    }
  }

  /** The UTF-8 encoding of one Unicode scalar value. */
  function EncodeChar(c: char): (r: seq<byte>)
    ensures 1 <= |r| <= 4
  {
    var n := c as int;
    if n < 0x80 then [n]
    else if n < 0x800 then [0xC0 + n / 64, 0x80 + n % 64]
    else if n < 0x10000 then [0xE0 + n / 4096, 0x80 + (n / 64) % 64, 0x80 + n % 64]
    else [0xF0 + n / 0x40000, 0x80 + (n / 4096) % 64, 0x80 + (n / 64) % 64, 0x80 + n % 64]
  }

  /** The scanner reads an encoded character back as one well-formed character. */
  lemma EncodeCharScans(c: char)
    ensures ScanChar(EncodeChar(c)) == Char(|EncodeChar(c)|)
  {
    var n := c as int;
    if 0x80 <= n < 0x800 {
      EncodedTwoScans(n);
    } else if 0x800 <= n < 0x10000 {
      EncodedThreeScans(n);
    } else if 0x10000 <= n {
      EncodedFourScans(n);
    }
  }

  lemma EncodedTwoScans(n: int)
    requires 0x80 <= n < 0x800
    ensures ScanChar([0xC0 + n / 64, 0x80 + n % 64]) == Char(2)
  {
    ScansTwo(0xC0 + n / 64, 0x80 + n % 64);
  }

  lemma EncodedThreeScans(n: int)
    requires 0x800 <= n < 0xD800 || 0xE000 <= n < 0x10000
    ensures ScanChar([0xE0 + n / 4096, 0x80 + (n / 64) % 64, 0x80 + n % 64]) == Char(3)
  {
    var b0, b1 := 0xE0 + n / 4096, 0x80 + (n / 64) % 64;
    assert b0 == 0xE0 ==> 0xA0 <= b1;
    assert b0 == 0xED ==> b1 < 0xA0;
    ScansThree(b0, b1, 0x80 + n % 64);
  }

  lemma EncodedFourScans(n: int)
    requires 0x10000 <= n < 0x110000
    ensures ScanChar([0xF0 + n / 0x40000, 0x80 + (n / 4096) % 64, 0x80 + (n / 64) % 64, 0x80 + n % 64]) == Char(4)
  {
    var b0, b1 := 0xF0 + n / 0x40000, 0x80 + (n / 4096) % 64;
    assert b0 == 0xF0 ==> 0x90 <= b1;
    assert b0 == 0xF4 ==> b1 < 0x90;
    ScansFour(b0, b1, 0x80 + (n / 64) % 64, 0x80 + n % 64);
  }

  lemma ScansTwo(b0: byte, b1: byte)
    requires 0xC2 <= b0 < 0xE0 && IsContinuation(b1)
    ensures ScanChar([b0, b1]) == Char(2)
  {
  }

  lemma ScansThree(b0: byte, b1: byte, b2: byte)
    requires 0xE0 <= b0 < 0xF0 && SecondOk(b0, b1) && IsContinuation(b2)
    ensures ScanChar([b0, b1, b2]) == Char(3)
  {
  }

  lemma ScansFour(b0: byte, b1: byte, b2: byte, b3: byte)
    requires 0xF0 <= b0 < 0xF5 && SecondOk(b0, b1) && IsContinuation(b2) && IsContinuation(b3)
    ensures ScanChar([b0, b1, b2, b3]) == Char(4)
  {
  }

  function Encode(cs: string): (r: seq<byte>)
    decreases |cs|
  {
    if cs == [] then [] else EncodeChar(cs[0]) + Encode(cs[1..])
  }

  /** Every encoded string is well-formed: a Rust `str` always passes `from_utf8`. */
  lemma {:induction false} EncodeIsUtf8(cs: string)
    ensures IsUtf8(Encode(cs))
    decreases |cs|
  {
    if cs != [] {
      var e := EncodeChar(cs[0]);
      EncodeCharScans(cs[0]);
      EncodeIsUtf8(cs[1..]);
      assert e[..|e|] == e;
      ScanExtends(e, Encode(cs[1..]));
      assert (e + Encode(cs[1..]))[|e|..] == Encode(cs[1..]);
    }
  }

  lemma DecodeTwo(b0: int, b1: int)
    requires 0xC2 <= b0 < 0xE0 && 0x80 <= b1 < 0xC0
    ensures var v := (b0 - 0xC0) * 64 + (b1 - 0x80);
            0x80 <= v < 0x800 && v / 64 == b0 - 0xC0 && v % 64 == b1 - 0x80
  {
  }

  lemma DecodeThree(b0: int, b1: int, b2: int)
    requires 0xE0 <= b0 < 0xF0 && 0x80 <= b1 < 0xC0 && 0x80 <= b2 < 0xC0
    requires b0 == 0xE0 ==> 0xA0 <= b1
    requires b0 == 0xED ==> b1 < 0xA0
    ensures var v := (b0 - 0xE0) * 4096 + (b1 - 0x80) * 64 + (b2 - 0x80);
            && (0x800 <= v < 0xD800 || 0xE000 <= v < 0x10000)
            && v / 4096 == b0 - 0xE0 && (v / 64) % 64 == b1 - 0x80 && v % 64 == b2 - 0x80
  {
    var v := (b0 - 0xE0) * 4096 + (b1 - 0x80) * 64 + (b2 - 0x80);
    assert v / 64 == (b0 - 0xE0) * 64 + (b1 - 0x80);
  }

  lemma DecodeFour(b0: int, b1: int, b2: int, b3: int)
    requires 0xF0 <= b0 < 0xF5 && 0x80 <= b1 < 0xC0 && 0x80 <= b2 < 0xC0 && 0x80 <= b3 < 0xC0
    requires b0 == 0xF0 ==> 0x90 <= b1
    requires b0 == 0xF4 ==> b1 < 0x90
    ensures var v := (b0 - 0xF0) * 0x40000 + (b1 - 0x80) * 4096 + (b2 - 0x80) * 64 + (b3 - 0x80);
            && 0x10000 <= v < 0x110000
            && v / 0x40000 == b0 - 0xF0 && (v / 4096) % 64 == b1 - 0x80
            && (v / 64) % 64 == b2 - 0x80 && v % 64 == b3 - 0x80
  {
    var v := (b0 - 0xF0) * 0x40000 + (b1 - 0x80) * 4096 + (b2 - 0x80) * 64 + (b3 - 0x80);
    assert v / 64 == (b0 - 0xF0) * 4096 + (b1 - 0x80) * 64 + (b2 - 0x80);
    assert v / 4096 == (b0 - 0xF0) * 64 + (b1 - 0x80);
  }

  /** The scalar value of the well-formed character at the head of `s`. */
  function DecodeChar(s: seq<byte>): (c: char)
    requires s != [] && ScanChar(s).Char?
    ensures EncodeChar(c) == s[..ScanChar(s).len]
  {
    var n := ScanChar(s).len;
    if n == 1 then
      s[0] as char
    else if n == 2 then
      assert s[..2] == [s[0], s[1]];
      DecodeTwoBytes(s[0], s[1])
    else if n == 3 then
      assert s[..3] == [s[0], s[1], s[2]];
      DecodeThreeBytes(s[0], s[1], s[2])
    else
      assert s[..4] == [s[0], s[1], s[2], s[3]];
      DecodeFourBytes(s[0], s[1], s[2], s[3])
  }

  function DecodeTwoBytes(b0: byte, b1: byte): (c: char)
    requires 0xC2 <= b0 < 0xE0 && IsContinuation(b1)
    ensures EncodeChar(c) == [b0, b1]
  {
    DecodeTwo(b0, b1);
    ((b0 - 0xC0) * 64 + (b1 - 0x80)) as char
  }

  function DecodeThreeBytes(b0: byte, b1: byte, b2: byte): (c: char)
    requires 0xE0 <= b0 < 0xF0 && SecondOk(b0, b1) && IsContinuation(b2)
    ensures EncodeChar(c) == [b0, b1, b2]
  {
    DecodeThree(b0, b1, b2);
    ((b0 - 0xE0) * 4096 + (b1 - 0x80) * 64 + (b2 - 0x80)) as char
  }

  function DecodeFourBytes(b0: byte, b1: byte, b2: byte, b3: byte): (c: char)
    requires 0xF0 <= b0 < 0xF5 && SecondOk(b0, b1) && IsContinuation(b2) && IsContinuation(b3)
    ensures EncodeChar(c) == [b0, b1, b2, b3]
  {
    DecodeFour(b0, b1, b2, b3);
    ((b0 - 0xF0) * 0x40000 + (b1 - 0x80) * 4096 + (b2 - 0x80) * 64 + (b3 - 0x80)) as char
  }

  /** The string whose encoding well-formed bytes are. */
  function Decode(s: seq<byte>): string
    requires IsUtf8(s)
    decreases |s|
  {
    if s == [] then [] else [DecodeChar(s)] + Decode(s[ScanChar(s).len..])
  }

  /** Decoding well-formed bytes gives the string whose encoding they are. */
  lemma {:induction false} DecodeEncodes(s: seq<byte>)
    requires IsUtf8(s)
    ensures Encode(Decode(s)) == s
    decreases |s|
  {
    if s != [] {
      var n := ScanChar(s).len;
      var c, rest := DecodeChar(s), Decode(s[n..]);
      calc {
        Encode(Decode(s));
        Encode([c] + rest);
        { EncodeCons(c, rest); }
        EncodeChar(c) + Encode(rest);
        s[..n] + Encode(rest);
        { DecodeEncodes(s[n..]); }
        s[..n] + s[n..];
        s;
      }
    }
  }

  lemma EncodeCons(c: char, rest: string)
    ensures Encode([c] + rest) == EncodeChar(c) + Encode(rest)
  {
    assert ([c] + rest)[1..] == rest;
  }

  /** What `str::from_utf8` reports on failure. */
  datatype Utf8Error = Utf8Error(validUpTo: nat, errorLen: Option<nat>)

  /** `None` on well-formed input, else the first error as `str::from_utf8` reports it. */
  function CheckUtf8(s: seq<byte>): (r: Option<Utf8Error>)
    ensures r.None? <==> IsUtf8(s)
    ensures r.Some? ==> r.value.validUpTo < |s| && IsUtf8(s[..r.value.validUpTo])
    ensures r.Some? ==> ScanChar(s[r.value.validUpTo..]).Bad?
    ensures r.Some? ==>
              r.value.errorLen ==
              (if ScanChar(s[r.value.validUpTo..]).truncated then None else Some(ScanChar(s[r.value.validUpTo..]).len))
  {
    var (valid, invalid) := NextChunk(s);
    if invalid == 0 then
      assert s[..valid] == s;
      None
    else
      assert !IsUtf8(s) by {
        if IsUtf8(s) {
          NextChunkOfUtf8(s);
        }
      }
      var bad := ScanChar(s[valid..]);
      Some(Utf8Error(valid, if bad.truncated then None else Some(bad.len)))
  }

  /**
   * One step of `utf8_chunks`: the length of the longest well-formed prefix
   * and the length of the ill-formed sequence that follows it (0 only when the
   * well-formed prefix reaches the end).
   */
  function NextChunk(s: seq<byte>): (c: (nat, nat))
    ensures c.0 + c.1 <= |s|
    ensures s != [] ==> c.0 + c.1 > 0
    ensures IsUtf8(s[..c.0])
    ensures c.1 == 0 <==> c.0 == |s|
    ensures c.1 > 0 ==> ScanChar(s[c.0..]).Bad? && ScanChar(s[c.0..]).len == c.1
  {
    var valid := ValidPrefix(s);
    ValidPrefixSpec(s);
    if valid == |s| then (valid, 0) else (valid, ScanChar(s[valid..]).len)
  }

  /** The length of the longest well-formed prefix: the scanner stops at the first ill-formed sequence. */
  function ValidPrefix(s: seq<byte>): (v: nat)
    ensures v <= |s|
    decreases |s|
  {
    if s == [] || ScanChar(s).Bad? then 0
    else ScanChar(s).len + ValidPrefix(s[ScanChar(s).len..])
  }

  /** The prefix is well-formed, and the scanner finds an ill-formed sequence right after it. */
  lemma {:induction false} ValidPrefixSpec(s: seq<byte>)
    ensures IsUtf8(s[..ValidPrefix(s)])
    ensures ValidPrefix(s) < |s| ==> ScanChar(s[ValidPrefix(s)..]).Bad?
    decreases |s|
  {
    if s == [] {
    } else if ScanChar(s).Bad? {
      assert s[..0] == [];
      assert s[0..] == s;
    } else {
      var n := ScanChar(s).len;
      var v := ValidPrefix(s[n..]);
      ValidPrefixSpec(s[n..]);
      PrefixUtf8(s, v);
      assert s[n + v..] == s[n..][v..];
    }
  }

  /** On well-formed input the first chunk is the whole input, with nothing ill-formed after it. */
  lemma {:induction false} NextChunkOfUtf8(s: seq<byte>)
    requires IsUtf8(s)
    ensures NextChunk(s) == (|s|, 0)
    decreases |s|
  {
    if s != [] {
      NextChunkOfUtf8(s[ScanChar(s).len..]);
    }
  }
}
