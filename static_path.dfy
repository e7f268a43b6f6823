/**
 * `StaticPath<N>`: the bytes of a filesystem path kept in a buffer of
 * capacity N so that it can travel through shared memory, with the
 * conversions from and back to a path and the `Debug` rendering.
 */
module StaticPaths {
  import opened Wrappers
  import opened Utf8

  /** The `target_family` the code is compiled for. */
  datatype Platform = Unix | Windows

  /** Why a path could not become a `StaticPath`. */
  datatype FromPathError = TooLong(atMost: nat, len: nat) | NotUtf8

  /** Why a `StaticPath` could not become a path (Windows only). */
  datatype IntoPathError = IntoNotUtf8(err: Utf8Error)

  /**
   * A path's bytes; `capacity` stands for the const parameter N. A path is
   * modelled on both platforms by the bytes of its OS string (on Windows the
   * WTF-8 bytes, which are UTF-8 exactly when `to_str` succeeds).
   */
  datatype StaticPath = StaticPath(capacity: nat, data: seq<byte>) {
    /** The `StaticVec<u8, N>` bound. */
    predicate Valid() {
      |data| <= capacity
    }
  }

  /** `TryFrom<&Path> for StaticPath<N>`. */
  function TryFromPath(n: nat, platform: Platform, path: seq<byte>): (r: Result<StaticPath, FromPathError>)
    ensures r.Ok? <==> |path| <= n && (platform == Windows ==> IsUtf8(path))
    ensures r.Ok? ==> r.value.Valid() && r.value.capacity == n && r.value.data == path
    ensures platform == Windows && !IsUtf8(path) ==> r == Err(NotUtf8)
    ensures (platform == Unix || IsUtf8(path)) && |path| > n ==> r == Err(TooLong(n, |path|))
  {
    if platform == Windows && CheckUtf8(path).Some? then Err(NotUtf8)
    else if |path| <= n then Ok(StaticPath(n, path))
    else Err(TooLong(n, |path|))
  }

  /** `From<&StaticPath<N>> for &Path` on Unix, `TryFrom` on Windows. */
  function IntoPath(platform: Platform, p: StaticPath): (r: Result<seq<byte>, IntoPathError>)
    ensures r.Ok? ==> r.value == p.data
    ensures r.Err? <==> platform == Windows && !IsUtf8(p.data)
    ensures r.Err? ==> r.error.err.validUpTo < |p.data| && IsUtf8(p.data[..r.error.err.validUpTo])
    ensures r.Err? ==> CheckUtf8(p.data) == Some(r.error.err)
  {
    match platform
    case Unix => Ok(p.data)
    case Windows =>
      match CheckUtf8(p.data)
      case None => Ok(p.data)
      case Some(e) => Err(IntoNotUtf8(e))
  }

  /** path -> StaticPath -> path is the identity for every path that fits. */
  lemma RoundTrip(n: nat, platform: Platform, path: seq<byte>)
    requires |path| <= n && (platform == Windows ==> IsUtf8(path))
    ensures TryFromPath(n, platform, path).Ok?
    ensures IntoPath(platform, TryFromPath(n, platform, path).value) == Ok(path)
  {
  }

  /** On Windows every path that is a Rust string and fits makes the round trip. */
  lemma WindowsStringRoundTrip(n: nat, name: string)
    requires |Encode(name)| <= n
    ensures TryFromPath(n, Windows, Encode(name)).Ok?
    ensures IntoPath(Windows, TryFromPath(n, Windows, Encode(name)).value) == Ok(Encode(name))
  {
    EncodeIsUtf8(name);
  }

  /** On Windows a `StaticPath` converts back to a path exactly when it holds a string. */
  lemma WindowsIntoPathIsDecoding(p: StaticPath)
    ensures IntoPath(Windows, p).Ok? <==> exists name: string :: Encode(name) == p.data
  {
    if IntoPath(Windows, p).Ok? {
      DecodeEncodes(p.data);
    } else {
      forall name: string | Encode(name) == p.data
        ensures false
      {
        EncodeIsUtf8(name);
      }
    }
  }

  // ---------------------------------------------------------------------------
  // Debug

  const Quote: byte := 0x22
  const Backslash: byte := 0x5C
  const LowerX: byte := 0x78

  predicate IsUpperHex(b: byte) {
    0x30 <= b <= 0x39 || 0x41 <= b <= 0x46
  }

  function HexValue(b: byte): (d: nat)
    requires IsUpperHex(b)
  {
    if b <= 0x39 then b - 0x30 else b - 0x41 + 10
  }

  /** One digit of `{:02X}`. */
  function HexDigit(d: nat): (b: byte)
    requires d < 16
    ensures IsUpperHex(b) && HexValue(b) == d
  {
    if d < 10 then 0x30 + d else 0x41 + d - 10
  }

  /** `\xHH` for one byte: backslash, `x`, two upper-case hex digits that spell the byte. */
  function HexEscape(b: byte): (r: seq<byte>)
    ensures |r| == 4 && r[0] == Backslash && r[1] == LowerX
    ensures IsUpperHex(r[2]) && IsUpperHex(r[3]) && 16 * HexValue(r[2]) + HexValue(r[3]) == b
  {
    [Backslash, LowerX, HexDigit(b / 16), HexDigit(b % 16)]
  }

  function HexEscapes(bs: seq<byte>): (r: seq<byte>)
    ensures |r| == 4 * |bs|
    decreases |bs|
  {
    if bs == [] then [] else HexEscapes(bs[..|bs| - 1]) + HexEscape(bs[|bs| - 1])
  }

  /**
   * The rendering between the quotes, one `utf8_chunks` step at a time: the
   * well-formed part verbatim, then each byte of the ill-formed part escaped.
   */
  function Escaped(s: seq<byte>): seq<byte>
    decreases |s|
  {
    if s == [] then []
    else
      var (v, i) := NextChunk(s);
      s[..v] + HexEscapes(s[v..v + i]) + Escaped(s[v + i..])
  }

  /** What `<StaticPath<N> as Debug>::fmt` writes. */
  function DebugRepr(p: StaticPath): seq<byte> {
    [Quote] + Escaped(p.data) + [Quote]
  }

  /** `Debug::fmt`: the loop over `utf8_chunks`, writing each valid part and escaping each invalid byte. */
  method Fmt(p: StaticPath) returns (out: seq<byte>)
    ensures out == DebugRepr(p)
  {
    out := [Quote];
    var rest := p.data;
    while rest != []
      invariant [Quote] + Escaped(p.data) == out + Escaped(rest)
      decreases |rest|
    {
      var chunk := NextChunk(rest);
      var valid, invalid := chunk.0, chunk.1;
      ghost var before := out;
      out := out + rest[..valid];
      out := WriteEscaped(out, rest[valid..valid + invalid]);
      EscapedStep(rest, valid, invalid, before, out);
      rest := rest[valid + invalid..];
    }
    out := out + [Quote];
  }

  /** The inner loop of `fmt`: each byte of an ill-formed part written as `\xHH`. */
  method WriteEscaped(out: seq<byte>, bs: seq<byte>) returns (r: seq<byte>)
    ensures r == out + HexEscapes(bs)
  {
    r := out;
    var i := 0;
    while i < |bs|
      invariant i <= |bs|
      invariant r == out + HexEscapes(bs[..i])
    {
      assert bs[..i + 1][..i] == bs[..i];
      r := r + HexEscape(bs[i]);
      i := i + 1;
    }
    assert bs[..i] == bs;
  }

  /** One turn of the outer loop moves one chunk's rendering from what is left to what is written. */
  lemma EscapedStep(rest: seq<byte>, valid: nat, invalid: nat, before: seq<byte>, out: seq<byte>)
    requires rest != [] && NextChunk(rest) == (valid, invalid)
    requires out == before + rest[..valid] + HexEscapes(rest[valid..valid + invalid])
    ensures before + Escaped(rest) == out + Escaped(rest[valid + invalid..])
  {
    var h, d := HexEscapes(rest[valid..valid + invalid]), Escaped(rest[valid + invalid..]);
    assert Escaped(rest) == rest[..valid] + h + d;
    Assoc(before, rest[..valid], h, d);
  }

  lemma Assoc(a: seq<byte>, b: seq<byte>, c: seq<byte>, d: seq<byte>)
    ensures a + (b + c + d) == a + b + c + d
  {
  }

  /** For a path that is well-formed UTF-8 the rendering is the path itself. */
  lemma EscapedOfUtf8(s: seq<byte>)
    requires IsUtf8(s)
    ensures Escaped(s) == s
  {
    if s != [] {
      NextChunkOfUtf8(s);
      assert s[..|s|] == s && s[|s|..|s|] == [] && s[|s|..] == [];
    }
  }

  lemma DebugOfUtf8(p: StaticPath)
    requires IsUtf8(p.data)
    ensures DebugRepr(p) == [Quote] + p.data + [Quote]
  {
    EscapedOfUtf8(p.data);
  }

  lemma {:induction false} HexEscapesAscii(bs: seq<byte>)
    ensures forall k :: 0 <= k < |HexEscapes(bs)| ==> HexEscapes(bs)[k] < 0x80
    decreases |bs|
  {
    if bs != [] {
      HexEscapesAscii(bs[..|bs| - 1]);
    }
  }

  /** Whatever the bytes, the rendering is itself well-formed UTF-8, as a `Formatter` requires. */
  lemma {:induction false} EscapedIsUtf8(s: seq<byte>)
    ensures IsUtf8(Escaped(s))
    decreases |s|
  {
    if s != [] {
      var (v, i) := NextChunk(s);
      EscapedIsUtf8(s[v + i..]);
      HexEscapesAscii(s[v..v + i]);
      AsciiIsUtf8(HexEscapes(s[v..v + i]));
      ConcatUtf8(s[..v], HexEscapes(s[v..v + i]));
      ConcatUtf8(s[..v] + HexEscapes(s[v..v + i]), Escaped(s[v + i..]));
    }
  }

  lemma DebugIsUtf8(p: StaticPath)
    ensures IsUtf8(DebugRepr(p))
  {
    EscapedIsUtf8(p.data);
    AsciiIsUtf8([Quote]);
    ConcatUtf8([Quote], Escaped(p.data));
    ConcatUtf8([Quote] + Escaped(p.data), [Quote]);
  }

  /** The lone byte 0xFF is one ill-formed chunk, rendered `\xFF`. */
  lemma EscapedByteFF()
    ensures Escaped([0xFF]) == [Backslash, LowerX, 0x46, 0x46]
  {
    var ff: seq<byte> := [0xFF];
    assert NextChunk(ff) == (0, 1) by {
      assert ScanChar(ff) == Bad(1, false);
      assert ff[0..] == ff;
    }
    calc {
      Escaped(ff);
      ff[..0] + HexEscapes(ff[0..1]) + Escaped(ff[1..]);
      { assert ff[0..1] == ff && ff[1..] == []; }
      HexEscapes(ff) + Escaped([]);
      HexEscape(0xFF);
    }
  }

  /**
   * Valid text is written without escaping its backslashes, so the byte
   * 0xFF and the four characters `\xFF` share one rendering.
   */
  lemma DebugCollision()
    ensures var text := StaticPath(4, [Backslash, LowerX, 0x46, 0x46]);
            var byteFF := StaticPath(4, [0xFF]);
            text != byteFF && DebugRepr(text) == DebugRepr(byteFF)
  {
    var text: seq<byte> := [Backslash, LowerX, 0x46, 0x46];
    assert Escaped(text) == text by {
      AsciiIsUtf8(text);
      EscapedOfUtf8(text);
    }
    EscapedByteFF();
  }
}
