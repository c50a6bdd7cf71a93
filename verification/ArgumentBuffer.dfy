/**
 The argument buffer of examples/firefox_openurl.cpp:40-56: three little-endian 32-bit integers, the
 current path and the URL, each followed by a zero byte.
 */
module ArgumentBuffer {

  newtype Byte = b: int | 0 <= b < 256

  const HEADER := 12

  // ---------------------------------------------------------------- specification

  /** Conversion to int32_t, modulo 2^32. */
  function ToInt32(x: int): (n: int)
    ensures -0x8000_0000 <= n < 0x8000_0000
    ensures -0x8000_0000 <= x < 0x8000_0000 ==> n == x
  {
    (x + 0x8000_0000) % 0x1_0000_0000 - 0x8000_0000
  }

  /** The bytes of an int32_t in memory on a little-endian build. */
  function Int32Bytes(n: int): (s: seq<Byte>)
    requires -0x8000_0000 <= n < 0x8000_0000
    ensures |s| == 4
  {
    var u := if n < 0 then n + 0x1_0000_0000 else n;
    [(u % 256) as Byte, (u / 256 % 256) as Byte, (u / 0x1_0000 % 256) as Byte, (u / 0x100_0000) as Byte]
  }

  /** Reads the int32_t at an offset. */
  function Int32At(s: seq<Byte>, offset: nat): (n: int)
    requires offset + 4 <= |s|
  {
    var u := s[offset] as int + s[offset + 1] as int * 256 + s[offset + 2] as int * 0x1_0000
      + s[offset + 3] as int * 0x100_0000;
    if u >= 0x8000_0000 then u - 0x1_0000_0000 else u
  }

  /** The C string at an offset: up to the first zero byte, or to the end where there is none. */
  function StringAt(s: seq<Byte>, offset: nat): seq<Byte>
    requires offset <= |s|
    decreases |s| - offset
  {
    if offset == |s| || s[offset] == 0 then [] else [s[offset]] + StringAt(s, offset + 1)
  }

  /** The whole buffer. */
  function Layout(path: seq<Byte>, url: seq<Byte>): seq<Byte> {
    Int32Bytes(2) + Int32Bytes(HEADER) + Int32Bytes(ToInt32(HEADER + |path| + 1)) + path + [0] + url + [0]
  }

  function Zeros(n: nat): seq<Byte> {
    seq(n, _ => 0)
  }

  /** `s` with the bytes from `at` on overwritten by `t`. */
  function Splice(s: seq<Byte>, at: nat, t: seq<Byte>): seq<Byte>
    requires at + |t| <= |s|
  {
    s[..at] + t + s[at + |t|..]
  }

  lemma SpliceNext(p: seq<Byte>, m: nat, t: seq<Byte>)
    requires |t| <= m
    ensures Splice(p + Zeros(m), |p|, t) == p + t + Zeros(m - |t|)
  {
  }

  // ---------------------------------------------------------------- the writes

  method WriteInt32(a: array<Byte>, offset: nat, n: int)
    requires offset + 4 <= a.Length && -0x8000_0000 <= n < 0x8000_0000
    modifies a
    ensures a[..] == Splice(old(a[..]), offset, Int32Bytes(n))
  {
    var bytes := Int32Bytes(n);
    a[offset], a[offset + 1], a[offset + 2], a[offset + 3] := bytes[0], bytes[1], bytes[2], bytes[3];
  }

  /** What strncpy stores for `src` and a count of `|src|`: nothing but zeros after a zero byte. */
  function Padded(src: seq<Byte>): (s: seq<Byte>)
    ensures |s| == |src|
    ensures 0 !in src ==> s == src
  {
    if src == [] then []
    else if src[0] == 0 then seq(|src|, _ => 0 as Byte)
    else [src[0]] + Padded(src[1..])
  }

  lemma {:induction false} PaddedAt(src: seq<Byte>, k: nat)
    requires k < |src|
    ensures Padded(src)[k] == if 0 in src[..k + 1] then 0 else src[k]
  {
    if src[0] == 0 {
      assert src[..k + 1][0] == 0;
    } else if k > 0 {
      PaddedAt(src[1..], k - 1);
      assert src[..k + 1] == [src[0]] + src[1..][..k];
    }
  }

  /** `strncpy(a + at, src, |src|)`. */
  method Strncpy(a: array<Byte>, at: nat, src: seq<Byte>)
    requires at + |src| <= a.Length
    modifies a
    ensures a[..] == Splice(old(a[..]), at, Padded(src))
  {
    ghost var was := a[..];
    var ended := false;
    for i := 0 to |src|
      invariant forall k | 0 <= k < at :: a[k] == was[k]
      invariant forall k | at + |src| <= k < a.Length :: a[k] == was[k]
      invariant ended <==> 0 in src[..i]
      invariant forall k | 0 <= k < i :: a[at + k] == Padded(src)[k]
    {
      PaddedAt(src, i);
      assert src[..i + 1] == src[..i] + [src[i]];
      ended := ended || src[i] == 0;
      a[at + i] := if ended then 0 else src[i];
    }
    assert a[..] == Splice(was, at, Padded(src));
  }

  /** The buffer sent to the browser. Neither text contains a zero byte: one is a file system path,
      the other a command line argument. */
  method EncodeArguments(path: seq<Byte>, url: seq<Byte>) returns (bytes: array<Byte>)
    requires 0 !in path && 0 !in url
    ensures bytes[..] == Layout(path, url)
  {
    bytes := new Byte[HEADER + |path| + |url| + 2](_ => 0);
    assert bytes[..] == Zeros(HEADER + |path| + |url| + 2);
    WritesMakeLayout(Int32Bytes(2), Int32Bytes(HEADER), Int32Bytes(ToInt32(HEADER + |path| + 1)), path, url);
    WriteInt32(bytes, 0, ToInt32(2));
    WriteInt32(bytes, 4, ToInt32(HEADER));
    WriteInt32(bytes, 8, ToInt32(HEADER + |path| + 1));
    Strncpy(bytes, HEADER, path);
    Strncpy(bytes, HEADER + |path| + 1, url);
  }

  lemma WritesMakeLayout(h0: seq<Byte>, h1: seq<Byte>, h2: seq<Byte>, path: seq<Byte>, url: seq<Byte>)
    requires |h0| == |h1| == |h2| == 4
    ensures var s0 := Zeros(HEADER + |path| + |url| + 2);
      var s3 := Splice(Splice(Splice(s0, 0, h0), 4, h1), 8, h2);
      Splice(Splice(s3, HEADER, path), HEADER + |path| + 1, url) == h0 + h1 + h2 + path + [0] + url + [0]
  {
    var room := |path| + |url| + 2;
    assert Zeros(HEADER + room) == [] + Zeros(HEADER + room);
    SpliceNext([], HEADER + room, h0);
    assert [] + h0 == h0;
    SpliceNext(h0, room + 8, h1);
    SpliceNext(h0 + h1, room + 4, h2);
    SpliceNext(h0 + h1 + h2, room, path);
    var p := h0 + h1 + h2 + path;
    assert p + Zeros(|url| + 2) == p + [0] + Zeros(|url| + 1);
    SpliceNext(p + [0], |url| + 1, url);
    assert Zeros(1) == [0];
  }

  // ---------------------------------------------------------------- what a reader finds

  lemma Int32RoundTrip(n: int)
    requires -0x8000_0000 <= n < 0x8000_0000
    ensures Int32At(Int32Bytes(n), 0) == n
  {
    var u := if n < 0 then n + 0x1_0000_0000 else n;
    var a, b, c := u % 256, u / 256 % 256, u / 0x1_0000 % 256;
    assert u / 256 == u / 0x1_0000 * 256 + b;
    assert u / 0x1_0000 == u / 0x100_0000 * 256 + c;
  }

  lemma {:induction false} StringEnds(s: seq<Byte>, offset: nat, text: seq<Byte>)
    requires offset + |text| < |s| && 0 !in text
    requires s[offset..offset + |text|] == text && s[offset + |text|] == 0
    ensures StringAt(s, offset) == text
    decreases |text|
  {
    if text != [] {
      assert s[offset] == text[0];
      assert s[offset + 1..offset + |text|] == text[1..];
      StringEnds(s, offset + 1, text[1..]);
    }
  }

  /** The header: two arguments, and their offsets. The second offset is exact if and only if it
      fits in an int32_t. */
  lemma HeaderReads(path: seq<Byte>, url: seq<Byte>)
    ensures var s := Layout(path, url);
      && Int32At(s, 0) == 2
      && Int32At(s, 4) == HEADER
      && (Int32At(s, 8) == HEADER + |path| + 1 <==> HEADER + |path| + 1 < 0x8000_0000)
  {
    var s := Layout(path, url);
    var second := ToInt32(HEADER + |path| + 1);
    Int32RoundTrip(2);
    Int32RoundTrip(HEADER);
    Int32RoundTrip(second);
    assert s[0..4] == Int32Bytes(2) && s[4..8] == Int32Bytes(HEADER) && s[8..12] == Int32Bytes(second);
    FieldAt(s, 0);
    FieldAt(s, 4);
    FieldAt(s, 8);
  }

  lemma FieldAt(s: seq<Byte>, offset: nat)
    requires offset + 4 <= |s|
    ensures Int32At(s, offset) == Int32At(s[offset..offset + 4], 0)
  {
    var f := s[offset..offset + 4];
    assert f[0] == s[offset] && f[1] == s[offset + 1] && f[2] == s[offset + 2] && f[3] == s[offset + 3];
  }

  /** A reader that follows the offsets finds exactly the path and the URL; the two do not overlap
      and the URL's terminator is the last byte. */
  lemma ReaderFindsArguments(path: seq<Byte>, url: seq<Byte>)
    requires 0 !in path && 0 !in url && HEADER + |path| + 1 < 0x8000_0000
    ensures var s := Layout(path, url);
      var first, second := Int32At(s, 4), Int32At(s, 8);
      && HEADER <= first && first + |path| + 1 == second && second + |url| + 1 == |s|
      && StringAt(s, first) == path
      && StringAt(s, second) == url
      && s[|s| - 1] == 0
  {
    var s := Layout(path, url);
    HeaderReads(path, url);
    var second := HEADER + |path| + 1;
    assert s[HEADER..HEADER + |path|] == path && s[HEADER + |path|] == 0;
    StringEnds(s, HEADER, path);
    assert s[second..second + |url|] == url && s[second + |url|] == 0;
    StringEnds(s, second, url);
  }

  /** Different arguments never make the same buffer, as long as the offsets fit. */
  lemma LayoutInjective(path: seq<Byte>, url: seq<Byte>, path': seq<Byte>, url': seq<Byte>)
    requires 0 !in path && 0 !in url && 0 !in path' && 0 !in url'
    requires HEADER + |path| + 1 < 0x8000_0000 && HEADER + |path'| + 1 < 0x8000_0000
    ensures Layout(path, url) == Layout(path', url') <==> path == path' && url == url'
  {
    ReaderFindsArguments(path, url);
    ReaderFindsArguments(path', url');
  }
}
