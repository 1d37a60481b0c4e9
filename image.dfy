// The in-memory image of src/image/image.cpp: a row-major buffer of
// `width * height` pixels of `bpp` bytes each, pixel formats and their
// sizes, the file-format choice by extension, and the operations that
// write the buffer.
//
// The allocator indirection is left out: a buffer is an array, freshly
// allocated whenever the source reallocates it.

module Images {

  newtype Byte = b: int | 0 <= b < 256

  // ----- pixel formats -----

  datatype Format =
    | A8 | I8 | L8 | R8 | A16 | I16 | L16 | R16 | A32 | I32 | L32 | R32
    | LA8 | RG8 | LA16 | RG16 | LA32 | RG32
    | RGB8 | RGB16 | RGB32
    | RGBA8 | RGBA16 | RGBA32

  /** `GetChannels`: the number of components of a pixel. */
  function Channels(f: Format): (r: int)
    ensures 1 <= r <= 4
  {
    match f
    case A8 | I8 | L8 | R8 | A16 | I16 | L16 | R16 | A32 | I32 | L32 | R32 => 1
    case LA8 | RG8 | LA16 | RG16 | LA32 | RG32 => 2
    case RGB8 | RGB16 | RGB32 => 3
    case RGBA8 | RGBA16 | RGBA32 => 4
  }

  /** The width of one component, named by the format's suffix. */
  function ComponentBits(f: Format): int
  {
    match f
    case A8 | I8 | L8 | R8 | LA8 | RG8 | RGB8 | RGBA8 => 8
    case A16 | I16 | L16 | R16 | LA16 | RG16 | RGB16 | RGBA16 => 16
    case A32 | I32 | L32 | R32 | LA32 | RG32 | RGB32 | RGBA32 => 32
  }

  /** `GetBpp`: bits per pixel, one component width per channel. */
  function Bpp(f: Format): (r: int)
    ensures r == Channels(f) * ComponentBits(f)
    ensures r % 8 == 0 && r / 8 == Channels(f) * (ComponentBits(f) / 8)
  {
    match f
    case A8 | I8 | L8 | R8 => 8
    case A16 | I16 | L16 | R16 => 16
    case A32 | I32 | L32 | R32 => 32
    case LA8 | RG8 => 16
    case LA16 | RG16 => 32
    case LA32 | RG32 => 64
    case RGB8 => 24
    case RGB16 => 48
    case RGB32 => 96
    case RGBA8 => 32
    case RGBA16 => 64
    case RGBA32 => 128
  }

  // ----- file formats -----

  datatype FileFormat = Bmp | Jpg | Png | Tga | Tif | Hdr | Unknown

  /** `ExtractFileFormat`, given the file name's extension. */
  function ExtractFileFormat(ext: string): (r: FileFormat)
    ensures r == Tif <==> ext == "tif" || ext == "tiff"
    ensures r == Unknown <==> ext !in {"bmp", "jpg", "png", "tga", "tif", "tiff", "hdr"}
  {
    if ext == "bmp" then Bmp
    else if ext == "jpg" then Jpg
    else if ext == "png" then Png
    else if ext == "tga" then Tga
    else if ext == "tif" || ext == "tiff" then Tif
    else if ext == "hdr" then Hdr
    else Unknown
  }

  /** The extension a file of a known format is saved under. */
  function Extension(f: FileFormat): string
    requires f != Unknown
  {
    match f
    case Bmp => "bmp"
    case Jpg => "jpg"
    case Png => "png"
    case Tga => "tga"
    case Tif => "tif"
    case Hdr => "hdr"
  }

  /** Every known format is recognised from its extension. */
  lemma ExtensionRoundTrip(f: FileFormat)
    requires f != Unknown
    ensures ExtractFileFormat(Extension(f)) == f
  {
  }

  // ----- buffer arithmetic -----

  /** `a <= b` scales to `a * c <= b * c` for a non-negative `c`. */
  lemma MulLe(a: int, b: int, c: int)
    requires a <= b && 0 <= c
    ensures a * c <= b * c
  {
    assert b * c == a * c + (b - a) * c;
  }

  /** `memcpy(dst + dOff, src + sOff, n)`. */
  method Memcpy(dst: array<Byte>, dOff: int, src: seq<Byte>, sOff: int, n: int)
    requires 0 <= n && 0 <= dOff && dOff + n <= dst.Length && 0 <= sOff && sOff + n <= |src|
    modifies dst
    ensures forall j :: 0 <= j < dst.Length ==> dst[j] == if dOff <= j < dOff + n then src[sOff + j - dOff] else old(dst[j])
  {
    var k := 0;
    while k < n
      invariant 0 <= k <= n
      invariant forall j :: 0 <= j < dst.Length ==> dst[j] == if dOff <= j < dOff + k then src[sOff + j - dOff] else old(dst[j])
    {
      dst[dOff + k] := src[sOff + k];
      k := k + 1;
    }
  }

  // ----- swapping red and blue -----

  /** One pixel with its components 0 and 2, of `unit` bytes each, exchanged. */
  function SwapPixel(px: seq<Byte>, unit: nat): (r: seq<Byte>)
    requires 3 * unit <= |px|
    ensures |r| == |px|
    ensures forall j :: 0 <= j < |px| ==>
      r[j] == if j < unit then px[j + 2 * unit] else if 2 * unit <= j < 3 * unit then px[j - 2 * unit] else px[j]
  {
    px[2 * unit..3 * unit] + px[unit..2 * unit] + px[..unit] + px[3 * unit..]
  }

  /** Exchanging twice restores the pixel. */
  lemma SwapPixelTwice(px: seq<Byte>, unit: nat)
    requires 3 * unit <= |px|
    ensures SwapPixel(SwapPixel(px, unit), unit) == px
  {
    var q := SwapPixel(px, unit);
    assert q[2 * unit..3 * unit] == px[..unit];
    assert q[unit..2 * unit] == px[unit..2 * unit];
    assert q[..unit] == px[2 * unit..3 * unit];
    assert q[3 * unit..] == px[3 * unit..];
    assert px == px[..unit] + px[unit..2 * unit] + px[2 * unit..3 * unit] + px[3 * unit..];
  }

  /** Every whole pixel of `s` with components 0 and 2 exchanged. */
  function SwapRedBlue(s: seq<Byte>, bpp: nat, unit: nat): (r: seq<Byte>)
    requires 3 * unit <= bpp && 0 < bpp
    ensures |r| == |s|
    decreases |s|
  {
    if |s| < bpp then s else SwapPixel(s[..bpp], unit) + SwapRedBlue(s[bpp..], bpp, unit)
  }

  /** Swapping red and blue twice restores the buffer. */
  lemma {:induction false} SwapRedBlueTwice(s: seq<Byte>, bpp: nat, unit: nat)
    requires 3 * unit <= bpp && 0 < bpp
    ensures SwapRedBlue(SwapRedBlue(s, bpp, unit), bpp, unit) == s
    decreases |s|
  {
    if |s| >= bpp {
      var t := SwapRedBlue(s, bpp, unit);
      assert t[..bpp] == SwapPixel(s[..bpp], unit);
      assert t[bpp..] == SwapRedBlue(s[bpp..], bpp, unit);
      SwapPixelTwice(s[..bpp], unit);
      SwapRedBlueTwice(s[bpp..], bpp, unit);
      assert s == s[..bpp] + s[bpp..];
    }
  }

  /** `n` bytes hold a whole number of pixels of `bpp` bytes. */
  predicate WholePixels(n: int, bpp: nat)
    requires 0 < bpp
    decreases n
  {
    n == 0 || (n >= bpp && WholePixels(n - bpp, bpp))
  }

  lemma {:induction false} WholePixelsOfCount(count: nat, bpp: nat)
    requires 0 < bpp
    ensures WholePixels(count * bpp, bpp)
  {
    if count > 0 {
      WholePixelsOfCount(count - 1, bpp);
      assert count * bpp - bpp == (count - 1) * bpp;
    }
  }

  lemma {:induction false} WholePixelsGrow(n: int, bpp: nat)
    requires 0 < bpp && WholePixels(n, bpp)
    ensures WholePixels(n + bpp, bpp)
    decreases n
  {
    if n > 0 {
      WholePixelsGrow(n - bpp, bpp);
    }
  }

  /** Swapping a buffer of whole pixels piece by piece. */
  lemma {:induction false} SwapRedBlueAppend(a: seq<Byte>, b: seq<Byte>, bpp: nat, unit: nat)
    requires 3 * unit <= bpp && 0 < bpp && WholePixels(|a|, bpp)
    ensures SwapRedBlue(a + b, bpp, unit) == SwapRedBlue(a, bpp, unit) + SwapRedBlue(b, bpp, unit)
    decreases |a|
  {
    if |a| == 0 {
      assert a + b == b;
    } else {
      assert (a + b)[..bpp] == a[..bpp];
      assert (a + b)[bpp..] == a[bpp..] + b;
      SwapRedBlueAppend(a[bpp..], b, bpp, unit);
    }
  }

  /** The buffer `t` with components 0 and 2 of the pixel at `i` exchanged. */
  function SwapOne(t: seq<Byte>, i: int, bpp: nat, unit: nat): (r: seq<Byte>)
    requires 0 <= i && i + bpp <= |t| && 3 * unit <= bpp
    ensures |r| == |t|
  {
    seq(|t|, k requires 0 <= k < |t| =>
      if i <= k < i + unit then t[k + 2 * unit]
      else if i + 2 * unit <= k < i + 3 * unit then t[k - 2 * unit]
      else t[k])
  }

  /** Exchanging the components of the pixel at `i` swaps that pixel and leaves the rest of the buffer alone. */
  lemma SwapOneIsSplice(t: seq<Byte>, i: int, bpp: nat, unit: nat)
    requires 0 <= i && i + bpp <= |t| && 3 * unit <= bpp
    ensures SwapOne(t, i, bpp, unit) == t[..i] + SwapPixel(t[i..i + bpp], unit) + t[i + bpp..]
  {
    var after := SwapOne(t, i, bpp, unit);
    assert after[..i] == t[..i];
    SwapOnePixel(t, i, bpp, unit);
    assert after[i + bpp..] == t[i + bpp..];
    assert after == after[..i] + after[i..i + bpp] + after[i + bpp..];
  }

  /** The pixel at `i` of `SwapOne` is that pixel swapped. */
  lemma SwapOnePixel(t: seq<Byte>, i: int, bpp: nat, unit: nat)
    requires 0 <= i && i + bpp <= |t| && 3 * unit <= bpp
    ensures SwapOne(t, i, bpp, unit)[i..i + bpp] == SwapPixel(t[i..i + bpp], unit)
  {
    var px := t[i..i + bpp];
    var swapped := SwapPixel(px, unit);
    var whole := SwapOne(t, i, bpp, unit);
    var part := whole[i..i + bpp];
    forall j | 0 <= j < bpp
      ensures part[j] == swapped[j]
    {
      assert part[j] == whole[i + j];
      if j < unit {
        assert whole[i + j] == t[i + j + 2 * unit] == px[j + 2 * unit];
        assert swapped[j] == px[j + 2 * unit];
      } else if 2 * unit <= j < 3 * unit {
        assert whole[i + j] == t[i + j - 2 * unit] == px[j - 2 * unit];
        assert swapped[j] == px[j - 2 * unit];
      } else {
        assert whole[i + j] == t[i + j] == px[j];
        assert swapped[j] == px[j];
      }
    }
    assert |part| == |swapped|;
  }

  /** The buffer `s` after the swapping loop has covered its first `n` bytes. */
  function SwapPrefix(s: seq<Byte>, n: int, bpp: nat, unit: nat): (r: seq<Byte>)
    requires 3 * unit <= bpp && 0 < bpp && WholePixels(n, bpp) && n <= |s|
    ensures |r| == |s|
    decreases n
  {
    if n == 0 then s else SwapOne(SwapPrefix(s, n - bpp, bpp, unit), n - bpp, bpp, unit)
  }

  /** A buffer of one pixel is swapped as that pixel. */
  lemma SwapRedBlueOnePixel(px: seq<Byte>, bpp: nat, unit: nat)
    requires 3 * unit <= bpp && 0 < bpp && |px| == bpp
    ensures SwapRedBlue(px, bpp, unit) == SwapPixel(px, unit)
  {
    assert px[..bpp] == px && px[bpp..] == [];
    assert SwapPixel(px, unit) + [] == SwapPixel(px, unit);
  }

  /** The parts of a concatenation are its slices at the seam. */
  lemma ConcatParts(s: seq<Byte>, a: seq<Byte>, b: seq<Byte>)
    requires s == a + b
    ensures s[..|a|] == a && s[|a|..] == b
  {
  }

  /** One turn of the swapping loop: the pixel at `i` joins the swapped prefix. */
  lemma SwapStep(o: seq<Byte>, before: seq<Byte>, after: seq<Byte>, i: nat, bpp: nat, unit: nat)
    requires 3 * unit <= bpp && 0 < bpp && WholePixels(i, bpp) && i + bpp <= |o|
    requires before == SwapRedBlue(o[..i], bpp, unit) + o[i..]
    requires after == before[..i] + SwapPixel(before[i..i + bpp], unit) + before[i + bpp..]
    ensures after == SwapRedBlue(o[..i + bpp], bpp, unit) + o[i + bpp..]
  {
    var head := o[..i];
    var px := o[i..i + bpp];
    var done := SwapRedBlue(head, bpp, unit);
    ConcatParts(before, done, o[i..]);
    assert before[i..i + bpp] == px;
    assert before[i + bpp..] == o[i + bpp..];
    SwapRedBlueAppend(head, px, bpp, unit);
    SwapRedBlueOnePixel(px, bpp, unit);
    assert o[..i + bpp] == head + px;
    assert SwapRedBlue(o[..i + bpp], bpp, unit) == done + SwapPixel(px, unit);
  }

  /** What the loop has done after `n` bytes: `SwapRedBlue` of those bytes, then the bytes not yet reached. */
  lemma {:induction false} SwapPrefixIsSwapRedBlue(s: seq<Byte>, n: int, bpp: nat, unit: nat)
    requires 3 * unit <= bpp && 0 < bpp && WholePixels(n, bpp) && n <= |s|
    ensures SwapPrefix(s, n, bpp, unit) == SwapRedBlue(s[..n], bpp, unit) + s[n..]
    decreases n
  {
    if n == 0 {
      assert s[..0] == [] && s[0..] == s;
      assert SwapRedBlue([], bpp, unit) + s == s;
    } else {
      var i := n - bpp;
      SwapPrefixIsSwapRedBlue(s, i, bpp, unit);
      var before := SwapPrefix(s, i, bpp, unit);
      SwapOneIsSplice(before, i, bpp, unit);
      SwapStep(s, before, SwapPrefix(s, n, bpp, unit), i, bpp, unit);
    }
  }

  /** A buffer of whole pixels that is not empty starts with a whole pixel. */
  lemma WholePixelsShrink(n: int, bpp: nat)
    requires 0 < bpp && WholePixels(n, bpp) && n != 0
    ensures bpp <= n && WholePixels(n - bpp, bpp)
  {
  }

  /**
   * One turn of the loop of `SwapRedBlueChannels`: component 0 into a
   * temporary, component 2 into its place, the temporary into component 2.
   */
  method SwapComponents(a: array<Byte>, i: nat, bpp: nat, unit: nat)
    requires 3 * unit <= bpp && i + bpp <= a.Length
    modifies a
    ensures a[..] == SwapOne(old(a[..]), i, bpp, unit)
  {
    ghost var o := a[..];
    var temp := a[i..i + unit];
    Memcpy(a, i, a[..], i + 2 * unit, unit);
    Memcpy(a, i + 2 * unit, temp, 0, unit);
    ghost var want := SwapOne(o, i, bpp, unit);
    forall k | 0 <= k < a.Length
      ensures a[k] == want[k]
    {
    }
    assert a[..] == want;
  }

  /** The loop of `SwapRedBlueChannels` over the `n` bytes of `a`, one pixel of `bpp` bytes per turn. */
  method SwapPixels(a: array<Byte>, n: int, bpp: nat, unit: nat)
    requires 3 * unit <= bpp && 0 < bpp && n == a.Length && WholePixels(n, bpp)
    modifies a
    ensures a[..] == SwapPrefix(old(a[..]), n, bpp, unit)
  {
    ghost var o := a[..];
    var i := 0;
    while i < n
      invariant 0 <= i <= n && WholePixels(i, bpp) && WholePixels(n - i, bpp)
      invariant a[..] == SwapPrefix(o, i, bpp, unit)
      decreases n - i
    {
      WholePixelsShrink(n - i, bpp);
      WholePixelsGrow(i, bpp);
      SwapNextPixel(a, i, bpp, unit, o);
      i := i + bpp;
    }
  }

  /** `SwapComponents` at the next pixel moves the loop on by one pixel. */
  method SwapNextPixel(a: array<Byte>, i: nat, bpp: nat, unit: nat, ghost o: seq<Byte>)
    requires 3 * unit <= bpp && 0 < bpp && i + bpp <= a.Length && |o| == a.Length && WholePixels(i + bpp, bpp)
    requires a[..] == SwapPrefix(o, i, bpp, unit)
    modifies a
    ensures a[..] == SwapPrefix(o, i + bpp, bpp, unit)
  {
    SwapComponents(a, i, bpp, unit);
  }

  /**
   * The loop of `SwapRedBlueChannels` as written, over `count` pixels of
   * `bpp` bytes with components of `unit` bytes: the end of the bytes it
   * reads and writes, component 2 of the last pixel.
   */
  function SwapReach(count: nat, bpp: nat, unit: nat): int
    requires 0 < count
  {
    (count - 1) * bpp + 3 * unit
  }

  /**
   * The loop as written stays inside a buffer of `count` pixels of format
   * `f` exactly when the format has at least three channels; with one or
   * two it reads and writes past the end.
   */
  lemma SwapReachPastBuffer(f: Format, count: nat)
    requires 0 < count
    ensures var bpp := Bpp(f) / 8; SwapReach(count, bpp, bpp / Channels(f)) > count * bpp <==> Channels(f) < 3
  {
    var bpp := Bpp(f) / 8;
    var unit := bpp / Channels(f);
    assert unit == ComponentBits(f) / 8 && bpp == Channels(f) * unit;
    assert (count - 1) * bpp == count * bpp - bpp;
  }

  // ----- block copies -----

  /** `d` with the bytes from `off` on replaced by `t`. */
  function Splice(d: seq<Byte>, off: int, t: seq<Byte>): (r: seq<Byte>)
    requires 0 <= off && off + |t| <= |d|
    ensures |r| == |d|
    ensures forall k :: 0 <= k < |d| ==> r[k] == if off <= k < off + |t| then t[k - off] else d[k]
  {
    seq(|d|, k requires 0 <= k < |d| => if off <= k < off + |t| then t[k - off] else d[k])
  }

  /** Where row `r` of a block starts in a buffer whose rows are `pitch` bytes apart. */
  function RowStart(base: int, pitch: int, r: int): int
  {
    base + r * pitch
  }

  /** The first `n` rows of `len` bytes lie inside a buffer of `size` bytes. */
  predicate RowsFit(size: int, base: int, pitch: int, len: int, n: int)
  {
    forall r :: 0 <= r < n ==> 0 <= RowStart(base, pitch, r) && RowStart(base, pitch, r) + len <= size
  }

  /** With rows in increasing order, the rows fit when the first starts in the buffer and the last ends in it. */
  lemma RowsFitByLast(size: int, base: int, pitch: int, len: int, n: int)
    requires 0 <= base && 0 <= pitch && 0 <= len
    requires n > 0 ==> RowStart(base, pitch, n - 1) + len <= size
    ensures RowsFit(size, base, pitch, len, n)
  {
    forall r | 0 <= r < n
      ensures 0 <= RowStart(base, pitch, r) && RowStart(base, pitch, r) + len <= size
    {
      MulLe(0, r, pitch);
      MulLe(r, n - 1, pitch);
    }
  }

  /**
   * The buffer `pix` after copying `n` rows of `len` bytes: row `r` of
   * `data`, starting at `RowStart(sBase, sPitch, r)`, goes to
   * `RowStart(dBase, dPitch, r)`, one row after the other.
   */
  function Blit(pix: seq<Byte>, data: seq<Byte>, dBase: int, dPitch: int, sBase: int, sPitch: int, len: int, n: nat): (r: seq<Byte>)
    requires 0 <= len && RowsFit(|pix|, dBase, dPitch, len, n) && RowsFit(|data|, sBase, sPitch, len, n)
    ensures |r| == |pix|
  {
    if n == 0 then pix
    else
      var s := RowStart(sBase, sPitch, n - 1);
      Splice(Blit(pix, data, dBase, dPitch, sBase, sPitch, len, n - 1), RowStart(dBase, dPitch, n - 1), data[s..s + len])
  }

  /** One more row: the next row of the data copied over the rows so far. */
  lemma BlitNext(pix: seq<Byte>, data: seq<Byte>, dBase: int, dPitch: int, sBase: int, sPitch: int, len: int, n: nat, dst: int, src: int)
    requires 0 <= len && RowsFit(|pix|, dBase, dPitch, len, n + 1) && RowsFit(|data|, sBase, sPitch, len, n + 1)
    requires dst == RowStart(dBase, dPitch, n) && src == RowStart(sBase, sPitch, n)
    ensures 0 <= dst && dst + len <= |pix| && 0 <= src && src + len <= |data|
    ensures Blit(pix, data, dBase, dPitch, sBase, sPitch, len, n + 1) ==
      Splice(Blit(pix, data, dBase, dPitch, sBase, sPitch, len, n), dst, data[src..src + len])
  {
  }

  /** `memcpy` of row `n` of a block copy: `Blit` grows by one row. */
  method CopyNextRow(a: array<Byte>, data: seq<Byte>, dst: int, src: int, len: int,
                     ghost pix: seq<Byte>, ghost dBase: int, ghost dPitch: int, ghost sBase: int, ghost sPitch: int, ghost n: nat)
    requires 0 <= len && |pix| == a.Length
    requires RowsFit(|pix|, dBase, dPitch, len, n + 1) && RowsFit(|data|, sBase, sPitch, len, n + 1)
    requires dst == RowStart(dBase, dPitch, n) && src == RowStart(sBase, sPitch, n)
    requires a[..] == Blit(pix, data, dBase, dPitch, sBase, sPitch, len, n)
    modifies a
    ensures a[..] == Blit(pix, data, dBase, dPitch, sBase, sPitch, len, n + 1)
  {
    BlitNext(pix, data, dBase, dPitch, sBase, sPitch, len, n, dst, src);
    Memcpy(a, dst, data, src, len);
    assert forall k :: 0 <= k < a.Length ==> a[..][k] == Splice(old(a[..]), dst, data[src..src + len])[k];
  }

  /** Row `r` ends where a later row `q` can start at the earliest, when rows are no longer than their pitch. */
  lemma RowBefore(base: int, pitch: int, len: int, r: int, q: int)
    requires 0 <= len <= pitch && r < q
    ensures RowStart(base, pitch, r) + len <= RowStart(base, pitch, q)
  {
    MulLe(r + 1, q, pitch);
    assert (r + 1) * pitch == r * pitch + pitch;
  }

  /** The last row copied holds the data's row. */
  lemma BlitLastRow(pix: seq<Byte>, data: seq<Byte>, dBase: int, dPitch: int, sBase: int, sPitch: int, len: int, n: nat, j: int)
    requires 0 <= len && RowsFit(|pix|, dBase, dPitch, len, n) && RowsFit(|data|, sBase, sPitch, len, n)
    requires 0 < n && 0 <= j < len
    ensures Blit(pix, data, dBase, dPitch, sBase, sPitch, len, n)[RowStart(dBase, dPitch, n - 1) + j] == data[RowStart(sBase, sPitch, n - 1) + j]
  {
    var s := RowStart(sBase, sPitch, n - 1);
    assert data[s..s + len][j] == data[s + j];
  }

  /** The bytes before the last row are those of the copy one row shorter. */
  lemma BlitBelowLastRow(pix: seq<Byte>, data: seq<Byte>, dBase: int, dPitch: int, sBase: int, sPitch: int, len: int, n: nat, k: int)
    requires 0 <= len && RowsFit(|pix|, dBase, dPitch, len, n) && RowsFit(|data|, sBase, sPitch, len, n)
    requires 0 < n && 0 <= k < RowStart(dBase, dPitch, n - 1)
    ensures Blit(pix, data, dBase, dPitch, sBase, sPitch, len, n)[k] == Blit(pix, data, dBase, dPitch, sBase, sPitch, len, n - 1)[k]
  {
  }

  /** Rows no longer than their pitch do not overlap: every copied row ends up in place. */
  lemma {:induction false} BlitRow(pix: seq<Byte>, data: seq<Byte>, dBase: int, dPitch: int, sBase: int, sPitch: int, len: int, n: nat, r: int, j: int)
    requires 0 <= len <= dPitch && RowsFit(|pix|, dBase, dPitch, len, n) && RowsFit(|data|, sBase, sPitch, len, n)
    requires 0 <= r < n && 0 <= j < len
    ensures Blit(pix, data, dBase, dPitch, sBase, sPitch, len, n)[RowStart(dBase, dPitch, r) + j] == data[RowStart(sBase, sPitch, r) + j]
  {
    if r == n - 1 {
      BlitLastRow(pix, data, dBase, dPitch, sBase, sPitch, len, n, j);
    } else {
      RowBefore(dBase, dPitch, len, r, n - 1);
      BlitBelowLastRow(pix, data, dBase, dPitch, sBase, sPitch, len, n, RowStart(dBase, dPitch, r) + j);
      BlitRow(pix, data, dBase, dPitch, sBase, sPitch, len, n - 1, r, j);
    }
  }

  /** A byte in none of the rows keeps its value. */
  lemma {:induction false} BlitOutside(pix: seq<Byte>, data: seq<Byte>, dBase: int, dPitch: int, sBase: int, sPitch: int, len: int, n: nat, k: int)
    requires 0 <= len && RowsFit(|pix|, dBase, dPitch, len, n) && RowsFit(|data|, sBase, sPitch, len, n)
    requires 0 <= k < |pix|
    requires forall r :: 0 <= r < n ==> !(RowStart(dBase, dPitch, r) <= k < RowStart(dBase, dPitch, r) + len)
    ensures Blit(pix, data, dBase, dPitch, sBase, sPitch, len, n)[k] == pix[k]
  {
    if n > 0 {
      BlitOutside(pix, data, dBase, dPitch, sBase, sPitch, len, n - 1, k);
    }
  }

  /** Byte `c` of pixel (`x`, `y`) in a row-major buffer `width` pixels wide. */
  function PixelByte(width: int, bpp: int, x: int, y: int, c: int): int
  {
    (y * width + x) * bpp + c
  }

  /** Moving `dx` pixels along a row moves `dx * bpp` bytes. */
  lemma PixelStep(width: int, bpp: int, x: int, y: int, dx: int, c: int)
    ensures PixelByte(width, bpp, x, y, 0) + dx * bpp + c == PixelByte(width, bpp, x + dx, y, c)
  {
    assert (y * width + x + dx) * bpp == (y * width + x) * bpp + dx * bpp;
  }

  /** The rows of a buffer `width` pixels wide are `width * bpp` bytes apart. */
  lemma PixelRows(width: int, bpp: int, x: int, y: int, c: int)
    ensures PixelByte(width, bpp, x, y, c) == RowStart(0, width * bpp, y) + x * bpp + c
  {
    assert (y * width + x) * bpp == y * (width * bpp) + x * bpp;
  }

  /** A byte of pixel `p` lies in the bytes of pixels `s` to `e` exactly when `p` does. */
  lemma PixelInRange(p: int, c: int, s: int, e: int, bpp: int)
    requires 0 <= c < bpp
    ensures s * bpp <= p * bpp + c < e * bpp <==> s <= p < e
  {
    if p < s {
      MulLe(p + 1, s, bpp);
    } else if p >= e {
      MulLe(e, p, bpp);
    } else {
      MulLe(s, p, bpp);
      MulLe(p + 1, e, bpp);
    }
  }

  /** Pixel (`x`, `y`) lies in the `w` pixels from column `ox` of row `row` exactly when it is one of them. */
  lemma RowColumn(x: int, y: int, row: int, ox: int, w: int, width: int)
    requires 0 <= x < width && 0 <= ox && ox + w <= width
    ensures row * width + ox <= y * width + x < row * width + ox + w <==> y == row && ox <= x < ox + w
  {
    if y < row {
      MulLe(y + 1, row, width);
    } else if y > row {
      MulLe(row + 1, y, width);
    }
  }

  /** Byte `c` of pixel (`x`, `y`) of a `width` by `height` image lies in its buffer. */
  lemma PixelByteInside(width: int, height: int, bpp: int, x: int, y: int, c: int)
    requires 0 <= x < width && 0 <= y < height && 0 <= c < bpp
    ensures 0 <= PixelByte(width, bpp, x, y, c) < width * height * bpp
  {
    MulLe(y + 1, height, width);
    MulLe(0, y, width);
    PixelInRange(y * width + x, c, 0, width * height, bpp);
  }

  /** A `w` by `h` block at (`ox`, `oy`) lies inside a `width` by `height` image. */
  predicate BlockInside(width: int, height: int, ox: int, oy: int, w: int, h: int)
  {
    0 <= ox && 0 <= oy && 0 <= w && 0 <= h && ox + w <= width && oy + h <= height
  }

  /** Row `r` of the block starts at its pixel (`ox`, `oy + r`). */
  lemma BlockRowStart(width: int, bpp: int, ox: int, oy: int, r: int)
    ensures RowStart((oy * width + ox) * bpp, width * bpp, r) == PixelByte(width, bpp, ox, oy + r, 0)
  {
    assert (oy * width + ox) * bpp + r * (width * bpp) == ((oy + r) * width + ox) * bpp;
  }

  /** The rows `SubData` writes lie in the image, and those it reads lie in the data. */
  lemma SubDataFits(size: int, dataSize: int, width: int, height: int, bpp: int, ox: int, oy: int, w: int, h: int)
    requires BlockInside(width, height, ox, oy, w, h) && 0 <= bpp && size == width * height * bpp && w * h * bpp <= dataSize
    ensures RowsFit(size, (oy * width + ox) * bpp, width * bpp, w * bpp, h)
    ensures RowsFit(dataSize, 0, w * bpp, w * bpp, h)
  {
    MulLe(0, oy * width + ox, bpp);
    MulLe(0, width, bpp);
    MulLe(0, w, bpp);
    if h > 0 {
      BlockRowStart(width, bpp, ox, oy, h - 1);
      MulLe((oy + h - 1) * width + ox + w, (oy + h) * width, bpp);
      MulLe(oy + h, height, width);
      MulLe((oy + h) * width, height * width, bpp);
      assert RowStart(0, w * bpp, h - 1) + w * bpp == w * h * bpp;
    }
    RowsFitByLast(size, (oy * width + ox) * bpp, width * bpp, w * bpp, h);
    RowsFitByLast(dataSize, 0, w * bpp, w * bpp, h);
  }

  /** The buffer `pix` of a `width` by `height` image after `SubData` of the `w` by `h` block `data` at (`ox`, `oy`). */
  function SubDataResult(pix: seq<Byte>, data: seq<Byte>, width: int, height: int, bpp: int, ox: int, oy: int, w: int, h: nat): (r: seq<Byte>)
    requires BlockInside(width, height, ox, oy, w, h) && 0 <= bpp && |pix| == width * height * bpp && w * h * bpp <= |data|
    ensures |r| == |pix|
  {
    SubDataFits(|pix|, |data|, width, height, bpp, ox, oy, w, h);
    Blit(pix, data, (oy * width + ox) * bpp, width * bpp, 0, w * bpp, w * bpp, h)
  }

  /** A pixel inside the block takes the block's pixel at the same place. */
  lemma SubDataInside(pix: seq<Byte>, data: seq<Byte>, width: int, height: int, bpp: int, ox: int, oy: int, w: int, h: nat,
                      x: int, y: int, c: int)
    requires BlockInside(width, height, ox, oy, w, h) && 0 <= bpp && |pix| == width * height * bpp && w * h * bpp <= |data|
    requires ox <= x < ox + w && oy <= y < oy + h && 0 <= c < bpp
    ensures 0 <= PixelByte(width, bpp, x, y, c) < |pix| && 0 <= PixelByte(w, bpp, x - ox, y - oy, c) < |data|
    ensures SubDataResult(pix, data, width, height, bpp, ox, oy, w, h)[PixelByte(width, bpp, x, y, c)] ==
      data[PixelByte(w, bpp, x - ox, y - oy, c)]
  {
    PixelByteInside(width, height, bpp, x, y, c);
    PixelByteInside(w, h, bpp, x - ox, y - oy, c);
    SubDataFits(|pix|, |data|, width, height, bpp, ox, oy, w, h);
    var base := (oy * width + ox) * bpp;
    var r := y - oy;
    var j := (x - ox) * bpp + c;
    PixelInRange(x - ox, c, 0, w, bpp);
    BlockRowStart(width, bpp, ox, oy, r);
    PixelStep(width, bpp, ox, y, x - ox, c);
    PixelRows(w, bpp, x - ox, r, c);
    MulLe(w, width, bpp);
    BlitRow(pix, data, base, width * bpp, 0, w * bpp, w * bpp, h, r, j);
  }

  /** A pixel outside the block keeps its bytes. */
  lemma SubDataOutside(pix: seq<Byte>, data: seq<Byte>, width: int, height: int, bpp: int, ox: int, oy: int, w: int, h: nat,
                       x: int, y: int, c: int)
    requires BlockInside(width, height, ox, oy, w, h) && 0 <= bpp && |pix| == width * height * bpp && w * h * bpp <= |data|
    requires 0 <= x < width && 0 <= y < height && 0 <= c < bpp
    requires !(oy <= y < oy + h && ox <= x < ox + w)
    ensures 0 <= PixelByte(width, bpp, x, y, c) < |pix|
    ensures SubDataResult(pix, data, width, height, bpp, ox, oy, w, h)[PixelByte(width, bpp, x, y, c)] == pix[PixelByte(width, bpp, x, y, c)]
  {
    PixelByteInside(width, height, bpp, x, y, c);
    SubDataFits(|pix|, |data|, width, height, bpp, ox, oy, w, h);
    var base := (oy * width + ox) * bpp;
    var k := PixelByte(width, bpp, x, y, c);
    forall r | 0 <= r < h
      ensures !(RowStart(base, width * bpp, r) <= k < RowStart(base, width * bpp, r) + w * bpp)
    {
      BlockRowStart(width, bpp, ox, oy, r);
      assert RowStart(base, width * bpp, r) + w * bpp == ((oy + r) * width + ox + w) * bpp;
      PixelInRange(y * width + x, c, (oy + r) * width + ox, (oy + r) * width + ox + w, bpp);
      RowColumn(x, y, oy + r, ox, w, width);
    }
    BlitOutside(pix, data, base, width * bpp, 0, w * bpp, w * bpp, h, k);
  }

  /** One byte of source alpha per pixel widened to four bytes: the colour's red, green and blue, then the alpha. */
  function Expand(alpha: seq<Byte>, r: Byte, g: Byte, b: Byte): (e: seq<Byte>)
    ensures |e| == 4 * |alpha|
  {
    seq(4 * |alpha|, k requires 0 <= k < 4 * |alpha| => ColoredByte(alpha, k, r, g, b))
  }

  /** Byte `k` of the widened alpha. */
  function ColoredByte(alpha: seq<Byte>, k: int, r: Byte, g: Byte, b: Byte): Byte
    requires 0 <= k < 4 * |alpha|
  {
    if k % 4 == 0 then r else if k % 4 == 1 then g else if k % 4 == 2 then b else alpha[k / 4]
  }

  /** Byte `c` of widened pixel `p`. */
  lemma ExpandAt(alpha: seq<Byte>, r: Byte, g: Byte, b: Byte, p: int, c: int)
    requires 0 <= p < |alpha| && 0 <= c < 4
    ensures Expand(alpha, r, g, b)[4 * p + c] == [r, g, b, alpha[p]][c]
  {
    assert (4 * p + c) % 4 == c && (4 * p + c) / 4 == p;
  }

  /** Widening a run of alpha bytes gives that run of the widened bytes. */
  lemma ExpandSlice(alpha: seq<Byte>, r: Byte, g: Byte, b: Byte, i: int, n: int)
    requires 0 <= i && 0 <= n && i + n <= |alpha|
    ensures Expand(alpha, r, g, b)[4 * i..4 * i + 4 * n] == Expand(alpha[i..i + n], r, g, b)
  {
    var whole := Expand(alpha, r, g, b)[4 * i..4 * i + 4 * n];
    var part := Expand(alpha[i..i + n], r, g, b);
    forall k | 0 <= k < 4 * n
      ensures whole[k] == part[k]
    {
      ExpandAt(alpha, r, g, b, i + k / 4, k % 4);
      ExpandAt(alpha[i..i + n], r, g, b, k / 4, k % 4);
    }
  }

  /**
   * `SubDataColored` in pixels: with four bytes per pixel, a pixel inside
   * the block becomes the colour with the block's alpha byte for that
   * place, and every other pixel keeps its bytes.
   */
  lemma SubDataColoredAt(pix: seq<Byte>, alpha: seq<Byte>, r: Byte, g: Byte, b: Byte,
                         width: int, height: int, ox: int, oy: int, w: int, h: nat, x: int, y: int, c: int)
    requires BlockInside(width, height, ox, oy, w, h) && |pix| == width * height * 4 && w * h <= |alpha|
    requires 0 <= x < width && 0 <= y < height && 0 <= c < 4
    ensures 0 <= PixelByte(width, 4, x, y, c) < |pix|
    ensures oy <= y < oy + h && ox <= x < ox + w ==> 0 <= (y - oy) * w + (x - ox) < |alpha|
    ensures SubDataResult(pix, Expand(alpha, r, g, b), width, height, 4, ox, oy, w, h)[PixelByte(width, 4, x, y, c)] ==
      if oy <= y < oy + h && ox <= x < ox + w then [r, g, b, alpha[(y - oy) * w + (x - ox)]][c]
      else pix[PixelByte(width, 4, x, y, c)]
  {
    var e := Expand(alpha, r, g, b);
    if oy <= y < oy + h && ox <= x < ox + w {
      PixelByteInside(w, h, 1, x - ox, y - oy, 0);
      SubDataInside(pix, e, width, height, 4, ox, oy, w, h, x, y, c);
      ExpandAt(alpha, r, g, b, (y - oy) * w + (x - ox), c);
    } else {
      SubDataOutside(pix, e, width, height, 4, ox, oy, w, h, x, y, c);
    }
  }

  /** The source rows `CopyData` reads lie in the data: the last one ends within it. */
  predicate CopyDataFits(dataSize: int, width: int, height: int, bpp: int, ox: int, oy: int, sourceWidth: int)
  {
    0 <= ox && 0 <= oy && 0 <= sourceWidth &&
    (height > 0 ==> PixelByte(sourceWidth, bpp, ox + width, oy + height - 1, 0) <= dataSize)
  }

  lemma CopyDataRows(size: int, dataSize: int, width: int, height: int, bpp: int, ox: int, oy: int, sourceWidth: int)
    requires 0 <= width && 0 <= height && 0 <= bpp && size == width * height * bpp
    requires CopyDataFits(dataSize, width, height, bpp, ox, oy, sourceWidth)
    ensures RowsFit(size, 0, width * bpp, width * bpp, height)
    ensures RowsFit(dataSize, (oy * sourceWidth + ox) * bpp, sourceWidth * bpp, width * bpp, height)
  {
    MulLe(0, width, bpp);
    MulLe(0, sourceWidth, bpp);
    MulLe(0, oy * sourceWidth + ox, bpp);
    if height > 0 {
      assert RowStart(0, width * bpp, height - 1) + width * bpp == width * height * bpp;
      BlockRowStart(sourceWidth, bpp, ox, oy, height - 1);
      assert RowStart((oy * sourceWidth + ox) * bpp, sourceWidth * bpp, height - 1) + width * bpp ==
        PixelByte(sourceWidth, bpp, ox + width, oy + height - 1, 0);
    }
    RowsFitByLast(size, 0, width * bpp, width * bpp, height);
    RowsFitByLast(dataSize, (oy * sourceWidth + ox) * bpp, sourceWidth * bpp, width * bpp, height);
  }

  /** The buffer `pix` of a `width` by `height` image after `CopyData` from (`ox`, `oy`) of an image `sourceWidth` wide. */
  function CopyDataResult(pix: seq<Byte>, data: seq<Byte>, width: int, height: nat, bpp: int, ox: int, oy: int, sourceWidth: int): (r: seq<Byte>)
    requires 0 <= width && 0 <= bpp && |pix| == width * height * bpp
    requires CopyDataFits(|data|, width, height, bpp, ox, oy, sourceWidth)
    ensures |r| == |pix|
  {
    CopyDataRows(|pix|, |data|, width, height, bpp, ox, oy, sourceWidth);
    Blit(pix, data, 0, width * bpp, (oy * sourceWidth + ox) * bpp, sourceWidth * bpp, width * bpp, height)
  }

  /** `CopyData` in pixels: every pixel becomes the source pixel at the same place relative to (`ox`, `oy`). */
  lemma CopyDataAt(pix: seq<Byte>, data: seq<Byte>, width: int, height: nat, bpp: int, ox: int, oy: int, sourceWidth: int,
                   x: int, y: int, c: int)
    requires 0 <= width && 0 <= bpp && |pix| == width * height * bpp
    requires CopyDataFits(|data|, width, height, bpp, ox, oy, sourceWidth)
    requires 0 <= x < width && 0 <= y < height && 0 <= c < bpp
    ensures 0 <= PixelByte(width, bpp, x, y, c) < |pix|
    ensures 0 <= PixelByte(sourceWidth, bpp, ox + x, oy + y, c) < |data|
    ensures CopyDataResult(pix, data, width, height, bpp, ox, oy, sourceWidth)[PixelByte(width, bpp, x, y, c)] ==
      data[PixelByte(sourceWidth, bpp, ox + x, oy + y, c)]
  {
    PixelByteInside(width, height, bpp, x, y, c);
    CopyDataRows(|pix|, |data|, width, height, bpp, ox, oy, sourceWidth);
    var j := x * bpp + c;
    PixelInRange(x, c, 0, width, bpp);
    PixelRows(width, bpp, x, y, c);
    BlockRowStart(sourceWidth, bpp, ox, oy, y);
    PixelStep(sourceWidth, bpp, ox, oy + y, x, c);
    BlitRow(pix, data, 0, width * bpp, (oy * sourceWidth + ox) * bpp, sourceWidth * bpp, width * bpp, height, y, j);
  }

  /** One pixel of `SubDataColored`: the colour, then the alpha byte. */
  method WritePixel(a: array<Byte>, dst: int, r: Byte, g: Byte, b: Byte, alpha: Byte)
    requires 0 <= dst && dst + 4 <= a.Length
    modifies a
    ensures forall k :: 0 <= k < a.Length ==> a[k] == if dst <= k < dst + 4 then [r, g, b, alpha][k - dst] else old(a[k])
  {
    a[dst] := r;
    a[dst + 1] := g;
    a[dst + 2] := b;
    a[dst + 3] := alpha;
  }

  /** Writing pixel `m` of a run extends the widened prefix of the run by one pixel. */
  lemma ColorStep(d: seq<Byte>, cur: seq<Byte>, next: seq<Byte>, base: int, run: seq<Byte>, m: int, r: Byte, g: Byte, b: Byte)
    requires 0 <= base && 0 <= m < |run| && base + 4 * |run| <= |d|
    requires cur == Splice(d, base, Expand(run[..m], r, g, b))
    requires |next| == |cur|
    requires forall k {:trigger next[k]} :: 0 <= k < |next| ==>
      next[k] == if base + 4 * m <= k < base + 4 * m + 4 then [r, g, b, run[m]][k - base - 4 * m] else cur[k]
    ensures next == Splice(d, base, Expand(run[..m + 1], r, g, b))
  {
    var longer := Expand(run[..m + 1], r, g, b);
    var shorter := Expand(run[..m], r, g, b);
    var target := Splice(d, base, longer);
    forall k | 0 <= k < |next|
      ensures next[k] == target[k]
    {
      if base <= k < base + 4 * m {
        var j := k - base;
        ExpandAt(run[..m + 1], r, g, b, j / 4, j % 4);
        ExpandAt(run[..m], r, g, b, j / 4, j % 4);
        assert longer[j] == shorter[j];
      } else if base + 4 * m <= k < base + 4 * m + 4 {
        ExpandAt(run[..m + 1], r, g, b, m, k - base - 4 * m);
      }
    }
  }

  /** `WritePixel` at pixel `m` of a run: the widened prefix of the run grows by one pixel. */
  method ColorNextPixel(a: array<Byte>, dst: int, r: Byte, g: Byte, b: Byte, alpha: Byte,
                        ghost d: seq<Byte>, ghost base: int, ghost run: seq<Byte>, ghost m: int)
    requires 0 <= base && 0 <= m < |run| && base + 4 * |run| <= |d| && |d| == a.Length
    requires dst == base + 4 * m && alpha == run[m]
    requires a[..] == Splice(d, base, Expand(run[..m], r, g, b))
    modifies a
    ensures a[..] == Splice(d, base, Expand(run[..m + 1], r, g, b))
  {
    WritePixel(a, dst, r, g, b, alpha);
    ColorStep(d, old(a[..]), a[..], base, run, m, r, g, b);
  }

  /**
   * The inner loop of `SubDataColored`: pixels `ox` to `maxX` of row `y`
   * get the colour and one alpha byte each, read on from `src`.
   */
  method ColorRow(a: array<Byte>, width: int, y: int, ox: int, maxX: int, alpha: seq<Byte>, src: int, r: Byte, g: Byte, b: Byte)
    returns (next: int)
    requires 0 <= ox <= maxX && 0 <= src && src + (maxX - ox) <= |alpha|
    requires 0 <= (y * width + ox) * 4 && (y * width + maxX) * 4 <= a.Length
    modifies a
    ensures next == src + (maxX - ox)
    ensures a[..] == Splice(old(a[..]), (y * width + ox) * 4, Expand(alpha[src..next], r, g, b))
  {
    ghost var base := (y * width + ox) * 4;
    ghost var run := alpha[src..src + (maxX - ox)];
    next := src;
    var x := ox;
    assert run[..0] == [];
    while x < maxX
      invariant ox <= x <= maxX && next == src + (x - ox)
      invariant a[..] == Splice(old(a[..]), base, Expand(run[..x - ox], r, g, b))
    {
      var dst := (y * width + x) * 4;
      ColorNextPixel(a, dst, r, g, b, alpha[next], old(a[..]), base, run, x - ox);
      next := next + 1;
      x := x + 1;
    }
    assert run[..x - ox] == run;
  }

  /** The pixels of row `n` of a `SubDataColored` block: `Blit` of the widened alpha grows by one row. */
  method ColorNextRow(a: array<Byte>, width: int, y: int, ox: int, maxX: int, alpha: seq<Byte>, src: int, r: Byte, g: Byte, b: Byte,
                      ghost pix: seq<Byte>, ghost dBase: int, ghost w: int, ghost n: nat)
    returns (next: int)
    requires 0 <= ox && maxX == ox + w && 0 <= w && |pix| == a.Length
    requires RowsFit(|pix|, dBase, width * 4, w * 4, n + 1) && RowsFit(4 * |alpha|, 0, w * 4, w * 4, n + 1)
    requires RowStart(dBase, width * 4, n) == (y * width + ox) * 4 && src == n * w
    requires a[..] == Blit(pix, Expand(alpha, r, g, b), dBase, width * 4, 0, w * 4, w * 4, n)
    modifies a
    ensures next == src + w
    ensures a[..] == Blit(pix, Expand(alpha, r, g, b), dBase, width * 4, 0, w * 4, w * 4, n + 1)
  {
    ghost var e := Expand(alpha, r, g, b);
    ghost var before := a[..];
    assert RowStart(0, w * 4, n) == 4 * src;
    ExpandSlice(alpha, r, g, b, src, w);
    ghost var row := Expand(alpha[src..src + w], r, g, b);
    assert e[4 * src..4 * src + w * 4] == row;
    BlitNext(pix, e, dBase, width * 4, 0, w * 4, w * 4, n, (y * width + ox) * 4, 4 * src);
    assert Blit(pix, e, dBase, width * 4, 0, w * 4, w * 4, n + 1) == Splice(before, (y * width + ox) * 4, row);
    next := ColorRow(a, width, y, ox, maxX, alpha, src, r, g, b);
    assert alpha[src..next] == alpha[src..src + w];
    assert a[..] == Splice(before, (y * width + ox) * 4, row);
  }

  /** The row loop of `CopyData` on the buffer `a`. */
  method CopyDataInto(a: array<Byte>, width: int, height: int, bpp: int, ox: int, oy: int, sourceWidth: int, data: seq<Byte>)
    requires 0 <= width && 0 <= height && 0 <= bpp
    requires RowsFit(a.Length, 0, width * bpp, width * bpp, height)
    requires RowsFit(|data|, (oy * sourceWidth + ox) * bpp, sourceWidth * bpp, width * bpp, height)
    modifies a
    ensures a[..] == Blit(old(a[..]), data, 0, width * bpp, (oy * sourceWidth + ox) * bpp, sourceWidth * bpp, width * bpp, height)
  {
    ghost var sBase := (oy * sourceWidth + ox) * bpp;
    var y := 0;
    while y < height
      invariant 0 <= y <= height
      invariant a[..] == Blit(old(a[..]), data, 0, width * bpp, sBase, sourceWidth * bpp, width * bpp, y)
    {
      CopyDataRow(a, width, bpp, ox, oy, sourceWidth, data, y, old(a[..]), height);
      y := y + 1;
    }
  }

  /** Row `y` of `CopyData`: `width` pixels from row `y + oy` of the source, from column `ox` on. */
  method CopyDataRow(a: array<Byte>, width: int, bpp: int, ox: int, oy: int, sourceWidth: int, data: seq<Byte>, y: nat,
                     ghost pix: seq<Byte>, ghost height: int)
    requires 0 <= width && 0 <= bpp && y < height && |pix| == a.Length
    requires RowsFit(a.Length, 0, width * bpp, width * bpp, height)
    requires RowsFit(|data|, (oy * sourceWidth + ox) * bpp, sourceWidth * bpp, width * bpp, height)
    requires a[..] == Blit(pix, data, 0, width * bpp, (oy * sourceWidth + ox) * bpp, sourceWidth * bpp, width * bpp, y)
    modifies a
    ensures a[..] == Blit(pix, data, 0, width * bpp, (oy * sourceWidth + ox) * bpp, sourceWidth * bpp, width * bpp, y + 1)
  {
    var src := ((y + oy) * sourceWidth + ox) * bpp;
    var dst := (y * width) * bpp;
    BlockRowStart(sourceWidth, bpp, ox, oy, y);
    PixelRows(width, bpp, 0, y, 0);
    MulLe(0, width, bpp);
    CopyNextRow(a, data, dst, src, width * bpp, pix, 0, width * bpp, (oy * sourceWidth + ox) * bpp, sourceWidth * bpp, y);
  }

  /** The row loop of `SubData` on the buffer `a`. */
  method SubDataInto(a: array<Byte>, width: int, bpp: int, ox: int, oy: int, w: int, h: int, data: seq<Byte>)
    requires 0 <= w && 0 <= h && 0 <= bpp
    requires RowsFit(a.Length, (oy * width + ox) * bpp, width * bpp, w * bpp, h)
    requires RowsFit(|data|, 0, w * bpp, w * bpp, h)
    modifies a
    ensures a[..] == Blit(old(a[..]), data, (oy * width + ox) * bpp, width * bpp, 0, w * bpp, w * bpp, h)
  {
    ghost var dBase := (oy * width + ox) * bpp;
    var y := 0;
    while y < h
      invariant 0 <= y <= h
      invariant a[..] == Blit(old(a[..]), data, dBase, width * bpp, 0, w * bpp, w * bpp, y)
    {
      SubDataRow(a, width, bpp, ox, oy, w, data, y, old(a[..]), h);
      y := y + 1;
    }
  }

  /** Row `y` of `SubData`: row `y` of the block, at column `ox` of row `y + oy` of the image. */
  method SubDataRow(a: array<Byte>, width: int, bpp: int, ox: int, oy: int, w: int, data: seq<Byte>, y: nat,
                    ghost pix: seq<Byte>, ghost h: int)
    requires 0 <= w && 0 <= bpp && y < h && |pix| == a.Length
    requires RowsFit(a.Length, (oy * width + ox) * bpp, width * bpp, w * bpp, h)
    requires RowsFit(|data|, 0, w * bpp, w * bpp, h)
    requires a[..] == Blit(pix, data, (oy * width + ox) * bpp, width * bpp, 0, w * bpp, w * bpp, y)
    modifies a
    ensures a[..] == Blit(pix, data, (oy * width + ox) * bpp, width * bpp, 0, w * bpp, w * bpp, y + 1)
  {
    var dst := ((y + oy) * width + ox) * bpp;
    var src := (y * w) * bpp;
    BlockRowStart(width, bpp, ox, oy, y);
    PixelRows(w, bpp, 0, y, 0);
    MulLe(0, w, bpp);
    CopyNextRow(a, data, dst, src, w * bpp, pix, (oy * width + ox) * bpp, width * bpp, 0, w * bpp, y);
  }

  /** The row loop of `SubDataColored` on the buffer `a` of four bytes per pixel. */
  method SubDataColoredInto(a: array<Byte>, width: int, ox: int, oy: int, w: int, h: int, alpha: seq<Byte>, r: Byte, g: Byte, b: Byte)
    requires 0 <= ox && 0 <= w && 0 <= h
    requires RowsFit(a.Length, (oy * width + ox) * 4, width * 4, w * 4, h)
    requires RowsFit(4 * |alpha|, 0, w * 4, w * 4, h)
    modifies a
    ensures a[..] == Blit(old(a[..]), Expand(alpha, r, g, b), (oy * width + ox) * 4, width * 4, 0, w * 4, w * 4, h)
  {
    ghost var dBase := (oy * width + ox) * 4;
    var maxX := ox + w;
    var maxY := oy + h;
    var src := 0;
    var y := oy;
    ghost var n: nat := 0;
    while y < maxY
      invariant oy <= y <= maxY && n == y - oy && src == n * w
      invariant a[..] == Blit(old(a[..]), Expand(alpha, r, g, b), dBase, width * 4, 0, w * 4, w * 4, n)
    {
      BlockRowStart(width, 4, ox, oy, n);
      src := ColorNextRow(a, width, y, ox, maxX, alpha, src, r, g, b, old(a[..]), dBase, w, n);
      assert src == (n + 1) * w;
      y := y + 1;
      n := n + 1;
    }
    assert n == h;
  }

  // ----- the image -----

  /**
   * `memcpy` of a whole buffer from `src`: a read past the end of `src`
   * gets what `beyond` says lies there.
   */
  method ReadPast(dst: array<Byte>, src: seq<Byte>, beyond: nat -> Byte) returns (overRead: bool)
    modifies dst
    ensures overRead <==> |src| < dst.Length
    ensures forall k :: 0 <= k < dst.Length ==> dst[k] == if k < |src| then src[k] else beyond(k - |src|)
  {
    if dst.Length <= |src| {
      Memcpy(dst, 0, src, 0, dst.Length);
      overRead := false;
    } else {
      var past := seq(dst.Length - |src|, k requires 0 <= k => beyond(k));
      assert forall k :: |src| <= k < dst.Length ==> (src + past)[k] == beyond(k - |src|);
      Memcpy(dst, 0, src + past, 0, dst.Length);
      overRead := true;
    }
  }

  class Image {
    var pixels: array?<Byte>
    var format: Format
    /** `data_type_`, whose enumeration is not part of this model. */
    var dataType: int
    var width: int
    var height: int
    var channels: int
    /** Bytes per pixel. */
    var bpp: int
    var invertedRowOrder: bool

    /** A buffer of `width * height` pixels laid out for `format`. */
    ghost predicate Valid()
      reads this
    {
      && pixels != null
      && 0 <= width && 0 <= height
      && bpp == Bpp(format) / 8 && channels == Channels(format)
      && pixels.Length == width * height * bpp
    }

    /** `Image()`: no buffer yet, rows stored bottom-up. */
    constructor ()
      ensures pixels == null && invertedRowOrder
    {
      pixels := null;
      format := RGBA8;
      dataType := 0;
      width, height, channels, bpp := 0, 0, 0, 0;
      invertedRowOrder := true;
    }

    /** `Image(const Image&)`: the same description and a fresh copy of the pixels. */
    constructor Copied(other: Image)
      requires other.Valid()
      ensures Valid() && fresh(pixels) && pixels[..] == other.pixels[..]
      ensures format == other.format && dataType == other.dataType && width == other.width && height == other.height
      ensures channels == other.channels && bpp == other.bpp && invertedRowOrder == other.invertedRowOrder
    {
      format, dataType := other.format, other.dataType;
      width, height := other.width, other.height;
      channels, bpp := other.channels, other.bpp;
      invertedRowOrder := other.invertedRowOrder;
      var size := other.width * other.height * other.bpp;
      var buffer := new Byte[size](_ => 0);
      Memcpy(buffer, 0, other.pixels[..], 0, size);
      pixels := buffer;
    }

    /** `SetRowOrder`. */
    method SetRowOrder(inverted: bool)
      modifies this
      ensures invertedRowOrder == inverted
      ensures pixels == old(pixels) && format == old(format) && dataType == old(dataType)
      ensures width == old(width) && height == old(height) && channels == old(channels) && bpp == old(bpp)
    {
      invertedRowOrder := inverted;
    }

    /**
     * `Allocate`: the description of a `w` by `h` image of format `fmt` and a
     * new buffer of its size, whose contents are not specified.
     */
    method Allocate(w: int, h: int, fmt: Format) returns (p: array<Byte>)
      requires 0 <= w && 0 <= h
      modifies this
      ensures width == w && height == h && format == fmt
      ensures bpp == Bpp(fmt) / 8 && channels == Channels(fmt) && p == pixels && fresh(p)
      ensures dataType == old(dataType) && invertedRowOrder == old(invertedRowOrder)
      ensures Valid()
    {
      width := w;
      height := h;
      format := fmt;
      var bits := Bpp(fmt);
      bpp := bits / 8;
      channels := Channels(fmt);
      p := new Byte[width * height * bpp](_ => 0);
      pixels := p;
    }

    /** `FillWithZeroes`. */
    method FillWithZeroes()
      requires Valid()
      modifies pixels
      ensures forall k :: 0 <= k < pixels.Length ==> pixels[k] == 0
    {
      var k := 0;
      while k < width * height * bpp
        invariant 0 <= k <= pixels.Length
        invariant forall j :: 0 <= j < k ==> pixels[j] == 0
      {
        pixels[k] := 0;
        k := k + 1;
      }
    }

    /**
     * `SwapRedBlueChannels`: components 0 and 2 of every pixel change
     * places, through a temporary copy of one component.  A format with
     * fewer than three channels has no component 2, and the image is left
     * as it is (see `SwapReachPastBuffer` for the loop as written).
     */
    method SwapRedBlueChannels()
      requires Valid()
      modifies pixels
      ensures channels >= 3 ==> pixels[..] == SwapRedBlue(old(pixels[..]), bpp, bpp / channels)
      ensures channels < 3 ==> pixels[..] == old(pixels[..])
    {
      if channels < 3 {
        return;
      }
      var unit := bpp / channels;
      assert unit == ComponentBits(format) / 8;
      WholePixelsOfCount(width * height, bpp);
      SwapPixels(pixels, width * height * bpp, bpp, unit);
      SwapPrefixIsSwapRedBlue(old(pixels[..]), pixels.Length, bpp, unit);
      assert old(pixels[..])[..pixels.Length] == old(pixels[..]) && old(pixels[..])[pixels.Length..] == [];
    }

    /**
     * `CopyData`: every row of this image is read from the image `data`,
     * `sourceWidth` pixels wide and of the same pixel size, starting at its
     * pixel (`ox`, `oy`).
     */
    method CopyData(ox: int, oy: int, sourceWidth: int, data: seq<Byte>)
      requires Valid() && CopyDataFits(|data|, width, height, bpp, ox, oy, sourceWidth)
      modifies pixels
      ensures pixels[..] == CopyDataResult(old(pixels[..]), data, width, height, bpp, ox, oy, sourceWidth)
    {
      CopyDataRows(pixels.Length, |data|, width, height, bpp, ox, oy, sourceWidth);
      CopyDataInto(pixels, width, height, bpp, ox, oy, sourceWidth, data);
    }

    /**
     * `SubData`: the `w` by `h` block `data`, of the same pixel size, is
     * written row by row into this image at pixel (`ox`, `oy`).
     */
    method SubData(ox: int, oy: int, w: int, h: int, data: seq<Byte>)
      requires Valid() && BlockInside(width, height, ox, oy, w, h) && w * h * bpp <= |data|
      modifies pixels
      ensures pixels[..] == SubDataResult(old(pixels[..]), data, width, height, bpp, ox, oy, w, h)
    {
      SubDataFits(pixels.Length, |data|, width, height, bpp, ox, oy, w, h);
      SubDataInto(pixels, width, bpp, ox, oy, w, h, data);
    }

    /**
     * `SubDataColored`: on an image of four bytes per pixel, each pixel of
     * the `w` by `h` block at (`ox`, `oy`) becomes the colour (`r`, `g`,
     * `b`) with the next byte of `alpha` as its alpha.
     */
    method SubDataColored(ox: int, oy: int, w: int, h: int, alpha: seq<Byte>, r: Byte, g: Byte, b: Byte)
      requires Valid() && bpp == 4 && BlockInside(width, height, ox, oy, w, h) && w * h <= |alpha|
      modifies pixels
      ensures pixels[..] == SubDataResult(old(pixels[..]), Expand(alpha, r, g, b), width, height, 4, ox, oy, w, h)
    {
      SubDataFits(pixels.Length, |Expand(alpha, r, g, b)|, width, height, 4, ox, oy, w, h);
      SubDataColoredInto(pixels, width, ox, oy, w, h, alpha, r, g, b);
    }

    /**
     * `Copy` as written.  The buffer is reallocated with this image's own
     * size, `width * height * bpp` before the other image's description
     * replaces it, and then that many bytes are read from the other image's
     * buffer.  A fresh allocation holds whatever `fill` says; a read past the
     * end of the other image's buffer gets whatever `beyond` says lies
     * there, and `overRead` tells whether that happened.  Copying an image
     * onto itself reads its new buffer, the old pixels being freed already.
     */
    method CopyAsWritten(other: Image, fill: nat -> Byte, beyond: nat -> Byte) returns (overRead: bool)
      requires Valid() && other.Valid()
      modifies this
      ensures fresh(pixels) && pixels.Length == old(width * height * bpp)
      ensures overRead <==> other != this && old(other.pixels.Length) < pixels.Length
      ensures forall k :: 0 <= k < pixels.Length ==>
        pixels[k] == if other == this then fill(k)
                     else if k < old(other.pixels.Length) then old(other.pixels[k])
                     else beyond(k - old(other.pixels.Length))
      ensures format == old(other.format) && dataType == old(other.dataType) && width == old(other.width) && height == old(other.height)
      ensures channels == old(other.channels) && bpp == old(other.bpp) && invertedRowOrder == old(other.invertedRowOrder)
    {
      var size := width * height * bpp;
      var buffer := new Byte[size](k => fill(k));
      pixels := buffer;
      overRead := ReadPast(pixels, other.pixels[..], beyond);
      format, dataType := other.format, other.dataType;
      width, height := other.width, other.height;
      channels, bpp := other.channels, other.bpp;
      invertedRowOrder := other.invertedRowOrder;
    }

    /**
     * `Copy` sized by the other image: afterwards this image is a copy of
     * it.  Copying an image onto itself changes nothing.
     */
    method Copy(other: Image)
      requires other.Valid()
      modifies this
      ensures Valid() && pixels[..] == other.pixels[..]
      ensures format == other.format && dataType == other.dataType && width == other.width && height == other.height
      ensures channels == other.channels && bpp == other.bpp && invertedRowOrder == other.invertedRowOrder
      ensures other != this ==> fresh(pixels) && unchanged(other)
      ensures other == this ==> unchanged(this)
    {
      if other == this {
        return;
      }
      var size := other.width * other.height * other.bpp;
      var buffer := new Byte[size](_ => 0);
      Memcpy(buffer, 0, other.pixels[..], 0, size);
      pixels := buffer;
      format, dataType := other.format, other.dataType;
      width, height := other.width, other.height;
      channels, bpp := other.channels, other.bpp;
      invertedRowOrder := other.invertedRowOrder;
    }
  }

  /**
   * Copying a 2 by 2 image into a 1 by 1 image as written leaves a buffer of
   * one pixel under a description of four.
   */
  method CopyShrinksBuffer() returns (bufferBytes: int, describedBytes: int)
    ensures bufferBytes == 4 && describedBytes == 16
  {
    var small := new Image();
    var _ := small.Allocate(1, 1, RGBA8);
    var large := new Image();
    var _ := large.Allocate(2, 2, RGBA8);
    var _ := small.CopyAsWritten(large, _ => 0, _ => 0);
    bufferBytes, describedBytes := small.pixels.Length, small.width * small.height * small.bpp;
  }

  /**
   * Copying a 1 by 1 image into a 2 by 2 image as written reads 16 bytes
   * from a buffer of 4: the last 12 bytes come from past its end.
   */
  method CopyOverReads() returns (overRead: bool, sourceBytes: int, readBytes: int)
    ensures overRead && sourceBytes == 4 && readBytes == 16
  {
    var small := new Image();
    var _ := small.Allocate(1, 1, RGBA8);
    var large := new Image();
    var _ := large.Allocate(2, 2, RGBA8);
    overRead := large.CopyAsWritten(small, _ => 0, _ => 0);
    sourceBytes, readBytes := small.pixels.Length, large.pixels.Length;
  }

  /**
   * Copying an image onto itself as written loses its pixels: a one-byte
   * image holding 7 ends up holding what the new allocation held, here 0.
   */
  method CopySelfLosesPixels() returns (before: Byte, after: Byte)
    ensures before == 7 && after == 0
  {
    var img := new Image();
    var p := img.Allocate(1, 1, L8);
    p[0] := 7;
    before := img.pixels[0];
    var _ := img.CopyAsWritten(img, _ => 0, _ => 1);
    after := img.pixels[0];
  }

  /** Copying an image onto itself, as intended, keeps its pixels. */
  method CopySelfKeepsPixels() returns (before: Byte, after: Byte)
    ensures before == 7 && after == 7
  {
    var img := new Image();
    var p := img.Allocate(1, 1, L8);
    p[0] := 7;
    before := img.pixels[0];
    img.Copy(img);
    after := img.pixels[0];
  }
}
