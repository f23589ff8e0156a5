/** The pixel packing step of `preprocessImage` (MainActivity.kt, lines 147-163).

    The bitmap has already been resized to `InputSize` x `InputSize` by the
    platform; the model takes that grid of 32-bit ARGB pixels (`getPixel(x, y)` is
    `image[y][x]`) and lays out one red, one green and one blue byte per pixel,
    rows top to bottom and, inside a row, columns left to right.  The alpha byte
    is dropped.
 */
module Preprocessing {
  import opened Kotlin

  /** Side length of the square image the classifier takes. */
  const InputSize: nat := 192

  /** Capacity of the input buffer: batch 1, InputSize x InputSize pixels, 3 channels. */
  const BufferSize: nat := 1 * InputSize * InputSize * 3

  /** A Kotlin `Int` holding a packed ARGB colour, as `Bitmap.getPixel` returns it. */
  type Pixel = bv32

  /** Kotlin's `shr` on `Int`: an arithmetic shift, which copies the sign bit
      into the vacated high bits. */
  function Shr(p: Pixel, n: bv32): (r: Pixel)
    requires n < 32
    ensures r & 0x8000_0000 == p & 0x8000_0000
    ensures p & 0x8000_0000 == 0 ==> r == p >> n
    ensures p & 0x8000_0000 != 0 ==> r == (p >> n) | !(0xFFFF_FFFF >> n)
  {
    if p & 0x8000_0000 == 0 then p >> n else !((!p) >> n)
  }

  /** `(pixel shr n and 0xFF).toByte()`: the eight bits starting at bit n. */
  function Extract8(p: Pixel, n: bv32): (b: Byte)
    requires n <= 16
    ensures b as bv32 == (p >> n) & 0xFF
  {
    (Shr(p, n) & 0xFF) as Byte
  }

  function Red(p: Pixel): Byte { Extract8(p, 16) }

  function Green(p: Pixel): Byte { Extract8(p, 8) }

  function Blue(p: Pixel): Byte { Extract8(p, 0) }

  /** Channel c of a pixel in buffer order: 0 red, 1 green, 2 blue. */
  function Channel(p: Pixel, c: nat): Byte
    requires c < 3
  {
    if c == 0 then Red(p) else if c == 1 then Green(p) else Blue(p)
  }

  /** The three bytes one pixel contributes to the buffer. */
  function Rgb(p: Pixel): (t: seq<Byte>)
    ensures |t| == 3
    ensures forall c :: 0 <= c < 3 ==> t[c] == Channel(p, c)
  {
    [Red(p), Green(p), Blue(p)]
  }

  /** The colour part of a pixel: everything except the alpha byte. */
  function ColourBits(p: Pixel): bv32 {
    p & 0x00FF_FFFF
  }

  /** A colour rebuilt from its three channels (alpha zero). */
  function FromRgb(r: Byte, g: Byte, b: Byte): Pixel {
    (r as bv32 << 16) | (g as bv32 << 8) | b as bv32
  }

  /** A pixel's channels determine exactly its colour bits and nothing else:
      packing a pixel and rebuilding it loses only the alpha byte. */
  lemma RgbRoundTrip(p: Pixel)
    ensures FromRgb(Red(p), Green(p), Blue(p)) == ColourBits(p)
  {
  }

  /** Two pixels give the same three bytes exactly when their colour bits agree. */
  lemma RgbDeterminesColour(p: Pixel, q: Pixel)
    ensures Rgb(p) == Rgb(q) <==> ColourBits(p) == ColourBits(q)
  {
    if Rgb(p) == Rgb(q) {
      RgbRoundTrip(p);
      RgbRoundTrip(q);
      assert Red(p) == Red(q) && Green(p) == Green(q) && Blue(p) == Blue(q) by {
        assert Rgb(p)[0] == Rgb(q)[0] && Rgb(p)[1] == Rgb(q)[1] && Rgb(p)[2] == Rgb(q)[2];
      }
    }
  }

  /** A grid of n rows of n pixels each. */
  predicate IsSquare(image: seq<seq<Pixel>>, n: nat) {
    |image| == n && forall y :: 0 <= y < n ==> |image[y]| == n
  }

  /** The bytes of one row, pixel after pixel. */
  function PackRow(row: seq<Pixel>): (bytes: seq<Byte>)
    ensures |bytes| == 3 * |row|
  {
    if row == [] then [] else PackRow(row[..|row| - 1]) + Rgb(row[|row| - 1])
  }

  /** The number of pixels in a sequence of rows. */
  function PixelCount(rows: seq<seq<Pixel>>): nat
  {
    if rows == [] then 0 else PixelCount(rows[..|rows| - 1]) + |rows[|rows| - 1]|
  }

  /** The bytes of a sequence of rows, row after row. */
  function Pack(rows: seq<seq<Pixel>>): (bytes: seq<Byte>)
    ensures |bytes| == 3 * PixelCount(rows)
  {
    if rows == [] then [] else Pack(rows[..|rows| - 1]) + PackRow(rows[|rows| - 1])
  }

  /** Where channel c of pixel (x, y) of an n-wide image goes in the buffer. */
  function Offset(n: nat, y: nat, x: nat, c: nat): nat {
    3 * (y * n + x) + c
  }

  /** The layout the classifier expects, stated pointwise: the buffer holds
      3 n^2 bytes and pixel (x, y) occupies offsets 3 (y n + x) .. 3 (y n + x) + 2,
      red first. */
  ghost predicate LaidOut(buf: seq<Byte>, image: seq<seq<Pixel>>, n: nat)
    requires IsSquare(image, n)
  {
    && |buf| == 3 * n * n
    && forall y, x, c :: 0 <= y < n && 0 <= x < n && 0 <= c < 3 ==>
         Offset(n, y, x, c) < |buf| && buf[Offset(n, y, x, c)] == Channel(image[y][x], c)
  }

  lemma {:induction false} PackRowAt(row: seq<Pixel>, x: nat, c: nat)
    requires x < |row| && c < 3
    ensures PackRow(row)[3 * x + c] == Channel(row[x], c)
  {
    var last := |row| - 1;
    if x < last {
      PackRowAt(row[..last], x, c);
      assert row[..last][x] == row[x];
    }
  }

  lemma {:induction false} PackLength(rows: seq<seq<Pixel>>, n: nat)
    requires forall y :: 0 <= y < |rows| ==> |rows[y]| == n
    ensures |Pack(rows)| == 3 * n * |rows|
  {
    if rows != [] {
      var last := |rows| - 1;
      PackLength(rows[..last], n);
      MulSucc(3 * n, last);
    }
  }

  lemma MulSucc(a: nat, b: nat)
    ensures a * (b + 1) == a * b + a
  {
  }

  /** Offset arithmetic: the block of row `last` starts at 3 n last; pixels of
      earlier rows lie before it, pixels of row `last` inside it. */
  lemma OffsetSplit(n: nat, y: nat, x: nat, c: nat, last: nat)
    requires y <= last && x < n && c < 3
    ensures y < last ==> Offset(n, y, x, c) < 3 * n * last
    ensures y == last ==> Offset(n, y, x, c) == 3 * n * last + 3 * x + c
  {
    if y < last {
      MulMono(3 * n, y + 1, last);
      assert Offset(n, y, x, c) < 3 * n * (y + 1);
    }
  }

  lemma {:induction false} PackAt(rows: seq<seq<Pixel>>, n: nat, y: nat, x: nat, c: nat)
    requires forall j :: 0 <= j < |rows| ==> |rows[j]| == n
    requires y < |rows| && x < n && c < 3
    ensures Offset(n, y, x, c) < |Pack(rows)|
    ensures Pack(rows)[Offset(n, y, x, c)] == Channel(rows[y][x], c)
  {
    var last := |rows| - 1;
    var front := rows[..last];
    var off := Offset(n, y, x, c);
    PackLength(front, n);
    var base := 3 * n * last;
    assert Pack(rows) == Pack(front) + PackRow(rows[last]);
    assert |Pack(front)| == base;
    OffsetSplit(n, y, x, c, last);
    if y < last {
      PackAt(front, n, y, x, c);
      assert front[y] == rows[y];
    } else {
      PackRowAt(rows[last], x, c);
      assert off == base + (3 * x + c);
    }
  }

  lemma MulMono(a: nat, b: nat, c: nat)
    requires b <= c
    ensures a * b <= a * c
  {
  }

  /** The row-by-row definition produces exactly the pointwise layout. */
  lemma PackLaidOut(image: seq<seq<Pixel>>, n: nat)
    requires IsSquare(image, n)
    ensures LaidOut(Pack(image), image, n)
  {
    PackLength(image, n);
    forall y, x, c | 0 <= y < n && 0 <= x < n && 0 <= c < 3
      ensures Offset(n, y, x, c) < |Pack(image)|
      ensures Pack(image)[Offset(n, y, x, c)] == Channel(image[y][x], c)
    {
      PackAt(image, n, y, x, c);
    }
  }

  /** The loop of `preprocessImage`: for y in 0 until 192, for x in 0 until 192,
      put red, green and blue of getPixel(x, y). */
  method PreprocessImage(resized: seq<seq<Pixel>>) returns (buf: seq<Byte>)
    requires IsSquare(resized, InputSize)
    ensures |buf| == BufferSize
    ensures buf == Pack(resized)
    ensures LaidOut(buf, resized, InputSize)
  {
    buf := [];
    var y := 0;
    while y < InputSize
      invariant 0 <= y <= InputSize
      invariant buf == Pack(resized[..y])
    {
      var row := resized[y];
      var x := 0;
      while x < InputSize
        invariant 0 <= x <= InputSize
        invariant buf == Pack(resized[..y]) + PackRow(row[..x])
      {
        var pixel := row[x];
        ghost var before := buf;
        buf := buf + [Red(pixel)];
        buf := buf + [Green(pixel)];
        buf := buf + [Blue(pixel)];
        PutPixel(before, pixel);
        PackRowStep(row, x);
        x := x + 1;
      }
      assert row[..InputSize] == row;
      PackStep(resized, y);
      y := y + 1;
    }
    assert resized[..InputSize] == resized;
    PackedImage(resized);
  }

  /** A 192 x 192 image packs to BufferSize bytes laid out pixel by pixel. */
  lemma PackedImage(image: seq<seq<Pixel>>)
    requires IsSquare(image, InputSize)
    ensures |Pack(image)| == BufferSize
    ensures LaidOut(Pack(image), image, InputSize)
  {
    PackLaidOut(image, InputSize);
  }

  /** The three `put`s of one pixel append its `Rgb` bytes. */
  lemma PutPixel(buf: seq<Byte>, p: Pixel)
    ensures buf + [Red(p)] + [Green(p)] + [Blue(p)] == buf + Rgb(p)
  {
  }

  /** One more pixel of a row adds its three bytes at the end. */
  lemma PackRowStep(row: seq<Pixel>, x: nat)
    requires x < |row|
    ensures PackRow(row[..x + 1]) == PackRow(row[..x]) + Rgb(row[x])
    ensures forall pre :: pre + PackRow(row[..x + 1]) == pre + PackRow(row[..x]) + Rgb(row[x])
  {
    assert row[..x + 1][..x] == row[..x];
  }

  /** One more row adds its bytes at the end. */
  lemma PackStep(rows: seq<seq<Pixel>>, y: nat)
    requires y < |rows|
    ensures Pack(rows[..y + 1]) == Pack(rows[..y]) + PackRow(rows[y])
  {
    assert rows[..y + 1][..y] == rows[..y];
  }

  /** Only the alpha byte is discarded: two images pack to the same buffer
      exactly when every pixel has the same colour bits in both. */
  lemma {:induction false} PackIgnoresOnlyAlpha(a: seq<seq<Pixel>>, b: seq<seq<Pixel>>, n: nat)
    requires IsSquare(a, n) && IsSquare(b, n)
    ensures Pack(a) == Pack(b) <==>
      forall y, x :: 0 <= y < n && 0 <= x < n ==> ColourBits(a[y][x]) == ColourBits(b[y][x])
  {
    if Pack(a) == Pack(b) {
      forall y, x | 0 <= y < n && 0 <= x < n
        ensures ColourBits(a[y][x]) == ColourBits(b[y][x])
      {
        forall c | 0 <= c < 3 ensures Rgb(a[y][x])[c] == Rgb(b[y][x])[c] {
          PackAt(a, n, y, x, c);
          PackAt(b, n, y, x, c);
        }
        RgbDeterminesColour(a[y][x], b[y][x]);
      }
    }
    if forall y, x :: 0 <= y < n && 0 <= x < n ==> ColourBits(a[y][x]) == ColourBits(b[y][x]) {
      SameColourSamePack(a, b, n);
    }
  }

  lemma {:induction false} SameColourSamePack(a: seq<seq<Pixel>>, b: seq<seq<Pixel>>, n: nat)
    requires |a| == |b|
    requires forall y :: 0 <= y < |a| ==> |a[y]| == n && |b[y]| == n
    requires forall y, x :: 0 <= y < |a| && 0 <= x < n ==> ColourBits(a[y][x]) == ColourBits(b[y][x])
    ensures Pack(a) == Pack(b)
  {
    if a != [] {
      var last := |a| - 1;
      SameColourSamePack(a[..last], b[..last], n);
      SameColourSameRow(a[last], b[last]);
    }
  }

  lemma {:induction false} SameColourSameRow(r: seq<Pixel>, s: seq<Pixel>)
    requires |r| == |s|
    requires forall x :: 0 <= x < |r| ==> ColourBits(r[x]) == ColourBits(s[x])
    ensures PackRow(r) == PackRow(s)
  {
    if r != [] {
      var last := |r| - 1;
      SameColourSameRow(r[..last], s[..last]);
      RgbDeterminesColour(r[last], s[last]);
    }
  }

  /** An image whose every pixel has channels (red, green, blue), whatever its
      alpha, packs to a buffer in which every triplet is (red, green, blue). */
  lemma UniformImage(image: seq<seq<Pixel>>, n: nat, red: Byte, green: Byte, blue: Byte)
    requires IsSquare(image, n)
    requires forall y, x :: 0 <= y < n && 0 <= x < n ==> Rgb(image[y][x]) == [red, green, blue]
    ensures |Pack(image)| == 3 * (n * n)
    ensures forall k :: 0 <= k < n * n ==> Pack(image)[3 * k..3 * k + 3] == [red, green, blue]
  {
    var buf := Pack(image);
    PackLength(image, n);
    assert |buf| == 3 * (n * n);
    forall k | 0 <= k < n * n
      ensures buf[3 * k..3 * k + 3] == [red, green, blue]
    {
      var y, x := PixelOf(n, k);
      PackedPixel(image, n, y, x);
      assert Rgb(image[y][x]) == [red, green, blue];
    }
  }

  /** The three bytes of pixel (x, y) sit together at offset 3 (y n + x). */
  lemma PackedPixel(image: seq<seq<Pixel>>, n: nat, y: nat, x: nat)
    requires IsSquare(image, n)
    requires y < n && x < n
    ensures Offset(n, y, x, 0) + 3 <= |Pack(image)|
    ensures Pack(image)[Offset(n, y, x, 0)..Offset(n, y, x, 0) + 3] == Rgb(image[y][x])
  {
    var k := Offset(n, y, x, 0);
    PackAt(image, n, y, x, 0);
    PackAt(image, n, y, x, 1);
    PackAt(image, n, y, x, 2);
    assert Pack(image)[k..k + 3] == Rgb(image[y][x]);
  }

  /** Every pixel number below n^2 names one pixel (x, y) of an n-wide image. */
  lemma PixelOf(n: nat, k: nat) returns (y: nat, x: nat)
    requires k < n * n
    ensures y < n && x < n
    ensures Offset(n, y, x, 0) == 3 * k
  {
    y, x := k / n, k % n;
    BelowSquare(y, n);
  }

  lemma BelowSquare(y: nat, n: nat)
    requires y * n < n * n
    ensures y < n
  {
    if y >= n {
      MulMono(n, n, y);
    }
  }
}
