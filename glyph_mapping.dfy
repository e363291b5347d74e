/** The glyph mapper: every pixel of the source image becomes one character
    of the printable-ASCII ramp, chosen by the pixel's weighted luminance. */
module GlyphMapping {
  import opened Pixels

  /** Number of characters in the ramp: code points 32 to 126. */
  const RampLength := 95

  /** The ramp: every printable ASCII character in ascending code-point order. */
  function AsciiChars(): (ramp: seq<char>)
    ensures |ramp| == RampLength
    ensures forall i :: 0 <= i < |ramp| ==> ramp[i] as int == 32 + i
  {
    seq(RampLength, i requires 0 <= i < RampLength => (32 + i) as char)
  }

  /** The ramp is strictly ascending: it runs from ' ' to '~' without repeats. */
  lemma RampStrictlyAscending(i: nat, j: nat)
    requires i < j < RampLength
    ensures AsciiChars()[i] < AsciiChars()[j]
    ensures AsciiChars()[0] == ' ' && AsciiChars()[RampLength - 1] == '~'
  {
  }

  /** The weighted luminance 0.299 r + 0.587 g + 0.114 b, scaled by 1000 so
      that it is an integer; the brightness of the pixel is this value
      divided by 255000. */
  function WeightedSum(p: Rgb): (s: nat)
    ensures s <= 255000
  {
    299 * p.r + 587 * p.g + 114 * p.b
  }

  /** The ramp index of a pixel: brightness times (ramp length - 1),
      truncated towards zero, computed exactly. */
  function AsciiIndex(p: Rgb): (k: nat)
    ensures k < RampLength
    ensures k * 255000 <= (RampLength - 1) * WeightedSum(p) < (k + 1) * 255000
  {
    (RampLength - 1) * WeightedSum(p) / 255000
  }

  /** The character a pixel is drawn as. */
  function GlyphFor(p: Rgb): (c: char)
    ensures ' ' <= c <= '~'
    ensures c as int == 32 + AsciiIndex(p)
  {
    AsciiChars()[AsciiIndex(p)]
  }

  /** Brighter pixels never get a lower ramp index. */
  lemma IndexMonotone(p: Rgb, q: Rgb)
    requires WeightedSum(p) <= WeightedSum(q)
    ensures AsciiIndex(p) <= AsciiIndex(q)
    ensures GlyphFor(p) <= GlyphFor(q)
  {
  }

  /** Raising any channel never lowers the ramp index. */
  lemma ChannelwiseMonotone(p: Rgb, q: Rgb)
    requires p.r <= q.r && p.g <= q.g && p.b <= q.b
    ensures AsciiIndex(p) <= AsciiIndex(q)
  {
    IndexMonotone(p, q);
  }

  /** Black becomes the first ramp entry, a space. */
  lemma BlackIsSpace()
    ensures AsciiIndex(Black) == 0 && GlyphFor(Black) == ' '
  {
    assert AsciiChars()[0] == (32 as char) == ' ';
    assert AsciiIndex(Black) == 0;
  }

  /** White becomes the last ramp entry, a tilde. */
  lemma WhiteIsTilde()
    ensures AsciiIndex(White) == RampLength - 1 && GlyphFor(White) == '~'
  {
    assert AsciiIndex(White) == 94;
    assert AsciiChars()[94] == 126 as char == '~';
  }

  /** Pure red, green and blue land on indices 28, 55 and 10. */
  lemma PrimaryColours()
    ensures AsciiIndex(Rgb(255, 0, 0)) == 28 && GlyphFor(Rgb(255, 0, 0)) == '<'
    ensures AsciiIndex(Rgb(0, 255, 0)) == 55 && GlyphFor(Rgb(0, 255, 0)) == 'W'
    ensures AsciiIndex(Rgb(0, 0, 255)) == 10 && GlyphFor(Rgb(0, 0, 255)) == '*'
  {
    assert AsciiChars()[28] == 60 as char == '<';
    assert AsciiChars()[55] == 87 as char == 'W';
    assert AsciiChars()[10] == 42 as char == '*';
  }

  /** `art` is the ASCII art of `img`: one row per image row, one character
      per pixel, and the character in row y, column x is the glyph of the
      pixel at (x, y). */
  predicate IsAsciiArtOf(art: seq<string>, img: Image)
    requires img.Valid()
  {
    && |art| == img.height
    && (forall y :: 0 <= y < |art| ==> |art[y]| == img.width)
    && (forall y, x :: 0 <= y < |art| && 0 <= x < |art[y]| ==> art[y][x] == GlyphFor(img.At(x, y)))
  }

  /** The ASCII art of an image is determined by its pixels alone. */
  lemma {:induction false} AsciiArtUnique(img: Image, a1: seq<string>, a2: seq<string>)
    requires img.Valid()
    requires IsAsciiArtOf(a1, img) && IsAsciiArtOf(a2, img)
    ensures a1 == a2
  {
    forall y | 0 <= y < |a1|
      ensures a1[y] == a2[y]
    {
      assert |a1[y]| == |a2[y]|;
      forall x | 0 <= x < |a1[y]|
        ensures a1[y][x] == a2[y][x]
      {
        assert a1[y][x] == GlyphFor(img.At(x, y)) == a2[y][x];
      }
    }
  }

  /** Two pixels of the same colour, in the same or in different images,
      are drawn as the same character. */
  lemma SameColourSameGlyph(img1: Image, art1: seq<string>, x1: nat, y1: nat,
                            img2: Image, art2: seq<string>, x2: nat, y2: nat)
    requires img1.Valid() && IsAsciiArtOf(art1, img1)
    requires img2.Valid() && IsAsciiArtOf(art2, img2)
    requires x1 < img1.width && y1 < img1.height && x2 < img2.width && y2 < img2.height
    requires img1.At(x1, y1) == img2.At(x2, y2)
    ensures art1[y1][x1] == art2[y2][x2]
  {
  }

  /** Walks the image in row-major order, building each row by appending one
      character per pixel and appending each finished row to the art. The
      image's own width and height are returned with it. */
  method ImageToAscii(img: Image) returns (art: seq<string>, width: nat, height: nat)
    requires img.Valid()
    ensures width == img.width && height == img.height
    ensures IsAsciiArtOf(art, img)
  {
    width, height := img.width, img.height;
    var asciiChars := AsciiChars();
    art := [];
    for y := 0 to height
      invariant |art| == y
      invariant forall j :: 0 <= j < y ==> |art[j]| == width
      invariant forall j, i :: 0 <= j < y && 0 <= i < |art[j]| ==> art[j][i] == GlyphFor(img.At(i, j))
    {
      var row := "";
      for x := 0 to width
        invariant |row| == x
        invariant forall i :: 0 <= i < x ==> row[i] == GlyphFor(img.At(i, y))
      {
        var pixel := img.At(x, y);
        var asciiIndex := AsciiIndex(pixel);
        row := row + [asciiChars[asciiIndex]];
      }
      art := art + [row];
    }
  }
}
