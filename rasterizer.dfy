/** The rasterizer: lays ASCII art out on a black canvas, one glyph per cell,
    each glyph filled with the colour of the source pixel at the same grid
    position. Glyph rendering itself is not modelled; the canvas records the
    text draws issued on it, in order. */
module Rasterizer {
  import opened Pixels
  import opened GlyphMapping

  /** One text draw: character `ch` at pixel position (x, y), filled with `fill`. */
  datatype TextDraw = TextDraw(x: int, y: int, ch: char, fill: Rgb)

  /** A new RGB image with a background colour, and the draws issued on it. */
  class Canvas {
    const width: nat
    const height: nat
    const background: Rgb
    var draws: seq<TextDraw>

    constructor (width: nat, height: nat, background: Rgb)
      ensures this.width == width && this.height == height && this.background == background
      ensures draws == []
    {
      this.width := width;
      this.height := height;
      this.background := background;
      draws := [];
    }

    /** Draws one character at (x, y): it becomes the last draw on the canvas. */
    method Text(x: int, y: int, ch: char, fill: Rgb)
      modifies this
      ensures draws == old(draws) + [TextDraw(x, y, ch, fill)]
    {
      draws := draws + [TextDraw(x, y, ch, fill)];
    }
  }

  /** Every character of a row drawn as row y sits at a coordinate inside
      `img`, so reading the pixel behind it succeeds. */
  predicate RowFits(row: string, y: nat, img: Image) {
    |row| == 0 || (|row| <= img.width && y < img.height)
  }

  /** Every character of `art` sits at a coordinate inside `img`. */
  predicate FitsImage(art: seq<string>, img: Image) {
    forall y :: 0 <= y < |art| ==> RowFits(art[y], y, img)
  }

  /** Number of characters in `art`, that is, the number of cells drawn. */
  function CellCount(art: seq<string>): nat {
    if art == [] then 0 else CellCount(art[..|art| - 1]) + |art[|art| - 1]|
  }

  /** The draws for row y of the art, left to right: cell x at (x * fontSize,
      y * lineHeight), filled with the source pixel at (x, y). */
  function RowDraws(row: string, y: nat, img: Image, fontSize: nat, lineHeight: nat): (ds: seq<TextDraw>)
    requires img.Valid()
    requires RowFits(row, y, img)
    ensures |ds| == |row|
  {
    seq(|row|, x requires 0 <= x < |row| => TextDraw(x * fontSize, y * lineHeight, row[x], img.At(x, y)))
  }

  /** All draws for the art, row after row: the canvas contents that a
      complete layout produces. */
  function Layout(art: seq<string>, img: Image, fontSize: nat, lineHeight: nat): seq<TextDraw>
    requires img.Valid() && FitsImage(art, img)
  {
    if art == [] then []
    else
      var last := |art| - 1;
      assert FitsImage(art[..last], img) by {
        forall y | 0 <= y < last
          ensures RowFits(art[..last][y], y, img)
        {
          assert art[..last][y] == art[y];
        }
      }
      Layout(art[..last], img, fontSize, lineHeight) + RowDraws(art[last], last, img, fontSize, lineHeight)
  }

  /** One draw per cell. */
  lemma {:induction false} LayoutLength(art: seq<string>, img: Image, fontSize: nat, lineHeight: nat)
    requires img.Valid() && FitsImage(art, img)
    ensures |Layout(art, img, fontSize, lineHeight)| == CellCount(art)
  {
    if art != [] {
      var last := |art| - 1;
      LayoutLength(art[..last], img, fontSize, lineHeight);
    }
  }

  /** The cell in row y, column x is the draw numbered by all cells of the
      rows above it plus x; it shows that cell's character at (x * fontSize,
      y * lineHeight), filled with the source pixel at (x, y). */
  lemma {:induction false} LayoutAt(art: seq<string>, img: Image, fontSize: nat, lineHeight: nat, y: nat, x: nat)
    requires img.Valid() && FitsImage(art, img)
    requires y < |art| && x < |art[y]|
    ensures x < img.width && y < img.height
    ensures CellCount(art[..y]) + x < |Layout(art, img, fontSize, lineHeight)|
    ensures Layout(art, img, fontSize, lineHeight)[CellCount(art[..y]) + x]
         == TextDraw(x * fontSize, y * lineHeight, art[y][x], img.At(x, y))
  {
    var last := |art| - 1;
    var prefix := art[..last];
    LayoutLength(art, img, fontSize, lineHeight);
    LayoutLength(prefix, img, fontSize, lineHeight);
    if y == last {
      assert art[..y] == prefix;
    } else {
      assert prefix[..y] == art[..y];
      assert prefix[y] == art[y];
      LayoutAt(prefix, img, fontSize, lineHeight, y, x);
      CellCountPrefix(art, y + 1);
    }
  }

  /** Cell counts grow with the number of rows taken. */
  lemma {:induction false} CellCountPrefix(art: seq<string>, k: nat)
    requires k <= |art|
    ensures CellCount(art[..k]) <= CellCount(art)
  {
    if k < |art| {
      var last := |art| - 1;
      assert art[..last][..k] == art[..k];
      CellCountPrefix(art[..last], k);
    } else {
      assert art[..k] == art;
    }
  }

  /** In art whose rows all have `width` characters, the first k rows hold
      k * width cells. */
  lemma {:induction false} RectangularCellCount(art: seq<string>, width: nat, k: nat)
    requires forall y :: 0 <= y < |art| ==> |art[y]| == width
    requires k <= |art|
    ensures CellCount(art[..k]) == k * width
  {
    if k > 0 {
      var prefix := art[..k];
      assert prefix[..k - 1] == art[..k - 1];
      RectangularCellCount(art, width, k - 1);
    }
  }

  /** The ASCII art of an image can always be laid out: every cell finds its
      pixel, and there is one draw per pixel. */
  lemma PipelineLayoutLength(img: Image, art: seq<string>, fontSize: nat, lineHeight: nat)
    requires img.Valid() && IsAsciiArtOf(art, img)
    ensures FitsImage(art, img)
    ensures |Layout(art, img, fontSize, lineHeight)| == img.width * img.height
  {
    assert FitsImage(art, img);
    LayoutLength(art, img, fontSize, lineHeight);
    RectangularCellCount(art, img.width, |art|);
    assert art[..|art|] == art;
  }

  /** In the layout of the ASCII art of an image, the draw numbered
      y * width + x is the glyph of pixel (x, y), at (x * fontSize,
      y * lineHeight), in that pixel's colour. */
  lemma PipelineLayout(img: Image, art: seq<string>, fontSize: nat, lineHeight: nat, y: nat, x: nat)
    requires img.Valid() && IsAsciiArtOf(art, img)
    requires y < img.height && x < img.width
    ensures FitsImage(art, img)
    ensures y * img.width + x < |Layout(art, img, fontSize, lineHeight)|
    ensures Layout(art, img, fontSize, lineHeight)[y * img.width + x]
         == TextDraw(x * fontSize, y * lineHeight, GlyphFor(img.At(x, y)), img.At(x, y))
  {
    assert FitsImage(art, img);
    RectangularCellCount(art, img.width, y);
    LayoutAt(art, img, fontSize, lineHeight, y, x);
  }

  /** Draw number i of a grid `width` cells wide and `height` rows tall
      belongs to exactly one cell (x, y) of that grid. */
  lemma {:induction false} CellOfIndex(width: nat, height: nat, i: nat) returns (y: nat, x: nat)
    requires i < width * height
    ensures y < height && x < width && i == y * width + x
  {
    if i < width {
      y, x := 0, i;
    } else {
      assert height > 0;
      assert width * height == width * (height - 1) + width;
      var y', x' := CellOfIndex(width, height - 1, i - width);
      y, x := y' + 1, x';
    }
  }

  /** Smaller draw numbers belong to earlier rows, or to the same row and
      an earlier column. */
  lemma CellOrder(width: nat, y1: nat, x1: nat, y2: nat, x2: nat)
    requires x1 < width && x2 < width
    requires y1 * width + x1 < y2 * width + x2
    ensures y1 < y2 || (y1 == y2 && x1 < x2)
  {
    assert y1 * width < (y2 + 1) * width;
    ScaleCancel(y1, y2 + 1, width);
  }

  /** Equal cell sizes compare as their counts do. */
  lemma ScaleCancel(a: nat, b: nat, size: nat)
    requires a * size < b * size
    ensures a < b
  {
  }

  /** Scaling by a positive cell size keeps strict order. */
  lemma ScaleStrict(a: nat, b: nat, size: nat)
    requires a < b && size > 0
    ensures a * size < b * size
  {
  }

  /** With positive cell metrics the layout of the ASCII art of an image
      issues its draws in row-major order: each later draw is further down,
      or on the same line and further right. */
  lemma LayoutRowMajor(img: Image, art: seq<string>, fontSize: nat, lineHeight: nat, i: nat, j: nat)
    requires img.Valid() && IsAsciiArtOf(art, img)
    requires fontSize > 0 && lineHeight > 0
    requires FitsImage(art, img)
    requires i < j < |Layout(art, img, fontSize, lineHeight)|
    ensures var di, dj := Layout(art, img, fontSize, lineHeight)[i], Layout(art, img, fontSize, lineHeight)[j];
            di.y < dj.y || (di.y == dj.y && di.x < dj.x)
  {
    PipelineLayoutLength(img, art, fontSize, lineHeight);
    var yi, xi := CellOfIndex(img.width, img.height, i);
    var yj, xj := CellOfIndex(img.width, img.height, j);
    PipelineLayout(img, art, fontSize, lineHeight, yi, xi);
    PipelineLayout(img, art, fontSize, lineHeight, yj, xj);
    CellOrder(img.width, yi, xi, yj, xj);
    if yi < yj {
      ScaleStrict(yi, yj, lineHeight);
    } else {
      ScaleStrict(xi, xj, fontSize);
    }
  }

  /** A cell that starts inside the grid ends at or before the grid's edge. */
  lemma CellEnd(k: nat, count: nat, size: nat)
    requires k < count
    ensures k * size + size <= count * size
  {
    assert (k + 1) * size <= count * size;
  }

  /** Every draw in the layout of the ASCII art of an image falls on its
      cell of the canvas that is width * fontSize wide and height *
      lineHeight tall: the cell ends at or before the canvas's right and
      bottom edges, and with positive metrics it starts strictly inside. */
  lemma LayoutInsideCanvas(img: Image, art: seq<string>, fontSize: nat, lineHeight: nat, i: nat)
    requires img.Valid() && IsAsciiArtOf(art, img)
    requires FitsImage(art, img)
    requires i < |Layout(art, img, fontSize, lineHeight)|
    ensures var d := Layout(art, img, fontSize, lineHeight)[i];
            && 0 <= d.x && d.x + fontSize <= img.width * fontSize
            && 0 <= d.y && d.y + lineHeight <= img.height * lineHeight
            && (fontSize > 0 ==> d.x < img.width * fontSize)
            && (lineHeight > 0 ==> d.y < img.height * lineHeight)
  {
    PipelineLayoutLength(img, art, fontSize, lineHeight);
    var y, x := CellOfIndex(img.width, img.height, i);
    PipelineLayout(img, art, fontSize, lineHeight, y, x);
    CellEnd(x, img.width, fontSize);
    CellEnd(y, img.height, lineHeight);
  }

  /** The outcome of saving: the finished canvas handed to the image writer,
      or the first cell whose pixel lookup fell outside the source image
      (the broad exception handler then drops the canvas). */
  datatype SaveResult = Saved(canvas: Canvas) | PixelOutOfRange(x: nat, y: nat)

  /** Creates a black canvas of width * fontSize by height * lineHeight and
      walks the art row by row, advancing x_position by fontSize per
      character and y_position by lineHeight per row, drawing each character
      in the colour of the source pixel at the same grid position. The font
      size defaults to 10; the line height is the font's, so it is given. */
  method SaveAsciiAsImage(art: seq<string>, width: nat, height: nat, img: Image, lineHeight: nat, fontSize: nat := 10)
    returns (result: SaveResult)
    requires img.Valid()
    ensures result.Saved? <==> FitsImage(art, img)
    ensures result.Saved? ==>
      && fresh(result.canvas)
      && result.canvas.width == width * fontSize
      && result.canvas.height == height * lineHeight
      && result.canvas.background == Black
      && result.canvas.draws == Layout(art, img, fontSize, lineHeight)
    ensures result.PixelOutOfRange? ==>
      && result.y < |art| && result.x < |art[result.y]|
      && FitsImage(art[..result.y], img)
      && result.x == (if result.y < img.height then img.width else 0)
  {
    var imageWidth := width * fontSize;
    var imageHeight := height * lineHeight;
    var canvas := new Canvas(imageWidth, imageHeight, Black);
    var yPosition := 0;
    for y := 0 to |art|
      invariant yPosition == y * lineHeight
      invariant FitsImage(art[..y], img)
      invariant canvas.draws == Layout(art[..y], img, fontSize, lineHeight)
    {
      var row := art[y];
      var xPosition := 0;
      for x := 0 to |row|
        invariant xPosition == x * fontSize
        invariant RowFits(row[..x], y, img)
        invariant canvas.draws == Layout(art[..y], img, fontSize, lineHeight)
                                  + RowDraws(row[..x], y, img, fontSize, lineHeight)
      {
        if !(x < img.width && y < img.height) {
          return PixelOutOfRange(x, y);
        }
        var pixel := img.At(x, y);
        assert row[..x + 1] == row[..x] + [row[x]];
        canvas.Text(xPosition, yPosition, row[x], pixel);
        xPosition := xPosition + fontSize;
      }
      assert art[..y + 1][..y] == art[..y];
      assert row[..|row|] == row;
      yPosition := yPosition + lineHeight;
    }
    assert art[..|art|] == art;
    return Saved(canvas);
  }
}
