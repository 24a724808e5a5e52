/**
  The pixel grid of game/canvas.go.

  The Go canvas wraps an image.RGBA whose rectangle starts at the origin.  The model
  keeps its cells in a two-dimensional array indexed [x, y]; `Raster` is the value
  view of that array, on which painting is specified.
*/
module Pixels {

  newtype byte = x: int | 0 <= x < 256

  /** color.NRGBA: red, green, blue and a non-premultiplied alpha. */
  datatype Color = Color(r: byte, g: byte, b: byte, a: byte)

  /** color.White: every channel at full intensity. */
  const White := Color(255, 255, 255, 255)

  /** The game's Pixel: a position (Pos[0], Pos[1]) and an RGB colour
      (Color[0], Color[1], Color[2]). */
  datatype Pixel = Pixel(pos: (int, int), color: (byte, byte, byte))

  /** The colour literal Paint hands to image.Set (lines 37-41): the alpha field
      is not set and keeps its zero value. */
  function ColorOf(p: Pixel): Color {
    Color(p.color.0, p.color.1, p.color.2, 0)
  }

  /** A width x height grid; cells[x][y] is the colour at (x, y). */
  datatype Raster = Raster(width: nat, height: nat, cells: seq<seq<Color>>) {

    predicate Wf() {
      |cells| == width && forall x :: 0 <= x < width ==> |cells[x]| == height
    }

    predicate InBounds(x: int, y: int) {
      0 <= x < width && 0 <= y < height
    }
  }

  /** A grid with every cell white. */
  function Blank(width: nat, height: nat): (r: Raster)
    ensures r.Wf() && r.width == width && r.height == height
    ensures forall x, y :: r.InBounds(x, y) ==> r.cells[x][y] == White
  {
    Raster(width, height, seq(width, _ => seq(height, _ => White)))
  }

  /** The grid after painting `p`: the cell at p's position takes ColorOf(p). */
  function Painted(r: Raster, p: Pixel): (r': Raster)
    requires r.Wf() && r.InBounds(p.pos.0, p.pos.1)
    ensures r'.Wf() && r'.width == r.width && r'.height == r.height
    ensures forall x, y :: r.InBounds(x, y) ==>
              r'.cells[x][y] == if (x, y) == p.pos then ColorOf(p) else r.cells[x][y]
  {
    var (x, y) := p.pos;
    r.(cells := r.cells[x := r.cells[x][y := ColorOf(p)]])
  }

  /** Painting the same pixel twice is painting it once. */
  lemma PaintIdempotent(r: Raster, p: Pixel)
    requires r.Wf() && r.InBounds(p.pos.0, p.pos.1)
    ensures Painted(Painted(r, p), p) == Painted(r, p)
  {
    var once, twice := Painted(r, p), Painted(Painted(r, p), p);
    assert forall x | 0 <= x < r.width :: twice.cells[x] == once.cells[x];
  }

  /** Paints at two different positions commute. */
  lemma PaintsCommute(r: Raster, p: Pixel, q: Pixel)
    requires r.Wf() && r.InBounds(p.pos.0, p.pos.1) && r.InBounds(q.pos.0, q.pos.1)
    requires p.pos != q.pos
    ensures Painted(Painted(r, p), q) == Painted(Painted(r, q), p)
  {
    var pq, qp := Painted(Painted(r, p), q), Painted(Painted(r, q), p);
    assert forall x | 0 <= x < r.width :: pq.cells[x] == qp.cells[x];
  }

  /** A painted cell is no longer white: its alpha is zero. */
  lemma PaintedCellNotWhite(r: Raster, p: Pixel)
    requires r.Wf() && r.InBounds(p.pos.0, p.pos.1)
    ensures Painted(r, p).cells[p.pos.0][p.pos.1] != White
    ensures Painted(r, p).cells[p.pos.0][p.pos.1].a == 0
  {
  }

  function Clamp(n: int): nat {
    if n < 0 then 0 else n
  }

  /** Canvas (lines 13-16). */
  class Canvas {
    const image: array2<Color>

    /** The cells of the image as a value. */
    ghost function View(): (r: Raster)
      reads this, image
      ensures r.Wf() && r.width == image.Length0 && r.height == image.Length1
      ensures forall x, y :: r.InBounds(x, y) ==> r.cells[x][y] == image[x, y]
    {
      Raster(image.Length0, image.Length1,
        seq(image.Length0, x requires 0 <= x < image.Length0 reads image =>
          seq(image.Length1, y requires 0 <= y < image.Length1 reads image => image[x, y])))
    }

    /** NewCanvas (lines 18-31): every cell white.  image.Rect puts the corners in
        order, so a negative size yields an empty extent along that axis. */
    constructor (width: int, height: int)
      ensures fresh(image)
      ensures View() == Blank(Clamp(width), Clamp(height))
      ensures Dimensions() == (Clamp(width), Clamp(height))
    {
      var w, h := Clamp(width), Clamp(height);
      var img := new Color[w, h];
      for x := 0 to w
        invariant forall i, j :: 0 <= i < x && 0 <= j < h ==> img[i, j] == White
      {
        for y := 0 to h
          invariant forall i, j :: 0 <= i < x && 0 <= j < h ==> img[i, j] == White
          invariant forall j :: 0 <= j < y ==> img[x, j] == White
        {
          img[x, y] := White;
        }
      }
      image := img;
      new;
      assert forall x | 0 <= x < w :: View().cells[x] == Blank(w, h).cells[x];
    }

    /** Dimensions (lines 66-69): the far corner of the image's rectangle. */
    function Dimensions(): (wh: (int, int))
      reads this
      ensures wh.0 >= 0 && wh.1 >= 0
    {
      (image.Length0, image.Length1)
    }

    /** IsInBounds (lines 71-74): exactly the positions that address a cell. */
    predicate IsInBounds(x: int, y: int)
      reads this
      ensures IsInBounds(x, y) <==> 0 <= x < image.Length0 && 0 <= y < image.Length1
    {
      var (w, h) := Dimensions();
      x >= 0 && y >= 0 && x < w && y < h
    }

    /** Paint (lines 33-42): overwrites the cell at the pixel's position. */
    method Paint(p: Pixel)
      requires IsInBounds(p.pos.0, p.pos.1)
      modifies image
      ensures View() == Painted(old(View()), p)
      ensures Dimensions() == old(Dimensions())
    {
      image[p.pos.0, p.pos.1] := ColorOf(p);
      assert forall x | 0 <= x < image.Length0 :: View().cells[x] == Painted(old(View()), p).cells[x];
    }
  }
}
