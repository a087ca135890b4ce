/**
 * ArtConverter.draw_converted_image: the surface is filled with black, then
 * every grid cell (x, y), x and y stepping by CHAR_STEP, whose grey value
 * picks a non-blank character gets that character's glyph, in the cell's
 * quantised colour, blitted at (x, y).
 */
module Frame {
  import opened Errors
  import opened Quantize
  import opened Palette

  // ---------------------------------------------------------------------
  // range(start, stop, step)

  /** Python's range(start, stop, step) for a positive step. */
  function Range(start: int, stop: int, step: int): (r: seq<int>)
    requires step >= 1
    ensures start >= stop ==> r == []
    ensures start < stop ==> |r| > 0 && r[0] == start && r[|r| - 1] < stop <= r[|r| - 1] + step
    decreases stop - start
  {
    if start >= stop then [] else [start] + Range(start + step, stop, step)
  }

  predicate Increasing(s: seq<int>) {
    forall i, j :: 0 <= i < j < |s| ==> s[i] < s[j]
  }

  /** A value is in the range exactly when it lies in [start, stop) on the step grid. */
  lemma {:induction false} RangeMembers(start: int, stop: int, step: int, v: int)
    requires step >= 1
    ensures v in Range(start, stop, step) <==> start <= v < stop && (v - start) % step == 0
    decreases stop - start
  {
    if start < stop {
      var rest := Range(start + step, stop, step);
      assert v in Range(start, stop, step) <==> v == start || v in rest;
      RangeMembers(start + step, stop, step, v);
      OnGridAfter(start, step, v);
    }
  }

  /** v lies on the grid start, start + step, ... past its first point exactly
   *  when it lies on the grid from start + step. */
  lemma OnGridAfter(start: int, step: int, v: int)
    requires step >= 1
    ensures (start < v && (v - start) % step == 0) <==> (start + step <= v && (v - start - step) % step == 0)
  {
    ModShift(v - start - step, step);
    if start < v < start + step {
      ModSmall(v - start, step);
    }
  }

  lemma ModShift(a: int, d: int)
    requires d >= 1
    ensures (a + d) % d == a % d
  {
    DivUnique(a + d, d, a / d + 1, a % d);
  }

  lemma ModSmall(a: int, d: int)
    requires 0 < a < d
    ensures a % d == a
  {
    DivUnique(a, d, 0, a);
  }

  /** The range is strictly increasing and stays in [start, stop). */
  lemma {:induction false} RangeIncreasing(start: int, stop: int, step: int)
    requires step >= 1
    ensures Increasing(Range(start, stop, step))
    ensures forall v :: v in Range(start, stop, step) ==> start <= v < stop
    decreases stop - start
  {
    if start < stop {
      RangeIncreasing(start + step, stop, step);
      var r := Range(start, stop, step);
      assert r == [start] + Range(start + step, stop, step);
      forall i, j | 0 <= i < j < |r|
        ensures r[i] < r[j]
      {
        if i == 0 {
          assert r[j] in Range(start + step, stop, step);
        }
      }
    }
  }

  /** range(0, n, s) has ceil(n / s) elements. */
  lemma {:induction false} RangeLength(start: int, stop: int, step: int)
    requires step >= 1
    ensures |Range(start, stop, step)| == if start >= stop then 0 else (stop - start + step - 1) / step
    decreases stop - start
  {
    if start < stop {
      RangeLength(start + step, stop, step);
      var x := stop - start - 1;
      DivUnique(x + step, step, x / step + 1, x % step);
      if start + step < stop {
        assert stop - (start + step) + step - 1 == x;
      } else {
        DivUnique(x, step, 0, x);
      }
    }
  }

  // ---------------------------------------------------------------------
  // Frames, the converter's state and the surface

  /** One frame after the transpose, indexed [x][y]: grey values and RGB pixels. */
  datatype Image = Image(gray: seq<seq<Byte>>, rgb: seq<seq<Rgb>>)

  /** Both buffers are width x height and every pixel has 8-bit channels. */
  predicate Conforms(img: Image, width: int, height: int) {
    |img.gray| == width && |img.rgb| == width &&
    (forall x :: 0 <= x < width ==> |img.gray[x]| == height && |img.rgb[x]| == height) &&
    (forall x, y :: 0 <= x < width && 0 <= y < height ==> IsPixel(img.rgb[x][y]))
  }

  /** What __init__ fixes for the conversion: characters, bucket widths,
   *  CHAR_STEP, the frame size and the glyph cache. */
  datatype Converter<G> = Converter(
    chars: string,
    asciiCoeff: int,
    colorCoeff: int,
    charStep: int,
    width: int,
    height: int,
    palette: Table<G>)
  {
    predicate Valid() {
      0 <= asciiCoeff && 0 <= colorCoeff && 1 <= charStep && 0 <= width && 0 <= height
    }
  }

  /** A glyph blitted at pixel (x, y). */
  datatype Placement<G> = Placement(glyph: G, x: int, y: int)

  /**
   * The display surface at placement granularity: what was blitted since it
   * was last filled with black, in order. A cell with no blit shows black.
   */
  class Surface<G> {
    var blits: seq<Placement<G>>

    constructor ()
      ensures blits == []
    {
      blits := [];
    }

    /** surface.fill("black") */
    method Fill()
      modifies this
      ensures blits == []
    {
      blits := [];
    }

    /** surface.blit(glyph, (x, y)) */
    method Blit(glyph: G, x: int, y: int)
      modifies this
      ensures blits == old(blits) + [Placement(glyph, x, y)]
    {
      blits := blits + [Placement(glyph, x, y)];
    }
  }

  /** What the cells show after the blits: the last glyph blitted at each
   *  cell; a cell that is not a key is black. */
  function View<G>(blits: seq<Placement<G>>): (v: map<(int, int), G>)
    ensures blits != [] ==>
              var p := blits[|blits| - 1];
              (p.x, p.y) in v && v[(p.x, p.y)] == p.glyph
  {
    if blits == [] then map[]
    else
      var p := blits[|blits| - 1];
      View(blits[..|blits| - 1])[(p.x, p.y) := p.glyph]
  }

  // ---------------------------------------------------------------------
  // The conversion, cell by cell

  /** What one sampled cell does: nothing, a glyph, or an exception. */
  datatype Cell<G> = Blank | Glyph(glyph: G) | Raise(error: Error)

  predicate InFrame<G>(cv: Converter<G>, img: Image, x: int, y: int) {
    cv.Valid() && Conforms(img, cv.width, cv.height) && 0 <= x < cv.width && 0 <= y < cv.height
  }

  /** The body of the inner loop for cell (x, y). */
  function CellAt<G>(cv: Converter<G>, img: Image, x: int, y: int): (c: Cell<G>)
    requires InFrame(cv, img, x, y)
    ensures var index := CharIndex(img.gray[x][y], cv.asciiCoeff);
            (c == Blank <==> index == 0) &&
            (c == Raise(IndexError) <==> index != 0 && index >= |cv.chars|) &&
            (c.Glyph? <==> 0 < index < |cv.chars| && cv.chars[index] in cv.palette &&
                           ColorKey(img.rgb[x][y], cv.colorCoeff) in cv.palette[cv.chars[index]]) &&
            (c.Glyph? ==> c.glyph == cv.palette[cv.chars[index]][ColorKey(img.rgb[x][y], cv.colorCoeff)])
    ensures c.Raise? ==> c.error == IndexError || c.error == KeyError
  {
    var index := CharIndex(img.gray[x][y], cv.asciiCoeff);
    if index == 0 then Blank
    else if index >= |cv.chars| then Raise(IndexError)
    else
      var ch := cv.chars[index];
      var key := ColorKey(img.rgb[x][y], cv.colorCoeff);
      if ch in cv.palette && key in cv.palette[ch] then Glyph(cv.palette[ch][key])
      else Raise(KeyError)
  }

  /** The surface so far and the exception raised, if any. */
  datatype Drawn<G> = Drawn(blits: seq<Placement<G>>, error: Option<Error>)

  /** One inner-loop iteration; once an exception is raised nothing more happens. */
  function Step<G>(d: Drawn<G>, cell: Cell<G>, x: int, y: int): (r: Drawn<G>)
    ensures d.error.Some? ==> r == d
    ensures r.error == None <==> d.error == None && !cell.Raise?
    ensures d.error == None && cell.Raise? ==> r.error == Some(cell.error)
    ensures !cell.Glyph? ==> r.blits == d.blits
  {
    if d.error.Some? then d
    else
      match cell
      case Blank => d
      case Glyph(g) => Drawn(d.blits + [Placement(g, x, y)], None)
      case Raise(e) => Drawn(d.blits, Some(e))
  }

  /** A column x and rows ys of the frame. */
  predicate RowsIn<G>(cv: Converter<G>, img: Image, x: int, ys: seq<int>) {
    cv.Valid() && Conforms(img, cv.width, cv.height) && 0 <= x < cv.width &&
    (forall j :: 0 <= j < |ys| ==> 0 <= ys[j] < cv.height)
  }

  /** Columns xs and rows ys of the frame. */
  predicate ColumnsIn<G>(cv: Converter<G>, img: Image, xs: seq<int>, ys: seq<int>) {
    cv.Valid() && Conforms(img, cv.width, cv.height) &&
    (forall i :: 0 <= i < |xs| ==> 0 <= xs[i] < cv.width) &&
    (forall j :: 0 <= j < |ys| ==> 0 <= ys[j] < cv.height)
  }

  /** The inner loop over ys for column x, starting from d0. */
  function DrawColumn<G>(cv: Converter<G>, img: Image, d0: Drawn<G>, x: int, ys: seq<int>): (r: Drawn<G>)
    requires RowsIn(cv, img, x, ys)
    ensures d0.error.Some? ==> r == d0
    ensures |d0.blits| <= |r.blits| <= |d0.blits| + |ys|
    ensures d0.error == None && r.error.Some? ==> r.error.value == IndexError || r.error.value == KeyError
    decreases |ys|
  {
    if ys == [] then d0
    else
      var y := ys[|ys| - 1];
      Step(DrawColumn(cv, img, d0, x, ys[..|ys| - 1]), CellAt(cv, img, x, y), x, y)
  }

  /** Both loops, over the columns xs and the rows ys, from a black surface. */
  function DrawFrame<G>(cv: Converter<G>, img: Image, xs: seq<int>, ys: seq<int>): (r: Drawn<G>)
    requires ColumnsIn(cv, img, xs, ys)
    ensures r.error.Some? ==> r.error.value == IndexError || r.error.value == KeyError
    decreases |xs|
  {
    if xs == [] then Drawn([], None)
    else DrawColumn(cv, img, DrawFrame(cv, img, xs[..|xs| - 1], ys), xs[|xs| - 1], ys)
  }

  function Xs<G>(cv: Converter<G>): seq<int>
    requires cv.Valid()
  {
    Range(0, cv.width, cv.charStep)
  }

  function Ys<G>(cv: Converter<G>): seq<int>
    requires cv.Valid()
  {
    Range(0, cv.height, cv.charStep)
  }

  lemma SampledInFrame<G>(cv: Converter<G>, img: Image)
    requires cv.Valid() && Conforms(img, cv.width, cv.height)
    ensures ColumnsIn(cv, img, Xs(cv), Ys(cv))
    ensures Increasing(Xs(cv)) && Increasing(Ys(cv))
  {
    RangeIncreasing(0, cv.width, cv.charStep);
    RangeIncreasing(0, cv.height, cv.charStep);
    assert forall i :: 0 <= i < |Xs(cv)| ==> Xs(cv)[i] in Xs(cv);
    assert forall j :: 0 <= j < |Ys(cv)| ==> Ys(cv)[j] in Ys(cv);
  }

  /** The surface and outcome of one call of draw_converted_image. */
  function Converted<G>(cv: Converter<G>, img: Image): (r: Drawn<G>)
    requires cv.Valid() && Conforms(img, cv.width, cv.height)
    ensures r.error.Some? ==> r.error.value == IndexError || r.error.value == KeyError
  {
    SampledInFrame(cv, img);
    DrawFrame(cv, img, Xs(cv), Ys(cv))
  }

  // ---------------------------------------------------------------------
  // The method

  /**
   * draw_converted_image on a frame already read: fill, then the two loops.
   * On an exception the glyphs blitted before it stay on the surface and
   * the exception is returned.
   */
  method DrawConvertedImage<G>(surface: Surface<G>, cv: Converter<G>, img: Image) returns (error: Option<Error>)
    requires cv.Valid() && Conforms(img, cv.width, cv.height)
    modifies surface
    ensures surface.blits == Converted(cv, img).blits
    ensures error == Converted(cv, img).error
  {
    surface.Fill();
    var xs := Range(0, cv.width, cv.charStep);
    var ys := Range(0, cv.height, cv.charStep);
    SampledInFrame(cv, img);
    for i := 0 to |xs|
      invariant Drawn(surface.blits, None) == DrawFrame(cv, img, xs[..i], ys)
    {
      FrameExtend(cv, img, xs, ys, i);
      error := DrawColumnCells(surface, cv, img, xs[i], ys);
      if error.Some? {
        FrameStops(cv, img, xs, ys, i + 1);
        return;
      }
    }
    assert xs[..|xs|] == xs;
    return None;
  }

  /** The inner loop over the rows ys of column x, until a cell raises. */
  method DrawColumnCells<G>(surface: Surface<G>, cv: Converter<G>, img: Image, x: int, ys: seq<int>)
    returns (error: Option<Error>)
    requires RowsIn(cv, img, x, ys)
    modifies surface
    ensures Drawn(surface.blits, error) == DrawColumn(cv, img, Drawn(old(surface.blits), None), x, ys)
  {
    ghost var before := Drawn(surface.blits, None);
    error := None;
    for j := 0 to |ys|
      invariant error == None
      invariant Drawn(surface.blits, None) == DrawColumn(cv, img, before, x, ys[..j])
    {
      assert ys[..j + 1][..j] == ys[..j];
      error := DrawCell(surface, cv, img, x, ys[j]);
      if error.Some? {
        ColumnStops(cv, img, before, x, ys, j + 1);
        return;
      }
    }
    assert ys[..|ys|] == ys;
  }

  /** The body of the inner loop: blit the cell's glyph, skip a blank
   *  cell, or stop with the exception the lookup raises. */
  method DrawCell<G>(surface: Surface<G>, cv: Converter<G>, img: Image, x: int, y: int) returns (error: Option<Error>)
    requires InFrame(cv, img, x, y)
    modifies surface
    ensures Drawn(surface.blits, error) == Step(Drawn(old(surface.blits), None), CellAt(cv, img, x, y), x, y)
  {
    var charIndex := CharIndex(img.gray[x][y], cv.asciiCoeff);
    if charIndex == 0 {
      return None;
    }
    if charIndex >= |cv.chars| {
      return Some(IndexError);
    }
    var ch := cv.chars[charIndex];
    var color := ColorKey(img.rgb[x][y], cv.colorCoeff);
    if ch !in cv.palette || color !in cv.palette[ch] {
      return Some(KeyError);
    }
    surface.Blit(cv.palette[ch][color], x, y);
    return None;
  }

  // ---------------------------------------------------------------------
  // An exception ends the loops

  /** The outer loop's next column extends the frame drawn so far. */
  lemma FrameExtend<G>(cv: Converter<G>, img: Image, xs: seq<int>, ys: seq<int>, i: nat)
    requires ColumnsIn(cv, img, xs, ys) && i < |xs|
    ensures ColumnsIn(cv, img, xs[..i], ys) && ColumnsIn(cv, img, xs[..i + 1], ys)
    ensures RowsIn(cv, img, xs[i], ys)
    ensures DrawFrame(cv, img, xs[..i + 1], ys) == DrawColumn(cv, img, DrawFrame(cv, img, xs[..i], ys), xs[i], ys)
  {
    assert xs[..i + 1][..i] == xs[..i];
  }

  lemma {:induction false} ColumnStops<G>(cv: Converter<G>, img: Image, d0: Drawn<G>, x: int, ys: seq<int>, j: nat)
    requires RowsIn(cv, img, x, ys)
    requires j <= |ys|
    requires DrawColumn(cv, img, d0, x, ys[..j]).error.Some?
    ensures DrawColumn(cv, img, d0, x, ys) == DrawColumn(cv, img, d0, x, ys[..j])
    decreases |ys|
  {
    if j == |ys| {
      assert ys[..j] == ys;
    } else {
      var ys' := ys[..|ys| - 1];
      assert ys'[..j] == ys[..j];
      ColumnStops(cv, img, d0, x, ys', j);
    }
  }

  lemma {:induction false} FrameStops<G>(cv: Converter<G>, img: Image, xs: seq<int>, ys: seq<int>, i: nat)
    requires ColumnsIn(cv, img, xs, ys)
    requires i <= |xs|
    requires DrawFrame(cv, img, xs[..i], ys).error.Some?
    ensures DrawFrame(cv, img, xs, ys) == DrawFrame(cv, img, xs[..i], ys)
    decreases |xs|
  {
    if i == |xs| {
      assert xs[..i] == xs;
    } else {
      var xs' := xs[..|xs| - 1];
      assert xs'[..i] == xs[..i];
      FrameStops(cv, img, xs', ys, i);
    }
  }
}
