/**
 * What one call of draw_converted_image leaves on the surface: which cells
 * are sampled, which glyph each blit is, in which order the blits come, how
 * many there are, and that the result depends on the current frame alone.
 */
module FrameProperties {
  import opened Errors
  import opened Quantize
  import opened Frame

  /** x precedes y in the loops' order: column-major by x, then by y. */
  predicate Before<G>(p: Placement<G>, q: Placement<G>) {
    p.x < q.x || (p.x == q.x && p.y < q.y)
  }

  predicate Ordered<G>(blits: seq<Placement<G>>) {
    forall k, l :: 0 <= k < l < |blits| ==> Before(blits[k], blits[l])
  }

  /** The cell (x, y) is one the loops visit: x = i * CHAR_STEP < WIDTH and
   *  y = j * CHAR_STEP < HEIGHT. */
  predicate Sampled<G>(cv: Converter<G>, x: int, y: int)
    requires cv.Valid()
  {
    0 <= x < cv.width && 0 <= y < cv.height && x % cv.charStep == 0 && y % cv.charStep == 0
  }

  // ---------------------------------------------------------------------
  // One column

  /** The inner loop keeps what was blitted before it and appends, in
   *  increasing y, one blit per glyph cell of the column. */
  lemma {:induction false} ColumnBlits<G>(cv: Converter<G>, img: Image, d0: Drawn<G>, x: int, ys: seq<int>)
    requires RowsIn(cv, img, x, ys) && Increasing(ys)
    ensures var d := DrawColumn(cv, img, d0, x, ys);
            |d0.blits| <= |d.blits| &&
            d.blits[..|d0.blits|] == d0.blits &&
            (forall k :: |d0.blits| <= k < |d.blits| ==>
               d.blits[k].x == x && d.blits[k].y in ys &&
               CellAt(cv, img, x, d.blits[k].y) == Glyph(d.blits[k].glyph)) &&
            (forall k, l :: |d0.blits| <= k < l < |d.blits| ==> d.blits[k].y < d.blits[l].y)
    decreases |ys|
  {
    if ys != [] {
      var n := |ys|;
      var ys' := ys[..n - 1];
      var y := ys[n - 1];
      assert Increasing(ys');
      ColumnBlits(cv, img, d0, x, ys');
      var d' := DrawColumn(cv, img, d0, x, ys');
      var c := CellAt(cv, img, x, y);
      var d := Step(d', c, x, y);
      assert d == DrawColumn(cv, img, d0, x, ys);
      forall k | |d0.blits| <= k < |d'.blits|
        ensures d'.blits[k].y in ys && d'.blits[k].y < y
      {
        var a :| 0 <= a < n - 1 && ys'[a] == d'.blits[k].y;
        assert ys[a] == d'.blits[k].y;
      }
      if d'.error == None && c.Glyph? {
        assert d.blits == d'.blits + [Placement(c.glyph, x, y)];
        assert d.blits[..|d0.blits|] == d'.blits[..|d0.blits|];
      } else {
        assert d.blits == d'.blits;
      }
    }
  }

  /** The inner loop raises nothing exactly when nothing was raised before
   *  and no cell of the column raises. */
  lemma {:induction false} ColumnRaises<G>(cv: Converter<G>, img: Image, d0: Drawn<G>, x: int, ys: seq<int>)
    requires RowsIn(cv, img, x, ys)
    ensures DrawColumn(cv, img, d0, x, ys).error == None <==>
            d0.error == None && forall j :: 0 <= j < |ys| ==> !CellAt(cv, img, x, ys[j]).Raise?
    decreases |ys|
  {
    if ys != [] {
      var n := |ys|;
      var ys' := ys[..n - 1];
      ColumnRaises(cv, img, d0, x, ys');
      assert forall j :: 0 <= j < n - 1 ==> ys'[j] == ys[j];
    }
  }

  /** Without an exception the inner loop keeps earlier blits and blits
   *  every glyph cell of the column. */
  lemma {:induction false} ColumnComplete<G>(cv: Converter<G>, img: Image, d0: Drawn<G>, x: int, ys: seq<int>)
    requires RowsIn(cv, img, x, ys)
    ensures var d := DrawColumn(cv, img, d0, x, ys);
            d.error == None ==>
              (forall p :: p in d0.blits ==> p in d.blits) &&
              forall j :: 0 <= j < |ys| && CellAt(cv, img, x, ys[j]).Glyph? ==>
                Placement(CellAt(cv, img, x, ys[j]).glyph, x, ys[j]) in d.blits
    decreases |ys|
  {
    if ys != [] {
      var n := |ys|;
      var ys' := ys[..n - 1];
      ColumnComplete(cv, img, d0, x, ys');
      var d' := DrawColumn(cv, img, d0, x, ys');
      assert forall j :: 0 <= j < n - 1 ==> ys'[j] == ys[j];
    }
  }

  // ---------------------------------------------------------------------
  // The whole frame

  /** Every blit is at a visited cell and is that cell's glyph; the blits
   *  come in loop order, so no cell is blitted twice. */
  lemma {:induction false} FrameBlits<G>(cv: Converter<G>, img: Image, xs: seq<int>, ys: seq<int>)
    requires ColumnsIn(cv, img, xs, ys) && Increasing(xs) && Increasing(ys)
    ensures var d := DrawFrame(cv, img, xs, ys);
            (forall k :: 0 <= k < |d.blits| ==>
               d.blits[k].x in xs && d.blits[k].y in ys &&
               CellAt(cv, img, d.blits[k].x, d.blits[k].y) == Glyph(d.blits[k].glyph)) &&
            Ordered(d.blits)
    decreases |xs|
  {
    if xs != [] {
      var n := |xs|;
      var xs' := xs[..n - 1];
      var x := xs[n - 1];
      assert Increasing(xs');
      assert ColumnsIn(cv, img, xs', ys);
      FrameBlits(cv, img, xs', ys);
      var d' := DrawFrame(cv, img, xs', ys);
      var d := DrawFrame(cv, img, xs, ys);
      assert RowsIn(cv, img, x, ys);
      ColumnBlits(cv, img, d', x, ys);
      assert d == DrawColumn(cv, img, d', x, ys);
      forall k | 0 <= k < |d'.blits|
        ensures d.blits[k] == d'.blits[k]
        ensures d'.blits[k].x in xs && d'.blits[k].x < x
      {
        assert d.blits[..|d'.blits|][k] == d.blits[k];
        var a :| 0 <= a < n - 1 && xs'[a] == d'.blits[k].x;
        assert xs[a] == d'.blits[k].x;
      }
    }
  }

  /** The loops blit at most once per visited cell: |xs| * |ys| times. */
  lemma {:induction false} FrameCount<G>(cv: Converter<G>, img: Image, xs: seq<int>, ys: seq<int>)
    requires ColumnsIn(cv, img, xs, ys)
    ensures |DrawFrame(cv, img, xs, ys).blits| <= |xs| * |ys|
    decreases |xs|
  {
    if xs != [] {
      var n := |xs|;
      var xs' := xs[..n - 1];
      assert ColumnsIn(cv, img, xs', ys);
      FrameCount(cv, img, xs', ys);
      assert RowsIn(cv, img, xs[n - 1], ys);
      assert (n - 1) * |ys| + |ys| == n * |ys|;
    }
  }

  /** The loops raise nothing exactly when no visited cell raises. */
  lemma {:induction false} FrameRaises<G>(cv: Converter<G>, img: Image, xs: seq<int>, ys: seq<int>)
    requires ColumnsIn(cv, img, xs, ys)
    ensures DrawFrame(cv, img, xs, ys).error == None <==>
            forall i, j :: 0 <= i < |xs| && 0 <= j < |ys| ==> !CellAt(cv, img, xs[i], ys[j]).Raise?
    decreases |xs|
  {
    if xs != [] {
      var n := |xs|;
      var xs' := xs[..n - 1];
      var x := xs[n - 1];
      assert ColumnsIn(cv, img, xs', ys);
      FrameRaises(cv, img, xs', ys);
      assert RowsIn(cv, img, x, ys);
      var d' := DrawFrame(cv, img, xs', ys);
      assert DrawFrame(cv, img, xs, ys) == DrawColumn(cv, img, d', x, ys);
      ColumnRaises(cv, img, d', x, ys);
      assert forall i :: 0 <= i < n - 1 ==> xs'[i] == xs[i];
    }
  }

  /** Without an exception every visited glyph cell is blitted. */
  lemma {:induction false} FrameComplete<G>(cv: Converter<G>, img: Image, xs: seq<int>, ys: seq<int>)
    requires ColumnsIn(cv, img, xs, ys)
    ensures var d := DrawFrame(cv, img, xs, ys);
            d.error == None ==>
              forall i, j :: 0 <= i < |xs| && 0 <= j < |ys| && CellAt(cv, img, xs[i], ys[j]).Glyph? ==>
                Placement(CellAt(cv, img, xs[i], ys[j]).glyph, xs[i], ys[j]) in d.blits
    decreases |xs|
  {
    if xs != [] {
      var n := |xs|;
      var xs' := xs[..n - 1];
      var x := xs[n - 1];
      assert ColumnsIn(cv, img, xs', ys);
      FrameComplete(cv, img, xs', ys);
      var d' := DrawFrame(cv, img, xs', ys);
      assert RowsIn(cv, img, x, ys);
      ColumnComplete(cv, img, d', x, ys);
      var d := DrawColumn(cv, img, d', x, ys);
      if d'.error == None && d.error == None {
        forall i, j | 0 <= i < n && 0 <= j < |ys| && CellAt(cv, img, xs[i], ys[j]).Glyph?
          ensures Placement(CellAt(cv, img, xs[i], ys[j]).glyph, xs[i], ys[j]) in d.blits
        {
          if i < n - 1 {
            assert xs'[i] == xs[i];
          }
        }
      }
    }
  }

  // ---------------------------------------------------------------------
  // What the surface shows

  /** The surface shows a glyph exactly at the cells something was blitted at. */
  lemma {:induction false} ViewKeys<G>(blits: seq<Placement<G>>)
    ensures View(blits).Keys == set p | p in blits :: (p.x, p.y)
  {
    if blits != [] {
      var n := |blits|;
      var prefix, last := blits[..n - 1], blits[n - 1];
      ViewKeys(prefix);
      assert blits == prefix + [last];
      forall c | c in View(blits)
        ensures c in set p | p in blits :: (p.x, p.y)
      {
        if c != (last.x, last.y) {
          var p :| p in prefix && (p.x, p.y) == c;
          assert p in blits;
        }
      }
    }
  }

  /** When the blits come in loop order, each blitted cell shows the glyph
   *  blitted at it. */
  lemma {:induction false} ViewOf<G>(blits: seq<Placement<G>>)
    requires Ordered(blits)
    ensures forall p :: p in blits ==> (p.x, p.y) in View(blits) && View(blits)[(p.x, p.y)] == p.glyph
  {
    if blits != [] {
      var n := |blits|;
      var prefix, last := blits[..n - 1], blits[n - 1];
      assert Ordered(prefix);
      ViewOf(prefix);
      forall p | p in blits
        ensures (p.x, p.y) in View(blits) && View(blits)[(p.x, p.y)] == p.glyph
      {
        if p != last {
          var k :| 0 <= k < n && blits[k] == p;
          if k == n - 1 {
            assert false;
          }
          assert Before(blits[k], blits[n - 1]);
          assert p in prefix;
        }
      }
    }
  }

  /** The loops visit exactly the sampled cells. */
  lemma VisitedIffSampled<G>(cv: Converter<G>, x: int, y: int)
    requires cv.Valid()
    ensures Sampled(cv, x, y) <==> x in Xs(cv) && y in Ys(cv)
  {
    RangeMembers(0, cv.width, cv.charStep, x);
    RangeMembers(0, cv.height, cv.charStep, y);
  }

  /** One call raises exactly when some sampled cell raises: IndexError for a
   *  character index past the set, KeyError for a key missing from the palette. */
  lemma ConversionRaises<G>(cv: Converter<G>, img: Image)
    requires cv.Valid() && Conforms(img, cv.width, cv.height)
    ensures Converted(cv, img).error == None <==>
            forall x, y :: Sampled(cv, x, y) ==> !CellAt(cv, img, x, y).Raise?
  {
    var xs, ys := Xs(cv), Ys(cv);
    SampledInFrame(cv, img);
    FrameRaises(cv, img, xs, ys);
    if Converted(cv, img).error == None {
      forall x, y | Sampled(cv, x, y)
        ensures !CellAt(cv, img, x, y).Raise?
      {
        VisitedIffSampled(cv, x, y);
        var i :| 0 <= i < |xs| && xs[i] == x;
        var j :| 0 <= j < |ys| && ys[j] == y;
      }
    } else {
      var i, j :| 0 <= i < |xs| && 0 <= j < |ys| && CellAt(cv, img, xs[i], ys[j]).Raise?;
      VisitedIffSampled(cv, xs[i], ys[j]);
    }
  }

  /**
   * Every blit of one call is at a sampled cell whose grey value picks a
   * non-blank character, and is PALETTE[chars[index]][colour key] of that
   * cell; the blits come x-major, then by y, so no cell is blitted twice.
   */
  lemma ConversionBlits<G>(cv: Converter<G>, img: Image)
    requires cv.Valid() && Conforms(img, cv.width, cv.height)
    ensures var d := Converted(cv, img);
            Ordered(d.blits) &&
            forall k :: 0 <= k < |d.blits| ==>
              var p := d.blits[k];
              Sampled(cv, p.x, p.y) &&
              var index := CharIndex(img.gray[p.x][p.y], cv.asciiCoeff);
              var key := ColorKey(img.rgb[p.x][p.y], cv.colorCoeff);
              index != 0 && index < |cv.chars| &&
              cv.chars[index] in cv.palette && key in cv.palette[cv.chars[index]] &&
              p.glyph == cv.palette[cv.chars[index]][key]
  {
    var d := Converted(cv, img);
    SampledInFrame(cv, img);
    FrameBlits(cv, img, Xs(cv), Ys(cv));
    forall k | 0 <= k < |d.blits|
      ensures Sampled(cv, d.blits[k].x, d.blits[k].y)
    {
      VisitedIffSampled(cv, d.blits[k].x, d.blits[k].y);
    }
  }

  /**
   * The surface is filled first, so after a call that raises nothing it
   * shows what the current frame alone determines: each sampled cell whose
   * character is not the blank shows its glyph, and every other cell is black.
   */
  lemma ConversionView<G>(cv: Converter<G>, img: Image)
    requires cv.Valid() && Conforms(img, cv.width, cv.height)
    requires Converted(cv, img).error == None
    ensures var v := View(Converted(cv, img).blits);
            (forall x, y :: (x, y) in v <==> Sampled(cv, x, y) && CellAt(cv, img, x, y).Glyph?) &&
            (forall x, y :: (x, y) in v ==> v[(x, y)] == CellAt(cv, img, x, y).glyph)
  {
    var v := View(Converted(cv, img).blits);
    forall x, y | Sampled(cv, x, y) && CellAt(cv, img, x, y).Glyph?
      ensures (x, y) in v
    {
      SampledGlyphShown(cv, img, x, y);
    }
    forall x, y | (x, y) in v
      ensures Sampled(cv, x, y) && CellAt(cv, img, x, y).Glyph? && v[(x, y)] == CellAt(cv, img, x, y).glyph
    {
      ShownIsSampledGlyph(cv, img, x, y);
    }
  }

  lemma SampledGlyphShown<G>(cv: Converter<G>, img: Image, x: int, y: int)
    requires cv.Valid() && Conforms(img, cv.width, cv.height)
    requires Converted(cv, img).error == None
    requires Sampled(cv, x, y) && CellAt(cv, img, x, y).Glyph?
    ensures (x, y) in View(Converted(cv, img).blits)
  {
    var xs, ys := Xs(cv), Ys(cv);
    var d := Converted(cv, img);
    SampledInFrame(cv, img);
    FrameComplete(cv, img, xs, ys);
    ViewKeys(d.blits);
    VisitedIffSampled(cv, x, y);
    var i :| 0 <= i < |xs| && xs[i] == x;
    var j :| 0 <= j < |ys| && ys[j] == y;
    var p := Placement(CellAt(cv, img, x, y).glyph, x, y);
    assert p in d.blits;
  }

  lemma ShownIsSampledGlyph<G>(cv: Converter<G>, img: Image, x: int, y: int)
    requires cv.Valid() && Conforms(img, cv.width, cv.height)
    requires (x, y) in View(Converted(cv, img).blits)
    ensures Sampled(cv, x, y) && CellAt(cv, img, x, y).Glyph?
    ensures View(Converted(cv, img).blits)[(x, y)] == CellAt(cv, img, x, y).glyph
  {
    var d := Converted(cv, img);
    SampledInFrame(cv, img);
    FrameBlits(cv, img, Xs(cv), Ys(cv));
    ViewKeys(d.blits);
    ViewOf(d.blits);
    var p :| p in d.blits && (p.x, p.y) == (x, y);
    var k :| 0 <= k < |d.blits| && d.blits[k] == p;
    VisitedIffSampled(cv, x, y);
  }

  /** At most ceil(WIDTH / CHAR_STEP) * ceil(HEIGHT / CHAR_STEP) blits. */
  lemma BlitBound<G>(cv: Converter<G>, img: Image)
    requires cv.Valid() && Conforms(img, cv.width, cv.height)
    ensures |Xs(cv)| == (cv.width + cv.charStep - 1) / cv.charStep
    ensures |Ys(cv)| == (cv.height + cv.charStep - 1) / cv.charStep
    ensures |Converted(cv, img).blits| <= |Xs(cv)| * |Ys(cv)|
  {
    SampledInFrame(cv, img);
    FrameCount(cv, img, Xs(cv), Ys(cv));
    RangeLength(0, cv.width, cv.charStep);
    RangeLength(0, cv.height, cv.charStep);
    DivUnique(cv.charStep - 1, cv.charStep, 0, cv.charStep - 1);
  }

  /** CHAR_STEP 6 on a 120 x 90 frame visits 20 x 15 = 300 cells. */
  lemma SampleGrid<G>(cv: Converter<G>, img: Image)
    requires cv.Valid() && Conforms(img, cv.width, cv.height)
    requires cv.width == 120 && cv.height == 90 && cv.charStep == 6
    ensures |Xs(cv)| == 20 && |Ys(cv)| == 15
    ensures |Converted(cv, img).blits| <= 300
  {
    BlitBound(cv, img);
    assert (120 + 6 - 1) / 6 == 20 && (90 + 6 - 1) / 6 == 15;
    assert |Xs(cv)| * |Ys(cv)| == 300;
  }
}
