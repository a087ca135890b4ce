/**
 * The converter end to end: the glyph cache that create_palette builds
 * covers every key that draw_converted_image looks up, for the source's
 * configuration and whenever both bucket widths tile 0..255 exactly; and a
 * configuration where they do not, 100 colour levels, makes the lookup miss.
 */
module Pipeline {
  import opened Errors
  import opened Quantize
  import opened Palette
  import opened Frame
  import opened FrameProperties

  /** The converter __init__ sets up: the character set and its bucket width,
   *  the cache create_palette returns with its bucket width, CHAR_STEP and
   *  the frame size. */
  function ConverterOf<G>(chars: string, colorLvl: int, charStep: int, width: int, height: int,
                          render: (char, Rgb) -> G): (cv: Converter<G>)
    requires |chars| >= 2 && colorLvl >= 2
    ensures cv.Valid() <==> charStep >= 1 && width >= 0 && height >= 0
    ensures cv.chars == chars && cv.palette.Keys == Elements(chars)
  {
    Converter(chars, AsciiCoeff(chars), ColorCoeff(colorLvl), charStep, width, height,
              PaletteSpec(chars, colorLvl, render))
  }

  /**
   * Cache completeness: when len(chars) - 1 and colorLvl - 1 both divide 255,
   * no cell of any frame raises, so draw_converted_image never raises.
   */
  lemma NeverRaises<G>(chars: string, colorLvl: int, charStep: int, width: int, height: int,
                       render: (char, Rgb) -> G, img: Image)
    requires |chars| >= 2 && Divides255(|chars| - 1)
    requires colorLvl >= 2 && Divides255(colorLvl - 1)
    requires charStep >= 1 && width >= 0 && height >= 0 && Conforms(img, width, height)
    ensures var cv := ConverterOf(chars, colorLvl, charStep, width, height, render);
            (forall x, y :: 0 <= x < width && 0 <= y < height ==> !CellAt(cv, img, x, y).Raise?) &&
            Converted(cv, img).error == None
  {
    var cv := ConverterOf(chars, colorLvl, charStep, width, height, render);
    forall x, y | 0 <= x < width && 0 <= y < height
      ensures !CellAt(cv, img, x, y).Raise?
    {
      CellCovered(chars, colorLvl, cv, img, x, y, render);
    }
    ConversionRaises(cv, img);
  }

  lemma CellCovered<G>(chars: string, colorLvl: int, cv: Converter<G>, img: Image, x: int, y: int,
                       render: (char, Rgb) -> G)
    requires |chars| >= 2 && Divides255(|chars| - 1)
    requires colorLvl >= 2 && Divides255(colorLvl - 1)
    requires cv == ConverterOf(chars, colorLvl, cv.charStep, cv.width, cv.height, render)
    requires InFrame(cv, img, x, y)
    ensures !CellAt(cv, img, x, y).Raise?
  {
    IndexInRange(|chars| - 1, img.gray[x][y]);
    KeyCached(chars, colorLvl, cv, img, x, y, render);
  }

  /**
   * The cache holds every key a lookup can ask for when colorLvl - 1 divides
   * 255, whatever the character set: no cell raises KeyError.
   */
  lemma NoKeyError<G>(chars: string, colorLvl: int, charStep: int, width: int, height: int,
                      render: (char, Rgb) -> G, img: Image)
    requires |chars| >= 2
    requires colorLvl >= 2 && Divides255(colorLvl - 1)
    requires charStep >= 1 && width >= 0 && height >= 0 && Conforms(img, width, height)
    ensures var cv := ConverterOf(chars, colorLvl, charStep, width, height, render);
            forall x, y :: 0 <= x < width && 0 <= y < height ==> CellAt(cv, img, x, y) != Raise(KeyError)
  {
    var cv := ConverterOf(chars, colorLvl, charStep, width, height, render);
    forall x, y | 0 <= x < width && 0 <= y < height
      ensures CellAt(cv, img, x, y) != Raise(KeyError)
    {
      KeyCached(chars, colorLvl, cv, img, x, y, render);
    }
  }

  /** A cell whose character index is in range finds its key in the cache. */
  lemma KeyCached<G>(chars: string, colorLvl: int, cv: Converter<G>, img: Image, x: int, y: int,
                     render: (char, Rgb) -> G)
    requires |chars| >= 2
    requires colorLvl >= 2 && Divides255(colorLvl - 1)
    requires cv == ConverterOf(chars, colorLvl, cv.charStep, cv.width, cv.height, render)
    requires InFrame(cv, img, x, y)
    ensures CellAt(cv, img, x, y) != Raise(KeyError)
  {
    var pixel := img.rgb[x][y];
    var index := CharIndex(img.gray[x][y], cv.asciiCoeff);
    if 0 < index < |chars| {
      var ch := chars[index];
      PaletteEntries(chars, colorLvl, render);
      var w := ColorCoeff(colorLvl);
      IndexInRange(colorLvl - 1, pixel.r);
      IndexInRange(colorLvl - 1, pixel.g);
      IndexInRange(colorLvl - 1, pixel.b);
      assert KeyInRange(ColorKey(pixel, w), colorLvl);
      ExactCharTable(colorLvl, ch, render);
    }
  }

  /** The source's configuration, sixteen characters and sixteen levels,
   *  never raises, whatever CHAR_STEP and frame. */
  lemma DefaultNeverRaises<G>(charStep: int, width: int, height: int, render: (char, Rgb) -> G, img: Image)
    requires charStep >= 1 && width >= 0 && height >= 0 && Conforms(img, width, height)
    ensures Converted(ConverterOf(DEFAULT_CHARS, DEFAULT_COLOR_LEVELS, charStep, width, height, render), img).error == None
  {
    assert Divides255(|DEFAULT_CHARS| - 1) && Divides255(DEFAULT_COLOR_LEVELS - 1);
    NeverRaises(DEFAULT_CHARS, DEFAULT_COLOR_LEVELS, charStep, width, height, render, img);
  }

  /** No level of np.linspace(0, 255, 100) lies in the bucket [8, 10) of width 2. */
  lemma NoHundredLevelInBucketFour(a: int)
    requires 0 <= a < 100
    ensures FloorDiv(Levels(100)[a], ColorCoeff(100)) != 4
  {
    assert ColorCoeff(100) == 2;
    if a <= 3 {
      DivMonotone(a * 255, 765, 99);
    } else {
      DivMonotone(1020, a * 255, 99);
    }
  }

  /** With 100 levels no character's table has key (4, 127, 127). */
  lemma HundredLevelsKeyMissing<G>(ch: char, render: (char, Rgb) -> G)
    ensures Rgb(4, 127, 127) !in CharTable(ch, ColorPalette(Levels(100)), ColorCoeff(100), render)
  {
    var colors := Levels(100);
    var cube := ColorPalette(colors);
    var w := ColorCoeff(100);
    if Rgb(4, 127, 127) in CharTable(ch, cube, w, render) {
      var c :| c in cube && ColorKey(c, w) == Rgb(4, 127, 127);
      InCube(c, colors, colors, colors);
      var a :| 0 <= a < 100 && colors[a] == c.r;
      NoHundredLevelInBucketFour(a);
    }
  }

  /**
   * With COLOR_LVL = 100 the bucket width is int(2.57...) = 2, so pixel keys
   * reach 127 per channel while only 100 levels are built: a 1 x 1 frame of
   * colour (8, 255, 255), grey 181 (its BT.601 luma), needs key (4, 127, 127),
   * which no level has, and draw_converted_image raises KeyError with
   * nothing blitted.
   */
  lemma HundredLevelsMiss<G>(render: (char, Rgb) -> G)
    ensures var cv := ConverterOf(DEFAULT_CHARS, 100, 6, 1, 1, render);
            var img := Image([[181]], [[Rgb(8, 255, 255)]]);
            Conforms(img, 1, 1) && cv.Valid() &&
            CellAt(cv, img, 0, 0) == Raise(KeyError) &&
            Converted(cv, img) == Drawn([], Some(KeyError))
  {
    var cv := ConverterOf(DEFAULT_CHARS, 100, 6, 1, 1, render);
    var img := Image([[181]], [[Rgb(8, 255, 255)]]);
    HundredLevelsCell(render);
    assert Xs(cv) == [0] && Ys(cv) == [0];
    assert [0][..0] == [];
  }

  lemma HundredLevelsCell<G>(render: (char, Rgb) -> G)
    ensures var cv := ConverterOf(DEFAULT_CHARS, 100, 6, 1, 1, render);
            var img := Image([[181]], [[Rgb(8, 255, 255)]]);
            InFrame(cv, img, 0, 0) && CellAt(cv, img, 0, 0) == Raise(KeyError)
  {
    var cv := ConverterOf(DEFAULT_CHARS, 100, 6, 1, 1, render);
    var img := Image([[181]], [[Rgb(8, 255, 255)]]);
    HundredLevelsSample(render);
    assert DEFAULT_CHARS[10] in DEFAULT_CHARS;
    HundredLevelsPaletteMisses(DEFAULT_CHARS, DEFAULT_CHARS[10], render);
    MissRaises(cv, img, 0, 0);
  }

  /** The sample cell: grey 181 selects character 10, colour (8, 255, 255) key (4, 127, 127). */
  lemma HundredLevelsSample<G>(render: (char, Rgb) -> G)
    ensures var cv := ConverterOf(DEFAULT_CHARS, 100, 6, 1, 1, render);
            var img := Image([[181]], [[Rgb(8, 255, 255)]]);
            InFrame(cv, img, 0, 0) && cv.chars == DEFAULT_CHARS &&
            CharIndex(img.gray[0][0], cv.asciiCoeff) == 10 &&
            ColorKey(img.rgb[0][0], cv.colorCoeff) == Rgb(4, 127, 127)
  {
    DefaultWidths();
  }

  lemma MissRaises<G>(cv: Converter<G>, img: Image, x: int, y: int)
    requires InFrame(cv, img, x, y)
    requires 0 < CharIndex(img.gray[x][y], cv.asciiCoeff) < |cv.chars|
    requires var ch := cv.chars[CharIndex(img.gray[x][y], cv.asciiCoeff)];
             ch in cv.palette && ColorKey(img.rgb[x][y], cv.colorCoeff) !in cv.palette[ch]
    ensures CellAt(cv, img, x, y) == Raise(KeyError)
  {
  }

  /** With 100 levels no character's table in the cache has key (4, 127, 127). */
  lemma HundredLevelsPaletteMisses<G>(chars: string, ch: char, render: (char, Rgb) -> G)
    requires ch in chars
    ensures var p := PaletteSpec(chars, 100, render);
            ch in p && Rgb(4, 127, 127) !in p[ch]
  {
    PaletteEntries(chars, 100, render);
    HundredLevelsKeyMissing(ch, render);
  }
}
