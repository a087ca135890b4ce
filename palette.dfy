/**
 * ArtConverter.create_palette: the glyph cache built once at start-up.
 * For every character of the character set and every representative colour
 * of the cube of evenly spaced channel levels, the rendered glyph is stored
 * under the character and the colour's quantised key.
 */
module Palette {
  import opened Errors
  import opened Quantize

  /** The glyph cache: character -> colour key -> glyph rendered by the font. */
  type Table<G> = map<char, map<Rgb, G>>

  /** What create_palette returns: the cache and the colour bucket width. */
  datatype Built<G> = Built(palette: Table<G>, colorCoeff: int)

  predicate Distinct<T(==)>(s: seq<T>) {
    forall i, j :: 0 <= i < j < |s| ==> s[i] != s[j]
  }

  function Elements<T(==)>(s: seq<T>): set<T> {
    set x | x in s
  }

  // ---------------------------------------------------------------------
  // The colour cube: [np.array([r, g, b]) for r in colors for g in colors for b in colors]

  /** [(r, g, b) for b in bs] */
  function Row(r: int, g: int, bs: seq<int>): seq<Rgb> {
    seq(|bs|, k requires 0 <= k < |bs| => Rgb(r, g, bs[k]))
  }

  /** [(r, g, b) for g in gs for b in bs] */
  function Plane(r: int, gs: seq<int>, bs: seq<int>): seq<Rgb>
    decreases |gs|
  {
    if gs == [] then [] else Row(r, gs[0], bs) + Plane(r, gs[1..], bs)
  }

  /** [(r, g, b) for r in rs for g in gs for b in bs] */
  function Cube(rs: seq<int>, gs: seq<int>, bs: seq<int>): seq<Rgb>
    decreases |rs|
  {
    if rs == [] then [] else Plane(rs[0], gs, bs) + Cube(rs[1..], gs, bs)
  }

  /** The representative colours: the cube of the channel levels. */
  function ColorPalette(colors: seq<int>): (cube: seq<Rgb>)
    requires forall k :: 0 <= k < |colors| ==> 0 <= colors[k] <= 255
    ensures forall c :: c in cube ==> IsPixel(c)
  {
    forall c | c in Cube(colors, colors, colors)
      ensures IsPixel(c)
    {
      InCube(c, colors, colors, colors);
    }
    Cube(colors, colors, colors)
  }

  lemma {:induction false} InPlane(c: Rgb, r: int, gs: seq<int>, bs: seq<int>)
    ensures c in Plane(r, gs, bs) <==> c.r == r && c.g in gs && c.b in bs
    decreases |gs|
  {
    if gs != [] {
      InPlane(c, r, gs[1..], bs);
      assert c.g in gs <==> c.g == gs[0] || c.g in gs[1..];
    }
  }

  /** A colour is in the cube exactly when each channel is one of the levels. */
  lemma {:induction false} InCube(c: Rgb, rs: seq<int>, gs: seq<int>, bs: seq<int>)
    ensures c in Cube(rs, gs, bs) <==> c.r in rs && c.g in gs && c.b in bs
    decreases |rs|
  {
    if rs != [] {
      InCube(c, rs[1..], gs, bs);
      InPlane(c, rs[0], gs, bs);
      assert c.r in rs <==> c.r == rs[0] || c.r in rs[1..];
    }
  }

  lemma {:induction false} PlaneLength(r: int, gs: seq<int>, bs: seq<int>)
    ensures |Plane(r, gs, bs)| == |gs| * |bs|
    decreases |gs|
  {
    if gs != [] {
      PlaneLength(r, gs[1..], bs);
    }
  }

  /** The cube of n levels holds n * n * n colours. */
  lemma {:induction false} CubeLength(rs: seq<int>, gs: seq<int>, bs: seq<int>)
    ensures |Cube(rs, gs, bs)| == |rs| * (|gs| * |bs|)
    decreases |rs|
  {
    if rs != [] {
      var m := |gs| * |bs|;
      CubeLength(rs[1..], gs, bs);
      PlaneLength(rs[0], gs, bs);
      assert |Cube(rs, gs, bs)| == m + (|rs| - 1) * m;
    }
  }

  lemma DistinctConcat<T>(a: seq<T>, b: seq<T>)
    requires Distinct(a) && Distinct(b)
    requires forall x :: x in a ==> x !in b
    ensures Distinct(a + b)
  {
    forall i, j | 0 <= i < j < |a + b|
      ensures (a + b)[i] != (a + b)[j]
    {
      if j >= |a| && i < |a| {
        assert (a + b)[i] in a && (a + b)[j] in b;
      }
    }
  }

  lemma {:induction false} PlaneDistinct(r: int, gs: seq<int>, bs: seq<int>)
    requires Distinct(gs) && Distinct(bs)
    ensures Distinct(Plane(r, gs, bs))
    decreases |gs|
  {
    if gs != [] {
      PlaneDistinct(r, gs[1..], bs);
      forall x | x in Row(r, gs[0], bs)
        ensures x !in Plane(r, gs[1..], bs)
      {
        InPlane(x, r, gs[1..], bs);
        assert gs[0] !in gs[1..];
      }
      DistinctConcat(Row(r, gs[0], bs), Plane(r, gs[1..], bs));
    }
  }

  /** Distinct levels give a cube without repeated colours. */
  lemma {:induction false} CubeDistinct(rs: seq<int>, gs: seq<int>, bs: seq<int>)
    requires Distinct(rs) && Distinct(gs) && Distinct(bs)
    ensures Distinct(Cube(rs, gs, bs))
    decreases |rs|
  {
    if rs != [] {
      CubeDistinct(rs[1..], gs, bs);
      PlaneDistinct(rs[0], gs, bs);
      forall x | x in Plane(rs[0], gs, bs)
        ensures x !in Cube(rs[1..], gs, bs)
      {
        InPlane(x, rs[0], gs, bs);
        InCube(x, rs[1..], gs, bs);
        assert rs[0] !in rs[1..];
      }
      DistinctConcat(Plane(rs[0], gs, bs), Cube(rs[1..], gs, bs));
    }
  }

  /** A sequence without repetitions has as many elements as its length. */
  lemma {:induction false} DistinctCard<T>(s: seq<T>)
    requires Distinct(s)
    ensures |Elements(s)| == |s|
  {
    if s != [] {
      var p, last := s[..|s| - 1], s[|s| - 1];
      DistinctCard(p);
      assert s == p + [last];
      forall k | 0 <= k < |p|
        ensures p[k] != last
      {
        assert p[k] == s[k];
      }
      assert Elements(s) == Elements(p) + {last};
    }
  }

  // ---------------------------------------------------------------------
  // The tables

  /**
   * char_palette of one character after inserting the colours in order:
   * each colour's glyph is stored under its key, a later colour with the
   * same key replacing an earlier one.
   */
  function CharTable<G>(ch: char, colors: seq<Rgb>, coeff: nat, render: (char, Rgb) -> G): (t: map<Rgb, G>)
    requires forall c :: c in colors ==> IsPixel(c)
    ensures t.Keys == set c | c in colors :: ColorKey(c, coeff)
    decreases |colors|
  {
    if colors == [] then map[]
    else
      var last := colors[|colors| - 1];
      var t := CharTable(ch, colors[..|colors| - 1], coeff, render);
      assert colors == colors[..|colors| - 1] + [last];
      t[ColorKey(last, coeff) := render(ch, last)]
  }

  /** The palette dictionary: one char_palette per character of the set. */
  function PaletteOf<G>(chars: string, colors: seq<Rgb>, coeff: nat, render: (char, Rgb) -> G): (p: Table<G>)
    requires forall c :: c in colors ==> IsPixel(c)
    ensures p.Keys == Elements(chars)
    ensures forall ch :: ch in p ==> p[ch].Keys == set c | c in colors :: ColorKey(c, coeff)
  {
    map ch | ch in chars :: CharTable(ch, colors, coeff, render)
  }

  lemma CharTableExtend<G>(ch: char, colors: seq<Rgb>, j: nat, coeff: nat, render: (char, Rgb) -> G)
    requires forall c :: c in colors ==> IsPixel(c)
    requires j < |colors|
    ensures CharTable(ch, colors[..j + 1], coeff, render)
         == CharTable(ch, colors[..j], coeff, render)[ColorKey(colors[j], coeff) := render(ch, colors[j])]
  {
    assert colors[..j + 1][..j] == colors[..j];
  }

  lemma PaletteOfExtend<G>(chars: string, i: nat, colors: seq<Rgb>, coeff: nat, render: (char, Rgb) -> G)
    requires forall c :: c in colors ==> IsPixel(c)
    requires i < |chars|
    ensures PaletteOf(chars[..i + 1], colors, coeff, render)
         == PaletteOf(chars[..i], colors, coeff, render)[chars[i] := CharTable(chars[i], colors, coeff, render)]
  {
    assert chars[..i + 1] == chars[..i] + [chars[i]];
  }

  /** The inner loop of create_palette: one character rendered in every colour. */
  method RenderCharacter<G>(ch: char, colorPalette: seq<Rgb>, coeff: nat, render: (char, Rgb) -> G)
    returns (charPalette: map<Rgb, G>)
    requires forall c :: c in colorPalette ==> IsPixel(c)
    ensures charPalette == CharTable(ch, colorPalette, coeff, render)
  {
    charPalette := map[];
    for j := 0 to |colorPalette|
      invariant charPalette == CharTable(ch, colorPalette[..j], coeff, render)
    {
      var color := colorPalette[j];
      CharTableExtend(ch, colorPalette, j, coeff, render);
      charPalette := charPalette[ColorKey(color, coeff) := render(ch, color)];
    }
    assert colorPalette[..|colorPalette|] == colorPalette;
  }

  /** What create_palette builds for a character set and a number of colour levels. */
  function PaletteSpec<G>(chars: string, colorLvl: int, render: (char, Rgb) -> G): (p: Table<G>)
    requires colorLvl >= 2
    ensures p.Keys == Elements(chars)
    ensures forall ch :: ch in p ==>
              p[ch].Keys == set c | c in ColorPalette(Levels(colorLvl)) :: ColorKey(c, ColorCoeff(colorLvl))
  {
    PaletteOf(chars, ColorPalette(Levels(colorLvl)), ColorCoeff(colorLvl), render)
  }

  /**
   * ArtConverter.create_palette. dict.fromkeys makes one entry per distinct
   * character; iterating over the characters themselves writes a repeated
   * character's identical table twice, which leaves the same dictionary.
   */
  method CreatePalette<G>(chars: string, colorLvl: int, render: (char, Rgb) -> G) returns (res: Result<Built<G>>)
    ensures colorLvl < 2 ==> res == Failure(ValueError)
    ensures colorLvl >= 2 ==> res == Success(Built(PaletteSpec(chars, colorLvl, render), ColorCoeff(colorLvl)))
  {
    if colorLvl < 2 {
      // 0 or 1 samples: np.linspace's step is NaN and int(NaN) raises;
      // a negative count: np.linspace itself raises
      return Failure(ValueError);
    }
    var colors := Levels(colorLvl);
    var coeff := ColorCoeff(colorLvl);
    var colorPalette := ColorPalette(colors);
    var palette: Table<G> := map[];
    for i := 0 to |chars|
      invariant palette == PaletteOf(chars[..i], colorPalette, coeff, render)
    {
      var ch := chars[i];
      var charPalette := RenderCharacter(ch, colorPalette, coeff, render);
      PaletteOfExtend(chars, i, colorPalette, coeff, render);
      palette := palette[ch := charPalette];
    }
    assert chars[..|chars|] == chars;
    return Success(Built(palette, coeff));
  }

  // ---------------------------------------------------------------------
  // Properties of the cache

  /** The palette has exactly one entry per character of the set, each
   *  holding that character's table. */
  lemma PaletteEntries<G>(chars: string, colorLvl: int, render: (char, Rgb) -> G)
    requires colorLvl >= 2
    ensures PaletteSpec(chars, colorLvl, render).Keys == Elements(chars)
    ensures forall ch :: ch in chars ==>
      PaletteSpec(chars, colorLvl, render)[ch] == CharTable(ch, ColorPalette(Levels(colorLvl)), ColorCoeff(colorLvl), render)
  {
  }

  /**
   * A colour that is the only one in the list with its key is what the table
   * holds under that key: its own glyph in its own unquantised colour.
   */
  lemma {:induction false} CharTableAt<G>(ch: char, colors: seq<Rgb>, coeff: nat, render: (char, Rgb) -> G, c: Rgb)
    requires forall d :: d in colors ==> IsPixel(d)
    requires c in colors
    requires forall d :: d in colors && ColorKey(d, coeff) == ColorKey(c, coeff) ==> d == c
    ensures ColorKey(c, coeff) in CharTable(ch, colors, coeff, render)
    ensures CharTable(ch, colors, coeff, render)[ColorKey(c, coeff)] == render(ch, c)
    decreases |colors|
  {
    var last := colors[|colors| - 1];
    var prefix := colors[..|colors| - 1];
    assert colors == prefix + [last];
    if last != c {
      CharTableAt(ch, prefix, coeff, render, c);
    }
  }

  predicate KeyInRange(k: Rgb, levels: int) {
    0 <= k.r < levels && 0 <= k.g < levels && 0 <= k.b < levels
  }

  /** Under exact buckets every representative colour is the bucket width
   *  times its key, and its key is in range. */
  lemma CubeColorIsScaledKey(levels: int, d: Rgb)
    requires levels >= 2 && Divides255(levels - 1)
    requires d in ColorPalette(Levels(levels))
    ensures KeyInRange(ColorKey(d, ColorCoeff(levels)), levels)
    ensures d == Representative(ColorKey(d, ColorCoeff(levels)), ColorCoeff(levels))
  {
    var colors := Levels(levels);
    InCube(d, colors, colors, colors);
    var a :| 0 <= a < levels && colors[a] == d.r;
    var b :| 0 <= b < levels && colors[b] == d.g;
    var c :| 0 <= c < levels && colors[c] == d.b;
    LevelKey(levels, a);
    LevelKey(levels, b);
    LevelKey(levels, c);
  }

  /** Under exact buckets every in-range key is the key of the cube colour
   *  that is the bucket width times it. */
  lemma ScaledKeyInCube(levels: int, k: Rgb)
    requires levels >= 2 && Divides255(levels - 1)
    requires KeyInRange(k, levels)
    ensures var w := ColorCoeff(levels);
            var d := Representative(k, w);
            d in ColorPalette(Levels(levels)) && IsPixel(d) && ColorKey(d, w) == k
  {
    var colors := Levels(levels);
    var w := ColorCoeff(levels);
    LevelKey(levels, k.r);
    LevelKey(levels, k.g);
    LevelKey(levels, k.b);
    InCube(Representative(k, w), colors, colors, colors);
  }

  /**
   * When levels - 1 divides 255, each character's table has exactly the keys
   * [0, levels)^3, and under key (i, j, l) the character rendered in the
   * representative colour (i * w, j * w, l * w), not in the key itself.
   */
  lemma ExactCharTable<G>(levels: int, ch: char, render: (char, Rgb) -> G)
    requires levels >= 2 && Divides255(levels - 1)
    ensures var w := ColorCoeff(levels);
            var t := CharTable(ch, ColorPalette(Levels(levels)), w, render);
            (forall k :: k in t <==> KeyInRange(k, levels)) &&
            (forall k :: KeyInRange(k, levels) ==> t[k] == render(ch, Representative(k, w)))
  {
    var w := ColorCoeff(levels);
    var cube := ColorPalette(Levels(levels));
    var t := CharTable(ch, cube, w, render);
    forall k
      ensures k in t <==> KeyInRange(k, levels)
    {
      if k in t {
        var d :| d in cube && ColorKey(d, w) == k;
        CubeColorIsScaledKey(levels, d);
      }
      if KeyInRange(k, levels) {
        ScaledKeyInCube(levels, k);
      }
    }
    forall k | KeyInRange(k, levels)
      ensures t[k] == render(ch, Representative(k, w))
    {
      var c := Representative(k, w);
      ScaledKeyInCube(levels, k);
      forall d | d in cube && ColorKey(d, w) == ColorKey(c, w)
        ensures d == c
      {
        CubeColorIsScaledKey(levels, d);
      }
      CharTableAt(ch, cube, w, render, c);
    }
  }

  function Indices(n: nat): seq<int> {
    seq(n, i requires 0 <= i < n => i)
  }

  /** The cube of indices [0, n)^3, as a set. */
  function KeyCube(n: nat): set<Rgb> {
    Elements(Cube(Indices(n), Indices(n), Indices(n)))
  }

  lemma KeyCubeMembers(n: nat)
    ensures forall k :: k in KeyCube(n) <==> KeyInRange(k, n)
  {
    var ix := Indices(n);
    forall k
      ensures k in KeyCube(n) <==> KeyInRange(k, n)
    {
      InCube(k, ix, ix, ix);
      InIndices(n, k.r);
      InIndices(n, k.g);
      InIndices(n, k.b);
    }
  }

  lemma InIndices(n: nat, v: int)
    ensures v in Indices(n) <==> 0 <= v < n
  {
    if 0 <= v < n {
      assert Indices(n)[v] == v;
    }
  }

  lemma IndicesDistinct(n: nat)
    ensures |Indices(n)| == n && Distinct(Indices(n))
  {
  }

  lemma KeyCubeSize(n: nat)
    ensures |KeyCube(n)| == n * (n * n)
  {
    var ix := Indices(n);
    IndicesDistinct(n);
    CubeDistinct(ix, ix, ix);
    DistinctCard(Cube(ix, ix, ix));
    CubeLength(ix, ix, ix);
  }

  /** When levels - 1 divides 255, each character's table holds levels^3 glyphs. */
  lemma ExactCharTableSize<G>(levels: int, ch: char, render: (char, Rgb) -> G)
    requires levels >= 2 && Divides255(levels - 1)
    ensures |CharTable(ch, ColorPalette(Levels(levels)), ColorCoeff(levels), render)| == levels * (levels * levels)
  {
    var t := CharTable(ch, ColorPalette(Levels(levels)), ColorCoeff(levels), render);
    ExactCharTable(levels, ch, render);
    KeyCubeMembers(levels);
    assert t.Keys == KeyCube(levels);
    KeyCubeSize(levels);
  }

  lemma DefaultCharsDistinct()
    ensures Distinct(DEFAULT_CHARS)
  {
  }

  /**
   * The source's configuration: sixteen distinct characters, space included,
   * each with a table of the 4096 keys [0, 16)^3 whose entry (i, j, l) is the
   * character rendered in colour (17i, 17j, 17l).
   */
  lemma DefaultPalette<G>(render: (char, Rgb) -> G)
    ensures var p := PaletteSpec(DEFAULT_CHARS, DEFAULT_COLOR_LEVELS, render);
            |p| == 16 && ' ' in p &&
            forall ch :: ch in p ==>
              |p[ch]| == 4096 &&
              (forall k :: k in p[ch] <==> KeyInRange(k, 16)) &&
              (forall k :: KeyInRange(k, 16) ==> p[ch][k] == render(ch, Representative(k, 17)))
  {
    var p := PaletteSpec(DEFAULT_CHARS, DEFAULT_COLOR_LEVELS, render);
    PaletteEntries(DEFAULT_CHARS, DEFAULT_COLOR_LEVELS, render);
    DefaultCharsDistinct();
    DistinctCard(DEFAULT_CHARS);
    assert DEFAULT_CHARS[0] == ' ';
    forall ch | ch in p
      ensures |p[ch]| == 4096
      ensures forall k :: k in p[ch] <==> KeyInRange(k, 16)
      ensures forall k :: KeyInRange(k, 16) ==> p[ch][k] == render(ch, Representative(k, 17))
    {
      DefaultCharTable(ch, render);
    }
  }

  lemma DefaultCharTable<G>(ch: char, render: (char, Rgb) -> G)
    ensures var t := CharTable(ch, ColorPalette(Levels(16)), ColorCoeff(16), render);
            |t| == 4096 &&
            (forall k :: k in t <==> KeyInRange(k, 16)) &&
            (forall k :: KeyInRange(k, 16) ==> t[k] == render(ch, Representative(k, 17)))
  {
    DefaultWidths();
    assert Divides255(15);
    ExactCharTableSize(16, ch, render);
    ExactCharTable(16, ch, render);
  }
}
