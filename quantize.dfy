/**
 * Integer quantisation of the converter: the luminance bucket width, the
 * colour bucket width, the evenly spaced channel levels, and the floor
 * divisions that turn a grey value into a character index and a pixel into
 * a palette key.
 */
module Quantize {

  /** One 8-bit sample of a frame (a numpy uint8). */
  type Byte = v: int | 0 <= v < 256

  /** An (r, g, b) triple: a pixel, a representative colour or a palette key. */
  datatype Rgb = Rgb(r: int, g: int, b: int)

  predicate IsPixel(c: Rgb) {
    0 <= c.r < 256 && 0 <= c.g < 256 && 0 <= c.b < 256
  }

  /** The converter's character set, emptiest to densest. */
  const DEFAULT_CHARS: string := " ixzao*#MW&8%B@$"

  /** The default number of levels per colour channel. */
  const DEFAULT_COLOR_LEVELS: int := 16

  /**
   * numpy floor division of an array element by a non-negative scalar
   * (Dafny's division agrees with floor division for a positive divisor).
   * A zero divisor yields 0: numpy warns instead of raising.
   */
  function FloorDiv(v: int, d: int): (q: int)
    requires 0 <= d
    ensures d == 0 ==> q == 0
    ensures d > 0 ==> q * d <= v < q * d + d
    ensures 0 <= v ==> 0 <= q
  {
    if d == 0 then 0 else v / d
  }

  /** Width of one of `intervals` equal buckets spanning 0..255, truncated. */
  function StepWidth(intervals: int): (w: int)
    requires intervals >= 1
    ensures 0 <= w && w * intervals <= 255 < w * intervals + intervals
  {
    255 / intervals
  }

  /** ASCII_COEFF: 255 // (len(ASCII_CHARS) - 1). */
  function AsciiCoeff(chars: string): (w: int)
    requires |chars| >= 2
    ensures 0 <= w && w * (|chars| - 1) <= 255 < (w + 1) * (|chars| - 1)
  {
    StepWidth(|chars| - 1)
  }

  /** COLOR_COEFF: int(retstep) of np.linspace(0, 255, levels), i.e. 255 / (levels - 1) truncated. */
  function ColorCoeff(levels: int): (w: int)
    requires levels >= 2
    ensures 0 <= w && w * (levels - 1) <= 255 < (w + 1) * (levels - 1)
  {
    StepWidth(levels - 1)
  }

  /** The character index of a grey value. */
  function CharIndex(gray: int, coeff: int): (i: int)
    requires 0 <= coeff
    ensures coeff > 0 ==> i * coeff <= gray < i * coeff + coeff
    ensures coeff == 0 ==> i == 0
    ensures 0 <= gray ==> 0 <= i
  {
    FloorDiv(gray, coeff)
  }

  /** The palette key of a colour: each channel floor-divided by the bucket width. */
  function ColorKey(c: Rgb, coeff: int): (k: Rgb)
    requires 0 <= coeff
    ensures coeff > 0 ==>
              k.r * coeff <= c.r < k.r * coeff + coeff &&
              k.g * coeff <= c.g < k.g * coeff + coeff &&
              k.b * coeff <= c.b < k.b * coeff + coeff
    ensures coeff == 0 ==> k == Rgb(0, 0, 0)
    ensures IsPixel(c) ==> 0 <= k.r && 0 <= k.g && 0 <= k.b
  {
    Rgb(FloorDiv(c.r, coeff), FloorDiv(c.g, coeff), FloorDiv(c.b, coeff))
  }

  /** The colour a key stands for: each channel of the key times the bucket width. */
  function Representative(k: Rgb, coeff: int): Rgb {
    Rgb(k.r * coeff, k.g * coeff, k.b * coeff)
  }

  /**
   * The channel values of np.linspace(0, 255, levels, dtype=int), in their
   * exact integer form k * 255 / (levels - 1).
   */
  function Levels(levels: int): (s: seq<int>)
    requires levels >= 2
    ensures |s| == levels && s[0] == 0 && s[levels - 1] == 255
    ensures forall k :: 0 <= k < levels ==> 0 <= s[k] <= 255
  {
    seq(levels, k requires 0 <= k < levels => Level(k, levels - 1))
  }

  /** Level k of intervals + 1 evenly spaced levels from 0 to 255. */
  function Level(k: int, intervals: int): (v: int)
    requires 1 <= intervals && 0 <= k <= intervals
    ensures 0 <= v <= 255
    ensures k == 0 ==> v == 0
    ensures k == intervals ==> v == 255
  {
    LevelBounds(intervals, k);
    MulDivCancel(255, intervals);
    k * 255 / intervals
  }

  lemma LevelBounds(intervals: int, k: int)
    requires 1 <= intervals && 0 <= k <= intervals
    ensures 0 <= k * 255 / intervals <= 255
  {
    MulNonNegative(k, 255);
    MulNonNegative(intervals - k, 255);
    DivMonotone(k * 255, 255 * intervals, intervals);
    MulDivCancel(255, intervals);
  }

  /** True when the buckets of width 255 / intervals tile 0..255 exactly. */
  predicate Divides255(intervals: int) {
    1 <= intervals <= 255 && 255 % intervals == 0
  }

  // ---------------------------------------------------------------------
  // Arithmetic helpers

  /** A product of non-negatives is non-negative. */
  lemma MulNonNegative(x: int, y: int)
    requires 0 <= x && 0 <= y
    ensures 0 <= x * y
  {
  }

  /** The quotient and remainder of a division are unique. */
  lemma DivUnique(a: int, d: int, q: int, r: int)
    requires d > 0 && a == q * d + r && 0 <= r < d
    ensures a / d == q
  {
    var q', r' := a / d, a % d;
    assert a == q' * d + r' && 0 <= r' < d;
    assert (q - q') * d == r' - r;
    if q > q' {
      MulNonNegative(q - q' - 1, d);
    } else if q < q' {
      MulNonNegative(q' - q - 1, d);
    }
  }

  lemma MulDivCancel(a: int, d: int)
    requires d > 0
    ensures (a * d) / d == a
  {
    DivUnique(a * d, d, a, 0);
  }

  lemma DivMonotone(a: int, b: int, d: int)
    requires 0 <= a <= b && d > 0
    ensures a / d <= b / d
  {
    var qa, qb := a / d, b / d;
    assert qa * d <= a && b < qb * d + d;
    if qa > qb {
      MulNonNegative(qa - qb - 1, d);
    }
  }

  /** With exact buckets the top bucket index is intervals, reached by 255 itself. */
  lemma {:induction false} ExactWidth(intervals: int)
    requires Divides255(intervals)
    ensures StepWidth(intervals) * intervals == 255
    ensures StepWidth(intervals) >= 1
  {
  }

  // ---------------------------------------------------------------------
  // Properties

  /** The source's constants: with 16 characters the bucket width is 17 and
   *  every grey value picks a valid character; with 16 levels it is also 17. */
  lemma DefaultWidths()
    ensures AsciiCoeff(DEFAULT_CHARS) == 17
    ensures ColorCoeff(DEFAULT_COLOR_LEVELS) == 17
    ensures forall v: Byte :: 0 <= CharIndex(v, 17) < |DEFAULT_CHARS|
  {
  }

  /**
   * When intervals divides 255, every sample 0..255 falls in one of the
   * intervals + 1 buckets, and 255 falls in the last one; so a character
   * set of intervals + 1 characters (or intervals + 1 colour levels) is
   * indexed in range.
   */
  lemma IndexInRange(intervals: int, v: int)
    requires Divides255(intervals)
    requires 0 <= v <= 255
    ensures 0 <= FloorDiv(v, StepWidth(intervals)) <= intervals
    ensures FloorDiv(255, StepWidth(intervals)) == intervals
  {
    var w := StepWidth(intervals);
    ExactWidth(intervals);
    DivMonotone(v, 255, w);
    MulDivCancel(intervals, w);
    assert 255 == intervals * w;
  }

  /** A grey value gets character index 0 (the blank) exactly when it is
   *  darker than one bucket width. */
  lemma ZeroIndexIffDark(v: int, coeff: int)
    requires 0 <= v && 1 <= coeff
    ensures CharIndex(v, coeff) == 0 <==> v < coeff
  {
  }

  /** Under exact buckets, a level's key is its own index: level k is k * width. */
  lemma {:induction false} LevelKey(levels: int, k: int)
    requires levels >= 2 && Divides255(levels - 1)
    requires 0 <= k < levels
    ensures Levels(levels)[k] == k * ColorCoeff(levels)
    ensures FloorDiv(Levels(levels)[k], ColorCoeff(levels)) == k
  {
    var w := ColorCoeff(levels);
    ExactWidth(levels - 1);
    assert k * 255 == (k * w) * (levels - 1);
    MulDivCancel(k * w, levels - 1);
    MulDivCancel(k, w);
  }

  /** The luminance width 255 // 1 of a two-character set " #" lets only
   *  grey 255 through, as the second character. */
  lemma TwoCharacterSet(v: Byte)
    ensures AsciiCoeff(" #") == 255
    ensures CharIndex(v, AsciiCoeff(" #")) == (if v == 255 then 1 else 0)
  {
  }

  /** With 17 characters the width is 255 // 16 = 15 and grey 255 gets index
   *  17, past the last character, so ASCII_CHARS[char_index] raises. */
  lemma SeventeenCharacters(chars: string)
    requires |chars| == 17
    ensures AsciiCoeff(chars) == 15
    ensures CharIndex(255, AsciiCoeff(chars)) == 17 >= |chars|
  {
  }

  /** Grey 200 picks the twelfth default character, '8'; colour (200, 10, 250)
   *  has key (11, 0, 14). */
  lemma SampleQuantisation()
    ensures CharIndex(200, AsciiCoeff(DEFAULT_CHARS)) == 11
    ensures DEFAULT_CHARS[11] == '8'
    ensures ColorKey(Rgb(200, 10, 250), ColorCoeff(DEFAULT_COLOR_LEVELS)) == Rgb(11, 0, 14)
  {
  }
}
