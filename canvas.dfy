/**
 * Canvas sizing and buffer layout of src/canvas.rs: a width-by-height
 * RGBA buffer of f32 values (modelled as reals), row-major with the four
 * channels of a pixel adjacent.
 */
module Canvas {

  datatype CanvasSpec = CanvasSpec(width: nat, height: nat)

  datatype Canvas = Canvas(buff: seq<real>, spec: CanvasSpec)

  /** `CanvasSpec::new`. */
  function NewSpec(width: nat, height: nat): (s: CanvasSpec)
    ensures s.width == width && s.height == height
  {
    CanvasSpec(width, height)
  }

  /** `Canvas::from_spec`: a zeroed buffer with four channels per pixel,
      remembering the spec it was made for. */
  function FromSpec(spec: CanvasSpec): (c: Canvas)
    ensures |c.buff| == spec.width * spec.height * 4
    ensures forall i :: 0 <= i < |c.buff| ==> c.buff[i] == 0.0
    ensures GetSpec(c) == spec
  {
    Canvas(seq(spec.width * spec.height * 4, _ => 0.0), spec)
  }

  /** `Canvas::get_spec`. */
  function GetSpec(c: Canvas): CanvasSpec
  {
    c.spec
  }

  /** Position of channel `ch` of pixel (`row`, `col`) in the buffer. */
  function PixelIndex(spec: CanvasSpec, row: nat, col: nat, ch: nat): (i: nat)
    requires row < spec.height && col < spec.width && ch < 4
    ensures i < spec.width * spec.height * 4
    ensures i / 4 % spec.width == col && i / 4 / spec.width == row && i % 4 == ch
  {
    PixelIndexDecomposes(spec.width, spec.height, row, col, ch);
    (row * spec.width + col) * 4 + ch
  }

  /** Euclidean division recovers quotient and remainder. */
  lemma DivModUnique(a: int, d: int, q: int, r: int)
    requires d > 0 && 0 <= r < d && a == q * d + r
    ensures a / d == q && a % d == r
  {
    var q', r' := a / d, a % d;
    assert (q - q') * d == r' - r;
    SmallMultipleIsZero(q - q', d);
  }

  lemma SmallMultipleIsZero(k: int, d: int)
    requires d > 0 && -d < k * d < d
    ensures k == 0
  {
    if k > 0 {
      PositiveMultiple(k, d);
    } else if k < 0 {
      PositiveMultiple(-k, d);
    }
  }

  lemma {:induction false} PositiveMultiple(k: int, d: int)
    requires k >= 1 && d > 0
    ensures k * d >= d
  {
    if k > 1 {
      PositiveMultiple(k - 1, d);
      assert k * d == (k - 1) * d + d;
    }
  }

  lemma RowMajorBound(w: nat, h: nat, row: nat, col: nat)
    requires row < h && col < w
    ensures row * w + col < h * w
  {
    var k := h - row;
    PositiveMultiple(k, w);
    assert h * w == (row + k) * w == row * w + k * w;
  }

  lemma PixelIndexDecomposes(w: nat, h: nat, row: nat, col: nat, ch: nat)
    requires row < h && col < w && ch < 4
    ensures (row * w + col) * 4 + ch < w * h * 4
    ensures ((row * w + col) * 4 + ch) / 4 == row * w + col
    ensures ((row * w + col) * 4 + ch) % 4 == ch
    ensures (row * w + col) % w == col && (row * w + col) / w == row
  {
    var p := row * w + col;
    RowMajorBound(w, h, row, col);
    assert w * h == h * w;
    DivModUnique(p * 4 + ch, 4, p, ch);
    DivModUnique(p, w, row, col);
  }

  /** Distinct (pixel, channel) positions occupy distinct buffer entries. */
  lemma PixelIndexInjective(spec: CanvasSpec, r1: nat, c1: nat, k1: nat, r2: nat, c2: nat, k2: nat)
    requires r1 < spec.height && c1 < spec.width && k1 < 4
    requires r2 < spec.height && c2 < spec.width && k2 < 4
    requires PixelIndex(spec, r1, c1, k1) == PixelIndex(spec, r2, c2, k2)
    ensures r1 == r2 && c1 == c2 && k1 == k2
  {
  }

  /** The test of canvas.rs: a 10-by-20 canvas reports its size and holds
      10 * 20 * 4 entries. */
  lemma CanvasCreationExample()
    ensures GetSpec(FromSpec(NewSpec(10, 20))).width == 10
    ensures GetSpec(FromSpec(NewSpec(10, 20))).height == 20
    ensures |FromSpec(NewSpec(10, 20)).buff| == 800
  {
  }
}
