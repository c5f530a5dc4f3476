/**
 Frames as pixel matrices, and the two geometric steps the node applies to
 every camera frame before caching it: letterbox padding to a square canvas
 and the optional double flip.
 */
module Images {

  /** One 8-bit channel value of a `bgr8` matrix. */
  type Byte = x: int | 0 <= x < 256

  /** A pixel is the list of its channel values (three for BGR). */
  type Pixel = seq<Byte>

  /** A frame in row-major order: `f[i][j]` is the pixel in row `i`, column `j`. */
  type Frame = seq<seq<Pixel>>

  /** `f` is an `h`-by-`w` matrix whose pixels all have `c` channels (a numpy array of shape (h, w, c)). */
  predicate IsFrame(f: Frame, h: nat, w: nat, c: nat) {
    && |f| == h
    && (forall i :: 0 <= i < h ==> |f[i]| == w)
    && (forall i, j :: 0 <= i < h && 0 <= j < w ==> |f[i][j]| == c)
  }

  /** A non-empty rectangular frame with a uniform channel count. */
  predicate WellFormed(f: Frame) {
    |f| > 0 && |f[0]| > 0 && IsFrame(f, |f|, |f[0]|, |f[0][0]|)
  }

  /** Number of rows (`shape[0]`). */
  function Height(f: Frame): nat {
    |f|
  }

  /** Number of columns (`shape[1]`). */
  function Width(f: Frame): nat {
    if |f| == 0 then 0 else |f[0]|
  }

  /** Number of channels (`shape[2]`). */
  function Channels(f: Frame): nat {
    if |f| == 0 || |f[0]| == 0 then 0 else |f[0][0]|
  }

  /** The larger of two sizes: the canvas side `max(h, w)`. */
  function Max(a: nat, b: nat): nat {
    if a >= b then a else b
  }

  // ---------------------------------------------------------------------------
  // Flipping
  // ---------------------------------------------------------------------------

  /** The elements of `s` in the opposite order. */
  function Reverse<T>(s: seq<T>): (r: seq<T>)
    ensures |r| == |s|
    ensures forall i :: 0 <= i < |s| ==> r[i] == s[|s| - 1 - i]
  {
    if |s| == 0 then [] else Reverse(s[1..]) + [s[0]]
  }

  /** `cv2.flip(f, 0)`: mirror about the horizontal axis, so the rows come in reverse order. */
  function FlipVertical(f: Frame): Frame {
    Reverse(f)
  }

  /** `cv2.flip(f, 1)`: mirror about the vertical axis, so every row is reversed. */
  function FlipHorizontal(f: Frame): Frame {
    seq(|f|, i requires 0 <= i < |f| => Reverse(f[i]))
  }

  /**
   The flip the node performs when `flip_image` is set: vertical first,
   then horizontal. On a rectangular frame this is a rotation by 180
   degrees (see `FlipIsRotation`), not a mirror image.
   */
  function Flip(f: Frame): (r: Frame)
    ensures forall h, w, c :: IsFrame(f, h, w, c) ==> IsFrame(r, h, w, c)
  {
    FlipHorizontal(FlipVertical(f))
  }

  /** The double flip sends the pixel at (h-1-i, w-1-j) to (i, j). */
  lemma FlipIsRotation(f: Frame, h: nat, w: nat, c: nat)
    requires IsFrame(f, h, w, c)
    ensures IsFrame(Flip(f), h, w, c)
    ensures forall i, j :: 0 <= i < h && 0 <= j < w ==> Flip(f)[i][j] == f[h - 1 - i][w - 1 - j]
  {
  }

  /** A rotation by 180 degrees undone by a second one: flipping twice gives the frame back. */
  lemma FlipTwiceIsIdentity(f: Frame, h: nat, w: nat, c: nat)
    requires IsFrame(f, h, w, c)
    ensures Flip(Flip(f)) == f
  {
    FlipIsRotation(f, h, w, c);
    FlipIsRotation(Flip(f), h, w, c);
    var r := Flip(Flip(f));
    assert |r| == |f|;
    forall i | 0 <= i < h
      ensures r[i] == f[i]
    {
      assert |r[i]| == |f[i]|;
      forall j | 0 <= j < w
        ensures r[i][j] == f[i][j]
      {
        assert r[i][j] == Flip(f)[h - 1 - i][w - 1 - j];
      }
    }
  }

  /** A frame on which the double flip differs from both single flips: it is neither mirror. */
  lemma FlipIsNotAMirror()
    ensures var f: Frame := [[[1], [2]], [[3], [4]]];
            Flip(f) != FlipVertical(f) && Flip(f) != FlipHorizontal(f)
  {
    var f: Frame := [[[1], [2]], [[3], [4]]];
    FlipIsRotation(f, 2, 2, 1);
    assert Flip(f)[0][0] == [4];
    assert FlipVertical(f)[0] == [[3], [4]];
    assert FlipHorizontal(f)[0] == Reverse([[1], [2]]);
  }

  // ---------------------------------------------------------------------------
  // Letterboxing
  // ---------------------------------------------------------------------------

  /** The zero pixel of a `c`-channel frame (`np.zeros`). */
  function Zero(c: nat): (p: Pixel)
    ensures |p| == c
  {
    seq(c, _ => 0)
  }

  /** Row offset of the image on the letterbox canvas; the image's rows fit below it. */
  function OffsetY(h: nat, w: nat): (y: nat)
    ensures y + h <= Max(h, w)
  {
    (Max(h, w) - h) / 2
  }

  /** Column offset of the image on the letterbox canvas; the image's columns fit right of it. */
  function OffsetX(h: nat, w: nat): (x: nat)
    ensures x + w <= Max(h, w)
  {
    (Max(h, w) - w) / 2
  }

  /** Canvas cell (i, j) lies in the window the image is copied into. */
  predicate InImage(h: nat, w: nat, i: int, j: int) {
    OffsetY(h, w) <= i < OffsetY(h, w) + h && OffsetX(h, w) <= j < OffsetX(h, w) + w
  }

  /** Canvas cell (i, j): the image pixel it covers inside the window, the zero pixel outside. */
  function CanvasCell(f: Frame, h: nat, w: nat, c: nat, i: nat, j: nat): Pixel
    requires IsFrame(f, h, w, c)
  {
    if InImage(h, w, i, j) then f[i - OffsetY(h, w)][j - OffsetX(h, w)] else Zero(c)
  }

  /**
   The letterbox canvas: a zero square of side `max(h, w)` with the image
   copied in at offset `((side - h) / 2, (side - w) / 2)`.
   `PadToSquarePlacement` states what it holds.
   */
  function PadToSquare(f: Frame, h: nat, w: nat, c: nat): (canvas: Frame)
    requires IsFrame(f, h, w, c)
    ensures |canvas| == Max(h, w)
    ensures forall r :: 0 <= r < |canvas| ==> |canvas[r]| == Max(h, w)
  {
    var side := Max(h, w);
    seq(side, i requires 0 <= i < side => seq(side, j requires 0 <= j < side => CanvasCell(f, h, w, c, i, j)))
  }

  /**
   The canvas is `side`-by-`side` with `side = max(h, w)`; the offsets keep
   the image inside it; cell (y + i, x + j) holds image pixel (i, j); every
   other cell is the zero pixel.
   */
  lemma PadToSquarePlacement(f: Frame, h: nat, w: nat, c: nat)
    requires IsFrame(f, h, w, c)
    ensures var canvas := PadToSquare(f, h, w, c);
            && IsFrame(canvas, Max(h, w), Max(h, w), c)
            && OffsetY(h, w) + h <= Max(h, w) && OffsetX(h, w) + w <= Max(h, w)
            && (forall i, j :: 0 <= i < h && 0 <= j < w ==>
                  canvas[OffsetY(h, w) + i][OffsetX(h, w) + j] == f[i][j])
            && (forall i, j :: 0 <= i < Max(h, w) && 0 <= j < Max(h, w) && !InImage(h, w, i, j) ==>
                  canvas[i][j] == Zero(c))
  {
    CanvasShape(f, h, w, c);
    CanvasHoldsImage(f, h, w, c);
    CanvasZeroElsewhere(f, h, w, c);
  }

  /** Every canvas row has `side` pixels of `c` channels. */
  lemma CanvasShape(f: Frame, h: nat, w: nat, c: nat)
    requires IsFrame(f, h, w, c)
    ensures IsFrame(PadToSquare(f, h, w, c), Max(h, w), Max(h, w), c)
  {
  }

  /** The image sits at offset (y, x) on the canvas. */
  lemma CanvasHoldsImage(f: Frame, h: nat, w: nat, c: nat)
    requires IsFrame(f, h, w, c)
    ensures forall i, j :: 0 <= i < h && 0 <= j < w ==>
              PadToSquare(f, h, w, c)[OffsetY(h, w) + i][OffsetX(h, w) + j] == f[i][j]
  {
  }

  /** Outside the image window the canvas is zero. */
  lemma CanvasZeroElsewhere(f: Frame, h: nat, w: nat, c: nat)
    requires IsFrame(f, h, w, c)
    ensures forall i, j :: 0 <= i < Max(h, w) && 0 <= j < Max(h, w) && !InImage(h, w, i, j) ==>
              PadToSquare(f, h, w, c)[i][j] == Zero(c)
  {
  }

  /** The `h`-by-`w` window of `f` whose top-left corner is (y, x): numpy's `f[y:y+h, x:x+w]`. */
  function Crop(f: Frame, y: nat, x: nat, h: nat, w: nat): (r: Frame)
    requires y + h <= |f|
    requires forall i :: y <= i < y + h ==> x + w <= |f[i]|
    ensures |r| == h
  {
    seq(h, i requires 0 <= i < h => f[y + i][x .. x + w])
  }

  /** Cutting the image's window back out of the letterbox canvas recovers the image exactly. */
  lemma PadThenCropIsIdentity(f: Frame, h: nat, w: nat, c: nat)
    requires IsFrame(f, h, w, c)
    ensures var canvas := PadToSquare(f, h, w, c);
            Crop(canvas, OffsetY(h, w), OffsetX(h, w), h, w) == f
  {
    var canvas := PadToSquare(f, h, w, c);
    var y, x := OffsetY(h, w), OffsetX(h, w);
    var r := Crop(canvas, y, x, h, w);
    forall i | 0 <= i < h
      ensures r[i] == f[i]
    {
      var row := canvas[y + i][x .. x + w];
      assert r[i] == row;
      forall j | 0 <= j < w
        ensures row[j] == f[i][j]
      {
        assert InImage(h, w, y + i, x + j);
        assert row[j] == CanvasCell(f, h, w, c, y + i, x + j);
      }
    }
  }

  /** A square frame needs no padding: its canvas is the frame itself. */
  lemma SquareCanvasIsFrame(f: Frame, s: nat, c: nat)
    requires IsFrame(f, s, s, c)
    ensures PadToSquare(f, s, s, c) == f
  {
    var canvas := PadToSquare(f, s, s, c);
    assert OffsetY(s, s) == 0 && OffsetX(s, s) == 0;
    forall i | 0 <= i < s
      ensures canvas[i] == f[i]
    {
      forall j | 0 <= j < s
        ensures canvas[i][j] == f[i][j]
      {
        assert InImage(s, s, i, j);
        assert canvas[i][j] == CanvasCell(f, s, s, c, i, j);
      }
    }
  }

  // ---------------------------------------------------------------------------
  // Resizing and the full preprocessing of a camera frame
  // ---------------------------------------------------------------------------

  /**
   What `cv2.resize(f, (s, s))` promises and the model relies on: for any
   well-formed frame and positive side it returns an `s`-by-`s` frame with
   the same channel count. The interpolation itself is left abstract.
   */
  ghost predicate ResizesToSquare(resize: (Frame, nat) -> Frame) {
    forall f, s :: WellFormed(f) && s > 0 ==> IsFrame(resize(f, s), s, s, Channels(f))
  }

  /**
   `letterbox_resize`: a square frame is resized directly; any other frame is
   first placed on its letterbox canvas, and the canvas is resized.
   */
  function LetterboxResize(f: Frame, size: nat, resize: (Frame, nat) -> Frame): (r: Frame)
    requires WellFormed(f)
    requires size > 0
    requires ResizesToSquare(resize)
    ensures IsFrame(r, size, size, Channels(f))
    ensures Height(f) == Width(f) ==> r == resize(f, size)
    ensures Height(f) != Width(f) ==>
              r == resize(PadToSquare(f, Height(f), Width(f), Channels(f)), size)
  {
    var h, w, c := Height(f), Width(f), Channels(f);
    if h == w then resize(f, size)
    else
      var canvas := PadToSquare(f, h, w, c);
      PadToSquarePlacement(f, h, w, c);
      assert WellFormed(canvas) && Channels(canvas) == c;
      resize(canvas, size)
  }

  /**
   The preprocessing in `image_callback`: letterbox to `resizeVal` when it is
   positive, then the double flip when `flip` is set.
   */
  function Preprocess(f: Frame, resizeVal: int, flip: bool, resize: (Frame, nat) -> Frame): (r: Frame)
    requires WellFormed(f)
    requires ResizesToSquare(resize)
    ensures WellFormed(r) && Channels(r) == Channels(f)
    ensures resizeVal > 0 ==> IsFrame(r, resizeVal, resizeVal, Channels(f))
    ensures resizeVal <= 0 ==> IsFrame(r, Height(f), Width(f), Channels(f))
    ensures resizeVal <= 0 && !flip ==> r == f
    ensures !flip && resizeVal > 0 ==> r == LetterboxResize(f, resizeVal, resize)
    ensures flip ==> r == Flip(if resizeVal > 0 then LetterboxResize(f, resizeVal, resize) else f)
  {
    var g := if resizeVal > 0 then LetterboxResize(f, resizeVal, resize) else f;
    var h, w := if resizeVal > 0 then resizeVal else Height(f), if resizeVal > 0 then resizeVal else Width(f);
    assert IsFrame(g, h, w, Channels(f));
    if flip then
      assert IsFrame(Flip(g), h, w, Channels(f));
      Flip(g)
    else g
  }

  /**
   With `flip_image` set, the cached frame is the letterboxed (or, without
   resizing, the incoming) frame turned through 180 degrees.
   */
  lemma PreprocessFlipRotates(f: Frame, resizeVal: int, resize: (Frame, nat) -> Frame)
    requires WellFormed(f)
    requires ResizesToSquare(resize)
    ensures var g := if resizeVal > 0 then LetterboxResize(f, resizeVal, resize) else f;
            var r := Preprocess(f, resizeVal, true, resize);
            && |r| == |g|
            && forall i, j :: 0 <= i < |g| && 0 <= j < Width(g) ==> r[i][j] == g[|g| - 1 - i][Width(g) - 1 - j]
  {
    var g := if resizeVal > 0 then LetterboxResize(f, resizeVal, resize) else f;
    var h, w := if resizeVal > 0 then resizeVal else Height(f), if resizeVal > 0 then resizeVal else Width(f);
    assert IsFrame(g, h, w, Channels(f));
    FlipIsRotation(g, h, w, Channels(f));
  }
}
