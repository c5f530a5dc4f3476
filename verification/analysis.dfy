/**
 `analyze_results`: one pass over the detector's boxes that decides which
 boxes count for the requested target and tracks the largest counted box as
 a percentage of the frame area.
 */
module Analysis {
  import opened Wrappers
  import opened Targets
  import opened StopSign

  /**
   One detector box, as its `xywh` row (centre x, centre y, width, height,
   in pixels of the analysed frame) and its confidence.
   */
  datatype Box = Box(x: real, y: real, w: real, h: real, conf: real)

  /**
   The text reader applied to the crop of a box: cropping the frame to the
   box and running the reader on it are both outside the model, so the pair
   is one oracle from boxes to readings.
   */
  type Reader = Box -> seq<string>

  /** `image.shape[0] * image.shape[1]`: the number of pixels of a `height`-by-`width` frame. */
  function ImageSize(height: nat, width: nat): (n: nat)
    requires height > 0 && width > 0
    ensures n > 0
  {
    height * width
  }

  /** The box's area as a percentage of a frame of `imageSize` pixels. */
  function Area(b: Box, imageSize: nat): (r: real)
    requires imageSize > 0
    ensures (r / 100.0) * (imageSize as real) == b.w * b.h
    ensures b.w >= 0.0 && b.h >= 0.0 ==> r >= 0.0
  {
    100.0 * ((b.w * b.h) / (imageSize as real))
  }

  /**
   Whether a box is counted: stop-sign boxes must pass the text check; tire
   and person boxes always count (the vest mask computed for a person box is
   published and never inspected).
   */
  predicate Accepted(b: Box, mode: Target, read: Reader) {
    mode != Stop || StopsignOcrCheck(read(b)).stopFound
  }

  /** The counted boxes, in the detector's order. */
  function Counted(boxes: seq<Box>, mode: Target, read: Reader): (r: seq<Box>)
    ensures |r| <= |boxes|
    ensures forall b :: b in r <==> b in boxes && Accepted(b, mode, read)
  {
    if |boxes| == 0 then []
    else (if Accepted(boxes[0], mode, read) then [boxes[0]] else []) + Counted(boxes[1..], mode, read)
  }

  /** All boxes of all results, result by result. */
  function Flatten(results: seq<seq<Box>>): (r: seq<Box>)
    ensures forall b :: b in r <==> exists k :: 0 <= k < |results| && b in results[k]
  {
    if |results| == 0 then []
    else
      var rest := Flatten(results[1..]);
      assert forall b :: (exists k :: 0 <= k < |results| && b in results[k]) <==>
                         b in results[0] || (exists k :: 0 <= k < |results[1..]| && b in results[1..][k]) by {
        forall b | exists k :: 0 <= k < |results| && b in results[k]
          ensures b in results[0] || (exists k :: 0 <= k < |results[1..]| && b in results[1..][k])
        {
          var k :| 0 <= k < |results| && b in results[k];
          if k > 0 {
            assert b in results[1..][k - 1];
          }
        }
        forall b, k | 0 <= k < |results[1..]| && b in results[1..][k]
          ensures b in results[k + 1]
        {
        }
      }
      results[0] + rest
  }

  /** The running state of the loop: boxes counted so far and the largest area seen so far. */
  datatype Tally = Tally(detected: nat, biggest: real)

  /** One iteration: a rejected box changes nothing; a counted box is added and may raise the maximum. */
  function Step(t: Tally, b: Box, mode: Target, read: Reader, imageSize: nat): (r: Tally)
    requires imageSize > 0
    ensures !Accepted(b, mode, read) ==> r == t
    ensures Accepted(b, mode, read) ==> r.detected == t.detected + 1
    ensures Accepted(b, mode, read) ==> r.biggest >= t.biggest && r.biggest >= Area(b, imageSize)
    ensures r.biggest == t.biggest || r.biggest == Area(b, imageSize)
    ensures Area(b, imageSize) <= t.biggest ==> r.biggest == t.biggest
  {
    if !Accepted(b, mode, read) then t
    else
      var area := Area(b, imageSize);
      Tally(t.detected + 1, if area > t.biggest then area else t.biggest)
  }

  /**
   The inner loop over one result's boxes. Starting from `t`, it adds the
   number of counted boxes, never lowers the maximum, ends at or above every
   counted area, and ends either where it started or at some counted area.
   */
  function ScanBoxes(boxes: seq<Box>, t: Tally, mode: Target, read: Reader, imageSize: nat): (r: Tally)
    requires imageSize > 0
    ensures r.detected == t.detected + |Counted(boxes, mode, read)|
    ensures r.biggest >= t.biggest
    ensures forall b :: b in Counted(boxes, mode, read) ==> Area(b, imageSize) <= r.biggest
    ensures r.biggest == t.biggest || exists b :: b in Counted(boxes, mode, read) && Area(b, imageSize) == r.biggest
    decreases |boxes|
  {
    if |boxes| == 0 then t
    else ScanBoxes(boxes[1..], Step(t, boxes[0], mode, read, imageSize), mode, read, imageSize)
  }

  /** The outer loop over the detector's results. */
  function ScanResults(results: seq<seq<Box>>, t: Tally, mode: Target, read: Reader, imageSize: nat): Tally
    requires imageSize > 0
    decreases |results|
  {
    if |results| == 0 then t
    else ScanResults(results[1..], ScanBoxes(results[0], t, mode, read, imageSize), mode, read, imageSize)
  }

  /** Scanning two box lists one after the other is scanning their concatenation. */
  lemma {:induction false} ScanBoxesAppend(a: seq<Box>, c: seq<Box>, t: Tally, mode: Target, read: Reader, imageSize: nat)
    requires imageSize > 0
    ensures ScanBoxes(a + c, t, mode, read, imageSize)
         == ScanBoxes(c, ScanBoxes(a, t, mode, read, imageSize), mode, read, imageSize)
    decreases |a|
  {
    if |a| == 0 {
      assert a + c == c;
    } else {
      assert (a + c)[0] == a[0];
      assert (a + c)[1..] == a[1..] + c;
      ScanBoxesAppend(a[1..], c, Step(t, a[0], mode, read, imageSize), mode, read, imageSize);
    }
  }

  /** The nested loops visit exactly the boxes of `Flatten(results)`, in that order. */
  lemma {:induction false} ScanResultsIsFlatScan(results: seq<seq<Box>>, t: Tally, mode: Target, read: Reader, imageSize: nat)
    requires imageSize > 0
    ensures ScanResults(results, t, mode, read, imageSize) == ScanBoxes(Flatten(results), t, mode, read, imageSize)
    decreases |results|
  {
    if |results| > 0 {
      var t' := ScanBoxes(results[0], t, mode, read, imageSize);
      ScanResultsIsFlatScan(results[1..], t', mode, read, imageSize);
      ScanBoxesAppend(results[0], Flatten(results[1..]), t, mode, read, imageSize);
    }
  }

  /**
   `analyze_results` on a `height`-by-`width` frame: the count is the number
   of counted boxes over all results, and the size is 0.0 or the largest
   counted area percentage.
   */
  function AnalyzeResults(results: seq<seq<Box>>, height: nat, width: nat, mode: Target, read: Reader): (r: Tally)
    requires height > 0 && width > 0
    ensures r.detected == |Counted(Flatten(results), mode, read)| <= |Flatten(results)|
    ensures r.biggest >= 0.0
    ensures forall b :: b in Flatten(results) && Accepted(b, mode, read) ==> Area(b, ImageSize(height, width)) <= r.biggest
    ensures r.biggest == 0.0 ||
            exists b :: b in Flatten(results) && Accepted(b, mode, read) && Area(b, ImageSize(height, width)) == r.biggest
  {
    ScanResultsIsFlatScan(results, Tally(0, 0.0), mode, read, ImageSize(height, width));
    ScanResults(results, Tally(0, 0.0), mode, read, ImageSize(height, width))
  }

  /** When the gate rejects every box, none is counted. */
  lemma {:induction false} NoneAcceptedNoneCounted(boxes: seq<Box>, mode: Target, read: Reader)
    requires forall b :: b in boxes ==> !Accepted(b, mode, read)
    ensures Counted(boxes, mode, read) == []
    decreases |boxes|
  {
    if |boxes| > 0 {
      assert boxes[0] in boxes;
      NoneAcceptedNoneCounted(boxes[1..], mode, read);
    }
  }

  /** Nothing counted means a size of 0.0. */
  lemma NothingCountedMeansZero(results: seq<seq<Box>>, height: nat, width: nat, mode: Target, read: Reader)
    requires height > 0 && width > 0
    requires forall b :: b in Flatten(results) ==> !Accepted(b, mode, read)
    ensures AnalyzeResults(results, height, width, mode, read) == Tally(0, 0.0)
  {
    var r := AnalyzeResults(results, height, width, mode, read);
    NoneAcceptedNoneCounted(Flatten(results), mode, read);
  }

  /** Outside stop mode the gate is open: every box is counted. */
  lemma {:induction false} UngatedCountsAll(boxes: seq<Box>, mode: Target, read: Reader)
    requires mode != Stop
    ensures Counted(boxes, mode, read) == boxes
    decreases |boxes|
  {
    if |boxes| > 0 {
      UngatedCountsAll(boxes[1..], mode, read);
      assert [boxes[0]] + boxes[1..] == boxes;
    }
  }

  /** In tire and person mode the count is the total number of boxes across all results. */
  lemma TireAndPersonCountEveryBox(results: seq<seq<Box>>, height: nat, width: nat, mode: Target, read: Reader)
    requires height > 0 && width > 0
    requires mode != Stop
    ensures AnalyzeResults(results, height, width, mode, read).detected == |Flatten(results)|
  {
    UngatedCountsAll(Flatten(results), mode, read);
  }

  /** The number of boxes whose crop the text check accepts. */
  function OcrAccepted(boxes: seq<Box>, read: Reader): nat {
    if |boxes| == 0 then 0
    else (if StopsignOcrCheck(read(boxes[0])).stopFound then 1 else 0) + OcrAccepted(boxes[1..], read)
  }

  /** In stop mode the gate keeps exactly the boxes the text check accepts. */
  lemma {:induction false} StopGateCount(boxes: seq<Box>, read: Reader)
    ensures |Counted(boxes, Stop, read)| == OcrAccepted(boxes, read)
    decreases |boxes|
  {
    if |boxes| > 0 {
      StopGateCount(boxes[1..], read);
    }
  }

  /** In stop mode the count is the number of boxes that pass the text check. */
  lemma StopCountsOcrAccepted(results: seq<seq<Box>>, height: nat, width: nat, read: Reader)
    requires height > 0 && width > 0
    ensures AnalyzeResults(results, height, width, Stop, read).detected == OcrAccepted(Flatten(results), read)
  {
    StopGateCount(Flatten(results), read);
  }

  /** A ratio of a non-negative number to a larger positive one lies between 0 and 1. */
  lemma RatioAtMostOne(p: real, s: real)
    requires 0.0 <= p <= s && s > 0.0
    ensures 0.0 <= p / s <= 1.0
  {
  }

  /** A box no larger than the frame covers at most 100 percent of it. */
  lemma AreaAtMostFull(b: Box, height: nat, width: nat)
    requires height > 0 && width > 0
    requires 0.0 <= b.w <= width as real && 0.0 <= b.h <= height as real
    ensures 0.0 <= Area(b, ImageSize(height, width)) <= 100.0
  {
    var size := ImageSize(height, width) as real;
    var hr, wr := height as real, width as real;
    assert size == hr * wr;
    assert b.w * b.h <= wr * b.h;
    assert wr * b.h <= wr * hr;
    assert 0.0 <= b.w * b.h;
    RatioAtMostOne(b.w * b.h, size);
    assert Area(b, ImageSize(height, width)) == 100.0 * ((b.w * b.h) / size);
  }

  /** With every box inside the frame, the size is a percentage between 0 and 100. */
  lemma SizeIsAPercentage(results: seq<seq<Box>>, height: nat, width: nat, mode: Target, read: Reader)
    requires height > 0 && width > 0
    requires forall b :: b in Flatten(results) ==> 0.0 <= b.w <= width as real && 0.0 <= b.h <= height as real
    ensures 0.0 <= AnalyzeResults(results, height, width, mode, read).biggest <= 100.0
  {
    var r := AnalyzeResults(results, height, width, mode, read);
    var boxes := Flatten(results);
    var size := ImageSize(height, width);
    if r.biggest != 0.0 {
      assert exists b :: b in boxes && Accepted(b, mode, read) && Area(b, size) == r.biggest;
      var b :| b in boxes && Accepted(b, mode, read) && Area(b, size) == r.biggest;
      AreaAtMostFull(b, height, width);
    }
  }

  /** A 50-by-50 box is 25 percent of a 100-by-100 frame and 6.25 percent of a 200-by-200 frame. */
  lemma AreaExamples()
    ensures Area(Box(75.0, 75.0, 50.0, 50.0, 0.9), 100 * 100) == 25.0
    ensures Area(Box(75.0, 75.0, 50.0, 50.0, 0.9), 200 * 200) == 6.25
  {
  }

  /**
   Two counted boxes of equal area: the second does not replace the first
   (`>` is strict), and the size is that common area.
   */
  lemma TieKeepsMaximum(read: Reader)
    ensures var b1 := Box(10.0, 10.0, 10.0, 10.0, 0.8);
            var b2 := Box(50.0, 50.0, 10.0, 10.0, 0.7);
            var t1 := Step(Tally(0, 0.0), b1, Tire, read, 1000);
            && t1 == Tally(1, 10.0)
            && Step(t1, b2, Tire, read, 1000) == Tally(2, 10.0)
            && AnalyzeResults([[b1, b2]], 10, 100, Tire, read) == Tally(2, 10.0)
  {
  }

  // ---------------------------------------------------------------------------
  // The person branch as written
  // ---------------------------------------------------------------------------

  /**
   One iteration as written. For a person box, `orange_vest_mask` builds its
   colour bounds from `get_parameter(...)` without `.value`, so both bounds
   are tuples of parameter objects rather than numbers, and `cv2.inRange`
   raises (`None` here) before the box is counted. The other modes take the
   ordinary step.
   */
  function StepAsWritten(t: Tally, b: Box, mode: Target, read: Reader, imageSize: nat): (r: Option<Tally>)
    requires imageSize > 0
  {
    if mode == Person then None else Some(Step(t, b, mode, read, imageSize))
  }

  /** The box loop as written: it raises at the first box that raises, and otherwise runs to the end. */
  function ScanBoxesAsWritten(boxes: seq<Box>, t: Tally, mode: Target, read: Reader, imageSize: nat): (r: Option<Tally>)
    requires imageSize > 0
    ensures r.None? <==> mode == Person && |boxes| > 0
    ensures r.Some? ==> r.value == ScanBoxes(boxes, t, mode, read, imageSize)
    decreases |boxes|
  {
    if |boxes| == 0 then Some(t)
    else match StepAsWritten(t, boxes[0], mode, read, imageSize)
      case None => None
      case Some(t') => ScanBoxesAsWritten(boxes[1..], t', mode, read, imageSize)
  }

  /**
   `analyze_results` as written: in person mode any box makes it raise; in
   the other modes it returns what `AnalyzeResults` returns.
   */
  function AnalyzeResultsAsWritten(results: seq<seq<Box>>, height: nat, width: nat, mode: Target, read: Reader): (r: Option<Tally>)
    requires height > 0 && width > 0
    ensures r.None? <==> mode == Person && |Flatten(results)| > 0
    ensures r.Some? ==> r.value == AnalyzeResults(results, height, width, mode, read)
  {
    ScanResultsIsFlatScan(results, Tally(0, 0.0), mode, read, ImageSize(height, width));
    ScanBoxesAsWritten(Flatten(results), Tally(0, 0.0), mode, read, ImageSize(height, width))
  }

  /**
   One person box: as written the analysis raises, while the corrected
   analysis counts the box and reports its area.
   */
  lemma PersonBoxRaisesAsWritten(read: Reader)
    ensures var b := Box(75.0, 75.0, 50.0, 50.0, 0.9);
            && AnalyzeResultsAsWritten([[b]], 200, 200, Person, read).None?
            && AnalyzeResults([[b]], 200, 200, Person, read) == Tally(1, 6.25)
  {
    var b := Box(75.0, 75.0, 50.0, 50.0, 0.9);
    assert Flatten([[b]]) == [b] by {
      assert [[b]][1..] == [];
    }
    assert Area(b, ImageSize(200, 200)) == 6.25;
    TieKeepsMaximum(read);
    UngatedCountsAll([b], Person, read);
    assert ScanBoxes([b], Tally(0, 0.0), Person, read, 40000) == ScanBoxes([], Step(Tally(0, 0.0), b, Person, read, 40000), Person, read, 40000);
  }
}
