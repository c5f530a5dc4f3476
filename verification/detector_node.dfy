/**
 The detector node's state and its two callbacks: a camera frame arrives and
 overwrites the single frame slot; a detection request answers from the slot
 and empties it after one detection pass.
 */
module DetectorNode {
  import opened Wrappers
  import opened Images
  import opened Targets
  import opened Analysis

  /** The `conf` threshold passed to the detector. */
  const Confidence: real := 0.5

  /**
   The object detector (loading the weights and `predict`): the frame, the
   weights, the one class id to keep and the confidence threshold, to the
   boxes of each result.
   */
  type Yolo = (Frame, Weights, nat, real) -> seq<seq<Box>>

  /**
   The text reader for the boxes of one frame: each box's crop is cut out of
   the analysed frame, so what is read depends on the frame as well as the box.
   */
  type Readers = Frame -> Reader

  /** The node parameters read in the image callback: `image_resize` and `flip_image`. */
  datatype Config = Config(imageResize: int, flipImage: bool)

  /** The node's only mutable state: the cached frame (`cam_image`), if any. */
  datatype Node = Node(camImage: Option<Frame>)

  /** A cached frame is always a well-formed, non-empty image. */
  predicate Valid(n: Node) {
    n.camImage.Some? ==> WellFormed(n.camImage.value)
  }

  /** The service response: a box count (-1 when no frame is cached) and the largest area percentage. */
  datatype Response = Response(count: int, size: real)

  /** The answer when no frame has been cached since the last detection pass. */
  const NoImage := Response(-1, 0.0)

  /** The answer to a target other than stop, tire or person. */
  const UnknownTarget := Response(0, 0.0)

  /**
   `image_callback`: the incoming frame is preprocessed and replaces whatever
   the slot held before.
   */
  function ImageCallback(n: Node, img: Frame, cfg: Config, resize: (Frame, nat) -> Frame): (n': Node)
    requires WellFormed(img)
    requires ResizesToSquare(resize)
    ensures Valid(n') && n'.camImage.Some?
    ensures cfg.imageResize > 0 ==> IsFrame(n'.camImage.value, cfg.imageResize, cfg.imageResize, Channels(img))
    ensures cfg.imageResize <= 0 ==> IsFrame(n'.camImage.value, Height(img), Width(img), Channels(img))
  {
    Node(Some(Preprocess(img, cfg.imageResize, cfg.flipImage, resize)))
  }

  /**
   `detect`: runs the detector for the target on the cached frame, analyses
   its boxes, and empties the slot.
   */
  function Detect(n: Node, t: Target, yolo: Yolo, readFor: Readers): (r: (Node, Response))
    requires Valid(n) && n.camImage.Some?
    ensures r.0.camImage.None?
    ensures var im := n.camImage.value;
            var boxes := Flatten(yolo(im, QueryFor(t).weights, QueryFor(t).classId, Confidence));
            && r.1.count == |Counted(boxes, t, readFor(im))|
            && 0 <= r.1.count <= |boxes|
            && r.1.size >= 0.0
            && (forall b :: b in boxes && Accepted(b, t, readFor(im)) ==> Area(b, ImageSize(Height(im), Width(im))) <= r.1.size)
            && (r.1.size == 0.0 || exists b :: b in boxes && Accepted(b, t, readFor(im)) && Area(b, ImageSize(Height(im), Width(im))) == r.1.size)
  {
    var im := n.camImage.value;
    var q := QueryFor(t);
    var results := yolo(im, q.weights, q.classId, Confidence);
    var tally := AnalyzeResults(results, Height(im), Width(im), t, readFor(im));
    (Node(None), Response(tally.detected, tally.biggest))
  }

  /**
   `handle_detection_request`: an empty slot is answered first, whatever the
   target; a cached frame with an unknown target is answered without
   touching the slot; otherwise one detection pass consumes the frame.
   */
  function HandleDetectionRequest(n: Node, target: string, yolo: Yolo, readFor: Readers): (r: (Node, Response))
    requires Valid(n)
    ensures Valid(r.0)
    ensures n.camImage.None? ==> r == (n, NoImage)
    ensures n.camImage.Some? && ParseTarget(target).None? ==> r == (n, UnknownTarget)
    ensures n.camImage.Some? && ParseTarget(target).Some? ==> r.0.camImage.None? && r.1.count >= 0 && r.1.size >= 0.0
    ensures n.camImage.Some? && ParseTarget(target).Some? ==> r == Detect(n, ParseTarget(target).value, yolo, readFor)
    ensures r.1.count == -1 <==> n.camImage.None?
  {
    if n.camImage.None? then (n, NoImage)
    else match ParseTarget(target)
      case None => (n, UnknownTarget)
      case Some(t) => Detect(n, t, yolo, readFor)
  }

  /** Whatever the slot held, a frame arrival leaves exactly the new frame, preprocessed. */
  lemma LastWriteWins(n: Node, m: Node, a: Frame, b: Frame, cfg: Config, resize: (Frame, nat) -> Frame)
    requires WellFormed(a) && WellFormed(b)
    requires ResizesToSquare(resize)
    ensures ImageCallback(ImageCallback(n, a, cfg, resize), b, cfg, resize) == ImageCallback(m, b, cfg, resize)
    ensures ImageCallback(n, b, cfg, resize).camImage == Some(Preprocess(b, cfg.imageResize, cfg.flipImage, resize))
  {
  }

  /**
   A frame is used for one detection pass only: after a request that ran a
   pass, a second request of any target finds the slot empty.
   */
  lemma ConsumeOnce(n: Node, first: string, second: string, yolo: Yolo, readFor: Readers)
    requires Valid(n) && n.camImage.Some?
    requires ParseTarget(first).Some?
    ensures var (n1, _) := HandleDetectionRequest(n, first, yolo, readFor);
            n1.camImage.None? && HandleDetectionRequest(n1, second, yolo, readFor) == (n1, NoImage)
  {
  }

  /**
   A request with an unknown target does not disturb the cached frame: a
   later valid request gets exactly the answer it would have got without it.
   */
  lemma UnknownTargetKeepsFrame(n: Node, bad: string, good: string, yolo: Yolo, readFor: Readers)
    requires Valid(n)
    requires ParseTarget(bad).None?
    ensures var (n1, _) := HandleDetectionRequest(n, bad, yolo, readFor);
            n1 == n && HandleDetectionRequest(n1, good, yolo, readFor) == HandleDetectionRequest(n, good, yolo, readFor)
  {
  }

  /** A frame stored by the callback is found by the next request with a valid target. */
  lemma StoredFrameIsFound(n: Node, img: Frame, cfg: Config, resize: (Frame, nat) -> Frame,
                           target: string, yolo: Yolo, readFor: Readers)
    requires WellFormed(img) && ResizesToSquare(resize)
    requires ParseTarget(target).Some?
    ensures var (n2, resp) := HandleDetectionRequest(ImageCallback(n, img, cfg, resize), target, yolo, readFor);
            resp.count >= 0 && n2.camImage.None?
  {
  }

  // ---------------------------------------------------------------------------
  // Runs: interleavings of frame arrivals and requests
  // ---------------------------------------------------------------------------

  /** One callback, in the order the executor delivers them. */
  datatype Event = Arrive(img: Frame) | Ask(target: string)

  /** Every arriving frame is a well-formed image. */
  predicate WellFormedEvents(evs: seq<Event>) {
    forall i :: 0 <= i < |evs| ==> evs[i].Arrive? ==> WellFormed(evs[i].img)
  }

  /** The node's state after the events, and the responses to the requests among them, in order. */
  function Run(n: Node, evs: seq<Event>, cfg: Config, resize: (Frame, nat) -> Frame, yolo: Yolo, readFor: Readers): (r: (Node, seq<Response>))
    requires Valid(n) && ResizesToSquare(resize) && WellFormedEvents(evs)
    ensures Valid(r.0)
    ensures |r.1| == |AskedTargets(evs)|
    decreases |evs|
  {
    if |evs| == 0 then (n, [])
    else
      assert WellFormedEvents(evs[1..]) by {
        forall i | 0 <= i < |evs[1..]| && evs[1..][i].Arrive?
          ensures WellFormed(evs[1..][i].img)
        {
          assert evs[1..][i] == evs[i + 1];
        }
      }
      match evs[0]
      case Arrive(img) =>
        Run(ImageCallback(n, img, cfg, resize), evs[1..], cfg, resize, yolo, readFor)
      case Ask(target) =>
        var (n1, resp) := HandleDetectionRequest(n, target, yolo, readFor);
        var (n2, rest) := Run(n1, evs[1..], cfg, resize, yolo, readFor);
        (n2, [resp] + rest)
  }

  /** The targets of the requests among the events, in order. */
  function AskedTargets(evs: seq<Event>): seq<string> {
    if |evs| == 0 then []
    else (if evs[0].Ask? then [evs[0].target] else []) + AskedTargets(evs[1..])
  }

  /** The number of frame arrivals among the events. */
  function Arrivals(evs: seq<Event>): nat {
    if |evs| == 0 then 0
    else (if evs[0].Arrive? then 1 else 0) + Arrivals(evs[1..])
  }

  /** The number of requests that ran a detection pass: a valid target answered with a real count. */
  function Passes(targets: seq<string>, responses: seq<Response>): nat
    requires |targets| == |responses|
  {
    if |targets| == 0 then 0
    else (if ParseTarget(targets[0]).Some? && responses[0].count != -1 then 1 else 0)
         + Passes(targets[1..], responses[1..])
  }

  /** 1 when the slot holds a frame. */
  function Held(n: Node): nat {
    if n.camImage.Some? then 1 else 0
  }

  /**
   Over any run, detection passes never outnumber the frames delivered: the
   passes plus a frame still cached at the end are at most the arrivals plus
   a frame cached at the start. Frames that arrive while the slot is full are
   overwritten, never analysed twice.
   */
  lemma {:induction false} AtMostOnePassPerFrame(n: Node, evs: seq<Event>, cfg: Config, resize: (Frame, nat) -> Frame,
                                                 yolo: Yolo, readFor: Readers)
    requires Valid(n) && ResizesToSquare(resize) && WellFormedEvents(evs)
    ensures var (n', responses) := Run(n, evs, cfg, resize, yolo, readFor);
            Passes(AskedTargets(evs), responses) + Held(n') <= Arrivals(evs) + Held(n)
    decreases |evs|
  {
    if |evs| > 0 {
      assert WellFormedEvents(evs[1..]) by {
        forall i | 0 <= i < |evs[1..]| && evs[1..][i].Arrive?
          ensures WellFormed(evs[1..][i].img)
        {
          assert evs[1..][i] == evs[i + 1];
        }
      }
      match evs[0]
      case Arrive(img) =>
        var n1 := ImageCallback(n, img, cfg, resize);
        AtMostOnePassPerFrame(n1, evs[1..], cfg, resize, yolo, readFor);
        assert Run(n, evs, cfg, resize, yolo, readFor) == Run(n1, evs[1..], cfg, resize, yolo, readFor);
        assert AskedTargets(evs) == [] + AskedTargets(evs[1..]) == AskedTargets(evs[1..]);
        assert Arrivals(evs) == 1 + Arrivals(evs[1..]);
      case Ask(target) =>
        var (n1, resp) := HandleDetectionRequest(n, target, yolo, readFor);
        var (n2, rest) := Run(n1, evs[1..], cfg, resize, yolo, readFor);
        AtMostOnePassPerFrame(n1, evs[1..], cfg, resize, yolo, readFor);
        assert AskedTargets(evs) == [target] + AskedTargets(evs[1..]);
        assert ([target] + AskedTargets(evs[1..]))[1..] == AskedTargets(evs[1..]);
        assert ([resp] + rest)[1..] == rest;
    }
  }

  // ---------------------------------------------------------------------------
  // The person branch as written
  // ---------------------------------------------------------------------------

  /** How a request ends in the code as written: with a response, or with the exception the vest mask raises. */
  datatype Reply = Answered(response: Response) | Raised

  /**
   `detect` as written. When the analysis raises, the exception leaves before
   the slot is emptied, so the node keeps its frame and sends no response.
   */
  function DetectAsWritten(n: Node, t: Target, yolo: Yolo, readFor: Readers): (r: (Node, Reply))
    requires Valid(n) && n.camImage.Some?
    ensures var boxes := Flatten(yolo(n.camImage.value, QueryFor(t).weights, QueryFor(t).classId, Confidence));
            r.1.Raised? <==> t == Person && |boxes| > 0
    ensures r.1.Raised? ==> r.0 == n
    ensures r.1.Answered? ==> r.0 == Detect(n, t, yolo, readFor).0 && r.1.response == Detect(n, t, yolo, readFor).1
  {
    var im := n.camImage.value;
    var q := QueryFor(t);
    var results := yolo(im, q.weights, q.classId, Confidence);
    match AnalyzeResultsAsWritten(results, Height(im), Width(im), t, readFor(im))
    case None => (n, Raised)
    case Some(tally) => (Node(None), Answered(Response(tally.detected, tally.biggest)))
  }

  /**
   `handle_detection_request` as written: the same dispatch, with a pass that
   may raise. A raised request leaves the node exactly as it was.
   */
  function HandleDetectionRequestAsWritten(n: Node, target: string, yolo: Yolo, readFor: Readers): (r: (Node, Reply))
    requires Valid(n)
    ensures Valid(r.0)
    ensures n.camImage.None? ==> r == (n, Answered(NoImage))
    ensures n.camImage.Some? && ParseTarget(target).None? ==> r == (n, Answered(UnknownTarget))
    ensures r.1.Raised? <==> n.camImage.Some? && target == "person"
                             && |Flatten(yolo(n.camImage.value, CocoWeights, 0, Confidence))| > 0
    ensures r.1.Raised? ==> r.0 == n
    ensures r.1.Answered? ==> r.0 == HandleDetectionRequest(n, target, yolo, readFor).0
                              && r.1.response == HandleDetectionRequest(n, target, yolo, readFor).1
  {
    if n.camImage.None? then (n, Answered(NoImage))
    else match ParseTarget(target)
      case None => (n, Answered(UnknownTarget))
      case Some(t) => DetectAsWritten(n, t, yolo, readFor)
  }

  /**
   A person request on a frame where the detector finds people raises, as
   written: the frame stays cached, no response is sent, and the exception
   ends the node, since nothing around `rclpy.spin` catches it. The model's
   handler, applied again to the unchanged node, would raise again. The
   corrected handler counts every person box and empties the slot.
   */
  lemma PersonRequestRaisesAsWritten(n: Node, yolo: Yolo, readFor: Readers)
    requires Valid(n) && n.camImage.Some?
    requires |Flatten(yolo(n.camImage.value, CocoWeights, 0, Confidence))| > 0
    ensures var (n1, reply) := HandleDetectionRequestAsWritten(n, "person", yolo, readFor);
            && reply.Raised? && n1 == n
            && HandleDetectionRequestAsWritten(n1, "person", yolo, readFor).1.Raised?
    ensures var (n1, resp) := HandleDetectionRequest(n, "person", yolo, readFor);
            && n1.camImage.None?
            && resp.count == |Flatten(yolo(n.camImage.value, CocoWeights, 0, Confidence))|
  {
    var im := n.camImage.value;
    assert ParseTarget("person") == Some(Person);
    TireAndPersonCountEveryBox(yolo(im, CocoWeights, 0, Confidence), Height(im), Width(im), Person, readFor(im));
  }
}
