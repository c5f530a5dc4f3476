# YOLO detector node: decision logic in Dafny

This project models the decision logic of the `YoloDetector` ROS 2 node in
`route_yolo_ros2/route_yolo_ros2/detect.py`. The model has five parts:

- **Frame slot** (`DetectorNode`): the node keeps one cached camera frame. The
  image callback preprocesses each incoming frame and overwrites the slot. A
  detection request is answered from the slot in a fixed order:
  - an empty slot gives `(-1, 0.0)`;
  - an unknown target gives `(0, 0.0)`;
  - otherwise one detection pass runs and empties the slot.
- **Target table** (`Targets`): the three targets `stop`, `tire` and `person`.
  Each one has its detector weights and class filter.
- **Result analysis** (`Analysis`): one pass over the detector's boxes.
  - In stop mode a box counts only if the text check accepts it.
  - Every counted box adds one to the count.
  - The largest counted box area, as a percentage of the frame, is tracked
    with a strict `>`.
  - In person mode the code as written raises on the first box, in the vest
    mask. The `…AsWritten` members model that. The other members model the
    corrected code, in which the box is counted.
- **Stop-sign text check** (`StopSign`): true when some reading, upper-cased,
  contains `STOP`. The loop stops at the first such reading.
- **Frame geometry** (`Images`): the letterbox canvas and the double flip.
  - The letterbox canvas is a zero square of side `max(h, w)` with the image
    centred on it.
  - The double flip (`cv2.flip(…, 0)` then `cv2.flip(…, 1)`) is a
    180-degree rotation.

The external engines are parameters of the model:
- the object detector is a function from frame, weights, class id and
  confidence threshold to lists of boxes;
- the text reader on a box's crop is a function from the analysed frame and a box to a list of readings;
- `cv2.resize` is a function from a frame and a side length to a frame. Its
  only assumed property is that the output is size by size with the input's
  channel count.

Frames are `seq<seq<Pixel>>` with pixels as sequences of 8-bit channel values.
Box sizes and the area percentage are `real`.

## Notes on the code

- **Empty slot is checked first.** `handle_detection_request` tests for a
  missing frame before it looks at the target (lines 72-82). An unknown
  target with an empty slot therefore gets `(-1, 0.0)`.
  `HandleDetectionRequest` keeps this order.
- **No `0`→`O` correction.** `text.replace("0", "O")` (line 151) discards its
  result, so the check runs on the raw reading. `ZeroIsNotCorrected` shows
  that `"ST0P"` is rejected even though its corrected form passes.
- **The slot is emptied late.** `detect` empties the slot only after the
  analysis (line 108). An exception raised during the analysis therefore
  leaves the frame cached and sends no response. The person branch always
  takes this path when it has a box to analyse (see Findings).

## Model

| member | source | states |
|---|---|---|
| Images.Flip | route_yolo_ros2/route_yolo_ros2/detect.py:65-67 | the double flip keeps the height, width and channel count of a rectangular frame |
| Images.FlipIsRotation | route_yolo_ros2/route_yolo_ros2/detect.py:65-67 | after flipping with code 0 then code 1, output pixel (i, j) is input pixel (h-1-i, w-1-j), a 180-degree rotation |
| Images.FlipTwiceIsIdentity | route_yolo_ros2/route_yolo_ros2/detect.py:65-67 | the double flip is its own inverse on a rectangular frame |
| Images.FlipIsNotAMirror | route_yolo_ros2/route_yolo_ros2/detect.py:65-67 | on a 2x2 frame the double flip differs from the vertical flip and from the horizontal flip alone |
| Images.PadToSquare | route_yolo_ros2/route_yolo_ros2/detect.py:173-176 | the canvas has max(h, w) rows, each of length max(h, w) |
| Images.PadToSquarePlacement | route_yolo_ros2/route_yolo_ros2/detect.py:173-176 | the canvas is side x side with side = max(h, w); the offsets keep the image inside it; cell (y+i, x+j) holds image pixel (i, j); every other cell is the zero pixel |
| Images.PadThenCropIsIdentity | route_yolo_ros2/route_yolo_ros2/detect.py:173-176 | cropping the image window back out of the canvas returns the original frame |
| Images.SquareCanvasIsFrame | route_yolo_ros2/route_yolo_ros2/detect.py:171-172 | for a square frame the canvas would be the frame itself, so skipping the padding loses nothing |
| Images.LetterboxResize | route_yolo_ros2/route_yolo_ros2/detect.py:168-177 | the result is size x size with the input's channel count; a square input goes to resize unpadded; any other input is padded to its canvas first |
| Images.Preprocess | route_yolo_ros2/route_yolo_ros2/detect.py:61-67 | with a positive resize value the frame becomes resize x resize; otherwise its dimensions are kept; without a flip the result is the letterboxed frame (or the input itself when not resizing); with a flip it is the flip of that frame |
| Images.PreprocessFlipRotates | route_yolo_ros2/route_yolo_ros2/detect.py:61-67 | with `flip_image` set, cached pixel (i, j) is pixel (h-1-i, w-1-j) of the letterboxed or incoming frame |
| StopSign.StopsignOcrCheck | route_yolo_ros2/route_yolo_ros2/detect.py:147-156 | true iff some reading, upper-cased, contains STOP; the logged readings are the prefix up to and including the first match, or all readings when none matches; an empty list gives false |
| StopSign.ZeroIsNotCorrected | route_yolo_ros2/route_yolo_ros2/detect.py:150-153 | because the replace result is discarded, "ST0P" is rejected although its corrected form "STOP" would pass |
| StopSign.CheckExamples | route_yolo_ros2/route_yolo_ros2/detect.py:147-156 | a mixed-case "Stop sign" after "GO" is accepted after logging both; "GO", "5T0P" and the empty list are rejected |
| Targets.ParseTarget | route_yolo_ros2/route_yolo_ros2/detect.py:78 | a target string is recognised iff it is one of "stop", "tire", "person", and it parses to the target with exactly that name |
| Targets.QueryFor | route_yolo_ros2/route_yolo_ros2/detect.py:90-103 | only tire uses the tire weights; only stop asks for class 11; tire and person ask for class 0 |
| Targets.QueriesAreDistinct | route_yolo_ros2/route_yolo_ros2/detect.py:90-103 | no two targets name the same (weights parameter, class id) pair; class 0 is asked for exactly by tire and person |
| Analysis.Counted | route_yolo_ros2/route_yolo_ros2/detect.py:124-134 | the counted boxes are exactly the detector's boxes that pass the mode's gate, and there are at most as many |
| Analysis.Flatten | route_yolo_ros2/route_yolo_ros2/detect.py:120-122 | the nested loops' boxes are exactly the boxes of some result |
| Analysis.ScanBoxes | route_yolo_ros2/route_yolo_ros2/detect.py:122-137 | the loop adds the number of counted boxes and never lowers the running maximum; it ends at or above every counted area, and either where it began or at some counted area |
| Analysis.ScanResultsIsFlatScan | route_yolo_ros2/route_yolo_ros2/detect.py:120-122 | the outer and inner loops together scan the concatenation of all results in order |
| Analysis.Area | route_yolo_ros2/route_yolo_ros2/detect.py:135 | the area, divided by 100 and multiplied by the frame's pixel count, is the box's width times height; it is non-negative for a box of non-negative size |
| Analysis.Step | route_yolo_ros2/route_yolo_ros2/detect.py:124-137 | a box rejected by the gate changes nothing; an accepted box adds one to the count and raises the maximum to at least its area; the maximum is always either kept or the box's area, and a box no larger than the maximum keeps it |
| Analysis.AnalyzeResults | route_yolo_ros2/route_yolo_ros2/detect.py:114-145 | with the vest-mask bounds read as numbers: count = number of counted boxes, between 0 and the total; size is 0.0 or the area of some counted box, and at least every counted area; rejected stop boxes never contribute |
| Analysis.NothingCountedMeansZero | route_yolo_ros2/route_yolo_ros2/detect.py:115-116 | when no box passes the gate the result is (0, 0.0) |
| Analysis.TireAndPersonCountEveryBox | route_yolo_ros2/route_yolo_ros2/detect.py:124-134 | in tire mode, and in person mode once the vest mask no longer raises, the count is the total number of boxes over all results; neither mode gates on the boxes |
| Analysis.ScanBoxesAsWritten | route_yolo_ros2/route_yolo_ros2/detect.py:122-137 | as written, the box loop raises iff the mode is person and there is a box; otherwise it ends where the ordinary loop ends |
| Analysis.AnalyzeResultsAsWritten | route_yolo_ros2/route_yolo_ros2/detect.py:114-164 | as written, the analysis raises iff the mode is person and the detector returned some box; otherwise it returns what AnalyzeResults returns |
| Analysis.PersonBoxRaisesAsWritten | route_yolo_ros2/route_yolo_ros2/detect.py:130-164 | one 50x50 person box in a 200x200 frame: as written the analysis raises; the corrected analysis gives (1, 6.25) |
| Analysis.StopCountsOcrAccepted | route_yolo_ros2/route_yolo_ros2/detect.py:124-134 | in stop mode the count is the number of boxes whose readings pass the text check |
| Analysis.SizeIsAPercentage | route_yolo_ros2/route_yolo_ros2/detect.py:135-137 | when every box fits inside the frame, the size is between 0 and 100 |
| Analysis.AreaExamples | route_yolo_ros2/route_yolo_ros2/detect.py:135 | a 50x50 box is 25.0 percent of a 100x100 frame and 6.25 percent of a 200x200 frame |
| Analysis.TieKeepsMaximum | route_yolo_ros2/route_yolo_ros2/detect.py:136-137 | a second box of equal area does not replace the maximum under strict `>`; two 10-percent boxes give (2, 10.0) |
| DetectorNode.ImageCallback | route_yolo_ros2/route_yolo_ros2/detect.py:54-69 | after a frame arrives the slot holds a well-formed frame of the configured size |
| DetectorNode.Detect | route_yolo_ros2/route_yolo_ros2/detect.py:89-112 | with the vest-mask bounds read as numbers: after a pass the slot is empty; the count is the number of gated boxes in the detector's answer to the target's query, read on the cached frame; the size is the largest counted area or 0.0 |
| DetectorNode.HandleDetectionRequest | route_yolo_ros2/route_yolo_ros2/detect.py:71-87 | with the vest-mask bounds read as numbers: an empty slot answers (-1, 0.0) for every target and changes nothing; a cached frame with an unknown target answers (0, 0.0) and changes nothing; a valid target gets the answer of the detection pass for that target and empties the slot; count is -1 iff the slot was empty |
| DetectorNode.LastWriteWins | route_yolo_ros2/route_yolo_ros2/detect.py:69 | two arrivals leave what the second alone would leave, whatever the slot held |
| DetectorNode.ConsumeOnce | route_yolo_ros2/route_yolo_ros2/detect.py:96-108 | with the vest-mask bounds read as numbers: after a request that ran a pass, a second request of any target answers (-1, 0.0) |
| DetectorNode.UnknownTargetKeepsFrame | route_yolo_ros2/route_yolo_ros2/detect.py:78-82 | an unknown-target request leaves the node unchanged, so a later valid request gets the same answer as without it |
| DetectorNode.StoredFrameIsFound | route_yolo_ros2/route_yolo_ros2/detect.py:69-84 | with the vest-mask bounds read as numbers: the request right after a frame arrival, with a valid target, runs a pass and empties the slot |
| DetectorNode.AtMostOnePassPerFrame | route_yolo_ros2/route_yolo_ros2/detect.py:54-112 | over any sequence of arrivals and requests, passes plus a frame still cached are at most arrivals plus a frame cached at the start |
| DetectorNode.DetectAsWritten | route_yolo_ros2/route_yolo_ros2/detect.py:89-112 | as written, a pass raises iff the target is person and the detector returned some box; a raised pass leaves the node unchanged, frame included; any other pass ends as Detect does |
| DetectorNode.HandleDetectionRequestAsWritten | route_yolo_ros2/route_yolo_ros2/detect.py:71-87 | as written, a request raises iff a frame is cached, the target is "person" and the detector finds a person; it then leaves the node unchanged; every other request is answered as HandleDetectionRequest answers it |
| DetectorNode.PersonRequestRaisesAsWritten | route_yolo_ros2/route_yolo_ros2/detect.py:71-164 | as written, a person request on a frame with people raises and leaves the node unchanged, frame included (in the code the exception then ends the node); applied again, the model's handler raises again; the corrected handler counts every box and empties the slot |

## Left out

- ROS 2 plumbing is not modelled: the node, the subscription, the publishers, the service registration, parameter declaration, logging and the CvBridge conversions (lines 17-52, 56-59, 144, 165-166, 180-189). A CvBridge conversion error in the callback ends the callback with no store, and that is not modelled either.
- Parameter reads are not modelled. `image_resize` and `flip_image` are the fields of `Config`. The model weight paths are the two `Weights` values.
- YOLO loading and `predict` are the `Yolo` oracle, as is unpacking the result tensors (lines 97, 105, 121). The `conf=0.5` threshold is passed to it as `Confidence`.
- `torch.cuda.empty_cache` and `gc.collect` (lines 109-110) are left out; they release resources and do not affect results.
- The EasyOCR `readtext` call, the BGR-to-RGB conversion and cropping a box out of the frame are folded into the `Reader` oracle (lines 125, 149). Truncating box coordinates to `int` for crops and drawing is not modelled. Boxes carry their `xywh` values as reals.
- The vest mask's image output (`orange_vest_mask`, lines 163-166) is left out: the HSV conversion and the published mask are OpenCV numerics. As written, the call raises on every person box (see Findings), and the as-written members model only that exception.
- Floating-point rounding is not modelled. Line 135 computes the area in NumPy floating point from float32 `xywh` values; the model uses exact reals, so the maximum and its ties are compared exactly.
- Drawing is left out, and so is the published annotated image: `cv2.rectangle`, `cv2.line`, `cv2.putText` and the rounded confidence labels.
- Interpolation in `cv2.resize` is left abstract. Both letterbox branches use the same `resize` oracle. On line 172, `cv2.INTER_AREA` is passed as the third positional argument, which OpenCV's Python binding takes as the output buffer rather than the interpolation flag.
- StopSign.Upper: upper-cases ASCII letters only. Python's `str.upper` also maps some non-ASCII characters to S, T, O or P (for example `ſ`), and the model does not cover them.
- Images.WellFormed: frames must be non-empty rectangles with one channel count. numpy arrays are rectangular by construction, and `cv2.resize` rejects empty input. With resizing disabled, an empty frame could reach the detector in the source; the model does not cover that case.
- Exceptions other than the vest mask's are not modelled: those raised by the detector, by the text reader, or by the OpenCV calls on a crop (an empty crop, for one). The oracles are total, so those exceptions do not arise.
- AnalyzeResults: models the person branch with the vest-mask bounds read as numbers, which is not what the code does; AnalyzeResultsAsWritten models the code, where every person box raises.
- TireAndPersonCountEveryBox: its person half holds only for the corrected analysis; as written a person pass with a box raises (PersonBoxRaisesAsWritten).
- Detect: models the corrected person branch; DetectAsWritten models the raise that keeps the frame.
- HandleDetectionRequest: models the corrected person branch; HandleDetectionRequestAsWritten models the code, where a person request on a frame with people raises and sends no response.
- ConsumeOnce: holds as written for stop and tire, and for person only when the detector finds nobody; as written a raised person request keeps the frame (PersonRequestRaisesAsWritten).
- StoredFrameIsFound: holds as written except for a person request on a frame with people, which raises instead of answering.
- Run: runs the corrected handler, so AtMostOnePassPerFrame is stated for the corrected node. As written, a raised request ends the spin loop, so the node does not go on to later events.
- QueriesAreDistinct: distinguishes the weight parameters, not the files they name; `coco_model_path` and `tire_model_path` may be configured with the same file.
- Concurrency is not modelled. The ROS executor serialises the callbacks, so the model runs arrivals and requests one after another (`Run`).

## Findings

| source | as written | input that shows it | evidently intended | confidence | as-written member | corrected member |
|---|---|---|---|---|---|---|
| route_yolo_ros2/route_yolo_ros2/detect.py:130-164 | the colour bounds are tuples of `get_parameter(...)` results without `.value`, so `cv2.inRange` raises on the first person box and `analyze_results` never counts it | target "person" and a detector answer holding one 50x50 box in a 200x200 frame | the bounds read as numbers, the mask published, the box counted: (1, 6.25) | likely; not executed | Analysis.AnalyzeResultsAsWritten | Analysis.AnalyzeResults |
| route_yolo_ros2/route_yolo_ros2/detect.py:96-112 | the exception leaves `detect` before line 108, so the frame stays cached, no response is sent, and the exception, uncaught around `rclpy.spin` (lines 180-185), ends the node | a cached frame, target "person", and a detector that finds a person | a response with the person count, and the slot emptied | likely; not executed | DetectorNode.HandleDetectionRequestAsWritten | DetectorNode.HandleDetectionRequest |
