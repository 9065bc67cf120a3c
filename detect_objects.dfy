/**
 * deetect_objects.py: detect boxes in a frame, pair every product box with the
 * label box whose centre is nearest, read the label with OCR, store the
 * product crop with that text, and annotate the frame; the main loop does this
 * for every FRAME_SKIP-th frame of a live camera.
 *
 * The detector, the crop, the OCR engine and the drawing calls are foreign:
 * they are the fields of a `Vision` value. The frame and the crop image are
 * opaque type parameters.
 */
module DetectObjects {
  import opened Wrappers
  import opened Sampling

  // ---------------------------------------------------------------------
  // detect_products
  // ---------------------------------------------------------------------

  /** One box of a detector result as its tensors hold it: float corners, confidence and class. */
  datatype RawBox = RawBox(x1: real, y1: real, x2: real, y2: real, conf: real, cls: real)

  /** The 6-tuple `(x1, y1, x2, y2, confidence, label)`, the last being the class id, that detect_products emits. */
  datatype Detection = Detection(x1: int, y1: int, x2: int, y2: int, confidence: real, classId: int)

  /** Python's `int()` on a float: truncation toward zero. */
  function Trunc(x: real): (n: int)
    ensures 0.0 <= x ==> n as real <= x < n as real + 1.0
    ensures x < 0.0 ==> n as real - 1.0 < x <= n as real
  {
    if x >= 0.0 then x.Floor else -((-x).Floor)
  }

  function ToDetection(b: RawBox): Detection
  {
    Detection(Trunc(b.x1), Trunc(b.y1), Trunc(b.x2), Trunc(b.y2), b.conf, Trunc(b.cls))
  }

  /** The number of boxes over all results. */
  function BoxCount(results: seq<seq<RawBox>>): nat
  {
    if results == [] then 0 else BoxCount(results[..|results| - 1]) + |results[|results| - 1]|
  }

  /** The detections of all results, result by result and box by box. */
  function Detections(results: seq<seq<RawBox>>): seq<Detection>
  {
    if results == [] then []
    else
      var last := results[|results| - 1];
      Detections(results[..|results| - 1]) + seq(|last|, b requires 0 <= b < |last| => ToDetection(last[b]))
  }

  /**
   * One detection per box, in iteration order: box b of result r becomes the
   * detection after all boxes of the earlier results.
   */
  lemma {:induction false} DetectionsLayout(results: seq<seq<RawBox>>, r: int, b: int)
    requires 0 <= r < |results| && 0 <= b < |results[r]|
    ensures |Detections(results)| == BoxCount(results)
    ensures BoxCount(results[..r]) + b < BoxCount(results)
    ensures Detections(results)[BoxCount(results[..r]) + b] == ToDetection(results[r][b])
  {
    var n := |results| - 1;
    var init := results[..n];
    assert init[..r] == results[..r] by { if r < n { assert results[..r] == results[..n][..r]; } }
    if r < n {
      DetectionsLayout(init, r, b);
    } else {
      DetectionsCount(init);
    }
  }

  lemma {:induction false} DetectionsCount(results: seq<seq<RawBox>>)
    ensures |Detections(results)| == BoxCount(results)
  {
    if results != [] {
      DetectionsCount(results[..|results| - 1]);
    }
  }

  /** detect_products: converts every box of every result, appending in order. */
  method DetectProducts(results: seq<seq<RawBox>>) returns (detections: seq<Detection>)
    ensures detections == Detections(results)
  {
    detections := [];
    for i := 0 to |results|
      invariant detections == Detections(results[..i])
    {
      assert results[..i + 1][..i] == results[..i];
      ghost var before := detections;
      for j := 0 to |results[i]|
        invariant detections == before + seq(j, b requires 0 <= b < j => ToDetection(results[i][b]))
      {
        detections := detections + [ToDetection(results[i][j])];
      }
    }
    assert results[..|results|] == results;
  }

  // ---------------------------------------------------------------------
  // associate_product_with_label
  // ---------------------------------------------------------------------

  datatype Point = Point(x: int, y: int)

  /** A box's centre, each coordinate the floor of the mean of the box's two edges (`//`). */
  function Center(box: Detection): (c: Point)
    ensures 2 * c.x <= box.x1 + box.x2 < 2 * c.x + 2
    ensures 2 * c.y <= box.y1 + box.y2 < 2 * c.y + 2
  {
    Point((box.x1 + box.x2) / 2, (box.y1 + box.y2) / 2)
  }

  /**
   * The square of the Euclidean distance between two points: it orders pairs
   * of points as the distance itself does.
   */
  function SquaredDistance(p: Point, q: Point): (d: int)
    ensures d >= 0
    ensures d == 0 <==> p == q
  {
    (p.x - q.x) * (p.x - q.x) + (p.y - q.y) * (p.y - q.y)
  }

  function Distance(product: Detection, labelBox: Detection): int
  {
    SquaredDistance(Center(product), Center(labelBox))
  }

  /**
   * labels[i] is nearest to the product, and it is the first label at that
   * distance: every earlier label is strictly farther.
   */
  ghost predicate IsFirstNearest(product: Detection, labels: seq<Detection>, i: int)
  {
    && 0 <= i < |labels|
    && (forall j :: 0 <= j < |labels| ==> Distance(product, labels[i]) <= Distance(product, labels[j]))
    && (forall j :: 0 <= j < i ==> Distance(product, labels[i]) < Distance(product, labels[j]))
  }

  /** A reference definition of the nearest label: first label unless a later one is strictly nearer. */
  function NearestIndex(product: Detection, labels: seq<Detection>): (i: nat)
    requires labels != []
    ensures i < |labels|
  {
    if |labels| == 1 then 0
    else
      var j := 1 + NearestIndex(product, labels[1..]);
      if Distance(product, labels[0]) <= Distance(product, labels[j]) then 0 else j
  }

  lemma {:induction false} NearestIndexIsFirstNearest(product: Detection, labels: seq<Detection>)
    requires labels != []
    ensures IsFirstNearest(product, labels, NearestIndex(product, labels))
  {
    if |labels| > 1 {
      var rest := labels[1..];
      NearestIndexIsFirstNearest(product, rest);
      var j := 1 + NearestIndex(product, rest);
      assert forall m :: 1 <= m < |labels| ==> labels[m] == rest[m - 1];
    }
  }

  /** At most one index is the first nearest: the tie-break makes association deterministic. */
  lemma FirstNearestUnique(product: Detection, labels: seq<Detection>, i: int, j: int)
    requires IsFirstNearest(product, labels, i) && IsFirstNearest(product, labels, j)
    ensures i == j
  {
    assert Distance(product, labels[i]) == Distance(product, labels[j]);
  }

  /**
   * What associate_product_with_label returns: nothing when there are no
   * labels, otherwise the first of the labels whose centre is nearest to the
   * product's centre.
   */
  function Associate(product: Detection, labels: seq<Detection>): (r: Option<Detection>)
    ensures r.None? <==> labels == []
    ensures r.Some? ==> exists i :: IsFirstNearest(product, labels, i) && labels[i] == r.value
  {
    if labels == [] then None
    else
      NearestIndexIsFirstNearest(product, labels);
      Some(labels[NearestIndex(product, labels)])
  }

  /**
   * associate_product_with_label: one pass over the labels keeping the
   * nearest so far, replaced only by a strictly nearer one. `minDistance`
   * None stands for `float('inf')`.
   */
  method AssociateProductWithLabel(product: Detection, labels: seq<Detection>)
    returns (associated: Option<Detection>)
    ensures associated == Associate(product, labels)
  {
    var productCenter := Center(product);
    var minDistance: Option<int> := None;
    associated := None;
    ghost var best := 0;
    for k := 0 to |labels|
      invariant minDistance.None? <==> k == 0
      invariant associated.None? <==> k == 0
      invariant minDistance.Some? ==>
        && best < k
        && associated == Some(labels[best])
        && minDistance.value == Distance(product, labels[best])
        && (forall j :: 0 <= j < k ==> Distance(product, labels[best]) <= Distance(product, labels[j]))
        && (forall j :: 0 <= j < best ==> Distance(product, labels[best]) < Distance(product, labels[j]))
    {
      var labelCenter := Center(labels[k]);
      var distance := SquaredDistance(productCenter, labelCenter);
      if minDistance.None? || distance < minDistance.value {
        minDistance := Some(distance);
        associated := Some(labels[k]);
        best := k;
      }
    }
    if labels != [] {
      NearestIndexIsFirstNearest(product, labels);
      FirstNearestUnique(product, labels, best, NearestIndex(product, labels));
    }
  }

  // ---------------------------------------------------------------------
  // process_frame
  // ---------------------------------------------------------------------

  /** The corners a slice `frame[y1:y2, x1:x2]` is taken between. */
  datatype Region = Region(x1: int, y1: int, x2: int, y2: int)

  /** The region of a box: its corners, without its confidence and class. */
  function RegionOf(box: Detection): Region
  {
    Region(box.x1, box.y1, box.x2, box.y2)
  }

  /**
   * The foreign calls of the pipeline: the detector (`model(frame)`), the
   * region `frame[y1:y2, x1:x2]` between a box's corners, OCR of an image
   * (`pytesseract.image_to_string`), and drawing a product's rectangle and
   * label text onto the frame (`cv2.rectangle`, `cv2.putText`).
   */
  datatype Vision<!F, !I> = Vision(
    detect: F -> seq<seq<RawBox>>,
    crop: (F, Region) -> I,
    ocr: I -> string,
    annotate: (F, Detection, string) -> F)

  /**
   * A row of the `products` table: the product's image and the label text.
   * `product_id` is assigned by the store and not modelled; the table itself
   * is modelled by the sequence of rows the pipeline inserts, in order.
   */
  datatype ProductRow<I> = ProductRow(image: I, labelText: string)

  /** extract_text_from_label: OCR of the label's region of the frame. */
  function ExtractTextFromLabel<F, I>(v: Vision<F, I>, frame: F, labelBox: Detection): string
  {
    v.ocr(v.crop(frame, RegionOf(labelBox)))
  }

  /** store_in_database: the row inserted for a product, its image being the product's region of the frame. */
  function StoredRow<F, I>(v: Vision<F, I>, frame: F, productBox: Detection, labelText: string): ProductRow<I>
  {
    ProductRow(v.crop(frame, RegionOf(productBox)), labelText)
  }

  /**
   * extract_text_from_label unpacks only the corners of the label box: two
   * boxes with the same corners read the same text, whatever their
   * confidence and class.
   */
  lemma LabelTextReadsCornersOnly<F, I>(v: Vision<F, I>, frame: F, a: Detection, b: Detection)
    requires a.x1 == b.x1 && a.y1 == b.y1 && a.x2 == b.x2 && a.y2 == b.y2
    ensures ExtractTextFromLabel(v, frame, a) == ExtractTextFromLabel(v, frame, b)
  {
  }

  /**
   * store_in_database stores the text it is given verbatim, and an image
   * taken from the product box's corners only.
   */
  lemma StoredRowReadsCornersOnly<F, I>(v: Vision<F, I>, frame: F, a: Detection, b: Detection, labelText: string)
    requires a.x1 == b.x1 && a.y1 == b.y1 && a.x2 == b.x2 && a.y2 == b.y2
    ensures StoredRow(v, frame, a, labelText).labelText == labelText
    ensures StoredRow(v, frame, a, labelText) == StoredRow(v, frame, b, labelText)
  {
  }

  /** The text read for a product: OCR of its associated label, on the frame as it is then. */
  function LabelText<F, I>(v: Vision<F, I>, frame: F, product: Detection, labels: seq<Detection>): string
    requires labels != []
  {
    ExtractTextFromLabel(v, frame, labels[NearestIndex(product, labels)])
  }

  /**
   * The frame after the first k products were handled. Each handled product
   * is drawn onto the frame, so the OCR and crops of later products see the
   * drawings of earlier ones; with no labels nothing is drawn.
   */
  function FrameAfter<F, I>(v: Vision<F, I>, frame: F, products: seq<Detection>, labels: seq<Detection>, k: nat): F
    requires k <= |products|
  {
    if k == 0 then frame
    else
      var f := FrameAfter(v, frame, products, labels, k - 1);
      if labels == [] then f else v.annotate(f, products[k - 1], LabelText(v, f, products[k - 1], labels))
  }

  /** The rows inserted while handling the first k products. */
  function RowsAfter<F, I>(v: Vision<F, I>, frame: F, products: seq<Detection>, labels: seq<Detection>, k: nat): seq<ProductRow<I>>
    requires k <= |products|
  {
    if k == 0 || labels == [] then []
    else
      var f := FrameAfter(v, frame, products, labels, k - 1);
      RowsAfter(v, frame, products, labels, k - 1)
        + [StoredRow(v, f, products[k - 1], LabelText(v, f, products[k - 1], labels))]
  }

  /** Every product leads to exactly one insert when there are labels, and none leads to one otherwise. */
  lemma {:induction false} RowsAfterCount<F, I>(v: Vision<F, I>, frame: F, products: seq<Detection>, labels: seq<Detection>, k: nat)
    requires k <= |products|
    ensures |RowsAfter(v, frame, products, labels, k)| == if labels == [] then 0 else k
  {
    if k > 0 && labels != [] {
      RowsAfterCount(v, frame, products, labels, k - 1);
    }
  }

  /**
   * The rows follow detection order: row j holds the crop of product j and
   * the text of the label nearest to it, both read from the frame as the
   * earlier products left it.
   */
  lemma {:induction false} RowsAfterAt<F, I>(v: Vision<F, I>, frame: F, products: seq<Detection>, labels: seq<Detection>, k: nat, j: nat)
    requires k <= |products| && labels != [] && j < k
    ensures j < |RowsAfter(v, frame, products, labels, k)|
    ensures var f := FrameAfter(v, frame, products, labels, j);
      RowsAfter(v, frame, products, labels, k)[j]
        == StoredRow(v, f, products[j], LabelText(v, f, products[j], labels))
  {
    // HandleStep carries each step; the bodies of the rows' parts are not needed.
    hide LabelText;
    hide StoredRow;
    HandleStep(v, frame, products, labels, k - 1);
    RowsAfterCount(v, frame, products, labels, k - 1);
    if j < k - 1 {
      RowsAfterAt(v, frame, products, labels, k - 1, j);
    }
  }

  /** With no labels the frame is left as it was. */
  lemma {:induction false} NoLabelsNoDrawing<F, I>(v: Vision<F, I>, frame: F, products: seq<Detection>, k: nat)
    requires k <= |products|
    ensures FrameAfter(v, frame, products, [], k) == frame
  {
    if k > 0 {
      NoLabelsNoDrawing(v, frame, products, k - 1);
    }
  }

  /** Handling product k adds at most one row and one drawing. */
  lemma HandleStep<F, I>(v: Vision<F, I>, frame: F, products: seq<Detection>, labels: seq<Detection>, k: nat)
    requires k < |products|
    ensures var f := FrameAfter(v, frame, products, labels, k);
      && FrameAfter(v, frame, products, labels, k + 1)
         == (if labels == [] then f else v.annotate(f, products[k], LabelText(v, f, products[k], labels)))
      && RowsAfter(v, frame, products, labels, k + 1)
         == RowsAfter(v, frame, products, labels, k)
            + (if labels == [] then [] else [StoredRow(v, f, products[k], LabelText(v, f, products[k], labels))])
  {
  }

  /**
   * The product loop of process_frame: for each product, in detection order,
   * associate a label; if there is one, read its text, store the product and
   * annotate the frame. Returns the annotated frame and the rows inserted.
   */
  method HandleProducts<F, I>(v: Vision<F, I>, frame: F, products: seq<Detection>, labels: seq<Detection>)
    returns (annotated: F, inserted: seq<ProductRow<I>>)
    ensures |inserted| == if labels == [] then 0 else |products|
    ensures annotated == FrameAfter(v, frame, products, labels, |products|)
    ensures inserted == RowsAfter(v, frame, products, labels, |products|)
  {
    annotated := frame;
    inserted := [];
    for k := 0 to |products|
      invariant annotated == FrameAfter(v, frame, products, labels, k)
      invariant inserted == RowsAfter(v, frame, products, labels, k)
    {
      var productBox := products[k];
      var associatedLabelBox := AssociateProductWithLabel(productBox, labels);
      HandleStep(v, frame, products, labels, k);
      if associatedLabelBox.Some? {
        var labelText := ExtractTextFromLabel(v, annotated, associatedLabelBox.value);
        inserted := inserted + [StoredRow(v, annotated, productBox, labelText)];
        annotated := v.annotate(annotated, productBox, labelText);
      }
    }
    RowsAfterCount(v, frame, products, labels, |products|);
  }

  /** The detections of one detector call on the frame. */
  function Detected<F, I>(v: Vision<F, I>, frame: F): seq<Detection>
  {
    Detections(v.detect(frame))
  }

  /** The frame process_frame returns. */
  function ProcessedFrame<F, I>(v: Vision<F, I>, frame: F): F
  {
    var dets := Detected(v, frame);
    FrameAfter(v, frame, dets, dets, |dets|)
  }

  /** The rows process_frame inserts. */
  function ProcessedRows<F, I>(v: Vision<F, I>, frame: F): seq<ProductRow<I>>
  {
    var dets := Detected(v, frame);
    RowsAfter(v, frame, dets, dets, |dets|)
  }

  /**
   * process_frame: the detector runs twice on the same frame, once for
   * "products" and once for "labels", so both lists are the same detections.
   */
  method ProcessFrame<F, I>(v: Vision<F, I>, frame: F) returns (annotated: F, inserted: seq<ProductRow<I>>)
    ensures annotated == ProcessedFrame(v, frame)
    ensures inserted == ProcessedRows(v, frame)
  {
    var productDetections := DetectProducts(v.detect(frame));
    var labelDetections := DetectProducts(v.detect(frame));
    annotated, inserted := HandleProducts(v, frame, productDetections, labelDetections);
  }

  /**
   * Because products and labels are the same list, every product is paired
   * with the first detection (itself or an earlier one) whose centre
   * coincides with its own.
   */
  lemma SelfAssociation(dets: seq<Detection>, k: int)
    requires 0 <= k < |dets|
    ensures Associate(dets[k], dets).Some?
    ensures var i := NearestIndex(dets[k], dets);
      && Associate(dets[k], dets).value == dets[i]
      && i <= k
      && Center(dets[i]) == Center(dets[k])
      && forall j :: 0 <= j < i ==> Center(dets[j]) != Center(dets[k])
  {
    var i := NearestIndex(dets[k], dets);
    NearestIndexIsFirstNearest(dets[k], dets);
    assert Distance(dets[k], dets[k]) == 0;
  }

  /** process_frame inserts exactly one row per detected box: every product has at least itself as a label. */
  lemma ProcessedRowsCount<F, I>(v: Vision<F, I>, frame: F)
    ensures |ProcessedRows(v, frame)| == |Detected(v, frame)| == BoxCount(v.detect(frame))
  {
    var dets := Detected(v, frame);
    RowsAfterCount(v, frame, dets, dets, |dets|);
    DetectionsCount(v.detect(frame));
  }

  /**
   * Row k inserted by process_frame holds the crop of detection k and the OCR
   * text of the first detection sharing its centre, both taken from the frame
   * after the first k detections were drawn onto it.
   */
  lemma ProcessedRowAt<F, I>(v: Vision<F, I>, frame: F, k: int)
    requires 0 <= k < |Detected(v, frame)|
    ensures var dets := Detected(v, frame);
      var f := FrameAfter(v, frame, dets, dets, k);
      var i := NearestIndex(dets[k], dets);
      && k < |ProcessedRows(v, frame)|
      && ProcessedRows(v, frame)[k] == ProductRow(v.crop(f, RegionOf(dets[k])), v.ocr(v.crop(f, RegionOf(dets[i]))))
      && i <= k
      && Center(dets[i]) == Center(dets[k])
  {
    var dets := Detected(v, frame);
    RowsAfterAt(v, frame, dets, dets, |dets|, k);
    SelfAssociation(dets, k);
  }

  // ---------------------------------------------------------------------
  // main
  // ---------------------------------------------------------------------

  /** `frame_skip` in main. */
  const FRAME_SKIP := 5

  /** `cv2.waitKey(1) & 0xFF == ord('q')`: the low byte of the key code is 'q'. */
  predicate IsQuitKey(key: int)
  {
    key % 256 == 'q' as int
  }

  /**
   * Only the low byte of the key code matters: a code quits exactly when it
   * is 113 ('q') plus a multiple of 256, and `waitKey`'s "no key" value -1
   * never quits.
   */
  lemma QuitKeyLowByte(key: int, m: int)
    ensures IsQuitKey(key) <==> key == 256 * (key / 256) + 113
    ensures IsQuitKey(256 * m + 113)
    ensures !IsQuitKey(-1)
  {
    DivUnique(256 * m + 113, 256, m);
  }

  /**
   * The loop of main reads exactly n frames: it stops when the camera has no
   * more frames or right after the first frame followed by a quit key.
   */
  ghost predicate StopsAfter<F>(camera: seq<F>, keys: nat -> int, n: nat)
  {
    && n <= |camera|
    && (forall j :: 0 <= j < n - 1 ==> !IsQuitKey(keys(j)))
    && (n < |camera| ==> 0 < n && IsQuitKey(keys(n - 1)))
  }

  /** The number of frames read is determined by the camera and the keys. */
  lemma StopsAfterUnique<F>(camera: seq<F>, keys: nat -> int, n: nat, m: nat)
    requires StopsAfter(camera, keys, n) && StopsAfter(camera, keys, m)
    ensures n == m
  {
  }

  /** The frames shown: each processed frame after processing. */
  function ShownFrames<F, I>(v: Vision<F, I>, frames: seq<F>): seq<F>
  {
    seq(|frames|, i requires 0 <= i < |frames| => ProcessedFrame(v, frames[i]))
  }

  /** The rows inserted for a sequence of processed frames, frame by frame. */
  function AllRows<F, I>(v: Vision<F, I>, frames: seq<F>): seq<ProductRow<I>>
  {
    if frames == [] then [] else AllRows(v, frames[..|frames| - 1]) + ProcessedRows(v, frames[|frames| - 1])
  }

  lemma ProcessedSnoc<F, I>(v: Vision<F, I>, frames: seq<F>, frame: F)
    ensures ShownFrames(v, frames + [frame]) == ShownFrames(v, frames) + [ProcessedFrame(v, frame)]
    ensures AllRows(v, frames + [frame]) == AllRows(v, frames) + ProcessedRows(v, frame)
  {
    assert (frames + [frame])[..|frames|] == frames;
  }

  /**
   * main: reads frames until the camera has none left or the user quits,
   * processing (and showing) the frames whose 0-based index is divisible by
   * FRAME_SKIP; `frameCount` counts every frame read. The camera is the
   * sequence of frames `cap.read()` delivers and `keys(i)` the key code
   * `cv2.waitKey` returns after frame i.
   */
  method Run<F, I>(v: Vision<F, I>, camera: seq<F>, keys: nat -> int)
    returns (frameCount: nat, shown: seq<F>, inserted: seq<ProductRow<I>>)
    ensures StopsAfter(camera, keys, frameCount)
    ensures shown == ShownFrames(v, Sampled(camera[..frameCount], FRAME_SKIP))
    ensures inserted == AllRows(v, Sampled(camera[..frameCount], FRAME_SKIP))
  {
    // ProcessFrame and ProcessedSnoc carry each step; the per-frame bodies are not needed.
    hide ProcessedFrame;
    hide ProcessedRows;
    frameCount := 0;
    shown := [];
    inserted := [];
    ghost var sampled: seq<F> := [];
    while frameCount < |camera|
      invariant frameCount <= |camera|
      invariant forall j :: 0 <= j < frameCount ==> !IsQuitKey(keys(j))
      invariant sampled == Sampled(camera[..frameCount], FRAME_SKIP)
      invariant shown == ShownFrames(v, sampled)
      invariant inserted == AllRows(v, sampled)
    {
      var frame := camera[frameCount];
      SampledStep(camera, FRAME_SKIP, frameCount);
      if frameCount % FRAME_SKIP == 0 {
        var processedFrame, rows := ProcessFrame(v, frame);
        ProcessedSnoc(v, sampled, frame);
        shown := shown + [processedFrame];
        inserted := inserted + rows;
        sampled := sampled + [frame];
      }
      frameCount := frameCount + 1;
      assert sampled == Sampled(camera[..frameCount], FRAME_SKIP);
      assert inserted == AllRows(v, sampled);
      if IsQuitKey(keys(frameCount - 1)) {
        break;
      }
    }
  }

  /**
   * The frames main processes are exactly those with index divisible by
   * FRAME_SKIP: the j-th shown frame is frame j * FRAME_SKIP after processing.
   */
  lemma ShownAreEveryFifth<F, I>(v: Vision<F, I>, camera: seq<F>, n: nat, j: int)
    requires n <= |camera| && 0 <= j < |Sampled(camera[..n], FRAME_SKIP)|
    ensures j * FRAME_SKIP < n
    ensures ShownFrames(v, Sampled(camera[..n], FRAME_SKIP))[j] == ProcessedFrame(v, camera[j * FRAME_SKIP])
  {
    SampledAt(camera[..n], FRAME_SKIP, j);
  }
}
