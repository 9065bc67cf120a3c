# ShelfSight core in Dafny

This project models the two scripts at the heart of ShelfSight.

`deetect_objects.py` watches a live camera. For every fifth frame it:

- runs an object detector and turns every box into a `(x1, y1, x2, y2, confidence, label)` tuple;
- pairs every product box with the label box whose centre is nearest;
- reads the label's text with OCR;
- stores the product's image and that text in a `products` table;
- draws the box and the text onto the frame.

`create_pano.py` samples every `frame_skip`-th frame of a video. It then stitches the samples side by side or top to bottom, after rescaling each one to the smallest height or width.

Modules, one file each:

- `Wrappers` (`wrappers.dfy`): `Option` and `Result`.
- `Sampling` (`sampling.dfy`): the `frame_count % frame_skip == 0` gate. Both scripts use it. The gate is specified by the function `Sampled`, with lemmas giving its length and the position of each kept element.
- `DetectObjects` (`detect_objects.dfy`): detection, association, the product loop and the main loop.
  - The detector, the region crop, the OCR engine and the drawing calls are foreign code. They are the fields of a `Vision` value, and frames and images are opaque type parameters.
  - The loops are methods, proved equal to reference functions.
  - `AssociateProductWithLabel` keeps a running minimum and replaces it only on a strictly smaller distance. It is proved to return the *first* nearest label.
- `CreatePano` (`create_pano.dfy`): frame extraction as a loop over the decoded frames. Stitching is modelled on shapes: the new extents, the order of the parts and the size of the result.

Points of behaviour the model makes explicit:

- `process_frame` calls the detector twice on the same frame, so the "labels" are the products themselves. Each product is therefore paired with itself, or with an earlier detection that has the same centre (`SelfAssociation`). Every detection yields exactly one stored row (`ProcessedRowsCount`).
- The frame is drawn on in place while products are handled. The OCR and the crop of product k therefore read the frame with the drawings of products 0..k-1 on it (`FrameAfter`, `ProcessedRowAt`).
- In `extract_frames`, a `frame_skip` of 0 raises `ZeroDivisionError` at the first decoded frame. The model returns `Failure(ZeroFrameSkip)`; with no frames decoded the result is an empty list. A negative `frame_skip` keeps the same frames as its absolute value, because Python's `%` gives 0 exactly for multiples.
- When a frame's rescaled extent truncates to 0, `cv2.resize` raises. The model returns `ResizeFailed(i)` for the first such frame i, in the order the list comprehension meets the frames.

## Model

| member | source | states |
|---|---|---|
| Sampling.SampledLength | create_pano.py:28-35 | Sampling with stride k keeps ceil(n / abs(k)) of n frames |
| Sampling.SampledAt | create_pano.py:33-34 | the j-th kept frame is frame j * abs(k), which exists |
| Sampling.KeptAt | create_pano.py:33-34 | every frame whose index is divisible by k is kept, at position i / abs(k) |
| DetectObjects.Trunc | deetect_objects.py:32-34 | `int()` of a float truncates toward zero, for both signs |
| DetectObjects.DetectionsLayout | deetect_objects.py:30-35 | one detection per box, in result-then-box order; box b of result r sits after all boxes of earlier results |
| DetectObjects.DetectionsCount | deetect_objects.py:30-35 | the number of detections is the total number of boxes |
| DetectObjects.DetectProducts | deetect_objects.py:26-37 | the nested loop builds exactly the reference list of detections |
| DetectObjects.Center | deetect_objects.py:48-51 | each centre coordinate is the floor of the mean of the two edges |
| DetectObjects.SquaredDistance | deetect_objects.py:60-62 | the squared distance is non-negative and is zero exactly for equal points |
| DetectObjects.NearestIndexIsFirstNearest | deetect_objects.py:55-66 | the reference index is nearest to the product, and every earlier label is strictly farther |
| DetectObjects.FirstNearestUnique | deetect_objects.py:64-66 | the strict-less-than tie-break picks at most one label |
| DetectObjects.Associate | deetect_objects.py:47-68 | no result iff there are no labels; otherwise the first nearest label |
| DetectObjects.AssociateProductWithLabel | deetect_objects.py:47-68 | the running-minimum loop returns exactly `Associate` |
| DetectObjects.LabelTextReadsCornersOnly | deetect_objects.py:40-44 | `ExtractTextFromLabel` is the OCR of the label's corner region of the frame: boxes with equal corners read the same text, whatever their confidence and class |
| DetectObjects.StoredRowReadsCornersOnly | deetect_objects.py:71-82 | `StoredRow` keeps the given label text verbatim, and its image depends only on the product box's corners |
| DetectObjects.RowsAfterCount | deetect_objects.py:93-107 | one insert per product when there are labels, none otherwise |
| DetectObjects.RowsAfterAt | deetect_objects.py:93-107 | row j is product j's crop plus the OCR of its nearest label, both read from the frame left by products 0..j-1 |
| DetectObjects.NoLabelsNoDrawing | deetect_objects.py:99-118 | with no labels the frame is returned unchanged |
| DetectObjects.HandleProducts | deetect_objects.py:93-120 | the product loop returns the annotated frame and the inserted rows of the reference definitions, with their count |
| DetectObjects.ProcessFrame | deetect_objects.py:85-120 | process_frame handles the frame's detections as both products and labels |
| DetectObjects.SelfAssociation | deetect_objects.py:86-97 | every product is paired with the first detection sharing its centre, at or before itself |
| DetectObjects.ProcessedRowsCount | deetect_objects.py:93-107 | process_frame stores one row per detected box |
| DetectObjects.ProcessedRowAt | deetect_objects.py:93-107 | row k holds detection k's crop and the OCR of the first detection with the same centre |
| DetectObjects.QuitKeyLowByte | deetect_objects.py:141 | `IsQuitKey` looks only at the low byte: a key code quits exactly when it is 113 ('q') plus a multiple of 256, and `waitKey`'s "no key" value -1 never quits |
| DetectObjects.StopsAfterUnique | deetect_objects.py:130-142 | the number of frames read is determined by the camera and the keys |
| DetectObjects.Run | deetect_objects.py:123-143 | main reads frames until none are left or just after a frame followed by 'q'; it processes and shows exactly the frames of index divisible by 5, and inserts their rows in order |
| DetectObjects.ShownAreEveryFifth | deetect_objects.py:135-137 | the j-th shown frame is frame 5j after processing |
| CreatePano.ExtractFrames | create_pano.py:9-38 | unopenable gives []; otherwise the frames at positions divisible by frame_skip, in order; a zero skip fails iff a frame was decoded |
| CreatePano.Min | create_pano.py:56 | the minimum is one of the extents and is at most each of them |
| CreatePano.Rescaled | create_pano.py:57 | the truncated rescaled extent r is the largest with r * h <= w * H; it is 0 iff w * H < h, and at most w when shrinking |
| CreatePano.RescaledIdentity | create_pano.py:57 | rescaling to the extent a frame already has keeps the other extent |
| CreatePano.ResizeAllToHeight | create_pano.py:57 | each part has its frame as source, the target height, and the truncated proportional width |
| CreatePano.ResizeAllToWidth | create_pano.py:80 | each part has its frame as source, the target width, and the truncated proportional height |
| CreatePano.FirstEmpty | create_pano.py:57 | the first part whose size cv2.resize refuses, or none |
| CreatePano.StitchFramesHorizontally | create_pano.py:41-61 | None iff no frames; failure at the first frame whose width truncates to 0; otherwise every frame is rescaled to the minimum height, in order, and the width is the sum of the parts |
| CreatePano.StitchFramesVertically | create_pano.py:64-84 | the same with the axes exchanged |
| CreatePano.PanoramaWidthBounds | create_pano.py:55-60 | a horizontal panorama is at least one pixel per frame wide and no wider than the frames unscaled |
| CreatePano.PanoramaHeightBounds | create_pano.py:78-83 | a vertical panorama is at least one pixel per frame tall and no taller than the frames unscaled |
| CreatePano.SameHeightUnscaled | create_pano.py:55-60 | frames of one height are stitched unscaled, with width the sum of their widths |
| CreatePano.SameWidthUnscaled | create_pano.py:78-83 | frames of one width are stacked unscaled, with height the sum of their heights |

## Left out

- The YOLO detector, Tesseract OCR, image cropping and OpenCV drawing are foreign code. They are uninterpreted functions in `Vision`. The detector is taken to be deterministic, so its two calls on one frame return the same boxes.
- `np.linalg.norm` is replaced by the squared integer distance. It orders candidates the same way, but the float square root and its rounding are not modelled.
- CreatePano.Rescaled: computes `int(w * H / h)` in exact integer arithmetic. Float division could round differently for very large extents.
- The SQLite table is modelled as the sequence of rows inserted, in order, with each product image as the crop itself. Not modelled: the table creation, the `product_id` key, `commit` and `close`. The JPEG and base64 encoding is also left out; JPEG is lossy and has no round trip to state.
- `asyncio` and the thread pool are not modelled: every `await` completes before the next statement, so the model is sequential.
- DetectObjects.Run: assumes every detector, OCR, JPEG-encode and INSERT call returns normally. In the script, an exception from any of them ends `main` without cleanup. Examples are a box whose corners truncate to an empty region, which `cv2.imencode` refuses, or a failed INSERT. The model does not cover those early exits.
- DetectObjects.Run: takes a finite `camera` sequence. A camera that never fails, with no 'q' pressed, makes the script loop forever; the model covers every finite prefix of such a run, not the endless run itself.
- CreatePano.ExtractFrames: the default argument `frame_skip=1` is not modelled, because Dafny has no default parameters. A call without `frame_skip` is `ExtractFrames(source, 1)`, which keeps every decoded frame.
- `cv2.imshow`, window handling, `cap.release()` and the console messages are I/O. They are left out; the frames shown are returned as a sequence.
- The camera is modelled as the sequence of frames it delivers before `cap.read()` first fails, and `cap.isOpened()` as staying true until then. Key presses are a function from frame index to key code.
- Pixel contents of resized and concatenated images are not modelled, only their extents and order.
- `gather_all_photos` is an empty placeholder. The `__main__` block of `create_pano.py` wires the two functions to fixed paths and writes a file. Both are left out.
- `connect_cameras.py` is not part of this model.
