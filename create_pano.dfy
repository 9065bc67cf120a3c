/**
 * create_pano.py: sample the frames of a decoded video with a stride, then
 * stitch them side by side (or top to bottom) after rescaling every frame to
 * the smallest height (or width). Only shapes are modelled; the pixels of a
 * frame are an opaque payload.
 */
module CreatePano {
  import opened Wrappers
  import opened Sampling

  /** A positive pixel extent: decoded frames are never empty. */
  type Dim = x: int | x > 0 witness 1

  /** A decoded frame, `shape[0]` being its height and `shape[1]` its width. */
  datatype Frame<P> = Frame(height: Dim, width: Dim, pixels: P)

  /**
   * What `cv2.VideoCapture(path)` gives: either a capture that is not open,
   * or the frames `cap.read()` returns, in order, before it first reports no
   * frame (end of stream or decode failure).
   */
  datatype VideoSource<P> = Unopenable | Opened(decoded: seq<Frame<P>>)

  /** `frame_count % frame_skip` with `frame_skip == 0` raises ZeroDivisionError. */
  datatype ExtractError = ZeroFrameSkip

  /**
   * extract_frames: keeps each decoded frame whose 0-based position is
   * divisible by `frameSkip`, unmodified and in order; an unopenable source
   * gives no frames.
   */
  method ExtractFrames<P>(source: VideoSource<P>, frameSkip: int)
    returns (r: Result<seq<Frame<P>>, ExtractError>)
    ensures source.Unopenable? ==> r == Success([])
    ensures source.Opened? && frameSkip == 0 ==>
      r == if source.decoded == [] then Success([]) else Failure(ZeroFrameSkip)
    ensures source.Opened? && frameSkip != 0 ==> r == Success(Sampled(source.decoded, frameSkip))
  {
    if source.Unopenable? {
      return Success([]);
    }
    var frames: seq<Frame<P>> := [];
    var frameCount := 0;
    while frameCount < |source.decoded|
      invariant 0 <= frameCount <= |source.decoded|
      invariant frameSkip == 0 ==> frameCount == 0 && frames == []
      invariant frameSkip != 0 ==> frames == Sampled(source.decoded[..frameCount], frameSkip)
    {
      var frame := source.decoded[frameCount];
      if frameSkip == 0 {
        return Failure(ZeroFrameSkip);
      }
      assert source.decoded[..frameCount + 1][..frameCount] == source.decoded[..frameCount];
      if frameCount % frameSkip == 0 {
        frames := frames + [frame];
      }
      frameCount := frameCount + 1;
    }
    assert source.decoded[..frameCount] == source.decoded;
    return Success(frames);
  }

  /**
   * The smallest of a non-empty list of extents (Python's `min` over a
   * generator): attained by some element and below every element.
   */
  function Min(xs: seq<Dim>): (m: Dim)
    requires xs != []
    ensures exists i :: 0 <= i < |xs| && xs[i] == m
    ensures forall i :: 0 <= i < |xs| ==> m <= xs[i]
  {
    if |xs| == 1 then xs[0]
    else
      var rest := Min(xs[1..]);
      if xs[0] <= rest then xs[0] else rest
  }

  function Heights<P>(frames: seq<Frame<P>>): (hs: seq<Dim>)
    ensures |hs| == |frames| && forall i :: 0 <= i < |frames| ==> hs[i] == frames[i].height
  {
    seq(|frames|, i requires 0 <= i < |frames| => frames[i].height)
  }

  function Widths<P>(frames: seq<Frame<P>>): (ws: seq<Dim>)
    ensures |ws| == |frames| && forall i :: 0 <= i < |frames| ==> ws[i] == frames[i].width
  {
    seq(|frames|, i requires 0 <= i < |frames| => frames[i].width)
  }

  /**
   * `int(along * target / across)`: the extent along one axis after the other
   * axis is rescaled from `across` to `target`, keeping the aspect ratio and
   * truncating. It is the largest r with r * across <= along * target.
   */
  function Rescaled(along: Dim, across: Dim, target: Dim): (r: int)
    ensures 0 <= r
    ensures r * across <= along * target < (r + 1) * across
    ensures r == 0 <==> along * target < across
    ensures target <= across ==> r <= along
  {
    QuotientBounds(along, across, target);
    along * target / across
  }

  lemma QuotientBounds(along: Dim, across: Dim, target: Dim)
    ensures var r := along * target / across;
      && 0 <= r
      && r * across <= along * target < (r + 1) * across
      && (r == 0 <==> along * target < across)
      && (target <= across ==> r <= along)
  {
    var a := along * target;
    var r := a / across;
    assert a == r * across + a % across;
    assert (r + 1) * across == r * across + across;
    if r > 0 {
      MulMonotone(1, r, across);
    }
    if target <= across {
      MulMonotone(target, across, along);
      if r > along {
        MulMonotone(along + 1, r, across);
        assert false;
      }
    }
  }

  /** A frame after `cv2.resize`: its new shape, its pixels not modelled. */
  datatype Resized<P> = Resized(source: Frame<P>, height: int, width: int)

  /** `cv2.resize` refuses a target size with a zero extent. */
  predicate IsEmpty<P>(part: Resized<P>)
  {
    part.height <= 0 || part.width <= 0
  }

  /** The outcome of a stitch function; `NoFrames` is the source's `None`. */
  datatype Stitched<P> =
    | NoFrames
    | ResizeFailed(index: nat)
    | Panorama(height: int, width: int, parts: seq<Resized<P>>)

  /** The first part that `cv2.resize` refuses, as the list comprehension meets them. */
  function FirstEmpty<P>(parts: seq<Resized<P>>): (r: Option<nat>)
    ensures r.Some? ==> r.value < |parts| && IsEmpty(parts[r.value])
    ensures r.Some? ==> forall j :: 0 <= j < r.value ==> !IsEmpty(parts[j])
    ensures r.None? ==> forall j :: 0 <= j < |parts| ==> !IsEmpty(parts[j])
  {
    if parts == [] then None
    else if IsEmpty(parts[0]) then Some(0)
    else match FirstEmpty(parts[1..])
      case None => None
      case Some(i) => Some(i + 1)
  }

  /** The sum of a list of extents, as `cv2.hconcat`/`cv2.vconcat` add them up. */
  function Sum(xs: seq<int>): int
  {
    if xs == [] then 0 else Sum(xs[..|xs| - 1]) + xs[|xs| - 1]
  }

  function PartWidths<P>(parts: seq<Resized<P>>): (ws: seq<int>)
    ensures |ws| == |parts| && forall i :: 0 <= i < |parts| ==> ws[i] == parts[i].width
  {
    seq(|parts|, i requires 0 <= i < |parts| => parts[i].width)
  }

  function PartHeights<P>(parts: seq<Resized<P>>): (hs: seq<int>)
    ensures |hs| == |parts| && forall i :: 0 <= i < |parts| ==> hs[i] == parts[i].height
  {
    seq(|parts|, i requires 0 <= i < |parts| => parts[i].height)
  }

  /** The list comprehension of stitch_frames_horizontally: every frame rescaled to `height`. */
  function ResizeAllToHeight<P>(frames: seq<Frame<P>>, height: Dim): (parts: seq<Resized<P>>)
    requires forall i :: 0 <= i < |frames| ==> height <= frames[i].height
    ensures |parts| == |frames|
    ensures forall i :: 0 <= i < |frames| ==>
      && parts[i].source == frames[i]
      && parts[i].height == height
      && 0 <= parts[i].width <= frames[i].width
      && parts[i].width * frames[i].height <= frames[i].width * height
      && frames[i].width * height < (parts[i].width + 1) * frames[i].height
      && (IsEmpty(parts[i]) <==> frames[i].width * height < frames[i].height)
  {
    seq(|frames|, i requires 0 <= i < |frames| =>
      Resized(frames[i], height, Rescaled(frames[i].width, frames[i].height, height)))
  }

  /** The list comprehension of stitch_frames_vertically: every frame rescaled to `width`. */
  function ResizeAllToWidth<P>(frames: seq<Frame<P>>, width: Dim): (parts: seq<Resized<P>>)
    requires forall i :: 0 <= i < |frames| ==> width <= frames[i].width
    ensures |parts| == |frames|
    ensures forall i :: 0 <= i < |frames| ==>
      && parts[i].source == frames[i]
      && parts[i].width == width
      && 0 <= parts[i].height <= frames[i].height
      && parts[i].height * frames[i].width <= frames[i].height * width
      && frames[i].height * width < (parts[i].height + 1) * frames[i].width
      && (IsEmpty(parts[i]) <==> frames[i].height * width < frames[i].width)
  {
    seq(|frames|, i requires 0 <= i < |frames| =>
      Resized(frames[i], Rescaled(frames[i].height, frames[i].width, width), width))
  }

  /**
   * stitch_frames_horizontally: no frames give `None`; otherwise every frame
   * is rescaled to the smallest input height H, its width becoming
   * trunc(w * H / h), and the results are laid side by side in input order.
   * A frame whose new width truncates to 0 makes `cv2.resize` raise.
   */
  function StitchFramesHorizontally<P>(frames: seq<Frame<P>>): (r: Stitched<P>)
    ensures r.NoFrames? <==> frames == []
    ensures r.ResizeFailed? ==>
      && r.index < |frames|
      && frames[r.index].width * Min(Heights(frames)) < frames[r.index].height
      && forall j :: 0 <= j < r.index ==> frames[j].width * Min(Heights(frames)) >= frames[j].height
    ensures r.Panorama? ==>
      && (exists i :: 0 <= i < |frames| && frames[i].height == r.height)
      && (forall i :: 0 <= i < |frames| ==> r.height <= frames[i].height)
      && |r.parts| == |frames|
      && (forall i :: 0 <= i < |frames| ==>
            && r.parts[i].source == frames[i]
            && r.parts[i].height == r.height
            && 0 < r.parts[i].width <= frames[i].width
            && r.parts[i].width * frames[i].height <= frames[i].width * r.height
            && frames[i].width * r.height < (r.parts[i].width + 1) * frames[i].height)
      && r.width == Sum(PartWidths(r.parts))
  {
    if frames == [] then NoFrames
    else
      var height := Min(Heights(frames));
      var parts := ResizeAllToHeight(frames, height);
      match FirstEmpty(parts)
      case Some(i) => ResizeFailed(i)
      case None => Panorama(height, Sum(PartWidths(parts)), parts)
  }

  /**
   * stitch_frames_vertically: the same with the axes exchanged; every frame
   * is rescaled to the smallest input width W, its height becoming
   * trunc(h * W / w), and the results are stacked in input order.
   */
  function StitchFramesVertically<P>(frames: seq<Frame<P>>): (r: Stitched<P>)
    ensures r.NoFrames? <==> frames == []
    ensures r.ResizeFailed? ==>
      && r.index < |frames|
      && frames[r.index].height * Min(Widths(frames)) < frames[r.index].width
      && forall j :: 0 <= j < r.index ==> frames[j].height * Min(Widths(frames)) >= frames[j].width
    ensures r.Panorama? ==>
      && (exists i :: 0 <= i < |frames| && frames[i].width == r.width)
      && (forall i :: 0 <= i < |frames| ==> r.width <= frames[i].width)
      && |r.parts| == |frames|
      && (forall i :: 0 <= i < |frames| ==>
            && r.parts[i].source == frames[i]
            && r.parts[i].width == r.width
            && 0 < r.parts[i].height <= frames[i].height
            && r.parts[i].height * frames[i].width <= frames[i].height * r.width
            && frames[i].height * r.width < (r.parts[i].height + 1) * frames[i].width)
      && r.height == Sum(PartHeights(r.parts))
  {
    if frames == [] then NoFrames
    else
      var width := Min(Widths(frames));
      var parts := ResizeAllToWidth(frames, width);
      match FirstEmpty(parts)
      case Some(i) => ResizeFailed(i)
      case None => Panorama(Sum(PartHeights(parts)), width, parts)
  }

  /** A sum of positive extents, each at most its counterpart, lies between their number and the counterparts' sum. */
  lemma {:induction false} SumBounds(xs: seq<int>, ys: seq<int>)
    requires |xs| == |ys|
    requires forall i :: 0 <= i < |xs| ==> 0 < xs[i] <= ys[i]
    ensures |xs| <= Sum(xs) <= Sum(ys)
  {
    if xs != [] {
      var n := |xs| - 1;
      SumBounds(xs[..n], ys[..n]);
    }
  }

  /**
   * A horizontal panorama is at least one pixel wide per frame and never
   * wider than the frames laid side by side unscaled: shrinking to the
   * smallest height only narrows a frame.
   */
  lemma {:induction false} PanoramaWidthBounds<P>(frames: seq<Frame<P>>)
    requires StitchFramesHorizontally(frames).Panorama?
    ensures |frames| <= StitchFramesHorizontally(frames).width <= Sum(Widths(frames))
  {
    var r := StitchFramesHorizontally(frames);
    SumBounds(PartWidths(r.parts), Widths(frames));
  }

  /** The vertical counterpart: a vertical panorama is no taller than the frames stacked unscaled. */
  lemma {:induction false} PanoramaHeightBounds<P>(frames: seq<Frame<P>>)
    requires StitchFramesVertically(frames).Panorama?
    ensures |frames| <= StitchFramesVertically(frames).height <= Sum(Heights(frames))
  {
    var r := StitchFramesVertically(frames);
    SumBounds(PartHeights(r.parts), Heights(frames));
  }

  /** Rescaling to the extent a frame already has leaves the other extent as it was. */
  lemma RescaledIdentity(along: Dim, across: Dim)
    ensures Rescaled(along, across, across) == along
  {
    DivUnique(along * across, across, along);
  }

  /**
   * Frames that already share one height are stitched unscaled: the resize
   * keeps every width, nothing fails, and the panorama is as wide as the
   * frames together.
   */
  lemma {:induction false} SameHeightUnscaled<P>(frames: seq<Frame<P>>)
    requires frames != []
    requires forall i :: 0 <= i < |frames| ==> frames[i].height == frames[0].height
    ensures var r := StitchFramesHorizontally(frames);
      && r.Panorama?
      && r.height == frames[0].height
      && (forall i :: 0 <= i < |frames| ==> r.parts[i].width == frames[i].width)
      && r.width == Sum(Widths(frames))
  {
    var h := Min(Heights(frames));
    assert h == frames[0].height;
    var parts := ResizeAllToHeight(frames, h);
    forall i | 0 <= i < |frames|
      ensures parts[i].width == frames[i].width
    {
      RescaledIdentity(frames[i].width, h);
    }
    assert PartWidths(parts) == Widths(frames);
  }

  /** Frames that already share one width are stacked unscaled. */
  lemma {:induction false} SameWidthUnscaled<P>(frames: seq<Frame<P>>)
    requires frames != []
    requires forall i :: 0 <= i < |frames| ==> frames[i].width == frames[0].width
    ensures var r := StitchFramesVertically(frames);
      && r.Panorama?
      && r.width == frames[0].width
      && (forall i :: 0 <= i < |frames| ==> r.parts[i].height == frames[i].height)
      && r.height == Sum(Heights(frames))
  {
    var w := Min(Widths(frames));
    assert w == frames[0].width;
    var parts := ResizeAllToWidth(frames, w);
    forall i | 0 <= i < |frames|
      ensures parts[i].height == frames[i].height
    {
      RescaledIdentity(frames[i].height, w);
    }
    assert PartHeights(parts) == Heights(frames);
  }
}
