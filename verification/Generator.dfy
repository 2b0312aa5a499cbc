/**
 * The atlas generator (Generator.cpp): the per-image loop of generateTo,
 * which trims each image, asks the rectangle packer for room, decides
 * whether the image is drawn rotated and gives up at the first image the
 * packer cannot place; and the rounding of a size up to a power of two.
 */
module Generator {
  import opened ImageTrim

  /** Generator::TrimMode. */
  datatype TrimMode = NoTrim | AllAlpha | MaxAlpha

  /** The trim mode a new Generator starts with. */
  const DefaultTrimMode: TrimMode := MaxAlpha

  /** The maxAlphaValue flag passed to the trimmer: set only for MAX_ALPHA. */
  function MaxAlphaValue(trim: TrimMode): bool {
    trim == MaxAlpha
  }

  /** rbp::Rect as the packer returns it; a height of 0 means no room. */
  datatype PackedRect = PackedRect(x: int, y: int, width: int, height: int)

  /** The size asked of the packer for one image. */
  datatype Request = Request(width: int, height: int)

  /** MaxRectsBinPack::Insert, which is not part of this model: the packer's
      answer depends on the requests it has already placed and the new one. */
  type Packer = (seq<Request>, Request) -> PackedRect

  /** Where one image was drawn, and whether it was turned by 90 degrees first. */
  datatype Placement = Placement(x: int, y: int, rotated: bool, image: Image)

  // ---------------------------------------------------------------------
  // The decisions taken for one image
  // ---------------------------------------------------------------------

  /** The trimming step of generateTo: the image to draw and the crop rect
      whose size is requested. The crop rect starts as the full image and is
      replaced by the trimmer unless the trim mode is NONE: an image that is
      not trimmed, is under 2x2 or has no alpha keeps its full crop rect,
      and any other is asked for at the size of its exact bounding box. */
  function Prepare(img: Image, trim: TrimMode): (t: TrimResult)
    requires img.Valid()
    ensures t.image.Valid()
    ensures trim == NoTrim || img.width < 2 || img.height < 2 || !img.hasAlpha ==>
              t.image == img && t.cropRect == RectAt(0, 0, img.width, img.height)
    ensures trim != NoTrim && 2 <= img.width && 2 <= img.height && img.hasAlpha ==>
              t.cropRect == BoundingBox(img, MaxAlphaValue(trim))
  {
    var full := RectAt(0, 0, img.width, img.height);
    if trim == NoTrim then TrimResult(img, full)
    else Trimmed(img, MaxAlphaValue(trim), full)
  }

  /** The packer is asked for the size of the crop rect. */
  function RequestOf(t: TrimResult): Request {
    Request(t.cropRect.Width(), t.cropRect.Height())
  }

  function RequestFor(img: Image, trim: TrimMode): Request
    requires img.Valid()
  {
    RequestOf(Prepare(img, trim))
  }

  /** The image is turned when the packer's rect and the crop rect disagree on
      whether they are wider than tall: a placement that keeps the requested
      sides is drawn as it is, and one that swaps the sides of a non-square
      request is drawn rotated. */
  function ShouldRotate(packed: PackedRect, request: Request): (rotated: bool)
    ensures packed.width == request.width && packed.height == request.height ==> !rotated
    ensures packed.width == request.height && packed.height == request.width && request.width != request.height ==>
              rotated
  {
    (packed.width > packed.height) != (request.width > request.height)
  }

  /** With trim mode NONE the packer is asked for the full pre-trim size. */
  lemma NoTrimRequestsFullSize(img: Image)
    requires img.Valid()
    ensures RequestFor(img, NoTrim) == Request(img.width, img.height)
    ensures Prepare(img, NoTrim).image == img
  {
  }

  /** Whenever the image has content (or is not trimmed at all), the size asked
      of the packer is the size of the image that is drawn. */
  lemma RequestMatchesDrawnImage(img: Image, trim: TrimMode)
    requires img.Valid()
    requires trim == NoTrim || img.width < 2 || img.height < 2 || !img.hasAlpha || HasContent(img, MaxAlphaValue(trim))
    ensures var t := Prepare(img, trim);
      RequestFor(img, trim) == Request(t.image.width, t.image.height)
  {
    var m := MaxAlphaValue(trim);
    if trim != NoTrim && 2 <= img.width && 2 <= img.height && img.hasAlpha {
      var b := BoundingBox(img, m);
      BoundingBoxInside(img, m);
      var full := RectAt(0, 0, img.width, img.height);
      if NeedsCrop(b, img) {
        assert Prepare(img, trim) == TrimResult(Copy(img, b), b);
      } else {
        assert Prepare(img, trim) == TrimResult(img, b);
      }
    }
  }

  /** A trimmed image with no content pixel is cut to a null image, while the
      packer is asked for a negative width and height (1 - width, 1 - height). */
  lemma EmptyImageRequest(img: Image, trim: TrimMode)
    requires img.Valid() && trim != NoTrim && 2 <= img.width && 2 <= img.height && img.hasAlpha
    requires !HasContent(img, MaxAlphaValue(trim))
    ensures RequestFor(img, trim) == Request(1 - img.width, 1 - img.height)
    ensures Prepare(img, trim).image.width == 0 && Prepare(img, trim).image.height == 0
  {
    EmptyBoundingBox(img, MaxAlphaValue(trim));
  }

  // ---------------------------------------------------------------------
  // Generator::generateTo
  // ---------------------------------------------------------------------

  ghost predicate AllValid(images: seq<Image>) {
    forall i :: 0 <= i < |images| ==> images[i].Valid()
  }

  /** What the trimming step produces for each image, in order. */
  function PrepareAll(images: seq<Image>, trim: TrimMode): (ps: seq<TrimResult>)
    requires AllValid(images)
    ensures |ps| == |images|
    decreases |images|, 1
  {
    PrepareUpTo(images, trim, |images|)
  }

  /** The first n images, prepared. PrepareAll and PrepareUpTo recurse through
      each other, so a proof that mentions the whole sequence does not unfold
      the trimmer for its last image. */
  function PrepareUpTo(images: seq<Image>, trim: TrimMode, n: nat): (ps: seq<TrimResult>)
    requires AllValid(images) && n <= |images|
    ensures |ps| == n
    decreases n, 0
  {
    if n == 0 then []
    else PrepareAll(images[..n - 1], trim) + [Prepare(images[n - 1], trim)]
  }

  /** Entry i of the prepared sequence is what the trimming step makes of image i. */
  lemma {:induction false} PrepareAllAt(images: seq<Image>, trim: TrimMode, i: nat)
    requires AllValid(images) && i < |images|
    ensures PrepareAll(images, trim)[i] == Prepare(images[i], trim)
    decreases |images|
  {
    var n := |images| - 1;
    if i < n {
      PrepareAllAt(images[..n], trim, i);
    }
  }

  /** The requests made for prepared images, in order. */
  function RequestsOf(ps: seq<TrimResult>): seq<Request> {
    seq(|ps|, i requires 0 <= i < |ps| => RequestOf(ps[i]))
  }

  /** The packer's answer for prepared image i, after those before it. */
  function PackedFrom(ps: seq<TrimResult>, insert: Packer, i: nat): PackedRect
    requires i < |ps|
  {
    insert(RequestsOf(ps[..i]), RequestOf(ps[i]))
  }

  function PlacementFrom(ps: seq<TrimResult>, insert: Packer, i: nat): Placement
    requires i < |ps|
  {
    var packed := PackedFrom(ps, insert, i);
    Placement(packed.x, packed.y, ShouldRotate(packed, RequestOf(ps[i])), ps[i].image)
  }

  /** The packer's answer for image i, after the images before it were placed. */
  function PackedAt(images: seq<Image>, trim: TrimMode, insert: Packer, i: nat): PackedRect
    requires AllValid(images) && i < |images|
  {
    PackedFrom(PrepareAll(images, trim), insert, i)
  }

  /** What is drawn for image i when the packer found room for it: the
      prepared image at the packer's position, rotated when the packer's rect
      and the crop rect disagree on orientation. */
  function PlacementAt(images: seq<Image>, trim: TrimMode, insert: Packer, i: nat): Placement
    requires AllValid(images) && i < |images|
  {
    PlacementFrom(PrepareAll(images, trim), insert, i)
  }

  /** The trimming step of generateTo: the crop rect starts as the full image and
      the trimmer runs unless the trim mode is NONE. */
  method TrimForPacking(source: Image, trim: TrimMode) returns (image: Image, cropRect: Rect)
    requires source.Valid()
    ensures TrimResult(image, cropRect) == Prepare(source, trim)
  {
    image := source;
    cropRect := RectAt(0, 0, image.width, image.height);
    if trim != NoTrim {
      image, cropRect := CreateImage(image, trim == MaxAlpha, cropRect);
    }
  }

  /** Trims image k of the sequence. */
  method TrimNext(images: seq<Image>, trim: TrimMode, k: nat) returns (image: Image, cropRect: Rect)
    requires AllValid(images) && k < |images|
    ensures TrimResult(image, cropRect) == PrepareAll(images, trim)[k]
  {
    image, cropRect := TrimForPacking(images[k], trim);
    PrepareAllAt(images, trim, k);
  }

  /** The loop of generateTo over the decoded (and scaled) images: each image
      is trimmed, placed and drawn in turn; at the first one the packer gives
      height 0 the run fails and no further image is looked at. The result is
      the success flag and what was drawn. */
  method GenerateTo(images: seq<Image>, insert: Packer, trim: TrimMode := DefaultTrimMode) returns (ok: bool, drawn: seq<Placement>)
    requires AllValid(images)
    ensures ok <==> forall i :: 0 <= i < |images| ==> PackedAt(images, trim, insert, i).height > 0
    ensures ok ==> |drawn| == |images|
    ensures !ok ==> |drawn| < |images| && PackedAt(images, trim, insert, |drawn|).height <= 0
    ensures forall i :: 0 <= i < |drawn| ==> PackedAt(images, trim, insert, i).height > 0
    ensures forall i :: 0 <= i < |drawn| ==> drawn[i] == PlacementAt(images, trim, insert, i)
  {
    ghost var ps := PrepareAll(images, trim);
    var placed: seq<Request> := [];
    drawn := [];
    var k := 0;
    while k < |images|
      invariant 0 <= k <= |images|
      invariant |drawn| == k
      invariant |placed| == k
      invariant forall i :: 0 <= i < k ==> placed[i] == RequestOf(ps[i])
      invariant forall i :: 0 <= i < k ==> PackedFrom(ps, insert, i).height > 0 && drawn[i] == PlacementFrom(ps, insert, i)
    {
      var packedRect, request, placement := PackNext(images, trim, insert, ps, placed, k);
      if packedRect.height > 0 {
        drawn := drawn + [placement];
        placed := placed + [request];
      } else {
        Outcome(images, trim, insert, false, drawn);
        return false, drawn;
      }
      k := k + 1;
    }
    Outcome(images, trim, insert, true, drawn);
    return true, drawn;
  }

  /** The state the loop of generateTo leaves, read back in terms of the
      input images: what was drawn so far is the placements of the first
      images, and a failure is at the image after them. */
  lemma Outcome(images: seq<Image>, trim: TrimMode, insert: Packer, ok: bool, drawn: seq<Placement>)
    requires AllValid(images) && |drawn| <= |images|
    requires forall i :: 0 <= i < |drawn| ==>
               PackedFrom(PrepareAll(images, trim), insert, i).height > 0
               && drawn[i] == PlacementFrom(PrepareAll(images, trim), insert, i)
    requires ok ==> |drawn| == |images|
    requires !ok ==> |drawn| < |images| && PackedFrom(PrepareAll(images, trim), insert, |drawn|).height <= 0
    ensures ok <==> forall i :: 0 <= i < |images| ==> PackedAt(images, trim, insert, i).height > 0
    ensures ok ==> |drawn| == |images|
    ensures !ok ==> |drawn| < |images| && PackedAt(images, trim, insert, |drawn|).height <= 0
    ensures forall i :: 0 <= i < |drawn| ==> PackedAt(images, trim, insert, i).height > 0
    ensures forall i :: 0 <= i < |drawn| ==> drawn[i] == PlacementAt(images, trim, insert, i)
  {
    ghost var ps := PrepareAll(images, trim);
    forall i | 0 <= i < |images|
      ensures PackedAt(images, trim, insert, i) == PackedFrom(ps, insert, i)
      ensures PlacementAt(images, trim, insert, i) == PlacementFrom(ps, insert, i)
    {
    }
  }

  /** The loop body of generateTo for image k, up to drawing: it is trimmed, the packer is asked for the
      size of its crop rect after the requests placed so far, and the image
      would be drawn rotated when the packer's rect and the crop rect
      disagree on whether they are wider than tall. */
  method PackNext(images: seq<Image>, trim: TrimMode, insert: Packer, ghost ps: seq<TrimResult>, placed: seq<Request>, k: nat)
    returns (packedRect: PackedRect, request: Request, placement: Placement)
    requires AllValid(images) && k < |images| && ps == PrepareAll(images, trim)
    requires |placed| == k && forall i :: 0 <= i < k ==> placed[i] == RequestOf(ps[i])
    ensures packedRect == PackedFrom(ps, insert, k)
    ensures request == RequestOf(ps[k])
    ensures placement == PlacementFrom(ps, insert, k)
  {
    var image, cropRect := TrimNext(images, trim, k);
    var orientation := cropRect.Width() > cropRect.Height();
    request := Request(cropRect.Width(), cropRect.Height());
    assert placed == RequestsOf(ps[..k]);
    packedRect := insert(placed, request);
    var rotated := (packedRect.width > packedRect.height) != orientation;
    placement := Placement(packedRect.x, packedRect.y, rotated, image);
  }

  // ---------------------------------------------------------------------
  // Generator::_roundToPowerOf2
  // ---------------------------------------------------------------------

  function Pow2(k: nat): nat {
    if k == 0 then 1 else 2 * Pow2(k - 1)
  }

  lemma {:induction false} Pow2Monotone(i: nat, j: nat)
    requires i <= j
    ensures Pow2(i) <= Pow2(j)
    decreases j
  {
    if i < j {
      Pow2Monotone(i, j - 1);
    }
  }

  /** The smallest power of two that is at least 2 and at least `value`:
      starting from 2, the power is doubled while value exceeds it. */
  method RoundToPowerOf2(value: real) returns (power: real)
    ensures exists k: nat :: 1 <= k && power == Pow2(k) as real
    ensures 2.0 <= power && value <= power
    ensures power == 2.0 || power / 2.0 < value
    ensures forall k: nat :: 1 <= k && value <= Pow2(k) as real ==> power <= Pow2(k) as real
  {
    power := 2.0;
    ghost var n: nat := 1;
    while value > power
      invariant 1 <= n && power == Pow2(n) as real
      invariant power == 2.0 || power / 2.0 < value
      decreases value.Floor - Pow2(n)
    {
      power := power * 2.0;
      n := n + 1;
    }
    forall k: nat | 1 <= k && value <= Pow2(k) as real
      ensures power <= Pow2(k) as real
    {
      if k < n {
        Pow2Monotone(k, n - 1);
      } else {
        Pow2Monotone(n, k);
      }
    }
  }
}
