/**
 * Alpha trimming of a sprite (imageTools/ImageTrim.cpp): the bounding box of
 * the pixels that count as content, and the decision whether to hand back a
 * cropped copy of the image.
 */
module ImageTrim {
  import opened MinMax

  /** A rectangle stored by its inclusive corners, as QRect stores it:
      QRect(QPoint(x1, y1), QPoint(x2, y2)) has width x2 - x1 + 1. */
  datatype Rect = Rect(x1: int, y1: int, x2: int, y2: int) {
    function Width(): int { x2 - x1 + 1 }
    function Height(): int { y2 - y1 + 1 }
  }

  /** QRect(QPoint(x, y), QSize(w, h)): a rectangle given by its corner and size. */
  function RectAt(x: int, y: int, w: int, h: int): (r: Rect)
    ensures r.x1 == x && r.y1 == y && r.Width() == w && r.Height() == h
  {
    Rect(x, y, x + w - 1, y + h - 1)
  }

  /** A decoded image, reduced to what trimming reads: the alpha value of
      every pixel, row by row, and whether its format has an alpha channel. */
  datatype Image = Image(width: nat, height: nat, alpha: seq<seq<int>>, hasAlpha: bool) {
    /** The grid is height rows of width alpha values in 0..255. */
    predicate Valid() {
      && |alpha| == height
      && (forall y :: 0 <= y < height ==> |alpha[y]| == width)
      && (forall y, x :: 0 <= y < height && 0 <= x < |alpha[y]| ==> 0 <= alpha[y][x] <= 255)
    }
  }

  /** Whether a pixel counts as content: fully opaque in the default mode,
      any non-zero alpha when maxAlphaValue is set. */
  function IsContent(alpha: int, maxAlphaValue: bool): (c: bool)
    ensures alpha == 255 ==> c
    ensures alpha == 0 ==> !c
    ensures 0 < alpha < 255 ==> (c <==> maxAlphaValue)
  {
    (!maxAlphaValue && alpha == 255) || (maxAlphaValue && alpha != 0)
  }

  /** The pixel in column x of row y of the grid exists and is content. */
  predicate ContentIn(rows: seq<seq<int>>, m: bool, x: int, y: int) {
    0 <= y < |rows| && 0 <= x < |rows[y]| && IsContent(rows[y][x], m)
  }

  predicate ContentAt(img: Image, m: bool, x: int, y: int) {
    ContentIn(img.alpha, m, x, y)
  }

  ghost predicate HasContent(img: Image, m: bool) {
    exists x, y :: ContentAt(img, m, x, y)
  }

  predicate Inside(r: Rect, img: Image) {
    0 <= r.x1 <= r.x2 < img.width && 0 <= r.y1 <= r.y2 < img.height
  }

  /** The exact bounding box of the content pixels: every content pixel lies
      in it and each of its four sides passes through a content pixel. With
      no content it is the rectangle the scan starts from: left = width,
      top = height, right = bottom = 0. */
  ghost predicate IsBoundingBox(img: Image, m: bool, b: Rect) {
    if HasContent(img, m) then
      && (forall x, y :: ContentAt(img, m, x, y) ==> b.x1 <= x <= b.x2 && b.y1 <= y <= b.y2)
      && (exists y :: ContentAt(img, m, b.x1, y))
      && (exists y :: ContentAt(img, m, b.x2, y))
      && (exists x :: ContentAt(img, m, x, b.y1))
      && (exists x :: ContentAt(img, m, x, b.y2))
    else
      b == Rect(img.width, img.height, 0, 0)
  }

  // ---------------------------------------------------------------------
  // Reference definition of the box: a row-wise search without the shortcut
  // ---------------------------------------------------------------------

  /** Column of the first content pixel of a row, or |row| if there is none. */
  function FirstInRow(row: seq<int>, m: bool): (c: nat)
    ensures c <= |row|
    ensures c < |row| ==> IsContent(row[c], m)
    ensures forall x :: 0 <= x < c ==> !IsContent(row[x], m)
    decreases |row|
  {
    if row == [] then 0
    else if IsContent(row[0], m) then 0
    else 1 + FirstInRow(row[1..], m)
  }

  /** Column of the last content pixel of a row, or -1 if there is none. */
  function LastInRow(row: seq<int>, m: bool): (c: int)
    ensures -1 <= c < |row|
    ensures 0 <= c ==> IsContent(row[c], m)
    ensures forall x :: c < x < |row| ==> !IsContent(row[x], m)
    decreases |row|
  {
    if row == [] then -1
    else if IsContent(row[|row| - 1], m) then |row| - 1
    else LastInRow(row[..|row| - 1], m)
  }

  predicate RowHasContent(row: seq<int>, m: bool) {
    FirstInRow(row, m) < |row|
  }

  /** Index of the first row holding content, or |rows| if there is none. */
  function FirstRow(rows: seq<seq<int>>, m: bool): (r: nat)
    ensures r <= |rows|
    ensures r < |rows| ==> RowHasContent(rows[r], m)
    ensures forall y :: 0 <= y < r ==> !RowHasContent(rows[y], m)
    decreases |rows|
  {
    if rows == [] then 0
    else if RowHasContent(rows[0], m) then 0
    else 1 + FirstRow(rows[1..], m)
  }

  /** Index of the last row holding content, or -1 if there is none. */
  function LastRow(rows: seq<seq<int>>, m: bool): (r: int)
    ensures -1 <= r < |rows|
    ensures 0 <= r ==> RowHasContent(rows[r], m)
    ensures forall y :: r < y < |rows| ==> !RowHasContent(rows[y], m)
    decreases |rows|
  {
    if rows == [] then -1
    else if RowHasContent(rows[|rows| - 1], m) then |rows| - 1
    else LastRow(rows[..|rows| - 1], m)
  }

  /** The smallest first-content column over all rows; `width` when no row has content. */
  function LeftBound(rows: seq<seq<int>>, m: bool, width: int): int
    decreases |rows|
  {
    if rows == [] then width
    else Min(LeftBound(rows[..|rows| - 1], m, width), FirstInRow(rows[|rows| - 1], m))
  }

  /** The largest last-content column over all rows, and at least 0. */
  function RightBound(rows: seq<seq<int>>, m: bool): int
    decreases |rows|
  {
    if rows == [] then 0
    else Max(RightBound(rows[..|rows| - 1], m), LastInRow(rows[|rows| - 1], m))
  }

  /** The bounding box of the content pixels, computed row by row without
      any shortcut; this is what GetBoundingBox is proved to return. */
  function BoundingBox(img: Image, m: bool): Rect {
    Rect(LeftBound(img.alpha, m, img.width), FirstRow(img.alpha, m),
         RightBound(img.alpha, m), Max(0, LastRow(img.alpha, m)))
  }

  // ---------------------------------------------------------------------
  // Facts about the reference definition
  // ---------------------------------------------------------------------

  ghost predicate Rectangular(rows: seq<seq<int>>, width: int) {
    forall y :: 0 <= y < |rows| ==> |rows[y]| == width
  }

  lemma {:induction false} LeftBoundIsLower(rows: seq<seq<int>>, m: bool, width: int, x: int, y: int)
    requires Rectangular(rows, width)
    requires ContentIn(rows, m, x, y)
    ensures LeftBound(rows, m, width) <= x
    decreases |rows|
  {
    var n := |rows| - 1;
    if y < n {
      assert ContentIn(rows[..n], m, x, y);
      LeftBoundIsLower(rows[..n], m, width, x, y);
    }
  }

  lemma {:induction false} LeftBoundAttained(rows: seq<seq<int>>, m: bool, width: int) returns (y: nat)
    requires Rectangular(rows, width)
    requires LeftBound(rows, m, width) < width
    ensures ContentIn(rows, m, LeftBound(rows, m, width), y)
    decreases |rows|
  {
    var n := |rows| - 1;
    if FirstInRow(rows[n], m) <= LeftBound(rows[..n], m, width) {
      y := n;
    } else {
      y := LeftBoundAttained(rows[..n], m, width);
      assert rows[..n][y] == rows[y];
    }
  }

  lemma {:induction false} LeftBoundEmpty(rows: seq<seq<int>>, m: bool, width: int)
    requires Rectangular(rows, width)
    requires forall x, y :: !ContentIn(rows, m, x, y)
    ensures LeftBound(rows, m, width) == width
    decreases |rows|
  {
    if rows != [] {
      var n := |rows| - 1;
      forall x, y ensures !ContentIn(rows[..n], m, x, y) {
        assert ContentIn(rows[..n], m, x, y) ==> ContentIn(rows, m, x, y);
      }
      LeftBoundEmpty(rows[..n], m, width);
      assert !ContentIn(rows, m, FirstInRow(rows[n], m), n);
    }
  }

  lemma {:induction false} RightBoundIsUpper(rows: seq<seq<int>>, m: bool, x: int, y: int)
    requires ContentIn(rows, m, x, y)
    ensures x <= RightBound(rows, m)
    decreases |rows|
  {
    var n := |rows| - 1;
    if y < n {
      assert ContentIn(rows[..n], m, x, y);
      RightBoundIsUpper(rows[..n], m, x, y);
    }
  }

  lemma RightBoundAttained(rows: seq<seq<int>>, m: bool, x0: int, y0: int) returns (y: nat)
    requires ContentIn(rows, m, x0, y0)
    ensures ContentIn(rows, m, RightBound(rows, m), y)
  {
    RightBoundIsUpper(rows, m, x0, y0);
    if RightBound(rows, m) == 0 {
      y := y0;
    } else {
      y := RightBoundPositive(rows, m);
    }
  }

  /** A positive right bound is always reached by some content pixel. */
  lemma {:induction false} RightBoundPositive(rows: seq<seq<int>>, m: bool) returns (y: nat)
    requires 0 < RightBound(rows, m)
    ensures ContentIn(rows, m, RightBound(rows, m), y)
    decreases |rows|
  {
    var n := |rows| - 1;
    if RightBound(rows[..n], m) <= LastInRow(rows[n], m) {
      y := n;
    } else {
      y := RightBoundPositive(rows[..n], m);
      assert rows[..n][y] == rows[y];
    }
  }

  lemma {:induction false} RightBoundEmpty(rows: seq<seq<int>>, m: bool)
    requires forall x, y :: !ContentIn(rows, m, x, y)
    ensures RightBound(rows, m) == 0
    decreases |rows|
  {
    if rows != [] {
      var n := |rows| - 1;
      forall x, y ensures !ContentIn(rows[..n], m, x, y) {
        assert ContentIn(rows[..n], m, x, y) ==> ContentIn(rows, m, x, y);
      }
      RightBoundEmpty(rows[..n], m);
      assert !ContentIn(rows, m, LastInRow(rows[n], m), n);
    }
  }

  /** The reference box is the exact bounding box of the content pixels. */
  lemma BoundingBoxIsExact(img: Image, m: bool)
    requires img.Valid()
    ensures IsBoundingBox(img, m, BoundingBox(img, m))
  {
    var rows, b := img.alpha, BoundingBox(img, m);
    if HasContent(img, m) {
      var x0, y0 :| ContentAt(img, m, x0, y0);
      forall x, y | ContentAt(img, m, x, y)
        ensures b.x1 <= x <= b.x2 && b.y1 <= y <= b.y2
      {
        LeftBoundIsLower(rows, m, img.width, x, y);
        RightBoundIsUpper(rows, m, x, y);
        assert RowHasContent(rows[y], m);
      }
      LeftBoundIsLower(rows, m, img.width, x0, y0);
      var yl := LeftBoundAttained(rows, m, img.width);
      var yr := RightBoundAttained(rows, m, x0, y0);
      assert RowHasContent(rows[y0], m);
      assert ContentAt(img, m, b.x1, yl) && ContentAt(img, m, b.x2, yr);
      assert ContentAt(img, m, FirstInRow(rows[b.y1], m), b.y1);
      assert ContentAt(img, m, FirstInRow(rows[b.y2], m), b.y2);
    } else {
      forall x, y ensures !ContentIn(rows, m, x, y) {
        assert !ContentAt(img, m, x, y);
      }
      LeftBoundEmpty(rows, m, img.width);
      RightBoundEmpty(rows, m);
      forall y | 0 <= y < |rows| ensures !RowHasContent(rows[y], m) {
        assert !ContentAt(img, m, FirstInRow(rows[y], m), y);
      }
    }
  }

  /** The characterisation determines the box: there is only one. */
  lemma BoundingBoxUnique(img: Image, m: bool, b1: Rect, b2: Rect)
    requires IsBoundingBox(img, m, b1) && IsBoundingBox(img, m, b2)
    ensures b1 == b2
  {
    if HasContent(img, m) {
      var l1 :| ContentAt(img, m, b1.x1, l1);
      var l2 :| ContentAt(img, m, b2.x1, l2);
      var r1 :| ContentAt(img, m, b1.x2, r1);
      var r2 :| ContentAt(img, m, b2.x2, r2);
      var t1 :| ContentAt(img, m, t1, b1.y1);
      var t2 :| ContentAt(img, m, t2, b2.y1);
      var u1 :| ContentAt(img, m, u1, b1.y2);
      var u2 :| ContentAt(img, m, u2, b2.y2);
    }
  }

  /** With content, the box lies inside the image (0 <= left <= right < width,
      0 <= top <= bottom < height), so the inclusive-corner rect is a valid crop. */
  lemma BoundingBoxInside(img: Image, m: bool)
    requires img.Valid() && HasContent(img, m)
    ensures Inside(BoundingBox(img, m), img)
  {
    BoundingBoxIsExact(img, m);
    var b := BoundingBox(img, m);
    var yl :| ContentAt(img, m, b.x1, yl);
    var yr :| ContentAt(img, m, b.x2, yr);
    var xt :| ContentAt(img, m, xt, b.y1);
    var xb :| ContentAt(img, m, xb, b.y2);
  }

  /** Without content the box is Rect(width, height, 0, 0): its width and height
      are 1 - width and 1 - height, not positive for a non-empty image. */
  lemma EmptyBoundingBox(img: Image, m: bool)
    requires img.Valid() && !HasContent(img, m)
    ensures BoundingBox(img, m) == Rect(img.width, img.height, 0, 0)
    ensures 1 <= img.width ==> BoundingBox(img, m).Width() <= 0
    ensures 1 <= img.height ==> BoundingBox(img, m).Height() <= 0
  {
    BoundingBoxIsExact(img, m);
  }

  // ---------------------------------------------------------------------
  // ImageTrim::getBoundingBox
  // ---------------------------------------------------------------------

  /** Scans the rows top to bottom, tracking the smallest and largest content
      column and the first and last content row. After a new left bound is
      found in a row, the scan of that row jumps to the current right bound:
      the columns it skips lie between the new left and the right bound, so
      the jump never changes the result, which is the exact bounding box. */
  method GetBoundingBox(img: Image, maxAlphaValue: bool) returns (box: Rect)
    requires img.Valid()
    ensures IsBoundingBox(img, maxAlphaValue, box)
    ensures box == BoundingBox(img, maxAlphaValue)
  {
    var m := maxAlphaValue;
    var w, h := img.width as int, img.height as int;
    var left, right, top, bottom := w, 0, h, 0;
    // witnesses: a content pixel on each side of the box found so far
    ghost var leftRow, rightRow, topCol, bottomCol := 0, 0, 0, 0;
    var y := 0;
    while y < h
      invariant 0 <= y <= h
      invariant 0 <= right && left <= w && (0 < w ==> right < w)
      invariant forall x, r :: 0 <= r < y && ContentAt(img, m, x, r) ==> left <= x <= right && top <= r <= bottom
      invariant left < w ==> ContentAt(img, m, left, leftRow) && ContentAt(img, m, right, rightRow)
      invariant left == w ==> right == 0 && forall x, r :: 0 <= r < y ==> !ContentAt(img, m, x, r)
      invariant top < h ==> ContentAt(img, m, topCol, top) && ContentAt(img, m, bottomCol, bottom)
      invariant top == h ==> bottom == 0 && forall x, r :: 0 <= r < y ==> !ContentAt(img, m, x, r)
      invariant top <= h
    {
      var rowFilled;
      ghost var rowCol;
      left, right, leftRow, rightRow, rowFilled, rowCol := ScanRow(img, m, y, left, right, leftRow, rightRow);
      if rowFilled {
        if y < top { topCol := rowCol; }
        top := Min(top, y);
        bottom := y;
        bottomCol := rowCol;
      }
      y := y + 1;
    }
    box := Rect(left, top, right, bottom);
    ScanIsBoundingBox(img, m, box, leftRow, rightRow, topCol, bottomCol);
  }

  /** The inner loop of the scan over row y: it widens the box found so far
      to the row's content pixels, jumping to the right bound once a new left
      bound is found, and reports whether the row holds content. */
  method ScanRow(img: Image, m: bool, y: int, left0: int, right0: int, ghost leftRow0: int, ghost rightRow0: int)
    returns (left: int, right: int, ghost leftRow: int, ghost rightRow: int, rowFilled: bool, ghost rowCol: int)
    requires img.Valid() && 0 <= y < img.height
    requires 0 <= right0 && left0 <= img.width && (0 < img.width ==> right0 < img.width)
    requires left0 < img.width ==> ContentAt(img, m, left0, leftRow0) && ContentAt(img, m, right0, rightRow0)
    requires left0 == img.width ==> right0 == 0
    ensures 0 <= right && left <= img.width && (0 < img.width ==> right < img.width)
    ensures left <= left0 && right0 <= right
    ensures forall c :: ContentAt(img, m, c, y) ==> left <= c <= right
    ensures left < img.width ==> ContentAt(img, m, left, leftRow) && ContentAt(img, m, right, rightRow)
    ensures left == img.width ==> right == 0
    ensures rowFilled ==> ContentAt(img, m, rowCol, y)
    ensures !rowFilled ==> forall c :: !ContentAt(img, m, c, y)
  {
    var w := img.width as int;
    left, right, leftRow, rightRow := left0, right0, leftRow0, rightRow0;
    var row := img.alpha[y];
    rowFilled, rowCol := false, 0;
    var x := 0;
    while x < w
      invariant 0 <= x <= w
      invariant 0 <= right && left <= w && (0 < w ==> right < w)
      invariant left <= left0 && right0 <= right
      invariant forall c :: c < x && ContentAt(img, m, c, y) ==> left <= c <= right
      invariant left < w ==> ContentAt(img, m, left, leftRow) && ContentAt(img, m, right, rightRow)
      invariant left == w ==> right == 0
      invariant rowFilled ==> ContentAt(img, m, rowCol, y)
      invariant !rowFilled ==> forall c :: c < x ==> !ContentAt(img, m, c, y)
    {
      var alpha := row[x];
      if (!m && alpha == 255) || (m && alpha != 0) {
        assert ContentAt(img, m, x, y);
        rowFilled := true;
        rowCol := x;
        if right <= x { rightRow := y; }
        right := Max(right, x);
        if left > x {
          left := x;
          leftRow := y;
          x := right; // the shortcut
        }
      }
      x := x + 1;
    }
  }

  /** What the scan knows once every row is done makes its rectangle the
      exact bounding box. */
  lemma ScanIsBoundingBox(img: Image, m: bool, box: Rect, leftRow: int, rightRow: int, topCol: int, bottomCol: int)
    requires img.Valid()
    requires 0 <= box.x2 && box.x1 <= img.width && box.y1 <= img.height
    requires forall x, r :: ContentAt(img, m, x, r) ==> box.x1 <= x <= box.x2 && box.y1 <= r <= box.y2
    requires box.x1 < img.width ==> ContentAt(img, m, box.x1, leftRow) && ContentAt(img, m, box.x2, rightRow)
    requires box.x1 == img.width ==> box.x2 == 0 && forall x, r :: !ContentAt(img, m, x, r)
    requires box.y1 < img.height ==> ContentAt(img, m, topCol, box.y1) && ContentAt(img, m, bottomCol, box.y2)
    requires box.y1 == img.height ==> box.y2 == 0 && forall x, r :: !ContentAt(img, m, x, r)
    ensures IsBoundingBox(img, m, box)
    ensures box == BoundingBox(img, m)
  {
    if HasContent(img, m) {
      var x0, y0 :| ContentAt(img, m, x0, y0);
      assert box.x1 <= x0 < img.width;
      assert box.y1 <= y0 < img.height;
    }
    BoundingBoxIsExact(img, m);
    BoundingBoxUnique(img, m, box, BoundingBox(img, m));
  }

  // ---------------------------------------------------------------------
  // ImageTrim::createImage
  // ---------------------------------------------------------------------

  /** Whether the box is not the full image bounds: createImage then returns
      a cropped copy. A box inside the image needs no crop exactly when it
      is the whole image. */
  function NeedsCrop(box: Rect, img: Image): (crop: bool)
    ensures Inside(box, img) ==> (!crop <==> box == Rect(0, 0, img.width - 1, img.height - 1))
  {
    box.x1 > 0 || box.y1 > 0 || box.Width() < img.width || box.Height() < img.height
  }

  /** QImage::copy(rect): the sub-grid under a rectangle inside the image; a
      non-null rectangle of negative width and height yields a null image. */
  function Copy(img: Image, r: Rect): (c: Image)
    requires img.Valid()
    requires Inside(r, img) || (r.Width() < 0 && r.Height() < 0)
    ensures c.Valid()
  {
    if !Inside(r, img) then Image(0, 0, [], false)
    else
      Image(r.Width(), r.Height(), CropRows(img.alpha, r.x1, r.x2, r.y1, r.Height()), img.hasAlpha)
  }

  /** The h rows from row y1 on, each cut to the columns x1 .. x2. */
  function CropRows(rows: seq<seq<int>>, x1: int, x2: int, y1: int, h: nat): (c: seq<seq<int>>)
    requires 0 <= y1 && y1 + h <= |rows| && 0 <= x1 <= x2 + 1
    requires forall i :: y1 <= i < y1 + h ==> x2 < |rows[i]|
    ensures |c| == h
    ensures forall i :: 0 <= i < h ==> c[i] == rows[y1 + i][x1 .. x2 + 1]
  {
    if h == 0 then [] else CropRows(rows, x1, x2, y1, h - 1) + [rows[y1 + h - 1][x1 .. x2 + 1]]
  }

  datatype TrimResult = TrimResult(image: Image, cropRect: Rect)

  /** What createImage returns and what it leaves in its out-parameter: the
      image and crop rect are kept for images under 2x2 or without alpha;
      otherwise the crop rect becomes the bounding box and the image is cut
      to it when the box is not the full image. */
  function Trimmed(img: Image, m: bool, cropRect: Rect): (t: TrimResult)
    requires img.Valid()
    ensures t.image.Valid()
  {
    if img.width < 2 || img.height < 2 || !img.hasAlpha then TrimResult(img, cropRect)
    else
      var box := BoundingBox(img, m);
      if NeedsCrop(box, img) then
        CopyBox(img, m);
        TrimResult(Copy(img, box), box)
      else TrimResult(img, box)
  }

  /** The bounding box is always a legal argument to Copy. */
  lemma CopyBox(img: Image, m: bool)
    requires img.Valid() && 2 <= img.width && 2 <= img.height
    ensures Inside(BoundingBox(img, m), img) || (BoundingBox(img, m).Width() < 0 && BoundingBox(img, m).Height() < 0)
  {
    if HasContent(img, m) { BoundingBoxInside(img, m); } else { EmptyBoundingBox(img, m); }
  }

  /** ImageTrim::createImage. `cropRect` is the caller's rect, `newCropRect`
      what the out-parameter holds afterwards. */
  method CreateImage(img: Image, maxAlphaValue: bool, cropRect: Rect) returns (out: Image, newCropRect: Rect)
    requires img.Valid()
    ensures TrimResult(out, newCropRect) == Trimmed(img, maxAlphaValue, cropRect)
    ensures img.width < 2 || img.height < 2 || !img.hasAlpha ==> out == img && newCropRect == cropRect
    ensures 2 <= img.width && 2 <= img.height && img.hasAlpha ==>
              IsBoundingBox(img, maxAlphaValue, newCropRect) &&
              out == (if NeedsCrop(newCropRect, img) then Copy(img, newCropRect) else img)
  {
    if img.width < 2 || img.height < 2 || !img.hasAlpha {
      return img, cropRect;
    }
    newCropRect := GetBoundingBox(img, maxAlphaValue);
    if newCropRect.x1 > 0 || newCropRect.y1 > 0 || newCropRect.Width() < img.width || newCropRect.Height() < img.height {
      CopyBox(img, maxAlphaValue);
      return Copy(img, newCropRect), newCropRect;
    }
    return img, newCropRect;
  }

  // ---------------------------------------------------------------------
  // Properties of trimming
  // ---------------------------------------------------------------------

  /** Witnesses that each side of the box passes through a content pixel. */
  lemma BoundingBoxSides(img: Image, m: bool) returns (yl: int, yr: int, xt: int, xb: int)
    requires img.Valid() && HasContent(img, m)
    ensures var b := BoundingBox(img, m);
      && Inside(b, img)
      && (forall x, y :: ContentAt(img, m, x, y) ==> b.x1 <= x <= b.x2 && b.y1 <= y <= b.y2)
      && ContentAt(img, m, b.x1, yl) && ContentAt(img, m, b.x2, yr)
      && ContentAt(img, m, xt, b.y1) && ContentAt(img, m, xb, b.y2)
  {
    BoundingBoxIsExact(img, m);
    BoundingBoxInside(img, m);
    var b := BoundingBox(img, m);
    yl :| ContentAt(img, m, b.x1, yl);
    yr :| ContentAt(img, m, b.x2, yr);
    xt :| ContentAt(img, m, xt, b.y1);
    xb :| ContentAt(img, m, xb, b.y2);
  }

  lemma CopyAt(img: Image, r: Rect, x: int, y: int)
    requires img.Valid() && Inside(r, img)
    requires 0 <= x < r.Width() && 0 <= y < r.Height()
    ensures Copy(img, r).alpha[y][x] == img.alpha[r.y1 + y][r.x1 + x]
  {
  }

  /** Copying a rectangle that holds every content pixel keeps exactly the
      content pixels, shifted by the rectangle's corner. */
  lemma CopyKeepsContent(img: Image, m: bool, r: Rect)
    requires img.Valid() && Inside(r, img)
    requires forall x, y :: ContentAt(img, m, x, y) ==> r.x1 <= x <= r.x2 && r.y1 <= y <= r.y2
    ensures KeepsContent(img, m, TrimResult(Copy(img, r), r))
  {
    forall x, y
      ensures ContentAt(img, m, x, y) <==> ContentAt(Copy(img, r), m, x - r.x1, y - r.y1)
    {
      CopyContentAt(img, m, r, x, y);
    }
  }

  lemma CopyContentAt(img: Image, m: bool, r: Rect, x: int, y: int)
    requires img.Valid() && Inside(r, img)
    requires forall x, y :: ContentAt(img, m, x, y) ==> r.x1 <= x <= r.x2 && r.y1 <= y <= r.y2
    ensures ContentAt(img, m, x, y) <==> ContentAt(Copy(img, r), m, x - r.x1, y - r.y1)
  {
    if 0 <= x - r.x1 < r.Width() && 0 <= y - r.y1 < r.Height() {
      CopyAt(img, r, x - r.x1, y - r.y1);
    }
  }

  /** The returned image holds exactly the source's content pixels, each
      shifted by the crop rect's corner. */
  ghost predicate KeepsContent(img: Image, m: bool, t: TrimResult) {
    forall x, y :: ContentAt(img, m, x, y) <==> ContentAt(t.image, m, x - t.cropRect.x1, y - t.cropRect.y1)
  }

  lemma KeepsContentEmpty(img: Image, m: bool, b: Rect)
    requires !HasContent(img, m)
    ensures KeepsContent(img, m, TrimResult(Image(0, 0, [], false), b))
  {
    forall x, y
      ensures ContentAt(img, m, x, y) <==> ContentAt(Image(0, 0, [], false), m, x - b.x1, y - b.y1)
    {
      assert !ContentAt(img, m, x, y);
    }
  }

  lemma KeepsContentUncropped(img: Image, m: bool, b: Rect)
    requires b.x1 == 0 && b.y1 == 0
    ensures KeepsContent(img, m, TrimResult(img, b))
  {
  }

  lemma KeepsContentCropped(img: Image, m: bool)
    requires img.Valid() && HasContent(img, m)
    ensures Inside(BoundingBox(img, m), img)
    ensures KeepsContent(img, m, TrimResult(Copy(img, BoundingBox(img, m)), BoundingBox(img, m)))
  {
    var b := BoundingBox(img, m);
    BoundingBoxIsExact(img, m);
    BoundingBoxInside(img, m);
    assert forall x, y :: ContentAt(img, m, x, y) ==> b.x1 <= x <= b.x2 && b.y1 <= y <= b.y2;
    CopyKeepsContent(img, m, b);
  }

  /** Trimming loses no content and adds none: a pixel is content in the
      source exactly when the pixel shifted by the crop origin is content in
      the returned image. */
  lemma TrimKeepsContent(img: Image, m: bool, cropRect: Rect)
    requires img.Valid() && 2 <= img.width && 2 <= img.height && img.hasAlpha
    ensures KeepsContent(img, m, Trimmed(img, m, cropRect))
  {
    var b := BoundingBox(img, m);
    var t := Trimmed(img, m, cropRect);
    if !HasContent(img, m) {
      EmptyBoundingBox(img, m);
      assert t == TrimResult(Image(0, 0, [], false), b);
      KeepsContentEmpty(img, m, b);
    } else if NeedsCrop(b, img) {
      KeepsContentCropped(img, m);
      assert t == TrimResult(Copy(img, b), b);
    } else {
      assert t == TrimResult(img, b);
      BoundingBoxInside(img, m);
      KeepsContentUncropped(img, m, b);
    }
  }

  /** If content touches all four edges, the crop rect is the full image
      bounds and the image comes back unchanged. */
  lemma FullContentNotCropped(img: Image, m: bool, cropRect: Rect, yl: int, yr: int, xt: int, xb: int)
    requires img.Valid() && 2 <= img.width && 2 <= img.height && img.hasAlpha
    requires ContentAt(img, m, 0, yl) && ContentAt(img, m, img.width - 1, yr)
    requires ContentAt(img, m, xt, 0) && ContentAt(img, m, xb, img.height - 1)
    ensures Trimmed(img, m, cropRect) == TrimResult(img, Rect(0, 0, img.width - 1, img.height - 1))
  {
    var _, _, _, _ := BoundingBoxSides(img, m);
  }

  /** An image under 2x2 or without alpha is returned as it is. */
  lemma SmallNotTrimmed(img: Image, m: bool, cropRect: Rect)
    requires img.Valid() && (img.width < 2 || img.height < 2 || !img.hasAlpha)
    ensures Trimmed(img, m, cropRect) == TrimResult(img, cropRect)
  {
  }

  /** Copying a rectangle that holds all content and has content on each side
      gives an image with content on each edge. */
  lemma CopyTouchesEdges(img: Image, m: bool, b: Rect, l: int, r: int, t: int, u: int)
    requires img.Valid() && Inside(b, img)
    requires forall x, y :: ContentAt(img, m, x, y) ==> b.x1 <= x <= b.x2 && b.y1 <= y <= b.y2
    requires ContentAt(img, m, b.x1, l) && ContentAt(img, m, b.x2, r)
    requires ContentAt(img, m, t, b.y1) && ContentAt(img, m, u, b.y2)
    ensures var c := Copy(img, b);
      && c.width == b.Width() && c.height == b.Height() && c.hasAlpha == img.hasAlpha
      && ContentAt(c, m, 0, l - b.y1) && ContentAt(c, m, c.width - 1, r - b.y1)
      && ContentAt(c, m, t - b.x1, 0) && ContentAt(c, m, u - b.x1, c.height - 1)
  {
    CopyContentAt(img, m, b, b.x1, l);
    CopyContentAt(img, m, b, b.x2, r);
    CopyContentAt(img, m, b, t, b.y1);
    CopyContentAt(img, m, b, u, b.y2);
  }

  /** A fully transparent image is cut to a null image, which trimming keeps. */
  lemma TrimIdempotentEmpty(img: Image, m: bool, cropRect: Rect, cropRect': Rect)
    requires img.Valid() && 2 <= img.width && 2 <= img.height && img.hasAlpha && !HasContent(img, m)
    ensures var once := Trimmed(img, m, cropRect).image;
      Trimmed(once, m, cropRect').image == once
  {
    EmptyBoundingBox(img, m);
    var once := Trimmed(img, m, cropRect).image;
    assert once == Image(0, 0, [], false);
    SmallNotTrimmed(once, m, cropRect');
  }

  /** A copy of a rectangle that holds all content and has content on each
      side is left unchanged by trimming. */
  lemma CopyNotTrimmedAgain(img: Image, m: bool, b: Rect, l: int, r: int, t: int, u: int, cropRect': Rect)
    requires img.Valid() && Inside(b, img)
    requires forall x, y :: ContentAt(img, m, x, y) ==> b.x1 <= x <= b.x2 && b.y1 <= y <= b.y2
    requires ContentAt(img, m, b.x1, l) && ContentAt(img, m, b.x2, r)
    requires ContentAt(img, m, t, b.y1) && ContentAt(img, m, u, b.y2)
    ensures Trimmed(Copy(img, b), m, cropRect').image == Copy(img, b)
  {
    CopyTouchesEdges(img, m, b, l, r, t, u);
    var once := Copy(img, b);
    if 2 <= once.width && 2 <= once.height && once.hasAlpha {
      FullContentNotCropped(once, m, cropRect', l - b.y1, r - b.y1, t - b.x1, u - b.x1);
    } else {
      SmallNotTrimmed(once, m, cropRect');
    }
  }

  /** A cropped copy has content on all its edges, so trimming keeps it. */
  lemma TrimIdempotentCropped(img: Image, m: bool, cropRect: Rect, cropRect': Rect)
    requires img.Valid() && 2 <= img.width && 2 <= img.height && img.hasAlpha && HasContent(img, m)
    requires NeedsCrop(BoundingBox(img, m), img)
    ensures var once := Trimmed(img, m, cropRect).image;
      Trimmed(once, m, cropRect').image == once
  {
    var b := BoundingBox(img, m);
    var l, r, t, u := BoundingBoxSides(img, m);
    assert Trimmed(img, m, cropRect).image == Copy(img, b);
    CopyNotTrimmedAgain(img, m, b, l, r, t, u, cropRect');
  }

  /** An image that was not cropped has content on all its edges. */
  lemma TrimIdempotentUncropped(img: Image, m: bool, cropRect: Rect, cropRect': Rect)
    requires img.Valid() && 2 <= img.width && 2 <= img.height && img.hasAlpha && HasContent(img, m)
    requires !NeedsCrop(BoundingBox(img, m), img)
    ensures var once := Trimmed(img, m, cropRect).image;
      Trimmed(once, m, cropRect').image == once
  {
    assert Trimmed(img, m, cropRect).image == img;
    var yl, yr, xt, xb := BoundingBoxSides(img, m);
    FullContentNotCropped(img, m, cropRect', yl, yr, xt, xb);
  }

  /** Trimming is idempotent: trimming the returned image again, in the same
      mode and with any crop rect, returns it unchanged. */
  lemma TrimIdempotent(img: Image, m: bool, cropRect: Rect, cropRect': Rect)
    requires img.Valid()
    ensures var once := Trimmed(img, m, cropRect).image;
      Trimmed(once, m, cropRect').image == once
  {
    if img.width < 2 || img.height < 2 || !img.hasAlpha {
      SmallNotTrimmed(img, m, cropRect);
      SmallNotTrimmed(img, m, cropRect');
    } else if !HasContent(img, m) {
      TrimIdempotentEmpty(img, m, cropRect, cropRect');
    } else if NeedsCrop(BoundingBox(img, m), img) {
      TrimIdempotentCropped(img, m, cropRect, cropRect');
    } else {
      TrimIdempotentUncropped(img, m, cropRect, cropRect');
    }
  }
}
