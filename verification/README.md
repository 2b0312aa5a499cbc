# spriteglue in Dafny

spriteglue packs a directory of images into one texture atlas. This project
models the atlas tool's core in four modules:

- **ImageTrim** (`ImageTrim.dfy`) covers `ImageTrim::getBoundingBox` and
  `ImageTrim::createImage`.
  - `getBoundingBox` scans the alpha channel row by row to find the smallest
    rectangle that holds every "content" pixel. A pixel is content when it is
    fully opaque or, with `maxAlphaValue`, when it is not fully transparent.
    The scan jumps ahead once a new left bound is found.
  - `createImage` crops the image to that rectangle and reports it through
    the out-parameter `cropRect`.
  - An image is a grid of alpha values. `GetBoundingBox` is the loop with the
    jump. It is proved equal to `BoundingBox`, an independent row-by-row
    search with no jump, and to `IsBoundingBox`, the quantified statement of
    "the exact bounding box".
- **ImageSorter** (`ImageSorter.dfy`) covers the size comparators, the
  multi-criteria comparator `_msort`, the per-mode criteria table and
  `ImageSorter::sort`.
  - `sort` reorders the stored files in place and returns their paths.
  - Each mode orders by a descending lexicographic key tuple. The model
    proves this, and proves that the comparator is a strict weak order.
- **Generator** (`Generator.dfy`) covers the per-image loop of
  `Generator::generateTo` and `Generator::_roundToPowerOf2`.
  - The loop trims each image, asks the rectangle packer for room, turns the
    image when the packer swapped its orientation, and fails at the first
    image the packer cannot place.
  - The packer is a function parameter. It receives the requests already
    placed and the new request.
- **PListSerializer** (`PListSerializer.dfy`) turns a variant tree into the
  element tree of an Apple XML property list.
  - A reader for that element tree is defined beside the writer. Reading
    back what the writer wrote gives the value again: the reader is proved
    to be a left inverse of the writer on booleans, strings, integers, lists
    and maps.

Rectangles follow `QRect`'s inclusive corners: width is `x2 - x1 + 1`.

The `x = right` shortcut in the bounding-box scan looks as if it could skip
content and under-trim. It cannot. When a pixel sets a new left bound, the
jump skips only the columns between that pixel and the right bound found so
far. Those columns already lie inside the box, so `GetBoundingBox` returns
the exact bounding box.

## Model

| member | source | states |
|---|---|---|
| ImageTrim.RectAt | Generator.cpp:28 | A rectangle built from a corner and a size has that corner, width and height. |
| ImageTrim.GetBoundingBox | imageTools/ImageTrim.cpp:20-49 | Despite the `x = right` shortcut, the scan returns the exact bounding box of the content pixels: every content pixel lies inside it, and each side touches one. With no content pixel it returns left = width, top = height, right = bottom = 0. |
| ImageTrim.IsContent | imageTools/ImageTrim.cpp:31-32 | A fully opaque pixel is always content and a fully transparent one never is. Any alpha in between is content exactly when `maxAlphaValue` is set. |
| ImageTrim.ScanRow | imageTools/ImageTrim.cpp:30-39 | The scan of one row only widens the box found so far. Afterwards every content pixel of the row lies between the left and right bounds, when the left bound is below the width both bounds are columns of content pixels (otherwise the right bound is still 0), and the row is reported as filled exactly when it holds content. |
| ImageTrim.ScanIsBoundingBox | imageTools/ImageTrim.cpp:20-49 | Once every row is scanned, a box that holds all content and whose sides each touch a content pixel (or that is still the start box when there is none) is the exact bounding box. |
| ImageTrim.BoundingBoxIsExact | imageTools/ImageTrim.cpp:20-49 | The reference row-by-row box satisfies the bounding-box characterisation. |
| ImageTrim.BoundingBoxUnique | imageTools/ImageTrim.cpp:20-49 | At most one rectangle satisfies the bounding-box characterisation. |
| ImageTrim.BoundingBoxInside | imageTools/ImageTrim.cpp:21-24 | With at least one content pixel, 0 <= left <= right < width and 0 <= top <= bottom < height. |
| ImageTrim.EmptyBoundingBox | imageTools/ImageTrim.cpp:21-24 | With no content pixel, the result is built from left = width, top = height, right = bottom = 0, so for an image at least one pixel wide and one pixel tall its width and height are not positive. |
| ImageTrim.FirstInRow | imageTools/ImageTrim.cpp:30-39 | The first content column of a row, or the row length if there is none. |
| ImageTrim.LastInRow | imageTools/ImageTrim.cpp:30-39 | The last content column of a row, or -1 if there is none. |
| ImageTrim.FirstRow | imageTools/ImageTrim.cpp:42-45 | The first row holding content, or the height if there is none. |
| ImageTrim.LastRow | imageTools/ImageTrim.cpp:42-45 | The last row holding content, or -1 if there is none. |
| ImageTrim.LeftBoundIsLower | imageTools/ImageTrim.cpp:35-36 | The left bound is at or left of every content pixel. |
| ImageTrim.LeftBoundAttained | imageTools/ImageTrim.cpp:35-36 | A left bound below the width is the column of some content pixel. |
| ImageTrim.LeftBoundEmpty | imageTools/ImageTrim.cpp:21 | Without content, the left bound stays at the width. |
| ImageTrim.RightBoundIsUpper | imageTools/ImageTrim.cpp:34 | The right bound is at or right of every content pixel. |
| ImageTrim.RightBoundAttained | imageTools/ImageTrim.cpp:34 | When content exists, the right bound is the column of some content pixel. |
| ImageTrim.RightBoundPositive | imageTools/ImageTrim.cpp:34 | A positive right bound is the column of some content pixel. |
| ImageTrim.RightBoundEmpty | imageTools/ImageTrim.cpp:22 | Without content, the right bound stays at 0. |
| ImageTrim.CreateImage | imageTools/ImageTrim.cpp:4-18 | An image under 2x2 or without alpha is returned unchanged and `cropRect` is not written. Otherwise `cropRect` becomes the exact bounding box, and a copy of that box is returned exactly when the box starts right of or below the origin or is smaller than the image. |
| ImageTrim.NeedsCrop | imageTools/ImageTrim.cpp:10-13 | For a box inside the image, the copy is skipped exactly when the box is the whole image. |
| ImageTrim.Trimmed | imageTools/ImageTrim.cpp:4-18 | The image that `createImage` returns is well formed. |
| ImageTrim.Copy | imageTools/ImageTrim.cpp:15 | A copy of a rectangle inside the image, or of a rectangle with negative size (the null image), is a well-formed image. |
| ImageTrim.CropRows | imageTools/ImageTrim.cpp:15 | Cropping keeps the requested number of rows, and row i of the result is row y1 + i of the source cut to columns x1 to x2. |
| ImageTrim.CopyBox | imageTools/ImageTrim.cpp:9-15 | The box handed to the copy is either inside the image or has negative width and height. |
| ImageTrim.CopyAt | imageTools/ImageTrim.cpp:15 | A copied pixel is the source pixel shifted by the crop origin. |
| ImageTrim.CopyKeepsContent | imageTools/ImageTrim.cpp:15 | Copying a rectangle that holds all content keeps exactly the content pixels, shifted by the rectangle's origin. |
| ImageTrim.CopyContentAt | imageTools/ImageTrim.cpp:15 | The same fact for one pixel. |
| ImageTrim.TrimKeepsContent | imageTools/ImageTrim.cpp:4-18 | Trimming loses no content pixel and adds none: a pixel is content in the source exactly when its shifted position is content in the result. |
| ImageTrim.KeepsContentEmpty | imageTools/ImageTrim.cpp:9-15 | A fully transparent image copied to the null image has no content before and none after. |
| ImageTrim.KeepsContentUncropped | imageTools/ImageTrim.cpp:9-17 | An image returned unchanged, with a crop rect at the origin, keeps its content pixels in place. |
| ImageTrim.KeepsContentCropped | imageTools/ImageTrim.cpp:9-15 | The cropped copy of an image with content holds exactly its content pixels, shifted by the box's corner. |
| ImageTrim.BoundingBoxSides | imageTools/ImageTrim.cpp:20-49 | Each of the box's four sides holds a content pixel, and the box is inside the image. |
| ImageTrim.FullContentNotCropped | imageTools/ImageTrim.cpp:9-17 | If content touches all four edges, `cropRect` is the full image and the image is returned unchanged. |
| ImageTrim.SmallNotTrimmed | imageTools/ImageTrim.cpp:5-7 | An image under 2x2 or without alpha passes through unchanged, and so does its crop rect. |
| ImageTrim.CopyTouchesEdges | imageTools/ImageTrim.cpp:9-15 | A copy of a box whose four sides each hold a content pixel has the box's size, and its content touches all four of its edges. |
| ImageTrim.CopyNotTrimmedAgain | imageTools/ImageTrim.cpp:4-18 | Trimming such a copy again returns it unchanged. |
| ImageTrim.TrimIdempotentEmpty | imageTools/ImageTrim.cpp:4-18 | Trimming again the null image left by a fully transparent image changes nothing. |
| ImageTrim.TrimIdempotentCropped | imageTools/ImageTrim.cpp:4-18 | Trimming a cropped copy again returns it unchanged. |
| ImageTrim.TrimIdempotentUncropped | imageTools/ImageTrim.cpp:4-18 | Trimming an image that needed no crop again returns it unchanged. |
| ImageTrim.TrimIdempotent | imageTools/ImageTrim.cpp:4-18 | Trimming is idempotent on the returned image. |
| ImageSorter.SortWidth | ImageSorter.cpp:49-51 | Negative exactly when a is wider than b, and zero exactly on equal widths: the order is descending. |
| ImageSorter.SortHeight | ImageSorter.cpp:53-55 | Negative exactly when a is taller, and zero exactly on equal heights. |
| ImageSorter.SortArea | ImageSorter.cpp:57-59 | Negative exactly when a's area is larger, and zero exactly on equal areas. |
| ImageSorter.SortMax | ImageSorter.cpp:61-63 | Negative exactly when a's longer side is longer, and zero exactly on a tie. |
| ImageSorter.SortMin | ImageSorter.cpp:65-67 | Negative exactly when a's shorter side is longer, and zero exactly on a tie. |
| ImageSorter.MSort | ImageSorter.cpp:40-47 | The early-exit loop returns the answer of the first criterion whose difference is nonzero, and false when all tie. |
| ImageSorter.Before | ImageSorter.cpp:40-47 | `_msort` with a criteria chain is the lexicographic comparison of the chain's key tuples, larger first. |
| ImageSorter.Criteria | ImageSorter.cpp:33-38 | The chain each mode binds compares exactly that mode's key tuple. |
| ImageSorter.Less | ImageSorter.cpp:33-38 | The comparator of each mode orders by a descending lexicographic key tuple: HEIGHT by (height, width), WIDTH by (width, height), AREA by (area, height, width) and MAXSIDE by (longer side, shorter side, height, width). |
| ImageSorter.LexGreaterCons | ImageSorter.cpp:40-47 | A key tuple is lexicographically larger exactly when its head is larger, or the heads tie and its tail is larger. |
| ImageSorter.SameSizeTie | ImageSorter.cpp:40-67 | Two images of the same size never precede each other under any criteria chain. |
| ImageSorter.Irreflexive | ImageSorter.cpp:40-47 | `_msort(a, a)` is false. |
| ImageSorter.Asymmetric | ImageSorter.cpp:40-47 | `_msort(a, b)` and `_msort(b, a)` are never both true. |
| ImageSorter.Transitive | ImageSorter.cpp:40-47 | The comparator is transitive. |
| ImageSorter.NotBeforeTransitive | ImageSorter.cpp:40-47 | "Does not go after" is transitive: if b does not precede a and c does not precede b, then c does not precede a. This negative transitivity, with irreflexivity and transitivity, makes the comparator the strict weak order `std::sort` requires. |
| ImageSorter.Paths | ImageSorter.cpp:26-29 | The paths of the records, one per record, in order. |
| ImageSorter.PathsPermutation | ImageSorter.cpp:26-29 | Permuting the records permutes their paths. |
| ImageSorter.PathsOfConcat | ImageSorter.cpp:26-29 | Mapping records to paths distributes over concatenation. |
| ImageSorter.FindSlot | ImageSorter.cpp:25 | The insertion point found scanning from the back: the new record goes before every record after it and not before the record just before it. |
| ImageSorter.Insert | ImageSorter.cpp:25 | Inserting into a sorted sequence keeps it sorted and adds exactly the new record. |
| ImageSorter.InsertedAdds | ImageSorter.cpp:25 | Putting a record between two parts of a sequence adds exactly that record to its contents. |
| ImageSorter.InsertedSorted | ImageSorter.cpp:25 | A record inserted into a sorted sequence at a slot where it does not precede the record just before the slot, and does precede every record after it, leaves the sequence sorted; transitivity and asymmetry reduce this to InsertedBetween. |
| ImageSorter.InsertedBetween | ImageSorter.cpp:25 | Placing a record after those it does not precede and before those that do not precede it keeps a sorted sequence sorted. |
| ImageSorter.ImageSorter.constructor | ImageSorter.cpp:9-22 | The sorter holds the given records. Scanning the directory is the caller's job. |
| ImageSorter.ImageSorter.Sort | ImageSorter.cpp:24-30 | The stored records are permuted in place so that no later record precedes an earlier one under the mode's comparator. The result is their paths in the new order, a permutation of the original paths. The mode defaults to MAXSIDE. |
| Generator.GenerateTo | Generator.cpp:27-44 | The trim mode defaults to MAX_ALPHA, as a new Generator starts. Each image is trimmed with `maxAlphaValue` set only for MAX_ALPHA, unless the mode is NONE. The packer is asked for the crop rect's size. An image is drawn at the packer's position, rotated exactly when the packer's orientation differs from the crop rect's. Every image drawn got a height > 0 from the packer. The run succeeds exactly when every image gets a height > 0. Otherwise it stops at the first image that does not, and nothing after it is drawn. |
| Generator.Outcome | Generator.cpp:36-44 | When the loop stops, whether after the last image or at an image the packer gave height 0, what was drawn are the placements of the images before that point, and the success flag says whether every image got room. |
| Generator.PackNext | Generator.cpp:27-38 | For image k, the request is the size of its trimmed crop rect, the packer's answer is its answer for that request after the requests of the images before k, and the placement is the one the loop draws for image k. |
| Generator.ShouldRotate | Generator.cpp:33-37 | A placement with the requested sides is drawn unrotated, and one that swaps the sides of a non-square request is drawn rotated. |
| Generator.TrimForPacking | Generator.cpp:27-31 | The crop rect starts as the full image, and the trimmer runs with `maxAlphaValue` set for MAX_ALPHA only, unless the mode is NONE. |
| Generator.TrimNext | Generator.cpp:27-31 | Trimming image k gives entry k of the prepared sequence. |
| Generator.Prepare | Generator.cpp:27-31 | The trimming step yields a well-formed image. With trim mode NONE, or an image the trimmer passes through, it keeps the image and the full-size crop rect. Otherwise the crop rect is the bounding box of the content for the mode's `maxAlphaValue`. |
| Generator.PrepareAll | Generator.cpp:27-31 | One prepared image per input image. |
| Generator.PrepareUpTo | Generator.cpp:27-31 | The first n images give n prepared entries. |
| Generator.PrepareAllAt | Generator.cpp:27-31 | Entry i of the prepared sequence is what the trimming step makes of image i. |
| Generator.NoTrimRequestsFullSize | Generator.cpp:27-29 | With trim mode NONE the packer is asked for the full pre-trim size, and the image is drawn as it is. |
| Generator.RequestMatchesDrawnImage | Generator.cpp:27-34 | When the image has content, or is not trimmed, the size asked of the packer is the size of the image drawn. |
| Generator.EmptyImageRequest | Generator.cpp:27-34 | A fully transparent image trimmed with alpha becomes a null image, and the packer is asked for a width of 1 - width and a height of 1 - height. |
| Generator.Pow2Monotone | Generator.cpp:56-62 | Powers of two grow with the exponent. |
| Generator.RoundToPowerOf2 | Generator.cpp:56-62 | The result is a power of two, at least 2 and at least the input. It is minimal: either 2, or half of it is below the input, and no power of two >= max(2, input) is smaller. |
| PListSerializer.NatToString | plist/plistserializer.cpp:55 | The decimal text of a natural number is a non-empty string of digits. |
| PListSerializer.IntToString | plist/plistserializer.cpp:55 | The decimal text of an integer is never empty. |
| PListSerializer.IntRoundTrip | plist/plistserializer.cpp:55 | Reading back an integer's decimal text (with '-' for negatives) gives the integer. |
| PListSerializer.TextElement | plist/plistserializer.cpp:31-35 | `textElement` yields an element of the given tag with exactly one text child, and that text reads back as the contents. |
| PListSerializer.NatRoundTrip | plist/plistserializer.cpp:55 | Reading back a natural number's digits gives the number. |
| PListSerializer.TextElementRoundTrip | plist/plistserializer.cpp:31-35 | No other attribute-free element of the tag has text that reads back as the same contents. |
| PListSerializer.SerializePrimitive | plist/plistserializer.cpp:37-63 | The result is the null element exactly when the value is a list, a map, or of no primitive kind. |
| PListSerializer.SerializeElement | plist/plistserializer.cpp:65-75 | The result is the null element exactly when the value is of no kind the writer knows. |
| PListSerializer.SerializeList | plist/plistserializer.cpp:77-83 | A list becomes an `array` element without attributes. |
| PListSerializer.ListChildren | plist/plistserializer.cpp:79-81 | An array never holds a null child, and has at most one child per item. |
| PListSerializer.ListOneChildPerItem | plist/plistserializer.cpp:77-83 | A list of known items gives one child per item, in list order, each the item's serialisation. |
| PListSerializer.ListDropsUnknown | plist/plistserializer.cpp:79-81 | An item of unknown kind adds no child: the array's children are those of the items before it followed by those of the items after it, so the array is shorter than the list. |
| PListSerializer.ListChildrenConcat | plist/plistserializer.cpp:79-81 | Items are appended in list order: the children of two lists joined are the children of the first followed by those of the second. |
| PListSerializer.NoChildOfUnknown | plist/plistserializer.cpp:79-81 | A lone item of unknown kind gives no child. |
| PListSerializer.SerializeMap | plist/plistserializer.cpp:85-94 | A map becomes a `dict` element without attributes. |
| PListSerializer.MapChildren | plist/plistserializer.cpp:88-92 | A dict has between one and two children per key. |
| PListSerializer.MapAlternatesKeysAndValues | plist/plistserializer.cpp:85-94 | A map of known values gives 2·|keys| children, alternating a `key` element holding the key and that key's serialised value. |
| PListSerializer.PrependPair | plist/plistserializer.cpp:88-92 | The first entry's `key` element and value, put in front of the alternating children of the other entries, give the alternating children of all of them. |
| PListSerializer.MapKeepsKeyOfUnknown | plist/plistserializer.cpp:88-92 | A key whose value is of unknown kind keeps its `key` element with no value after it: the dict's children are those of the entries before it, that `key` element, then those of the entries after it. So the dict has fewer than 2·|keys| children. |
| PListSerializer.MapChildrenConcat | plist/plistserializer.cpp:88-92 | Keys are visited in order: the children of two entry sequences joined are the children of the first followed by those of the second. |
| PListSerializer.KeyOnlyOfUnknown | plist/plistserializer.cpp:88-92 | A lone entry whose value is of unknown kind gives only its `key` element. |
| PListSerializer.PrimitiveTags | plist/plistserializer.cpp:37-63 | A Bool gives a childless `true` or `false` element. Dates and date-times give `date`, a byte array gives `data` with its Base64 text, a String gives `string` with its text, an Int gives `integer` with its decimal text, and any other double-convertible value gives `real`. |
| PListSerializer.ToPList | plist/plistserializer.cpp:99-102 | The root is a `plist` element with version 1.0 that holds exactly one child, the serialised value. It holds none when the value is of unknown kind. |
| PListSerializer.ElementRoundTrip | plist/plistserializer.cpp:37-94 | Reading back a serialised boolean, string, integer, list or map gives the value again. |
| PListSerializer.ItemsRoundTrip | plist/plistserializer.cpp:77-83 | Reading back an array's children gives the list's items. |
| PListSerializer.ItemReadsBack | plist/plistserializer.cpp:79-81 | An array child written for one more item reads back as that item in front of the items already read. |
| PListSerializer.EntriesRoundTrip | plist/plistserializer.cpp:85-94 | Reading back a dict's children gives the map's keys and values in order. |
| PListSerializer.EntryReadsBack | plist/plistserializer.cpp:88-92 | A `key` element followed by one value's element reads back as that key and value in front of the entries already read. |
| PListSerializer.PListRoundTrip | plist/plistserializer.cpp:96-104 | The plist root's child reads back as the value. |

## Left out

- Directory scanning is left out: the `ImageSorter` constructor's and `generateTo`'s `QDirIterator` walk, and image decoding. The file list, sizes and decoded images are inputs.
- Scaling by `_scale` (`Generator.cpp:23-25`) is floating-point image resampling. The loop receives images that are already scaled.
- Painting, `rotate90`, `ImageCombine` and writing the PNG are pixel work and I/O. `GenerateTo` records where each image is drawn and whether it is rotated, not the pixels of the atlas.
- `MaxRectsBinPack::Insert` is not part of this model. The packer is an arbitrary function of the previous requests and the new one.
- Generator.GenerateTo: the failure branch's message and the success message on stdout are left out.
- Generator.RoundToPowerOf2: the source's `float` is modelled as an exact real, so float rounding and overflow to infinity for huge inputs are not modelled.
- ImageSorter.SortArea: the `int` product `width * height` can overflow in the source. The model uses unbounded integers, so it holds for sizes whose area fits in 32 bits.
- ImageSorter.SortWidth, SortHeight, SortMax and SortMin use unbounded integers. The source's `int` subtraction cannot overflow for image sizes.
- ImageSorter.ImageSorter.Sort: `std::sort` is modelled by an insertion sort. Only the guarantees `std::sort` gives are stated: sorted under the comparator, and a permutation. The order among tied records is not fixed by either.
- ImageTrim.GetBoundingBox reads each pixel's true alpha value. The source casts every scan line to 32-bit `QRgb` pixels (`imageTools/ImageTrim.cpp:27,31`), which is right only for 32-bit formats such as ARGB32. For an image with alpha in another layout, such as 8-bit indexed, the source reads the wrong bytes. The model does not capture that.
- ImageTrim.Copy: `QImage::copy` is modelled on the alpha channel only. A rectangle with negative size yields the null 0x0 image. Colour channels are not modelled.
- `QDomNode::appendChild` with a null node is modelled as adding nothing.
- `toPList`'s DOCTYPE, the `xml` processing instruction and `QDomDocument::toString` text rendering are left out. The model stops at the element tree.
- Formatting of dates and date-times as ISO 8601, Base64 encoding and `QString::setNum(double)` are function parameters, not implementations. Values of these kinds are therefore outside the round-trip lemmas. Dates and date-times both write a `date` element, so a reader could not tell them apart anyway.
- A `QVariantMap` is modelled as its key sequence in `keys()` order, each key with its value. `keys()` sorting and key uniqueness are the map's business.
- `canConvert(QVariant::Double)` is modelled by the variant's kind: `Number` stands for every other double-convertible variant, and `Opaque` for one that is not.
