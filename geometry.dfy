/** Frames, rectangles and crops: the integer geometry around the image calls.
    A frame is known only by its size; what the OCR engine reads from a crop is
    an oracle supplied by the caller. */
module Geometry {

  /** A match location `(x, y)`: column, then row. */
  datatype Point = Point(x: int, y: int)

  /** A rectangle `(x, y, w, h)` as `cv2.boundingRect` and the scripts write it. */
  datatype Box = Box(x: int, y: int, w: int, h: int)

  /** A captured frame, known by its number of rows and columns. */
  datatype Frame = Frame(height: nat, width: nat)

  /** The rows `[top, bottom)` and columns `[left, right)` of a frame that a crop keeps. */
  datatype Crop = Crop(top: nat, bottom: nat, left: nat, right: nat)

  /** What a Tesseract call returns for a crop of the current frame. */
  type Ocr = Crop -> string

  function Min(a: int, b: int): int {
    if a <= b then a else b
  }

  /** A start or stop index of a Python slice, made absolute against a
      sequence of length `len`: a negative index counts from the end, and the
      result is clamped to `[0, len]`. */
  function SliceIndex(i: int, len: nat): (r: nat)
    ensures r <= len
    ensures 0 <= i <= len ==> r == i
    ensures i > len ==> r == len
    ensures i < 0 && 0 <= len + i ==> r == len + i
    ensures len + i < 0 ==> r == 0
  {
    if i < 0 then (if i + len < 0 then 0 else i + len)
    else if i > len then len
    else i
  }

  /** The half-open range `seq[start:stop]` selects: empty when the adjusted
      stop does not lie after the adjusted start. */
  function SliceRange(start: int, stop: int, len: nat): (r: (nat, nat))
    ensures r.0 <= r.1 <= len
  {
    var lo := SliceIndex(start, len);
    var hi := SliceIndex(stop, len);
    if hi < lo then (lo, lo) else (lo, hi)
  }

  /** `frame[y:y+h, x:x+w+extra]`: the crop handed to OCR for box `b`;
      `extra` is the additional width one of the scripts adds. */
  function CropOf(frame: Frame, b: Box, extra: int): (c: Crop)
    ensures c.top <= c.bottom <= frame.height && c.left <= c.right <= frame.width
  {
    var rows := SliceRange(b.y, b.y + b.h, frame.height);
    var cols := SliceRange(b.x, b.x + b.w + extra, frame.width);
    Crop(rows.0, rows.1, cols.0, cols.1)
  }

  /** For a box with a non-negative origin inside the frame and non-negative
      sizes, the crop starts at the box and is cut off at the frame's far edges. */
  lemma CropClamped(frame: Frame, b: Box, extra: nat)
    requires 0 <= b.y <= frame.height && 0 <= b.x <= frame.width
    requires b.w >= 0 && b.h >= 0
    ensures CropOf(frame, b, extra) ==
      Crop(b.y, Min(b.y + b.h, frame.height), b.x, Min(b.x + b.w + extra, frame.width))
  {
  }

  /** The crop of each box, in box order. */
  function Crops(frame: Frame, boxes: seq<Box>, extra: int): (r: seq<Crop>)
    ensures |r| == |boxes|
  {
    seq(|boxes|, i requires 0 <= i < |boxes| => CropOf(frame, boxes[i], extra))
  }

  lemma CropsSnoc(frame: Frame, boxes: seq<Box>, b: Box, extra: int)
    ensures Crops(frame, boxes + [b], extra) == Crops(frame, boxes, extra) + [CropOf(frame, b, extra)]
  {
  }

  /** What OCR reads from each crop, one reading per crop, in order. */
  function ReadAll(ocr: Ocr, crops: seq<Crop>): (r: seq<string>)
    ensures |r| == |crops|
  {
    seq(|crops|, i requires 0 <= i < |crops| => ocr(crops[i]))
  }

  lemma ReadAllSnoc(ocr: Ocr, crops: seq<Crop>, c: Crop)
    ensures ReadAll(ocr, crops + [c]) == ReadAll(ocr, crops) + [ocr(c)]
  {
  }

  /** Reading the crops of a prefix of the boxes one box further appends that
      box's reading. */
  lemma ReadingsSnoc(frame: Frame, ocr: Ocr, boxes: seq<Box>, i: nat, extra: int)
    requires i < |boxes|
    ensures ReadAll(ocr, Crops(frame, boxes[..i + 1], extra))
         == ReadAll(ocr, Crops(frame, boxes[..i], extra)) + [ocr(CropOf(frame, boxes[i], extra))]
  {
    assert boxes[..i + 1] == boxes[..i] + [boxes[i]];
    CropsSnoc(frame, boxes[..i], boxes[i], extra);
    ReadAllSnoc(ocr, Crops(frame, boxes[..i], extra), CropOf(frame, boxes[i], extra));
  }
}
