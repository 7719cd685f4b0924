/** The white-bubble scraper (bubbles.py). Each cycle captures the window, keeps
    the bright contours shaped like a speech bubble, reads each one separately
    by OCR through a crop widened by 4500 columns, and appends to history.txt
    one numbered record per bubble carrying the Python list of its texts. It
    keeps no memory between cycles, so every bubble is written again on every
    cycle. */
module WhiteBubbles {

  import opened Util
  import opened PyStr
  import opened PyRepr
  import opened Geometry
  import opened LogRecords

  /** Columns added to the width of every crop before OCR. */
  const CropSlack: int := 4500

  // ---------------------------------------------------------------------------
  // detect_white_bubbles

  /** `w > 50 and h > 20 and w / float(h) > 2`, stated on integers. */
  predicate WhiteBubbleShape(b: Box) {
    b.w > 50 && b.h > 20 && b.w > 2 * b.h
  }

  lemma MulPositive(a: real, c: real)
    requires a > 0.0 && c > 0.0
    ensures a * c > 0.0
  {
  }

  lemma MulNonPositive(a: real, c: real)
    requires a <= 0.0 && c > 0.0
    ensures a * c <= 0.0
  {
  }

  /** For a positive height, the aspect ratio test on reals is the integer test. */
  lemma AspectRatio(w: int, h: int)
    requires h > 0
    ensures (w as real / h as real > 2.0) <==> w > 2 * h
  {
    var hr := h as real;
    var q := w as real / hr;
    assert q * hr == w as real;
    if q > 2.0 {
      MulPositive(q - 2.0, hr);
    } else {
      MulNonPositive(q - 2.0, hr);
    }
  }

  /** Every kept rectangle is at least 21 high and at least 51 and more than
      twice its height wide. */
  lemma KeptBounds(b: Box)
    requires WhiteBubbleShape(b)
    ensures b.h >= 21 && b.w >= 51 && b.w >= 2 * b.h + 1
  {
  }

  /** The result of `detect_white_bubbles`: the kept rectangles, or the
      `ZeroDivisionError` raised by the first rectangle of height 0. */
  datatype Detection = Found(bubbles: seq<Box>) | ZeroHeight(index: nat)

  /** `detect_white_bubbles`: the rectangles of bubble shape, in contour order.
      The aspect ratio is computed before the size test, so a rectangle of
      height 0 anywhere in the list raises, and the first such one is reported. */
  method DetectWhiteBubbles(rects: seq<Box>) returns (d: Detection)
    ensures d.Found? <==> forall k :: 0 <= k < |rects| ==> rects[k].h != 0
    ensures d.Found? ==> d.bubbles == Filter(rects, WhiteBubbleShape)
    ensures d.ZeroHeight? ==>
      d.index < |rects| && rects[d.index].h == 0 && forall k :: 0 <= k < d.index ==> rects[k].h != 0
  {
    var kept: seq<Box> := [];
    for i := 0 to |rects|
      invariant kept == Filter(rects[..i], WhiteBubbleShape)
      invariant forall k :: 0 <= k < i ==> rects[k].h != 0
    {
      var b := rects[i];
      if b.h == 0 {
        return ZeroHeight(i);
      }
      var aspect := b.w as real / b.h as real;
      FilterSnoc(rects, i, WhiteBubbleShape);
      if b.h > 0 {
        AspectRatio(b.w, b.h);
      }
      if b.w > 50 && b.h > 20 && aspect > 2.0 {
        kept := kept + [b];
      }
    }
    assert rects[..|rects|] == rects;
    return Found(kept);
  }

  /** The kept rectangles are exactly those of bubble shape, in contour order. */
  lemma WhiteFilterSpec(rects: seq<Box>, more: seq<Box>)
    ensures forall b :: b in Filter(rects, WhiteBubbleShape) <==>
      b in rects && b.w > 50 && b.h > 20 && b.w > 2 * b.h
    ensures Filter(rects + more, WhiteBubbleShape) == Filter(rects, WhiteBubbleShape) + Filter(more, WhiteBubbleShape)
  {
    FilterConcat(rects, more, WhiteBubbleShape);
  }

  // ---------------------------------------------------------------------------
  // extract_text_from_bubbles

  /** What `extract_text_from_bubbles` returns for `boxes`. */
  function BubbleTexts(frame: Frame, ocr: Ocr, boxes: seq<Box>): seq<string> {
    StripKeep(ReadAll(ocr, Crops(frame, boxes, CropSlack)))
  }

  /** `extract_text_from_bubbles(screen, bubble_contours)`: each box is read
      through `screen[y:y+h, x:x+w+4500]`; the stripped texts that are not empty
      are kept, in box order. */
  method ExtractTextFromBubbles(frame: Frame, ocr: Ocr, boxes: seq<Box>) returns (texts: seq<string>)
    ensures texts == BubbleTexts(frame, ocr, boxes)
    ensures |texts| <= |boxes|
    ensures forall t :: t in texts ==> t != [] && Strip(t) == t
  {
    texts := [];
    for i := 0 to |boxes|
      invariant texts == StripKeep(ReadAll(ocr, Crops(frame, boxes[..i], CropSlack)))
    {
      var b := boxes[i];
      var text := ocr(CropOf(frame, b, CropSlack));
      ReadingsSnoc(frame, ocr, boxes, i, CropSlack);
      StripKeepConcat(ReadAll(ocr, Crops(frame, boxes[..i], CropSlack)), [text]);
      assert StripKeep([text]) == KeepStripped(text) by {
        assert [text][..0] == [];
      }
      if Strip(text) != [] {
        texts := texts + [Strip(text)];
      }
    }
    assert boxes[..|boxes|] == boxes;
    StripKeepSpec(ReadAll(ocr, Crops(frame, boxes, CropSlack)));
  }

  /** The crop covers rows `[y, min(y + h, H))` and columns
      `[x, min(x + w + 4500, W))` for a box that starts inside the frame. */
  lemma WideCrop(frame: Frame, b: Box)
    requires 0 <= b.y <= frame.height && 0 <= b.x <= frame.width
    requires b.w >= 0 && b.h >= 0
    ensures CropOf(frame, b, CropSlack) ==
      Crop(b.y, Min(b.y + b.h, frame.height), b.x, Min(b.x + b.w + 4500, frame.width))
  {
    CropClamped(frame, b, CropSlack);
  }

  /** Called with a single region, as each cycle does, the result is the
      region's stripped text when that is not empty, and nothing otherwise. */
  lemma SingleRegion(frame: Frame, ocr: Ocr, b: Box)
    ensures var texts := BubbleTexts(frame, ocr, [b]);
      var reading := ocr(CropOf(frame, b, CropSlack));
      && |texts| <= 1
      && (texts == [] <==> AllSpace(reading))
      && (texts != [] ==> texts == [Strip(reading)])
  {
    var reading := ocr(CropOf(frame, b, CropSlack));
    assert ReadAll(ocr, Crops(frame, [b], CropSlack)) == [reading];
    FlatMapSnoc([reading], 0, KeepStripped);
    assert [reading][..1] == [reading] && [reading][..0] == [];
  }

  // ---------------------------------------------------------------------------
  // capture_and_process_chat, line 62, and update_detected_bubbles

  /** One element of `detected_bubbles`: `(x, y, w, h, texts)`. */
  datatype BubbleEntry = BubbleEntry(box: Box, texts: seq<string>)

  /** The list comprehension of line 62: one entry per rectangle, each read on
      its own. */
  function CycleEntries(frame: Frame, ocr: Ocr, boxes: seq<Box>): (r: seq<BubbleEntry>)
    ensures |r| == |boxes|
  {
    seq(|boxes|, i requires 0 <= i < |boxes| => BubbleEntry(boxes[i], BubbleTexts(frame, ocr, [boxes[i]])))
  }

  /** One entry per rectangle, in rectangle order, carrying that rectangle and
      its own list of at most one text. */
  lemma CycleEntriesSpec(frame: Frame, ocr: Ocr, boxes: seq<Box>)
    ensures forall i :: 0 <= i < |boxes| ==>
      && CycleEntries(frame, ocr, boxes)[i].box == boxes[i]
      && |CycleEntries(frame, ocr, boxes)[i].texts| <= 1
      && (CycleEntries(frame, ocr, boxes)[i].texts == [] <==> AllSpace(ocr(CropOf(frame, boxes[i], CropSlack))))
  {
    forall i | 0 <= i < |boxes|
      ensures |CycleEntries(frame, ocr, boxes)[i].texts| <= 1
      ensures CycleEntries(frame, ocr, boxes)[i].texts == [] <==> AllSpace(ocr(CropOf(frame, boxes[i], CropSlack)))
    {
      SingleRegion(frame, ocr, boxes[i]);
    }
  }

  /** The record bodies: `f"{text}"` of each entry's text list, which is the
      list's `repr`. */
  function Bodies(entries: seq<BubbleEntry>): (r: seq<string>)
    ensures |r| == |entries|
  {
    seq(|entries|, i requires 0 <= i < |entries| => ListRepr(entries[i].texts))
  }

  /** `update_detected_bubbles(detected_bubbles)`: one numbered record per entry,
      numbered from 1, whatever its text list holds. */
  method UpdateDetectedBubbles(entries: seq<BubbleEntry>) returns (appended: string)
    ensures appended == BubbleLog(Bodies(entries), 1)
  {
    appended := "";
    for i := 0 to |entries|
      invariant appended == BubbleLog(Bodies(entries)[..i], 1)
    {
      BubbleLogSnoc(Bodies(entries), i, 1);
      appended := appended + ("Bubble " + Decimal(i + 1) + ": " + ListRepr(entries[i].texts) + "\n");
      appended := appended + (Separator + "\n");
    }
    assert Bodies(entries)[..|entries|] == Bodies(entries);
  }

  /** Every entry is written as exactly two lines, whatever its texts hold,
      since `repr` escapes line breaks; so n entries add 2n lines, and an entry
      without text is written too, as the record `"Bubble k: []"`. */
  lemma EntriesLines(entries: seq<BubbleEntry>)
    ensures Occurrences(BubbleLog(Bodies(entries), 1), '\n') == 2 * |entries|
  {
    forall i | 0 <= i < |entries| ensures NoNewline(Bodies(entries)[i]) {
      ListReprOneLine(entries[i].texts);
    }
    BubbleLogLines(Bodies(entries), 1);
  }

  /** An entry whose crop had no text is still written, with the body `[]`. */
  lemma EmptyEntryWritten(entries: seq<BubbleEntry>, k: nat)
    requires k < |entries| && entries[k].texts == []
    ensures BubbleLog(Bodies(entries), 1) ==
      BubbleLog(Bodies(entries)[..k], 1) + BubbleRecord(k + 1, "[]") + BubbleLog(Bodies(entries)[k + 1..], k + 2)
  {
    var bodies := Bodies(entries);
    assert bodies[k] == ListRepr(entries[k].texts);
    assert ListRepr([]) == "[]" by {
      assert QuotedItems([]) == "";
    }
    BubbleLogRecordAt(bodies, 1, k);
  }

  // ---------------------------------------------------------------------------
  // capture_and_process_chat: one turn of the loop

  /** One capture of the whole window: its size, the bounding rectangles of the
      bright contours, and what OCR reads from crops of it. */
  datatype WhiteCapture = WhiteCapture(frame: Frame, rects: seq<Box>, ocr: Ocr)

  /** How a turn ends: records appended, the window missing (`IndexError`,
      caught, the loop stops), or a rectangle of height 0 (`ZeroDivisionError`,
      not caught, the script stops). */
  datatype Outcome = Appended(text: string) | WindowMissing | Crashed(index: nat)

  /** The content of history.txt across turns. */
  class WhiteScraper {
    var history: string

    constructor (history: string)
      ensures this.history == history
    {
      this.history := history;
    }

    /** One turn of `capture_and_process_chat`. */
    method Cycle(capture: Option<WhiteCapture>) returns (outcome: Outcome)
      modifies this
      ensures capture.None? ==> outcome == WindowMissing && history == old(history)
      ensures capture.Some? && (exists k :: 0 <= k < |capture.value.rects| && capture.value.rects[k].h == 0) ==>
        outcome.Crashed? && history == old(history)
      ensures capture.Some? && (forall k :: 0 <= k < |capture.value.rects| ==> capture.value.rects[k].h != 0) ==>
        var c := capture.value;
        var text := BubbleLog(Bodies(CycleEntries(c.frame, c.ocr, Filter(c.rects, WhiteBubbleShape))), 1);
        outcome == Appended(text) && history == old(history) + text
    {
      if capture.None? {
        return WindowMissing;
      }
      var c := capture.value;
      var d := DetectWhiteBubbles(c.rects);
      if d.ZeroHeight? {
        return Crashed(d.index);
      }
      var boxes := d.bubbles;
      var entries := CycleEntries(c.frame, c.ocr, boxes);
      var appended := UpdateDetectedBubbles(entries);
      history := history + appended;
      return Appended(appended);
    }
  }
}
