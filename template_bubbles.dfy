/** The template-pair scraper (bubbles1.py). Chat bubbles are found by matching
    "bubble start" and "bubble end" templates against the top half of the
    window; each start is paired with the first end to its right on about the
    same row; boxes close to one already read are skipped; the rest are read by
    OCR and their texts appended to the history file as numbered records.

    The normalised cross-correlation itself is not modelled: each template
    contributes a grid of scores (row `y`, column `x`), compared to the
    threshold as exact reals. */
module TemplateBubbles {

  import opened Util
  import opened PyStr
  import opened Geometry
  import opened LogRecords

  /** The scores `cv2.matchTemplate` yields for one template: `grid[y][x]`. */
  type Grid = seq<seq<real>>

  /** Default `threshold` of `match_template`. */
  const MatchThreshold: real := 0.8
  /** An end point pairs with a start point only if their rows differ by less than this. */
  const RowTolerance: int := 30
  /** Two boxes are the same bubble when every component differs by less than this. */
  const DedupeTolerance: int := 10

  // ---------------------------------------------------------------------------
  // match_template

  predicate IsHit(grid: Grid, threshold: real, p: Point) {
    0 <= p.y < |grid| && 0 <= p.x < |grid[p.y]| && grid[p.y][p.x] >= threshold
  }

  predicate RowMajorBefore(p: Point, q: Point) {
    p.y < q.y || (p.y == q.y && p.x < q.x)
  }

  /** The cells of one score row, from column `from` on, at or above the threshold. */
  function RowHits(row: seq<real>, y: int, threshold: real, from: nat): (r: seq<Point>)
    ensures forall p :: p in r <==> p.y == y && from <= p.x < |row| && row[p.x] >= threshold
    ensures forall i, j :: 0 <= i < j < |r| ==> r[i].x < r[j].x
    decreases |row| - from
  {
    if from >= |row| then []
    else
      var rest := RowHits(row, y, threshold, from + 1);
      assert forall j :: 0 <= j < |rest| ==> rest[j] in rest;
      (if row[from] >= threshold then [Point(from, y)] else []) + rest
  }

  /** `np.where(grid >= threshold)` read as `(x, y)` points: every cell of rows
      `from` onwards at or above the threshold, in row-major order. */
  function GridHits(grid: Grid, threshold: real, from: nat): (r: seq<Point>)
    ensures forall p :: p in r <==> from <= p.y && IsHit(grid, threshold, p)
    ensures forall i, j :: 0 <= i < j < |r| ==> RowMajorBefore(r[i], r[j])
    decreases |grid| - from
  {
    if from >= |grid| then []
    else
      var row := RowHits(grid[from], from, threshold, 0);
      var rest := GridHits(grid, threshold, from + 1);
      assert forall j :: 0 <= j < |row| ==> row[j] in row;
      assert forall j :: 0 <= j < |rest| ==> rest[j] in rest;
      row + rest
  }

  /** The points of one template's score grid. */
  function Hits(threshold: real): Grid -> seq<Point> {
    grid => GridHits(grid, threshold, 0)
  }

  /** The points of every template, template after template. */
  function TemplateHits(results: seq<Grid>, threshold: real): seq<Point> {
    FlatMap(results, Hits(threshold))
  }

  /** A point is returned exactly when some template scores its cell at or
      above the threshold. */
  lemma TemplateHitsMember(results: seq<Grid>, threshold: real, p: Point)
    ensures p in TemplateHits(results, threshold) <==>
      exists t :: 0 <= t < |results| && IsHit(results[t], threshold, p)
  {
    FlatMapMember(results, Hits(threshold), p);
  }

  /** Templates contribute in template order: the points of a split template
      list are those of its first part followed by those of its second. */
  lemma TemplateHitsConcat(a: seq<Grid>, b: seq<Grid>, threshold: real)
    ensures TemplateHits(a + b, threshold) == TemplateHits(a, threshold) + TemplateHits(b, threshold)
  {
    FlatMapConcat(a, b, Hits(threshold));
  }

  /** `match_template`: the loop over templates extending `points`. */
  method MatchTemplate(results: seq<Grid>, threshold: real) returns (points: seq<Point>)
    ensures points == TemplateHits(results, threshold)
    ensures forall p :: p in points <==> exists t :: 0 <= t < |results| && IsHit(results[t], threshold, p)
  {
    points := [];
    for t := 0 to |results|
      invariant points == TemplateHits(results[..t], threshold)
    {
      FlatMapSnoc(results, t, Hits(threshold));
      points := points + GridHits(results[t], threshold, 0);
    }
    assert results[..|results|] == results;
    forall p ensures p in points <==> exists t :: 0 <= t < |results| && IsHit(results[t], threshold, p) {
      TemplateHitsMember(results, threshold, p);
    }
  }

  // ---------------------------------------------------------------------------
  // detect_text_bubbles: pairing start points with end points

  /** `end` lies to the right of `start`, on about the same row. */
  predicate Pairs(start: Point, end: Point) {
    end.x > start.x && Abs(end.y - start.y) < RowTolerance
  }

  /** The index of the first end point, at or after `from`, that pairs with
      `start`, in list order; not the nearest one. */
  function FirstEnd(start: Point, ends: seq<Point>, from: nat): (r: Option<nat>)
    ensures r.Some? ==> from <= r.value < |ends| && Pairs(start, ends[r.value])
    ensures r.Some? ==> forall k :: from <= k < r.value ==> !Pairs(start, ends[k])
    ensures r.None? ==> forall k :: from <= k < |ends| ==> !Pairs(start, ends[k])
    decreases |ends| - from
  {
    if from >= |ends| then None
    else if Pairs(start, ends[from]) then Some(from)
    else FirstEnd(start, ends, from + 1)
  }

  /** The box from a start point to the far edge of an end match; width and
      height come from the first end template whichever template matched. */
  function BubbleBetween(start: Point, end: Point, endW: nat, endH: nat): Box {
    Box(start.x, start.y, end.x - start.x + endW, endH)
  }

  /** The bubble contributed by one start point: none when no end point pairs with it. */
  function BubbleFrom(start: Point, ends: seq<Point>, endW: nat, endH: nat): (r: seq<Box>)
    ensures |r| <= 1
  {
    match FirstEnd(start, ends, 0)
    case None => []
    case Some(k) => [BubbleBetween(start, ends[k], endW, endH)]
  }

  function BubbleOf(ends: seq<Point>, endW: nat, endH: nat): Point -> seq<Box> {
    start => BubbleFrom(start, ends, endW, endH)
  }

  /** The bubbles of all start points, in start-point order. */
  function Pairing(starts: seq<Point>, ends: seq<Point>, endW: nat, endH: nat): seq<Box> {
    FlatMap(starts, BubbleOf(ends, endW, endH))
  }

  predicate HasEnd(start: Point, ends: seq<Point>) {
    FirstEnd(start, ends, 0).Some?
  }

  /** Every bubble starts at a start point and ends at the first end point that
      pairs with it; the box's width reaches that end plus the end template's
      width, and its height is the end template's. Conversely every start point
      that has a partner yields its bubble. */
  lemma PairingSpec(starts: seq<Point>, ends: seq<Point>, endW: nat, endH: nat, b: Box)
    ensures b in Pairing(starts, ends, endW, endH) <==>
      exists i :: 0 <= i < |starts| && HasEnd(starts[i], ends) &&
        b == BubbleBetween(starts[i], ends[FirstEnd(starts[i], ends, 0).value], endW, endH)
  {
    FlatMapMember(starts, BubbleOf(ends, endW, endH), b);
  }

  /** At most one bubble per start point, in start-point order: the bubbles of
      a split list are those of its first part, then of its second. */
  lemma PairingConcat(a: seq<Point>, b: seq<Point>, ends: seq<Point>, endW: nat, endH: nat)
    ensures Pairing(a + b, ends, endW, endH) == Pairing(a, ends, endW, endH) + Pairing(b, ends, endW, endH)
    ensures |Pairing(a, ends, endW, endH)| <= |a|
  {
    FlatMapConcat(a, b, BubbleOf(ends, endW, endH));
    FlatMapAtMostOne(a, BubbleOf(ends, endW, endH));
  }

  /** `detect_text_bubbles` after matching: for each start point, scan the end
      points in order and take the first one that pairs, then `break`. */
  method DetectTextBubbles(starts: seq<Point>, ends: seq<Point>, endW: nat, endH: nat)
    returns (bubbles: seq<Box>)
    ensures bubbles == Pairing(starts, ends, endW, endH)
    ensures |bubbles| <= |starts|
  {
    bubbles := [];
    for i := 0 to |starts|
      invariant bubbles == Pairing(starts[..i], ends, endW, endH)
    {
      var start := starts[i];
      FlatMapSnoc(starts, i, BubbleOf(ends, endW, endH));
      var j := 0;
      while j < |ends|
        invariant 0 <= j <= |ends|
        invariant FirstEnd(start, ends, 0) == FirstEnd(start, ends, j)
        invariant bubbles == Pairing(starts[..i], ends, endW, endH)
      {
        var end := ends[j];
        if end.x > start.x && Abs(end.y - start.y) < RowTolerance {
          bubbles := bubbles + [BubbleBetween(start, end, endW, endH)];
          break;
        }
        j := j + 1;
      }
    }
    assert starts[..|starts|] == starts;
    PairingConcat(starts, [], ends, endW, endH);
  }

  /** A start match at (10, 40) and an end match at (90, 42) make the bubble
      (10, 40, 80 + end width, end height). */
  lemma PairingExample(endW: nat, endH: nat)
    ensures Pairing([Point(10, 40)], [Point(90, 42)], endW, endH) == [Box(10, 40, 80 + endW, endH)]
  {
    assert [Point(10, 40)][..0] == [];
  }

  /** The first qualifying end in list order wins over a nearer one later in the list. */
  lemma FirstEndNotNearest(endW: nat, endH: nat)
    ensures Pairing([Point(0, 0)], [Point(100, 5), Point(40, 0)], endW, endH) == [Box(0, 0, 100 + endW, endH)]
  {
    assert [Point(0, 0)][..0] == [];
    assert FirstEnd(Point(0, 0), [Point(100, 5), Point(40, 0)], 0) == Some(0);
  }

  // ---------------------------------------------------------------------------
  // extract_text_from_bubbles: approximate deduplication against a memory

  predicate Near(a: Box, b: Box) {
    && Abs(a.x - b.x) < DedupeTolerance
    && Abs(a.y - b.y) < DedupeTolerance
    && Abs(a.w - b.w) < DedupeTolerance
    && Abs(a.h - b.h) < DedupeTolerance
  }

  /** `b` lies within tolerance of some remembered box. */
  predicate Remembered(memory: seq<Box>, b: Box) {
    exists i :: 0 <= i < |memory| && Near(memory[i], b)
  }

  /** The inner loop of `extract_text_from_bubbles`: scan the remembered boxes
      and stop at the first one within tolerance of `b`. */
  method IsDuplicate(memory: seq<Box>, b: Box) returns (duplicate: bool)
    ensures duplicate <==> exists i :: 0 <= i < |memory| && Near(memory[i], b)
  {
    duplicate := false;
    var i := 0;
    while i < |memory|
      invariant 0 <= i <= |memory|
      invariant !duplicate
      invariant forall k :: 0 <= k < i ==> !Near(memory[k], b)
    {
      if Abs(b.x - memory[i].x) < DedupeTolerance && Abs(b.y - memory[i].y) < DedupeTolerance
        && Abs(b.w - memory[i].w) < DedupeTolerance && Abs(b.h - memory[i].h) < DedupeTolerance
      {
        duplicate := true;
        break;
      }
      i := i + 1;
    }
  }

  /** What OCR reads from candidate `b`: `frame[y:y+h, x:x+w]`, preprocessed and
      recognised (the preprocessing is deterministic, so it is part of the oracle). */
  function ReadBox(frame: Frame, ocr: Ocr, b: Box): string {
    ocr(CropOf(frame, b, 0))
  }

  /** The outcome of one call: the texts returned and the boxes appended to the memory. */
  datatype Sweep = Sweep(texts: seq<string>, accepted: seq<Box>)

  /** The loop of `extract_text_from_bubbles` with its decision left abstract:
      the candidates are processed in order against a memory that grows as
      boxes are accepted, and each accepted box contributes `text(box)`. */
  function SweepBy(memory: seq<Box>, candidates: seq<Box>, accepts: (seq<Box>, Box) -> bool, text: Box -> string): (r: Sweep)
    ensures |r.texts| == |r.accepted| <= |candidates|
    decreases |candidates|
  {
    if candidates == [] then Sweep([], [])
    else if accepts(memory, candidates[0]) then
      var r := SweepBy(memory + [candidates[0]], candidates[1..], accepts, text);
      Sweep([text(candidates[0])] + r.texts, [candidates[0]] + r.accepted)
    else SweepBy(memory, candidates[1..], accepts, text)
  }

  /** A decision that only rejects more as the memory grows. */
  ghost predicate Monotone(accepts: (seq<Box>, Box) -> bool) {
    forall m: seq<Box>, more: seq<Box>, c: Box :: accepts(m + more, c) ==> accepts(m, c)
  }

  /** A decision that rejects a box once that box itself is remembered. */
  ghost predicate SelfBlocking(accepts: (seq<Box>, Box) -> bool) {
    forall m: seq<Box>, c: Box :: !accepts(m + [c], c)
  }

  /** Whether the function appends `b`: no remembered box is within tolerance
      of it, and its OCR text is not empty once stripped. */
  predicate Accepts(frame: Frame, ocr: Ocr, memory: seq<Box>, b: Box) {
    !Remembered(memory, b) && Strip(ReadBox(frame, ocr, b)) != []
  }

  function AcceptsIn(frame: Frame, ocr: Ocr): (seq<Box>, Box) -> bool {
    (memory: seq<Box>, b: Box) => Accepts(frame, ocr, memory, b)
  }

  function TextIn(frame: Frame, ocr: Ocr): Box -> string {
    b => Strip(ReadBox(frame, ocr, b))
  }

  /** One call of `extract_text_from_bubbles` on a frame. */
  function ExtractSweep(frame: Frame, ocr: Ocr, memory: seq<Box>, candidates: seq<Box>): Sweep {
    SweepBy(memory, candidates, AcceptsIn(frame, ocr), TextIn(frame, ocr))
  }

  /** The caller-owned list `detected_bubbles`, which the function appends to. */
  class RegionMemory {
    var entries: seq<Box>

    constructor ()
      ensures entries == []
    {
      entries := [];
    }

    method Append(b: Box)
      modifies this
      ensures entries == old(entries) + [b]
    {
      entries := entries + [b];
    }
  }

  /** `extract_text_from_bubbles(screen, bubble_contours, detected_bubbles)`. */
  method ExtractTextFromBubbles(frame: Frame, ocr: Ocr, candidates: seq<Box>, detected: RegionMemory)
    returns (newTexts: seq<string>)
    modifies detected
    ensures newTexts == ExtractSweep(frame, ocr, old(detected.entries), candidates).texts
    ensures detected.entries == old(detected.entries) + ExtractSweep(frame, ocr, old(detected.entries), candidates).accepted
  {
    newTexts := [];
    ghost var accepted: seq<Box> := [];
    ghost var whole := ExtractSweep(frame, ocr, detected.entries, candidates);
    for i := 0 to |candidates|
      invariant detected.entries == old(detected.entries) + accepted
      invariant newTexts + ExtractSweep(frame, ocr, detected.entries, candidates[i..]).texts == whole.texts
      invariant accepted + ExtractSweep(frame, ocr, detected.entries, candidates[i..]).accepted == whole.accepted
    {
      var b := candidates[i];
      assert candidates[i..][1..] == candidates[i + 1..];
      var duplicate := IsDuplicate(detected.entries, b);
      if !duplicate {
        var text := ocr(CropOf(frame, b, 0));
        if Strip(text) != [] {
          newTexts := newTexts + [Strip(text)];
          detected.Append(b);
          accepted := accepted + [b];
        }
      }
    }
    assert candidates[|candidates|..] == [];
  }

  /** Each accepted box is a candidate that was accepted against the memory as
      it stood when the box was reached, and contributes its own text at the
      same position. */
  lemma {:induction false} SweepByAccepted(memory: seq<Box>, candidates: seq<Box>,
      accepts: (seq<Box>, Box) -> bool, text: Box -> string, j: nat)
    requires j < |SweepBy(memory, candidates, accepts, text).accepted|
    ensures var r := SweepBy(memory, candidates, accepts, text);
      && r.accepted[j] in candidates
      && accepts(memory + r.accepted[..j], r.accepted[j])
      && r.texts[j] == text(r.accepted[j])
    decreases |candidates|
  {
    var r := SweepBy(memory, candidates, accepts, text);
    var b, rest := candidates[0], candidates[1..];
    assert candidates == [b] + rest;
    if !accepts(memory, b) {
      SweepByAccepted(memory, rest, accepts, text, j);
    } else if j == 0 {
      assert memory + r.accepted[..0] == memory;
    } else {
      var r' := SweepBy(memory + [b], rest, accepts, text);
      SweepByAccepted(memory + [b], rest, accepts, text, j - 1);
      assert r.accepted[..j] == [b] + r'.accepted[..j - 1];
      assert memory + r.accepted[..j] == (memory + [b]) + r'.accepted[..j - 1];
    }
  }

  /** After a call, no candidate would be accepted against the grown memory. */
  lemma {:induction false} SweepByCovers(memory: seq<Box>, candidates: seq<Box>,
      accepts: (seq<Box>, Box) -> bool, text: Box -> string)
    requires Monotone(accepts) && SelfBlocking(accepts)
    ensures var r := SweepBy(memory, candidates, accepts, text);
      forall c :: c in candidates ==> !accepts(memory + r.accepted, c)
    decreases |candidates|
  {
    if candidates != [] {
      var r := SweepBy(memory, candidates, accepts, text);
      var b, rest := candidates[0], candidates[1..];
      assert forall c :: c in candidates ==> c == b || c in rest;
      if !accepts(memory, b) {
        SweepByCovers(memory, rest, accepts, text);
        assert !accepts(memory + r.accepted, b);
      } else {
        var r' := SweepBy(memory + [b], rest, accepts, text);
        SweepByCovers(memory + [b], rest, accepts, text);
        assert memory + r.accepted == (memory + [b]) + r'.accepted;
        assert !accepts(memory + [b], b);
      }
    }
  }

  /** Candidates that would all be rejected produce nothing. */
  lemma {:induction false} SweepByQuiet(memory: seq<Box>, candidates: seq<Box>,
      accepts: (seq<Box>, Box) -> bool, text: Box -> string)
    requires forall c :: c in candidates ==> !accepts(memory, c)
    ensures SweepBy(memory, candidates, accepts, text) == Sweep([], [])
    decreases |candidates|
  {
    if candidates != [] {
      assert candidates[0] in candidates;
      assert forall c :: c in candidates[1..] ==> c in candidates;
      SweepByQuiet(memory, candidates[1..], accepts, text);
    }
  }

  /** Processing candidates in two consecutive calls equals processing them in one. */
  lemma SweepByCons(memory: seq<Box>, x: Box, rest: seq<Box>,
      accepts: (seq<Box>, Box) -> bool, text: Box -> string)
    ensures SweepBy(memory, [x] + rest, accepts, text) ==
      if accepts(memory, x) then
        var r := SweepBy(memory + [x], rest, accepts, text);
        Sweep([text(x)] + r.texts, [x] + r.accepted)
      else SweepBy(memory, rest, accepts, text)
  {
    assert ([x] + rest)[0] == x && ([x] + rest)[1..] == rest;
  }

  lemma {:induction false} SweepByConcat(memory: seq<Box>, a: seq<Box>, b: seq<Box>,
      accepts: (seq<Box>, Box) -> bool, text: Box -> string)
    ensures var ra := SweepBy(memory, a, accepts, text);
      var rb := SweepBy(memory + ra.accepted, b, accepts, text);
      SweepBy(memory, a + b, accepts, text) == Sweep(ra.texts + rb.texts, ra.accepted + rb.accepted)
    decreases |a|
  {
    if a == [] {
      assert a + b == b;
      assert memory + [] == memory;
    } else {
      var x, rest := a[0], a[1..];
      assert a == [x] + rest;
      assert a + b == [x] + (rest + b);
      SweepByCons(memory, x, rest, accepts, text);
      SweepByCons(memory, x, rest + b, accepts, text);
      if accepts(memory, x) {
        var m := memory + [x];
        var ra' := SweepBy(m, rest, accepts, text);
        var rb := SweepBy(m + ra'.accepted, b, accepts, text);
        SweepByConcat(m, rest, b, accepts, text);
        assert memory + ([x] + ra'.accepted) == m + ra'.accepted;
        ConsAssoc(text(x), ra'.texts, rb.texts);
        ConsAssoc(x, ra'.accepted, rb.accepted);
      } else {
        SweepByConcat(memory, rest, b, accepts, text);
      }
    }
  }

  lemma ConsAssoc<T>(x: T, s: seq<T>, t: seq<T>)
    ensures [x] + (s + t) == ([x] + s) + t
  {
  }

  /** Remembering more boxes never forgets a match. */
  lemma RememberedGrows(memory: seq<Box>, more: seq<Box>, b: Box)
    requires Remembered(memory, b)
    ensures Remembered(memory + more, b)
  {
    var i :| 0 <= i < |memory| && Near(memory[i], b);
    assert (memory + more)[i] == memory[i];
  }

  /** The dedupe decision rejects more as the memory grows, and rejects a box
      once it is remembered. */
  lemma AcceptsShape(frame: Frame, ocr: Ocr)
    ensures Monotone(AcceptsIn(frame, ocr)) && SelfBlocking(AcceptsIn(frame, ocr))
  {
    forall m: seq<Box>, more: seq<Box>, c: Box | !Accepts(frame, ocr, m, c)
      ensures !Accepts(frame, ocr, m + more, c)
    {
      if Remembered(m, c) {
        RememberedGrows(m, more, c);
      }
    }
    forall m: seq<Box>, c: Box ensures !Accepts(frame, ocr, m + [c], c) {
      assert (m + [c])[|m|] == c;
      assert Near(c, c);
    }
  }

  /** Each returned text belongs to the box appended at the same position: it is
      that box's stripped, non-empty OCR text, and the box was far from every box
      remembered before it, including those accepted earlier in the same call. */
  lemma SweepAccepted(frame: Frame, ocr: Ocr, memory: seq<Box>, candidates: seq<Box>, j: nat)
    requires j < |ExtractSweep(frame, ocr, memory, candidates).accepted|
    ensures var r := ExtractSweep(frame, ocr, memory, candidates);
      && r.accepted[j] in candidates
      && !Remembered(memory + r.accepted[..j], r.accepted[j])
      && r.texts[j] == Strip(ReadBox(frame, ocr, r.accepted[j])) && r.texts[j] != []
  {
    SweepByAccepted(memory, candidates, AcceptsIn(frame, ocr), TextIn(frame, ocr), j);
  }

  /** After a call, every candidate is within tolerance of a remembered box or
      has no text once stripped. */
  lemma SweepCovers(frame: Frame, ocr: Ocr, memory: seq<Box>, candidates: seq<Box>)
    ensures var r := ExtractSweep(frame, ocr, memory, candidates);
      forall c :: c in candidates ==> Remembered(memory + r.accepted, c) || Strip(ReadBox(frame, ocr, c)) == []
  {
    AcceptsShape(frame, ocr);
    SweepByCovers(memory, candidates, AcceptsIn(frame, ocr), TextIn(frame, ocr));
  }

  /** With the same frame and OCR, a second call with the same candidates and the
      updated memory returns no text and appends nothing. */
  lemma SweepIdempotent(frame: Frame, ocr: Ocr, memory: seq<Box>, candidates: seq<Box>)
    ensures var r := ExtractSweep(frame, ocr, memory, candidates);
      ExtractSweep(frame, ocr, memory + r.accepted, candidates) == Sweep([], [])
  {
    var r := ExtractSweep(frame, ocr, memory, candidates);
    SweepCovers(frame, ocr, memory, candidates);
    SweepByQuiet(memory + r.accepted, candidates, AcceptsIn(frame, ocr), TextIn(frame, ocr));
  }

  /** Two calls with consecutive batches of candidates, the second against the
      memory the first left, return and append what one call on both batches does. */
  lemma SweepConcat(frame: Frame, ocr: Ocr, memory: seq<Box>, a: seq<Box>, b: seq<Box>)
    ensures var ra := ExtractSweep(frame, ocr, memory, a);
      var rb := ExtractSweep(frame, ocr, memory + ra.accepted, b);
      ExtractSweep(frame, ocr, memory, a + b) == Sweep(ra.texts + rb.texts, ra.accepted + rb.accepted)
  {
    SweepByConcat(memory, a, b, AcceptsIn(frame, ocr), TextIn(frame, ocr));
  }

  /** A bubble seen again shifted by less than the tolerance in every component
      is not read again: (100, 50, 80, 30) remembered, (102, 51, 80, 30) seen. */
  lemma JitterIsSkipped(frame: Frame, ocr: Ocr)
    ensures ExtractSweep(frame, ocr, [Box(100, 50, 80, 30)], [Box(102, 51, 80, 30)]) == Sweep([], [])
  {
    var memory := [Box(100, 50, 80, 30)];
    assert Near(memory[0], Box(102, 51, 80, 30));
    assert [Box(102, 51, 80, 30)][1..] == [];
  }

  // ---------------------------------------------------------------------------
  // update_detected_bubbles

  /** `update_detected_bubbles(texts)`: the text appended to history.txt, one
      numbered record per text, numbered from 1; nothing when `texts` is empty. */
  method UpdateDetectedBubbles(texts: seq<string>) returns (appended: string)
    ensures appended == BubbleLog(texts, 1)
    ensures texts == [] ==> appended == []
  {
    appended := "";
    if texts != [] {
      for i := 0 to |texts|
        invariant appended == BubbleLog(texts[..i], 1)
      {
        BubbleLogSnoc(texts, i, 1);
        appended := appended + ("Bubble " + Decimal(i + 1) + ": " + texts[i] + "\n");
        appended := appended + (Separator + "\n");
      }
      assert texts[..|texts|] == texts;
    }
  }

  // ---------------------------------------------------------------------------
  // capture_and_process_chat: one turn of the polling loop

  /** One capture of the window: its size, the score grids of the start and end
      templates over its top half, and what OCR reads from crops of that half. */
  datatype Capture = Capture(window: Frame, startScores: seq<Grid>, endScores: seq<Grid>, ocr: Ocr)

  /** The top `height // 2` rows of the window, where bubbles are searched. */
  function TopHalf(window: Frame): (f: Frame)
    ensures f.width == window.width && 2 * f.height <= window.height
    ensures window.height <= 2 * f.height + 1
  {
    Frame(window.height / 2, window.width)
  }

  /** The bubbles one capture yields. */
  function CaptureBubbles(c: Capture, endW: nat, endH: nat): seq<Box> {
    Pairing(TemplateHits(c.startScores, MatchThreshold), TemplateHits(c.endScores, MatchThreshold), endW, endH)
  }

  /** The state `capture_and_process_chat` keeps across turns: the remembered
      boxes and the history file's content, with the end template's size. */
  class TemplateScraper {
    const endW: nat
    const endH: nat
    const detected: RegionMemory
    var history: string

    constructor (endW: nat, endH: nat, history: string)
      ensures this.endW == endW && this.endH == endH && this.history == history
      ensures fresh(detected) && detected.entries == []
    {
      this.endW := endW;
      this.endH := endH;
      this.history := history;
      detected := new RegionMemory();
    }

    /** One turn. `None` is a window that cannot be found: `capture_game_window`
        raises `ValueError` and the loop stops. Otherwise the memory and the
        history only grow, by the boxes accepted and the records of their texts. */
    method Cycle(capture: Option<Capture>) returns (running: bool)
      modifies this, detected
      ensures running <==> capture.Some?
      ensures capture.None? ==> history == old(history) && detected.entries == old(detected.entries)
      ensures capture.Some? ==>
        var c := capture.value;
        var r := ExtractSweep(TopHalf(c.window), c.ocr, old(detected.entries), CaptureBubbles(c, endW, endH));
        && detected.entries == old(detected.entries) + r.accepted
        && history == old(history) + BubbleLog(r.texts, 1)
    {
      if capture.None? {
        return false;
      }
      var c := capture.value;
      var screen := TopHalf(c.window);
      var startPoints := MatchTemplate(c.startScores, MatchThreshold);
      var endPoints := MatchTemplate(c.endScores, MatchThreshold);
      var bubbles := DetectTextBubbles(startPoints, endPoints, endW, endH);
      if bubbles != [] {
        var newTexts := ExtractTextFromBubbles(screen, c.ocr, bubbles, detected);
        if newTexts != [] {
          var appended := UpdateDetectedBubbles(newTexts);
          history := history + appended;
        }
      }
      return true;
    }
  }
}
