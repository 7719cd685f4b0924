/** The contour scraper with text-level deduplication (history.py). Each cycle
    captures the window, keeps the contours of chat-bubble size, reads them by
    OCR, and appends to the chat history file, with a timestamp, every text not
    seen in an earlier cycle. The set of texts already seen lives for the whole
    run and only grows. */
module ChatHistory {

  import opened Util
  import opened PyStr
  import opened Geometry
  import opened LogRecords

  // ---------------------------------------------------------------------------
  // extract_chat_bubbles

  /** The size test of `extract_chat_bubbles`: `50 < w < 400 and 20 < h < 100`. */
  predicate ChatSized(b: Box) {
    50 < b.w < 400 && 20 < b.h < 100
  }

  /** `extract_chat_bubbles`: the crops of the rectangles of chat size, in
      contour order, and no others. */
  method ExtractChatBubbles(frame: Frame, rects: seq<Box>) returns (bubbles: seq<Crop>)
    ensures bubbles == Crops(frame, Filter(rects, ChatSized), 0)
    ensures |bubbles| <= |rects|
  {
    bubbles := [];
    for i := 0 to |rects|
      invariant bubbles == Crops(frame, Filter(rects[..i], ChatSized), 0)
    {
      var b := rects[i];
      FilterSnoc(rects, i, ChatSized);
      if 50 < b.w < 400 && 20 < b.h < 100 {
        CropsSnoc(frame, Filter(rects[..i], ChatSized), b, 0);
        bubbles := bubbles + [CropOf(frame, b, 0)];
      }
    }
    assert rects[..|rects|] == rects;
  }

  /** The rectangles `extract_chat_bubbles` keeps are exactly those of chat size,
      and a split contour list keeps the kept rectangles of its first part
      before those of its second, so contour order is preserved. */
  lemma ChatFilterSpec(rects: seq<Box>, more: seq<Box>)
    ensures forall b :: b in Filter(rects, ChatSized) <==> b in rects && 50 < b.w < 400 && 20 < b.h < 100
    ensures Filter(rects + more, ChatSized) == Filter(rects, ChatSized) + Filter(more, ChatSized)
  {
    FilterConcat(rects, more, ChatSized);
  }

  // ---------------------------------------------------------------------------
  // read_text_from_bubbles

  /** `read_text_from_bubbles`: the stripped OCR texts that are not empty, in
      bubble order. */
  method ReadTextFromBubbles(ocr: Ocr, bubbles: seq<Crop>) returns (chatTexts: seq<string>)
    ensures chatTexts == StripKeep(ReadAll(ocr, bubbles))
    ensures |chatTexts| <= |bubbles|
    ensures forall i :: 0 <= i < |chatTexts| ==> chatTexts[i] != [] && Strip(chatTexts[i]) == chatTexts[i]
  {
    chatTexts := [];
    for i := 0 to |bubbles|
      invariant chatTexts == StripKeep(ReadAll(ocr, bubbles[..i]))
    {
      var text := ocr(bubbles[i]);
      assert bubbles[..i + 1] == bubbles[..i] + [bubbles[i]];
      ReadAllSnoc(ocr, bubbles[..i], bubbles[i]);
      StripKeepConcat(ReadAll(ocr, bubbles[..i]), [text]);
      assert StripKeep([text]) == KeepStripped(text) by {
        assert [text][..0] == [];
      }
      if Strip(text) != [] {
        chatTexts := chatTexts + [Strip(text)];
      }
    }
    assert bubbles[..|bubbles|] == bubbles;
    StripKeepSpec(ReadAll(ocr, bubbles));
    forall i | 0 <= i < |chatTexts| ensures chatTexts[i] != [] && Strip(chatTexts[i]) == chatTexts[i] {
      assert chatTexts[i] in chatTexts;
    }
  }

  // ---------------------------------------------------------------------------
  // main: set-difference deduplication

  /** `set(chat_texts) - last_processed_texts`. */
  function NewTexts(chatTexts: seq<string>, last: set<string>): set<string> {
    (set t | t in chatTexts) - last
  }

  /** The new texts are texts of this cycle not seen before; after the update the
      memory holds every text of this cycle; and a repeated cycle with the same
      texts finds nothing new. */
  lemma NewTextsSpec(chatTexts: seq<string>, last: set<string>)
    ensures NewTexts(chatTexts, last) !! last
    ensures forall t :: t in NewTexts(chatTexts, last) ==> t in chatTexts
    ensures forall t :: t in chatTexts ==> t in last + NewTexts(chatTexts, last)
    ensures NewTexts(chatTexts, last + NewTexts(chatTexts, last)) == {}
  {
    var n := NewTexts(chatTexts, last);
    forall t | t in chatTexts ensures t in last + n {
      if t !in last {
        assert t in (set u | u in chatTexts);
      }
    }
  }

  /** The next cycle after a cycle whose new texts were `n`, starting from the
      memory `Record` leaves. When `write_to_file` returned, no text of `n` is
      new again. When it raised, every text of `n` captured again is new again,
      so its lines, even those already written, are written once more. */
  lemma WrittenOnce(first: seq<string>, second: seq<string>, last: set<string>, fault: FileFault)
    ensures var n := NewTexts(first, last);
      var next := if Raises(fault, |n|) then last else last + n;
      && (!Raises(fault, |n|) ==> NewTexts(second, next) !! n)
      && (Raises(fault, |n|) ==> forall t :: t in n && t in second ==> t in NewTexts(second, next))
  {
    var n := NewTexts(first, last);
    if Raises(fault, |n|) {
      forall t | t in n && t in second ensures t in NewTexts(second, last) {
        assert t in (set u | u in second);
      }
    } else {
      forall t | t in n ensures t !in NewTexts(second, last + n) {
      }
    }
  }

  // ---------------------------------------------------------------------------
  // write_to_file

  predicate Distinct(s: seq<string>) {
    forall i, j :: 0 <= i < j < |s| ==> s[i] != s[j]
  }

  /** How the file system treats one call of `write_to_file`. `OpenFails`:
      `open` raises `IOError`, which the function catches. `IOErrorAt(k)`: the
      write of line `k` raises `IOError`, which the function catches.
      `EncodeErrorAt(k)`: the write of line `k` raises `UnicodeEncodeError` (the
      file is opened in the locale's encoding), which is not an `IOError` and
      leaves the function. In the last two, the lines before `k` stay in the
      file, since leaving the `with` block closes it; when `k` is past the last
      line, nothing fails. */
  datatype FileFault = NoFault | OpenFails | IOErrorAt(line: nat) | EncodeErrorAt(line: nat)

  /** The number of lines that reach the file when `n` lines are written. */
  function LinesWritten(fault: FileFault, n: nat): (r: nat)
    ensures r <= n
    ensures fault.NoFault? ==> r == n
    ensures fault.OpenFails? ==> r == 0
    ensures (fault.IOErrorAt? || fault.EncodeErrorAt?) ==> r == Min(fault.line, n)
  {
    match fault
    case NoFault => n
    case OpenFails => 0
    case IOErrorAt(k) => Min(k, n)
    case EncodeErrorAt(k) => Min(k, n)
  }

  /** Whether `write_to_file` ends by raising an exception when `n` lines are
      written. */
  predicate Raises(fault: FileFault, n: nat) {
    fault.EncodeErrorAt? && fault.line < n
  }

  /** `order` lists the texts of `texts` whose lines reach the file, each
      once: all of them when nothing fails, otherwise as many as `fault` lets
      through. */
  predicate WriteOrder(order: seq<string>, texts: set<string>, fault: FileFault) {
    && |order| == LinesWritten(fault, |texts|)
    && Distinct(order)
    && (forall t :: t in order ==> t in texts)
    && (|order| == |texts| ==> forall t :: t in texts ==> t in order)
  }

  /** `write_to_file(new_texts)`: one line `"{time.ctime()}: {text}\n"` per text
      of the set, in the set's iteration order, which the method chooses; the
      `k`-th line is stamped `clock(k)`. Returns the text appended to the file,
      the texts whose lines reached it, in order, and whether the call raised.
      With no fault every text is written once; otherwise the written texts are
      a prefix of the iteration order, as long as `fault` allows. */
  method WriteToFile(texts: set<string>, clock: nat -> string, fault: FileFault)
    returns (appended: string, order: seq<string>, raised: bool)
    ensures WriteOrder(order, texts, fault)
    ensures raised <==> Raises(fault, |texts|)
    ensures appended == StampedLog(order, clock)
  {
    appended := "";
    order := [];
    raised := false;
    if fault.OpenFails? {
      return;
    }
    var remaining := texts;
    while remaining != {}
      invariant remaining <= texts
      invariant forall t :: t in texts <==> t in remaining || t in order
      invariant forall t :: t in order ==> t !in remaining
      invariant |order| + |remaining| == |texts|
      invariant (fault.IOErrorAt? || fault.EncodeErrorAt?) ==> |order| <= fault.line
      invariant Distinct(order)
      invariant appended == StampedLog(order, clock)
      decreases remaining
    {
      if (fault.IOErrorAt? || fault.EncodeErrorAt?) && fault.line == |order| {
        raised := fault.EncodeErrorAt?;
        return;
      }
      var text :| text in remaining;
      StampedLogSnoc(order + [text], |order|, clock);
      assert (order + [text])[..|order|] == order;
      assert (order + [text])[..|order| + 1] == order + [text];
      appended := appended + (clock(|order|) + ": " + text + "\n");
      order := order + [text];
      remaining := remaining - {text};
    }
  }

  // ---------------------------------------------------------------------------
  // main: one cycle

  /** One capture: the window's size, the bounding rectangles of its contours,
      and what OCR reads from crops of it. */
  datatype ChatCapture = ChatCapture(frame: Frame, rects: seq<Box>, ocr: Ocr)

  /** The texts one capture yields. */
  function ChatTexts(c: ChatCapture): seq<string> {
    StripKeep(ReadAll(c.ocr, Crops(c.frame, Filter(c.rects, ChatSized), 0)))
  }

  /** The state of `main`: the texts already processed and the content of
      chat_history.txt. */
  class ChatRecorder {
    var lastProcessed: set<string>
    var log: string

    constructor (log: string)
      ensures lastProcessed == {} && this.log == log
    {
      lastProcessed := {};
      this.log := log;
    }

    /** `if new_texts: write_to_file(new_texts); last_processed_texts.update(new_texts)`:
        the texts are recorded as processed unless `write_to_file` raised. */
    method Record(newTexts: set<string>, clock: nat -> string, fault: FileFault) returns (written: seq<string>)
      modifies this
      ensures lastProcessed == (if Raises(fault, |newTexts|) then old(lastProcessed) else old(lastProcessed) + newTexts)
      ensures WriteOrder(written, newTexts, fault)
      ensures log == old(log) + StampedLog(written, clock)
    {
      written := [];
      if newTexts != {} {
        var appended, raised;
        appended, written, raised := WriteToFile(newTexts, clock, fault);
        log := log + appended;
        if !raised {
          lastProcessed := lastProcessed + newTexts;
        }
      } else {
        assert log + StampedLog([], clock) == log;
        assert lastProcessed + newTexts == lastProcessed;
      }
    }

    /** One turn of the loop in `main`. `None` is a failed capture: the
        exception is caught and the loop retries, with nothing changed. When
        `write_to_file` returns, the new texts are recorded as processed,
        whether or not their lines reached the file; when it raises, `main`
        catches the exception before the update, so the texts stay unprocessed
        while the lines already written stay in the file. Returns the texts
        whose lines were written, in order. */
    method Cycle(capture: Option<ChatCapture>, clock: nat -> string, fault: FileFault) returns (written: seq<string>)
      modifies this
      ensures capture.None? ==> lastProcessed == old(lastProcessed) && log == old(log) && written == []
      ensures capture.Some? ==>
        var newTexts := NewTexts(ChatTexts(capture.value), old(lastProcessed));
        && lastProcessed == (if Raises(fault, |newTexts|) then old(lastProcessed) else old(lastProcessed) + newTexts)
        && WriteOrder(written, newTexts, fault)
        && log == old(log) + StampedLog(written, clock)
    {
      written := [];
      if capture.None? {
        return;
      }
      var c := capture.value;
      var bubbles := ExtractChatBubbles(c.frame, c.rects);
      var chatTexts := ReadTextFromBubbles(c.ocr, bubbles);
      assert chatTexts == ChatTexts(c);
      var newTexts := NewTexts(chatTexts, lastProcessed);
      written := Record(newTexts, clock, fault);
    }
  }
}
