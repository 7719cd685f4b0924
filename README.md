# Habbo chat-bubble scrapers, modelled in Dafny

Three Python scripts watch the "Habbo Hotel: Origins" window, find chat
bubbles in screenshots, read them with Tesseract and append the text to a
history file. This project models the integer, list, set and string logic
around the image and OCR calls, and proves what that logic guarantees.

- `bubbles1.py` (module `TemplateBubbles`, `template_bubbles.dfy`) finds
  bubbles by template matching. Every cell of a score grid at or above 0.8
  is a match point. Each start point is paired with the first end point to
  its right on about the same row. A box that differs from a remembered box by
  less than 10 pixels in each of x, y, w and h is a duplicate and is skipped. The other boxes are read
  by OCR. A box is remembered only when its stripped text is not empty. The
  new texts are appended as numbered records.
- `history.py` (module `ChatHistory`, `chat_history.dfy`) keeps the contours
  of chat-bubble size and reads them by OCR. Each stripped, non-empty text not
  seen in an earlier cycle is written to `chat_history.txt` with a timestamp
  and then marked seen. A text is marked seen even when its line could not be
  written because of an `IOError`, and it is never written later. When a
  write raises an exception `write_to_file` does not catch, no text of that
  cycle is marked seen, and the lines already written are written again the
  next time those texts are captured. The set of seen texts only grows.
- `bubbles.py` (module `WhiteBubbles`, `white_bubbles.dfy`) keeps the bright
  contours shaped like a bubble. It reads each one through a crop widened by
  4500 columns. Every cycle it appends one numbered record per bubble, holding
  the Python list of its texts. It has no memory, so bubbles are written again
  on every cycle.

Shared pieces:

- `util.dfy` (`Util`): Option, plus order-preserving filter and flat-map
  over sequences.
- `pystr.dfy` (`PyStr`): Python's `str.strip()` over the `str.isspace`
  characters, the decimal rendering of a counter, and character counts.
- `pyrepr.dfy` (`PyRepr`): Python's `repr` of a string and of a list of
  strings.
- `geometry.dfy` (`Geometry`): points, rectangles, frames, and crops
  computed with NumPy slice clamping.
- `records.dfy` (`LogRecords`): the two record formats the scripts append.

Model boundaries:

- OpenCV is not modelled. Its outputs are inputs to the model: a score grid
  per template for `bubbles1.py`, a list of bounding rectangles for the other
  two scripts.
- Tesseract is an oracle, a function from a crop of the current frame to a
  string. The preprocessing in `preprocess_bubble_image` is deterministic, so
  it is part of that oracle.
- A frame is known only by its size.
- The history files are modelled as the string the scripts append.
- The clock is a function from line number to timestamp.
- How the file system treats a call of `write_to_file` is an input. The file
  opens or not, and one line may raise `IOError` or `UnicodeEncodeError`.

Behaviour of the scripts that is easy to miss, which the model follows:

- `history.py` retries after every exception, including a missing window.
- `bubbles1.py` stops on any exception.
- `bubbles.py` stops when the window is missing. It crashes with
  `ZeroDivisionError` on a contour of height 0, because the aspect ratio is
  computed before the size test and that exception is not caught. OpenCV's
  bounding rectangles of contours always have a height of at least 1, so
  this path is reached only by rectangle lists OpenCV does not produce; the
  model keeps it because the rectangles are an input.
- `bubbles1.py` does not remember a box whose text is empty.
- `bubbles.py` writes the `repr` of the text list as the record body.
- `history.py` opens the history file in the locale's encoding. A text that
  encoding cannot represent raises `UnicodeEncodeError`, which is not an
  `IOError`. The exception leaves `write_to_file`, and `main` catches it
  before the texts are marked seen.

## Model

| member | source | states |
|---|---|---|
| PyStr.StripSpec | history.py:57-58 | `s.strip()` is the slice of `s` between a whitespace prefix and a whitespace suffix, and it neither starts nor ends with whitespace |
| PyStr.StripUnique | history.py:57-58 | any slice with only whitespace on both sides and no whitespace at its ends is the stripped string |
| PyStr.StripIdempotent | history.py:58 | stripping a stripped string changes nothing |
| PyStr.StripEmptyIff | history.py:57 | `text.strip()` is empty exactly when every character of `text` is whitespace |
| PyStr.KeepStripped | history.py:57-58 | one OCR reading yields at most one text; it yields none exactly when the reading is all whitespace; a kept text is non-empty and already stripped |
| PyStr.StripKeepSpec | history.py:55-58 | the strip-and-keep loop returns no more texts than readings, each non-empty and stripped, and a text is returned iff it is the stripped form of a reading that is not all whitespace |
| PyStr.StripKeepConcat | bubbles.py:42-47 | strip-and-keep over two batches is the two results in order, so texts keep reading order |
| PyStr.Decimal | bubbles1.py:129 | the counter `i+1` renders as a non-empty string of digits with no leading zero |
| PyStr.DecimalRoundTrip | bubbles1.py:129 | reading the rendered digits back gives the counter |
| PyRepr.QuoteFor | bubbles.py:53 | the quote `repr` chooses never occurs in the text unless the text holds both kinds, and it is the single quote whenever the text has no single quote or has a double quote |
| PyRepr.QuoteAlwaysEscaped | bubbles.py:53 | between the quotes, the quote character only appears right after a backslash, so the first unescaped quote ends the text |
| PyRepr.Repr | bubbles.py:53 | a text's `repr` starts and ends with the quote chosen for it |
| PyRepr.UnescapeEscape | bubbles.py:53 | the characters between the quotes read back as the original text, so escaping loses nothing |
| PyRepr.EscapeOneLine | bubbles.py:53 | no line feed or carriage return survives escaping |
| PyRepr.ReprPlain | bubbles.py:53 | a text of printable characters without backslash or single quote is written as it is, between single quotes |
| PyRepr.ListRepr | bubbles.py:53 | a list's `repr` is bracketed; the empty list is `[]` and a one-text list is `[` + the text's `repr` + `]` |
| PyRepr.ListReprOneLine | bubbles.py:53 | the `repr` of any list of strings is a single line |
| Geometry.SliceRange | bubbles.py:43 | a slice `[start:stop]` selects a range `lo <= hi <= len` |
| Geometry.CropOf | bubbles.py:43 | a crop never leaves the frame |
| Geometry.CropClamped | bubbles1.py:98 | for a box starting inside the frame, the crop covers rows `[y, min(y+h, H))` and columns `[x, min(x+w+extra, W))` |
| Geometry.Crops | history.py:46 | one crop per box |
| Geometry.ReadAll | history.py:55-56 | one OCR reading per crop |
| Geometry.ReadingsSnoc | bubbles.py:42-44 | reading one more box appends that box's reading, so readings keep box order |
| LogRecords.SeparatorIsTwentyDashes | bubbles1.py:130 | the separator line is twenty `-` |
| LogRecords.BubbleLogConcat | bubbles1.py:128-130 | records of a joined batch are the records of its parts, the second numbered on from the first |
| LogRecords.BubbleLogRecordAt | bubbles1.py:128-130 | the k-th record carries `texts[k]` under the number `first + k`, and that number reads back from the digits |
| LogRecords.BubbleRecordLines | bubbles1.py:129-130 | one record is exactly two lines when its text has no line break |
| LogRecords.BubbleLogLines | bubbles1.py:128-130 | n records add exactly 2n lines when no text has a line break |
| LogRecords.StampedLogLines | history.py:65-66 | n timestamped writes add exactly n lines when no text or timestamp has a line break |
| TemplateBubbles.RowHits | bubbles1.py:59-60 | the matches of one score row are exactly its cells at or above the threshold, left to right |
| TemplateBubbles.GridHits | bubbles1.py:59-60 | the matches of one grid are exactly the cells `(x, y)` with `grid[y][x] >= threshold`, in row-major order |
| TemplateBubbles.TemplateHitsMember | bubbles1.py:57-61 | a point is returned iff some template scores its cell at or above the threshold |
| TemplateBubbles.TemplateHitsConcat | bubbles1.py:57-60 | templates contribute their points one after the other, in template order |
| TemplateBubbles.MatchTemplate | bubbles1.py:55-61 | the loop's points are the templates' matches concatenated, and a point is returned iff some template scores it at or above the threshold |
| TemplateBubbles.FirstEnd | bubbles1.py:80-84 | the end chosen for a start is the first in list order that lies to its right less than 30 rows away; none means no end qualifies |
| TemplateBubbles.BubbleFrom | bubbles1.py:79-84 | a start point yields at most one box |
| TemplateBubbles.PairingSpec | bubbles1.py:79-83 | a box is produced iff some start point has a qualifying end, and the box is `(x, y, e.x - x + endW, endH)` for the first such end `e` |
| TemplateBubbles.PairingConcat | bubbles1.py:79-84 | boxes come out in start-point order, no more boxes than start points |
| TemplateBubbles.DetectTextBubbles | bubbles1.py:77-86 | the nested loop with `break` yields exactly the first-end pairing, at most one box per start point |
| TemplateBubbles.PairingExample | bubbles1.py:81-82 | start (10, 40) and end (90, 42) make the box (10, 40, 80 + endW, endH) |
| TemplateBubbles.FirstEndNotNearest | bubbles1.py:80-84 | the first qualifying end in list order wins over a nearer one later in the list |
| TemplateBubbles.IsDuplicate | bubbles1.py:101-105 | a candidate is a duplicate iff some remembered box differs from it by less than 10 in each of x, y, w and h |
| TemplateBubbles.SweepBy | bubbles1.py:97-121 | a call returns exactly as many texts as boxes it remembers, no more than the candidates |
| TemplateBubbles.SweepByAccepted | bubbles1.py:107-115 | each remembered box is a candidate, accepted against the memory as it stood when the box was reached, and paired with its own text |
| TemplateBubbles.SweepByCovers | bubbles1.py:101-115 | after a call, no candidate would be accepted against the grown memory |
| TemplateBubbles.SweepByQuiet | bubbles1.py:101-115 | candidates that would all be rejected produce no text and no new box |
| TemplateBubbles.SweepByConcat | bubbles1.py:97-121 | two calls on consecutive batches, the second against the memory the first left, equal one call on both |
| TemplateBubbles.RememberedGrows | bubbles1.py:102-105 | appending to the memory never makes a duplicate stop being one |
| TemplateBubbles.AcceptsShape | bubbles1.py:101-115 | the acceptance test rejects more as the memory grows, and rejects a box once it is remembered |
| TemplateBubbles.SweepAccepted | bubbles1.py:107-115 | the j-th returned text is the stripped, non-empty OCR text of the j-th appended box, and that box was far from every box remembered before it, including those accepted earlier in the same call |
| TemplateBubbles.SweepCovers | bubbles1.py:101-115 | after a call, every candidate is within tolerance of a remembered box or has no text |
| TemplateBubbles.SweepIdempotent | bubbles1.py:113-115 | a second call with the same candidates and the updated memory returns no text and appends nothing |
| TemplateBubbles.SweepConcat | bubbles1.py:97-121 | splitting the candidates over two calls changes neither the texts nor the boxes appended |
| TemplateBubbles.JitterIsSkipped | bubbles1.py:103 | a bubble seen again shifted by (2, 1) is not read again |
| TemplateBubbles.RegionMemory.constructor | bubbles1.py:136 | the memory starts empty |
| TemplateBubbles.RegionMemory.Append | bubbles1.py:115 | appending adds the box `(x, y, w, h)` at the end and changes nothing else |
| TemplateBubbles.ExtractTextFromBubbles | bubbles1.py:95-122 | the loop returns the sweep's texts and leaves the caller's list as its old content followed by the accepted boxes |
| TemplateBubbles.UpdateDetectedBubbles | bubbles1.py:125-132 | the appended text is the numbered records of the texts from 1, and nothing for no texts |
| TemplateBubbles.TopHalf | bubbles1.py:49-50 | the searched frame keeps the width and exactly `height // 2` rows: at most half, and at least half less one |
| TemplateBubbles.TemplateScraper.constructor | bubbles1.py:136 | a run starts with an empty memory and the existing history |
| TemplateBubbles.TemplateScraper.Cycle | bubbles1.py:137-171 | a missing window stops the loop with nothing changed; otherwise the memory grows by the accepted boxes and the history by the records of their texts |
| ChatHistory.ExtractChatBubbles | history.py:41-50 | the crops are those of exactly the rectangles with `50 < w < 400` and `20 < h < 100`, in contour order |
| ChatHistory.ChatFilterSpec | history.py:42-47 | a rectangle is kept iff it has chat size, and contour order is preserved |
| ChatHistory.ReadTextFromBubbles | history.py:52-60 | the texts are the stripped non-empty readings in bubble order, no more than the bubbles |
| ChatHistory.NewTextsSpec | history.py:84-87 | the new texts are texts of this cycle not seen before; afterwards every text of the cycle is remembered; the same texts again give nothing new |
| ChatHistory.WrittenOnce | history.py:84-87 | a text marked processed in one cycle (`write_to_file` did not raise) is not new in the next one; when `write_to_file` raised, each of the cycle's new texts captured again is new again |
| ChatHistory.WriteToFile | history.py:62-69 | one timestamped line per text, each text at most once, in the order chosen. With no fault every text is written. When `open` fails nothing is written. When line k fails, the k lines before it are written. The call raises iff line k fails with an encoding error and k is a real line |
| ChatHistory.ChatRecorder.Record | history.py:85-87 | the new texts are marked processed unless `write_to_file` raised; the log grows by the lines written |
| ChatHistory.ChatRecorder.constructor | history.py:72 | a run starts with no processed texts |
| ChatHistory.ChatRecorder.Cycle | history.py:74-92 | a failed capture changes nothing; otherwise the log grows by one line per new text written. The processed set grows by the new texts, even when an `IOError` kept their lines out. It stays unchanged when `write_to_file` raised, while the lines written before the failure stay in the log |
| WhiteBubbles.AspectRatio | bubbles.py:33-34 | for positive `h`, `w / h > 2` on reals iff `w > 2h` |
| WhiteBubbles.KeptBounds | bubbles.py:34 | a kept rectangle has `h >= 21`, `w >= 51` and `w >= 2h + 1` |
| WhiteBubbles.DetectWhiteBubbles | bubbles.py:25-37 | with no zero height, the kept rectangles are exactly the bubble-shaped ones in contour order; otherwise the first zero height raises |
| WhiteBubbles.WhiteFilterSpec | bubbles.py:31-35 | a rectangle is kept iff `w > 50`, `h > 20` and `w > 2h`, and contour order is preserved |
| WhiteBubbles.ExtractTextFromBubbles | bubbles.py:40-47 | texts are the stripped non-empty readings through crops widened by 4500, in box order, no more than the boxes |
| WhiteBubbles.WideCrop | bubbles.py:43 | the crop covers rows `[y, min(y+h, H))` and columns `[x, min(x+w+4500, W))` |
| WhiteBubbles.SingleRegion | bubbles.py:62 | called on one region, the result has at most one text: empty iff the reading is all whitespace, otherwise the stripped reading |
| WhiteBubbles.CycleEntries | bubbles.py:62 | one entry per rectangle |
| WhiteBubbles.CycleEntriesSpec | bubbles.py:62 | entry i carries rectangle i and its own list of at most one text, empty iff that crop's reading is all whitespace |
| WhiteBubbles.Bodies | bubbles.py:53 | one record body per entry |
| WhiteBubbles.UpdateDetectedBubbles | bubbles.py:50-54 | the appended text is one numbered record per entry, from 1, whose body is the entry's text list |
| WhiteBubbles.EntriesLines | bubbles.py:52-54 | n entries add exactly 2n lines, whatever their texts hold |
| WhiteBubbles.EmptyEntryWritten | bubbles.py:52-54 | an entry without text is still written, as `Bubble k: []` |
| WhiteBubbles.WhiteScraper.constructor | bubbles.py:57 | a run starts with the existing history |
| WhiteBubbles.WhiteScraper.Cycle | bubbles.py:57-67 | a missing window stops with nothing written; a zero-height contour crashes with nothing written; otherwise one record per bubble-shaped rectangle is appended |

## Left out

- OpenCV pixel work is not modelled: colour conversion, histogram equalisation, blur, thresholds, contours, bounding rectangles, drawing and the correlation of `matchTemplate`. Score grids and rectangle lists are inputs.
- Tesseract and `preprocess_bubble_image` are an oracle from crop to string. OCR errors and exceptions are not modelled.
- Window lookup and screen grabs are not modelled. A capture is an `Option`: `None` is a window that cannot be found or a capture that fails.
- File I/O, debug screenshots, `os.makedirs`, logging and `print` are not modelled. The startup writability check in history.py:97-104 is not modelled either.
- The infinite polling loops, `time.sleep` and `KeyboardInterrupt` are not modelled. Each script's state class models one turn.
- Template loading at startup, and its `ValueError`, is not modelled (bubbles1.py:18-23). The end template's width and height are constructor arguments.
- greyscale.py is not part of this model.
- TemplateBubbles.MatchTemplate: scores are exact reals, not `float32`. Points are compared against 0.8 exactly.
- TemplateBubbles.TemplateScraper.Cycle: `None` stands for any exception that ends the loop. Exceptions raised after some records were written are not modelled.
- WhiteBubbles.DetectWhiteBubbles: `w / float(h) > 2` is modelled on exact reals. Double rounding could only differ from `w > 2h` for heights above 2^52.
- PyRepr.Repr: characters above U+00FF that Python does not print are written as they are. Python writes them as `\uXXXX` or `\UXXXXXXXX`. Examples are U+2028 and U+200B.
- ChatHistory.WriteToFile: a failure is modelled at one line, and the lines before it reach the file. Python buffers the writes, so a failure when the buffer is flushed may also lose earlier lines. That case is not modelled.
- ChatHistory.WriteToFile: the iteration order of a Python set is left open; the method chooses an order and reports it.
- LogRecords.StampedLogLines: the `time.ctime()` format is not modelled. A timestamp is any string the clock supplies for that line.
