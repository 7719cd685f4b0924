/** The text the scripts append to their history files. Two formats exist:
    numbered records `"Bubble {n}: {text}\n"` followed by a line of twenty
    dashes, numbered from 1 on every call; and timestamped lines
    `"{timestamp}: {text}\n"`. The model describes the appended string, not the file. */
module LogRecords {

  import opened Util
  import opened PyStr

  /** `"-" * 20` */
  const Separator: string := "--------------------"

  lemma SeparatorIsTwentyDashes()
    ensures |Separator| == 20 && forall k :: 0 <= k < 20 ==> Separator[k] == '-'
  {
  }

  function BubbleRecord(n: nat, body: string): string {
    "Bubble " + Decimal(n) + ": " + body + "\n" + Separator + "\n"
  }

  function Records(): (nat, string) -> string {
    (n: nat, body: string) => BubbleRecord(n, body)
  }

  /** The records for `bodies`, numbered `first`, `first + 1`, ... in order. */
  function BubbleLog(bodies: seq<string>, first: nat): string
  {
    Numbered(bodies, first, Records())
  }

  lemma BubbleLogSnoc(bodies: seq<string>, i: nat, first: nat)
    requires i < |bodies|
    ensures BubbleLog(bodies[..i + 1], first) == BubbleLog(bodies[..i], first) + BubbleRecord(first + i, bodies[i])
  {
    NumberedSnoc(bodies, i, first, Records());
  }

  /** Writing two batches one after the other, with the second numbered on from
      the first, gives the records of the joined batch. */
  lemma BubbleLogConcat(a: seq<string>, b: seq<string>, first: nat)
    ensures BubbleLog(a + b, first) == BubbleLog(a, first) + BubbleLog(b, first + |a|)
  {
    NumberedConcat(a, b, first, Records());
  }

  /** The `k`-th record (from 0) of a batch carries `bodies[k]` under the number
      `first + k`, which reads back from its digits. */
  lemma {:induction false} BubbleLogRecordAt(bodies: seq<string>, first: nat, k: nat)
    requires k < |bodies|
    ensures BubbleLog(bodies, first) ==
      BubbleLog(bodies[..k], first) + BubbleRecord(first + k, bodies[k]) + BubbleLog(bodies[k + 1..], first + k + 1)
    ensures DecimalValue(Decimal(first + k)) == first + k
  {
    DecimalRoundTrip(first + k);
    var pre := BubbleLog(bodies[..k], first);
    var post := BubbleLog(bodies[k + 1..], first + k + 1);
    assert bodies == bodies[..k] + [bodies[k]] + bodies[k + 1..];
    BubbleLogConcat(bodies[..k] + [bodies[k]], bodies[k + 1..], first);
    BubbleLogConcat(bodies[..k], [bodies[k]], first);
    assert BubbleLog([bodies[k]], first + k) == BubbleRecord(first + k, bodies[k]) by {
      assert [bodies[k]][..0] == [];
    }
    assert BubbleLog(bodies, first) == pre + BubbleRecord(first + k, bodies[k]) + post;
  }

  predicate NoNewline(s: string) {
    '\n' !in s
  }

  lemma DecimalHasNoNewline(n: nat)
    ensures NoNewline(Decimal(n))
  {
    var d := Decimal(n);
    assert forall k :: 0 <= k < |d| ==> d[k] != '\n';
  }

  /** A record is two lines when its body has no line break. */
  lemma BubbleRecordLines(n: nat, body: string)
    requires NoNewline(body)
    ensures Occurrences(BubbleRecord(n, body), '\n') == 2
  {
    DecimalHasNoNewline(n);
    var head := "Bubble " + Decimal(n) + ": " + body;
    assert '\n' !in head;
    assert '\n' !in Separator;
    OccurrencesAbsent(head, '\n');
    OccurrencesAbsent(Separator, '\n');
    OccurrencesConcat(head, "\n", '\n');
    OccurrencesConcat(head + "\n", Separator, '\n');
    OccurrencesConcat(head + "\n" + Separator, "\n", '\n');
  }

  /** Each record is exactly two lines when its body has no line break, so a
      batch of n records adds exactly 2n lines. */
  lemma {:induction false} BubbleLogLines(bodies: seq<string>, first: nat)
    requires forall i :: 0 <= i < |bodies| ==> NoNewline(bodies[i])
    ensures Occurrences(BubbleLog(bodies, first), '\n') == 2 * |bodies|
    decreases |bodies|
  {
    if bodies != [] {
      var n := |bodies| - 1;
      BubbleLogLines(bodies[..n], first);
      BubbleRecordLines(first + n, bodies[n]);
      OccurrencesConcat(BubbleLog(bodies[..n], first), BubbleRecord(first + n, bodies[n]), '\n');
    }
  }

  function StampedLine(stamp: string, text: string): string {
    stamp + ": " + text + "\n"
  }

  function Lines(clock: nat -> string): (nat, string) -> string {
    (k: nat, text: string) => StampedLine(clock(k), text)
  }

  /** One timestamped line per text, in order; the `k`-th line carries `clock(k)`,
      the clock reading taken when that line is written. */
  function StampedLog(texts: seq<string>, clock: nat -> string): string
  {
    Numbered(texts, 0, Lines(clock))
  }

  lemma StampedLogSnoc(texts: seq<string>, i: nat, clock: nat -> string)
    requires i < |texts|
    ensures StampedLog(texts[..i + 1], clock) == StampedLog(texts[..i], clock) + StampedLine(clock(i), texts[i])
  {
    NumberedSnoc(texts, i, 0, Lines(clock));
  }

  /** One line per text, when neither texts nor timestamps contain line breaks. */
  lemma {:induction false} StampedLogLines(texts: seq<string>, clock: nat -> string)
    requires forall i :: 0 <= i < |texts| ==> NoNewline(texts[i]) && NoNewline(clock(i))
    ensures Occurrences(StampedLog(texts, clock), '\n') == |texts|
    decreases |texts|
  {
    if texts != [] {
      var n := |texts| - 1;
      StampedLogLines(texts[..n], clock);
      var head := clock(n) + ": " + texts[n];
      assert '\n' !in head;
      OccurrencesAbsent(head, '\n');
      OccurrencesConcat(head, "\n", '\n');
      OccurrencesConcat(StampedLog(texts[..n], clock), StampedLine(clock(n), texts[n]), '\n');
    }
  }
}
