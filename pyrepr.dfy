/** Python's `repr` of a string and of a list of strings, which is what an
    f-string writes for a list. */
module PyRepr {

  /** The quote `repr` puts around a string: double quotes when the string
      holds a single quote and no double quote, single quotes otherwise. The
      chosen quote never occurs in the string unless the string holds both
      kinds, and single quotes are used whenever they do not occur or a double
      quote does. */
  function QuoteFor(s: string): (q: char)
    ensures q == '\'' || q == '"'
    ensures !('\'' in s && '"' in s) ==> q !in s
    ensures '\'' !in s ==> q == '\''
    ensures '"' in s ==> q == '\''
  {
    if '\'' in s && '"' !in s then '"' else '\''
  }

  /** The characters below U+0100 that `str.isprintable` rejects and `repr`
      writes as `\xhh`, other than tab, line feed and carriage return: the C0
      controls, DEL, the C1 controls, the no-break space and the soft hyphen. */
  predicate HexEscaped(c: char) {
    (c < ' ' && c != '\t' && c != '\n' && c != '\r') || ('\U{7F}' <= c <= '\U{A0}') || c == '\U{AD}'
  }

  /** The lower-case hexadecimal digit for `d`. */
  function HexDigit(d: nat): (ch: char)
    requires d < 16
    ensures ('0' <= ch <= '9') || ('a' <= ch <= 'f')
  {
    if d < 10 then ('0' as int + d) as char else ('a' as int + d - 10) as char
  }

  /** The value of a hexadecimal digit. */
  function HexValue(ch: char): (d: nat)
    ensures d < 16
  {
    if '0' <= ch <= '9' then ch as int - '0' as int
    else if 'a' <= ch <= 'f' then ch as int - 'a' as int + 10
    else 0
  }

  lemma HexDigitValue(d: nat)
    requires d < 16
    ensures HexValue(HexDigit(d)) == d
  {
  }

  /** How `repr` writes one character of a string quoted with `q`. */
  function EscapeChar(c: char, q: char): (r: string)
    ensures |r| >= 1
  {
    if c == '\\' then "\\\\"
    else if c == q then ['\\', q]
    else if c == '\t' then "\\t"
    else if c == '\n' then "\\n"
    else if c == '\r' then "\\r"
    else if HexEscaped(c) then ['\\', 'x', HexDigit(c as int / 16), HexDigit(c as int % 16)]
    else [c]
  }

  /** The characters of a string as `repr` writes them between quotes `q`. */
  function Escape(s: string, q: char): string {
    if s == [] then [] else EscapeChar(s[0], q) + Escape(s[1..], q)
  }

  /** Inside the quotes, the quote character only ever appears right after a
      backslash, so the first unescaped quote closes the `repr`. */
  lemma {:induction false} QuoteAlwaysEscaped(s: string, q: char)
    requires q == '\'' || q == '"'
    ensures forall i :: 0 <= i < |Escape(s, q)| && Escape(s, q)[i] == q ==>
      0 < i && Escape(s, q)[i - 1] == '\\'
    decreases |s|
  {
    if s != [] {
      QuoteAlwaysEscaped(s[1..], q);
      var head := EscapeChar(s[0], q);
      var tail := Escape(s[1..], q);
      assert Escape(s, q) == head + tail;
      forall i | 0 <= i < |head + tail| && (head + tail)[i] == q
        ensures 0 < i && (head + tail)[i - 1] == '\\'
      {
        if i < |head| {
          assert head[i] == q;
        } else {
          assert tail[i - |head|] == q;
        }
      }
    }
  }

  /** `repr` of a string: the escaped characters between the chosen quotes.
      Characters above U+00FF are written as they are. */
  function Repr(s: string): (r: string)
    ensures |r| >= 2 && r[0] == QuoteFor(s) && r[|r| - 1] == QuoteFor(s)
  {
    var q := QuoteFor(s);
    [q] + Escape(s, q) + [q]
  }

  /** Reads back the text between the quotes of a `repr`. */
  function Unescape(s: string): string
    decreases |s|
  {
    if s == [] then []
    else if s[0] == '\\' && |s| >= 4 && s[1] == 'x' then
      [(HexValue(s[2]) * 16 + HexValue(s[3])) as char] + Unescape(s[4..])
    else if s[0] == '\\' && |s| >= 2 then
      [if s[1] == 't' then '\t' else if s[1] == 'n' then '\n' else if s[1] == 'r' then '\r' else s[1]]
      + Unescape(s[2..])
    else [s[0]] + Unescape(s[1..])
  }

  lemma UnescapeEscapeChar(c: char, q: char, rest: string)
    requires q == '\'' || q == '"'
    ensures Unescape(EscapeChar(c, q) + rest) == [c] + Unescape(rest)
  {
    var e := EscapeChar(c, q);
    if HexEscaped(c) && c != '\\' && c != q {
      HexDigitValue(c as int / 16);
      HexDigitValue(c as int % 16);
      assert (e + rest)[4..] == rest;
    } else if |e| == 2 {
      assert (e + rest)[2..] == rest;
    } else {
      assert (e + rest)[1..] == rest;
    }
  }

  /** Escaping loses nothing: the characters between the quotes read back as
      the original string, whichever quote was chosen. */
  lemma {:induction false} UnescapeEscape(s: string, q: char)
    requires q == '\'' || q == '"'
    ensures Unescape(Escape(s, q)) == s
    decreases |s|
  {
    if s != [] {
      UnescapeEscapeChar(s[0], q, Escape(s[1..], q));
      UnescapeEscape(s[1..], q);
      assert s == [s[0]] + s[1..];
    }
  }

  /** No line break survives escaping, so a `repr` is one line. */
  lemma {:induction false} EscapeOneLine(s: string, q: char)
    requires q == '\'' || q == '"'
    ensures '\n' !in Escape(s, q) && '\r' !in Escape(s, q)
    decreases |s|
  {
    if s != [] {
      EscapeOneLine(s[1..], q);
    }
  }

  /** A string of printable characters with no backslash and no single quote
      is written as it is, between single quotes. */
  lemma {:induction false} ReprPlain(s: string)
    requires forall i :: 0 <= i < |s| ==>
      s[i] != '\\' && s[i] != '\'' && ' ' <= s[i] && !HexEscaped(s[i])
    ensures Repr(s) == "'" + s + "'"
  {
    EscapePlain(s);
  }

  lemma {:induction false} EscapePlain(s: string)
    requires forall i :: 0 <= i < |s| ==>
      s[i] != '\\' && s[i] != '\'' && ' ' <= s[i] && !HexEscaped(s[i])
    ensures Escape(s, '\'') == s
    decreases |s|
  {
    if s != [] {
      EscapePlain(s[1..]);
      assert s == [s[0]] + s[1..];
    }
  }

  /** `repr` of a Python list of strings: the `repr` of each item, separated
      by ", ", between brackets. */
  function ListRepr(items: seq<string>): (r: string)
    ensures |r| >= 2 && r[0] == '[' && r[|r| - 1] == ']'
    ensures items == [] ==> r == "[]"
    ensures |items| == 1 ==> r == "[" + Repr(items[0]) + "]"
  {
    "[" + QuotedItems(items) + "]"
  }

  function QuotedItems(items: seq<string>): string {
    if items == [] then ""
    else if |items| == 1 then Repr(items[0])
    else Repr(items[0]) + ", " + QuotedItems(items[1..])
  }

  lemma {:induction false} QuotedItemsOneLine(items: seq<string>)
    ensures '\n' !in QuotedItems(items)
    decreases |items|
  {
    if items != [] {
      var q := QuoteFor(items[0]);
      EscapeOneLine(items[0], q);
      if |items| > 1 {
        QuotedItemsOneLine(items[1..]);
      }
    }
  }

  /** The `repr` of any list of strings is a single line, whatever its items
      hold. */
  lemma ListReprOneLine(items: seq<string>)
    ensures '\n' !in ListRepr(items)
  {
    QuotedItemsOneLine(items);
  }
}
