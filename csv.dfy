/**
 * The client's CSV export, `convertToCSV`: a header line of the first
 * record's keys, then one line per record of its values, the values of a
 * line joined by commas and the lines by a line feed. A string value is
 * written as `JSON.stringify` writes it, a JSON string (section 7 of
 * RFC 8259); a number is written bare, in decimal.
 *
 * Beside each writer sits a reader that undoes it (JSON string decoding,
 * decimal parsing, splitting at line feeds), and the lemmas prove the round
 * trips.
 */
module Csv {
  import opened Options
  import opened Tables

  /** A field value as the row objects carry it. */
  datatype Value = Text(s: string) | Number(n: int)

  /** A row object: its keys with their values, in key order. */
  type Record = seq<(string, Value)>

  /** A `books` row as `SELECT *` yields it. */
  function BookRecord(b: Book): Record {
    [("id", Number(b.id)), ("title", Text(b.title)), ("price", Number(b.price)),
     ("quantity", Number(b.quantity))]
  }

  /** A `transactions` row as `SELECT *` yields it. */
  function TransactionRecord(t: Transaction): Record {
    [("id", Number(t.id)), ("action", Text(t.action)), ("book", Text(t.book)),
     ("quantity", Number(t.quantity)), ("total", Number(t.total)), ("timestamp", Text(t.timestamp))]
  }

  /** `Object.keys(record)`. */
  function Keys(r: Record): seq<string> {
    seq(|r|, i requires 0 <= i < |r| => r[i].0)
  }

  /** `Object.values(record)`. */
  function Values(r: Record): seq<Value> {
    seq(|r|, i requires 0 <= i < |r| => r[i].1)
  }

  // ---------------------------------------------------------------------------
  // JSON strings

  function HexDigit(d: int): char
    requires 0 <= d < 16
  {
    "0123456789abcdef"[d]
  }

  /** How `JSON.stringify` writes one character inside the quotes. */
  function EscapeChar(c: char): string {
    if c == '"' then "\\\""
    else if c == '\\' then "\\\\"
    else if c == 8 as char then "\\b"
    else if c == 12 as char then "\\f"
    else if c == '\n' then "\\n"
    else if c == '\r' then "\\r"
    else if c == '\t' then "\\t"
    else if (c as int) < 0x20 then "\\u00" + [HexDigit(c as int / 16), HexDigit(c as int % 16)]
    else [c]
  }

  function Escape(s: string): string {
    if s == [] then [] else EscapeChar(s[0]) + Escape(s[1..])
  }

  /** `JSON.stringify(s)` for a string `s`. */
  function JsonQuote(s: string): string {
    "\"" + Escape(s) + "\""
  }

  function HexValue(c: char): (r: Option<int>)
    ensures r.Some? ==> 0 <= r.value < 16
  {
    if '0' <= c <= '9' then Some(c as int - '0' as int)
    else if 'a' <= c <= 'f' then Some(c as int - 'a' as int + 10)
    else if 'A' <= c <= 'F' then Some(c as int - 'A' as int + 10)
    else None
  }

  function Prepend(c: char, r: Option<string>): Option<string> {
    match r
    case None => None
    case Some(s) => Some([c] + s)
  }

  /** The character a two-character escape `\x` stands for, if `x` names one. */
  function ShortEscape(x: char): Option<char> {
    if x == '"' then Some('"')
    else if x == '\\' then Some('\\')
    else if x == '/' then Some('/')
    else if x == 'b' then Some(8 as char)
    else if x == 'f' then Some(12 as char)
    else if x == 'n' then Some('\n')
    else if x == 'r' then Some('\r')
    else if x == 't' then Some('\t')
    else None
  }

  /**
   * Decodes the escape sequence at the start of `s`: the character it stands
   * for and how many characters it takes. A `\u` escape naming a surrogate
   * code unit is refused (this reader does not pair them).
   */
  function DecodeEscape(s: string): (r: Option<(char, nat)>)
    requires s != [] && s[0] == '\\'
    ensures r.Some? ==> 2 <= r.value.1 <= |s|
  {
    if |s| < 2 then None
    else if s[1] == 'u' then
      if |s| < 6 then None
      else match (HexValue(s[2]), HexValue(s[3]), HexValue(s[4]), HexValue(s[5]))
        case (Some(a), Some(b), Some(c), Some(d)) =>
          var v := ((a * 16 + b) * 16 + c) * 16 + d;
          if 0xD800 <= v < 0xE000 then None else Some((v as char, 6))
        case _ => None
    else
      match ShortEscape(s[1])
      case None => None
      case Some(c) => Some((c, 2))
  }

  /**
   * Decodes the characters between the quotes of a JSON string: an unescaped
   * quote or control character is an error, and so is an escape
   * `DecodeEscape` refuses.
   */
  function Unescape(s: string): Option<string>
    decreases |s|
  {
    if s == [] then Some([])
    else if s[0] == '"' || (s[0] as int) < 0x20 then None
    else if s[0] != '\\' then Prepend(s[0], Unescape(s[1..]))
    else
      match DecodeEscape(s)
      case None => None
      case Some((c, n)) => Prepend(c, Unescape(s[n..]))
  }

  /** Reads a JSON string: a quote, the escaped characters, a quote. */
  function JsonUnquote(s: string): Option<string> {
    if 2 <= |s| && s[0] == '"' && s[|s| - 1] == '"' then Unescape(s[1..|s| - 1]) else None
  }

  /** A character written as a two-character escape decodes back to itself. */
  lemma ShortEscapeRoundTrip(c: char, rest: string)
    requires c == '"' || c == '\\' || c == 8 as char || c == 12 as char || c == '\n' || c == '\r' || c == '\t'
    ensures Unescape(EscapeChar(c) + rest) == Prepend(c, Unescape(rest))
  {
    var e := EscapeChar(c) + rest;
    assert |EscapeChar(c)| == 2 && EscapeChar(c)[0] == '\\';
    assert ShortEscape(e[1]) == Some(c);
    assert DecodeEscape(e) == Some((c, 2));
    assert e[2..] == rest;
  }

  /** Any other control character is written `\u00xx` and decodes back to itself. */
  lemma ControlEscapeRoundTrip(c: char, rest: string)
    requires (c as int) < 0x20 && c != 8 as char && c != 12 as char && c != '\n' && c != '\r' && c != '\t'
    ensures Unescape(EscapeChar(c) + rest) == Prepend(c, Unescape(rest))
  {
    var e := EscapeChar(c) + rest;
    var hi, lo := c as int / 16, c as int % 16;
    assert e[..6] == ['\\', 'u', '0', '0', HexDigit(hi), HexDigit(lo)];
    assert e[6..] == rest;
    assert HexValue(HexDigit(hi)) == Some(hi);
    assert HexValue(HexDigit(lo)) == Some(lo);
    assert ((0 * 16 + 0) * 16 + hi) * 16 + lo == c as int;
    assert DecodeEscape(e) == Some((c, 6));
  }

  lemma UnescapeEscapeChar(c: char, rest: string)
    ensures Unescape(EscapeChar(c) + rest) == Prepend(c, Unescape(rest))
  {
    if c == '"' || c == '\\' || c == 8 as char || c == 12 as char || c == '\n' || c == '\r' || c == '\t' {
      ShortEscapeRoundTrip(c, rest);
    } else if (c as int) < 0x20 {
      ControlEscapeRoundTrip(c, rest);
    } else {
      assert EscapeChar(c) == [c];
      assert (EscapeChar(c) + rest)[1..] == rest;
    }
  }

  lemma {:induction false} UnescapeEscape(s: string)
    ensures Unescape(Escape(s)) == Some(s)
  {
    if s != [] {
      UnescapeEscape(s[1..]);
      UnescapeEscapeChar(s[0], Escape(s[1..]));
      assert [s[0]] + s[1..] == s;
    }
  }

  /** Decoding what `JSON.stringify` wrote gives back the original string. */
  lemma JsonQuoteRoundTrip(s: string)
    ensures JsonUnquote(JsonQuote(s)) == Some(s)
  {
    var q := JsonQuote(s);
    assert q[1..|q| - 1] == Escape(s);
    UnescapeEscape(s);
  }

  /** A quoted string holds no raw line feed: a line feed inside it is written `\n`. */
  lemma {:induction false} JsonQuoteHasNoLineFeed(s: string)
    ensures '\n' !in JsonQuote(s)
  {
    EscapeHasNoLineFeed(s);
  }

  lemma {:induction false} EscapeHasNoLineFeed(s: string)
    ensures '\n' !in Escape(s)
  {
    if s != [] {
      EscapeHasNoLineFeed(s[1..]);
      assert '\n' !in EscapeChar(s[0]);
    }
  }

  // ---------------------------------------------------------------------------
  // Numbers

  function Digit(d: int): char
    requires 0 <= d < 10
  {
    "0123456789"[d]
  }

  function NatToString(n: nat): string {
    if n < 10 then [Digit(n)] else NatToString(n / 10) + [Digit(n % 10)]
  }

  /** How a JavaScript integer prints: a minus sign when negative, then its decimal digits. */
  function IntToString(n: int): string {
    if n < 0 then "-" + NatToString(-n) else NatToString(n)
  }

  predicate AllDigits(s: string) {
    forall i :: 0 <= i < |s| ==> '0' <= s[i] <= '9'
  }

  function ParseDigits(s: string): nat
    requires AllDigits(s)
  {
    if s == [] then 0 else ParseDigits(s[..|s| - 1]) * 10 + (s[|s| - 1] as int - '0' as int)
  }

  /** Reads an optionally negative decimal integer. */
  function ParseInt(s: string): Option<int> {
    if s != [] && s[0] == '-' && 1 < |s| && AllDigits(s[1..]) then Some(-(ParseDigits(s[1..]) as int))
    else if s != [] && AllDigits(s) then Some(ParseDigits(s))
    else None
  }

  lemma {:induction false} NatToStringDigits(n: nat)
    ensures NatToString(n) != [] && AllDigits(NatToString(n))
    ensures ParseDigits(NatToString(n)) == n
  {
    DigitValue(n % 10);
    if n >= 10 {
      NatToStringDigits(n / 10);
      var init := NatToString(n / 10);
      var s := init + [Digit(n % 10)];
      assert NatToString(n) == s;
      assert forall i :: 0 <= i < |s| ==> s[i] == if i < |init| then init[i] else Digit(n % 10);
      assert s[..|s| - 1] == init;
      assert ParseDigits(s) == ParseDigits(init) * 10 + n % 10;
    }
  }

  lemma DigitValue(d: int)
    requires 0 <= d < 10
    ensures '0' <= Digit(d) <= '9' && Digit(d) as int - '0' as int == d
  {
  }

  /** Reading a printed integer gives it back. */
  lemma IntToStringRoundTrip(n: int)
    ensures ParseInt(IntToString(n)) == Some(n)
  {
    if n < 0 {
      var d := NatToString(-n);
      NatToStringDigits(-n);
      var s := "-" + d;
      assert s[1..] == d && s[0] == '-' && 1 < |s|;
      assert ParseInt(s) == Some(-(ParseDigits(d) as int));
    } else {
      var d := NatToString(n);
      NatToStringDigits(n);
      assert d[0] != '-';
      assert ParseInt(d) == Some(ParseDigits(d));
    }
  }

  // ---------------------------------------------------------------------------
  // Fields, lines, the whole export

  /** A value as `convertToCSV` writes it: a string JSON-quoted, a number bare. */
  function Field(v: Value): string {
    match v
    case Text(s) => JsonQuote(s)
    case Number(n) => IntToString(n)
  }

  /** Reads a field back: quoted means a string, otherwise a number. */
  function ReadField(f: string): Option<Value> {
    if f != [] && f[0] == '"' then
      match JsonUnquote(f)
      case None => None
      case Some(s) => Some(Text(s))
    else
      match ParseInt(f)
      case None => None
      case Some(n) => Some(Number(n))
  }

  /** Every field reads back as the value it was written from. */
  lemma FieldRoundTrip(v: Value)
    ensures ReadField(Field(v)) == Some(v)
  {
    match v
    case Text(s) =>
      JsonQuoteRoundTrip(s);
    case Number(n) =>
      IntToStringRoundTrip(n);
      NatToStringDigits(if n < 0 then -n else n);
  }

  lemma FieldHasNoLineFeed(v: Value)
    ensures '\n' !in Field(v)
  {
    match v
    case Text(s) =>
      JsonQuoteHasNoLineFeed(s);
    case Number(n) =>
      NatToStringDigits(if n < 0 then -n else n);
      var d := NatToString(if n < 0 then -n else n);
      assert forall i :: 0 <= i < |d| ==> d[i] != '\n';
  }

  /** `parts.join(sep)`: the parts with one separator between neighbours. */
  function Join(parts: seq<string>, sep: char): string {
    if parts == [] then []
    else if |parts| == 1 then parts[0]
    else parts[0] + [sep] + Join(parts[1..], sep)
  }

  /** Cuts a string at every separator; the inverse of `Join` on separator-free parts. */
  function Split(s: string, sep: char): (r: seq<string>)
    ensures |r| >= 1
  {
    if s == [] then [[]]
    else
      var rest := Split(s[1..], sep);
      if s[0] == sep then [[]] + rest else [[s[0]] + rest[0]] + rest[1..]
  }

  lemma {:induction false} SplitPrefix(p: string, tail: string, sep: char)
    requires sep !in p
    ensures Split(p + tail, sep) == [p + Split(tail, sep)[0]] + Split(tail, sep)[1..]
  {
    if p != [] {
      SplitPrefix(p[1..], tail, sep);
      assert (p + tail)[1..] == p[1..] + tail;
      assert [p[0]] + (p[1..] + Split(tail, sep)[0]) == p + Split(tail, sep)[0];
    } else {
      var r := Split(tail, sep);
      assert p + tail == tail;
      assert p + r[0] == r[0];
      assert [r[0]] + r[1..] == r;
    }
  }

  /** Joining separator-free parts and splitting again gives the parts back. */
  lemma {:induction false} SplitJoin(parts: seq<string>, sep: char)
    requires parts != []
    requires forall i :: 0 <= i < |parts| ==> sep !in parts[i]
    ensures Split(Join(parts, sep), sep) == parts
  {
    if |parts| == 1 {
      SplitPrefix(parts[0], [], sep);
      assert parts[0] + [] == parts[0];
    } else {
      var first, rest := parts[0], Join(parts[1..], sep);
      var tail := [sep] + rest;
      assert Join(parts, sep) == first + tail;
      SplitJoin(parts[1..], sep);
      SplitPrefix(first, tail, sep);
      assert tail[1..] == rest;
      assert Split(tail, sep) == [[]] + parts[1..];
      assert first + [] == first;
      assert ([[]] + parts[1..])[1..] == parts[1..];
      assert parts == [first] + parts[1..];
    }
  }

  lemma {:induction false} JoinAvoids(parts: seq<string>, sep: char, c: char)
    requires c != sep && forall i :: 0 <= i < |parts| ==> c !in parts[i]
    ensures c !in Join(parts, sep)
  {
    if |parts| > 1 {
      JoinAvoids(parts[1..], sep, c);
    }
  }

  /** One row of the export: the values written as fields, joined by commas (`Array.toString`). */
  function Line(values: seq<Value>): string {
    Join(Fields(values), ',')
  }

  function Fields(values: seq<Value>): seq<string> {
    seq(|values|, i requires 0 <= i < |values| => Field(values[i]))
  }

  /** The header row: the keys are strings, so each is quoted. */
  function HeaderLine(keys: seq<string>): string {
    Line(KeyValues(keys))
  }

  function KeyValues(keys: seq<string>): seq<Value> {
    seq(|keys|, i requires 0 <= i < |keys| => Text(keys[i]))
  }

  /** The lines of the export: the header, then one per record. */
  function Lines(data: seq<Record>): seq<string>
    requires data != []
  {
    [HeaderLine(Keys(data[0]))] + seq(|data|, i requires 0 <= i < |data| => Line(Values(data[i])))
  }

  /**
   * `convertToCSV`: the lines joined by line feeds. An empty list has no
   * first record to take keys from; the source throws there, which is `None`.
   */
  function ConvertToCSV(data: seq<Record>): (csv: Option<string>)
    ensures csv.None? <==> data == []
  {
    if data == [] then None else Some(Join(Lines(data), '\n'))
  }

  /** `exportCurrentInventory`: the export of the `books` snapshot; an empty table throws. */
  function ExportInventory(bs: seq<Book>): (csv: Option<string>)
    ensures csv.None? <==> bs == []
  {
    ConvertToCSV(seq(|bs|, i requires 0 <= i < |bs| => BookRecord(bs[i])))
  }

  /** `exportTodaysStatistics`: the export of the `transactions` snapshot; an empty table throws. */
  function ExportLedger(ts: seq<Transaction>): (csv: Option<string>)
    ensures csv.None? <==> ts == []
  {
    ConvertToCSV(seq(|ts|, i requires 0 <= i < |ts| => TransactionRecord(ts[i])))
  }

  lemma LineHasNoLineFeed(values: seq<Value>)
    ensures '\n' !in Line(values)
  {
    var fields := Fields(values);
    forall i | 0 <= i < |fields| ensures '\n' !in fields[i] {
      FieldHasNoLineFeed(values[i]);
    }
    JoinAvoids(fields, ',', '\n');
  }

  /**
   * The export of N records has N + 1 lines: first the first record's keys,
   * each quoted, then the values of record i on line i + 1.
   */
  lemma ExportLines(data: seq<Record>)
    requires data != []
    ensures var lines := Split(ConvertToCSV(data).value, '\n');
      |lines| == |data| + 1 &&
      lines[0] == HeaderLine(Keys(data[0])) &&
      forall i :: 0 <= i < |data| ==> lines[i + 1] == Line(Values(data[i]))
  {
    var lines := Lines(data);
    forall i | 0 <= i < |lines| ensures '\n' !in lines[i] {
      if i == 0 {
        LineHasNoLineFeed(KeyValues(Keys(data[0])));
      } else {
        assert lines[i] == Line(Values(data[i - 1]));
        LineHasNoLineFeed(Values(data[i - 1]));
      }
    }
    SplitJoin(lines, '\n');
  }

  /** A string with no quote, backslash or control character is quoted as it stands. */
  lemma {:induction false} PlainQuote(s: string)
    requires forall i :: 0 <= i < |s| ==> s[i] != '"' && s[i] != '\\' && 0x20 <= s[i] as int
    ensures JsonQuote(s) == "\"" + s + "\""
  {
    PlainEscape(s);
  }

  lemma {:induction false} PlainEscape(s: string)
    requires forall i :: 0 <= i < |s| ==> s[i] != '"' && s[i] != '\\' && 0x20 <= s[i] as int
    ensures Escape(s) == s
  {
    if s != [] {
      PlainEscape(s[1..]);
      assert [s[0]] + s[1..] == s;
    }
  }

  /** The header line writes each key quoted, in key order, joined by commas. */
  lemma HeaderQuotesKeys(keys: seq<string>)
    ensures var f := Fields(KeyValues(keys));
      HeaderLine(keys) == Join(f, ',') && |f| == |keys| &&
      forall i :: 0 <= i < |keys| ==> f[i] == JsonQuote(keys[i])
  {
  }

  /** The inventory export's header names the columns of `books`, in order. */
  lemma InventoryHeader(b: Book)
    ensures Keys(BookRecord(b)) == ["id", "title", "price", "quantity"]
  {
  }

  /** The ledger export's header names the columns of `transactions`, in order. */
  lemma LedgerHeader(t: Transaction)
    ensures Keys(TransactionRecord(t)) == ["id", "action", "book", "quantity", "total", "timestamp"]
  {
  }
}
