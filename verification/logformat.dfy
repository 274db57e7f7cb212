/**
 * The activity log's text format: a header line written once when the file
 * is created, then one comma-separated record per call, each terminated by
 * a newline. A log file is modelled as its sequence of lines (without the
 * terminators), or None when the path does not exist.
 */
module LogFormat {
  import opened Wrappers

  /** The header line written to a newly created log file: "timestamp,keyboard_count,mouse_count,idle_time_seconds". */
  const Header: string := "timestamp" + "," + "keyboard_count" + "," + "mouse_count" + "," + "idle_time_seconds"

  /** One snapshot: epoch seconds, the two counters, and the idle time in seconds. */
  datatype LogRecord = LogRecord(timestamp: nat, keyboardCount: nat, mouseCount: nat, idleTimeSeconds: nat)

  predicate IsDigit(c: char)
  {
    '0' <= c <= '9'
  }

  predicate AllDigits(s: string)
  {
    forall i :: 0 <= i < |s| ==> IsDigit(s[i])
  }

  function DigitChar(d: nat): (c: char)
    requires d < 10
    ensures IsDigit(c) && c as int - '0' as int == d
  {
    ('0' as int + d) as char
  }

  /**
   * `{}` formatting of an unsigned integer: its decimal digits, most
   * significant first, with no sign and no leading zero.
   */
  function Decimal(n: nat): (s: string)
    ensures |s| > 0 && AllDigits(s)
    ensures s[0] == '0' ==> n == 0 && s == "0"
    decreases n
  {
    if n < 10 then [DigitChar(n)] else Decimal(n / 10) + [DigitChar(n % 10)]
  }

  /** The number a string of decimal digits denotes. */
  function DigitsValue(s: string): nat
    requires AllDigits(s)
    decreases |s|
  {
    if s == [] then 0 else DigitsValue(s[..|s| - 1]) * 10 + (s[|s| - 1] as int - '0' as int)
  }

  /** Decimal formatting loses nothing: reading the digits back gives the number. */
  lemma {:induction false} DecimalRoundTrip(n: nat)
    ensures DigitsValue(Decimal(n)) == n
    decreases n
  {
    var s := Decimal(n);
    if n < 10 {
      assert s[..|s| - 1] == [];
    } else {
      DecimalRoundTrip(n / 10);
      assert s[..|s| - 1] == Decimal(n / 10);
    }
  }

  /** The record line, the `"{},{},{},{}"` of save_activity_log without its newline. */
  function RecordLine(r: LogRecord): string
  {
    Decimal(r.timestamp) + "," + Decimal(r.keyboardCount) + "," + Decimal(r.mouseCount) + "," + Decimal(r.idleTimeSeconds)
  }

  /** The comma-separated fields of a line. */
  function Split(s: string): (fields: seq<string>)
    ensures |fields| > 0
    decreases |s|
  {
    if s == [] then [""]
    else
      var rest := Split(s[1..]);
      if s[0] == ',' then [""] + rest else [[s[0]] + rest[0]] + rest[1..]
  }

  /** A field without commas ends at the first comma that follows it. */
  lemma {:induction false} SplitAtComma(field: string, rest: string)
    requires ',' !in field
    ensures Split(field + "," + rest) == [field] + Split(rest)
    decreases |field|
  {
    if field == [] {
      assert field + "," + rest == [','] + rest;
      assert ([','] + rest)[1..] == rest;
    } else {
      var line := field + "," + rest;
      assert line[0] == field[0] != ',';
      assert line[1..] == field[1..] + "," + rest;
      assert ',' !in field[1..];
      SplitAtComma(field[1..], rest);
      assert [field[0]] + field[1..] == field;
    }
  }

  /** A field without commas is a line of one field. */
  lemma {:induction false} SplitWithoutComma(field: string)
    requires ',' !in field
    ensures Split(field) == [field]
    decreases |field|
  {
    if field != [] {
      SplitWithoutComma(field[1..]);
      assert [field[0]] + field[1..] == field;
    }
  }

  /** Reads a record line back; None for anything that is not four decimal fields. */
  function ParseRecord(line: string): Option<LogRecord>
  {
    var f := Split(line);
    if |f| == 4 && (forall i :: 0 <= i < 4 ==> |f[i]| > 0 && AllDigits(f[i])) then
      Some(LogRecord(DigitsValue(f[0]), DigitsValue(f[1]), DigitsValue(f[2]), DigitsValue(f[3])))
    else
      None
  }

  lemma NoCommaInDecimal(n: nat)
    ensures ',' !in Decimal(n)
  {
  }

  /** Four comma-free fields joined by commas split back into those fields. */
  lemma SplitFourFields(a: string, b: string, c: string, d: string)
    requires ',' !in a && ',' !in b && ',' !in c && ',' !in d
    ensures Split(a + "," + b + "," + c + "," + d) == [a, b, c, d]
  {
    assert a + "," + b + "," + c + "," + d == a + "," + (b + "," + (c + "," + d));
    SplitAtComma(a, b + "," + (c + "," + d));
    SplitAtComma(b, c + "," + d);
    SplitAtComma(c, d);
    SplitWithoutComma(d);
  }

  /** Every record line reads back as the record it was written from. */
  lemma RecordRoundTrip(r: LogRecord)
    ensures ParseRecord(RecordLine(r)) == Some(r)
  {
    var a, b, c, d := Decimal(r.timestamp), Decimal(r.keyboardCount), Decimal(r.mouseCount), Decimal(r.idleTimeSeconds);
    NoCommaInDecimal(r.timestamp);
    NoCommaInDecimal(r.keyboardCount);
    NoCommaInDecimal(r.mouseCount);
    NoCommaInDecimal(r.idleTimeSeconds);
    SplitFourFields(a, b, c, d);
    var f := Split(RecordLine(r));
    assert f == [a, b, c, d];
    assert forall i :: 0 <= i < 4 ==> |f[i]| > 0 && AllDigits(f[i]);
    DecimalRoundTrip(r.timestamp);
    DecimalRoundTrip(r.keyboardCount);
    DecimalRoundTrip(r.mouseCount);
    DecimalRoundTrip(r.idleTimeSeconds);
  }

  /** The header names the four record fields, in record order, and is not itself a record. */
  lemma HeaderNamesFields()
    ensures Split(Header) == ["timestamp", "keyboard_count", "mouse_count", "idle_time_seconds"]
    ensures ParseRecord(Header) == None
  {
    var a, b, c, d := "timestamp", "keyboard_count", "mouse_count", "idle_time_seconds";
    assert Header == a + "," + b + "," + c + "," + d;
    SplitFourFields(a, b, c, d);
    assert !IsDigit(a[0]);
  }

  /** The bytes of a log file: every line followed by a newline. */
  function Text(lines: seq<string>): string
    decreases |lines|
  {
    if lines == [] then "" else lines[0] + "\n" + Text(lines[1..])
  }

  /** Appending lines appends their text: the file only ever grows at its end. */
  lemma {:induction false} TextAppend(front: seq<string>, back: seq<string>)
    ensures Text(front + back) == Text(front) + Text(back)
    decreases |front|
  {
    if front != [] {
      assert (front + back)[1..] == front[1..] + back;
      TextAppend(front[1..], back);
    } else {
      assert front + back == back;
    }
  }
}
