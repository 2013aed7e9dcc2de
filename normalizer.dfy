/**
 * The row normaliser of `JLECmdParser`: one CSV row (a `csv.DictReader` dictionary) becomes at
 * most one `JumpListEvent` (`_parse_csv_row`), with integers read by `_parse_int` and times by
 * `_parse_timestamp`; `csv_to_events` keeps, in order, the events of the rows that yield one.
 */
module Normalizer {
  import opened Wrappers
  import opened Text
  import opened Timestamps
  import opened Events

  /**
   * A `csv.DictReader` row: one entry per header column. A row shorter than the header maps the
   * missing columns to `None`.
   */
  type Row = map<string, Option<string>>

  /** `row.get(k)`: `None` for an absent column and for a missing cell. */
  function Get(row: Row, k: string): (r: Option<string>)
    ensures r.Some? <==> k in row && row[k].Some?
  {
    if k in row then row[k] else None
  }

  /** `row.get(k, default)`: the default only for an absent column; a missing cell stays `None`. */
  function GetOr(row: Row, k: string, default: string): (r: Option<string>)
    ensures k !in row ==> r == Some(default)
    ensures k in row ==> r == row[k]
  {
    if k in row then row[k] else Some(default)
  }

  /** Python truthiness of an optional string: present and non-empty. */
  predicate Truthy(v: Option<string>) {
    v.Some? && v.value != []
  }

  /** `a or b`: `a` when it is truthy, else `b`. */
  function Or(a: Option<string>, b: Option<string>): (r: Option<string>)
    ensures r == a || r == b
    ensures Truthy(a) ==> r == a
  {
    if Truthy(a) then a else b
  }

  // ---- _parse_int ----

  /**
   * The body `int()` accepts after the sign: decimal digits, single underscores allowed between
   * two digits.
   */
  predicate IsDigitText(s: string) {
    && s != [] && IsDigit(s[0]) && IsDigit(s[|s| - 1])
    && (forall i | 0 <= i < |s| :: IsDigit(s[i]) || s[i] == '_')
    && (forall i, j | 0 <= i && j == i + 1 < |s| :: !(s[i] == '_' && s[j] == '_'))
  }

  /** The digits of `s`, underscores dropped. */
  function DigitsOnly(s: string): (r: string)
    requires forall i | 0 <= i < |s| :: IsDigit(s[i]) || s[i] == '_'
    ensures AllDigits(r) && |r| <= |s|
  {
    if s == [] then []
    else if s[|s| - 1] == '_' then DigitsOnly(s[..|s| - 1])
    else DigitsOnly(s[..|s| - 1]) + [s[|s| - 1]]
  }

  /** The number `int()` reads from text without a sign, `None` where it raises `ValueError`. */
  function UnsignedOfText(body: string): Option<nat> {
    if IsDigitText(body) then Some(DigitsValue(DigitsOnly(body))) else None
  }

  /** The number read, negated under a minus sign. */
  function Signed(negative: bool, magnitude: Option<nat>): Option<int> {
    match magnitude
    case None => None
    case Some(n) =>
      var m: int := n;
      Some(if negative then -m else m)
  }

  /** The signed number `int(t)` gives for stripped text, `None` where it raises `ValueError`. */
  function IntOfText(t: string): Option<int> {
    var body := if t != [] && (t[0] == '-' || t[0] == '+') then t[1..] else t;
    Signed(t != [] && t[0] == '-', UnsignedOfText(body))
  }

  /** `_parse_int`: `None` for a missing, empty or blank cell and for text `int()` refuses. */
  function ParseInt(cell: Option<string>): (r: Option<int>)
    ensures cell.None? || IsBlank(cell.value) ==> r.None?
  {
    if cell.None? || cell.value == [] || IsBlank(cell.value) then None
    else IntOfText(Strip(cell.value))
  }

  /** `str(n)` for any integer. */
  function IntToString(n: int): (s: string)
    ensures s != []
  {
    if n < 0 then "-" + NatToString(-n) else NatToString(n)
  }

  lemma {:induction false} DigitsOnlyOfDigits(s: string)
    requires AllDigits(s)
    ensures DigitsOnly(s) == s
  {
    if s != [] {
      DigitsOnlyOfDigits(s[..|s| - 1]);
      assert s == s[..|s| - 1] + [s[|s| - 1]];
    }
  }

  lemma DigitsAreDigitText(s: string)
    requires s != [] && AllDigits(s)
    ensures IsDigitText(s)
  {
  }

  /** Decimal digits read back as the number they denote. */
  lemma UnsignedOfDigits(digits: string)
    requires digits != [] && AllDigits(digits)
    ensures UnsignedOfText(digits) == Some(DigitsValue(digits))
  {
    DigitsOnlyOfDigits(digits);
    DigitsAreDigitText(digits);
  }

  /** Unsigned decimal text reads back as the number it denotes. */
  lemma IntOfNatString(m: nat)
    ensures IntOfText(NatToString(m)) == Some(m)
  {
    var digits := NatToString(m);
    NatToStringValue(m);
    UnsignedOfDigits(digits);
    assert digits[0] != '-' && digits[0] != '+' by {
      assert IsDigit(digits[0]);
    }
  }

  /** Decimal text reads back as the number it denotes. */
  lemma IntOfIntString(n: int)
    ensures IntOfText(IntToString(n)) == Some(n)
  {
    if n < 0 {
      IntOfNegativeString(n);
    } else {
      IntOfNatString(n);
    }
  }

  /** The text of a negative number reads back as that number. */
  lemma IntOfNegativeString(n: int)
    requires n < 0
    ensures IntOfText(IntToString(n)) == Some(n)
  {
    var digits := NatToString(-n);
    assert IntToString(n) == "-" + digits;
    assert DigitsValue(digits) == -n by {
      NatToStringValue(-n);
    }
    assert IntOfText("-" + digits) == Some(-(DigitsValue(digits) as int)) by {
      IntOfNegativeText(digits);
    }
  }

  /** A minus sign before decimal digits negates the number they denote. */
  lemma IntOfNegativeText(digits: string)
    requires digits != [] && AllDigits(digits)
    ensures IntOfText("-" + digits) == Some(-(DigitsValue(digits) as int))
  {
    var t := "-" + digits;
    assert t[0] == '-' && t[1..] == digits;
    NegativeText(t, digits);
    UnsignedOfDigits(digits);
  }

  /** Text that starts with a minus sign reads as the negated number after it. */
  lemma NegativeText(t: string, body: string)
    requires t != [] && t[0] == '-' && t[1..] == body
    ensures IntOfText(t) == Signed(true, UnsignedOfText(body))
  {
  }

  /** `_parse_int(str(n)) == n`: every integer's decimal text reads back as that integer. */
  lemma ParseIntOfString(n: int)
    ensures ParseInt(Some(IntToString(n))) == Some(n)
  {
    var s := IntToString(n);
    assert IsDigit(s[|s| - 1]);
    assert !IsSpace(s[0]) && !IsSpace(s[|s| - 1]);
    StripNoSpaceEnds(s);
    assert !IsBlank(s);
    IntOfIntString(n);
  }

  /** Text with a character that is neither a digit, a sign nor an underscore is not an integer. */
  lemma ParseIntRejects(cell: string, i: nat)
    requires i < |Strip(cell)|
    requires var c := Strip(cell)[i]; !IsDigit(c) && c != '_' && c != '-' && c != '+'
    ensures ParseInt(Some(cell)) == None
  {
    var t := Strip(cell);
    var body := if t != [] && (t[0] == '-' || t[0] == '+') then t[1..] else t;
    if body != t {
      assert i > 0 && body[i - 1] == t[i];
    }
  }

  // ---- _parse_csv_row and csv_to_events ----

  /** The raw text `_parse_csv_row` takes the event's time from: modified, else accessed, else created. */
  function TimeCell(row: Row): Option<string> {
    Or(Get(row, "TargetModified"), Or(Get(row, "TargetAccessed"), Get(row, "TargetCreated")))
  }

  /** `_parse_csv_row`: `None` for a row without a path or without a usable time. */
  function ParseCsvRow(row: Row): (r: Option<JumpListEvent>)
    ensures r.Some? ==> && r.value.source == "jumplist" && r.value.artifact == "recent_item"
                        && r.value.timestampUtc != [] && r.value.targetPath != []
                        && Truthy(Get(row, "Path")) && r.value.targetPath == Get(row, "Path").value
  {
    if !Truthy(Get(row, "Path")) then None
    else
      var timestamp := ParseTimestamp(TimeCell(row));
      if timestamp.None? then None
      else
        Some(JumpListEvent(
          source := "jumplist",
          artifact := "recent_item",
          timestampUtc := timestamp.value,
          appId := GetOr(row, "AppId", "unknown"),
          targetPath := Get(row, "Path").value,
          targetCreatedUtc := ParseTimestamp(Get(row, "TargetCreated")),
          targetModifiedUtc := ParseTimestamp(Get(row, "TargetModified")),
          targetAccessedUtc := ParseTimestamp(Get(row, "TargetAccessed")),
          fileSize := ParseInt(Get(row, "FileSize")),
          machineId := Get(row, "MachineID"),
          volumeSerial := Get(row, "VolumeSerialNumber"),
          entryNumber := ParseInt(Get(row, "EntryNumber"))))
  }

  /** `a or b` over the normalised times: the first that is present. */
  function FirstPresent(a: Option<string>, b: Option<string>, c: Option<string>): Option<string> {
    if a.Some? then a else if b.Some? then b else c
  }

  /**
   * A row is kept exactly when it has a path and the first non-empty of its modified, accessed
   * and created cells is not blank; the event's time is then the first of its three normalised
   * times that is present.
   */
  lemma RowKept(row: Row)
    ensures ParseCsvRow(row).Some? <==>
              Truthy(Get(row, "Path")) && TimeCell(row).Some? && !IsBlank(TimeCell(row).value)
    ensures ParseCsvRow(row).Some? ==>
              var e := ParseCsvRow(row).value;
              Some(e.timestampUtc) == FirstPresent(e.targetModifiedUtc, e.targetAccessedUtc, e.targetCreatedUtc)
  {
    var m, a, c := Get(row, "TargetModified"), Get(row, "TargetAccessed"), Get(row, "TargetCreated");
    if !Truthy(m) {
      assert ParseTimestamp(m).None?;
      if !Truthy(a) {
        assert ParseTimestamp(a).None?;
      }
    }
  }

  /**
   * A modified cell of white space only is chosen over the other two and then is no time at all:
   * the row is dropped, whatever its accessed and created cells hold.
   */
  lemma BlankModifiedDropsRow(row: Row)
    requires Truthy(Get(row, "TargetModified")) && IsBlank(Get(row, "TargetModified").value)
    ensures ParseCsvRow(row) == None
  {
  }

  /** A time no format reads is kept as it was written, not dropped. */
  lemma UnreadTimeKept(row: Row)
    requires Truthy(Get(row, "Path"))
    requires Truthy(Get(row, "TargetModified")) && !IsBlank(Get(row, "TargetModified").value)
    requires FirstMatch(Formats, Strip(Get(row, "TargetModified").value)).None?
    ensures ParseCsvRow(row).Some?
    ensures ParseCsvRow(row).value.timestampUtc == Get(row, "TargetModified").value
  {
  }

  /** Without an `AppId` column the event's application is `"unknown"`. */
  lemma MissingAppIdColumn(row: Row)
    requires "AppId" !in row && ParseCsvRow(row).Some?
    ensures ParseCsvRow(row).value.appId == Some("unknown")
  {
  }

  /** The events of the rows that yield one, in row order (`csv_to_events` as a value). */
  function NormalizeRows(rows: seq<Row>): (events: seq<JumpListEvent>)
    ensures |events| <= |rows|
  {
    if rows == [] then []
    else
      var init := NormalizeRows(rows[..|rows| - 1]);
      match ParseCsvRow(rows[|rows| - 1])
      case Some(e) => init + [e]
      case None => init
  }

  /** Every normalised event is the event of one of the rows. */
  lemma {:induction false} NormalizedFromRows(rows: seq<Row>)
    ensures forall e | e in NormalizeRows(rows) :: exists r | r in rows :: ParseCsvRow(r) == Some(e)
  {
    if rows != [] {
      var init := rows[..|rows| - 1];
      NormalizedFromRows(init);
      forall e | e in NormalizeRows(rows)
        ensures exists r | r in rows :: ParseCsvRow(r) == Some(e)
      {
        if e in NormalizeRows(init) {
          var r :| r in init && ParseCsvRow(r) == Some(e);
          assert r in rows;
        } else {
          assert ParseCsvRow(rows[|rows| - 1]) == Some(e);
        }
      }
    }
  }

  /** Every row that yields an event contributes it: no usable row is lost. */
  lemma {:induction false} RowsNormalized(rows: seq<Row>, i: nat)
    requires i < |rows| && ParseCsvRow(rows[i]).Some?
    ensures ParseCsvRow(rows[i]).value in NormalizeRows(rows)
  {
    var init := rows[..|rows| - 1];
    if i < |rows| - 1 {
      assert init[i] == rows[i];
      RowsNormalized(init, i);
    }
  }

  /** Normalising a concatenation normalises each part. */
  lemma {:induction false} NormalizeRowsAppend(a: seq<Row>, b: seq<Row>)
    ensures NormalizeRows(a + b) == NormalizeRows(a) + NormalizeRows(b)
  {
    if b == [] {
      assert a + b == a;
    } else {
      var b0 := b[..|b| - 1];
      assert (a + b)[..|a + b| - 1] == a + b0;
      NormalizeRowsAppend(a, b0);
    }
  }

  /** `csv_to_events` over the rows `csv.DictReader` yields. */
  method CsvToEvents(rows: seq<Row>) returns (events: seq<JumpListEvent>)
    ensures events == NormalizeRows(rows)
  {
    events := [];
    var i := 0;
    while i < |rows|
      invariant 0 <= i <= |rows|
      invariant events == NormalizeRows(rows[..i])
    {
      var event := ParseCsvRow(rows[i]);
      assert rows[..i + 1][..i] == rows[..i];
      if event.Some? {
        events := events + [event.value];
      }
      i := i + 1;
    }
    assert rows[..i] == rows;
  }
}
