/**
 * Timestamps: the five `strptime` formats `_parse_timestamp` tries in order, the canonical
 * `%Y-%m-%dT%H:%M:%SZ` form it rewrites a match into (the UTC form of RFC 3339, section 5.6),
 * and the `datetime.fromisoformat(s.replace('Z', '+00:00'))` reading the time filter and the
 * statistics use. Only zero-padded fields are modelled.
 */
module Timestamps {
  import opened Wrappers
  import opened Text

  /** A calendar date and wall-clock time to the second (`datetime` without microseconds). */
  datatype DateTime = DateTime(year: int, month: int, day: int, hour: int, minute: int, second: int)

  predicate IsLeapYear(y: int) {
    y % 4 == 0 && (y % 100 != 0 || y % 400 == 0)
  }

  function DaysInMonth(y: int, m: int): int
    requires 1 <= m <= 12
  {
    if m == 2 then (if IsLeapYear(y) then 29 else 28)
    else if m == 4 || m == 6 || m == 9 || m == 11 then 30
    else 31
  }

  /** The fields `datetime(...)` accepts: anything else makes `strptime` raise `ValueError`. */
  predicate ValidDateTime(dt: DateTime) {
    && 1 <= dt.year <= 9999
    && 1 <= dt.month <= 12
    && 1 <= dt.day <= DaysInMonth(dt.year, dt.month)
    && 0 <= dt.hour < 24
    && 0 <= dt.minute < 60
    && 0 <= dt.second < 60
  }

  /** Chronological rank: for valid date-times, comparing ranks is comparing the field tuples. */
  function Rank(dt: DateTime): int {
    ((((dt.year * 13 + dt.month) * 32 + dt.day) * 24 + dt.hour) * 60 + dt.minute) * 60 + dt.second
  }

  /** The `n` decimal digits at offset `i` of `s`, as a number. */
  function Num(s: string, i: nat, n: nat): Option<nat> {
    if i + n <= |s| && AllDigits(s[i..i + n]) then Some(DigitsValue(s[i..i + n])) else None
  }

  /** A format's literal character; `strptime` matches with `re.IGNORECASE`. */
  predicate Lit(s: string, i: nat, c: char) {
    i < |s| && LowerChar(s[i]) == LowerChar(c)
  }

  function Check(dt: DateTime): Option<DateTime> {
    if ValidDateTime(dt) then Some(dt) else None
  }

  /** `%Y-%m-%d` at offset 0 followed by `%H:%M:%S` at offset 11. */
  function YmdHms(s: string): Option<DateTime> {
    var y, mo, d := Num(s, 0, 4), Num(s, 5, 2), Num(s, 8, 2);
    var h, mi, se := Num(s, 11, 2), Num(s, 14, 2), Num(s, 17, 2);
    if y.None? || mo.None? || d.None? || h.None? || mi.None? || se.None? then None
    else if !Lit(s, 4, '-') || !Lit(s, 7, '-') || !Lit(s, 13, ':') || !Lit(s, 16, ':') then None
    else Check(DateTime(y.value, mo.value, d.value, h.value, mi.value, se.value))
  }

  /** `%m/%d/%Y` at offset 0 followed by a separator at 10 and `HH:%M:%S` at 11, hour as read. */
  function MdyHms(s: string): Option<DateTime> {
    var mo, d, y := Num(s, 0, 2), Num(s, 3, 2), Num(s, 6, 4);
    var h, mi, se := Num(s, 11, 2), Num(s, 14, 2), Num(s, 17, 2);
    if y.None? || mo.None? || d.None? || h.None? || mi.None? || se.None? then None
    else if !Lit(s, 2, '/') || !Lit(s, 5, '/') || !Lit(s, 13, ':') || !Lit(s, 16, ':') then None
    else Some(DateTime(y.value, mo.value, d.value, h.value, mi.value, se.value))
  }

  /** The formats of `_parse_timestamp`, in the order it tries them. */
  datatype Format =
    | YmdSpace    // "%Y-%m-%d %H:%M:%S"
    | YmdT        // "%Y-%m-%dT%H:%M:%S"
    | YmdTZ       // "%Y-%m-%dT%H:%M:%SZ"
    | MdySpace    // "%m/%d/%Y %H:%M:%S"
    | MdyMeridiem // "%m/%d/%Y %I:%M:%S %p"

  const Formats: seq<Format> := [YmdSpace, YmdT, YmdTZ, MdySpace, MdyMeridiem]

  /** `datetime.strptime(s, fmt)`, `None` where it raises `ValueError`. */
  function Match(f: Format, s: string): Option<DateTime> {
    match f
    case YmdSpace =>
      if |s| == 19 && IsSpace(s[10]) then YmdHms(s) else None
    case YmdT =>
      if |s| == 19 && Lit(s, 10, 'T') then YmdHms(s) else None
    case YmdTZ =>
      if |s| == 20 && Lit(s, 10, 'T') && Lit(s, 19, 'Z') then YmdHms(s) else None
    case MdySpace =>
      if |s| == 19 && IsSpace(s[10]) then
        var dt :- MdyHms(s);
        Check(dt)
      else None
    case MdyMeridiem =>
      if |s| == 22 && IsSpace(s[10]) && IsSpace(s[19]) && Lit(s, 21, 'M')
         && (Lit(s, 20, 'A') || Lit(s, 20, 'P')) then
        var dt :- MdyHms(s);
        if !(1 <= dt.hour <= 12) then None
        else
          var pm := Lit(s, 20, 'P');
          var hour := if pm then (if dt.hour == 12 then 12 else dt.hour + 12)
                      else (if dt.hour == 12 then 0 else dt.hour);
          Check(dt.(hour := hour))
      else None
  }

  /** The result of the first format in `fs` that matches `s`, first match wins. */
  function FirstMatch(fs: seq<Format>, s: string): (r: Option<DateTime>)
    ensures r.None? <==> forall i | 0 <= i < |fs| :: Match(fs[i], s).None?
    ensures r.Some? ==> exists i | 0 <= i < |fs| ::
                          Match(fs[i], s) == r && forall j | 0 <= j < i :: Match(fs[j], s).None?
    ensures r.Some? ==> ValidDateTime(r.value)
  {
    if fs == [] then None
    else if Match(fs[0], s).Some? then Match(fs[0], s)
    else
      var r := FirstMatch(fs[1..], s);
      assert forall i | 1 <= i < |fs| :: fs[i] == fs[1..][i - 1];
      r
  }

  lemma MatchIsValid(f: Format, s: string)
    ensures Match(f, s).Some? ==> ValidDateTime(Match(f, s).value)
  {
  }

  /** `%Y-%m-%dT%H:%M:%S` of a valid date-time. */
  function RenderDateTime(dt: DateTime): (r: string)
    requires ValidDateTime(dt)
    ensures |r| == 19
  {
    Pad4(dt.year) + "-" + Pad2(dt.month) + "-" + Pad2(dt.day) + "T"
    + Pad2(dt.hour) + ":" + Pad2(dt.minute) + ":" + Pad2(dt.second)
  }

  /** `dt.strftime("%Y-%m-%dT%H:%M:%SZ")`: the canonical UTC form. */
  function Render(dt: DateTime): (r: string)
    requires ValidDateTime(dt)
    ensures |r| == 20
  {
    RenderDateTime(dt) + "Z"
  }

  /** The pieces of `RenderDateTime(dt)`, by offset. */
  lemma RenderDateTimeParts(dt: DateTime)
    requires ValidDateTime(dt)
    ensures var r := RenderDateTime(dt);
      && r[0..4] == Pad4(dt.year) && r[5..7] == Pad2(dt.month) && r[8..10] == Pad2(dt.day)
      && r[11..13] == Pad2(dt.hour) && r[14..16] == Pad2(dt.minute) && r[17..19] == Pad2(dt.second)
      && r[4] == '-' && r[7] == '-' && r[10] == 'T' && r[13] == ':' && r[16] == ':'
  {
    var r := RenderDateTime(dt);
    var p1 := Pad4(dt.year) + "-";
    var p2 := p1 + Pad2(dt.month);
    var p3 := p2 + "-";
    var p4 := p3 + Pad2(dt.day);
    var p5 := p4 + "T";
    var p6 := p5 + Pad2(dt.hour);
    var p7 := p6 + ":";
    var p8 := p7 + Pad2(dt.minute);
    var p9 := p8 + ":";
    assert r == p9 + Pad2(dt.second);
    assert r[..17] == p9 && p9[..16] == p8 && p8[..14] == p7 && p7[..13] == p6;
    assert p6[..11] == p5 && p5[..10] == p4 && p4[..8] == p3 && p3[..7] == p2 && p2[..5] == p1;
    assert r[17..19] == Pad2(dt.second);
    assert r[14..16] == p8[14..16] == Pad2(dt.minute);
    assert r[11..13] == p6[11..13] == Pad2(dt.hour);
    assert r[8..10] == p4[8..10] == Pad2(dt.day);
    assert r[5..7] == p2[5..7] == Pad2(dt.month);
    assert r[0..4] == p1[0..4] == Pad4(dt.year);
    assert r[4] == p1[4] && r[7] == p3[7] && r[10] == p5[10] && r[13] == p7[13] && r[16] == p9[16];
  }

  /** `s` starts with the 19 characters `RenderDateTime(dt)`. */
  lemma YmdHmsOfRendered(dt: DateTime, s: string)
    requires ValidDateTime(dt) && |s| >= 19 && s[..19] == RenderDateTime(dt)
    ensures YmdHms(s) == Some(dt)
  {
    var r := RenderDateTime(dt);
    RenderDateTimeParts(dt);
    assert s[0..4] == r[0..4] && s[5..7] == r[5..7] && s[8..10] == r[8..10];
    assert s[11..13] == r[11..13] && s[14..16] == r[14..16] && s[17..19] == r[17..19];
  }

  /** The canonical form is read back by the third format and by no earlier one. */
  lemma RenderMatches(dt: DateTime)
    requires ValidDateTime(dt)
    ensures FirstMatch(Formats, Render(dt)) == Some(dt)
  {
    var r := Render(dt);
    RenderDateTimeParts(dt);
    assert r[..19] == RenderDateTime(dt);
    YmdHmsOfRendered(dt, r);
    assert Match(Formats[0], r).None? && Match(Formats[1], r).None?;
    assert Match(Formats[2], r) == Some(dt);
    assert Formats[1..][1..][0] == Formats[2];
  }

  /**
   * `_parse_timestamp`: `None` for a missing, empty or blank cell; the canonical form of the
   * first format that matches the stripped text; otherwise the text exactly as given.
   */
  function ParseTimestamp(cell: Option<string>): (r: Option<string>)
    ensures r.None? <==> cell.None? || IsBlank(cell.value)
    ensures r.Some? ==> r.value != []
  {
    if cell.None? || cell.value == [] || IsBlank(cell.value) then None
    else
      match FirstMatch(Formats, Strip(cell.value))
      case Some(dt) => Some(Render(dt))
      case None => Some(cell.value)
  }

  /** The canonical `YYYY-MM-DDTHH:MM:SSZ` shape, denoting a valid date-time. */
  ghost predicate IsCanonical(t: string) {
    exists dt | ValidDateTime(dt) :: t == Render(dt)
  }

  /**
   * What `_parse_timestamp` returns for non-blank text: on a match, a canonical string that the
   * formats read back as the very date-time the first match read; else the input.
   */
  lemma ParseTimestampOutcome(s: string)
    requires !IsBlank(s)
    ensures var r := ParseTimestamp(Some(s)).value;
      if FirstMatch(Formats, Strip(s)).Some?
      then IsCanonical(r) && FirstMatch(Formats, r) == FirstMatch(Formats, Strip(s))
      else r == s
  {
    assert s != [];
    var m := FirstMatch(Formats, Strip(s));
    if m.Some? {
      assert ParseTimestamp(Some(s)).value == Render(m.value);
      RenderMatches(m.value);
    }
  }

  /** `_parse_timestamp` is idempotent. */
  lemma ParseTimestampIdempotent(cell: Option<string>)
    ensures ParseTimestamp(ParseTimestamp(cell)) == ParseTimestamp(cell)
  {
    var r := ParseTimestamp(cell);
    if r.Some? {
      var s := cell.value;
      var m := FirstMatch(Formats, Strip(s));
      if m.Some? {
        var t := Render(m.value);
        RenderDateTimeParts(m.value);
        assert t[0] == Pad4(m.value.year)[0];
        StripNoSpaceEnds(t);
        IsBlankIffAllSpace(t);
        RenderMatches(m.value);
      }
    }
  }

  // ---- datetime.fromisoformat(s.replace('Z', '+00:00')) ----

  /** A `datetime` from `fromisoformat`: aware (UTC offset) or naive. */
  datatype IsoTime = IsoTime(dt: DateTime, aware: bool)

  /** `s.replace('Z', '+00:00')`. */
  function ReplaceZ(s: string): (r: string)
    ensures 'Z' !in r
  {
    if s == [] then []
    else (if s[0] == 'Z' then "+00:00" else [s[0]]) + ReplaceZ(s[1..])
  }

  /** Replacing leaves a string without `Z` unchanged. */
  lemma {:induction false} ReplaceZIdentity(s: string)
    requires 'Z' !in s
    ensures ReplaceZ(s) == s
  {
    if s != [] {
      assert s[0] in s;
      assert forall c | c in s[1..] :: c in s;
      ReplaceZIdentity(s[1..]);
      assert s == [s[0]] + s[1..];
    }
  }

  lemma {:induction false} ReplaceZConcat(a: string, b: string)
    ensures ReplaceZ(a + b) == ReplaceZ(a) + ReplaceZ(b)
  {
    if a != [] {
      assert (a + b)[0] == a[0] && (a + b)[1..] == a[1..] + b;
      ReplaceZConcat(a[1..], b);
    } else {
      assert a + b == b;
    }
  }

  /**
   * `datetime.fromisoformat`, for `YYYY-MM-DD`, or that followed by any one separator character
   * and `HH:MM` or `HH:MM:SS`, then optionally `+00:00`. Other forms are not modelled.
   */
  function FromIsoFormat(s: string): Option<IsoTime> {
    var y, mo, d := Num(s, 0, 4), Num(s, 5, 2), Num(s, 8, 2);
    if |s| < 10 || y.None? || mo.None? || d.None? || s[4] != '-' || s[7] != '-' then None
    else if |s| == 10 then
      var dt :- Check(DateTime(y.value, mo.value, d.value, 0, 0, 0));
      Some(IsoTime(dt, false))
    else
      var rest := s[11..];
      var aware := EndsWith(rest, "+00:00");
      var clock := if aware then rest[..|rest| - 6] else rest;
      var h, mi := Num(clock, 0, 2), Num(clock, 3, 2);
      var se := if |clock| == 8 then Num(clock, 6, 2) else Some(0);
      if !(|clock| == 5 || (|clock| == 8 && clock[5] == ':')) || h.None? || mi.None? || se.None?
         || clock[2] != ':' then None
      else
        var dt :- Check(DateTime(y.value, mo.value, d.value, h.value, mi.value, se.value));
        Some(IsoTime(dt, aware))
  }

  /** `datetime.fromisoformat(s.replace('Z', '+00:00'))`, `None` where it raises. */
  function ParseIso(s: string): (r: Option<IsoTime>)
    ensures r.Some? ==> ValidDateTime(r.value.dt)
  {
    FromIsoFormat(ReplaceZ(s))
  }

  /** `t.isoformat()` for a whole-second `datetime`: `+00:00` follows an aware one. */
  function RenderIso(t: IsoTime): (r: string)
    requires ValidDateTime(t.dt)
  {
    RenderDateTime(t.dt) + (if t.aware then "+00:00" else "")
  }

  /** No `Z` occurs in the rendered date and time, so `replace('Z', ...)` leaves them alone. */
  lemma RenderDateTimeHasNoZ(dt: DateTime)
    requires ValidDateTime(dt)
    ensures ReplaceZ(RenderDateTime(dt)) == RenderDateTime(dt)
  {
    var r := RenderDateTime(dt);
    RenderDateTimeParts(dt);
    assert 'Z' !in r by {
      assert forall i | 0 <= i < 4 :: r[i] == r[0..4][i];
      assert forall i | 5 <= i < 7 :: r[i] == r[5..7][i - 5];
      assert forall i | 8 <= i < 10 :: r[i] == r[8..10][i - 8];
      assert forall i | 11 <= i < 13 :: r[i] == r[11..13][i - 11];
      assert forall i | 14 <= i < 16 :: r[i] == r[14..16][i - 14];
      assert forall i | 17 <= i < 19 :: r[i] == r[17..19][i - 17];
    }
    ReplaceZIdentity(r);
  }

  /** `fromisoformat` reads the rendered date and time, with or without the UTC offset. */
  lemma FromIsoFormatOfRendered(dt: DateTime, aware: bool)
    requires ValidDateTime(dt)
    ensures FromIsoFormat(RenderDateTime(dt) + (if aware then "+00:00" else ""))
            == Some(IsoTime(dt, aware))
  {
    var r := RenderDateTime(dt);
    RenderDateTimeParts(dt);
    var s := r + (if aware then "+00:00" else "");
    assert s[0..4] == r[0..4] && s[5..7] == r[5..7] && s[8..10] == r[8..10];
    var rest := s[11..];
    OffsetOfRendered(dt, aware, rest);
    ClockOfRendered(dt, r[11..19]);
  }

  /** After the date and separator, the offset is present exactly when it was written, and the clock precedes it. */
  lemma OffsetOfRendered(dt: DateTime, aware: bool, rest: string)
    requires ValidDateTime(dt)
    requires rest == (RenderDateTime(dt) + (if aware then "+00:00" else ""))[11..]
    ensures EndsWith(rest, "+00:00") == aware
    ensures (if aware then rest[..|rest| - 6] else rest) == RenderDateTime(dt)[11..19]
  {
    var r := RenderDateTime(dt);
    RenderDateTimeParts(dt);
    assert rest == r[11..19] + (if aware then "+00:00" else "");
    if !aware {
      assert rest[2..][0] == r[13];
    }
  }

  /** The rendered clock reads as the hour, minute and second it was written from. */
  lemma ClockOfRendered(dt: DateTime, clock: string)
    requires ValidDateTime(dt) && clock == RenderDateTime(dt)[11..19]
    ensures |clock| == 8 && clock[2] == ':' && clock[5] == ':'
    ensures Num(clock, 0, 2) == Some(dt.hour) && Num(clock, 3, 2) == Some(dt.minute)
    ensures Num(clock, 6, 2) == Some(dt.second)
  {
    var r := RenderDateTime(dt);
    RenderDateTimeParts(dt);
    assert clock[0..2] == r[11..13];
    assert clock[3..5] == r[14..16];
    assert clock[6..8] == r[17..19];
  }

  /** The canonical form reads back through `fromisoformat` as the same, UTC-aware, instant. */
  lemma ParseIsoOfRender(dt: DateTime)
    requires ValidDateTime(dt)
    ensures ParseIso(Render(dt)) == Some(IsoTime(dt, true))
  {
    var r := RenderDateTime(dt);
    assert ReplaceZ(r + "Z") == r + "+00:00" by {
      ReplaceZConcat(r, "Z");
      RenderDateTimeHasNoZ(dt);
      assert ReplaceZ("Z") == "+00:00" + ReplaceZ([]);
    }
    FromIsoFormatOfRendered(dt, true);
  }

  /** `isoformat()` output reads back through `fromisoformat` unchanged. */
  lemma ParseIsoOfRenderIso(t: IsoTime)
    requires ValidDateTime(t.dt)
    ensures ParseIso(RenderIso(t)) == Some(t)
  {
    var suffix := if t.aware then "+00:00" else "";
    RenderDateTimeHasNoZ(t.dt);
    ReplaceZConcat(RenderDateTime(t.dt), suffix);
    ReplaceZIdentity(suffix);
    FromIsoFormatOfRendered(t.dt, t.aware);
  }
}
