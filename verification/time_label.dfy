/** The clock label of a log timestamp (`getTimeString`): "hh:mm AM" or
    "hh:mm PM", taken from the first time of day written in the cell. */
module TimeLabels {
  import opened Wrappers
  import opened Text
  import opened DateKeys

  /** The captures of `/(\d{1,2}):(\d{2})(?::(\d{2}))?\s*(AM|PM|am|pm)?/`
      that the label uses: hours, minutes and the optional marker. */
  datatype TimeMatch = TimeMatch(hour: string, minute: string, marker: Option<string>)

  predicate IsMarker(m: string) {
    m == "AM" || m == "PM" || m == "am" || m == "pm"
  }

  /** The pattern tried at position `i` of `s`. The hour run is followed by a
      colon, so it never gives a digit back; the optional seconds, spaces
      and marker are taken greedily and can never make the match fail. */
  function TimeAt(s: string, i: nat): (r: Option<TimeMatch>)
    requires i <= |s|
    ensures r.Some? ==> 1 <= |r.value.hour| <= 2 && AllDigits(r.value.hour)
    ensures r.Some? ==> |r.value.minute| == 2 && AllDigits(r.value.minute)
    ensures r.Some? && r.value.marker.Some? ==> IsMarker(r.value.marker.value)
  {
    var t := s[i..];
    var h := LeadDigits(t, 2);
    if h == 0 || h + 3 > |t| || t[h] != ':' || !IsDigit(t[h + 1]) || !IsDigit(t[h + 2]) then None
    else
      var minute := t[h + 1..h + 3];
      assert minute[0] == t[h + 1] && minute[1] == t[h + 2];
      TwoDigits(minute);
      var j := h + 3;
      var afterSeconds := if j + 3 <= |t| && t[j] == ':' && IsDigit(t[j + 1]) && IsDigit(t[j + 2]) then j + 3 else j;
      var rest := TrimStart(t[afterSeconds..]);
      var marker := if |rest| >= 2 && IsMarker(rest[..2]) then Some(rest[..2]) else None;
      Some(TimeMatch(t[..h], minute, marker))
  }

  /** The leftmost position at or after `from` where the pattern matches:
      `String.prototype.match` without the global flag. */
  function FirstTimeAt(s: string, from: nat): (r: Option<nat>)
    requires from <= |s|
    ensures r.Some? ==> from <= r.value <= |s| && TimeAt(s, r.value).Some?
    ensures r.Some? ==> forall j :: from <= j < r.value ==> TimeAt(s, j).None?
    ensures r.None? <==> forall j :: from <= j <= |s| ==> TimeAt(s, j).None?
    decreases |s| - from
  {
    if TimeAt(s, from).Some? then Some(from)
    else if from == |s| then None
    else FirstTimeAt(s, from + 1)
  }

  function UpperMarker(m: string): string {
    if m == "am" then "AM" else if m == "pm" then "PM" else m
  }

  /** A 24-hour reading as a 12-hour label: noon and later are PM, and
      hour 0 (or any multiple of 12) shows as 12. */
  function Clock12(hour: nat, minute: string): (r: string)
    requires |minute| == 2 && AllDigits(minute)
    ensures IsLabel(r)
    ensures DecimalValue(r[..2]) == (if hour % 12 == 0 then 12 else hour % 12)
    ensures r[3..5] == minute
    ensures r[6..] == "PM" <==> hour >= 12
  {
    var h := hour % 12;
    var shown := if h == 0 then 12 else h;
    var half := if hour >= 12 then "PM" else "AM";
    LabelShape(shown, minute, half);
    var r := Pad2(shown) + ":" + minute + " " + half;
    assert r[..2] == Pad2(shown) && r[3..5] == minute && r[6..] == half;
    r
  }

  /** The label when the cell names its own marker: the hour is kept as
      written (padded), the marker upper-cased. */
  function MarkedLabel(hour: nat, minute: string, marker: string): (r: string)
    requires hour < 100 && |minute| == 2 && AllDigits(minute) && IsMarker(marker)
    ensures IsLabel(r)
    ensures DecimalValue(r[..2]) == hour && r[3..5] == minute
    ensures r[6..] == "AM" <==> marker == "AM" || marker == "am"
  {
    LabelShape(hour, minute, UpperMarker(marker));
    var r := Pad2(hour) + ":" + minute + " " + UpperMarker(marker);
    assert r[..2] == Pad2(hour) && r[3..5] == minute && r[6..] == UpperMarker(marker);
    r
  }

  /** `getTimeString`: "" for an empty cell or when no time is found. */
  function TimeLabel(value: string, parse: DateParser): (r: string)
    ensures r == "" || IsLabel(r)
    ensures value == "" ==> r == ""
  {
    if value == "" then ""
    else
      var s := Prepare(value);
      match FirstTimeAt(s, 0)
      case Some(i) =>
        var m := TimeAt(s, i).value;
        DecimalValueSmall(m.hour);
        var hour := DecimalValue(m.hour);
        (match m.marker
         case Some(a) => MarkedLabel(hour, m.minute, a)
         case None => Clock12(hour, m.minute))
      case None =>
        match parse(s)
        case Some(t) => Clock12(t.hour, Pad2(t.minute))
        case None => ""
  }

  /** A label: two digits, a colon, two digits, a space, AM or PM. */
  predicate IsLabel(r: string) {
    && |r| == 8
    && AllDigits(r[..2]) && r[2] == ':' && AllDigits(r[3..5]) && r[5] == ' '
    && (r[6..] == "AM" || r[6..] == "PM")
  }

  lemma LabelShape(hour: nat, minute: string, marker: string)
    requires hour < 100 && |minute| == 2 && AllDigits(minute)
    requires marker == "AM" || marker == "PM"
    ensures IsLabel(Pad2(hour) + ":" + minute + " " + marker)
  {
    var r := Pad2(hour) + ":" + minute + " " + marker;
    assert r[..2] == Pad2(hour) && r[3..5] == minute && r[6..] == marker;
  }

  /** The 24-hour reading a label denotes. */
  function Hour24(r: string): nat
    requires IsLabel(r)
  {
    DecimalValue(r[..2]) % 12 + (if r[6..] == "PM" then 12 else 0)
  }

  /** The 12-hour label of a 24-hour time denotes that same time: it shows
      hours 1 to 12 and its marker recovers the half of the day. */
  lemma Clock12RoundTrip(hour: nat, minute: string)
    requires hour < 24 && |minute| == 2 && AllDigits(minute)
    ensures IsLabel(Clock12(hour, minute))
    ensures 1 <= DecimalValue(Clock12(hour, minute)[..2]) <= 12
    ensures Hour24(Clock12(hour, minute)) == hour
    ensures Clock12(hour, minute)[3..5] == minute
  {
  }

  /** Every character of a label lies between '0' and 'Z' except the
      space at position 5. */
  lemma LabelChars(r: string)
    requires IsLabel(r)
    ensures forall i :: 0 <= i < |r| && i != 5 ==> '0' <= r[i] <= 'Z'
    ensures r[5] == ' ' && IsDigit(r[0]) && IsDigit(r[1]) && IsDigit(r[3]) && IsDigit(r[4])
  {
    assert r[0] == r[..2][0] && r[1] == r[..2][1];
    assert r[3] == r[3..5][0] && r[4] == r[3..5][1];
    assert r[6] == r[6..][0] && r[7] == r[6..][1];
  }

  /** A label holds no bullet and neither starts nor ends with white space,
      so preparing it changes nothing. */
  lemma PrepareLabel(r: string)
    requires IsLabel(r)
    ensures Prepare(r) == r
  {
    LabelChars(r);
    PreparedAlready(r);
  }

  /** The pattern reads a label back whole, from its first character. */
  lemma TimeAtLabel(r: string)
    requires IsLabel(r)
    ensures TimeAt(r, 0) == Some(TimeMatch(r[..2], r[3..5], Some(r[6..])))
  {
    LabelPieces(r);
    assert r[0..] == r;
  }

  /** What the pattern looks at in a label: two hour digits, the colon, two
      minute digits, no seconds, one space, then the marker. */
  lemma LabelPieces(r: string)
    requires IsLabel(r)
    ensures LeadDigits(r, 2) == 2 && r[2] == ':' && IsDigit(r[3]) && IsDigit(r[4])
    ensures r[5] != ':' && TrimStart(r[5..]) == r[6..] && IsMarker(r[6..][..2])
  {
    LabelChars(r);
    LeadDigitsExact(r, 2, 2);
    assert r[6..] == r[5..][1..];
    assert r[6] == r[5..][1];
    TrimStartStep(r[5..]);
    assert r[6..][..2] == r[6..];
  }

  /** A label is its own label. */
  lemma LabelOfLabel(r: string, parse: DateParser)
    requires IsLabel(r)
    ensures TimeLabel(r, parse) == r
  {
    ReadLabel(r);
    ReadLabelMatch(r);
    LabelOfMarkedMatch(r, parse, 0, TimeMatch(r[..2], r[3..5], Some(r[6..])));
    RebuildLabel(r);
  }

  lemma ReadLabel(r: string)
    requires IsLabel(r)
    ensures r != "" && FirstTimeAt(Prepare(r), 0) == Some(0)
  {
    PrepareLabel(r);
    FirstOfLabel(Prepare(r), r);
  }

  lemma FirstOfLabel(p: string, r: string)
    requires p == r && IsLabel(r)
    ensures FirstTimeAt(p, 0) == Some(0)
  {
    TimeAtLabel(r);
    FirstTimeAtStart(r);
  }

  lemma ReadLabelMatch(r: string)
    requires IsLabel(r)
    ensures TimeAt(Prepare(r), 0) == Some(TimeMatch(r[..2], r[3..5], Some(r[6..])))
  {
    PrepareLabel(r);
    TimeAtLabel(r);
  }

  lemma FirstTimeAtStart(s: string)
    requires TimeAt(s, 0).Some?
    ensures FirstTimeAt(s, 0) == Some(0)
  {
  }

  /** The label of a cell whose first time carries a marker. */
  lemma LabelOfMarkedMatch(value: string, parse: DateParser, i: nat, m: TimeMatch)
    requires value != "" && FirstTimeAt(Prepare(value), 0) == Some(i)
    requires TimeAt(Prepare(value), i) == Some(m) && m.marker.Some?
    ensures DecimalValue(m.hour) < 100
    ensures TimeLabel(value, parse) == MarkedLabel(DecimalValue(m.hour), m.minute, m.marker.value)
  {
    DecimalValueSmall(m.hour);
  }

  /** The label of a cell whose first time has no marker: that hour read as
      a 24-hour time, whatever precedes the time in the cell (a date, say)
      and whether or not seconds follow it. */
  lemma LabelOfUnmarkedMatch(value: string, parse: DateParser, i: nat, m: TimeMatch)
    requires value != "" && FirstTimeAt(Prepare(value), 0) == Some(i)
    requires TimeAt(Prepare(value), i) == Some(m) && m.marker.None?
    ensures DecimalValue(m.hour) < 100
    ensures TimeLabel(value, parse) == Clock12(DecimalValue(m.hour), m.minute)
  {
    DecimalValueSmall(m.hour);
  }

  /** A cell with no time of day in it is labelled from the platform's
      reading of the whole text in GMT+05:30, or gets "" when that reading
      fails. */
  lemma TimeLabelFallback(value: string, parse: DateParser)
    requires value != "" && FirstTimeAt(Prepare(value), 0).None?
    ensures parse(Prepare(value)).None? ==> TimeLabel(value, parse) == ""
    ensures parse(Prepare(value)).Some? ==>
      TimeLabel(value, parse) == Clock12(parse(Prepare(value)).value.hour, Pad2(parse(Prepare(value)).value.minute))
  {
  }

  /** The pattern only starts one or two characters before a colon. */
  lemma TimeAtColon(s: string, j: nat)
    requires j <= |s|
    ensures TimeAt(s, j).Some? ==> (j + 1 < |s| && s[j + 1] == ':') || (j + 2 < |s| && s[j + 2] == ':')
  {
    if TimeAt(s, j).Some? {
      var t := s[j..];
      var h := LeadDigits(t, 2);
      assert t[h] == s[j + h];
    }
  }

  /** The leftmost match is the one position that matches with no match
      before it. */
  lemma FirstTimeAtIs(s: string, i: nat)
    requires i <= |s| && TimeAt(s, i).Some?
    requires forall j :: 0 <= j < i ==> TimeAt(s, j).None?
    ensures FirstTimeAt(s, 0) == Some(i)
  {
    var r := FirstTimeAt(s, 0);
    assert r.Some?;
    assert r.value >= i;
    assert r.value <= i;
  }

  /** No match starts before position `i` when no colon comes before
      position `i + 2`. */
  lemma NoTimeBefore(s: string, i: nat)
    requires i + 2 <= |s| && ':' !in s[..i + 2]
    ensures forall j :: 0 <= j < i ==> TimeAt(s, j).None?
  {
    forall j | 0 <= j < i
      ensures TimeAt(s, j).None?
    {
      assert s[j + 1] in s[..i + 2] && s[j + 2] in s[..i + 2];
      TimeAtColon(s, j);
    }
  }

  /** "hh:mm:ss" at position `i` is read as hours and minutes, the seconds
      skipped and no marker after them. */
  lemma TimeAtSeconds(s: string, i: nat, hh: string, mm: string)
    requires |hh| == 2 && AllDigits(hh) && |mm| == 2 && AllDigits(mm)
    requires i + 8 == |s| && s[i..i + 2] == hh && s[i + 2] == ':' && s[i + 3..i + 5] == mm && s[i + 5] == ':'
    requires IsDigit(s[i + 6]) && IsDigit(s[i + 7])
    ensures TimeAt(s, i) == Some(TimeMatch(hh, mm, None))
  {
    var t := s[i..];
    assert t[..2] == hh && t[3..5] == mm && t[2] == ':' && t[5] == ':';
    assert t[0] == hh[0] && t[1] == hh[1] && t[3] == mm[0] && t[4] == mm[1];
    assert t[6] == s[i + 6] && t[7] == s[i + 7];
    LeadDigitsExact(t, 2, 2);
    assert t[8..] == [];
  }

  /** A monitor-tab timestamp: the date before the time is skipped and the
      seconds are ignored, so "1/8/2026 21:30:45" is labelled "09:30 PM". */
  lemma MonitorTimestampLabel(parse: DateParser)
    ensures TimeLabel("1/8/2026 21:30:45", parse) == "09:30 PM"
  {
    var v := "1/8/2026 21:30:45";
    StampPrepared(v);
    StampFirstTime(v);
    LabelOfUnmarkedMatch(v, parse, 9, TimeMatch("21", "30", None));
    NinePm();
  }

  lemma StampPrepared(v: string)
    requires v == "1/8/2026 21:30:45"
    ensures Prepare(v) == v
  {
    PreparedAlready(v);
  }

  /** The first time in the stamp is "21:30", read after the date. */
  lemma StampFirstTime(v: string)
    requires v == "1/8/2026 21:30:45"
    ensures TimeAt(v, 9) == Some(TimeMatch("21", "30", None)) && FirstTimeAt(v, 0) == Some(9)
  {
    assert v[9..11] == "21" && v[12..14] == "30";
    TimeAtSeconds(v, 9, "21", "30");
    DateHasNoColon(v);
    NoTimeBefore(v, 9);
    FirstTimeAtIs(v, 9);
  }

  /** Neither the date nor the first hour digit is a colon. */
  lemma DateHasNoColon(v: string)
    requires v == "1/8/2026 21:30:45"
    ensures ':' !in v[..11]
  {
    var p := v[..11];
    forall k | 0 <= k < 11
      ensures p[k] != ':'
    {
      assert p[k] == v[k];
    }
  }

  lemma NinePm()
    ensures Clock12(DecimalValue("21"), "30") == "09:30 PM"
  {
    assert DecimalValue("21") == 21 by {
      DecimalValueTwo("21");
    }
    assert Pad2(9) == "09";
  }

  lemma RebuildLabel(r: string)
    requires IsLabel(r)
    ensures DecimalValue(r[..2]) < 100
    ensures MarkedLabel(DecimalValue(r[..2]), r[3..5], r[6..]) == r
  {
    Pad2OfDigits(r[..2]);
    assert r == r[..2] + ":" + r[3..5] + " " + r[6..];
  }

  /** Labelling a label gives it back: the label is a fixed point, whatever
      the platform parser does. */
  lemma LabelIdempotent(value: string, parse: DateParser)
    ensures TimeLabel(TimeLabel(value, parse), parse) == TimeLabel(value, parse)
  {
    var r := TimeLabel(value, parse);
    if r != "" {
      LabelOfLabel(r, parse);
    }
  }

  /** A 24-hour time such as "21:30" at the start of the cell becomes its
      12-hour label ("09:30 PM"), whatever follows it, as long as no
      seconds or marker follow it. */
  lemma TwentyFourHourText(hour: nat, minute: string, rest: string, parse: DateParser)
    requires hour < 24 && |minute| == 2 && AllDigits(minute)
    requires rest == [] || (!IsSpace(rest[0]) && rest[0] != ':' && !IsSpace(rest[|rest| - 1]))
    requires forall i :: 0 <= i < |rest| ==> rest[i] != '•'
    requires |rest| < 2 || !IsMarker(rest[..2])
    ensures TimeLabel(Pad2(hour) + ":" + minute + rest, parse) == Clock12(hour, minute)
  {
    var v := Pad2(hour) + ":" + minute + rest;
    ClockTextPieces(hour, minute, rest);
    PreparedAlready(v);
    assert v[0..] == v;
    assert TimeAt(v, 0) == Some(TimeMatch(Pad2(hour), minute, None));
    assert FirstTimeAt(v, 0) == Some(0);
  }

  /** What the pattern looks at in "hh:mm" followed by `rest`. */
  lemma ClockTextPieces(hour: nat, minute: string, rest: string)
    requires hour < 24 && |minute| == 2 && AllDigits(minute)
    requires rest == [] || (!IsSpace(rest[0]) && rest[0] != ':' && !IsSpace(rest[|rest| - 1]))
    requires forall i :: 0 <= i < |rest| ==> rest[i] != '•'
    ensures var v := Pad2(hour) + ":" + minute + rest;
      && !IsSpace(v[0]) && !IsSpace(v[|v| - 1])
      && (forall i :: 0 <= i < |v| ==> v[i] != '•')
      && LeadDigits(v, 2) == 2 && v[..2] == Pad2(hour) && v[2] == ':'
      && IsDigit(v[3]) && IsDigit(v[4]) && v[3..5] == minute
      && (|v| < 8 || v[5] != ':') && TrimStart(v[5..]) == rest
  {
    var v := Pad2(hour) + ":" + minute + rest;
    var hh := Pad2(hour);
    assert v[..2] == hh && v[2] == ':' && v[3..5] == minute && v[5..] == rest;
    assert v[0] == hh[0];
    if rest == [] {
      assert v[|v| - 1] == minute[1];
    } else {
      assert v[|v| - 1] == rest[|rest| - 1];
    }
    forall i | 0 <= i < |v|
      ensures v[i] != '•'
    {
      if i < 2 {
        assert v[i] == hh[i];
      } else if 2 < i < 5 {
        assert v[i] == minute[i - 3];
      } else if 5 <= i {
        assert v[i] == rest[i - 5];
      }
    }
    LeadDigitsExact(v, 2, 2);
    assert v[3] == minute[0] && v[4] == minute[1];
  }
}
