/** The labels the threaded app (src/lib.rs) draws for each train: number
    and type, the planned departure as `DD.MM HH:MM`, one status line, and the
    annotation.

    The status match binds `drives` with an irrefutable pattern, so its
    `outage` and catch-all arms never run: there is no outage state, and
    `drives` never changes what is shown. */
module LibLabels {
  import opened Wrappers
  import opened Decimal
  import opened Utf8
  import opened Trains

  const NoRetard: string := "Drives on time"

  /** The colour a label is drawn in; only which colour, not its RGB value. */
  datatype Tone = Plain | Green | Orange

  datatype Label = Label(text: string, tone: Tone)

  /** `text` is `DD.MM HH:MM` assembled from the characters of `ts` at byte
      ranges 8..10, 5..7, 11..13 and 14..16. */
  ghost predicate CutFrom(ts: string, text: string) {
    exists day, month, hour, minute ::
      && Between(ts, 8, 10, day) && Between(ts, 5, 7, month)
      && Between(ts, 11, 13, hour) && Between(ts, 14, 16, minute)
      && text == day + "." + month + " " + hour + ":" + minute
  }

  /** `DD.MM HH:MM` cut from the fixed byte ranges 8..10, 5..7, 11..13 and
      14..16 of a `YYYY-MM-DDTHH:MM...` timestamp; `None` where a slice panics. */
  function DayMonthTime(ts: string): (r: Option<string>)
    ensures r.Some? <==>
              && IsBoundary(ts, 5) && IsBoundary(ts, 7) && IsBoundary(ts, 8) && IsBoundary(ts, 10)
              && IsBoundary(ts, 11) && IsBoundary(ts, 13) && IsBoundary(ts, 14) && IsBoundary(ts, 16)
    ensures ByteLen(ts) < 16 ==> r.None?
    ensures r.Some? ==> ByteLen(r.value) == 11
    ensures r.Some? ==> CutFrom(ts, r.value)
  {
    match (Slice(ts, 8, 10), Slice(ts, 5, 7), Slice(ts, 11, 13), Slice(ts, 14, 16))
    case (Some(day), Some(month), Some(hour), Some(minute)) =>
      ByteLenConcat(day, ".");
      ByteLenConcat(day + ".", month);
      ByteLenConcat(day + "." + month, " ");
      ByteLenConcat(day + "." + month + " ", hour);
      ByteLenConcat(day + "." + month + " " + hour, ":");
      ByteLenConcat(day + "." + month + " " + hour + ":", minute);
      Some(day + "." + month + " " + hour + ":" + minute)
    case _ => None
  }

  /** On an ASCII timestamp the slices are plain character ranges, and only a
      timestamp shorter than 16 characters panics. */
  lemma DayMonthTimeAscii(ts: string)
    requires IsAscii(ts)
    ensures DayMonthTime(ts).Some? <==> |ts| >= 16
    ensures |ts| >= 16 ==> DayMonthTime(ts) == Some(ts[8..10] + "." + ts[5..7] + " " + ts[11..13] + ":" + ts[14..16])
  {
    AsciiByteLen(ts);
    if |ts| >= 16 {
      AsciiSlice(ts, 8, 10);
      AsciiSlice(ts, 5, 7);
      AsciiSlice(ts, 11, 13);
      AsciiSlice(ts, 14, 16);
    }
  }

  /** The ranges are bytes, not characters: a two-byte first character (an
      accented letter, say) moves every field one character to the left. */
  lemma DayMonthTimeWideFirst(c: char, rest: string)
    requires Width(c) == 2 && IsAscii(rest) && |rest| >= 14
    ensures DayMonthTime([c] + rest) == Some(rest[6..8] + "." + rest[3..5] + " " + rest[9..11] + ":" + rest[12..14])
  {
    SliceAfterFirst(c, rest, 8, 10);
    SliceAfterFirst(c, rest, 5, 7);
    SliceAfterFirst(c, rest, 11, 13);
    SliceAfterFirst(c, rest, 14, 16);
    AsciiSlice(rest, 6, 8);
    AsciiSlice(rest, 3, 5);
    AsciiSlice(rest, 9, 11);
    AsciiSlice(rest, 12, 14);
  }

  /** A timestamp with an accented first character is read one character
      off: the day comes out as "25", not "-2". */
  lemma AccentedTimestamp()
    ensures DayMonthTime("é23-12-25T10:30") == Some("25.12 10:30")
  {
    var rest := "23-12-25T10:30";
    assert "é23-12-25T10:30" == ['é'] + rest;
    assert rest[6..8] + "." + rest[3..5] + " " + rest[9..11] + ":" + rest[12..14] == "25.12 10:30";
    DayMonthTimeWideFirst('é', rest);
  }

  /** The second label: the planned departure, or a panic on a malformed timestamp. */
  function PlannedDeparture(t: Train): (r: Result<Label, Panic>)
    ensures r.Err? <==> DayMonthTime(t.departureTime).None?
    ensures r.Err? ==> r.error == BadTimestamp(t.departureTime)
    ensures r.Ok? ==> r.value == Label("Planned departure: " + DayMonthTime(t.departureTime).value, Plain)
  {
    match DayMonthTime(t.departureTime)
    case Some(x) => Ok(Label("Planned departure: " + x, Plain))
    case None => Err(BadTimestamp(t.departureTime))
  }

  /** The status line when the train has no effective departure: the delay is
      parsed (panicking when it is not an `i32`), zero counts as on time, and
      any other value, negative included, is shown as a delay. */
  function RetardStatus(retard: Option<string>): (r: Result<Label, Panic>)
    ensures r == Ok(Label(NoRetard, Plain)) <==> retard.None? || ParseI32(retard.value) == Some(0)
    ensures r.Err? <==> retard.Some? && ParseI32(retard.value).None?
    ensures r.Err? ==> r.error == BadRetard(retard.value)
    ensures r.Ok? && r.value.tone == Orange <==>
              retard.Some? && ParseI32(retard.value).Some? && ParseI32(retard.value).value != 0
  {
    match retard
    case None => Ok(Label(NoRetard, Plain))
    case Some(s) =>
      match ParseI32(s)
      case None => Err(BadRetard(s))
      case Some(n) =>
        if n == 0 then Ok(Label(NoRetard, Plain))
        else Ok(Label("Estimated departure: " + ShowInt(n) + " min retard", Orange))
  }

  /** The third label: an effective departure wins over everything else;
      otherwise the delay decides. */
  function Status(t: Train): (r: Result<Label, Panic>)
    ensures t.effectiveDepartureTime.Some? ==>
              (r.Ok? <==> DayMonthTime(t.effectiveDepartureTime.value).Some?)
    ensures t.effectiveDepartureTime.Some? && r.Ok? ==>
              r.value == Label("Effective departure: " + DayMonthTime(t.effectiveDepartureTime.value).value, Green)
    ensures t.effectiveDepartureTime.Some? && r.Err? ==> r.error == BadTimestamp(t.effectiveDepartureTime.value)
    ensures t.effectiveDepartureTime.None? ==> r == RetardStatus(t.estimatedRetard)
    ensures r.Ok? && r.value.tone == Green ==> t.effectiveDepartureTime.Some?
  {
    match t.effectiveDepartureTime
    case Some(e) =>
      (match DayMonthTime(e)
       case Some(x) => Ok(Label("Effective departure: " + x, Green))
       case None => Err(BadTimestamp(e)))
    case None => RetardStatus(t.estimatedRetard)
  }

  /** The fourth label: the annotation, or an empty label when there is none. */
  function Annotation(info: Option<string>): (r: Label)
    ensures r.tone == Plain
    ensures r.text == "" <==> info.None? || info == Some("")
    ensures info.Some? ==> r.text == info.value
  {
    Label(ShownOrEmpty(info), Plain)
  }

  /** All labels of one train, in drawing order; the planned departure is
      sliced before the status line, so its panic comes first. */
  function TrainLabels(t: Train): (r: Result<seq<Label>, Panic>)
    ensures r.Ok? <==> PlannedDeparture(t).Ok? && Status(t).Ok?
    ensures PlannedDeparture(t).Err? ==> r == Err(PlannedDeparture(t).error)
    ensures PlannedDeparture(t).Ok? && Status(t).Err? ==> r == Err(Status(t).error)
    ensures r.Ok? ==> |r.value| == 4
    ensures r.Ok? ==> r.value[0] == Label(t.trainNumber + " " + t.trainType, Plain)
    ensures r.Ok? ==> r.value[1] == PlannedDeparture(t).value && r.value[2] == Status(t).value
    ensures r.Ok? ==> r.value[3] == Annotation(t.additionalInfo)
  {
    match PlannedDeparture(t)
    case Err(p) => Err(p)
    case Ok(planned) =>
      match Status(t)
      case Err(p) => Err(p)
      case Ok(status) =>
        Ok([Label(t.trainNumber + " " + t.trainType, Plain), planned, status, Annotation(t.additionalInfo)])
  }

  /** One frame: four labels per train, or the panic of the first bad train. */
  function Frame(trains: seq<Train>): (r: Result<seq<Label>, Panic>)
    ensures r.Ok? <==> forall i :: 0 <= i < |trains| ==> TrainLabels(trains[i]).Ok?
    ensures r.Err? ==> exists i :: 0 <= i < |trains| && TrainLabels(trains[i]) == Err(r.error)
                                   && forall j :: 0 <= j < i ==> TrainLabels(trains[j]).Ok?
    ensures r.Ok? ==> |r.value| == 4 * |trains|
    ensures r.Ok? ==> forall i :: 0 <= i < |trains| ==>
              && 4 * i + 4 <= |r.value|
              && r.value[4 * i .. 4 * i + 4] == TrainLabels(trains[i]).value
  {
    FrameLayout(trains);
    RenderAll(trains, TrainLabels)
  }

  /** Helper for `Frame`: the generic layout fact, instantiated. */
  lemma FrameLayout(trains: seq<Train>)
    ensures var r := RenderAll(trains, TrainLabels);
            r.Ok? ==> |r.value| == 4 * |trains| && forall i :: 0 <= i < |trains| ==>
              && 4 * i + 4 <= |r.value|
              && r.value[4 * i .. 4 * i + 4] == TrainLabels(trains[i]).value
  {
    if RenderAll(trains, TrainLabels).Ok? {
      forall i | 0 <= i < |trains|
        ensures TrainLabels(trains[i]).Ok? ==> |TrainLabels(trains[i]).value| == 4
      {
      }
      RenderAllLayout(trains, TrainLabels, 4);
    }
  }

  /** An effective departure decides the status line whatever `drives` and the
      delay hold, even a delay that would not parse. */
  lemma EffectiveDepartureWins(t: Train, e: string)
    requires t.effectiveDepartureTime == Some(e) && IsAscii(e) && |e| >= 16
    ensures Status(t) == Ok(Label("Effective departure: " + (e[8..10] + "." + e[5..7] + " " + e[11..13] + ":" + e[14..16]), Green))
  {
    DayMonthTimeAscii(e);
  }

  /** With an effective departure the status line, text or panic, depends on
      that timestamp alone: neither the delay nor `drives` can change it. */
  lemma EffectiveDepartureDecides(t: Train, retard: Option<string>, drives: string)
    requires t.effectiveDepartureTime.Some?
    ensures Status(t.(estimatedRetard := retard, drives := drives)) == Status(t)
  {
  }

  /** The planned-departure label of an ASCII timestamp reads its fixed
      character ranges, and panics exactly when it is shorter than 16. */
  lemma PlannedDepartureAscii(t: Train)
    requires IsAscii(t.departureTime)
    ensures PlannedDeparture(t).Err? <==> |t.departureTime| < 16
    ensures |t.departureTime| >= 16 ==>
              var d := t.departureTime;
              PlannedDeparture(t) == Ok(Label("Planned departure: " + (d[8..10] + "." + d[5..7] + " " + d[11..13] + ":" + d[14..16]), Plain))
  {
    DayMonthTimeAscii(t.departureTime);
  }

  /** Without an effective departure, the train is shown on time exactly when
      the delay is absent or parses to zero ("0", "-0", "+00", ...). */
  lemma OnTimeExactly(t: Train)
    requires t.effectiveDepartureTime.None?
    ensures Status(t) == Ok(Label(NoRetard, Plain)) <==>
              || t.estimatedRetard.None?
              || exists k: nat :: SpelledWith(t.estimatedRetard.value, 0, k)
  {
    if t.estimatedRetard.Some? {
      var s := t.estimatedRetard.value;
      ParseSpells(s, 0);
    }
  }

  /** Without an effective departure, a delay that parses to a non-zero `n`
      (negative included) is shown as "Estimated departure: n min retard",
      and the number shown reads back as the same value the feed sent. */
  lemma DelayShown(t: Train, s: string, n: int)
    requires t.effectiveDepartureTime.None? && t.estimatedRetard == Some(s)
    requires ParseI32(s) == Some(n) && n != 0
    ensures Status(t) == Ok(Label("Estimated departure: " + ShowInt(n) + " min retard", Orange))
    ensures ParseI32(ShowInt(n)) == ParseI32(s)
    ensures n < 0 ==> Status(t).value.text[21] == '-'
  {
    ParseShowInt(n);
  }

  /** Without an effective departure, a delay that is not an `i32` panics the frame. */
  lemma UnparsableDelayPanics(t: Train, s: string)
    requires t.effectiveDepartureTime.None? && t.estimatedRetard == Some(s)
    requires forall n :: !(InI32(n) && Spells(s, n))
    ensures Status(t) == Err(BadRetard(s))
  {
    if ParseI32(s).Some? {
      ParsedIsSpelled(s, ParseI32(s).value);
    }
  }

  /** `drives` has no effect: two trains that differ only there get the same labels. */
  lemma DrivesIgnored(t: Train, drives: string)
    ensures TrainLabels(t.(drives := drives)) == TrainLabels(t)
    ensures Status(t.(drives := drives)) == Status(t)
  {
  }

  /** A train the feed marks as cancelled is still shown as on time when it
      has no effective departure and no delay. */
  lemma OutageShownOnTime(t: Train)
    requires t.drives == "outage" && t.effectiveDepartureTime.None? && t.estimatedRetard.None?
    ensures Status(t) == Ok(Label(NoRetard, Plain))
  {
  }
}
