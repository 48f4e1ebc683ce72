/** The labels the stand-alone binary (src/main.rs) draws for each train:
    eight plain labels, timestamps shown verbatim, a non-zero delay shown as
    the bare number. */
module MainLabels {
  import opened Wrappers
  import opened Decimal
  import opened Trains
  import LibLabels

  const NoRetard: string := "No retard"
  const EffectiveCaption: string := "Effective departure at: "

  /** The delay label: absent or zero reads "No retard", any other `i32` is
      printed back in canonical form, anything else panics in `unwrap`. */
  function RetardText(retard: Option<string>): (r: Result<string, Panic>)
    ensures r == Ok(NoRetard) <==> retard.None? || ParseI32(retard.value) == Some(0)
    ensures r.Err? <==> retard.Some? && ParseI32(retard.value).None?
    ensures r.Err? ==> r.error == BadRetard(retard.value)
    ensures r.Ok? && r.value != NoRetard ==>
              retard.Some? && ParseI32(r.value) == ParseI32(retard.value) && ParseI32(r.value) != Some(0)
    ensures retard.Some? && ParseI32(retard.value).Some? && ParseI32(retard.value).value != 0 ==>
              r == Ok(ShowInt(ParseI32(retard.value).value))
  {
    match retard
    case None => Ok(NoRetard)
    case Some(s) =>
      match ParseI32(s)
      case None => Err(BadRetard(s))
      case Some(n) =>
        if n == 0 then Ok(NoRetard)
        else
          ParseShowInt(n);
          Ok(ShowInt(n))
  }

  /** All labels of one train in drawing order. Timestamps are not sliced, so
      only the delay can panic. */
  function TrainLabels(t: Train): (r: Result<seq<string>, Panic>)
    ensures r.Ok? <==> RetardText(t.estimatedRetard).Ok?
    ensures r.Err? ==> r.error == BadRetard(t.estimatedRetard.value)
    ensures r.Ok? ==> |r.value| == 8
    ensures r.Ok? ==> r.value[0] == t.trainNumber && r.value[1] == t.trainType
    ensures r.Ok? ==> r.value[2] == t.drives && r.value[3] == t.departureTime
    ensures r.Ok? ==> r.value[4] == RetardText(t.estimatedRetard).value
    ensures r.Ok? ==> r.value[5] == ShownOrEmpty(t.additionalInfo)
    ensures r.Ok? ==> r.value[6] == EffectiveCaption && r.value[7] == ShownOrEmpty(t.effectiveDepartureTime)
  {
    match RetardText(t.estimatedRetard)
    case Err(p) => Err(p)
    case Ok(retard) =>
      Ok([t.trainNumber, t.trainType, t.drives, t.departureTime, retard,
          ShownOrEmpty(t.additionalInfo), EffectiveCaption, ShownOrEmpty(t.effectiveDepartureTime)])
  }

  /** One frame: eight labels per train, or the panic of the first train
      whose delay does not parse. */
  function Frame(trains: seq<Train>): (r: Result<seq<string>, Panic>)
    ensures r.Ok? <==> forall i :: 0 <= i < |trains| ==> RetardText(trains[i].estimatedRetard).Ok?
    ensures r.Err? ==> exists i :: 0 <= i < |trains| && RetardText(trains[i].estimatedRetard).Err?
                                   && r.error == BadRetard(trains[i].estimatedRetard.value)
                                   && forall j :: 0 <= j < i ==> RetardText(trains[j].estimatedRetard).Ok?
    ensures r.Ok? ==> |r.value| == 8 * |trains|
    ensures r.Ok? ==> forall i :: 0 <= i < |trains| ==>
              && 8 * i + 8 <= |r.value|
              && r.value[8 * i .. 8 * i + 8] == TrainLabels(trains[i]).value
  {
    FrameLayout(trains);
    RenderAll(trains, TrainLabels)
  }

  /** Helper for `Frame`: the generic layout fact, instantiated. */
  lemma FrameLayout(trains: seq<Train>)
    ensures var r := RenderAll(trains, TrainLabels);
            r.Ok? ==> |r.value| == 8 * |trains| && forall i :: 0 <= i < |trains| ==>
              && 8 * i + 8 <= |r.value|
              && r.value[8 * i .. 8 * i + 8] == TrainLabels(trains[i]).value
  {
    if RenderAll(trains, TrainLabels).Ok? {
      forall i | 0 <= i < |trains|
        ensures TrainLabels(trains[i]).Ok? ==> |TrainLabels(trains[i]).value| == 8
      {
      }
      RenderAllLayout(trains, TrainLabels, 8);
    }
  }

  /** A departure time of any length or content is shown verbatim: nothing
      about it can make the labels panic. */
  lemma DepartureTimeUnchecked(t: Train, departure: string)
    ensures TrainLabels(t.(departureTime := departure)).Ok? <==> TrainLabels(t).Ok?
    ensures TrainLabels(t).Ok? ==> TrainLabels(t.(departureTime := departure)).value[3] == departure
  {
  }

  /** Both apps read the delay the same way: the binary says "No retard"
      exactly when the library says "Drives on time", and one panics on a
      delay exactly when the other does. */
  lemma SameDelayReading(retard: Option<string>)
    ensures RetardText(retard) == Ok(NoRetard) <==>
              LibLabels.RetardStatus(retard) == Ok(LibLabels.Label(LibLabels.NoRetard, LibLabels.Plain))
    ensures RetardText(retard).Err? <==> LibLabels.RetardStatus(retard).Err?
    ensures RetardText(retard).Ok? && RetardText(retard).value != NoRetard ==>
              LibLabels.RetardStatus(retard).value.text ==
              "Estimated departure: " + RetardText(retard).value + " min retard"
  {
  }
}
