/** The train departure record both app variants read, and how a frame
    renders a whole list of them. */
module Trains {
  import opened Wrappers

  /** One departure as the departure service reports it. Only the fields the
      apps display are kept; `train_id`, `destination`, `departure_station`
      and `normal_run_time` are decoded but never read. */
  datatype Train = Train(
    trainNumber: string,
    trainType: string,
    departureTime: string,
    estimatedRetard: Option<string>,
    drives: string,
    effectiveDepartureTime: Option<string>,
    additionalInfo: Option<string>)

  /** Why rendering a frame panics: a timestamp too short (or cut inside a
      character) for the fixed byte slices, or a delay that `unwrap` cannot
      parse as an `i32`. */
  datatype Panic = BadTimestamp(timestamp: string) | BadRetard(retard: string)

  /** How both apps show an optional text field: the text itself, or an empty
      label when it is absent, so `None` and `Some("")` look the same. */
  function ShownOrEmpty(field: Option<string>): (r: string)
    ensures field.Some? ==> r == field.value
    ensures r == "" <==> field.None? || field == Some("")
  {
    field.GetOr("")
  }

  /** One frame of the scroll area: the labels of every train in list order.
      The first train whose labels panic aborts the whole frame. */
  function RenderAll<L>(trains: seq<Train>, render: Train -> Result<seq<L>, Panic>): (r: Result<seq<L>, Panic>)
    ensures r.Ok? <==> forall i :: 0 <= i < |trains| ==> render(trains[i]).Ok?
    ensures r.Err? ==> exists i :: 0 <= i < |trains| && render(trains[i]) == Err(r.error)
                                   && forall j :: 0 <= j < i ==> render(trains[j]).Ok?
    decreases |trains|
  {
    if |trains| == 0 then Ok([])
    else match render(trains[0])
      case Err(p) => Err(p)
      case Ok(first) =>
        match RenderAll(trains[1..], render)
        case Err(p) =>
          assert forall i :: 1 <= i < |trains| ==> trains[i] == trains[1..][i - 1];
          Err(p)
        case Ok(rest) => Ok(first + rest)
  }

  lemma ShiftBlock<L>(first: seq<L>, tail: seq<L>, width: nat, i: nat)
    requires |first| == width && 0 < i && width * i + width <= |first| + |tail|
    ensures width * (i - 1) + width <= |tail|
    ensures (first + tail)[width * i .. width * i + width] == tail[width * (i - 1) .. width * (i - 1) + width]
  {
    var o := width * (i - 1);
    assert width * i == o + width;
  }

  lemma {:induction false} Distribute(width: nat, n: nat, i: nat)
    requires i < n
    ensures width * i + width <= width * n
    decreases n
  {
    assert width * n == width * (n - 1) + width;
    if i < n - 1 {
      Distribute(width, n - 1, i);
    }
  }

  /** When every train renders to `width` labels, a successful frame is
      `width` labels per train, train `i`'s labels at `width * i`. */
  lemma {:induction false} RenderAllLayout<L>(trains: seq<Train>, render: Train -> Result<seq<L>, Panic>, width: nat)
    requires forall i :: 0 <= i < |trains| ==> render(trains[i]).Ok? ==> |render(trains[i]).value| == width
    requires RenderAll(trains, render).Ok?
    ensures |RenderAll(trains, render).value| == width * |trains|
    ensures forall i :: 0 <= i < |trains| ==>
              && width * i + width <= width * |trains|
              && RenderAll(trains, render).value[width * i .. width * i + width] == render(trains[i]).value
    decreases |trains|
  {
    if |trains| > 0 {
      var rest := trains[1..];
      assert forall i :: 0 <= i < |rest| ==> rest[i] == trains[i + 1];
      RenderAllLayout(rest, render, width);
      var first := render(trains[0]).value;
      var tail := RenderAll(rest, render).value;
      var all := RenderAll(trains, render).value;
      assert all == first + tail;
      assert width * |trains| == width + width * |rest|;
      forall i | 0 <= i < |trains|
        ensures width * i + width <= width * |trains| && all[width * i .. width * i + width] == render(trains[i]).value
      {
        Distribute(width, |trains|, i);
        if i > 0 {
          ShiftBlock(first, tail, width, i);
          assert render(trains[i]) == render(rest[i - 1]);
        }
      }
    }
  }
}
