/** The train list of the stand-alone binary (src/main.rs). There is no
    background thread: each repaint checks whether `UPDATE_RATE` has passed
    since the last refresh and, if so, restarts the timer and fetches.
    Time is a count of nanoseconds, the precision of `SystemTime` and
    `Duration`. */
module MainRefresh {
  import opened Wrappers
  import opened Trains

  /** `UPDATE_RATE`: one second. */
  const UpdateRate: nat := 1_000_000_000

  datatype App = App(updated: nat, trains: seq<Train>)

  /** `Paab::new`: the timer starts now, the list is one blocking fetch or empty. */
  function New(now: nat, bootstrap: Option<seq<Train>>): (a: App)
    ensures a.updated == now
    ensures bootstrap.Some? ==> a.trains == bootstrap.value
    ensures bootstrap.None? ==> a.trains == []
  {
    App(now, bootstrap.GetOr([]))
  }

  /** One repaint at time `now`; `fetched` is what the fetch returns if this
      repaint calls it. `elapsed()` fails when the clock is behind `updated`,
      and the source's `expect` turns that into a panic, hence the
      precondition. */
  function Tick(a: App, now: nat, fetched: Option<seq<Train>>): (r: App)
    requires a.updated <= now
    ensures now - a.updated < UpdateRate ==> r == a
    ensures now - a.updated >= UpdateRate ==> r.updated == now
    ensures now - a.updated >= UpdateRate && fetched.Some? ==> r.trains == fetched.value
    ensures fetched.None? ==> r.trains == a.trains
  {
    if now - a.updated >= UpdateRate then
      App(now, match fetched case Some(list) => list case None => a.trains)
    else a
  }

  /** What one repaint sees: the clock, and what a fetch would return. */
  datatype Repaint = Repaint(now: nat, fetched: Option<seq<Train>>)

  /** No repaint of the run finds the clock behind the timer, so none of
      them panics in `elapsed().expect`. The clock may still step back, as
      long as it stays at or after the last refresh. */
  predicate NeverBehind(a: App, rs: seq<Repaint>)
    decreases |rs|
  {
    || |rs| == 0
    || (a.updated <= rs[0].now && NeverBehind(Tick(a, rs[0].now, rs[0].fetched), rs[1..]))
  }

  /** A run of repaints: the final state, or `None` where a repaint panics
      because the clock is behind the timer. */
  function Outcome(a: App, rs: seq<Repaint>): (r: Option<App>)
    ensures r.Some? <==> NeverBehind(a, rs)
    decreases |rs|
  {
    if |rs| == 0 then Some(a)
    else if rs[0].now < a.updated then None
    else Outcome(Tick(a, rs[0].now, rs[0].fetched), rs[1..])
  }

  /** The final state of a run that does not panic. */
  function Run(a: App, rs: seq<Repaint>): (r: App)
    requires NeverBehind(a, rs)
    ensures |rs| > 0 ==> r.updated <= rs[|rs| - 1].now
    ensures a.updated <= r.updated
    ensures Outcome(a, rs) == Some(r)
    decreases |rs|
  {
    if |rs| == 0 then a
    else Run(Tick(a, rs[0].now, rs[0].fetched), rs[1..])
  }

  /** Splitting off the first repaint of a prefix: once that repaint has run,
      the prefix of length `i` is the rest's prefix of length `i - 1`. */
  lemma PrefixAfterFirstRepaint(a: App, rs: seq<Repaint>, i: nat)
    requires 0 < i <= |rs| && a.updated <= rs[0].now
    ensures var b := Tick(a, rs[0].now, rs[0].fetched);
            && (NeverBehind(a, rs[..i]) <==> NeverBehind(b, rs[1..][..i - 1]))
            && (NeverBehind(a, rs[..i]) ==> Run(a, rs[..i]) == Run(b, rs[1..][..i - 1]))
  {
    assert rs[..i][0] == rs[0];
    assert rs[..i][1..] == rs[1..][..i - 1];
  }

  /** A run panics exactly when some repaint, reached without a panic, finds
      the clock behind the timer as the repaints before it left it. */
  lemma {:induction false} PanicsExactlyWhenBehind(a: App, rs: seq<Repaint>)
    ensures Outcome(a, rs).Some? <==>
              forall i :: 0 <= i < |rs| ==> NeverBehind(a, rs[..i]) ==> Run(a, rs[..i]).updated <= rs[i].now
    decreases |rs|
  {
    if |rs| > 0 {
      assert rs[..0] == [];
      if a.updated <= rs[0].now {
        var b := Tick(a, rs[0].now, rs[0].fetched);
        var rest := rs[1..];
        PanicsExactlyWhenBehind(b, rest);
        forall i | 0 < i < |rs|
          ensures (NeverBehind(a, rs[..i]) ==> Run(a, rs[..i]).updated <= rs[i].now) <==>
                  (NeverBehind(b, rest[..i - 1]) ==> Run(b, rest[..i - 1]).updated <= rest[i - 1].now)
        {
          BehindStep(a, rs, i);
        }
        if Outcome(a, rs).Some? {
          forall i | 0 <= i < |rs|
            ensures NeverBehind(a, rs[..i]) ==> Run(a, rs[..i]).updated <= rs[i].now
          {
            if i > 0 {
              assert 0 <= i - 1 < |rest|;
            }
          }
        } else {
          var j :| 0 <= j < |rest| && NeverBehind(b, rest[..j]) && Run(b, rest[..j]).updated > rest[j].now;
          assert 0 < j + 1 < |rs|;
        }
      }
    }
  }

  /** The step of `PanicsExactlyWhenBehind` for a repaint after the first. */
  lemma BehindStep(a: App, rs: seq<Repaint>, i: nat)
    requires 0 < i < |rs| && a.updated <= rs[0].now
    ensures var b := Tick(a, rs[0].now, rs[0].fetched);
            (NeverBehind(a, rs[..i]) ==> Run(a, rs[..i]).updated <= rs[i].now) <==>
            (NeverBehind(b, rs[1..][..i - 1]) ==> Run(b, rs[1..][..i - 1]).updated <= rs[1..][i - 1].now)
  {
    PrefixAfterFirstRepaint(a, rs, i);
  }

  /** A repaint whose clock reads earlier than the timer's start panics:
      the timer never moves back, so no later timer is earlier either. */
  lemma {:induction false} BehindStartPanics(a: App, rs: seq<Repaint>)
    requires exists i :: 0 <= i < |rs| && rs[i].now < a.updated
    ensures Outcome(a, rs).None?
    decreases |rs|
  {
    if rs[0].now >= a.updated {
      var b := Tick(a, rs[0].now, rs[0].fetched);
      var i :| 0 <= i < |rs| && rs[i].now < a.updated;
      assert rs[1..][i - 1] == rs[i];
      BehindStartPanics(b, rs[1..]);
    }
  }

  /** The clock never runs backwards over a run of repaints starting at `start`. */
  predicate ClockFrom(start: nat, rs: seq<Repaint>) {
    && (|rs| > 0 ==> start <= rs[0].now)
    && forall i :: 0 < i < |rs| ==> rs[i - 1].now <= rs[i].now
  }

  /** After the first repaint of a run, the timer is still no later than the
      rest of the run. */
  lemma ClockAfterTick(a: App, rs: seq<Repaint>)
    requires |rs| > 0 && ClockFrom(a.updated, rs)
    ensures ClockFrom(Tick(a, rs[0].now, rs[0].fetched).updated, rs[1..])
  {
    forall i | 0 < i < |rs[1..]|
      ensures rs[1..][i - 1].now <= rs[1..][i].now
    {
      assert rs[1..][i - 1] == rs[i] && rs[1..][i] == rs[i + 1];
    }
  }

  /** A clock that never runs backwards from the start of the timer never
      makes a repaint panic. */
  lemma {:induction false} MonotoneClockNeverBehind(a: App, rs: seq<Repaint>)
    requires ClockFrom(a.updated, rs)
    ensures NeverBehind(a, rs)
    decreases |rs|
  {
    if |rs| > 0 {
      ClockAfterTick(a, rs);
      MonotoneClockNeverBehind(Tick(a, rs[0].now, rs[0].fetched), rs[1..]);
    }
  }

  /** The clock may step back without a panic: after a refresh at 1 s, a
      repaint at 1.5 s and then one at 1.2 s are both accepted. */
  lemma ClockMayStepBack()
    ensures var rs := [Repaint(1_000_000_000, None), Repaint(1_500_000_000, None), Repaint(1_200_000_000, None)];
            NeverBehind(App(0, []), rs) && !ClockFrom(0, rs)
  {
    var rs := [Repaint(1_000_000_000, None), Repaint(1_500_000_000, None), Repaint(1_200_000_000, None)];
    assert rs[2].now < rs[1].now;
    var b := Tick(App(0, []), rs[0].now, rs[0].fetched);
    assert b.updated == 1_000_000_000;
    assert rs[1..][1..] == rs[2..];
  }

  /** The times at which repaints in `rs` call the fetch. */
  function FetchTimes(a: App, rs: seq<Repaint>): seq<nat>
    requires NeverBehind(a, rs)
    decreases |rs|
  {
    if |rs| == 0 then []
    else
      var b := Tick(a, rs[0].now, rs[0].fetched);
      (if rs[0].now - a.updated >= UpdateRate then [rs[0].now] else []) + FetchTimes(b, rs[1..])
  }

  /** What those fetch calls returned, in the same order. */
  function FetchResults(a: App, rs: seq<Repaint>): (r: seq<Option<seq<Train>>>)
    requires NeverBehind(a, rs)
    ensures |r| == |FetchTimes(a, rs)|
    decreases |rs|
  {
    if |rs| == 0 then []
    else
      var b := Tick(a, rs[0].now, rs[0].fetched);
      (if rs[0].now - a.updated >= UpdateRate then [rs[0].fetched] else []) + FetchResults(b, rs[1..])
  }

  /** The positions of the repaints in `rs` that call the fetch, counting
      `rs[0]` as position `first` of the whole run. */
  function FetchIndices(a: App, rs: seq<Repaint>, first: nat): (r: seq<nat>)
    requires NeverBehind(a, rs)
    ensures forall k :: 0 <= k < |r| ==> first <= r[k] < first + |rs|
    decreases |rs|
  {
    if |rs| == 0 then []
    else
      var b := Tick(a, rs[0].now, rs[0].fetched);
      (if rs[0].now - a.updated >= UpdateRate then [first] else []) + FetchIndices(b, rs[1..], first + 1)
  }

  /** One repaint's share of the fetch records: the first repaint adds one
      entry to each when it fetches, and the rest of the run follows. */
  lemma FetchStep(a: App, rs: seq<Repaint>, first: nat)
    requires NeverBehind(a, rs) && |rs| > 0
    ensures var b := Tick(a, rs[0].now, rs[0].fetched);
            var fetch := rs[0].now - a.updated >= UpdateRate;
            && FetchIndices(a, rs, first) == (if fetch then [first] else []) + FetchIndices(b, rs[1..], first + 1)
            && FetchTimes(a, rs) == (if fetch then [rs[0].now] else []) + FetchTimes(b, rs[1..])
            && FetchResults(a, rs) == (if fetch then [rs[0].fetched] else []) + FetchResults(b, rs[1..])
  {
  }

  /** Fetch positions are listed in increasing order, each once. */
  lemma {:induction false} FetchIndicesIncrease(a: App, rs: seq<Repaint>, first: nat)
    requires NeverBehind(a, rs)
    ensures var ix := FetchIndices(a, rs, first);
            forall k, l :: 0 <= k < l < |ix| ==> ix[k] < ix[l]
    decreases |rs|
  {
    if |rs| > 0 {
      var b := Tick(a, rs[0].now, rs[0].fetched);
      FetchIndicesIncrease(b, rs[1..], first + 1);
      FetchStep(a, rs, first);
      var tail := FetchIndices(b, rs[1..], first + 1);
      if rs[0].now - a.updated >= UpdateRate {
        var ix := [first] + tail;
        forall k, l | 0 <= k < l < |ix|
          ensures ix[k] < ix[l]
        {
          assert ix[l] == tail[l - 1];
          if k > 0 {
            assert ix[k] == tail[k - 1];
          }
        }
      }
    }
  }

  /** Every prefix of a run without a panic is itself without a panic. */
  lemma {:induction false} NeverBehindPrefix(a: App, rs: seq<Repaint>)
    requires NeverBehind(a, rs)
    ensures forall i :: 0 <= i <= |rs| ==> NeverBehind(a, rs[..i])
    decreases |rs|
  {
    if |rs| > 0 {
      var b := Tick(a, rs[0].now, rs[0].fetched);
      NeverBehindPrefix(b, rs[1..]);
      assert rs[..0] == [];
      forall i | 0 < i <= |rs|
        ensures NeverBehind(a, rs[..i])
      {
        PrefixAfterFirstRepaint(a, rs, i);
      }
    }
  }

  /** A repaint fetches exactly when it finds at least `UpdateRate` elapsed
      since the timer as the repaints before it left it. */
  lemma {:induction false} FetchIndicesExact(a: App, rs: seq<Repaint>, first: nat)
    requires NeverBehind(a, rs)
    ensures forall i :: 0 <= i <= |rs| ==> NeverBehind(a, rs[..i])
    ensures forall i :: 0 <= i < |rs| ==>
              (first + i in FetchIndices(a, rs, first) <==> Run(a, rs[..i]).updated + UpdateRate <= rs[i].now)
    decreases |rs|
  {
    NeverBehindPrefix(a, rs);
    if |rs| > 0 {
      var b := Tick(a, rs[0].now, rs[0].fetched);
      FetchIndicesExact(b, rs[1..], first + 1);
      FetchStep(a, rs, first);
      assert rs[..0] == [];
      assert first !in FetchIndices(b, rs[1..], first + 1);
      forall i | 0 < i < |rs|
        ensures first + i in FetchIndices(a, rs, first) <==> Run(a, rs[..i]).updated + UpdateRate <= rs[i].now
      {
        FetchIndexStep(a, rs, first, i);
      }
    }
  }

  /** The step of `FetchIndicesExact` for a repaint after the first. */
  lemma FetchIndexStep(a: App, rs: seq<Repaint>, first: nat, i: nat)
    requires NeverBehind(a, rs) && 0 < i < |rs|
    requires var b := Tick(a, rs[0].now, rs[0].fetched);
             && NeverBehind(b, rs[1..][..i - 1])
             && ((first + 1) + (i - 1) in FetchIndices(b, rs[1..], first + 1) <==>
                 Run(b, rs[1..][..i - 1]).updated + UpdateRate <= rs[1..][i - 1].now)
    ensures NeverBehind(a, rs[..i])
    ensures first + i in FetchIndices(a, rs, first) <==> Run(a, rs[..i]).updated + UpdateRate <= rs[i].now
  {
    FetchStep(a, rs, first);
    PrefixAfterFirstRepaint(a, rs, i);
    assert rs[i] == rs[1..][i - 1];
  }

  /** The `k`-th fetch call is made by the repaint at the `k`-th fetch
      position: its time is that repaint's clock and its result what that
      repaint's fetch returned. */
  lemma FetchesAt(a: App, rs: seq<Repaint>)
    requires NeverBehind(a, rs)
    ensures var ix := FetchIndices(a, rs, 0);
            && |ix| == |FetchTimes(a, rs)| == |FetchResults(a, rs)|
            && forall k :: 0 <= k < |ix| ==>
                 FetchTimes(a, rs)[k] == rs[ix[k]].now && FetchResults(a, rs)[k] == rs[ix[k]].fetched
  {
    FetchTimesAt(a, rs, 0);
    FetchResultsAt(a, rs, 0);
  }

  /** Index bookkeeping for one repaint: if the rest of the run picks
      `tailVals` at positions `tailIx`, the whole run picks the first repaint
      (when it fetches) followed by the same values at the same positions. */
  lemma PickStep<T>(rs: seq<Repaint>, f: Repaint -> T, first: nat, fetch: bool, tailIx: seq<nat>, tailVals: seq<T>)
    requires |rs| > 0 && |tailIx| == |tailVals|
    requires forall k :: 0 <= k < |tailIx| ==> first + 1 <= tailIx[k] < first + |rs|
    requires forall k :: 0 <= k < |tailIx| ==> tailVals[k] == f(rs[1..][tailIx[k] - (first + 1)])
    ensures var ix := (if fetch then [first] else []) + tailIx;
            var vals := (if fetch then [f(rs[0])] else []) + tailVals;
            && |ix| == |vals|
            && forall k :: 0 <= k < |ix| ==> first <= ix[k] < first + |rs| && vals[k] == f(rs[ix[k] - first])
  {
    var ix := (if fetch then [first] else []) + tailIx;
    var vals := (if fetch then [f(rs[0])] else []) + tailVals;
    var d := if fetch then 1 else 0;
    forall k | d <= k < |ix|
      ensures first <= ix[k] < first + |rs| && vals[k] == f(rs[ix[k] - first])
    {
      assert ix[k] == tailIx[k - d] && vals[k] == tailVals[k - d];
      assert rs[ix[k] - first] == rs[1..][tailIx[k - d] - (first + 1)];
    }
  }

  lemma {:induction false} FetchTimesAt(a: App, rs: seq<Repaint>, first: nat)
    requires NeverBehind(a, rs)
    ensures var ix := FetchIndices(a, rs, first);
            && |ix| == |FetchTimes(a, rs)|
            && forall k :: 0 <= k < |ix| ==> FetchTimes(a, rs)[k] == rs[ix[k] - first].now
    decreases |rs|
  {
    if |rs| > 0 {
      var b := Tick(a, rs[0].now, rs[0].fetched);
      FetchTimesAt(b, rs[1..], first + 1);
      FetchStep(a, rs, first);
      PickStep(rs, (r: Repaint) => r.now, first, rs[0].now - a.updated >= UpdateRate,
               FetchIndices(b, rs[1..], first + 1), FetchTimes(b, rs[1..]));
    }
  }

  lemma {:induction false} FetchResultsAt(a: App, rs: seq<Repaint>, first: nat)
    requires NeverBehind(a, rs)
    ensures var ix := FetchIndices(a, rs, first);
            && |ix| == |FetchResults(a, rs)|
            && forall k :: 0 <= k < |ix| ==> FetchResults(a, rs)[k] == rs[ix[k] - first].fetched
    decreases |rs|
  {
    if |rs| > 0 {
      var b := Tick(a, rs[0].now, rs[0].fetched);
      FetchResultsAt(b, rs[1..], first + 1);
      FetchStep(a, rs, first);
      PickStep(rs, (r: Repaint) => r.fetched, first, rs[0].now - a.updated >= UpdateRate,
               FetchIndices(b, rs[1..], first + 1), FetchResults(b, rs[1..]));
    }
  }

  /** The value of the last `Some` in `xs`, or `default` when there is none. */
  function LastSome<T>(xs: seq<Option<T>>, default: T): (r: T)
    ensures r == default || exists i :: 0 <= i < |xs| && xs[i] == Some(r)
    ensures (forall i :: 0 <= i < |xs| ==> xs[i].None?) ==> r == default
    decreases |xs|
  {
    if |xs| == 0 then default
    else match xs[|xs| - 1]
      case Some(v) => v
      case None => LastSome(xs[..|xs| - 1], default)
  }

  lemma {:induction false} LastSomeAppend<T>(xs: seq<Option<T>>, ys: seq<Option<T>>, default: T)
    ensures LastSome(xs + ys, default) == LastSome(ys, LastSome(xs, default))
    decreases |ys|
  {
    if |ys| == 0 {
      assert xs + ys == xs;
    } else {
      assert (xs + ys)[..|xs + ys| - 1] == xs + ys[..|ys| - 1];
      LastSomeAppend(xs, ys[..|ys| - 1], default);
    }
  }

  /** Each time in `ts` comes at least `UpdateRate` after the one before. */
  predicate Spaced(ts: seq<nat>)
    decreases |ts|
  {
    |ts| <= 1 || (ts[1] >= ts[0] + UpdateRate && Spaced(ts[1..]))
  }

  /** `Spaced` read pairwise: every time is at least `UpdateRate` after its predecessor. */
  lemma {:induction false} SpacedPairwise(ts: seq<nat>, i: nat)
    requires Spaced(ts) && 0 < i < |ts|
    ensures ts[i] >= ts[i - 1] + UpdateRate
    decreases i
  {
    if i > 1 {
      SpacedPairwise(ts[1..], i - 1);
    }
  }

  /** The fetch is rate-limited: the first call comes at least `UpdateRate`
      after the timer was last reset, and every later call at least
      `UpdateRate` after the one before. */
  lemma {:induction false} FetchesSpaced(a: App, rs: seq<Repaint>)
    requires NeverBehind(a, rs)
    ensures var ts := FetchTimes(a, rs);
            && (|ts| > 0 ==> ts[0] >= a.updated + UpdateRate)
            && Spaced(ts)
    decreases |rs|
  {
    if |rs| > 0 {
      var b := Tick(a, rs[0].now, rs[0].fetched);
      assert NeverBehind(b, rs[1..]);
      FetchesSpaced(b, rs[1..]);
      var tail := FetchTimes(b, rs[1..]);
      assert |tail| > 0 ==> tail[0] >= b.updated + UpdateRate;
      if rs[0].now - a.updated >= UpdateRate {
        assert FetchTimes(a, rs) == [rs[0].now] + tail;
        assert b.updated == rs[0].now;
        assert ([rs[0].now] + tail)[1..] == tail;
      } else {
        assert b == a;
        assert FetchTimes(a, rs) == tail;
      }
    }
  }

  /** The timer holds the time of the last fetch call, or its start value
      when no repaint fetched. */
  lemma {:induction false} TimerIsLastFetch(a: App, rs: seq<Repaint>)
    requires NeverBehind(a, rs)
    ensures var ts := FetchTimes(a, rs);
            && (|ts| > 0 ==> Run(a, rs).updated == ts[|ts| - 1])
            && (|ts| == 0 ==> Run(a, rs).updated == a.updated)
    decreases |rs|
  {
    if |rs| > 0 {
      var b := Tick(a, rs[0].now, rs[0].fetched);
      TimerIsLastFetch(b, rs[1..]);
      var tail := FetchTimes(b, rs[1..]);
      if rs[0].now - a.updated >= UpdateRate {
        assert FetchTimes(a, rs) == [rs[0].now] + tail;
      } else {
        assert FetchTimes(a, rs) == tail;
      }
    }
  }

  /** At most one fetch per `UpdateRate` of elapsed time. */
  lemma {:induction false} FetchCountBounded(a: App, rs: seq<Repaint>)
    requires NeverBehind(a, rs)
    ensures |FetchTimes(a, rs)| * UpdateRate <= Run(a, rs).updated - a.updated
    decreases |rs|
  {
    if |rs| > 0 {
      var b := Tick(a, rs[0].now, rs[0].fetched);
      FetchCountBounded(b, rs[1..]);
      var tail := FetchTimes(b, rs[1..]);
      if rs[0].now - a.updated >= UpdateRate {
        assert FetchTimes(a, rs) == [rs[0].now] + tail;
        assert (|tail| + 1) * UpdateRate == |tail| * UpdateRate + UpdateRate;
      } else {
        assert FetchTimes(a, rs) == tail;
      }
    }
  }

  /** The shown list is the result of the last successful fetch call, or
      the start-up list when no call has succeeded; repaints that did not
      fetch play no part. */
  lemma {:induction false} ShownIsFetched(a: App, rs: seq<Repaint>)
    requires NeverBehind(a, rs)
    ensures Run(a, rs).trains == LastSome(FetchResults(a, rs), a.trains)
    ensures var results := FetchResults(a, rs);
            Run(a, rs).trains == a.trains ||
            exists i :: 0 <= i < |results| && results[i] == Some(Run(a, rs).trains)
    decreases |rs|
  {
    if |rs| > 0 {
      var b := Tick(a, rs[0].now, rs[0].fetched);
      ShownIsFetched(b, rs[1..]);
      var head: seq<Option<seq<Train>>> :=
        if rs[0].now - a.updated >= UpdateRate then [rs[0].fetched] else [];
      assert FetchResults(a, rs) == head + FetchResults(b, rs[1..]);
      assert b.trains == LastSome(head, a.trains);
      LastSomeAppend(head, FetchResults(b, rs[1..]), a.trains);
    }
  }

  /** Failed fetches change nothing: when every fetch in a run fails, the
      shown list stays what it was. */
  lemma {:induction false} FailuresKeepList(a: App, rs: seq<Repaint>)
    requires NeverBehind(a, rs)
    requires forall i :: 0 <= i < |rs| ==> rs[i].fetched.None?
    ensures Run(a, rs).trains == a.trains
    decreases |rs|
  {
    if |rs| > 0 {
      var b := Tick(a, rs[0].now, rs[0].fetched);
      FailuresKeepList(b, rs[1..]);
    }
  }
}
