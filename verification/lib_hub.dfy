/** The train list of the threaded app (src/lib.rs) and the channel that
    feeds it. A polling thread sends every successful fetch down an unbounded
    FIFO channel; each repaint takes at most one list off the channel without
    waiting and, if it got one, replaces the shown list wholesale. The model
    is the consumer's sequential view: the channel is the queue of lists sent
    and not yet received. */
module LibHub {
  import opened Wrappers
  import opened Trains

  /** Lists sent on the channel and not yet received, oldest first. */
  type Queue = seq<seq<Train>>

  /** `rx` is absent until `setup` creates the channel. */
  datatype App = App(trains: seq<Train>, rx: Option<Queue>)

  /** `Paab::new` on the native target: the list of one blocking fetch at
      start-up, or empty if it fails; no channel yet. */
  function New(bootstrap: Option<seq<Train>>): (a: App)
    ensures a.rx.None?
    ensures bootstrap.Some? ==> a.trains == bootstrap.value
    ensures bootstrap.None? ==> a.trains == []
  {
    App(bootstrap.GetOr([]), None)
  }

  /** `setup`: a fresh, empty channel; the shown list is kept. */
  function Setup(a: App): (r: App)
    ensures r.trains == a.trains && r.rx == Some([])
  {
    a.(rx := Some([]))
  }

  /** One pass of the polling thread: a successful fetch is sent, a failed
      one is dropped. */
  function Publish(q: Queue, fetched: Option<seq<Train>>): (r: Queue)
    ensures fetched.Some? ==> r == q + [fetched.value]
    ensures fetched.None? ==> r == q
  {
    match fetched
    case Some(list) => q + [list]
    case None => q
  }

  /** One repaint: `try_recv` takes the oldest list sent, if any, and it
      replaces the shown list; an empty channel or no channel at all leaves
      everything as it was. */
  function Tick(a: App): (r: App)
    ensures a.rx.Some? && |a.rx.value| > 0 ==>
              r.trains == a.rx.value[0] && r.rx == Some(a.rx.value[1..])
    ensures a.rx.None? || a.rx == Some([]) ==> r == a
    ensures r.rx.None? <==> a.rx.None?
  {
    match a.rx
    case Some(q) => if |q| > 0 then App(q[0], Some(q[1..])) else a
    case None => a
  }

  /** What can happen after `setup`: the thread finishes a fetch, or the UI repaints. */
  datatype Event = Fetched(result: Option<seq<Train>>) | Repaint

  function Step(a: App, e: Event): (r: App)
    requires a.rx.Some?
    ensures r.rx.Some?
  {
    match e
    case Fetched(result) => a.(rx := Some(Publish(a.rx.value, result)))
    case Repaint => Tick(a)
  }

  function Run(a: App, es: seq<Event>): (r: App)
    requires a.rx.Some?
    ensures r.rx.Some?
    decreases |es|
  {
    if |es| == 0 then a else Run(Step(a, es[0]), es[1..])
  }

  /** The list one event makes the app adopt: the head of the channel on a
      repaint that finds one, nothing otherwise. */
  function AdoptedBy(a: App, e: Event): seq<seq<Train>>
    requires a.rx.Some?
  {
    if e.Repaint? && |a.rx.value| > 0 then [a.rx.value[0]] else []
  }

  /** The list one event sends: the result of a successful fetch. */
  function SentBy(e: Event): seq<seq<Train>> {
    if e.Fetched? && e.result.Some? then [e.result.value] else []
  }

  /** The lists the repaints in `es` adopt, in the order they adopt them. */
  function Adopted(a: App, es: seq<Event>): seq<seq<Train>>
    requires a.rx.Some?
    decreases |es|
  {
    if |es| == 0 then [] else AdoptedBy(a, es[0]) + Adopted(Step(a, es[0]), es[1..])
  }

  /** The successful fetch results among `es`, in the order they were sent. */
  function Successes(es: seq<Event>): seq<seq<Train>>
    decreases |es|
  {
    if |es| == 0 then [] else SentBy(es[0]) + Successes(es[1..])
  }

  /** One event keeps the channel's books: what it adopts, then what remains
      queued, is what was queued, then what it sends. */
  lemma StepIsFifo(a: App, e: Event)
    requires a.rx.Some?
    ensures AdoptedBy(a, e) + Step(a, e).rx.value == a.rx.value + SentBy(e)
  {
    var q := a.rx.value;
    if e.Repaint? && |q| > 0 {
      assert q == [q[0]] + q[1..];
    }
  }

  lemma Regroup<T>(x: seq<T>, a: seq<T>, r: seq<T>, q: seq<T>, y: seq<T>, qb: seq<T>, sent: seq<T>)
    requires a + r == qb + sent && x + qb == q + y
    ensures (x + a) + r == q + (y + sent)
  {
    calc {
      (x + a) + r;
      x + (a + r);
      x + (qb + sent);
      (x + qb) + sent;
      (q + y) + sent;
      q + (y + sent);
    }
  }

  /** Nothing is lost, duplicated, invented or reordered: the lists adopted so
      far, followed by those still queued, are exactly the lists that were
      queued at the start followed by every successful fetch, in send order. */
  lemma {:induction false} ChannelIsFifo(a: App, es: seq<Event>)
    requires a.rx.Some?
    ensures Adopted(a, es) + Run(a, es).rx.value == a.rx.value + Successes(es)
    decreases |es|
  {
    if |es| == 0 {
      assert Adopted(a, es) + a.rx.value == a.rx.value;
      assert a.rx.value + Successes(es) == a.rx.value;
    } else {
      var e := es[0];
      var b := Step(a, e);
      ChannelIsFifo(b, es[1..]);
      StepIsFifo(a, e);
      Regroup(AdoptedBy(a, e), Adopted(b, es[1..]), Run(b, es[1..]).rx.value,
              a.rx.value, SentBy(e), b.rx.value, Successes(es[1..]));
    }
  }

  /** The shown list is always the one the app started with or the last list
      a repaint adopted. */
  lemma {:induction false} ShownIsLastAdopted(a: App, es: seq<Event>)
    requires a.rx.Some?
    ensures var adopted := Adopted(a, es);
            Run(a, es).trains == if |adopted| == 0 then a.trains else adopted[|adopted| - 1]
    decreases |es|
  {
    if |es| > 0 {
      ShownIsLastAdopted(Step(a, es[0]), es[1..]);
    }
  }

  /** Repaints with nothing sent deliver the queued lists one per repaint, in
      send order. */
  lemma {:induction false} RepaintsDrainInOrder(a: App, k: nat)
    requires a.rx.Some? && k <= |a.rx.value|
    ensures var r := Run(a, seq(k, _ => Repaint));
            && Adopted(a, seq(k, _ => Repaint)) == a.rx.value[..k]
            && r.rx == Some(a.rx.value[k..])
            && (k > 0 ==> r.trains == a.rx.value[k - 1])
    decreases k
  {
    if k > 0 {
      var es := seq(k, _ => Repaint);
      assert es[1..] == seq(k - 1, _ => Repaint);
      var b := Tick(a);
      RepaintsDrainInOrder(b, k - 1);
      var q := a.rx.value;
      assert b.rx.value == q[1..];
      assert q[..k] == [q[0]] + q[1..][..k - 1];
      assert q[1..][k - 1..] == q[k..];
    }
  }

  /** Failed fetches change nothing: with an empty channel, a run in which
      every fetch fails leaves the app as it was. */
  lemma {:induction false} FailuresKeepList(a: App, es: seq<Event>)
    requires a.rx == Some([])
    requires forall i :: 0 <= i < |es| ==> es[i].Fetched? ==> es[i].result.None?
    ensures Run(a, es) == a
    decreases |es|
  {
    if |es| > 0 {
      assert Step(a, es[0]) == a;
      FailuresKeepList(a, es[1..]);
    }
  }

  /** The channel is FIFO: when two lists are sent before a repaint, the
      repaint shows the older one and the newer one waits. */
  lemma OlderListShownFirst(a: App, older: seq<Train>, newer: seq<Train>)
    requires a.rx == Some([])
    ensures Run(a, [Fetched(Some(older)), Fetched(Some(newer)), Repaint]) == App(older, Some([newer]))
  {
    var es := [Fetched(Some(older)), Fetched(Some(newer)), Repaint];
    var a1 := Step(a, es[0]);
    assert Publish([], Some(older)) == [older];
    assert a1.rx == Some([older]);
    var a2 := Step(a1, es[1]);
    assert Publish([older], Some(newer)) == [older, newer];
    assert a2.rx == Some([older, newer]);
    var a3 := Step(a2, es[2]);
    assert a3 == App(older, Some([newer]));
    assert es[1..] == [Fetched(Some(newer)), Repaint];
    assert es[1..][1..] == [Repaint];
    assert Run(a2, [Repaint]) == a3;
  }
}
