/** The `IntersectionObserver` callback that starts the stat counters
    (script.js:165-185). Elements are numbered; the page's `data-value`
    attributes are a map from element to attribute text (a missing key is a
    missing attribute). "Intersecting" is an input flag of each entry: the
    visibility geometry (threshold 0.5, bottom margin -100px) is not
    modelled. */
module Observer {
  import opened Wrappers
  import JsParseInt

  type ElementId = nat

  /** One `IntersectionObserverEntry` handed to the callback. */
  datatype Entry = Entry(target: ElementId, isIntersecting: bool)

  /** A call `animateCounter(element, parseInt(value, 10), 2000)`; a `None`
      target is `NaN`. */
  datatype Request = Request(element: ElementId, target: Option<int>, duration: int)

  /** The observer: the elements it still watches and, in order, the
      counter animations its callback has started. */
  datatype Watcher = Watcher(observed: set<ElementId>, started: seq<Request>)

  /** The fixed animation length passed by the callback (script.js:174). */
  const CounterDuration := 2000

  /** Every `.stat-number` element is observed and nothing has started yet
      (script.js:183-185). */
  function Init(counters: set<ElementId>): (w: Watcher)
    ensures w.observed == counters && w.started == []
  {
    Watcher(counters, [])
  }

  /** The callback's guard: the entry intersects and its element carries a
      `data-value` that is truthy, that is present and not the empty
      string. */
  predicate Fires(values: map<ElementId, string>, e: Entry) {
    e.isIntersecting && e.target in values && values[e.target] != ""
  }

  /** The request the callback issues for an entry that fires. */
  function RequestFor(values: map<ElementId, string>, e: Entry): (r: Request)
    requires e.target in values
    ensures r.element == e.target && r.duration == CounterDuration
    ensures r.target == JsParseInt.ParseInt(values[e.target])
  {
    Request(e.target, JsParseInt.ParseInt(values[e.target]), CounterDuration)
  }

  /** The callback's work for one entry: an entry that fires starts one
      animation and stops observing its element; any other entry changes
      nothing. The guard does not ask whether the element is still
      observed. */
  function HandleEntry(w: Watcher, values: map<ElementId, string>, e: Entry): (w': Watcher)
    ensures Fires(values, e) ==>
      w'.observed == w.observed - {e.target} && w'.started == w.started + [RequestFor(values, e)]
    ensures !Fires(values, e) ==> w' == w
  {
    if Fires(values, e) then
      Watcher(w.observed - {e.target}, w.started + [RequestFor(values, e)])
    else
      w
  }

  /** The callback over a batch of entries, handled in order. */
  function Callback(w: Watcher, values: map<ElementId, string>, entries: seq<Entry>): Watcher
    decreases |entries|
  {
    if |entries| == 0 then w
    else Callback(HandleEntry(w, values, entries[0]), values, entries[1..])
  }

  /** The requests a batch issues, as an independent filter over the batch. */
  function Requests(values: map<ElementId, string>, entries: seq<Entry>): (rs: seq<Request>)
    ensures |rs| <= |entries|
  {
    if |entries| == 0 then []
    else (if Fires(values, entries[0]) then [RequestFor(values, entries[0])] else [])
         + Requests(values, entries[1..])
  }

  /** The targets of a batch's entries that fire. */
  function FiredTargets(values: map<ElementId, string>, entries: seq<Entry>): set<ElementId> {
    set i | 0 <= i < |entries| && Fires(values, entries[i]) :: entries[i].target
  }

  /** The firing targets of a batch: its first entry's, if it fires, and
      the rest's. */
  lemma FiredTargetsCons(values: map<ElementId, string>, entries: seq<Entry>)
    requires |entries| > 0
    ensures FiredTargets(values, entries)
         == (if Fires(values, entries[0]) then {entries[0].target} else {})
            + FiredTargets(values, entries[1..])
  {
    var tail := FiredTargets(values, entries[1..]);
    forall x | x in FiredTargets(values, entries)
      ensures x == entries[0].target || x in tail
    {
      var i :| 0 <= i < |entries| && Fires(values, entries[i]) && entries[i].target == x;
      if i > 0 {
        assert entries[1..][i - 1] == entries[i];
      }
    }
    forall x | x in tail
      ensures x in FiredTargets(values, entries)
    {
      var i :| 0 <= i < |entries[1..]| && Fires(values, entries[1..][i]) && entries[1..][i].target == x;
      assert entries[i + 1] == entries[1..][i];
    }
  }

  /** A batch appends exactly its firing entries' requests, in batch order,
      and stops observing exactly their elements. */
  lemma {:induction false} CallbackEffect(w: Watcher, values: map<ElementId, string>, entries: seq<Entry>)
    ensures Callback(w, values, entries).started == w.started + Requests(values, entries)
    ensures Callback(w, values, entries).observed == w.observed - FiredTargets(values, entries)
    decreases |entries|
  {
    if |entries| > 0 {
      var w1 := HandleEntry(w, values, entries[0]);
      CallbackEffect(w1, values, entries[1..]);
      FiredTargetsCons(values, entries);
    } else {
      assert FiredTargets(values, entries) == {};
    }
  }

  /** An intersecting element without a usable `data-value` is neither
      animated nor unobserved: it stays watched for a later batch. */
  lemma NoValueStaysObserved(w: Watcher, values: map<ElementId, string>, e: ElementId)
    requires e !in values || values[e] == ""
    ensures Callback(w, values, [Entry(e, true)]) == w
  {
  }

  /** How many requests in `rs` animate element `e`. */
  function CountFor(rs: seq<Request>, e: ElementId): (n: nat)
    ensures n <= |rs|
  {
    if |rs| == 0 then 0
    else (if rs[|rs| - 1].element == e then 1 else 0) + CountFor(rs[..|rs| - 1], e)
  }

  lemma CountForAppend(rs: seq<Request>, r: Request, e: ElementId)
    ensures CountFor(rs + [r], e) == CountFor(rs, e) + (if r.element == e then 1 else 0)
  {
    assert (rs + [r])[..|rs|] == rs;
  }

  /** The at-most-once invariant: every element has been animated at most
      once, and an animated element is no longer observed. */
  ghost predicate AtMostOnce(w: Watcher) {
    forall e :: CountFor(w.started, e) <= 1 && (CountFor(w.started, e) == 1 ==> e !in w.observed)
  }

  /** A batch as the browser delivers it: entries only for observed
      elements, and each element at most once. */
  predicate Delivered(w: Watcher, entries: seq<Entry>) {
    && (forall i :: 0 <= i < |entries| ==> entries[i].target in w.observed)
    && (forall i, j :: 0 <= i < j < |entries| ==> entries[i].target != entries[j].target)
  }

  /** A delivered batch keeps the at-most-once invariant. */
  lemma {:induction false} CallbackKeepsAtMostOnce(w: Watcher, values: map<ElementId, string>, entries: seq<Entry>)
    requires AtMostOnce(w) && Delivered(w, entries)
    ensures AtMostOnce(Callback(w, values, entries))
    decreases |entries|
  {
    if |entries| > 0 {
      var e := entries[0];
      var w1 := HandleEntry(w, values, e);
      if Fires(values, e) {
        forall x
          ensures CountFor(w1.started, x) <= 1
          ensures CountFor(w1.started, x) == 1 ==> x !in w1.observed
        {
          CountForAppend(w.started, RequestFor(values, e), x);
        }
      }
      forall i | 0 <= i < |entries[1..]|
        ensures entries[1..][i].target in w1.observed
      {
        assert entries[1..][i] == entries[i + 1];
      }
      forall i, j | 0 <= i < j < |entries[1..]|
        ensures entries[1..][i].target != entries[1..][j].target
      {
        assert entries[1..][i] == entries[i + 1] && entries[1..][j] == entries[j + 1];
      }
      CallbackKeepsAtMostOnce(w1, values, entries[1..]);
    }
  }

  /** A run of delivered batches from `Init`: each counter is animated at
      most once, however often it re-enters the viewport. */
  function RunBatches(w: Watcher, values: map<ElementId, string>, batches: seq<seq<Entry>>): Watcher
    decreases |batches|
  {
    if |batches| == 0 then w
    else RunBatches(Callback(w, values, batches[0]), values, batches[1..])
  }

  /** Every batch of a run is delivered against the watcher it reaches. */
  predicate DeliveredRun(w: Watcher, values: map<ElementId, string>, batches: seq<seq<Entry>>)
    decreases |batches|
  {
    |batches| == 0
    || (Delivered(w, batches[0]) && DeliveredRun(Callback(w, values, batches[0]), values, batches[1..]))
  }

  lemma {:induction false} AnimatedAtMostOnce(counters: set<ElementId>, values: map<ElementId, string>,
                                               batches: seq<seq<Entry>>, e: ElementId)
    requires DeliveredRun(Init(counters), values, batches)
    ensures CountFor(RunBatches(Init(counters), values, batches).started, e) <= 1
  {
    RunKeepsAtMostOnce(Init(counters), values, batches);
  }

  lemma {:induction false} RunKeepsAtMostOnce(w: Watcher, values: map<ElementId, string>, batches: seq<seq<Entry>>)
    requires AtMostOnce(w) && DeliveredRun(w, values, batches)
    ensures AtMostOnce(RunBatches(w, values, batches))
    decreases |batches|
  {
    if |batches| > 0 {
      CallbackKeepsAtMostOnce(w, values, batches[0]);
      RunKeepsAtMostOnce(Callback(w, values, batches[0]), values, batches[1..]);
    }
  }

  /** The guarantee rests on the browser: the callback does not recheck that
      an element is still observed, so a batch naming the same intersecting
      element twice animates it twice. */
  lemma RepeatedEntryAnimatesTwice()
    ensures var w := Callback(Init({0}), map[0 := "831"], [Entry(0, true), Entry(0, true)]);
      CountFor(w.started, 0) == 2
  {
    var values := map[0 := "831"];
    var r := RequestFor(values, Entry(0, true));
    var w1 := HandleEntry(Init({0}), values, Entry(0, true));
    assert w1.started == [r];
    var w2 := HandleEntry(w1, values, Entry(0, true));
    assert w2.started == [r, r];
    assert [Entry(0, true), Entry(0, true)][1..] == [Entry(0, true)];
    assert Callback(Init({0}), values, [Entry(0, true), Entry(0, true)]) == w2;
    assert [r, r][..1] == [r];
  }
}
