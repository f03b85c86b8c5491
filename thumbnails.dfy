/**
 * The background thumbnail generator (db.py, class ThumbWorker), run
 * sequentially. `_run` walks the pending `(rel_path, abs_path)` pairs; for
 * each it checks the stop flag, asks the image library for JPEG bytes,
 * stores non-empty bytes with `set_thumb`, and posts an event on the queue.
 *
 * The image library is the oracle `generate`. The other thread's `stop()`
 * is the index `stopAt` of the first iteration that sees the flag set.
 * What the run does, in order, is the effect trace `Trace`. Its events are
 * what the queue receives, and its stores are what the table receives.
 */
module Thumbnails {
  import opened Wrappers
  import opened Store

  /** The bounding box `_generate` scales thumbnails into. */
  const ThumbSize: nat := 128

  /** The tuples `_run` puts on the queue: `("thumb", rel_path, bytes, i + 1,
      total)`, `("done", None, None, total, total)` and `("abort", None, None,
      0, 0)`. */
  datatype Event =
    | Thumb(relPath: string, jpeg: Option<Bytes>, count: nat, total: nat)
    | Done(count: nat, total: nat)
    | Abort(count: nat, total: nat)

  /** One observable step of a run: a `set_thumb` call or a queue put. */
  datatype Effect = Persist(relPath: string, jpeg: Bytes) | Emit(event: Event)

  /** Python truthiness of `_generate`'s result: neither None nor empty. */
  function Truthy(b: Option<Bytes>): (t: bool)
    ensures !t <==> b == None || b == Some([])
  {
    b.Some? && b.value != []
  }

  /** The effects of iteration `i` on `item`: store the bytes when they are
      truthy, then post the item's event. */
  function StepEffects(item: (string, string), i: nat, total: nat, generate: string -> Option<Bytes>): (es: seq<Effect>)
    ensures var b := generate(item.1);
            && |es| == (if Truthy(b) then 2 else 1)
            && es[|es| - 1] == Emit(Thumb(item.0, b, i + 1, total))
            && (Truthy(b) ==> es[0] == Persist(item.0, b.value))
  {
    var b := generate(item.1);
    (if Truthy(b) then [Persist(item.0, b.value)] else []) + [Emit(Thumb(item.0, b, i + 1, total))]
  }

  /** An effect an iteration may have: storing non-empty bytes, or posting
      a `thumb` event. */
  predicate ThumbStep(e: Effect) {
    match e
    case Persist(_, jpeg) => jpeg != []
    case Emit(ev) => ev.Thumb?
  }

  /** The effects of the first `n` iterations, none of which saw the stop. */
  function Steps(pending: seq<(string, string)>, n: nat, generate: string -> Option<Bytes>): (es: seq<Effect>)
    requires n <= |pending|
    ensures n <= |es| <= 2 * n
    ensures forall j :: 0 <= j < |es| ==> ThumbStep(es[j])
  {
    if n == 0 then []
    else Steps(pending, n - 1, generate) + StepEffects(pending[n - 1], n - 1, |pending|, generate)
  }

  /** Everything `_run(pending)` does when the stop is first seen before
      iteration `stopAt` (never, when `stopAt >= |pending|`). */
  function Trace(pending: seq<(string, string)>, stopAt: nat, generate: string -> Option<Bytes>): (es: seq<Effect>)
    ensures |es| >= 1 && forall j :: 0 <= j < |es| - 1 ==> ThumbStep(es[j])
    ensures es[|es| - 1] == Emit(if stopAt < |pending| then Abort(0, 0) else Done(|pending|, |pending|))
  {
    if stopAt < |pending| then Steps(pending, stopAt, generate) + [Emit(Abort(0, 0))]
    else Steps(pending, |pending|, generate) + [Emit(Done(|pending|, |pending|))]
  }

  /** The queue puts of a trace, in order. */
  function Events(effects: seq<Effect>): (es: seq<Event>)
    ensures |es| <= |effects|
  {
    if effects == [] then []
    else
      var n := |effects| - 1;
      Events(effects[..n]) + (if effects[n].Emit? then [effects[n].event] else [])
  }

  /** The queue receives exactly the events the trace emits. */
  lemma {:induction false} EventsMembers(effects: seq<Effect>)
    ensures forall e :: e in Events(effects) <==> Emit(e) in effects
    decreases |effects|
  {
    if effects != [] {
      var n := |effects| - 1;
      EventsMembers(effects[..n]);
      assert effects == effects[..n] + [effects[n]];
    }
  }

  /** The table after the `set_thumb` calls of a trace, in order. */
  function Persisted(rows: Table, effects: seq<Effect>): Table {
    if effects == [] then rows
    else
      var n := |effects| - 1;
      var prev := Persisted(rows, effects[..n]);
      if effects[n].Persist? then WithThumb(prev, effects[n].relPath, Some(effects[n].jpeg)) else prev
  }

  /** `q` is `q0` after the queue puts of `effects`, and `r` is `r0` after
      their `set_thumb` calls. */
  ghost predicate Applied(q0: seq<Event>, q: seq<Event>, r0: Table, r: Table, effects: seq<Effect>) {
    q == q0 + Events(effects) && r == Persisted(r0, effects)
  }

  /** Applying `a` and then `b` applies `a + b`. */
  lemma AppliedStep(q0: seq<Event>, q1: seq<Event>, q2: seq<Event>, r0: Table, r1: Table, r2: Table, a: seq<Effect>, b: seq<Effect>)
    requires Applied(q0, q1, r0, r1, a) && Applied(q1, q2, r1, r2, b)
    ensures Applied(q0, q2, r0, r2, a + b)
  {
    EventsAppend(a, b);
    PersistedAppend(r0, a, b);
  }

  lemma {:induction false} EventsAppend(a: seq<Effect>, b: seq<Effect>)
    ensures Events(a + b) == Events(a) + Events(b)
    decreases |b|
  {
    if b == [] {
      assert a + b == a;
    } else {
      var n := |b| - 1;
      assert (a + b)[..|a + b| - 1] == a + b[..n];
      EventsAppend(a, b[..n]);
    }
  }

  lemma {:induction false} PersistedAppend(rows: Table, a: seq<Effect>, b: seq<Effect>)
    ensures Persisted(rows, a + b) == Persisted(Persisted(rows, a), b)
    decreases |b|
  {
    if b == [] {
      assert a + b == a;
    } else {
      var n := |b| - 1;
      assert (a + b)[..|a + b| - 1] == a + b[..n];
      PersistedAppend(rows, a, b[..n]);
    }
  }

  /** The final event of a run adds itself to the queue and stores nothing. */
  lemma Finished(q: seq<Event>, rows: Table, last: Event)
    ensures Applied(q, q + [last], rows, rows, [Emit(last)])
  {
    assert [Emit(last)][..0] == [];
  }

  /** The events of one iteration: exactly the item's `thumb` event. */
  lemma StepEvents(item: (string, string), i: nat, total: nat, generate: string -> Option<Bytes>)
    ensures Events(StepEffects(item, i, total, generate)) == [Thumb(item.0, generate(item.1), i + 1, total)]
  {
    var e := StepEffects(item, i, total, generate);
    if Truthy(generate(item.1)) {
      assert e[..1] == [e[0]];
      assert Events(e[..1]) == Events([]) + [];
    } else {
      assert e[..0] == [];
    }
  }

  /** The stores of one iteration: its truthy bytes, if any. */
  lemma StepPersisted(rows: Table, item: (string, string), i: nat, total: nat, generate: string -> Option<Bytes>)
    ensures var b := generate(item.1);
            Persisted(rows, StepEffects(item, i, total, generate)) == if Truthy(b) then WithThumb(rows, item.0, Some(b.value)) else rows
  {
    var e := StepEffects(item, i, total, generate);
    if Truthy(generate(item.1)) {
      assert e[..1] == [e[0]] && e[..1][..0] == [];
      assert Persisted(rows, e) == Persisted(rows, e[..1]);
      assert Persisted(rows, e[..1]) == WithThumb(Persisted(rows, []), item.0, Some(generate(item.1).value));
    } else {
      assert e[..0] == [];
    }
  }

  /** Iteration `n - 1` adds exactly its `thumb` event to the events so far. */
  lemma StepsEventsSnoc(pending: seq<(string, string)>, n: nat, generate: string -> Option<Bytes>)
    requires 0 < n <= |pending|
    ensures Events(Steps(pending, n, generate)) ==
            Events(Steps(pending, n - 1, generate)) + [Thumb(pending[n - 1].0, generate(pending[n - 1].1), n, |pending|)]
  {
    var prev := Steps(pending, n - 1, generate);
    var step := StepEffects(pending[n - 1], n - 1, |pending|, generate);
    assert Steps(pending, n, generate) == prev + step;
    EventsAppend(prev, step);
    StepEvents(pending[n - 1], n - 1, |pending|, generate);
  }

  /** The `thumb` events of items `0..n-1`, counted `1..n` of `|pending|`. */
  predicate ThumbEvents(es: seq<Event>, pending: seq<(string, string)>, n: nat, generate: string -> Option<Bytes>)
    requires n <= |pending|
  {
    |es| == n && forall k :: 0 <= k < n ==> es[k] == Thumb(pending[k].0, generate(pending[k].1), k + 1, |pending|)
  }

  /** Appending item `n - 1`'s event to the events of the items before it
      gives the events of the first `n` items. */
  lemma ThumbEventsSnoc(prev: seq<Event>, pending: seq<(string, string)>, n: nat, generate: string -> Option<Bytes>)
    requires 0 < n <= |pending| && ThumbEvents(prev, pending, n - 1, generate)
    ensures ThumbEvents(prev + [Thumb(pending[n - 1].0, generate(pending[n - 1].1), n, |pending|)], pending, n, generate)
  {
  }

  /** The events of the first `n` iterations are their `thumb` events, with
      the input's relative paths in order and counts `1..n`. */
  lemma {:induction false} StepsEvents(pending: seq<(string, string)>, n: nat, generate: string -> Option<Bytes>)
    requires n <= |pending|
    ensures ThumbEvents(Events(Steps(pending, n, generate)), pending, n, generate)
  {
    if n > 0 {
      StepsEvents(pending, n - 1, generate);
      StepsEventsSnoc(pending, n, generate);
      ThumbEventsSnoc(Events(Steps(pending, n - 1, generate)), pending, n, generate);
    }
  }

  /** The queue protocol of `_run`: one `thumb` event per item handled, for
      the input's relative paths in order with counts `1..m`, then a single
      `("done", total, total)` when no stop was seen, or a single
      `("abort", 0, 0)` when it was seen before item `m`. */
  lemma RunEvents(pending: seq<(string, string)>, stopAt: nat, generate: string -> Option<Bytes>)
    ensures var m := if stopAt < |pending| then stopAt else |pending|;
            var es := Events(Trace(pending, stopAt, generate));
            && |es| == m + 1
            && (forall k :: 0 <= k < m ==> es[k] == Thumb(pending[k].0, generate(pending[k].1), k + 1, |pending|))
            && es[m] == if stopAt < |pending| then Abort(0, 0) else Done(|pending|, |pending|)
  {
    var m := if stopAt < |pending| then stopAt else |pending|;
    var last := if stopAt < |pending| then Abort(0, 0) else Done(|pending|, |pending|);
    StepsEvents(pending, m, generate);
    EventsAppend(Steps(pending, m, generate), [Emit(last)]);
    assert Events([Emit(last)]) == Events([]) + [last];
  }

  /** Every `set_thumb` of the first `n` iterations stores the truthy bytes
      of an item handled in them, and is followed at once by that item's
      event. */
  lemma {:induction false} StepsPersistOrigin(pending: seq<(string, string)>, n: nat, generate: string -> Option<Bytes>, j: nat)
    requires n <= |pending|
    requires j < |Steps(pending, n, generate)| && Steps(pending, n, generate)[j].Persist?
    ensures var e := Steps(pending, n, generate)[j];
            exists k :: 0 <= k < n && pending[k].0 == e.relPath && generate(pending[k].1) == Some(e.jpeg) && e.jpeg != []
                        && j + 1 < |Steps(pending, n, generate)|
                        && Steps(pending, n, generate)[j + 1] == Emit(Thumb(e.relPath, Some(e.jpeg), k + 1, |pending|))
  {
    var prev := Steps(pending, n - 1, generate);
    var step := StepEffects(pending[n - 1], n - 1, |pending|, generate);
    assert Steps(pending, n, generate) == prev + step;
    if j < |prev| {
      StepsPersistOrigin(pending, n - 1, generate, j);
    } else {
      assert step[j - |prev|].Persist?;
      assert j - |prev| == 0 && Truthy(generate(pending[n - 1].1));
    }
  }

  /** Every `thumb` event of the first `n` iterations that carries truthy
      bytes comes right after the `set_thumb` that stored them. */
  lemma {:induction false} StepsEmitAfterPersist(pending: seq<(string, string)>, n: nat, generate: string -> Option<Bytes>, j: nat)
    requires n <= |pending|
    requires j < |Steps(pending, n, generate)|
    requires var e := Steps(pending, n, generate)[j]; e.Emit? && e.event.Thumb? && Truthy(e.event.jpeg)
    ensures var e := Steps(pending, n, generate)[j];
            0 < j && Steps(pending, n, generate)[j - 1] == Persist(e.event.relPath, e.event.jpeg.value)
  {
    var prev := Steps(pending, n - 1, generate);
    var step := StepEffects(pending[n - 1], n - 1, |pending|, generate);
    assert Steps(pending, n, generate) == prev + step;
    if j < |prev| {
      StepsEmitAfterPersist(pending, n - 1, generate, j);
    } else {
      assert Truthy(generate(pending[n - 1].1));
      assert j - |prev| == 1;
    }
  }

  /** `_run` calls `set_thumb` only with non-empty bytes, only for items it
      reached before the stop, and right before that item's event; and each
      event carrying bytes follows their `set_thumb`. */
  lemma RunPersists(pending: seq<(string, string)>, stopAt: nat, generate: string -> Option<Bytes>, j: nat)
    requires j < |Trace(pending, stopAt, generate)|
    ensures var tr := Trace(pending, stopAt, generate);
            tr[j].Persist? ==>
              exists k :: 0 <= k < |pending| && k < stopAt && pending[k].0 == tr[j].relPath
                          && generate(pending[k].1) == Some(tr[j].jpeg) && tr[j].jpeg != []
                          && j + 1 < |tr| && tr[j + 1] == Emit(Thumb(tr[j].relPath, Some(tr[j].jpeg), k + 1, |pending|))
    ensures var tr := Trace(pending, stopAt, generate);
            tr[j].Emit? && tr[j].event.Thumb? && Truthy(tr[j].event.jpeg) ==>
              0 < j && tr[j - 1] == Persist(tr[j].event.relPath, tr[j].event.jpeg.value)
  {
    var m := if stopAt < |pending| then stopAt else |pending|;
    var tr := Trace(pending, stopAt, generate);
    var steps := Steps(pending, m, generate);
    assert tr == steps + [tr[|tr| - 1]];
    if j < |steps| {
      assert tr[j] == steps[j];
      if steps[j].Persist? {
        StepsPersistOrigin(pending, m, generate, j);
      }
      if steps[j].Emit? && steps[j].event.Thumb? && Truthy(steps[j].event.jpeg) {
        StepsEmitAfterPersist(pending, m, generate, j);
      }
    }
  }

  /** `set_thumb` calls keep the table's keys, and a stored row ends with a
      thumbnail, whatever was stored after it. */
  lemma {:induction false} PersistedFills(rows: Table, effects: seq<Effect>, rp: string)
    ensures Persisted(rows, effects).Keys == rows.Keys
    ensures rp in rows && (exists j :: 0 <= j < |effects| && effects[j].Persist? && effects[j].relPath == rp) ==>
              Persisted(rows, effects)[rp].thumb.Some?
    ensures rp in rows && rows[rp].thumb.Some? ==> Persisted(rows, effects)[rp].thumb.Some?
  {
    if effects != [] {
      var n := |effects| - 1;
      PersistedFills(rows, effects[..n], rp);
      if rp in rows && (exists j :: 0 <= j < |effects| && effects[j].Persist? && effects[j].relPath == rp) {
        var j :| 0 <= j < |effects| && effects[j].Persist? && effects[j].relPath == rp;
        if j < n {
          assert effects[..n][j] == effects[j];
        }
      }
    }
  }

  lemma {:induction false} StepsHavePersist(pending: seq<(string, string)>, n: nat, generate: string -> Option<Bytes>, k: nat)
    requires k < n <= |pending| && Truthy(generate(pending[k].1))
    ensures Persist(pending[k].0, generate(pending[k].1).value) in Steps(pending, n, generate)
  {
    var step := StepEffects(pending[n - 1], n - 1, |pending|, generate);
    if k == n - 1 {
      assert step[0] == Persist(pending[k].0, generate(pending[k].1).value);
    } else {
      StepsHavePersist(pending, n - 1, generate, k);
    }
  }

  /** Every item `_run` reached before the stop whose image produced bytes
      has a thumbnail afterwards, so `get_pending_thumbs` no longer lists it. */
  lemma RunFillsThumbs(rows: Table, pending: seq<(string, string)>, stopAt: nat, generate: string -> Option<Bytes>, k: nat)
    requires k < |pending| && k < stopAt && Truthy(generate(pending[k].1)) && pending[k].0 in rows
    ensures Persisted(rows, Trace(pending, stopAt, generate)).Keys == rows.Keys
    ensures Persisted(rows, Trace(pending, stopAt, generate))[pending[k].0].thumb.Some?
  {
    var m := if stopAt < |pending| then stopAt else |pending|;
    var tr := Trace(pending, stopAt, generate);
    StepsHavePersist(pending, m, generate, k);
    var p := Persist(pending[k].0, generate(pending[k].1).value);
    assert p in tr;
    var j :| 0 <= j < |tr| && tr[j] == p;
    PersistedFills(rows, tr, pending[k].0);
  }

  class ThumbWorker {
    var db: ImageDB
    var queue: seq<Event>
    var stopRequested: bool

    /** `ThumbWorker(db, result_queue)`: the flag starts clear. */
    constructor (db: ImageDB, queue: seq<Event>)
      ensures this.db == db && this.queue == queue && !stopRequested
    {
      this.db := db;
      this.queue := queue;
      stopRequested := false;
    }

    /** `stop()`: sets the flag and drains the queue. */
    method Stop()
      modifies this
      ensures stopRequested && queue == [] && db == old(db)
    {
      stopRequested := true;
      while queue != []
        invariant stopRequested && db == old(db)
        decreases |queue|
      {
        queue := queue[1..];
      }
    }

    /** `_run(pending)`: what it posts is the events of its trace and what it
        stores is the trace's `set_thumb` calls; a flag already set stops it
        before the first item. */
    method Run(pending: seq<(string, string)>, stopAt: nat, generate: string -> Option<Bytes>)
      requires db.Valid()
      modifies this, db
      ensures db == old(db) && db.Valid() && db.directory == old(db.directory) && db.nextId == old(db.nextId)
      ensures Applied(old(queue), queue, old(db.rows), db.rows, Trace(pending, if old(stopRequested) then 0 else stopAt, generate))
      ensures stopRequested <==> old(stopRequested) || stopAt < |pending|
    {
      ghost var seen := if stopRequested then 0 else stopAt;
      var total := |pending|;
      var i := 0;
      while i < total
        invariant i <= total && i <= seen
        invariant db == old(db) && db.Valid() && db.directory == old(db.directory) && db.nextId == old(db.nextId)
        invariant stopRequested == old(stopRequested) && seen == (if stopRequested then 0 else stopAt)
        invariant Applied(old(queue), queue, old(db.rows), db.rows, Steps(pending, i, generate))
      {
        ghost var before := Steps(pending, i, generate);
        ghost var q1, r1 := queue, db.rows;
        if stopRequested || i >= stopAt {
          stopRequested := true;
          queue := queue + [Abort(0, 0)];
          assert Trace(pending, seen, generate) == before + [Emit(Abort(0, 0))];
          Finished(q1, r1, Abort(0, 0));
          AppliedStep(old(queue), q1, queue, old(db.rows), r1, db.rows, before, [Emit(Abort(0, 0))]);
          return;
        }
        Handle(pending[i], i, total, generate);
        AppliedStep(old(queue), q1, queue, old(db.rows), r1, db.rows, before, StepEffects(pending[i], i, total, generate));
        i := i + 1;
      }
      ghost var q1, r1 := queue, db.rows;
      queue := queue + [Done(total, total)];
      assert Trace(pending, seen, generate) == Steps(pending, total, generate) + [Emit(Done(total, total))];
      Finished(q1, r1, Done(total, total));
      AppliedStep(old(queue), q1, queue, old(db.rows), r1, db.rows, Steps(pending, total, generate), [Emit(Done(total, total))]);
    }

    /** One iteration of `_run` that did not see the stop: store truthy
        bytes, then post the item's event. */
    method Handle(item: (string, string), i: nat, total: nat, generate: string -> Option<Bytes>)
      requires db.Valid()
      modifies this, db
      ensures db == old(db) && db.Valid() && db.directory == old(db.directory) && db.nextId == old(db.nextId)
      ensures stopRequested == old(stopRequested)
      ensures Applied(old(queue), queue, old(db.rows), db.rows, StepEffects(item, i, total, generate))
    {
      var (relPath, absPath) := item;
      var jpeg := generate(absPath);
      if jpeg.Some? && jpeg.value != [] {
        db.SetThumb(relPath, jpeg.value);
      }
      queue := queue + [Thumb(relPath, jpeg, i + 1, total)];
      StepEvents(item, i, total, generate);
      StepPersisted(old(db.rows), item, i, total, generate);
    }

    /** `start(pending)`: stops and drains first, clears the flag, then runs;
        the queue ends up holding exactly this run's events. */
    method Start(pending: seq<(string, string)>, stopAt: nat, generate: string -> Option<Bytes>)
      requires db.Valid()
      modifies this, db
      ensures db == old(db) && db.Valid() && db.directory == old(db.directory) && db.nextId == old(db.nextId)
      ensures queue == Events(Trace(pending, stopAt, generate))
      ensures db.rows == Persisted(old(db.rows), Trace(pending, stopAt, generate))
    {
      Stop();
      stopRequested := false;
      Run(pending, stopAt, generate);
    }
  }
}
