/** The virtual clock: a per-second state machine. Each pass of the
    `start_t` loop is one `Tick`, which advances the clock by one second and
    reports, in order, the callbacks it invoked or scheduled: for every
    boundary equal to the new time of day, the neutral callback (when one is
    set) and then the break or work task; after that, every checkpoint
    callback whose checkpoint equals the new time of day.

    The loop does not compute a "next target" and sleep until it: it polls
    once per virtual second and fires on exact equality. Callbacks are
    fire-and-forget tasks, so nothing here serialises them. */
module VirtualClock {
  import opened Wrappers
  import T = Timestamps

  /** An opaque callable, told apart by identity. */
  datatype Handler = Handler(id: nat)

  /** One `add_timestamp_callback` registration: a checkpoint list and its callback. */
  datatype Registration = Registration(checkpoints: seq<T.Tod>, callback: Handler)

  /** What the loop fires on: the boundary list, the registrations, and the
      three callback slots, which are `None` until `add_wb_callbacks`. */
  datatype Setup = Setup(
    timestamps: seq<T.Tod>,
    registrations: seq<Registration>,
    workCallback: Option<Handler>,
    breakCallback: Option<Handler>,
    neutralCallback: Option<Handler>)

  /** The clock's fields. `currentTime` is absolute seconds (calendar dates
      are not modelled), `None` until the first synchronisation. */
  datatype Clock = Clock(isStarted: bool, currentTime: Option<nat>, setup: Setup)

  /** The state `__init__` leaves. */
  const Initial: Clock := Clock(false, None, Setup([], [], None, None, None))

  /** `current_time.time()` in seconds since midnight. */
  function TimeOfDay(t: nat): T.Tod
  {
    t % T.SecondsPerDay
  }

  datatype Kind = Work | Break

  /** The task a boundary index schedules: even indices `break_callback`,
      odd indices `work_callback`. */
  function KindOf(index: nat): Kind
  {
    if index % 2 == 0 then Break else Work
  }

  function Slot(s: Setup, k: Kind): Option<Handler>
  {
    match k
    case Work => s.workCallback
    case Break => s.breakCallback
  }

  /** What one tick does, in order. */
  datatype Event =
    | NeutralCalled(index: nat, handler: Handler)
    | BoundaryTask(index: nat, kind: Kind, handler: Handler)
    | CheckpointTask(registration: nat, index: nat, handler: Handler)

  /** Events so far, and whether the tick stopped with an exception. */
  datatype Fired = Fired(events: seq<Event>, crashed: bool)

  // ---------------------------------------------------------------------------
  // The boundary loop of one tick

  /** The boundary loop over indices below `n`. A matching index calls the
      neutral callback when it is callable, then creates the break or work
      task; when that slot holds `None` the call raises `TypeError` and the
      tick stops there. */
  function FireBoundaries(s: Setup, tod: T.Tod, n: nat): Fired
    requires n <= |s.timestamps|
    decreases n
  {
    if n == 0 then Fired([], false)
    else
      var prev := FireBoundaries(s, tod, n - 1);
      var i := n - 1;
      if prev.crashed || s.timestamps[i] != tod then prev
      else
        var neutral := if s.neutralCallback.Some? then [NeutralCalled(i, s.neutralCallback.value)] else [];
        var kind := KindOf(i);
        match Slot(s, kind)
        case None => Fired(prev.events + neutral, true)
        case Some(h) => Fired(prev.events + neutral + [BoundaryTask(i, kind, h)], false)
  }

  /** `e` may come from the boundary loop over indices below `n`: it is a
      neutral call or a task for an index whose boundary equals the time of
      day; a task carries the slot its index's parity selects, a neutral call
      the neutral slot. */
  predicate FromBoundary(s: Setup, tod: T.Tod, n: nat, e: Event)
  {
    && !e.CheckpointTask?
    && e.index < n && e.index < |s.timestamps| && s.timestamps[e.index] == tod
    && (e.BoundaryTask? ==> e.kind == KindOf(e.index) && Slot(s, e.kind) == Some(e.handler))
    && (e.NeutralCalled? ==> s.neutralCallback == Some(e.handler))
  }

  /** Tasks in `ev` come in strictly increasing index order. */
  predicate TasksInIndexOrder(ev: seq<Event>)
  {
    forall p, q :: 0 <= p < q < |ev| && ev[p].BoundaryTask? && ev[q].BoundaryTask? ==> ev[p].index < ev[q].index
  }

  /** Index `i` got its break or work task in `events`. */
  predicate Fires(events: seq<Event>, i: nat)
  {
    exists p :: 0 <= p < |events| && events[p].BoundaryTask? && events[p].index == i
  }

  /** One pass of the boundary loop: once it has raised it stays raised with
      the same events; an index that is not due appends nothing; a due index
      appends its neutral call, when a neutral callback is set, and then its
      task, or raises when its slot is empty. */
  lemma FireBoundariesStep(s: Setup, tod: T.Tod, n: nat)
    requires 0 < n <= |s.timestamps|
    ensures var prev := FireBoundaries(s, tod, n - 1);
            var neutral := if s.neutralCallback.Some? then [NeutralCalled(n - 1, s.neutralCallback.value)] else [];
            var f := FireBoundaries(s, tod, n);
            && (prev.crashed || s.timestamps[n - 1] != tod ==> f == prev)
            && (!prev.crashed && s.timestamps[n - 1] == tod && Slot(s, KindOf(n - 1)).None? ==>
                  f == Fired(prev.events + neutral, true))
            && (!prev.crashed && s.timestamps[n - 1] == tod && Slot(s, KindOf(n - 1)).Some? ==>
                  f == Fired(prev.events + neutral + [BoundaryTask(n - 1, KindOf(n - 1), Slot(s, KindOf(n - 1)).value)], false))
  {
  }

  /** Every event of the boundary loop comes from a due index, with the slot
      that index selects. */
  lemma {:induction false} FireBoundariesFrom(s: Setup, tod: T.Tod, n: nat)
    requires n <= |s.timestamps|
    ensures forall e :: e in FireBoundaries(s, tod, n).events ==> FromBoundary(s, tod, n, e)
    decreases n
  {
    if n > 0 {
      FireBoundariesStep(s, tod, n);
      FireBoundariesFrom(s, tod, n - 1);
      var prev := FireBoundaries(s, tod, n - 1).events;
      var ev := FireBoundaries(s, tod, n).events;
      forall e | e in ev
        ensures FromBoundary(s, tod, n, e)
      {
        if e in prev {
          assert FromBoundary(s, tod, n - 1, e);
        }
      }
    }
  }

  /** The boundary loop emits its tasks in index order. */
  lemma {:induction false} FireBoundariesOrdered(s: Setup, tod: T.Tod, n: nat)
    requires n <= |s.timestamps|
    ensures TasksInIndexOrder(FireBoundaries(s, tod, n).events)
    decreases n
  {
    if n > 0 {
      FireBoundariesStep(s, tod, n);
      FireBoundariesOrdered(s, tod, n - 1);
      FireBoundariesFrom(s, tod, n - 1);
      var prev := FireBoundaries(s, tod, n - 1).events;
      var ev := FireBoundaries(s, tod, n).events;
      forall p, q | 0 <= p < q < |ev| && ev[p].BoundaryTask? && ev[q].BoundaryTask?
        ensures ev[p].index < ev[q].index
      {
        if q >= |prev| {
          assert ev[p] == prev[p];
          assert FromBoundary(s, tod, n - 1, prev[p]);
        } else {
          assert ev[p] == prev[p] && ev[q] == prev[q];
        }
      }
    }
  }

  /** The boundary loop raises exactly when some matching index finds its slot empty. */
  lemma {:induction false} FireBoundariesCrash(s: Setup, tod: T.Tod, n: nat)
    requires n <= |s.timestamps|
    ensures FireBoundaries(s, tod, n).crashed <==>
              exists i :: 0 <= i < n && s.timestamps[i] == tod && Slot(s, KindOf(i)).None?
    decreases n
  {
    if n > 0 {
      FireBoundariesStep(s, tod, n);
      FireBoundariesCrash(s, tod, n - 1);
    }
  }

  /** Without a crash, index `i < n` gets a task exactly when its boundary
      equals the time of day. */
  lemma {:induction false} FireBoundariesExact(s: Setup, tod: T.Tod, n: nat)
    requires n <= |s.timestamps|
    requires !FireBoundaries(s, tod, n).crashed
    ensures forall i :: 0 <= i < n ==> (Fires(FireBoundaries(s, tod, n).events, i) <==> s.timestamps[i] == tod)
    decreases n
  {
    if n > 0 {
      FireBoundariesStep(s, tod, n);
      FireBoundariesFrom(s, tod, n);
      var prev := FireBoundaries(s, tod, n - 1);
      var ev := FireBoundaries(s, tod, n).events;
      assert !prev.crashed;
      FireBoundariesExact(s, tod, n - 1);
      assert prev.events <= ev;
      forall i | 0 <= i < n
        ensures Fires(ev, i) <==> s.timestamps[i] == tod
      {
        if Fires(ev, i) {
          var p :| 0 <= p < |ev| && ev[p].BoundaryTask? && ev[p].index == i;
          assert FromBoundary(s, tod, n, ev[p]);
        }
        if s.timestamps[i] == tod {
          if i < n - 1 {
            var p :| 0 <= p < |prev.events| && prev.events[p].BoundaryTask? && prev.events[p].index == i;
            assert ev[p] == prev.events[p];
          } else {
            assert ev[|ev| - 1].BoundaryTask?;
          }
        }
      }
    }
  }

  /** Each task directly follows a call of neutral callback `h` for the same
      index, and each neutral call is directly followed by its index's task. */
  predicate NeutralPaired(ev: seq<Event>, h: Handler)
  {
    && (forall p :: 0 <= p < |ev| && ev[p].BoundaryTask? ==> p > 0 && ev[p - 1] == NeutralCalled(ev[p].index, h))
    && (forall p :: 0 <= p < |ev| && ev[p].NeutralCalled? ==>
          p + 1 < |ev| && ev[p + 1].BoundaryTask? && ev[p + 1].index == ev[p].index)
  }

  /** Appending a neutral call and its task keeps the pairing. */
  lemma NeutralPairedAppend(pre: seq<Event>, h: Handler, task: Event)
    requires NeutralPaired(pre, h) && task.BoundaryTask?
    ensures NeutralPaired(pre + [NeutralCalled(task.index, h), task], h)
  {
    var ev := pre + [NeutralCalled(task.index, h), task];
    forall p | 0 <= p < |ev| && ev[p].BoundaryTask?
      ensures p > 0 && ev[p - 1] == NeutralCalled(ev[p].index, h)
    {
      if p < |pre| {
        assert ev[p] == pre[p] && ev[p - 1] == pre[p - 1];
      }
    }
    forall p | 0 <= p < |ev| && ev[p].NeutralCalled?
      ensures p + 1 < |ev| && ev[p + 1].BoundaryTask? && ev[p + 1].index == ev[p].index
    {
      if p < |pre| {
        assert ev[p] == pre[p] && ev[p + 1] == pre[p + 1];
      }
    }
  }

  /** Without a crash and with a neutral callback set, each task is directly
      preceded by its neutral call and each neutral call is directly followed
      by its index's task. */
  lemma {:induction false} NeutralPrecedesTask(s: Setup, tod: T.Tod, n: nat)
    requires n <= |s.timestamps| && s.neutralCallback.Some?
    requires !FireBoundaries(s, tod, n).crashed
    ensures NeutralPaired(FireBoundaries(s, tod, n).events, s.neutralCallback.value)
    decreases n
  {
    if n > 0 {
      FireBoundariesStep(s, tod, n);
      NeutralPrecedesTask(s, tod, n - 1);
      var i := n - 1;
      if s.timestamps[i] == tod {
        var pre := FireBoundaries(s, tod, n - 1).events;
        var call := NeutralCalled(i, s.neutralCallback.value);
        var task := BoundaryTask(i, KindOf(i), Slot(s, KindOf(i)).value);
        NeutralPairedAppend(pre, s.neutralCallback.value, task);
        assert pre + [call] + [task] == pre + [call, task];
      }
    }
  }

  /** Without a neutral callback, the boundary loop only creates tasks. */
  lemma {:induction false} OnlyTasksWithoutNeutral(s: Setup, tod: T.Tod, n: nat)
    requires n <= |s.timestamps| && s.neutralCallback.None?
    ensures forall e :: e in FireBoundaries(s, tod, n).events ==> e.BoundaryTask?
    decreases n
  {
    if n > 0 {
      FireBoundariesStep(s, tod, n);
      OnlyTasksWithoutNeutral(s, tod, n - 1);
    }
  }

  // ---------------------------------------------------------------------------
  // The checkpoint loop of one tick

  /** One registration's checkpoints below `n`: a task per checkpoint equal to
      the time of day, duplicates included, in checkpoint order. */
  function FireRegistration(r: nat, reg: Registration, tod: T.Tod, n: nat): seq<Event>
    requires n <= |reg.checkpoints|
    decreases n
  {
    if n == 0 then []
    else
      var prev := FireRegistration(r, reg, tod, n - 1);
      if reg.checkpoints[n - 1] == tod then prev + [CheckpointTask(r, n - 1, reg.callback)] else prev
  }

  /** Registration `r`'s loop over checkpoints below `n` schedules the
      registration's callback for exactly the due checkpoints, in checkpoint
      order. */
  lemma {:induction false} FireRegistrationExact(r: nat, reg: Registration, tod: T.Tod, n: nat)
    requires n <= |reg.checkpoints|
    ensures forall e :: e in FireRegistration(r, reg, tod, n) ==>
              e == CheckpointTask(r, e.index, reg.callback) && e.index < n && reg.checkpoints[e.index] == tod
    ensures forall j :: 0 <= j < n && reg.checkpoints[j] == tod ==> CheckpointTask(r, j, reg.callback) in FireRegistration(r, reg, tod, n)
    ensures forall p, q :: 0 <= p < q < |FireRegistration(r, reg, tod, n)| ==>
              FireRegistration(r, reg, tod, n)[p].index < FireRegistration(r, reg, tod, n)[q].index
    decreases n
  {
    if n > 0 {
      FireRegistrationExact(r, reg, tod, n - 1);
      var prev := FireRegistration(r, reg, tod, n - 1);
      var ev := FireRegistration(r, reg, tod, n);
      if reg.checkpoints[n - 1] == tod {
        assert ev == prev + [CheckpointTask(r, n - 1, reg.callback)];
        forall p, q | 0 <= p < q < |ev|
          ensures ev[p].index < ev[q].index
        {
          assert ev[p] == prev[p] && ev[p] in prev;
        }
      }
    }
  }

  /** Two checkpoint tasks ordered by registration, then by checkpoint index. */
  predicate CheckpointBefore(a: Event, b: Event)
  {
    && a.CheckpointTask? && b.CheckpointTask?
    && (a.registration < b.registration || (a.registration == b.registration && a.index < b.index))
  }

  /** `e` may come from the checkpoint loop: a task for a due checkpoint of
      one of the registrations, carrying that registration's callback. */
  predicate FromCheckpoint(regs: seq<Registration>, tod: T.Tod, e: Event)
  {
    && e.CheckpointTask?
    && e.registration < |regs|
    && e.index < |regs[e.registration].checkpoints|
    && regs[e.registration].checkpoints[e.index] == tod
    && e.handler == regs[e.registration].callback
  }

  /** Checkpoint tasks in `ev` come by registration, then by checkpoint. */
  predicate CheckpointsInOrder(ev: seq<Event>)
  {
    forall p, q :: 0 <= p < q < |ev| ==> CheckpointBefore(ev[p], ev[q])
  }

  /** The checkpoint loop over all registrations, earliest registration first. */
  function FireCheckpoints(regs: seq<Registration>, tod: T.Tod): seq<Event>
    decreases |regs|
  {
    if |regs| == 0 then []
    else
      var n := |regs| - 1;
      FireCheckpoints(regs[..n], tod) + FireRegistration(n, regs[n], tod, |regs[n].checkpoints|)
  }

  /** The checkpoint loop schedules a registration's callback for each of its
      due checkpoints and schedules nothing else. */
  lemma {:induction false} FireCheckpointsExact(regs: seq<Registration>, tod: T.Tod)
    ensures forall e :: e in FireCheckpoints(regs, tod) ==> FromCheckpoint(regs, tod, e)
    ensures forall r, j :: 0 <= r < |regs| && 0 <= j < |regs[r].checkpoints| && regs[r].checkpoints[j] == tod ==>
              CheckpointTask(r, j, regs[r].callback) in FireCheckpoints(regs, tod)
    decreases |regs|
  {
    if |regs| > 0 {
      var n := |regs| - 1;
      var init := regs[..n];
      FireCheckpointsExact(init, tod);
      FireRegistrationExact(n, regs[n], tod, |regs[n].checkpoints|);
      var ev := FireCheckpoints(regs, tod);
      assert ev == FireCheckpoints(init, tod) + FireRegistration(n, regs[n], tod, |regs[n].checkpoints|);
      forall e | e in ev
        ensures FromCheckpoint(regs, tod, e)
      {
        if e in FireCheckpoints(init, tod) {
          assert FromCheckpoint(init, tod, e);
          assert init[e.registration] == regs[e.registration];
        }
      }
      forall r, j | 0 <= r < |regs| && 0 <= j < |regs[r].checkpoints| && regs[r].checkpoints[j] == tod
        ensures CheckpointTask(r, j, regs[r].callback) in ev
      {
        if r < n {
          assert init[r] == regs[r];
        }
      }
    }
  }

  /** The checkpoint loop emits tasks by registration, then by checkpoint. */
  lemma {:induction false} FireCheckpointsOrdered(regs: seq<Registration>, tod: T.Tod)
    ensures CheckpointsInOrder(FireCheckpoints(regs, tod))
    decreases |regs|
  {
    if |regs| > 0 {
      var n := |regs| - 1;
      var init := regs[..n];
      var prev := FireCheckpoints(init, tod);
      var last := FireRegistration(n, regs[n], tod, |regs[n].checkpoints|);
      FireCheckpointsOrdered(init, tod);
      FireCheckpointsExact(init, tod);
      FireRegistrationExact(n, regs[n], tod, |regs[n].checkpoints|);
      var ev := FireCheckpoints(regs, tod);
      assert ev == prev + last;
      forall p, q | 0 <= p < q < |ev|
        ensures CheckpointBefore(ev[p], ev[q])
      {
        if q < |prev| {
          assert ev[p] == prev[p] && ev[q] == prev[q];
        } else if p < |prev| {
          assert ev[p] == prev[p] && prev[p] in prev;
          assert FromCheckpoint(init, tod, prev[p]);
          assert ev[q] == last[q - |prev|] && last[q - |prev|] in last;
          assert last[q - |prev|].registration == n;
        } else {
          assert ev[p] == last[p - |prev|] && ev[q] == last[q - |prev|];
          assert last[p - |prev|] in last && last[q - |prev|] in last;
          assert last[p - |prev|].registration == n && last[q - |prev|].registration == n;
        }
      }
    }
  }

  /** Appending a registration appends its tasks to the checkpoint loop's. */
  lemma FireCheckpointsSnoc(regs: seq<Registration>, reg: Registration, tod: T.Tod)
    ensures FireCheckpoints(regs + [reg], tod) ==
              FireCheckpoints(regs, tod) + FireRegistration(|regs|, reg, tod, |reg.checkpoints|)
  {
    assert (regs + [reg])[..|regs|] == regs;
  }

  // ---------------------------------------------------------------------------
  // One tick

  /** Everything one tick does at time of day `tod`: the boundary loop, then,
      unless it raised, the checkpoint loop. */
  function Fire(s: Setup, tod: T.Tod): Fired
  {
    var b := FireBoundaries(s, tod, |s.timestamps|);
    if b.crashed then b else Fired(b.events + FireCheckpoints(s.registrations, tod), false)
  }

  /** The events of a tick that does not raise: the boundary loop's, then
      the checkpoint loop's. */
  lemma FireEvents(s: Setup, tod: T.Tod)
    requires !Fire(s, tod).crashed
    ensures Fire(s, tod).events == FireBoundaries(s, tod, |s.timestamps|).events + FireCheckpoints(s.registrations, tod)
  {
  }

  /** A tick raises exactly when a boundary due now has no callable in its slot. */
  lemma FireCrashes(s: Setup, tod: T.Tod)
    ensures Fire(s, tod).crashed <==>
              exists i :: 0 <= i < |s.timestamps| && s.timestamps[i] == tod && Slot(s, KindOf(i)).None?
  {
    FireBoundariesCrash(s, tod, |s.timestamps|);
  }

  /** In a tick that does not raise, every index whose boundary equals the
      time of day gets exactly one task (duplicate boundaries one each), no
      other index gets one, tasks come in index order, and an even index gets
      the break callback while an odd one gets the work callback. */
  lemma FireDueBoundaries(s: Setup, tod: T.Tod)
    requires !Fire(s, tod).crashed
    ensures forall i :: 0 <= i < |s.timestamps| ==> (Fires(Fire(s, tod).events, i) <==> s.timestamps[i] == tod)
    ensures TasksInIndexOrder(Fire(s, tod).events)
    ensures forall e :: e in Fire(s, tod).events && e.BoundaryTask? ==>
              e.kind == KindOf(e.index) && Slot(s, e.kind) == Some(e.handler) && e.index < |s.timestamps|
  {
    var b := FireBoundaries(s, tod, |s.timestamps|).events;
    var c := FireCheckpoints(s.registrations, tod);
    var ev := Fire(s, tod).events;
    assert ev == b + c;
    FireBoundariesExact(s, tod, |s.timestamps|);
    FireBoundariesFrom(s, tod, |s.timestamps|);
    FireBoundariesOrdered(s, tod, |s.timestamps|);
    FireCheckpointsExact(s.registrations, tod);
    forall p | |b| <= p < |ev|
      ensures !ev[p].BoundaryTask?
    {
      assert ev[p] == c[p - |b|] && c[p - |b|] in c;
    }
    forall i | 0 <= i < |s.timestamps|
      ensures Fires(ev, i) <==> Fires(b, i)
    {
      if Fires(ev, i) {
        var p :| 0 <= p < |ev| && ev[p].BoundaryTask? && ev[p].index == i;
        assert ev[p] == b[p];
      }
      if Fires(b, i) {
        var p :| 0 <= p < |b| && b[p].BoundaryTask? && b[p].index == i;
        assert ev[p] == b[p];
      }
    }
    forall p, q | 0 <= p < q < |ev| && ev[p].BoundaryTask? && ev[q].BoundaryTask?
      ensures ev[p].index < ev[q].index
    {
      assert ev[p] == b[p] && ev[q] == b[q];
    }
    forall e | e in ev && e.BoundaryTask?
      ensures e.kind == KindOf(e.index) && Slot(s, e.kind) == Some(e.handler) && e.index < |s.timestamps|
    {
      if e in b {
        assert FromBoundary(s, tod, |s.timestamps|, e);
      }
    }
  }

  /** A tick that does not raise schedules, for every registration and every
      checkpoint of it equal to the time of day, that registration's
      callback, and nothing else of this kind. */
  lemma FireDueCheckpoints(s: Setup, tod: T.Tod)
    requires !Fire(s, tod).crashed
    ensures forall r, j, h :: 0 <= r < |s.registrations| && 0 <= j < |s.registrations[r].checkpoints| ==>
              (CheckpointTask(r, j, h) in Fire(s, tod).events <==>
                 s.registrations[r].checkpoints[j] == tod && h == s.registrations[r].callback)
    ensures forall e :: e in Fire(s, tod).events && e.CheckpointTask? ==> e.registration < |s.registrations|
  {
    var b := FireBoundaries(s, tod, |s.timestamps|).events;
    var c := FireCheckpoints(s.registrations, tod);
    var ev := Fire(s, tod).events;
    assert ev == b + c;
    FireBoundariesFrom(s, tod, |s.timestamps|);
    FireCheckpointsExact(s.registrations, tod);
    forall r, j, h | 0 <= r < |s.registrations| && 0 <= j < |s.registrations[r].checkpoints|
      ensures CheckpointTask(r, j, h) in ev <==> s.registrations[r].checkpoints[j] == tod && h == s.registrations[r].callback
    {
      if CheckpointTask(r, j, h) in ev {
        assert FromCheckpoint(s.registrations, tod, CheckpointTask(r, j, h));
      }
    }
  }

  /** Within a tick, checkpoint tasks come after every neutral call and
      boundary task. */
  lemma FireCheckpointsLast(s: Setup, tod: T.Tod)
    ensures forall p, q :: 0 <= p < q < |Fire(s, tod).events| && Fire(s, tod).events[p].CheckpointTask? ==>
              Fire(s, tod).events[q].CheckpointTask?
  {
    var b := FireBoundaries(s, tod, |s.timestamps|);
    var ev := Fire(s, tod).events;
    FireBoundariesFrom(s, tod, |s.timestamps|);
    if !b.crashed {
      var c := FireCheckpoints(s.registrations, tod);
      assert ev == b.events + c;
      FireCheckpointsExact(s.registrations, tod);
      forall p | 0 <= p < |b.events|
        ensures !ev[p].CheckpointTask?
      {
        assert ev[p] == b.events[p] && b.events[p] in b.events;
        assert FromBoundary(s, tod, |s.timestamps|, b.events[p]);
      }
      forall p, q | 0 <= p < q < |ev| && ev[p].CheckpointTask?
        ensures ev[q].CheckpointTask?
      {
        assert ev[q] == c[q - |b.events|] && c[q - |b.events|] in c;
        assert FromCheckpoint(s.registrations, tod, c[q - |b.events|]);
      }
    } else {
      forall p | 0 <= p < |ev|
        ensures !ev[p].CheckpointTask?
      {
        assert ev[p] in b.events;
        assert FromBoundary(s, tod, |s.timestamps|, ev[p]);
      }
    }
  }

  datatype TickOutcome = TickOutcome(clock: Clock, events: seq<Event>, crashed: bool)

  /** The time of day a tick from `c` compares against: one second on. */
  function TickTod(c: Clock): T.Tod
    requires c.currentTime.Some?
  {
    TimeOfDay(c.currentTime.value + 1)
  }

  /** One pass of the `start_t` loop body: one second is added and nothing
      else about the clock changes, and the tick's events are those due at
      the new time of day. */
  function Tick(c: Clock): (o: TickOutcome)
    requires c.currentTime.Some?
    ensures o.clock.currentTime == Some(c.currentTime.value + 1)
    ensures o.clock.(currentTime := c.currentTime) == c
  {
    var f := Fire(c.setup, TickTod(c));
    TickOutcome(c.(currentTime := Some(c.currentTime.value + 1)), f.events, f.crashed)
  }

  // ---------------------------------------------------------------------------
  // Many ticks

  /** The clock `k` seconds after `c`, nothing else changed. */
  function At(c: Clock, k: nat): Clock
    requires c.currentTime.Some?
  {
    c.(currentTime := Some(c.currentTime.value + k))
  }

  /** Time of day seen by the tick numbered `k` (from 0) of a run starting at `t`. */
  function RunTod(t: nat, k: nat): T.Tod
  {
    TimeOfDay(t + k + 1)
  }

  datatype RunOutcome = RunOutcome(clock: Clock, log: seq<seq<Event>>, crashed: bool)

  /** `n` passes of the loop with no stop or synchronisation in between;
      the log holds each tick's events. A raising tick ends the run; a run
      that does not raise ends `n` seconds later with one log entry per tick. */
  function RunTicks(c: Clock, n: nat): (r: RunOutcome)
    requires c.currentTime.Some?
    ensures r.clock.currentTime.Some?
    ensures !r.crashed ==> |r.log| == n && r.clock == At(c, n)
    decreases n
  {
    if n == 0 then RunOutcome(c, [], false)
    else
      var prev := RunTicks(c, n - 1);
      if prev.crashed then prev
      else
        var o := Tick(prev.clock);
        RunOutcome(o.clock, prev.log + [o.events], o.crashed)
  }

  /** In a run that does not raise, the `k`-th log entry is what fires, without
      raising, at the time of day `k + 1` seconds after the start. */
  lemma {:induction false} RunTicksLog(c: Clock, n: nat, k: nat)
    requires c.currentTime.Some?
    requires !RunTicks(c, n).crashed && k < n
    ensures !Fire(c.setup, RunTod(c.currentTime.value, k)).crashed
    ensures RunTicks(c, n).log[k] == Fire(c.setup, RunTod(c.currentTime.value, k)).events
    decreases n
  {
    var prev := RunTicks(c, n - 1);
    assert !prev.crashed;
    var log := RunTicks(c, n).log;
    assert log == prev.log + [Tick(prev.clock).events];
    if k < n - 1 {
      RunTicksLog(c, n - 1, k);
      assert log[k] == prev.log[k];
    } else {
      assert TickTod(prev.clock) == RunTod(c.currentTime.value, k);
    }
  }

  /** Some tick of a day-long run sees second `d` of the day. */
  lemma DayCovers(t: nat, d: T.Tod) returns (k: nat)
    ensures k < T.SecondsPerDay && RunTod(t, k) == d
  {
    k := (d - t - 1) % T.SecondsPerDay;
    var q := (d - t - 1) / T.SecondsPerDay;
    var x := t + k + 1;
    assert x == T.SecondsPerDay * (-q) + d;
    assert T.SecondsPerDay * (x / T.SecondsPerDay + q) == d - x % T.SecondsPerDay;
  }

  /** No two ticks of a day-long run see the same second of the day. */
  lemma DayRepeatsNothing(t: nat, k1: nat, k2: nat)
    requires k1 < T.SecondsPerDay && k2 < T.SecondsPerDay
    requires RunTod(t, k1) == RunTod(t, k2)
    ensures k1 == k2
  {
    var a := t + k1 + 1;
    var b := t + k2 + 1;
    assert T.SecondsPerDay * (a / T.SecondsPerDay - b / T.SecondsPerDay) == k1 - k2;
  }

  /** In a run that does not raise, tick `k` fires boundary `i` exactly when
      the boundary equals the time of day that tick sees. */
  lemma RunFiresDue(c: Clock, n: nat, k: nat, i: nat)
    requires c.currentTime.Some?
    requires !RunTicks(c, n).crashed && k < n && i < |c.setup.timestamps|
    ensures Fires(RunTicks(c, n).log[k], i) <==> c.setup.timestamps[i] == RunTod(c.currentTime.value, k)
  {
    RunTicksLog(c, n, k);
    FireDueBoundaries(c.setup, RunTod(c.currentTime.value, k));
  }

  /** A run of at least a day that does not raise fires boundary `i` within
      its first day, in the tick that sees the boundary's time of day. */
  lemma BoundaryFiresWithinDay(c: Clock, n: nat, i: nat) returns (k: nat)
    requires c.currentTime.Some?
    requires n >= T.SecondsPerDay && !RunTicks(c, n).crashed && i < |c.setup.timestamps|
    ensures k < T.SecondsPerDay && RunTod(c.currentTime.value, k) == c.setup.timestamps[i]
    ensures Fires(RunTicks(c, n).log[k], i)
  {
    k := DayCovers(c.currentTime.value, c.setup.timestamps[i]);
    RunFiresDue(c, n, k, i);
  }

  /** Within the first day of a run, boundary `i` fires in at most one tick. */
  lemma BoundaryFiresOnceWithinDay(c: Clock, n: nat, i: nat, k1: nat, k2: nat)
    requires c.currentTime.Some?
    requires n >= T.SecondsPerDay && !RunTicks(c, n).crashed && i < |c.setup.timestamps|
    requires k1 < T.SecondsPerDay && k2 < T.SecondsPerDay
    requires Fires(RunTicks(c, n).log[k1], i) && Fires(RunTicks(c, n).log[k2], i)
    ensures k1 == k2
  {
    RunFiresDue(c, n, k1, i);
    RunFiresDue(c, n, k2, i);
    DayRepeatsNothing(c.currentTime.value, k1, k2);
  }

  /** Boundary index `i` fired in the tick with log entry `k`. */
  predicate FiredOnTick(log: seq<seq<Event>>, k: nat, i: nat)
  {
    k < |log| && Fires(log[k], i)
  }

  /** Over the first day of a run that does not raise, every boundary index
      fires in exactly one tick, the one that sees its time of day: none is
      skipped and none repeated. */
  lemma EachBoundaryOncePerDay(c: Clock, n: nat)
    requires c.currentTime.Some?
    requires n >= T.SecondsPerDay && !RunTicks(c, n).crashed
    ensures forall i :: 0 <= i < |c.setup.timestamps| ==>
              exists k :: 0 <= k < T.SecondsPerDay && RunTod(c.currentTime.value, k) == c.setup.timestamps[i] &&
                FiredOnTick(RunTicks(c, n).log, k, i)
    ensures forall i, k1, k2 ::
              (0 <= i < |c.setup.timestamps| && 0 <= k1 < T.SecondsPerDay && 0 <= k2 < T.SecondsPerDay &&
               FiredOnTick(RunTicks(c, n).log, k1, i) && FiredOnTick(RunTicks(c, n).log, k2, i)) ==> k1 == k2
  {
    forall i | 0 <= i < |c.setup.timestamps|
      ensures exists k :: 0 <= k < T.SecondsPerDay && RunTod(c.currentTime.value, k) == c.setup.timestamps[i] &&
                FiredOnTick(RunTicks(c, n).log, k, i)
    {
      var k := BoundaryFiresWithinDay(c, n, i);
      assert FiredOnTick(RunTicks(c, n).log, k, i);
    }
    forall i, k1, k2 | 0 <= i < |c.setup.timestamps| && 0 <= k1 < T.SecondsPerDay && 0 <= k2 < T.SecondsPerDay &&
        FiredOnTick(RunTicks(c, n).log, k1, i) && FiredOnTick(RunTicks(c, n).log, k2, i)
      ensures k1 == k2
    {
      BoundaryFiresOnceWithinDay(c, n, i, k1, k2);
    }
  }

  // ---------------------------------------------------------------------------
  // Starting, stopping and configuring the clock

  /** The loop's standing assumption: a started clock has a time to advance. */
  predicate Ready(c: Clock)
  {
    c.isStarted ==> c.currentTime.Some?
  }

  /** `sync_time` seen from the clock: `current_time` is overwritten with
      whatever the time source (or the system clock) reports. */
  function SyncTime(c: Clock, reported: nat): (c': Clock)
    ensures c'.currentTime == Some(reported)
    ensures c'.isStarted == c.isStarted && c'.setup == c.setup
  {
    c.(currentTime := Some(reported))
  }

  /** The part of `start_t` before its loop. On a started clock nothing
      changes (a warning is logged). Otherwise the clock is marked started
      and synchronised only if it has no time yet; `reported` is what
      `sync_time` would read. */
  function StartT(c: Clock, reported: nat): (c': Clock)
    ensures c.isStarted ==> c' == c
    ensures c'.isStarted
    ensures c.currentTime.Some? ==> c'.currentTime == c.currentTime
    ensures !c.isStarted && c.currentTime.None? ==> c'.currentTime == Some(reported)
    ensures c'.setup == c.setup
  {
    if c.isStarted then c
    else
      var started := c.(isStarted := true);
      if started.currentTime.None? then SyncTime(started, reported) else started
  }

  /** The two lookups of `log_status_table`: the next and the previous
      boundary from the clock's time of day. `None` where
      `get_adjacent_timestamp` raises `IndexError` on an empty list. */
  method StatusLookups(c: Clock) returns (r: Option<(T.Adjacent, T.Adjacent)>)
    requires c.currentTime.Some?
    ensures r.None? <==> |c.setup.timestamps| == 0
    ensures r.Some? ==> T.IsNextChoice(c.setup.timestamps, TimeOfDay(c.currentTime.value), r.value.0)
    ensures r.Some? ==> T.IsPreviousChoice(c.setup.timestamps, TimeOfDay(c.currentTime.value), r.value.1)
  {
    var now := TimeOfDay(c.currentTime.value);
    var next := T.GetAdjacentTimestamp(c.setup.timestamps, now, true);
    if next.None? {
      return None;
    }
    var previous := T.GetAdjacentTimestamp(c.setup.timestamps, now, false);
    r := Some((next.value, previous.value));
  }

  /** `start_t` raises before its loop: a clock that was not running has no
      boundary for the initial `log_status_table` to look up. */
  predicate StartTRaises(c: Clock)
  {
    !c.isStarted && |c.setup.timestamps| == 0
  }

  /** `start_t` up to its loop, with the initial `log_status_table` call:
      the clock as `StartT` leaves it, and whether that call raised. A
      started clock only warns and logs nothing. */
  method StartTChecked(c: Clock, reported: nat) returns (c': Clock, raised: bool)
    ensures c' == StartT(c, reported)
    ensures raised <==> StartTRaises(c)
  {
    c' := StartT(c, reported);
    if c.isStarted {
      raised := false;
    } else {
      var lookups := StatusLookups(c');
      raised := lookups.None?;
    }
  }

  /** `stop`: a running clock is marked stopped; a stopped one is left as it is. */
  function Stop(c: Clock): (c': Clock)
    ensures !c'.isStarted
    ensures c'.currentTime == c.currentTime && c'.setup == c.setup
  {
    if c.isStarted then c.(isStarted := false) else c
  }

  /** One check of `while self.is_started` followed, when it holds, by the
      one-second sleep and a tick. Other tasks run only during the sleep;
      `stopDuringSleep` says whether `stop` is among them. Anything else
      they do (a resync, new boundaries) reads the same as having happened
      before the check, since the check looks at `is_started` alone. */
  function LoopStep(c: Clock, stopDuringSleep: bool): (o: Option<TickOutcome>)
    requires Ready(c)
    ensures o.None? <==> !c.isStarted
    ensures o.Some? ==> o.value.clock.currentTime == Some(c.currentTime.value + 1)
    ensures o.Some? ==> o.value.clock.isStarted == !stopDuringSleep
  {
    if c.isStarted then Some(Tick(if stopDuringSleep then Stop(c) else c)) else None
  }

  /** Starting makes the clock ready and its loop tick; starting twice is
      starting once. */
  lemma StartTReady(c: Clock, reported: nat, again: nat)
    requires Ready(c)
    ensures Ready(StartT(c, reported))
    ensures LoopStep(StartT(c, reported), false).Some?
    ensures StartT(StartT(c, reported), again) == StartT(c, reported)
  {
  }

  /** A fresh clock is stopped and has no boundaries: its first `start_t`
      sets `is_started` and the reported time, then raises in the initial
      `log_status_table`, before any pass of the loop. */
  lemma InitialStart(reported: nat)
    ensures Ready(Initial) && !Initial.isStarted
    ensures StartT(Initial, reported) == Initial.(isStarted := true, currentTime := Some(reported))
    ensures StartTRaises(Initial)
  {
  }

  /** After `stop` the loop exits at its next condition check; stopping twice
      is stopping once. */
  lemma StopEndsLoop(c: Clock)
    ensures Ready(Stop(c)) && LoopStep(Stop(c), false).None?
    ensures Stop(Stop(c)) == Stop(c)
  {
  }

  /** A `stop` that lands during the sleep does not cut the pass short: the
      tick still happens, with the same time and the same events as if
      nobody had stopped the clock, and only the check after it ends the loop. */
  lemma StopDuringSleepOneMorePass(c: Clock)
    requires Ready(c) && c.isStarted
    ensures LoopStep(c, true).Some? && LoopStep(c, false).Some?
    ensures LoopStep(c, true).value.events == LoopStep(c, false).value.events
    ensures LoopStep(c, true).value.crashed == LoopStep(c, false).value.crashed
    ensures LoopStep(c, true).value.clock == Stop(LoopStep(c, false).value.clock)
    ensures Ready(LoopStep(c, true).value.clock) && LoopStep(LoopStep(c, true).value.clock, false).None?
  {
  }

  /** An exception in a tick leaves `is_started` set, so a later `start_t`
      only warns and does not restart the loop. */
  lemma CrashedClockStaysStarted(c: Clock, reported: nat)
    requires Ready(c) && c.isStarted
    requires Tick(c).crashed
    ensures StartT(Tick(c).clock, reported) == Tick(c).clock
  {
  }

  /** `set_timestamps`: the boundary list is replaced and nothing else changes. */
  function SetTimestamps(c: Clock, ts: seq<T.Tod>): (c': Clock)
    ensures c'.setup.timestamps == ts
    ensures c'.(setup := c'.setup.(timestamps := c.setup.timestamps)) == c
  {
    c.(setup := c.setup.(timestamps := ts))
  }

  /** `add_wb_callbacks`: all three slots are overwritten; an omitted neutral
      callback is `None`. */
  function AddWbCallbacks(c: Clock, work: Handler, brk: Handler, neutral: Option<Handler>): (c': Clock)
    ensures Slot(c'.setup, Work) == Some(work) && Slot(c'.setup, Break) == Some(brk)
    ensures c'.setup.neutralCallback == neutral
    ensures c'.setup.timestamps == c.setup.timestamps && c'.setup.registrations == c.setup.registrations
    ensures c'.isStarted == c.isStarted && c'.currentTime == c.currentTime
  {
    c.(setup := c.setup.(workCallback := Some(work), breakCallback := Some(brk), neutralCallback := neutral))
  }

  /** `add_timestamp_callback`: the registration is appended, earlier ones kept. */
  function AddTimestampCallback(c: Clock, checkpoints: seq<T.Tod>, callback: Handler): (c': Clock)
    ensures c'.setup.registrations == c.setup.registrations + [Registration(checkpoints, callback)]
    ensures c'.(setup := c'.setup.(registrations := c.setup.registrations)) == c
  {
    c.(setup := c.setup.(registrations := c.setup.registrations + [Registration(checkpoints, callback)]))
  }

  /** With both callbacks set, no tick raises. */
  lemma WiredClockNeverCrashes(c: Clock, work: Handler, brk: Handler, neutral: Option<Handler>, tod: T.Tod)
    ensures !Fire(AddWbCallbacks(c, work, brk, neutral).setup, tod).crashed
  {
    var s := AddWbCallbacks(c, work, brk, neutral).setup;
    FireCrashes(s, tod);
  }

  /** A new registration does not change whether a tick raises. */
  lemma AddTimestampCallbackKeepsCrash(s: Setup, reg: Registration, tod: T.Tod)
    ensures Fire(s.(registrations := s.registrations + [reg]), tod).crashed == Fire(s, tod).crashed
  {
    BoundariesIgnoreRegistrations(s, s.(registrations := s.registrations + [reg]), tod, |s.timestamps|);
  }

  /** A tick after a new registration does what it did before and then fires
      the new registration's due checkpoints: earlier registrations keep
      firing as they did. */
  lemma AddTimestampCallbackKeepsEarlier(s: Setup, reg: Registration, tod: T.Tod)
    requires !Fire(s, tod).crashed
    ensures Fire(s.(registrations := s.registrations + [reg]), tod).events ==
              Fire(s, tod).events + FireRegistration(|s.registrations|, reg, tod, |reg.checkpoints|)
  {
    var s' := s.(registrations := s.registrations + [reg]);
    AddTimestampCallbackKeepsCrash(s, reg, tod);
    BoundariesIgnoreRegistrations(s, s', tod, |s.timestamps|);
    FireCheckpointsSnoc(s.registrations, reg, tod);
    FireEvents(s, tod);
    FireEvents(s', tod);
    ConcatAssoc(FireBoundaries(s, tod, |s.timestamps|).events, FireCheckpoints(s.registrations, tod),
                FireRegistration(|s.registrations|, reg, tod, |reg.checkpoints|));
  }

  lemma ConcatAssoc<X>(a: seq<X>, b: seq<X>, c: seq<X>)
    ensures a + (b + c) == (a + b) + c
  {
  }

  /** The boundary loop reads only the boundary list and the callback slots. */
  lemma {:induction false} BoundariesIgnoreRegistrations(s: Setup, s': Setup, tod: T.Tod, n: nat)
    requires n <= |s.timestamps|
    requires s'.timestamps == s.timestamps
    requires s'.workCallback == s.workCallback && s'.breakCallback == s.breakCallback
    requires s'.neutralCallback == s.neutralCallback
    ensures FireBoundaries(s', tod, n) == FireBoundaries(s, tod, n)
    decreases n
  {
    if n > 0 {
      BoundariesIgnoreRegistrations(s, s', tod, n - 1);
    }
  }

  // ---------------------------------------------------------------------------
  // log_status_table's type label

  /** The label `log_status_table` prints for an index from
      `get_adjacent_timestamp`: `"Break"` for an odd index, `"Work"` for 0,
      any even index, or no index. */
  function StatusLabel(index: Option<nat>): (shown: string)
    ensures shown == "Break" <==> index.Some? && index.value % 2 == 1
    ensures shown == "Break" || shown == "Work"
  {
    if index.Some? && index.value != 0 && index.value % 2 != 0 then "Break" else "Work"
  }

  /** The label uses the opposite parity from the firing rule: an index
      labelled `"Break"` is one whose firing schedules the work callback. */
  lemma LabelOppositeToFiring(i: nat)
    ensures StatusLabel(Some(i)) == "Break" <==> KindOf(i) == Work
  {
  }
}
