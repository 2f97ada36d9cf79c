/** The application's wiring: the three coroutines handed to the virtual
    clock, the `update` step that refreshes the schedule, and start-up with
    the registration of the user's sync checkpoints. GPIO, logging and the
    network are outside this model; what they would deliver arrives as
    parameters. */
module Bells {
  import opened Wrappers
  import T = Timestamps
  import SK = ScheduleKeeper
  import VC = VirtualClock
  import Strings

  /** The coroutines `main` defines, told apart by identity. */
  const BreakHandler: VC.Handler := VC.Handler(0)
  const WorkHandler: VC.Handler := VC.Handler(1)
  const UpdateHandler: VC.Handler := VC.Handler(2)

  /** The externally visible steps a coroutine takes. `RingBell(true)` is
      `callback_handler(True, …)`, the work bell. */
  datatype Action = RingBell(isWork: bool) | ResyncClock | SyncSchedule | InstallTimestamps

  /** What running a handler does: a bell coroutine rings and then, when
      `clock_sync_after_callbacks_enabled` is set, starts a clock
      resynchronisation; `update` syncs the schedule, resyncs the clock and
      installs the new boundaries. The install step fails when
      `get_timestamps` raises; that failure is modelled by `Update`. */
  function Dispatch(h: VC.Handler, syncAfter: bool): (acts: seq<Action>)
    ensures h == WorkHandler || h == BreakHandler ==>
              && |acts| > 0
              && acts[0] == RingBell(h == WorkHandler)
              && (ResyncClock in acts <==> syncAfter)
    ensures h == UpdateHandler ==> acts == [SyncSchedule, ResyncClock, InstallTimestamps]
  {
    var tail := if syncAfter then [ResyncClock] else [];
    if h == WorkHandler then [RingBell(true)] + tail
    else if h == BreakHandler then [RingBell(false)] + tail
    else if h == UpdateHandler then [SyncSchedule, ResyncClock, InstallTimestamps]
    else []
  }

  /** The two pieces of state `main` shares between its coroutines. */
  datatype System = System(clock: VC.Clock, keeper: SK.Keeper)

  datatype UpdateOutcome = UpdateOutcome(system: System, error: Option<SK.SortError>)

  /** `update`: the keeper takes the freshly fetched schedule `synced`, the
      clock is resynchronised to `reported`, and the clock's boundaries become
      `get_timestamps()`. When that raises, the coroutine stops before
      `set_timestamps` and the old boundaries stay. */
  function Update(s: System, synced: SK.Keeper, reported: nat): (r: UpdateOutcome)
    ensures r.system.keeper == synced
    ensures r.system.clock.currentTime == Some(reported)
    ensures r.system.clock.isStarted == s.clock.isStarted
    ensures r.error.None? <==> SK.GetTimestamps(synced).Success?
    ensures r.error.None? ==> r.system.clock.setup.timestamps == SK.GetTimestamps(synced).value
    ensures r.error.Some? ==> r.system.clock.setup.timestamps == s.clock.setup.timestamps
    ensures r.system.clock.setup.(timestamps := s.clock.setup.timestamps) == s.clock.setup
  {
    var clock := VC.SyncTime(s.clock, reported);
    match SK.GetTimestamps(synced)
    case Failure(e) => UpdateOutcome(System(clock, synced), Some(e))
    case Success(ts) => UpdateOutcome(System(VC.SetTimestamps(clock, ts), synced), None)
  }

  /** The clock's boundaries are kept in ascending order: an update either
      installs a sorted list or leaves the old one. */
  lemma UpdateKeepsBoundariesSorted(s: System, synced: SK.Keeper, reported: nat)
    requires T.Sorted(s.clock.setup.timestamps)
    ensures T.Sorted(Update(s, synced, reported).system.clock.setup.timestamps)
  {
  }

  /** After a successful update the clock fires on every parsed boundary of
      the new schedule, as often as it occurs there, and on nothing else. */
  lemma UpdateInstallsSchedule(s: System, synced: SK.Keeper, reported: nat)
    requires Update(s, synced, reported).error.None?
    ensures var ts := Update(s, synced, reported).system.clock.setup.timestamps;
            multiset(ts) == multiset(SK.ParsedValues(SK.Flatten(synced.schedule)))
  {
  }

  // ---------------------------------------------------------------------------
  // Sync checkpoints from the user configuration

  /** The validity check the loop applies: `is_valid_timestamp` as written,
      or as intended. */
  function Check(s: string, intended: bool): (bool, Option<T.Tod>)
  {
    if intended then T.IsValidTimestampIntended(s) else T.IsValidTimestamp(s)
  }

  /** The validation loop over `sync_timestamps`: entries whose flag is false
      are logged and skipped, the others' values appended in order. */
  function Validate(raw: seq<string>, intended: bool): (kept: seq<Option<T.Tod>>)
    ensures |kept| <= |raw|
    decreases |raw|
  {
    if |raw| == 0 then []
    else
      var prev := Validate(raw[..|raw| - 1], intended);
      var (ok, t) := Check(raw[|raw| - 1], intended);
      if ok then prev + [t] else prev
  }

  /** As written: `is_valid_timestamp` accepts everything, so every entry is
      kept, a malformed one as `None`. */
  lemma {:induction false} ValidateAsWritten(raw: seq<string>)
    ensures |Validate(raw, false)| == |raw|
    ensures forall i :: 0 <= i < |raw| ==> Validate(raw, false)[i] == T.ToTimestamp(raw[i])
    decreases |raw|
  {
    if |raw| > 0 {
      var init := raw[..|raw| - 1];
      ValidateAsWritten(init);
      assert Validate(raw, false) == Validate(init, false) + [T.ToTimestamp(raw[|raw| - 1])];
      assert forall i :: 0 <= i < |init| ==> init[i] == raw[i];
    }
  }

  /** As intended: only parsed times are kept, one per entry that parses,
      and a list that parses throughout is kept whole. */
  lemma {:induction false} ValidateIntended(raw: seq<string>)
    ensures forall j :: 0 <= j < |Validate(raw, true)| ==> Validate(raw, true)[j].Some?
    ensures |Validate(raw, true)| == CountParsed(raw)
    ensures CountParsed(raw) == |raw| ==> Validate(raw, true) == Validate(raw, false)
    decreases |raw|
  {
    if |raw| > 0 {
      var init := raw[..|raw| - 1];
      ValidateIntended(init);
      ValidateAsWritten(raw);
      ValidateAsWritten(init);
      CountParsedBound(init);
      var t := T.ToTimestamp(raw[|raw| - 1]);
      if t.Some? {
        assert Validate(raw, true) == Validate(init, true) + [t];
      } else {
        assert Validate(raw, true) == Validate(init, true);
      }
    }
  }

  /** Each value the intended loop keeps is the parse of some entry. */
  lemma {:induction false} ValidateIntendedProvenance(raw: seq<string>)
    ensures forall j :: 0 <= j < |Validate(raw, true)| ==>
              exists i :: 0 <= i < |raw| && T.ToTimestamp(raw[i]) == Validate(raw, true)[j]
    decreases |raw|
  {
    if |raw| > 0 {
      var init := raw[..|raw| - 1];
      ValidateIntendedProvenance(init);
      var t := T.ToTimestamp(raw[|raw| - 1]);
      var prev := Validate(init, true);
      var kept := Validate(raw, true);
      assert kept == if t.Some? then prev + [t] else prev;
      forall j | 0 <= j < |kept|
        ensures exists i :: 0 <= i < |raw| && T.ToTimestamp(raw[i]) == kept[j]
      {
        if j < |prev| {
          var i :| 0 <= i < |init| && T.ToTimestamp(init[i]) == prev[j];
          assert raw[i] == init[i];
          assert kept[j] == prev[j];
          assert T.ToTimestamp(raw[i]) == kept[j];
        } else {
          var i := |raw| - 1;
          assert T.ToTimestamp(raw[i]) == kept[j];
        }
      }
    } else {
      assert Validate(raw, true) == [];
    }
  }

  /** The `Some` entries of `kept`, in order: a plain filter that knows
      nothing about parsing. */
  function SomeEntries(kept: seq<Option<T.Tod>>): (r: seq<Option<T.Tod>>)
    ensures |r| <= |kept|
    ensures forall j :: 0 <= j < |r| ==> r[j].Some?
    decreases |kept|
  {
    if |kept| == 0 then []
    else SomeEntries(kept[..|kept| - 1]) + (if kept[|kept| - 1].Some? then [kept[|kept| - 1]] else [])
  }

  /** The intended loop is the loop as written with its `None` entries
      filtered out: it keeps exactly the parsed entries, in entry order. */
  lemma {:induction false} ValidateIntendedFilters(raw: seq<string>)
    ensures Validate(raw, true) == SomeEntries(Validate(raw, false))
    decreases |raw|
  {
    if |raw| > 0 {
      var init := raw[..|raw| - 1];
      ValidateIntendedFilters(init);
      ValidateIntendedStep(raw);
      var w := Validate(raw, false);
      assert w == Validate(init, false) + [T.ToTimestamp(raw[|raw| - 1])];
      assert w[..|w| - 1] == Validate(init, false);
    }
  }

  /** The parse of each entry, position by position. */
  function Parses(raw: seq<string>): (ps: seq<Option<T.Tod>>)
    ensures |ps| == |raw|
    ensures forall i :: 0 <= i < |raw| ==> ps[i] == T.ToTimestamp(raw[i])
  {
    seq(|raw|, i requires 0 <= i < |raw| => T.ToTimestamp(raw[i]))
  }

  /** `ts` holds the values of exactly the `Some` entries of `ps`, in order:
      `idx` lists the positions of those entries, increasing, and `ts[j]` is
      the value at position `idx[j]`. */
  predicate PicksSomeAt(ps: seq<Option<T.Tod>>, ts: seq<T.Tod>, idx: seq<nat>)
  {
    && |idx| == |ts|
    && (forall j :: 0 <= j < |idx| ==> idx[j] < |ps| && ps[idx[j]] == Some(ts[j]))
    && Increasing(idx)
    && (forall i :: 0 <= i < |ps| && ps[i].Some? ==> i in idx)
  }

  ghost predicate PicksSome(ps: seq<Option<T.Tod>>, ts: seq<T.Tod>)
  {
    exists idx: seq<nat> :: PicksSomeAt(ps, ts, idx)
  }

  /** `ts` holds the parses of exactly the entries of `raw` that parse, in
      entry order. */
  ghost predicate PicksParsed(raw: seq<string>, ts: seq<T.Tod>)
  {
    PicksSome(Parses(raw), ts)
  }

  /** Appending one entry: a `Some` adds its value and its position, a
      `None` adds nothing. */
  lemma PicksSomeSnoc(init: seq<Option<T.Tod>>, o: Option<T.Tod>, prev: seq<T.Tod>, idx0: seq<nat>)
    requires PicksSomeAt(init, prev, idx0)
    ensures o.Some? ==> PicksSomeAt(init + [o], prev + [o.value], idx0 + [|init|])
    ensures o.None? ==> PicksSomeAt(init + [o], prev, idx0)
  {
    var ps := init + [o];
    var n := |init|;
    forall i | 0 <= i < n
      ensures ps[i] == init[i]
    {
    }
    if o.Some? {
      var ts := prev + [o.value];
      var idx := idx0 + [n];
      forall j | 0 <= j < |idx|
        ensures idx[j] < |ps| && ps[idx[j]] == Some(ts[j])
      {
        if j < |idx0| {
          assert idx[j] == idx0[j] && ts[j] == prev[j];
        }
      }
      forall i | 0 <= i < |ps| && ps[i].Some?
        ensures i in idx
      {
        if i < n {
          assert i in idx0;
        } else {
          assert idx[|idx0|] == n;
        }
      }
      forall j1, j2 | 0 <= j1 < j2 < |idx|
        ensures idx[j1] < idx[j2]
      {
        assert idx0[j1] < n;
      }
    } else {
      forall i | 0 <= i < |ps| && ps[i].Some?
        ensures i in idx0
      {
        assert i < n;
      }
    }
  }

  /** Filtering keeps the values of exactly the `Some` entries, in order. */
  lemma {:induction false} SomeEntriesPicks(ps: seq<Option<T.Tod>>)
    ensures PicksSome(ps, Values(SomeEntries(ps)))
    decreases |ps|
  {
    var ts := Values(SomeEntries(ps));
    if |ps| == 0 {
      assert PicksSomeAt(ps, ts, []);
    } else {
      var n: nat := |ps| - 1;
      var init := ps[..n];
      SomeEntriesPicks(init);
      var prev := Values(SomeEntries(init));
      var idx0 :| PicksSomeAt(init, prev, idx0);
      PicksSomeSnoc(init, ps[n], prev, idx0);
      assert ps == init + [ps[n]];
      assert SomeEntries(ps) == SomeEntries(init) + (if ps[n].Some? then [ps[n]] else []);
      ValuesAppend(SomeEntries(init), if ps[n].Some? then [ps[n]] else []);
      if ps[n].Some? {
        assert ts == prev + [ps[n].value];
        assert PicksSomeAt(ps, ts, idx0 + [n]);
      } else {
        assert ts == prev;
        assert PicksSomeAt(ps, ts, idx0);
      }
    }
  }

  /** The values the intended loop keeps are the parses of exactly the
      entries that parse, in entry order: none dropped, none repeated. */
  lemma ValidateIntendedPicks(raw: seq<string>)
    ensures forall j :: 0 <= j < |Validate(raw, true)| ==> Validate(raw, true)[j].Some?
    ensures PicksParsed(raw, Values(Validate(raw, true)))
  {
    ValidateIntendedFilters(raw);
    ValidateAsWritten(raw);
    assert Validate(raw, false) == Parses(raw);
    SomeEntriesPicks(Parses(raw));
  }

  lemma ValuesAppend(a: seq<Option<T.Tod>>, b: seq<Option<T.Tod>>)
    requires forall i :: 0 <= i < |a| ==> a[i].Some?
    requires forall i :: 0 <= i < |b| ==> b[i].Some?
    ensures Values(a + b) == Values(a) + Values(b)
  {
    assert forall i :: 0 <= i < |a + b| ==> (a + b)[i].Some?;
    var l := Values(a + b);
    var r := Values(a) + Values(b);
    forall i | 0 <= i < |l|
      ensures l[i] == r[i]
    {
      if i < |a| {
        assert (a + b)[i] == a[i];
      } else {
        assert (a + b)[i] == b[i - |a|];
      }
    }
  }

  predicate Increasing(a: seq<nat>)
  {
    forall j1, j2 :: 0 <= j1 < j2 < |a| ==> a[j1] < a[j2]
  }

  /** Dropping the last element of a strictly increasing list drops exactly
      the elements not below it. */
  lemma IncreasingDropLast(a: seq<nat>, z: nat)
    requires Increasing(a) && |a| > 0
    ensures z in a ==> z <= a[|a| - 1]
    ensures z in a[..|a| - 1] <==> z in a && z < a[|a| - 1]
  {
    if z in a {
      var k :| 0 <= k < |a| && a[k] == z;
      if k < |a| - 1 {
        assert a[..|a| - 1][k] == z;
      }
    }
    if z in a[..|a| - 1] {
      var k :| 0 <= k < |a| - 1 && a[..|a| - 1][k] == z;
      assert a[k] == z;
    }
  }

  /** Two strictly increasing lists with the same elements are equal. */
  lemma {:induction false} IncreasingSameElements(a: seq<nat>, b: seq<nat>)
    requires Increasing(a) && Increasing(b)
    requires forall x :: x in a <==> x in b
    ensures a == b
    decreases |a|
  {
    assert |a| > 0 ==> a[0] in a;
    assert |b| > 0 ==> b[0] in b;
    if |a| > 0 {
      var x := a[|a| - 1];
      var y := b[|b| - 1];
      assert x in a && y in b;
      IncreasingDropLast(a, y);
      IncreasingDropLast(b, x);
      var a' := a[..|a| - 1];
      var b' := b[..|b| - 1];
      forall z
        ensures z in a' <==> z in b'
      {
        IncreasingDropLast(a, z);
        IncreasingDropLast(b, z);
      }
      assert Increasing(a') by {
        forall j1, j2 | 0 <= j1 < j2 < |a'|
          ensures a'[j1] < a'[j2]
        {
          assert a'[j1] == a[j1] && a'[j2] == a[j2];
        }
      }
      assert Increasing(b') by {
        forall j1, j2 | 0 <= j1 < j2 < |b'|
          ensures b'[j1] < b'[j2]
        {
          assert b'[j1] == b[j1] && b'[j2] == b[j2];
        }
      }
      IncreasingSameElements(a', b');
      assert a == a' + [x] && b == b' + [y];
    }
  }

  /** The positions a pick lists are exactly the `Some` positions. */
  lemma PicksSomePositions(ps: seq<Option<T.Tod>>, ts: seq<T.Tod>, idx: seq<nat>, x: nat)
    requires PicksSomeAt(ps, ts, idx)
    ensures x in idx <==> x < |ps| && ps[x].Some?
  {
    if x in idx {
      var j :| 0 <= j < |idx| && idx[j] == x;
    }
  }

  /** At most one list picks the `Some` values in order, so `PicksSome`,
      and with it `PicksParsed`, fixes the list completely. */
  lemma PicksSomeUnique(ps: seq<Option<T.Tod>>, ts1: seq<T.Tod>, ts2: seq<T.Tod>)
    requires PicksSome(ps, ts1) && PicksSome(ps, ts2)
    ensures ts1 == ts2
  {
    var idx1 :| PicksSomeAt(ps, ts1, idx1);
    var idx2 :| PicksSomeAt(ps, ts2, idx2);
    forall x
      ensures x in idx1 <==> x in idx2
    {
      PicksSomePositions(ps, ts1, idx1, x);
      PicksSomePositions(ps, ts2, idx2, x);
    }
    IncreasingSameElements(idx1, idx2);
    forall j | 0 <= j < |ts1|
      ensures ts1[j] == ts2[j]
    {
      assert Some(ts1[j]) == ps[idx1[j]] == Some(ts2[j]);
    }
  }

  /** Number of entries that parse as a time of day. */
  function CountParsed(raw: seq<string>): nat
    decreases |raw|
  {
    if |raw| == 0 then 0
    else CountParsed(raw[..|raw| - 1]) + (if T.ToTimestamp(raw[|raw| - 1]).Some? then 1 else 0)
  }

  /** No more entries parse than there are. */
  lemma {:induction false} CountParsedBound(raw: seq<string>)
    ensures CountParsed(raw) <= |raw|
    decreases |raw|
  {
    if |raw| > 0 {
      CountParsedBound(raw[..|raw| - 1]);
    }
  }

  /** The values of the kept entries, for registration. */
  function Values(kept: seq<Option<T.Tod>>): (ts: seq<T.Tod>)
    requires forall i :: 0 <= i < |kept| ==> kept[i].Some?
    ensures |ts| == |kept|
    ensures forall i :: 0 <= i < |kept| ==> kept[i] == Some(ts[i])
  {
    seq(|kept|, i requires 0 <= i < |kept| => kept[i].value)
  }

  /** The failure `main` can run into. */
  datatype StartupError = UnsortableSchedule | SyncEntryNotATime | EmptySchedule

  /** `add_timestamp_callback(ts, update)` appended one registration. */
  predicate RegisteredOnce(before: VC.Clock, after: VC.Clock, ts: seq<T.Tod>)
  {
    && after.setup.registrations == before.setup.registrations + [VC.Registration(ts, UpdateHandler)]
    && after.setup.(registrations := before.setup.registrations) == before.setup
    && after.isStarted == before.isStarted && after.currentTime == before.currentTime
  }

  /** Lines 93-112 as written: an empty list only warns; otherwise the kept
      entries are printed with `to_string`, which raises `TypeError` on
      `None`, and, when none is `None`, registered with `update`. */
  function RegisterSyncCheckpointsAsWritten(c: VC.Clock, raw: seq<string>): (r: Result<VC.Clock, StartupError>)
    ensures |raw| == 0 ==> r == Success(c)
    ensures |raw| > 0 ==> (r.Success? <==> forall i :: 0 <= i < |raw| ==> T.ToTimestamp(raw[i]).Some?)
    ensures r.Failure? ==> r.error == SyncEntryNotATime
    ensures r.Success? && |raw| > 0 ==>
              exists ts: seq<T.Tod> ::
                && RegisteredOnce(c, r.value, ts)
                && |ts| == |raw|
                && (forall i :: 0 <= i < |raw| ==> T.ToTimestamp(raw[i]) == Some(ts[i]))
  {
    if |raw| == 0 then Success(c)
    else
      var kept := Validate(raw, false);
      ValidateAsWritten(raw);
      if exists i :: 0 <= i < |kept| && kept[i].None? then
        Failure(SyncEntryNotATime)
      else
        var ts := Values(kept);
        var r := VC.AddTimestampCallback(c, ts, UpdateHandler);
        assert RegisteredOnce(c, r, ts);
        Success(r)
  }

  /** Lines 93-112 with invalid entries skipped, as the loop's `continue`
      means them to be: an empty list only warns; otherwise one registration
      of the parsed entries with `update`, even when none parsed. */
  function RegisterSyncCheckpoints(c: VC.Clock, raw: seq<string>): (r: VC.Clock)
    ensures |raw| == 0 ==> r == c
    ensures |raw| > 0 ==>
              exists ts: seq<T.Tod> ::
                && RegisteredOnce(c, r, ts)
                && |ts| == CountParsed(raw)
                && PicksParsed(raw, ts)
  {
    if |raw| == 0 then c
    else
      var kept := Validate(raw, true);
      ValidateIntended(raw);
      ValidateIntendedPicks(raw);
      var ts := Values(kept);
      var r := VC.AddTimestampCallback(c, ts, UpdateHandler);
      assert RegisteredOnce(c, r, ts);
      r
  }

  /** Where every entry parses, the corrected registration is the one the
      code as written makes. */
  lemma RegistrationsAgreeOnWellFormedInput(c: VC.Clock, raw: seq<string>)
    requires forall i :: 0 <= i < |raw| ==> T.ToTimestamp(raw[i]).Some?
    ensures RegisterSyncCheckpointsAsWritten(c, raw) == Success(RegisterSyncCheckpoints(c, raw))
  {
    if |raw| > 0 {
      ValidateAsWritten(raw);
      ValidateIntended(raw);
      AllParsedCount(raw);
    }
  }

  /** When every entry parses, all of them are counted. */
  lemma {:induction false} AllParsedCount(raw: seq<string>)
    requires forall i :: 0 <= i < |raw| ==> T.ToTimestamp(raw[i]).Some?
    ensures CountParsed(raw) == |raw|
    decreases |raw|
  {
    if |raw| > 0 {
      AllParsedCount(raw[..|raw| - 1]);
    }
  }

  /** A concrete list with one malformed entry: as written the start-up
      fails at `to_string(None)`. */
  lemma MalformedSyncEntryCrashesStartup(c: VC.Clock, raw: seq<string>)
    requires raw == ["07:00:00", "bad", "07:30:00"]
    ensures RegisterSyncCheckpointsAsWritten(c, raw) == Failure(SyncEntryNotATime)
  {
    BadIsNotATime(raw[1]);
  }

  /** The same list as intended: the malformed entry is dropped and the two
      good checkpoints are registered. */
  lemma MalformedSyncEntrySkipped(c: VC.Clock, raw: seq<string>)
    requires raw == ["07:00:00", "bad", "07:30:00"]
    ensures RegisterSyncCheckpoints(c, raw).setup.registrations ==
              c.setup.registrations + [VC.Registration([25200, 27000], UpdateHandler)]
  {
    SevenOClock(raw[0]);
    HalfPastSeven(raw[2]);
    BadIsNotATime(raw[1]);
    MiddleEntryDropped(c, raw);
  }

  /** Three entries of which only the middle one is malformed: the
      corrected loop registers the other two, in order. */
  lemma MiddleEntryDropped(c: VC.Clock, raw: seq<string>)
    requires |raw| == 3
    requires T.ToTimestamp(raw[0]).Some?
    requires T.ToTimestamp(raw[1]).None?
    requires T.ToTimestamp(raw[2]).Some?
    ensures RegisterSyncCheckpoints(c, raw).setup.registrations ==
              c.setup.registrations +
              [VC.Registration([T.ToTimestamp(raw[0]).value, T.ToTimestamp(raw[2]).value], UpdateHandler)]
  {
    var a := T.ToTimestamp(raw[0]);
    var b := T.ToTimestamp(raw[2]);
    var parsed := Validate(raw, false);
    assert parsed == [a, T.ToTimestamp(raw[1]), b] by {
      ValidateAsWritten(raw);
    }
    ValidateIntendedFilters(raw);
    SomeEntriesOfThree(a, T.ToTimestamp(raw[1]), b);
    assert Values([a, b]) == [a.value, b.value];
  }

  /** Of three values with only the middle one missing, the outer two are kept. */
  lemma SomeEntriesOfThree(a: Option<T.Tod>, n: Option<T.Tod>, b: Option<T.Tod>)
    requires a.Some? && n.None? && b.Some?
    ensures SomeEntries([a, n, b]) == [a, b]
  {
    assert [a][..0] == [];
    assert SomeEntries([a]) == [a];
    assert [a, n][..1] == [a];
    assert SomeEntries([a, n]) == [a];
    assert [a, n, b][..2] == [a, n];
  }

  /** One pass of the intended loop: the last entry is appended when it parses. */
  lemma ValidateIntendedStep(raw: seq<string>)
    requires |raw| > 0
    ensures var t := T.ToTimestamp(raw[|raw| - 1]);
            Validate(raw, true) == Validate(raw[..|raw| - 1], true) + (if t.Some? then [t] else [])
  {
  }

  /** `"07:00:00"` parses as 07:00. */
  lemma SevenOClock(s: string)
    requires s == "07:00:00"
    ensures T.ToTimestamp(s) == Some(25200)
  {
    assert s == T.TwoDigits(7) + ":" + T.TwoDigits(0) + ":00" by {
      assert T.TwoDigits(7) == "07" && T.TwoDigits(0) == "00";
    }
    Canonical(7, 0, s);
  }

  /** `"07:30:00"` parses as 07:30. */
  lemma HalfPastSeven(s: string)
    requires s == "07:30:00"
    ensures T.ToTimestamp(s) == Some(27000)
  {
    assert s == T.TwoDigits(7) + ":" + T.TwoDigits(30) + ":00" by {
      assert T.TwoDigits(7) == "07" && T.TwoDigits(30) == "30";
    }
    Canonical(7, 30, s);
  }

  /** A zero-padded `"HH:MM:00"` string parses as that hour and minute. */
  lemma Canonical(hour: nat, minute: nat, s: string)
    requires hour < 24 && minute < 60
    requires s == T.TwoDigits(hour) + ":" + T.TwoDigits(minute) + ":00"
    ensures T.ToTimestamp(s) == Some(T.Seconds(hour, minute, 0))
  {
    T.SecondsDecompose(hour, minute, 0);
    var t: T.Tod := T.Seconds(hour, minute, 0);
    assert T.TwoDigits(0) == "00";
    Strings.JoinThree(T.TwoDigits(hour), T.TwoDigits(minute), "00", ':');
    assert T.ToString(t) == s;
    T.RoundTrip(t);
  }

  /** A string without a colon is not a time. */
  lemma BadIsNotATime(s: string)
    requires s == "bad"
    ensures T.ToTimestamp(s).None?
  {
    assert Strings.Count("bad", ':') == 0;
  }

  // ---------------------------------------------------------------------------
  // Start-up

  /** `main` up to `await clock_task`: `update()` first; then the work and
      break coroutines are installed without a neutral one; then the clock
      loop is started and the sync checkpoints registered (the loop's first
      pass runs only once `main` awaits, after the registration). A schedule
      whose boundaries cannot be sorted ends `main` at the first `update`;
      an empty one ends it when `start_t`'s initial `log_status_table`
      raises, unless the clock was already running. */
  function Startup(init: VC.Clock, keeper: SK.Keeper, synced: SK.Keeper, reported: nat, raw: seq<string>): (r: Result<System, StartupError>)
    ensures r.Success? <==>
              && SK.GetTimestamps(synced).Success?
              && (init.isStarted || |SK.GetTimestamps(synced).value| > 0)
    ensures SK.GetTimestamps(synced).Failure? ==> r == Failure(UnsortableSchedule)
    ensures SK.GetTimestamps(synced).Success? && r.Failure? ==> r == Failure(EmptySchedule)
    ensures r.Success? ==>
              && r.value.keeper == synced
              && r.value.clock.isStarted
              && r.value.clock.currentTime == Some(reported)
              && r.value.clock.setup.timestamps == SK.GetTimestamps(synced).value
              && r.value.clock.setup.workCallback == Some(WorkHandler)
              && r.value.clock.setup.breakCallback == Some(BreakHandler)
              && r.value.clock.setup.neutralCallback.None?
    ensures r.Success? && |raw| == 0 ==> r.value.clock.setup.registrations == init.setup.registrations
    ensures r.Success? && |raw| > 0 ==>
              exists ts: seq<T.Tod> ::
                && r.value.clock.setup.registrations == init.setup.registrations + [VC.Registration(ts, UpdateHandler)]
                && |ts| == CountParsed(raw)
                && PicksParsed(raw, ts)
  {
    var u := Update(System(init, keeper), synced, reported);
    if u.error.Some? then Failure(UnsortableSchedule)
    else
      var wired := VC.AddWbCallbacks(u.system.clock, WorkHandler, BreakHandler, None);
      var registered := RegisterSyncCheckpoints(wired, raw);
      if VC.StartTRaises(registered) then Failure(EmptySchedule)
      else Success(System(VC.StartT(registered, reported), u.system.keeper))
  }

  /** Once `main` is running, no tick raises, and each boundary task rings
      the work bell at an odd index and the break bell at an even one. */
  lemma StartedSystemRingsByParity(init: VC.Clock, keeper: SK.Keeper, synced: SK.Keeper, reported: nat,
                                   raw: seq<string>, syncAfter: bool, tod: T.Tod)
    requires Startup(init, keeper, synced, reported, raw).Success?
    ensures var s := Startup(init, keeper, synced, reported, raw).value.clock.setup;
            && !VC.Fire(s, tod).crashed
            && forall e :: e in VC.Fire(s, tod).events && e.BoundaryTask? ==>
                 |Dispatch(e.handler, syncAfter)| > 0 && Dispatch(e.handler, syncAfter)[0] == RingBell(e.index % 2 == 1)
  {
    var s := Startup(init, keeper, synced, reported, raw).value.clock.setup;
    VC.FireCrashes(s, tod);
    if !VC.Fire(s, tod).crashed {
      VC.FireDueBoundaries(s, tod);
    }
  }
}
