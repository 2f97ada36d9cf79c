/** The schedule keeper: how a branch's hour-range cells become lists of
    boundary strings, how the longest branch is picked, and how the kept
    schedule is flattened into the sorted boundary list the virtual clock
    fires on. Fetching and caching the schedule are outside this model; the
    keeper's contents arrive as values. */
module ScheduleKeeper {
  import opened Wrappers
  import Strings
  import T = Timestamps

  /** One lesson's hour-range cell after splitting, e.g. `["8:00", "8:45"]`. */
  type HourRange = seq<string>

  /** The keeper's three fields. `scheduleBranch` is `None` until a branch is chosen. */
  datatype Keeper = Keeper(schedule: seq<HourRange>, scheduleBranch: Option<int>, validBranches: seq<int>)

  // ---------------------------------------------------------------------------
  // _parse_hour_range

  /** `_parse_hour_range`: drop every space, then split on `-`. The pieces hold
      neither a space nor a dash, joining them back with `-` gives the cell
      without its spaces, and there is one piece more than there are dashes. */
  function ParseHourRange(hourRange: string): (parts: HourRange)
    ensures forall i :: 0 <= i < |parts| ==> ' ' !in parts[i] && '-' !in parts[i]
    ensures Strings.Join(parts, '-') == Strings.RemoveAll(hourRange, ' ')
    ensures |parts| == Strings.Count(hourRange, '-') + 1
  {
    var compact := Strings.RemoveAll(hourRange, ' ');
    Strings.JoinSplit(compact, '-');
    Strings.CountRemoveAll(hourRange, ' ', '-');
    SplitKeepsAbsent(compact, '-', ' ');
    Strings.Split(compact, '-')
  }

  /** A character absent from a string is absent from each of its split pieces. */
  lemma {:induction false} SplitKeepsAbsent(s: string, sep: char, c: char)
    requires c !in s
    ensures forall i :: 0 <= i < |Strings.Split(s, sep)| ==> c !in Strings.Split(s, sep)[i]
    decreases |s|
  {
    if |s| > 0 {
      SplitKeepsAbsent(s[1..], sep, c);
      var rest := Strings.Split(s[1..], sep);
      if s[0] != sep {
        assert c !in [s[0]] + rest[0];
      }
    }
  }

  // ---------------------------------------------------------------------------
  // get_timestamps

  /** The boundary strings of the schedule, cell by cell and in cell order. */
  function Flatten(schedule: seq<HourRange>): seq<string>
    decreases |schedule|
  {
    if |schedule| == 0 then [] else Flatten(schedule[..|schedule| - 1]) + schedule[|schedule| - 1]
  }

  /** Number of boundary strings across all cells. */
  function TotalEntries(schedule: seq<HourRange>): nat
    decreases |schedule|
  {
    if |schedule| == 0 then 0 else |schedule[0]| + TotalEntries(schedule[1..])
  }

  predicate AllParse(entries: seq<string>)
  {
    forall i :: 0 <= i < |entries| ==> T.ToTimestamp(entries[i]).Some?
  }

  /** The parsed values of entries that all parse, in entry order. */
  function ParsedValues(entries: seq<string>): (ts: seq<T.Tod>)
    requires AllParse(entries)
    ensures |ts| == |entries|
    ensures forall i :: 0 <= i < |entries| ==> T.ToTimestamp(entries[i]) == Some(ts[i])
  {
    seq(|entries|, i requires 0 <= i < |entries| => T.ToTimestamp(entries[i]).value)
  }

  /** Python's `sorted` raises `TypeError` when `None` meets a `time`. */
  datatype SortError = UnorderableNone

  /** `get_timestamps`: every boundary string of every cell parsed and the
      whole list sorted ascending, duplicates kept. It reads the keeper and
      returns a fresh list, so the keeper itself is untouched. */
  function GetTimestamps(k: Keeper): (r: Result<seq<T.Tod>, SortError>)
    ensures r.Success? <==> AllParse(Flatten(k.schedule))
    ensures r.Success? ==>
              && T.Sorted(r.value)
              && |r.value| == TotalEntries(k.schedule)
              && multiset(r.value) == multiset(ParsedValues(Flatten(k.schedule)))
  {
    var entries := Flatten(k.schedule);
    FlattenLength(k.schedule);
    if AllParse(entries) then Success(Sort(ParsedValues(entries)))
    else Failure(UnorderableNone)
  }

  lemma {:induction false} TotalEntriesSnoc(schedule: seq<HourRange>)
    requires |schedule| > 0
    ensures TotalEntries(schedule) == TotalEntries(schedule[..|schedule| - 1]) + |schedule[|schedule| - 1]|
    decreases |schedule|
  {
    if |schedule| > 1 {
      var init := schedule[..|schedule| - 1];
      TotalEntriesSnoc(schedule[1..]);
      assert schedule[1..][..|schedule[1..]| - 1] == init[1..];
      assert init[0] == schedule[0];
    } else {
      assert schedule[1..] == [];
    }
  }

  /** Flattening keeps every boundary string: its length is the total count. */
  lemma {:induction false} FlattenLength(schedule: seq<HourRange>)
    ensures |Flatten(schedule)| == TotalEntries(schedule)
    decreases |schedule|
  {
    if |schedule| > 0 {
      FlattenLength(schedule[..|schedule| - 1]);
      TotalEntriesSnoc(schedule);
    }
  }

  // ---------------------------------------------------------------------------
  // sorted()

  /** Insertion of one value into a sorted list. */
  function Insert(x: T.Tod, s: seq<T.Tod>): (r: seq<T.Tod>)
    requires T.Sorted(s)
    ensures T.Sorted(r)
    ensures multiset(r) == multiset(s) + multiset{x}
    decreases |s|
  {
    if |s| == 0 then [x]
    else if x <= s[0] then [x] + s
    else
      var tail := Insert(x, s[1..]);
      InsertBehindHead(x, s, tail);
      [s[0]] + tail
  }

  /** A value larger than the head, inserted into the rest, stays behind the head. */
  lemma InsertBehindHead(x: T.Tod, s: seq<T.Tod>, tail: seq<T.Tod>)
    requires T.Sorted(s) && |s| > 0 && s[0] < x
    requires T.Sorted(tail) && multiset(tail) == multiset(s[1..]) + multiset{x}
    ensures T.Sorted([s[0]] + tail)
    ensures multiset([s[0]] + tail) == multiset(s) + multiset{x}
  {
    assert s == [s[0]] + s[1..];
    forall i | 0 <= i < |tail|
      ensures s[0] <= tail[i]
    {
      assert tail[i] in multiset(tail);
      if tail[i] != x {
        assert tail[i] in multiset(s[1..]);
        var j :| 0 <= j < |s[1..]| && s[1..][j] == tail[i];
        assert s[j + 1] == tail[i];
      }
    }
  }

  /** Python's `sorted` on times of day: ascending, a permutation of the input. */
  function Sort(s: seq<T.Tod>): (r: seq<T.Tod>)
    ensures T.Sorted(r)
    ensures multiset(r) == multiset(s)
    decreases |s|
  {
    if |s| == 0 then []
    else
      assert s == [s[0]] + s[1..];
      Insert(s[0], Sort(s[1..]))
  }

  /** There is only one sorted arrangement of a multiset, so `Sort` gives
      exactly what Python's `sorted` gives. */
  lemma {:induction false} SortedPermutationUnique(a: seq<int>, b: seq<int>)
    requires T.Sorted(a) && T.Sorted(b)
    requires multiset(a) == multiset(b)
    ensures a == b
    decreases |a|
  {
    assert |a| == |multiset(a)| == |b|;
    if |a| > 0 {
      SortedHeadIsLeast(a, b[0]);
      SortedHeadIsLeast(b, a[0]);
      assert a[0] == b[0];
      assert a == [a[0]] + a[1..];
      assert b == [b[0]] + b[1..];
      assert multiset(a) == multiset{a[0]} + multiset(a[1..]);
      assert multiset(b) == multiset{a[0]} + multiset(b[1..]);
      assert multiset(a[1..]) == multiset(a) - multiset{a[0]};
      assert multiset(b[1..]) == multiset(b) - multiset{a[0]};
      assert multiset(a[1..]) == multiset(b[1..]);
      SortedPermutationUnique(a[1..], b[1..]);
    }
  }

  /** The head of a sorted list is at most every value in it. */
  lemma SortedHeadIsLeast(a: seq<int>, x: int)
    requires T.Sorted(a) && x in multiset(a)
    ensures a[0] <= x
  {
    var i :| 0 <= i < |a| && a[i] == x;
    assert a[0] <= a[i];
  }

  // ---------------------------------------------------------------------------
  // Longest-branch selection

  /** A branch that answered and whose table parsed. */
  datatype Branch = Branch(index: int, hourRanges: seq<HourRange>)

  /** The triple `(valid_branches, longest_hour_ranges, _schedule_branch)`. */
  datatype Selection = Selection(validBranches: seq<int>, longest: seq<HourRange>, scheduleBranch: Option<int>)

  /** One good branch in `_get_valid_branches`: it is recorded as valid, and
      it replaces the kept schedule when nothing is kept yet or it is at least
      as long. */
  function SelectStep(acc: Selection, b: Branch): Selection
  {
    var replace := |acc.longest| == 0 || |acc.longest| <= |b.hourRanges|;
    Selection(
      acc.validBranches + [b.index],
      if replace then b.hourRanges else acc.longest,
      if replace then Some(b.index) else acc.scheduleBranch)
  }

  /** The selection over the good branches in the order they were visited. */
  function SelectLongest(bs: seq<Branch>): (r: Selection)
    ensures |r.validBranches| == |bs|
    ensures forall i :: 0 <= i < |bs| ==> r.validBranches[i] == bs[i].index
    ensures |bs| == 0 <==> r.scheduleBranch.None?
    decreases |bs|
  {
    if |bs| == 0 then Selection([], [], None)
    else SelectStep(SelectLongest(bs[..|bs| - 1]), bs[|bs| - 1])
  }

  /** Position `k` holds a longest schedule, and every later one is strictly shorter. */
  predicate IsLastLongest(bs: seq<Branch>, k: nat)
  {
    && k < |bs|
    && (forall j :: 0 <= j < |bs| ==> |bs[j].hourRanges| <= |bs[k].hourRanges|)
    && (forall j :: k < j < |bs| ==> |bs[j].hourRanges| < |bs[k].hourRanges|)
  }

  /** The kept schedule is a longest one, the last of the longest ones, and
      the recorded branch index is the kept schedule's. */
  lemma {:induction false} SelectLongestKeepsLastLongest(bs: seq<Branch>)
    requires |bs| > 0
    ensures exists k: nat ::
              && IsLastLongest(bs, k)
              && SelectLongest(bs).longest == bs[k].hourRanges
              && SelectLongest(bs).scheduleBranch == Some(bs[k].index)
    decreases |bs|
  {
    var n := |bs|;
    var init := bs[..n - 1];
    var prev := SelectLongest(init);
    assert SelectLongest(bs) == SelectStep(prev, bs[n - 1]);
    if n == 1 {
      assert IsLastLongest(bs, 0);
    } else {
      SelectLongestKeepsLastLongest(init);
      var k: nat :|
              && IsLastLongest(init, k)
              && prev.longest == init[k].hourRanges
              && prev.scheduleBranch == Some(init[k].index);
      assert bs[k] == init[k];
      if |init[k].hourRanges| <= |bs[n - 1].hourRanges| {
        forall j | 0 <= j < n
          ensures |bs[j].hourRanges| <= |bs[n - 1].hourRanges|
        {
          if j < n - 1 {
            assert bs[j] == init[j];
          }
        }
        assert IsLastLongest(bs, n - 1);
      } else {
        forall j | 0 <= j < n
          ensures |bs[j].hourRanges| <= |bs[k].hourRanges|
          ensures k < j ==> |bs[j].hourRanges| < |bs[k].hourRanges|
        {
          if j < n - 1 {
            assert bs[j] == init[j];
          }
        }
        assert IsLastLongest(bs, k);
      }
    }
  }
}
