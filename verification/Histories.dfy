/** The history of `LineEditor`: the lines entered, each once, and the search through them. */
module Histories {
  import opened Bytes
  import opened Matching

  type Line = seq<Byte>

  // ---------------------------------------------------------------------------------------------
  // The entries
  // ---------------------------------------------------------------------------------------------

  function Without(h: seq<Line>, x: Line): seq<Line> {
    if h == [] then [] else (if h[0] == x then [] else [h[0]]) + Without(h[1..], x)
  }

  /** `add_entry`: an entry that is there moves to the end; otherwise the oldest one makes room if need be. */
  function AddEntry(h: seq<Line>, x: Line, max: nat): seq<Line>
    requires max >= 1
  {
    if x in h then Without(h, x) + [x]
    else if |h| < max then h + [x]
    else h[1..] + [x]
  }

  function AddAll(lines: seq<Line>, max: nat): seq<Line>
    requires max >= 1
  {
    if lines == [] then [] else AddEntry(AddAll(lines[..|lines| - 1], max), lines[|lines| - 1], max)
  }

  /** The lines without those that occur again later. */
  function LastOccurrences(lines: seq<Line>): seq<Line> {
    if lines == [] then []
    else Unless(lines[0], lines[1..]) + LastOccurrences(lines[1..])
  }

  function Unless(x: Line, later: seq<Line>): seq<Line> {
    if x in later then [] else [x]
  }

  function Tail(s: seq<Line>, n: nat): seq<Line> {
    if |s| <= n then s else s[|s| - n..]
  }

  ghost predicate Distinct(s: seq<Line>) {
    forall i, j :: 0 <= i < j < |s| ==> s[i] != s[j]
  }

  lemma {:induction false} OccurrencesAreLines(lines: seq<Line>, x: Line)
    ensures x in LastOccurrences(lines) <==> x in lines
  {
    if lines != [] {
      OccurrencesAreLines(lines[1..], x);
      assert lines == [lines[0]] + lines[1..];
    }
  }

  lemma {:induction false} OccurrencesAreDistinct(lines: seq<Line>)
    ensures Distinct(LastOccurrences(lines))
  {
    if lines != [] {
      OccurrencesAreDistinct(lines[1..]);
      OccurrencesAreLines(lines[1..], lines[0]);
    }
  }

  lemma {:induction false} UnlessAppended(c: Line, later: seq<Line>, x: Line)
    ensures Unless(c, later + [x]) == Without(Unless(c, later), x)
  {
    var one: seq<Line> := [c];
    assert one[1..] == [] && Without(one, x) == if c == x then [] else one;
  }

  lemma {:induction false} WithoutJoins(a: seq<Line>, b: seq<Line>, x: Line)
    ensures Without(a + b, x) == Without(a, x) + Without(b, x)
  {
    if a == [] {
      assert a + b == b;
    } else {
      assert (a + b)[1..] == a[1..] + b;
      WithoutJoins(a[1..], b, x);
    }
  }

  lemma {:induction false} OccurrencesAppend(lines: seq<Line>, x: Line)
    ensures LastOccurrences(lines + [x]) == Without(LastOccurrences(lines), x) + [x]
  {
    if lines == [] {
      assert lines + [x] == [x] && [x][1..] == lines;
    } else {
      hide Unless, Without;
      var rest := lines[1..];
      assert (lines + [x])[1..] == rest + [x];
      OccurrencesAppend(rest, x);
      UnlessAppended(lines[0], rest, x);
      WithoutJoins(Unless(lines[0], rest), LastOccurrences(rest), x);
    }
  }

  lemma {:induction false} WithoutAbsent(h: seq<Line>, x: Line)
    requires x !in h
    ensures Without(h, x) == h
  {
    if h != [] {
      WithoutAbsent(h[1..], x);
    }
  }

  /** In distinct entries one is taken out. */
  lemma {:induction false} WithoutAt(h: seq<Line>, i: nat)
    requires Distinct(h) && i < |h|
    ensures Without(h, h[i]) == h[..i] + h[i + 1..]
    decreases i
  {
    if i == 0 {
      WithoutAbsent(h[1..], h[0]);
    } else {
      var rest := h[1..];
      WithoutAt(rest, i - 1);
      assert h[..i] == [h[0]] + rest[..i - 1] && h[i + 1..] == rest[i..];
    }
  }

  lemma {:induction false} TailGrows(d: seq<Line>, x: Line, max: nat)
    requires max >= 1
    ensures |Tail(d, max)| == Min(|d|, max)
    ensures Tail(d + [x], max) == (if |d| < max then Tail(d, max) + [x] else Tail(d, max)[1..] + [x])
  {
  }

  /** An entry that is no longer in the tail has no part in the new one. */
  lemma {:induction false} TailForgets(d: seq<Line>, i: nat, x: Line, max: nat)
    requires max >= 1 && i < |d| - max
    ensures Tail(d, max) != []
    ensures Tail(d[..i] + d[i + 1..] + [x], max) == Tail(d, max)[1..] + [x]
  {
    var e := d[..i] + d[i + 1..];
    TailGrows(e, x, max);
    if |e| >= max {
      assert Tail(e, max) == Tail(d, max);
    }
  }

  lemma {:induction false} TailMoves(d: seq<Line>, i: nat, x: Line, max: nat)
    requires max >= 1 && 0 <= i < |d| && i >= |d| - max
    ensures var h := Tail(d, max); var k := i - (|d| - |h|);
            Tail(d[..i] + d[i + 1..] + [x], max) == h[..k] + h[k + 1..] + [x]
  {
    var e := d[..i] + d[i + 1..] + [x];
    assert |e| == |d|;
    if |d| > max {
      var cut := |d| - max;
      assert Tail(d, max)[..i - cut] == d[cut..i] && Tail(d, max)[i - cut + 1..] == d[i + 1..];
      assert e[cut..] == d[cut..i] + d[i + 1..] + [x];
    }
  }

  /** A new entry does to the tail of the occurrences what `add_entry` does to the history. */
  lemma {:induction false} TailStep(d: seq<Line>, x: Line, max: nat)
    requires max >= 1 && Distinct(d)
    ensures AddEntry(Tail(d, max), x, max) == Tail(Without(d, x) + [x], max)
  {
    hide Without, Distinct, Tail;
    if i :| 0 <= i < |d| && d[i] == x {
      WithoutAt(d, i);
      if i < |d| - max {
        NotInTail(d, i, max);
        TailForgets(d, i, x, max);
      } else {
        TailIsDistinct(d, i, max);
        WithoutAt(Tail(d, max), i - (|d| - |Tail(d, max)|));
        TailMoves(d, i, x, max);
      }
    } else {
      WithoutAbsent(d, x);
      TailIsWithin(d, x, max);
      TailGrows(d, x, max);
    }
  }

  lemma {:induction false} TailIsDistinct(d: seq<Line>, i: nat, max: nat)
    requires Distinct(d) && |d| - max <= i < |d|
    ensures var h := Tail(d, max); var k := i - (|d| - |h|);
            Distinct(h) && 0 <= k < |h| && h[k] == d[i]
  {
  }

  lemma {:induction false} TailIsWithin(d: seq<Line>, x: Line, max: nat)
    requires x !in d
    ensures x !in Tail(d, max)
  {
  }

  lemma {:induction false} NotInTail(d: seq<Line>, i: nat, max: nat)
    requires Distinct(d) && i < |d| - max
    ensures d[i] !in Tail(d, max) && |Tail(d, max)| == max
  {
  }

  /** After any lines, the history is the end of the lines with only their last occurrences. */
  lemma {:induction false} HistoryIsTail(lines: seq<Line>, max: nat)
    requires max >= 1
    ensures AddAll(lines, max) == Tail(LastOccurrences(lines), max)
    ensures Distinct(AddAll(lines, max)) && |AddAll(lines, max)| <= max
  {
    hide AddEntry, Without;
    if lines != [] {
      var front, x := lines[..|lines| - 1], lines[|lines| - 1];
      HistoryIsTail(front, max);
      OccurrencesAreDistinct(front);
      TailStep(LastOccurrences(front), x, max);
      assert lines == front + [x];
      OccurrencesAppend(front, x);
    }
    OccurrencesAreDistinct(lines);
  }

  // ---------------------------------------------------------------------------------------------
  // The search
  // ---------------------------------------------------------------------------------------------

  /** `c3_starts_with`, which ignores case. */
  predicate StartsWith(s: Line, prefix: Line) {
    |prefix| <= |s| && Like(s[..|prefix|], prefix, true)
  }

  method StartsWithPrefix(s: Line, prefix: Line) returns (r: bool)
    ensures r == StartsWith(s, prefix)
  {
    var i := 0;
    while i < |prefix|
      invariant i <= |prefix| && i <= |s| && Like(s[..i], prefix[..i], true)
    {
      if i == |s| || Lower(prefix[i]) != Lower(s[i]) {
        assert i < |s| ==> s[..|s|][i] == s[i];
        return false;
      }
      i := i + 1;
    }
    assert prefix[..i] == prefix;
    return true;
  }

  /** The entry that many places back, around the end. */
  function Back(i: nat, d: nat, n: nat): (r: nat)
    requires i < n && d <= n
    ensures r < n
  {
    if d <= i then i - d else i - d + n
  }

  /** How far back the next entry with the prefix is, starting a number of places back. */
  function Distance(h: seq<Line>, prefix: Line, i: nat, d: nat): (e: nat)
    requires i < |h| && 1 <= d <= |h| && StartsWith(h[i], prefix)
    ensures d <= e <= |h| && StartsWith(h[Back(i, e, |h|)], prefix)
    ensures forall k :: d <= k < e ==> !StartsWith(h[Back(i, k, |h|)], prefix)
    decreases |h| - d
  {
    if StartsWith(h[Back(i, d, |h|)], prefix) then d else Distance(h, prefix, i, d + 1)
  }

  /** What `find_next_entry` returns. */
  function NextEntry(h: seq<Line>, prefix: Line, i: nat): (r: nat)
    requires i < |h| && StartsWith(h[i], prefix)
    ensures r < |h| && StartsWith(h[r], prefix)
  {
    Back(i, Distance(h, prefix, i, 1), |h|)
  }

  /** The entries that a number of calls of `find_next_entry` return. */
  function Visits(h: seq<Line>, prefix: Line, i: nat, calls: nat): seq<nat>
    requires i < |h| && StartsWith(h[i], prefix)
    decreases calls
  {
    if calls == 0 then [] else
      var next := NextEntry(h, prefix, i);
      [next] + Visits(h, prefix, next, calls - 1)
  }

  /** All entries with the prefix, backward and around, from beyond d places back to the entry itself. */
  function BackwardMatches(h: seq<Line>, prefix: Line, i: nat, d: nat): seq<nat>
    requires i < |h| && d <= |h|
    decreases |h| - d
  {
    if d == |h| then []
    else
      var j := Back(i, d + 1, |h|);
      (if StartsWith(h[j], prefix) then [j] else []) + BackwardMatches(h, prefix, i, d + 1)
  }

  lemma {:induction false} FirstMatch(h: seq<Line>, prefix: Line, i: nat, d: nat, e: nat)
    requires i < |h| && d < e <= |h| && StartsWith(h[Back(i, e, |h|)], prefix)
    requires forall k :: d < k < e ==> !StartsWith(h[Back(i, k, |h|)], prefix)
    ensures BackwardMatches(h, prefix, i, d) == [Back(i, e, |h|)] + BackwardMatches(h, prefix, i, e)
    decreases e - d
  {
    if d + 1 < e {
      FirstMatch(h, prefix, i, d + 1, e);
    }
  }

  lemma {:induction false} NoMatchAhead(h: seq<Line>, prefix: Line, i: nat, d: nat)
    requires i < |h| && d <= |h|
    requires forall k :: d < k <= |h| ==> !StartsWith(h[Back(i, k, |h|)], prefix)
    ensures BackwardMatches(h, prefix, i, d) == []
    decreases |h| - d
  {
    if d < |h| {
      NoMatchAhead(h, prefix, i, d + 1);
    }
  }

  lemma {:induction false} VisitsFollow(h: seq<Line>, prefix: Line, i: nat, d: nat)
    requires i < |h| && d <= |h| && StartsWith(h[Back(i, d, |h|)], prefix)
    ensures var ahead := BackwardMatches(h, prefix, i, d);
            Visits(h, prefix, Back(i, d, |h|), |ahead|) == ahead
    decreases |h| - d
  {
    hide StartsWith, Back;
    var n := |h|;
    var c := Back(i, d, n);
    var e := Distance(h, prefix, c, 1);
    NoMatchBefore(h, prefix, i, d, if d + e <= n then d + e else n + 1);
    if d + e <= n {
      BackAdds(i, d, e, n);
      FirstMatch(h, prefix, i, d, d + e);
      VisitsFollow(h, prefix, i, d + e);
    } else {
      NoMatchAhead(h, prefix, i, d);
    }
  }

  lemma {:induction false} BackAdds(i: nat, d: nat, k: nat, n: nat)
    requires i < n && d + k <= n
    ensures Back(i, d, n) < n && Back(Back(i, d, n), k, n) == Back(i, d + k, n)
  {
  }

  lemma {:induction false} NoMatchBefore(h: seq<Line>, prefix: Line, i: nat, d: nat, end: nat)
    requires i < |h| && d <= |h| && end <= |h| + 1 && StartsWith(h[Back(i, d, |h|)], prefix)
    requires end <= d + Distance(h, prefix, Back(i, d, |h|), 1)
    ensures forall k :: d < k < end ==> !StartsWith(h[Back(i, k, |h|)], prefix)
  {
    hide StartsWith;
    forall k | d < k < end
      ensures !StartsWith(h[Back(i, k, |h|)], prefix)
    {
      BackAdds(i, d, k - d, |h|);
    }
  }

  /** How many places back an entry is, from one place to all the way around. */
  function PlacesBack(i: nat, j: nat, n: nat): (e: nat)
    requires i < n && j < n
    ensures 1 <= e <= n && Back(i, e, n) == j
  {
    if j < i then i - j else i - j + n
  }

  lemma {:induction false} BackwardHas(h: seq<Line>, prefix: Line, i: nat, d: nat, j: nat)
    requires i < |h| && d <= |h| && j < |h|
    ensures j in BackwardMatches(h, prefix, i, d) <==> StartsWith(h[j], prefix) && d < PlacesBack(i, j, |h|)
    decreases |h| - d
  {
    hide StartsWith;
    if d < |h| {
      BackwardHas(h, prefix, i, d + 1, j);
    }
  }

  lemma {:induction false} BackwardOnce(h: seq<Line>, prefix: Line, i: nat, d: nat)
    requires i < |h| && d <= |h|
    ensures var all := BackwardMatches(h, prefix, i, d);
            forall a, b :: 0 <= a < b < |all| ==> all[a] != all[b]
    decreases |h| - d
  {
    hide StartsWith;
    if d < |h| {
      BackwardOnce(h, prefix, i, d + 1);
      BackwardHas(h, prefix, i, d + 1, Back(i, d + 1, |h|));
    }
  }

  /**
   Repeated searches visit every entry with the prefix, each once, in backward cyclic order, and come back
   to the first.
   */
  lemma {:induction false} VisitsAllBackward(h: seq<Line>, prefix: Line, i: nat)
    requires i < |h| && StartsWith(h[i], prefix)
    ensures var all := BackwardMatches(h, prefix, i, 0);
            && Visits(h, prefix, i, |all|) == all && all != [] && all[|all| - 1] == i
            && (forall j: nat :: j < |h| ==> (j in all <==> StartsWith(h[j], prefix)))
            && (forall a, b :: 0 <= a < b < |all| ==> all[a] != all[b])
  {
    hide BackwardMatches, Visits, StartsWith;
    VisitsFollow(h, prefix, i, 0);
    EndsAtStart(h, prefix, i, 0);
    BackwardOnce(h, prefix, i, 0);
    forall j: nat | j < |h|
      ensures j in BackwardMatches(h, prefix, i, 0) <==> StartsWith(h[j], prefix)
    {
      BackwardHas(h, prefix, i, 0, j);
    }
  }

  lemma {:induction false} EndsAtStart(h: seq<Line>, prefix: Line, i: nat, d: nat)
    requires i < |h| && d < |h| && StartsWith(h[i], prefix)
    ensures var all := BackwardMatches(h, prefix, i, d); all != [] && all[|all| - 1] == i
    decreases |h| - d
  {
    if d + 1 < |h| {
      EndsAtStart(h, prefix, i, d + 1);
    } else {
      assert BackwardMatches(h, prefix, i, d + 1) == [];
    }
  }

  lemma {:induction false} WrapDown(n: nat)
    requires n <= UINT_MAX
    ensures U32(n - 1) == if n == 0 then UINT_MAX else n - 1
  {
  }

  class LineEditor {
    const max: nat
    var history: seq<Line>
    var searchPrefix: Line
    var searchIndex: Option<nat>

    ghost predicate Valid()
      reads this
    {
      max >= 1 && |history| <= max < UINT_MAX && Distinct(history)
    }

    constructor (max: nat)
      requires 1 <= max < UINT_MAX
      ensures Valid() && this.max == max && history == AddAll([], max) && searchIndex == None
    {
      this.max := max;
      history, searchPrefix, searchIndex := [], [], None;
    }

    /** Adds a line; if the history is that of some lines, it becomes the history of those and this one. */
    method Enter(text: Line, ghost lines: seq<Line>)
      requires Valid() && text != [] && history == AddAll(lines, max)
      modifies this`history
      ensures Valid() && history == AddEntry(old(history), text, max) == AddAll(lines + [text], max)
    {
      assert (lines + [text])[..|lines|] == lines;
      HistoryIsTail(lines + [text], max);
      hide AddAll;
      if |history| == 0 {
        history := [text];
      } else {
        var i := 0;
        while i < |history|
          invariant 0 <= i <= |history| && history == old(history) && text !in history[..i]
        {
          if history[i] == text {
            WithoutAt(history, i);
            if i < |history| - 1 {
              history := history[..i] + history[i + 1..] + [text];
            } else {
              assert history == history[..i] + history[i + 1..] + [text];
            }
            return;
          }
          i := i + 1;
        }
        assert history[..i] == history;
        if |history| < max {
          history := history + [text];
        } else {
          history := history[1..] + [text];
        }
      }
    }

    /** The last entry with the prefix, if there is one. */
    method FindFirst(prefix: Line) returns (r: Option<nat>)
      requires Valid()
      modifies this`searchPrefix, this`searchIndex
      ensures r == searchIndex
      ensures r.Some? ==> r.value < |history| && StartsWith(history[r.value], prefix) && searchPrefix == prefix
      ensures forall k :: (if r.Some? then r.value else -1) < k < |history| ==> !StartsWith(history[k], prefix)
    {
      var i := |history|;
      while i > 0
        invariant 0 <= i <= |history|
        invariant forall k :: i <= k < |history| ==> !StartsWith(history[k], prefix)
      {
        i := i - 1;
        var found := StartsWithPrefix(history[i], prefix);
        if found {
          searchPrefix, searchIndex := prefix, Some(i);
          return searchIndex;
        }
      }
      searchPrefix, searchIndex := [], None;
      return None;
    }

    /** The next entry with the prefix of the last search; the index wraps around at zero. */
    method FindNext() returns (r: nat)
      requires Valid() && searchIndex.Some? && searchIndex.value < |history|
      requires StartsWith(history[searchIndex.value], searchPrefix)
      modifies this`searchIndex
      ensures r == NextEntry(history, searchPrefix, old(searchIndex.value)) && searchIndex == Some(r)
      ensures StartsWith(history[r], searchPrefix)
    {
      hide StartsWith, U32;
      var n, from := |history|, searchIndex.value;
      WrapDown(from);
      var index := U32(from - 1);
      for i := 0 to n
        invariant index == if i + 1 <= from then from - i - 1 else if i == from then UINT_MAX else from - i - 1 + n
        invariant i < n ==> Distance(history, searchPrefix, from, 1) == Distance(history, searchPrefix, from, i + 1)
        invariant i < n
      {
        if index > n {
          index := n - 1;
        }
        assert index == Back(from, i + 1, n);
        var found := StartsWithPrefix(history[index], searchPrefix);
        if found {
          searchIndex := Some(index);
          return index;
        }
        WrapDown(index);
        index := U32(index - 1);
      }
      assert false;
    }
  }
}
