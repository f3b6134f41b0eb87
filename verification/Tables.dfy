/** `DescriptorVector` as a value: slots, and a stack of the slots that were freed. */
module Tables {

  datatype Table<+T> = Table(slots: seq<T>, removed: seq<nat>) {
    function Count(): int {
      |slots| - |removed|
    }
  }

  /** The freed slots are distinct, in range and blank, and only a table with elements has any. */
  ghost predicate Sound<T>(t: Table<T>, blank: T) {
    && (forall i, j :: 0 <= i < j < |t.removed| ==> t.removed[i] != t.removed[j])
    && (forall i :: 0 <= i < |t.removed| ==> t.removed[i] < |t.slots| && t.slots[t.removed[i]] == blank)
    && (t.slots != [] ==> t.Count() > 0)
  }

  /** The table as its users see it: elements by handle. */
  function Live<T>(t: Table<T>): map<nat, T> {
    map i: nat | i < |t.slots| && i !in t.removed :: t.slots[i]
  }

  function NextHandle<T>(t: Table<T>): nat {
    if t.removed != [] then t.removed[|t.removed| - 1] else |t.slots|
  }

  function Add<T>(t: Table<T>, e: T): Table<T>
    requires NextHandle(t) <= |t.slots|
  {
    if t.removed != [] && NextHandle(t) < |t.slots| then
      Table(t.slots[NextHandle(t) := e], t.removed[..|t.removed| - 1])
    else Table(t.slots + [e], t.removed)
  }

  function Remove<T>(t: Table<T>, i: nat, blank: T): Table<T>
    requires i < |t.slots|
  {
    if t.Count() == 1 then Table([], [])
    else if i == |t.slots| - 1 then Table(t.slots[..i], t.removed)
    else Table(t.slots[i := blank], t.removed + [i])
  }

  // ---------------------------------------------------------------------------------------------
  // Counting
  // ---------------------------------------------------------------------------------------------

  ghost function Below(n: nat): (r: set<nat>)
    ensures |r| == n && forall i: nat :: i in r <==> i < n
  {
    if n == 0 then {} else Below(n - 1) + {n - 1}
  }

  ghost function Elements(s: seq<nat>): (r: set<nat>)
    ensures forall x :: x in r <==> x in s
  {
    if s == [] then {} else Elements(s[..|s| - 1]) + {s[|s| - 1]}
  }

  /** Taking distinct numbers away from the numbers below n leaves the difference. */
  lemma {:induction false} Without(n: nat, s: seq<nat>)
    requires forall i, j :: 0 <= i < j < |s| ==> s[i] != s[j]
    requires forall i :: 0 <= i < |s| ==> s[i] < n
    ensures |Below(n) - Elements(s)| == n - |s|
    decreases |s|
  {
    hide Below;
    if s == [] {
      assert Below(n) - Elements(s) == Below(n);
    } else {
      var front, last := s[..|s| - 1], s[|s| - 1];
      Without(n, front);
      var rest := Below(n) - Elements(front);
      assert last in rest;
      assert Below(n) - Elements(s) == rest - {last};
    }
  }

  /** The count is the number of elements. */
  lemma {:induction false} CountIsLive<T>(t: Table<T>, blank: T)
    requires Sound(t, blank)
    ensures |Live(t)| == t.Count()
  {
    Without(|t.slots|, t.removed);
    assert Live(t).Keys == Below(|t.slots|) - Elements(t.removed);
    assert |Live(t)| == |Live(t).Keys|;
  }

  lemma {:induction false} OnlyKey(m: set<nat>, i: nat)
    requires i in m && |m| == 1
    ensures m == {i}
  {
    assert |m - {i}| == 0;
    assert m == (m - {i}) + {i};
  }

  // ---------------------------------------------------------------------------------------------
  // A table is a map from handles to elements
  // ---------------------------------------------------------------------------------------------

  /** Adding gives a handle that was not in use and disturbs no other. */
  lemma {:induction false} AddIsMapUpdate<T>(t: Table<T>, e: T, blank: T)
    requires Sound(t, blank)
    ensures NextHandle(t) <= |t.slots| && NextHandle(t) !in Live(t)
    ensures Sound(Add(t, e), blank) && Live(Add(t, e)) == Live(t)[NextHandle(t) := e]
    ensures Add(t, e).Count() == t.Count() + 1
  {
    var h := NextHandle(t);
    if t.removed != [] {
      var front := t.removed[..|t.removed| - 1];
      assert forall x :: x in t.removed <==> x in front || x == h;
      assert h !in front;
    }
    assert Live(Add(t, e)) == Live(t)[h := e];
  }

  lemma {:induction false} LastIsRemoved<T>(t: Table<T>, i: nat, blank: T)
    requires Sound(t, blank) && i in Live(t) && t.Count() > 1 && i == |t.slots| - 1
    ensures Sound(Table(t.slots[..i], t.removed), blank) && Live(Table(t.slots[..i], t.removed)) == Live(t) - {i}
  {
    assert Live(Table(t.slots[..i], t.removed)) == Live(t) - {i};
  }

  lemma {:induction false} HoleIsLeft<T>(t: Table<T>, i: nat, blank: T)
    requires Sound(t, blank) && i in Live(t) && t.Count() > 1
    ensures var u := Table(t.slots[i := blank], t.removed + [i]); Sound(u, blank) && Live(u) == Live(t) - {i}
  {
    assert forall x :: x in t.removed + [i] <==> x in t.removed || x == i;
    assert Live(Table(t.slots[i := blank], t.removed + [i])) == Live(t) - {i};
  }

  /** Removing takes away one handle and disturbs no other. */
  lemma {:induction false} RemoveIsMapRemoval<T>(t: Table<T>, i: nat, blank: T)
    requires Sound(t, blank) && i in Live(t)
    ensures Sound(Remove(t, i, blank), blank) && Live(Remove(t, i, blank)) == Live(t) - {i}
    ensures Remove(t, i, blank).Count() == t.Count() - 1
  {
    if t.Count() == 1 {
      CountIsLive(t, blank);
      OnlyKey(Live(t).Keys, i);
      assert Live(t) - {i} == map[];
    } else if i == |t.slots| - 1 {
      LastIsRemoved(t, i, blank);
    } else {
      HoleIsLeft(t, i, blank);
    }
  }

  /** So does an assignment through a live handle. */
  lemma {:induction false} AssignIsMapUpdate<T>(t: Table<T>, i: nat, e: T, blank: T)
    requires Sound(t, blank) && i in Live(t)
    ensures var u := t.(slots := t.slots[i := e]); Sound(u, blank) && Live(u) == Live(t)[i := e]
  {
    assert Live(t.(slots := t.slots[i := e])) == Live(t)[i := e];
  }

  // ---------------------------------------------------------------------------------------------
  // Runs
  // ---------------------------------------------------------------------------------------------

  datatype Op<+T> = AddOp(e: T) | RemoveOp(handle: nat)

  /** What a user of the table keeps: the elements by handle. A handle may be removed only while it is live. */
  ghost predicate Legal<T>(t: Table<T>, ops: seq<Op<T>>, blank: T)
    requires Sound(t, blank)
    decreases |ops|
  {
    ops != [] ==>
      match ops[0]
      case AddOp(e) =>
        AddIsMapUpdate(t, e, blank);
        Legal(Add(t, e), ops[1..], blank)
      case RemoveOp(h) =>
        h in Live(t) && (RemoveIsMapRemoval(t, h, blank); Legal(Remove(t, h, blank), ops[1..], blank))
  }

  ghost function Execute<T>(t: Table<T>, ops: seq<Op<T>>, blank: T): Table<T>
    requires Sound(t, blank) && Legal(t, ops, blank)
    decreases |ops|
  {
    if ops == [] then t
    else
      match ops[0]
      case AddOp(e) =>
        AddIsMapUpdate(t, e, blank);
        Execute(Add(t, e), ops[1..], blank)
      case RemoveOp(h) =>
        RemoveIsMapRemoval(t, h, blank);
        Execute(Remove(t, h, blank), ops[1..], blank)
  }

  /** A handle that is live and never removed keeps its element through any run. */
  lemma {:induction false} HandlesAreStable<T>(t: Table<T>, ops: seq<Op<T>>, blank: T, h: nat)
    requires Sound(t, blank) && Legal(t, ops, blank) && h in Live(t)
    requires forall i :: 0 <= i < |ops| ==> ops[i] != RemoveOp(h)
    ensures var end := Execute(t, ops, blank);
            Sound(end, blank) && h in Live(end) && Live(end)[h] == Live(t)[h] && |Live(end)| == end.Count()
    decreases |ops|
  {
    if ops == [] {
      CountIsLive(t, blank);
    } else {
      hide Sound, Live, Add, Remove, NextHandle;
      match ops[0]
      case AddOp(e) =>
        AddIsMapUpdate(t, e, blank);
        HandlesAreStable(Add(t, e), ops[1..], blank, h);
      case RemoveOp(r) =>
        RemoveIsMapRemoval(t, r, blank);
        HandlesAreStable(Remove(t, r, blank), ops[1..], blank, h);
    }
  }
}
