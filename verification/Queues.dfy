/** `Queue`: a first-in first-out ring buffer whose capacity is always a power of two. */
module Queues {
  import opened Bytes
  import opened PowersOfTwo

  const MAX_ALLOWED_CAPACITY := 0x1_0000

  /** The queue as its users see it. */
  datatype Fifo<+T> = Fifo(items: seq<T>, capacity: nat, maxCapacity: nat)

  ghost predicate Sound<T>(q: Fifo<T>) {
    && IsPow2(q.capacity) && IsPow2(q.maxCapacity)
    && |q.items| <= q.capacity <= q.maxCapacity <= MAX_ALLOWED_CAPACITY
  }

  /** `validate_capacity`. */
  function ValidCapacity(n: nat): nat {
    NextPowerOf2(if n < 1 then 1 else if n > MAX_ALLOWED_CAPACITY then MAX_ALLOWED_CAPACITY else n)
  }

  /** The capacity that `configure_capacity` chooses: as asked, but not above the maximum nor below the contents. */
  function ChosenCapacity(wanted: nat, maxCapacity: nat, count: nat): nat
    requires count <= UINT_MAX
  {
    var capped := Min(ValidCapacity(wanted), maxCapacity);
    if capped < NextPowerOf2(count) then NextPowerOf2(count) else capped
  }

  function SetCapacity<T>(q: Fifo<T>, wanted: nat): Fifo<T>
    requires |q.items| <= UINT_MAX
  {
    q.(capacity := ChosenCapacity(wanted, q.maxCapacity, |q.items|))
  }

  /** Shrinks the queue if it can, and never below what it holds. */
  function SetMaxCapacity<T>(q: Fifo<T>, wanted: nat): Fifo<T>
    requires |q.items| <= UINT_MAX
  {
    var max := ValidCapacity(wanted);
    if max < q.capacity then
      var s := SetCapacity(q, max);
      s.(maxCapacity := if max < s.capacity then s.capacity else max)
    else q.(maxCapacity := max)
  }

  /** A full queue doubles first if it may; it refuses the element if it is still full. */
  function Grown<T>(q: Fifo<T>): Fifo<T>
    requires |q.items| <= UINT_MAX
  {
    if |q.items| == q.capacity && q.capacity < q.maxCapacity then SetCapacity(q, 2 * q.capacity) else q
  }

  function Put<T>(q: Fifo<T>, x: T): Fifo<T>
    requires |q.items| <= UINT_MAX
  {
    var g := Grown(q);
    if |g.items| < g.capacity then g.(items := g.items + [x]) else g
  }

  predicate Accepts<T>(q: Fifo<T>)
    requires |q.items| <= UINT_MAX
  {
    |q.items| < Grown(q).capacity
  }

  // ---------------------------------------------------------------------------------------------
  // Every operation keeps the queue sound
  // ---------------------------------------------------------------------------------------------

  lemma {:induction false} Power65536()
    ensures Pow2(16) == MAX_ALLOWED_CAPACITY
  {
    assert Pow2(2) == 4;
    hide Pow2;
    Pow2Adds(2, 2);
    Pow2Adds(4, 4);
    Pow2Adds(8, 8);
  }

  lemma {:induction false} ValidCapacityIsSound(n: nat)
    ensures IsPow2(ValidCapacity(n)) && 1 <= ValidCapacity(n) <= MAX_ALLOWED_CAPACITY
  {
    hide NextPowerOf2, Pow2;
    var m := if n < 1 then 1 else if n > MAX_ALLOWED_CAPACITY then MAX_ALLOWED_CAPACITY else n;
    NextPowerOf2IsLeast(m);
    Power65536();
  }

  /** Rounding up the number of elements stays within any power of two that holds them. */
  lemma {:induction false} RoundedCount(count: nat, capacity: nat)
    requires IsPow2(capacity) && count <= capacity <= MAX_ALLOWED_CAPACITY
    ensures count <= NextPowerOf2(count) <= capacity
    ensures if count == 0 then NextPowerOf2(count) == 0 else IsPow2(NextPowerOf2(count))
  {
    hide NextPowerOf2, Pow2;
    if count == 0 {
      NextPowerOf2OfZero();
    } else {
      NextPowerOf2IsLeast(count);
    }
  }

  lemma {:induction false} SetCapacityIsSound<T>(q: Fifo<T>, wanted: nat)
    requires Sound(q)
    ensures Sound(SetCapacity(q, wanted))
  {
    hide NextPowerOf2, ValidCapacity;
    ValidCapacityIsSound(wanted);
    RoundedCount(|q.items|, q.capacity);
  }

  lemma {:induction false} SetMaxCapacityIsSound<T>(q: Fifo<T>, wanted: nat)
    requires Sound(q)
    ensures Sound(SetMaxCapacity(q, wanted))
  {
    hide NextPowerOf2, ValidCapacity, ChosenCapacity;
    ValidCapacityIsSound(wanted);
    SetCapacityIsSound(q, ValidCapacity(wanted));
  }

  /** The least power of two that is not less than `need`. */
  ghost predicate IsLeastPow2(c: nat, need: nat) {
    IsPow2(c) && need <= c && forall p: nat :: IsPow2(p) && need <= p ==> c <= p
  }

  function Max(a: int, b: int): int {
    if a <= b then b else a
  }

  lemma {:induction false} RoundedIsLeast(n: nat)
    requires 1 <= n <= MAX_ALLOWED_CAPACITY
    ensures IsLeastPow2(NextPowerOf2(n), n)
  {
    hide NextPowerOf2, Pow2;
    NextPowerOf2IsLeast(n);
  }

  lemma {:induction false} LeastOfBoth(a: nat, b: nat, m: nat, n: nat)
    requires IsLeastPow2(a, m) && IsLeastPow2(b, n)
    ensures IsLeastPow2(Max(a, b), Max(m, n))
    ensures IsLeastPow2(Min(a, b), Min(m, n))
  {
    hide IsPow2;
  }

  /** A power of two is the least one for itself. */
  lemma {:induction false} LeastOfItself(m: nat)
    requires IsPow2(m)
    ensures IsLeastPow2(m, m)
  {
    hide IsPow2;
  }

  lemma {:induction false} ValidIsLeast(n: nat)
    ensures IsLeastPow2(ValidCapacity(n), Max(1, Min(n, 0x1_0000)))
  {
    hide NextPowerOf2, IsLeastPow2;
    RoundedIsLeast(Max(1, Min(n, 0x1_0000)));
  }

  /** The chosen capacity is the least power of two that holds the contents and, up to the maximum, the request. */
  lemma {:induction false} CapacityIsLeast(wanted: nat, maxCapacity: nat, count: nat)
    requires IsPow2(maxCapacity) && count <= maxCapacity <= MAX_ALLOWED_CAPACITY
    ensures IsLeastPow2(ChosenCapacity(wanted, maxCapacity, count), Max(1, Max(count, Min(wanted, maxCapacity))))
  {
    hide NextPowerOf2, ValidCapacity, IsLeastPow2, IsPow2;
    var request := Max(1, Min(wanted, 0x1_0000));
    ValidIsLeast(wanted);
    LeastOfItself(maxCapacity);
    LeastOfBoth(ValidCapacity(wanted), maxCapacity, request, maxCapacity);
    PowerIsPositive(maxCapacity);
    if count == 0 {
      NextPowerOf2OfZero();
    } else {
      RoundedIsLeast(count);
      LeastOfBoth(Min(ValidCapacity(wanted), maxCapacity), NextPowerOf2(count), Min(request, maxCapacity), count);
    }
  }

  /**
   Capacities after the two setters. A request changes the capacity only. A new maximum is the least power of
   two that holds the contents and the request up to 65536, and cuts the capacity down to itself.
   */
  lemma {:induction false} CapacitiesAreLeast<T>(q: Fifo<T>, wanted: nat)
    requires Sound(q)
    ensures var s := SetCapacity(q, wanted);
            && s == q.(capacity := s.capacity)
            && IsLeastPow2(s.capacity, Max(1, Max(|q.items|, Min(wanted, q.maxCapacity))))
    ensures var s := SetMaxCapacity(q, wanted);
            && s == Fifo(q.items, Min(q.capacity, s.maxCapacity), s.maxCapacity)
            && IsLeastPow2(s.maxCapacity, Max(1, Max(|q.items|, Min(wanted, 0x1_0000))))
  {
    hide ValidCapacity, ChosenCapacity, IsLeastPow2, IsPow2;
    CapacityIsLeast(wanted, q.maxCapacity, |q.items|);
    MaximumIsLeast(q, wanted);
  }

  lemma {:induction false} MaximumIsLeast<T>(q: Fifo<T>, wanted: nat)
    requires Sound(q)
    ensures var s := SetMaxCapacity(q, wanted);
            && s == Fifo(q.items, Min(q.capacity, s.maxCapacity), s.maxCapacity)
            && IsLeastPow2(s.maxCapacity, Max(1, Max(|q.items|, Min(wanted, 0x1_0000))))
  {
    hide ValidCapacity, ChosenCapacity, IsPow2;
    var max := ValidCapacity(wanted);
    ValidIsLeast(wanted);
    if max < q.capacity {
      CapacityIsLeast(max, q.maxCapacity, |q.items|);
      assert IsLeastPow2(q.capacity, q.capacity);
    }
  }

  /** A full queue below its maximum really doubles. */
  lemma {:induction false} GrownIsSound<T>(q: Fifo<T>)
    requires Sound(q)
    ensures Sound(Grown(q))
    ensures |q.items| == q.capacity < q.maxCapacity ==> Grown(q).capacity == 2 * q.capacity
    ensures Accepts(q) <==> |q.items| < q.maxCapacity
  {
    if |q.items| == q.capacity < q.maxCapacity {
      SetCapacityIsSound(q, 2 * q.capacity);
      DoublingFits(q.capacity, q.maxCapacity);
      hide NextPowerOf2;
      RoundedCount(q.capacity, q.capacity);
    }
  }

  lemma {:induction false} GrownCases<T>(q: Fifo<T>)
    requires Sound(q)
    ensures Grown(q) == if |q.items| == q.capacity && q.capacity < q.maxCapacity then SetCapacity(q, 2 * q.capacity) else q
  {
  }

  lemma {:induction false} DoublingFits(a: nat, b: nat)
    requires IsPow2(a) && IsPow2(b) && a < b <= MAX_ALLOWED_CAPACITY
    ensures 2 * a <= b && ValidCapacity(2 * a) == 2 * a
  {
    var i: nat :| a == Pow2(i);
    var j: nat :| b == Pow2(j);
    if j <= i {
      Pow2Grows(j, i);
      assert false;
    }
    Pow2Grows(i, j);
    assert 2 * a == Pow2(i + 1);
    hide NextPowerOf2, Pow2;
    NextPowerOf2IsLeast(2 * a);
  }

  // ---------------------------------------------------------------------------------------------
  // Runs
  // ---------------------------------------------------------------------------------------------

  datatype Op<+T> = PutOp(x: T) | GetOp | SetCapacityOp(n: nat) | SetMaxCapacityOp(n: nat)

  /** A run with what it accepted and what it handed out, in order. */
  datatype Run<+T> = Run(queue: Fifo<T>, accepted: seq<T>, delivered: seq<T>)

  function Apply<T>(r: Run<T>, op: Op<T>): Run<T>
    requires |r.queue.items| <= UINT_MAX
  {
    var q := r.queue;
    match op
    case PutOp(x) => Run(Put(q, x), if Accepts(q) then r.accepted + [x] else r.accepted, r.delivered)
    case GetOp =>
      if q.items == [] then r
      else Run(q.(items := q.items[1..]), r.accepted, r.delivered + [q.items[0]])
    case SetCapacityOp(n) => r.(queue := SetCapacity(q, n))
    case SetMaxCapacityOp(n) => r.(queue := SetMaxCapacity(q, n))
  }

  ghost predicate Conserves<T>(r: Run<T>) {
    Sound(r.queue) && r.accepted == r.delivered + r.queue.items
  }

  lemma {:induction false} ApplyConserves<T>(r: Run<T>, op: Op<T>)
    requires Conserves(r)
    ensures Conserves(Apply(r, op))
  {
    hide ChosenCapacity, ValidCapacity;
    var q := r.queue;
    match op {
      case PutOp(x) => GrownIsSound(q);
      case GetOp =>
      case SetCapacityOp(n) => SetCapacityIsSound(q, n);
      case SetMaxCapacityOp(n) => SetMaxCapacityIsSound(q, n);
    }
  }

  ghost function Execute<T>(r: Run<T>, ops: seq<Op<T>>): Run<T>
    requires Conserves(r)
    decreases |ops|
  {
    if ops == [] then r else ApplyConserves(r, ops[0]); Execute(Apply(r, ops[0]), ops[1..])
  }

  /**
   Whatever puts, gets and changes of capacity are interleaved, elements leave in the order in which they
   were accepted, none is lost or repeated, and the bounds on the capacity hold.
   */
  lemma {:induction false} RunsAreFifo<T>(q: Fifo<T>, ops: seq<Op<T>>)
    requires Sound(q)
    ensures Conserves(Run(q, q.items, []))
    ensures var r := Execute(Run(q, q.items, []), ops);
            && r.delivered <= r.accepted
            && r.accepted == r.delivered + r.queue.items
            && Sound(r.queue)
  {
    assert [] + q.items == q.items;
    ExecuteConserves(Run(q, q.items, []), ops);
  }

  lemma {:induction false} ExecuteConserves<T>(r: Run<T>, ops: seq<Op<T>>)
    requires Conserves(r)
    ensures Conserves(Execute(r, ops))
    decreases |ops|
  {
    if ops != [] {
      ApplyConserves(r, ops[0]);
      ExecuteConserves(Apply(r, ops[0]), ops[1..]);
    }
  }

  // ---------------------------------------------------------------------------------------------
  // The ring buffer
  // ---------------------------------------------------------------------------------------------

  function Wrapped(i: nat, capacity: nat): nat {
    if i < capacity then i else i - capacity
  }

  /** The n elements of a ring that follow one another from an index on. */
  function Ring<T>(buffer: seq<T>, start: nat, n: nat): (r: seq<T>)
    requires start < |buffer| && n <= |buffer|
    ensures |r| == n && forall i :: 0 <= i < n ==> r[i] == buffer[Wrapped(start + i, |buffer|)]
  {
    seq(n, i requires 0 <= i < n => buffer[Wrapped(start + i, |buffer|)])
  }

  lemma {:induction false} RingDropsFirst<T>(buffer: seq<T>, start: nat, n: nat)
    requires start < |buffer| && 0 < n <= |buffer|
    ensures Ring(buffer, start, n) == [buffer[start]] + Ring(buffer, Wrapped(start + 1, |buffer|), n - 1)
  {
  }

  lemma {:induction false} RingAppends<T>(buffer: seq<T>, start: nat, n: nat, x: T)
    requires start < |buffer| && n < |buffer|
    ensures Ring(buffer[Wrapped(start + n, |buffer|) := x], start, n + 1) == Ring(buffer, start, n) + [x]
  {
  }

  lemma {:induction false} RingFromStart<T>(buffer: seq<T>, n: nat)
    requires 0 < |buffer| && n <= |buffer|
    ensures Ring(buffer, 0, n) == buffer[..n]
  {
  }

  /** The capacity of a new queue. */
  lemma {:induction false} FirstCapacity(capacity: nat, limit: nat)
    requires IsPow2(limit) && limit <= MAX_ALLOWED_CAPACITY
    ensures var c := ChosenCapacity(capacity, limit, 0);
            c == Min(ValidCapacity(capacity), limit) && IsPow2(c) && 0 < c <= limit
  {
    ValidCapacityIsSound(capacity);
    NextPowerOf2OfZero();
    hide ValidCapacity, NextPowerOf2;
  }

  method Masked(i: nat, capacity: nat) returns (r: nat)
    requires IsPow2(capacity) && i < 2 * capacity
    ensures r == Wrapped(i, capacity)
  {
    r := And(i, capacity - 1);
    ghost var k: nat :| capacity == Pow2(k);
    MaskWraps(i, k);
  }

  class Queue<T(0)> {
    var buffer: array<T>
    var maxCapacity: nat
    var count: nat
    var putIndex: nat
    var getIndex: nat

    /** The fields of a queue that has its buffer. */
    ghost predicate Placed()
      reads this
    {
      && getIndex < buffer.Length && count <= buffer.Length
      && putIndex == Wrapped(getIndex + count, buffer.Length)
    }

    ghost function Contents(): Fifo<T>
      requires Placed()
      reads this, buffer
    {
      Fifo(Ring(buffer[..], getIndex, count), buffer.Length, maxCapacity)
    }

    ghost predicate Valid()
      reads this, buffer
    {
      Placed() && Sound(Contents())
    }

    constructor (capacity: nat, max: nat)
      ensures Valid() && fresh(buffer)
      ensures Contents().items == []
      ensures maxCapacity == ValidCapacity(if max > 0 then max else capacity)
      ensures buffer.Length == Min(ValidCapacity(capacity), maxCapacity)
    {
      hide ValidCapacity, NextPowerOf2, ChosenCapacity, Ring, IsPow2;
      ValidCapacityIsSound(if max > 0 then max else capacity);
      var limit := ValidCapacity(if max > 0 then max else capacity);
      FirstCapacity(capacity, limit);
      maxCapacity := limit;
      count, putIndex, getIndex := 0, 0, 0;
      buffer := new T[ChosenCapacity(capacity, limit, 0)];
    }

    /** Moves the elements, in their order, to the start of another buffer. */
    method Unroll(capacity: nat) returns (copy: array<T>)
      requires Valid() && count <= capacity
      ensures fresh(copy) && copy.Length == capacity
      ensures copy[..count] == Contents().items
    {
      hide NextPowerOf2, IsPow2;
      copy := new T[capacity];
      for i := 0 to count
        invariant copy[..i] == Contents().items[..i]
      {
        var j := Masked(getIndex + i, buffer.Length);
        copy[i] := buffer[j];
        assert copy[..i + 1] == copy[..i] + [copy[i]];
      }
      assert Contents().items[..count] == Contents().items;
    }

    /** `configure_capacity` of a queue that has its buffer. */
    method ConfigureCapacity(wanted: nat)
      requires Valid()
      modifies this
      ensures Valid() && (buffer == old(buffer) || fresh(buffer))
      ensures maxCapacity == old(maxCapacity)
      ensures Contents() == SetCapacity(old(Contents()), wanted)
    {
      hide NextPowerOf2, IsPow2, ValidCapacity, ChosenCapacity, Ring;
      SetCapacityIsSound(Contents(), wanted);
      var capacity := ChosenCapacity(wanted, maxCapacity, count);
      if capacity != buffer.Length {
        var copy := Unroll(capacity);
        PowerIsPositive(capacity);
        buffer := copy;
        getIndex := 0;
        putIndex := Masked(count, capacity);
        RingFromStart(buffer[..], count);
        assert buffer[..][..count] == buffer[..count];
      }
    }

    method ConfigureMaxCapacity(wanted: nat)
      requires Valid()
      modifies this
      ensures Valid() && (buffer == old(buffer) || fresh(buffer))
      ensures Contents() == SetMaxCapacity(old(Contents()), wanted)
    {
      hide NextPowerOf2, ValidCapacity, ChosenCapacity, IsPow2, Ring, Wrapped;
      SetMaxCapacityIsSound(Contents(), wanted);
      var max := ValidCapacity(wanted);
      if max < buffer.Length {
        ConfigureCapacity(max);
        if max < buffer.Length {
          max := buffer.Length;
        }
      }
      maxCapacity := max;
    }

    /** Writes an element after the last one. */
    method Append(x: T)
      requires Valid() && count < buffer.Length
      modifies this`putIndex, this`count, buffer
      ensures Valid() && Contents() == old(Contents()).(items := old(Contents()).items + [x])
    {
      hide NextPowerOf2, IsPow2, Ring;
      ghost var ring := buffer[..];
      RingAppends(ring, getIndex, count, x);
      buffer[putIndex] := x;
      assert buffer[..] == ring[putIndex := x];
      putIndex := Masked(putIndex + 1, buffer.Length);
      count := count + 1;
    }

    method PutElement(x: T) returns (done: bool)
      requires Valid()
      modifies this, buffer
      ensures Valid() && (buffer == old(buffer) || fresh(buffer))
      ensures Contents() == Put(old(Contents()), x)
      ensures done == Accepts(old(Contents()))
      ensures done <==> old(count) < maxCapacity
    {
      hide NextPowerOf2, ChosenCapacity, IsPow2, ValidCapacity, Ring, Grown, Wrapped;
      ghost var q := Contents();
      GrownCases(q);
      GrownIsSound(q);
      if count == buffer.Length {
        if buffer.Length < maxCapacity {
          ConfigureCapacity(buffer.Length * 2);
        }
        if count == buffer.Length {
          return false;
        }
      }
      assert Contents() == Grown(q);
      Append(x);
      done := true;
    }

    /** An empty queue yields nothing (the source returns a default object). */
    method GetElement() returns (r: Option<T>)
      requires Valid()
      modifies this
      ensures Valid() && buffer == old(buffer)
      ensures r == if old(Contents()).items == [] then None else Some(old(Contents()).items[0])
      ensures Contents() == old(Contents()).(items := if r.Some? then old(Contents()).items[1..] else [])
    {
      hide NextPowerOf2, IsPow2;
      if count == 0 {
        return None;
      }
      RingDropsFirst(buffer[..], getIndex, count);
      r := Some(buffer[getIndex]);
      getIndex := Masked(getIndex + 1, buffer.Length);
      count := count - 1;
    }
  }

  lemma {:induction false} PowerIsPositive(n: nat)
    requires IsPow2(n)
    ensures n > 0
  {
  }
}
