/** The emulation of `epoll`: a registry of file descriptors in a descriptor vector. */
module Epolls {
  import opened Bytes
  import opened Tables
  import opened Vectors

  /** The event mask and the user data. */
  datatype Event = Event(mask: nat, data: nat)

  datatype Descriptor = Descriptor(event: Event, fd: int)

  /** What a hole holds. */
  const BLANK := Descriptor(Event(0, 0), -1)

  datatype Outcome = Done | EEXIST | ENOENT | EINVAL | EBADF

  const CTL_ADD := 1
  const CTL_DEL := 2
  const CTL_MOD := 3

  // ---------------------------------------------------------------------------------------------
  // The registry as a map from file descriptors to events
  // ---------------------------------------------------------------------------------------------

  /** The same descriptors, each at most once. */
  ghost predicate Holds(live: map<nat, Descriptor>, events: map<int, Event>) {
    && (forall i :: i in live ==> live[i].fd > 0 && live[i].fd in events && events[live[i].fd] == live[i].event)
    && (forall i, j :: i in live && j in live && live[i].fd == live[j].fd ==> i == j)
    && (forall fd :: fd in events ==> exists i :: i in live && live[i].fd == fd)
  }

  /** What `epoll_ctl` does to the registry. */
  function Control(events: map<int, Event>, op: int, fd: int, event: Option<Event>): map<int, Event> {
    if Verdict(events, op, fd, event) != Done then events
    else if op == CTL_DEL then events - {fd}
    else if event.Some? then events[fd := event.value]
    else events
  }

  function Verdict(events: map<int, Event>, op: int, fd: int, event: Option<Event>): Outcome {
    if fd <= 0 || event.None? then EINVAL
    else if op == CTL_ADD then if fd in events then EEXIST else Done
    else if op == CTL_DEL || op == CTL_MOD then if fd in events then Done else ENOENT
    else EINVAL
  }

  /**
   The commands undo and shadow one another as those of a registry do, whatever is registered: what is added
   can be changed and taken out again, leaving everything as it was, and cannot be added twice.
   */
  lemma {:induction false} RegistryLaws(events: map<int, Event>, fd: int, a: Event, b: Event)
    requires fd > 0 && fd !in events
    ensures Verdict(events, CTL_DEL, fd, Some(a)) == Verdict(events, CTL_MOD, fd, Some(a)) == ENOENT
    ensures Verdict(events, CTL_ADD, fd, Some(a)) == Done
    ensures var added := Control(events, CTL_ADD, fd, Some(a));
            && added.Keys == events.Keys + {fd} && added[fd] == a
            && (forall other :: other in events ==> added[other] == events[other])
            && Verdict(added, CTL_ADD, fd, Some(b)) == EEXIST
            && Verdict(added, CTL_MOD, fd, Some(b)) == Verdict(added, CTL_DEL, fd, Some(b)) == Done
            && Control(added, CTL_MOD, fd, Some(b)) == Control(events, CTL_ADD, fd, Some(b))
            && Control(added, CTL_DEL, fd, Some(b)) == events
  {
    var added := Control(events, CTL_ADD, fd, Some(a));
    assert added - {fd} == events;
    assert added[fd := b] == events[fd := b];
  }

  /** Nothing changes unless the command succeeds, and it never does without a descriptor and an event. */
  lemma {:induction false} RegistryRefuses(events: map<int, Event>, op: int, fd: int, event: Option<Event>)
    ensures fd <= 0 || event.None? || op !in {1, 2, 3} ==> Verdict(events, op, fd, event) == EINVAL
    ensures Verdict(events, op, fd, event) != Done ==> Control(events, op, fd, event) == events
  {
  }

  lemma {:induction false} HoldsAdded(live: map<nat, Descriptor>, events: map<int, Event>, i: nat, d: Descriptor)
    requires Holds(live, events) && i !in live && d.fd !in events && d.fd > 0
    ensures Holds(live[i := d], events[d.fd := d.event])
  {
    var l, e := live[i := d], events[d.fd := d.event];
    forall fd | fd in e
      ensures exists k :: k in l && l[k].fd == fd
    {
      if fd == d.fd {
        assert i in l && l[i].fd == fd;
      } else {
        var k :| k in live && live[k].fd == fd;
        assert k in l && l[k].fd == fd;
      }
    }
  }

  lemma {:induction false} HoldsRemoved(live: map<nat, Descriptor>, events: map<int, Event>, i: nat)
    requires Holds(live, events) && i in live
    ensures Holds(live - {i}, events - {live[i].fd})
  {
    var l, e := live - {i}, events - {live[i].fd};
    forall fd | fd in e
      ensures exists k :: k in l && l[k].fd == fd
    {
      var k :| k in live && live[k].fd == fd;
      assert k in l && l[k].fd == fd;
    }
  }

  lemma {:induction false} HoldsChanged(live: map<nat, Descriptor>, events: map<int, Event>, i: nat, event: Event)
    requires Holds(live, events) && i in live
    ensures Holds(live[i := Descriptor(event, live[i].fd)], events[live[i].fd := event])
  {
    var l, e := live[i := Descriptor(event, live[i].fd)], events[live[i].fd := event];
    forall fd | fd in e
      ensures exists k :: k in l && l[k].fd == fd
    {
      if fd == live[i].fd {
        assert i in l && l[i].fd == fd;
      } else {
        var k :| k in live && live[k].fd == fd;
        assert k in l && l[k].fd == fd;
      }
    }
  }

  /** A positive descriptor in a slot is a registered one, because holes are blank. */
  lemma {:induction false} SlotIsLive(t: Table<Descriptor>, i: nat)
    requires Sound(t, BLANK) && i < |t.slots| && t.slots[i].fd > 0
    ensures i in Live(t) && Live(t)[i] == t.slots[i]
  {
  }

  lemma {:induction false} NotInSlots(t: Table<Descriptor>, events: map<int, Event>, fd: int)
    requires Holds(Live(t), events) && forall i :: 0 <= i < |t.slots| ==> t.slots[i].fd != fd
    ensures fd !in events
  {
  }

  class EpollInstance {
    const descriptors: DescriptorVector<Descriptor>
    ghost var events: map<int, Event>

    ghost predicate Valid()
      reads this, descriptors, descriptors.data, descriptors.removed, descriptors.data.buffer, descriptors.removed.buffer
    {
      && descriptors.Valid() && descriptors.data.blank == BLANK
      && Holds(Live(descriptors.State()), events)
    }

    /** The objects that the instance is made of. */
    ghost function Parts(): set<object>
      reads this, descriptors.data, descriptors.removed
    {
      {this, descriptors, descriptors.data, descriptors.removed, descriptors.data.buffer, descriptors.removed.buffer}
    }

    constructor ()
      ensures Valid() && events == map[] && fresh(Parts())
    {
      descriptors := new DescriptorVector(BLANK, 64, 32, 8, 4);
      events := map[];
    }

    /** The handle of a descriptor, if it is registered. */
    method Find(fd: int) returns (r: Option<nat>)
      requires Valid() && fd > 0
      ensures r.Some? <==> fd in events
      ensures r.Some? ==> var live := Live(descriptors.State()); r.value in live && live[r.value].fd == fd
    {
      ghost var t := descriptors.State();
      for i := 0 to descriptors.data.size
        invariant forall k :: 0 <= k < i ==> t.slots[k].fd != fd
      {
        if descriptors.data.buffer[i].fd == fd {
          assert t.slots[i].fd == fd;
          SlotIsLive(t, i);
          return Some(i);
        }
      }
      NotInSlots(t, events, fd);
      return None;
    }

    method AddDescriptor(d: Descriptor)
      requires Valid() && d.fd > 0 && d.fd !in events
      modifies this, descriptors.data, descriptors.removed, descriptors.data.buffer, descriptors.removed.buffer
      ensures Valid() && events == old(events)[d.fd := d.event]
      ensures descriptors.data.buffer == old(descriptors.data.buffer) || fresh(descriptors.data.buffer)
      ensures descriptors.removed.buffer == old(descriptors.removed.buffer) || fresh(descriptors.removed.buffer)
    {
      hide Holds, Live, Sound, Add, NextHandle;
      ghost var live := Live(descriptors.State());
      var i := descriptors.Insert(d);
      HoldsAdded(live, events, i, d);
      events := events[d.fd := d.event];
    }

    method RemoveDescriptor(fd: int) returns (done: bool)
      requires Valid() && fd > 0
      modifies this, descriptors.data, descriptors.removed, descriptors.data.buffer, descriptors.removed.buffer
      ensures Valid() && events == old(events) - {fd} && done == (fd in old(events))
      ensures descriptors.data.buffer == old(descriptors.data.buffer)
      ensures descriptors.removed.buffer == old(descriptors.removed.buffer) || fresh(descriptors.removed.buffer)
    {
      hide Holds, Live, Sound, Remove;
      var i := Find(fd);
      if i.None? {
        return false;
      }
      ghost var live := Live(descriptors.State());
      descriptors.Delete(i.value);
      HoldsRemoved(live, events, i.value);
      events := events - {fd};
      return true;
    }

    method ChangeEvent(i: nat, event: Event)
      requires Valid() && i in Live(descriptors.State())
      modifies this, descriptors.data.buffer
      ensures Valid() && events == old(events)[Live(old(descriptors.State()))[i].fd := event]
    {
      assert descriptors.data.Slots()[i] == Live(descriptors.State())[i];
      hide Holds, Live, Sound;
      ghost var live := Live(descriptors.State());
      var d := descriptors.data.buffer[i];
      descriptors.Assign(i, d.(event := event));
      HoldsChanged(live, events, i, event);
      events := events[d.fd := event];
    }

    /** `epoll_ctl` of a registered instance. */
    method Ctl(op: int, fd: int, event: Option<Event>) returns (r: Outcome)
      requires Valid()
      modifies Parts()
      ensures Valid() && fresh(Parts() - old(Parts()))
      ensures r == Verdict(old(events), op, fd, event)
      ensures events == Control(old(events), op, fd, event)
    {
      hide Holds, Live, Sound;
      if fd <= 0 || event.None? {
        return EINVAL;
      }
      if op == CTL_ADD {
        var i := Find(fd);
        if i.Some? {
          return EEXIST;
        }
        AddDescriptor(Descriptor(event.value, fd));
        return Done;
      } else if op == CTL_DEL {
        var done := RemoveDescriptor(fd);
        if !done {
          assert events == old(events);
          return ENOENT;
        }
        return Done;
      } else if op == CTL_MOD {
        var i := Find(fd);
        if i.None? {
          return ENOENT;
        }
        ChangeEvent(i.value, event.value);
        return Done;
      }
      return EINVAL;
    }
  }

  type Instances = DescriptorVector<EpollInstance?>

  /** The objects that the table of instances itself is made of. */
  ghost function Frame(instances: Instances): set<object>
    reads instances, instances.data, instances.removed
  {
    {instances.data, instances.removed, instances.data.buffer, instances.removed.buffer}
  }

  /** Sets of objects that have nothing in common with one another or with a further one. */
  ghost predicate Disjoint(parts: map<nat, set<object>>, frame: set<object>) {
    && (forall i :: i in parts ==> parts[i] !! frame)
    && (forall i, j :: i in parts && j in parts && i != j ==> parts[i] !! parts[j])
  }

  lemma {:induction false} DisjointUpdated(parts: map<nat, set<object>>, frame: set<object>, k: nat, p: set<object>)
    requires Disjoint(parts, frame) && p !! frame
    requires forall i :: i in parts && i != k ==> p !! parts[i]
    ensures Disjoint(parts[k := p], frame)
  {
  }

  lemma {:induction false} DisjointRemoved(parts: map<nat, set<object>>, frame: set<object>, k: nat)
    requires Disjoint(parts, frame)
    ensures Disjoint(parts - {k}, frame)
  {
  }

  lemma {:induction false} DisjointReframed(parts: map<nat, set<object>>, was: set<object>, frame: set<object>)
    requires Disjoint(parts, was)
    requires forall i, o :: i in parts && o in parts[i] ==> o !in frame
    ensures Disjoint(parts, frame)
  {
    forall i | i in parts
      ensures parts[i] !! frame
    {
      assert forall o :: o in parts[i] ==> o !in frame;
    }
  }

  type Handles = map<nat, EpollInstance?>

  ghost predicate AllValid(live: Handles)
    reads *
  {
    forall i :: i in live ==> live[i] != null && live[i].Valid()
  }

  ghost function PartsOf(live: Handles): map<nat, set<object>>
    requires forall i :: i in live ==> live[i] != null
    reads *
  {
    map i | i in live :: live[i].Parts()
  }

  ghost function EventsOf(live: Handles): map<nat, map<int, Event>>
    requires forall i :: i in live ==> live[i] != null
    reads *
  {
    map i | i in live :: live[i].events
  }

  /** Every handle has a valid instance, and no two instances share an object, nor does one with the table. */
  ghost predicate Registered(instances: Instances)
    reads *
  {
    && instances.Valid() && instances.data.blank == null
    && var live := Live(instances.State());
       AllValid(live) && Disjoint(PartsOf(live), Frame(instances))
  }

  /** What is registered, by the index of the epoll handle. */
  ghost function Registries(instances: Instances): map<nat, map<int, Event>>
    requires Registered(instances)
    reads *
  {
    EventsOf(Live(instances.State()))
  }

  /** An epoll handle is one more than its index. */
  predicate HasHandle(registries: map<nat, map<int, Event>>, epfd: int) {
    epfd > 0 && epfd - 1 in registries
  }

  /** A slot of the table is null exactly if its handle is not in use. */
  lemma {:induction false} NullIffNotLive(t: Table<EpollInstance?>, i: nat)
    requires Sound(t, null) && i < |t.slots| && forall k :: k in Live(t) ==> Live(t)[k] != null
    ensures t.slots[i] != null <==> i in Live(t)
    ensures i in Live(t) ==> Live(t)[i] == t.slots[i]
  {
  }

  /** An instance none of whose objects has changed is as it was. */
  twostate lemma {:induction false} InstanceKept(e: EpollInstance)
    requires old(e.Valid()) && unchanged(old(e.Parts()))
    ensures e.Valid() && e.Parts() == old(e.Parts()) && e.events == old(e.events)
  {
    hide EpollInstance.Valid;
  }

  /** The instances have these parts and events. */
  ghost predicate Are(live: Handles, parts: map<nat, set<object>>, events: map<nat, map<int, Event>>)
    reads *
  {
    && parts.Keys == live.Keys == events.Keys
    && forall i :: i in live ==>
         live[i] != null && live[i].Valid() && live[i].Parts() == parts[i] && live[i].events == events[i]
  }

  lemma {:induction false} AreParts(live: Handles, parts: map<nat, set<object>>, events: map<nat, map<int, Event>>)
    requires Are(live, parts, events)
    ensures AllValid(live) && PartsOf(live) == parts && EventsOf(live) == events
  {
    hide EpollInstance.Valid, EpollInstance.Parts;
  }

  lemma {:induction false} AreUpdated(live: Handles, parts: map<nat, set<object>>, events: map<nat, map<int, Event>>,
                                      k: nat, e: EpollInstance, p: set<object>, v: map<int, Event>)
    requires parts.Keys == live.Keys == events.Keys
    requires forall i :: i in live && i != k ==>
               live[i] != null && live[i].Valid() && live[i].Parts() == parts[i] && live[i].events == events[i]
    requires e.Valid() && e.Parts() == p && e.events == v
    ensures Are(live[k := e], parts[k := p], events[k := v])
  {
    hide EpollInstance.Valid, EpollInstance.Parts;
  }

  lemma {:induction false} OthersApart(live: Handles, frame: set<object>, k: nat, i: nat)
    requires AllValid(live) && Disjoint(PartsOf(live), frame) && k in live && i in live && i != k
    ensures live[i].Parts() !! live[k].Parts()
  {
    hide EpollInstance.Valid, EpollInstance.Parts;
    assert PartsOf(live)[i] !! PartsOf(live)[k];
  }

  lemma {:induction false} FrameApart(live: Handles, frame: set<object>, i: nat)
    requires AllValid(live) && Disjoint(PartsOf(live), frame) && i in live
    ensures live[i].Parts() !! frame
  {
    hide EpollInstance.Valid, EpollInstance.Parts;
    assert PartsOf(live)[i] !! frame;
  }

  /** What an instance is made of is allocated, so it shares nothing with what is new. */
  twostate lemma {:induction false} PartsAreOld(e: EpollInstance, new o: object)
    requires o in old(e.Parts())
    ensures !fresh(o)
  {
  }

  /** A set that has only got objects that no other has is still disjoint from the others. */
  lemma {:induction false} DisjointGrown(parts: map<nat, set<object>>, frame: set<object>, k: nat, p: set<object>)
    requires Disjoint(parts, frame) && k in parts
    requires forall o :: o in p ==> o in parts[k] || (o !in frame && forall i :: i in parts ==> o !in parts[i])
    ensures Disjoint(parts[k := p], frame)
  {
    forall i | i in parts && i != k
      ensures p !! parts[i]
    {
      assert parts[i] !! parts[k];
    }
    assert parts[k] !! frame;
    DisjointUpdated(parts, frame, k, p);
  }

  /** The objects of the instance of a handle. */
  ghost function HandleParts(instances: Instances, epfd: int): set<object>
    requires instances.data.Valid() && epfd <= instances.data.size
    reads *
  {
    if epfd > 0 && instances.data.buffer[epfd - 1] != null then instances.data.buffer[epfd - 1].Parts() else {}
  }

  method ControlInstance(instances: Instances, ghost k: nat, e: EpollInstance, op: int, fd: int, event: Option<Event>)
    returns (r: Outcome)
    requires Registered(instances) && k in Live(instances.State()) && Live(instances.State())[k] == e
    modifies e.Parts()
    ensures Registered(instances)
    ensures var was := old(Registries(instances));
            && r == Verdict(was[k], op, fd, event)
            && Registries(instances) == was[k := Control(was[k], op, fd, event)]
  {
    hide Sound, Holds, Verdict, Control, Disjoint, EpollInstance.Valid, EpollInstance.Parts, Live;
    ghost var live, frame := Live(instances.State()), Frame(instances);
    ghost var parts, events := PartsOf(live), EventsOf(live);
    forall i | i in live && i != k
      ensures live[i].Parts() !! e.Parts()
    {
      OthersApart(live, frame, k, i);
    }
    FrameApart(live, frame, k);
    r := e.Ctl(op, fd, event);
    forall i | i in live && i != k
      ensures live[i].Valid() && live[i].Parts() == parts[i] && live[i].events == events[i]
    {
      assert old(live[i].Parts() !! e.Parts());
      forall o | o in old(live[i].Parts())
        ensures !fresh(o) && o !in old(e.Parts())
      {
        PartsAreOld(live[i], o);
      }
      InstanceKept(live[i]);
    }
    AreUpdated(live, parts, events, k, e, e.Parts(), e.events);
    assert live[k := e] == live;
    AreParts(live, parts[k := e.Parts()], events[k := e.events]);
    forall o | o in e.Parts() && o !in parts[k]
      ensures o !in frame && forall i :: i in parts ==> o !in parts[i]
    {
      if i :| i in parts && o in parts[i] {
        PartsAreOld(live[i], o);
      }
    }
    DisjointGrown(parts, frame, k, e.Parts());
  }

  /** `epoll_ctl`: on the instance of the handle only, and an error if there is none. */
  method EpollCtl(instances: Instances, epfd: int, op: int, fd: int, event: Option<Event>) returns (r: Outcome)
    requires Registered(instances) && epfd <= instances.data.size
    modifies HandleParts(instances, epfd)
    ensures Registered(instances)
    ensures var was := old(Registries(instances));
            if HasHandle(was, epfd) then
              && r == Verdict(was[epfd - 1], op, fd, event)
              && Registries(instances) == was[epfd - 1 := Control(was[epfd - 1], op, fd, event)]
            else
              r == EINVAL && Registries(instances) == was
  {
    hide Sound, Holds, Verdict, Control, Disjoint, EpollInstance.Valid, EpollInstance.Parts, Live;
    if epfd > 0 {
      NullIffNotLive(instances.State(), epfd - 1);
      var e := instances.data.buffer[epfd - 1];
      assert e == instances.State().slots[epfd - 1];
      if e != null {
        r := ControlInstance(instances, epfd - 1, e, op, fd, event);
        return;
      }
    }
    return EINVAL;
  }

  /** The instance shares nothing with the table and the instances in it. */
  ghost predicate IsApart(instances: Instances, e: EpollInstance)
    requires Registered(instances)
    reads *
  {
    && e.Valid() && e.Parts() !! Frame(instances)
    && forall i :: i in PartsOf(Live(instances.State())) ==> e.Parts() !! PartsOf(Live(instances.State()))[i]
  }

  method MakeInstance(instances: Instances) returns (e: EpollInstance)
    requires Registered(instances)
    ensures Registered(instances) && Registries(instances) == old(Registries(instances))
    ensures fresh(e) && IsApart(instances, e) && e.events == map[]
  {
    hide Sound, Holds, Disjoint, EpollInstance.Valid, EpollInstance.Parts;
    ghost var live := Live(instances.State());
    e := new EpollInstance();
    forall i | i in live
      ensures live[i].Valid() && live[i].Parts() == old(live[i].Parts()) && live[i].events == old(live[i].events)
    {
      forall o | o in old(live[i].Parts())
        ensures !fresh(o)
      {
        PartsAreOld(live[i], o);
      }
      InstanceKept(live[i]);
    }
    assert PartsOf(live) == old(PartsOf(live)) && EventsOf(live) == old(EventsOf(live));
    hide Live;
    forall i, o | i in live && o in PartsOf(live)[i]
      ensures o !in e.Parts()
    {
      PartsAreOld(live[i], o);
    }
  }

  /** Puts an instance into the table that shares nothing with what is there. */
  method AddInstance(instances: Instances, e: EpollInstance) returns (k: nat)
    requires Registered(instances) && IsApart(instances, e)
    modifies Frame(instances)
    ensures Registered(instances) && k !in old(Registries(instances))
    ensures Registries(instances) == old(Registries(instances))[k := old(e.events)]
  {
    hide Sound, Holds, Disjoint, EpollInstance.Valid, EpollInstance.Parts, Live, Add, NextHandle;
    ghost var live, was, made := Live(instances.State()), Frame(instances), e.Parts();
    ghost var parts, events := PartsOf(live), EventsOf(live);
    forall i | i in live
      ensures live[i].Parts() !! was
    {
      FrameApart(live, was, i);
    }
    k := instances.Insert(e);
    forall i | i in live
      ensures live[i].Valid() && live[i].Parts() == parts[i] && live[i].events == events[i]
    {
      forall o | o in old(live[i].Parts())
        ensures !fresh(o) && o !in was
      {
        PartsAreOld(live[i], o);
      }
      InstanceKept(live[i]);
    }
    forall o | o in made
      ensures !fresh(o) && o !in was
    {
      PartsAreOld(e, o);
    }
    InstanceKept(e);
    ghost var frame := Frame(instances);
    forall i, o | i in parts && o in parts[i]
      ensures o !in frame
    {
      PartsAreOld(live[i], o);
    }
    DisjointReframed(parts, was, frame);
    DisjointUpdated(parts, frame, k, made);
    AreUpdated(live, parts, events, k, e, made, e.events);
    AreParts(live[k := e], parts[k := made], events[k := e.events]);
  }

  /** `epoll_create`: a new instance with nothing registered, under a handle that was not in use. */
  method EpollCreate(instances: Instances, size: int) returns (epfd: int, r: Outcome)
    requires Registered(instances)
    modifies Frame(instances)
    ensures Registered(instances)
    ensures if size > 0 then
              && r == Done && epfd > 0 && !HasHandle(old(Registries(instances)), epfd)
              && Registries(instances) == old(Registries(instances))[epfd - 1 := map[]]
            else
              r == EINVAL && epfd == -1 && Registries(instances) == old(Registries(instances))
  {
    hide Sound, Holds, Disjoint, EpollInstance.Valid, EpollInstance.Parts, Live;
    if size <= 0 {
      return -1, EINVAL;
    }
    var e := MakeInstance(instances);
    var k := AddInstance(instances, e);
    return k + 1, Done;
  }

  /** `epoll_close`: removes the instance of the handle, which must have nothing registered, and no other. */
  method EpollClose(instances: Instances, epfd: int) returns (r: Outcome)
    requires Registered(instances) && epfd <= instances.data.size
    requires HasHandle(Registries(instances), epfd) ==> Registries(instances)[epfd - 1] == map[]
    modifies Frame(instances)
    ensures Registered(instances)
    ensures r == if HasHandle(old(Registries(instances)), epfd) then Done else EBADF
    ensures Registries(instances) == old(Registries(instances)) - (if epfd > 0 then {epfd - 1} else {})
  {
    hide Sound, Holds, Disjoint, EpollInstance.Valid, EpollInstance.Parts, Live, Remove;
    if epfd > 0 {
      NullIffNotLive(instances.State(), epfd - 1);
      var e := instances.data.buffer[epfd - 1];
      assert e == instances.State().slots[epfd - 1];
      if e != null {
        RemoveInstance(instances, epfd - 1);
        return Done;
      }
    }
    return EBADF;
  }

  method RemoveInstance(instances: Instances, k: nat)
    requires Registered(instances) && k in Registries(instances)
    modifies Frame(instances)
    ensures Registered(instances) && Registries(instances) == old(Registries(instances)) - {k}
  {
    hide Sound, Holds, Disjoint, EpollInstance.Valid, EpollInstance.Parts, Live, Remove;
    ghost var live, was := Live(instances.State()), Frame(instances);
    ghost var parts, events := PartsOf(live), EventsOf(live);
    forall i | i in live
      ensures live[i].Parts() !! was
    {
      FrameApart(live, was, i);
    }
    instances.Delete(k);
    forall i | i in live
      ensures live[i].Valid() && live[i].Parts() == parts[i] && live[i].events == events[i]
    {
      forall o | o in old(live[i].Parts())
        ensures !fresh(o) && o !in was
      {
        PartsAreOld(live[i], o);
      }
      InstanceKept(live[i]);
    }
    ghost var frame := Frame(instances);
    forall i, o | i in parts && o in parts[i]
      ensures o !in frame
    {
      PartsAreOld(live[i], o);
    }
    DisjointReframed(parts, was, frame);
    DisjointRemoved(parts, frame, k);
    assert PartsOf(live - {k}) == parts - {k};
    assert EventsOf(live - {k}) == events - {k};
  }
}
