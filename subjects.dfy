/**
 * The subject side: a registry of observers, public state fields, and the
 * notification that hands every registered observer a snapshot of the
 * public fields.
 */
module Subjects {
  import opened Attributes
  import opened Registry
  import opened Observers

  /** Name of the attribute that holds the registry; private by its leading underscore. */
  const RegistryName: string := "_observers"

  /** What `remove` reports: success, or Python's `ValueError` for an absent entry. */
  datatype Outcome = Removed | ValueError

  /** What one `notify()` hands out: each registry entry, in order, paired with the snapshot. */
  function Deliveries(observers: seq<Observer>, snapshot: Attrs<Value>): (r: seq<(Observer, Attrs<Value>)>)
    ensures |r| == |observers|
    ensures forall i :: 0 <= i < |r| ==> r[i] == (observers[i], snapshot)
  {
    seq(|observers|, i requires 0 <= i < |observers| => (observers[i], snapshot))
  }

  /**
   * Every delivery carries the same snapshot, so an observer registered k
   * times receives exactly k deliveries.
   */
  lemma {:induction false} DeliveriesCount(observers: seq<Observer>, snapshot: Attrs<Value>, o: Observer)
    ensures Count(Deliveries(observers, snapshot), (o, snapshot)) == Count(observers, o)
  {
    if observers != [] {
      var n := |observers| - 1;
      assert Deliveries(observers, snapshot)[..n] == Deliveries(observers[..n], snapshot);
      DeliveriesCount(observers[..n], snapshot, o);
    }
  }

  /** `n` copies of `x`: the runs of `on_change` of an observer registered `n` times. */
  function Repeat<T>(x: T, n: nat): (r: seq<T>)
    ensures |r| == n
    ensures forall i :: 0 <= i < n ==> r[i] == x
  {
    if n == 0 then [] else Repeat(x, n - 1) + [x]
  }

  class Subject {
    /** The registry `_observers`, in registration order, duplicates allowed. */
    var observers: seq<Observer>
    /** The other attributes of the subject, in the order they were first set. */
    var fields: Attrs<Value>
    /** Every (observer, snapshot) pair `notify` has handed out, in order. */
    ghost var deliveries: seq<(Observer, Attrs<Value>)>

    /** The subject's whole attribute dictionary, registry first as `__init__` sets it. */
    function Vars(): Attrs<Value>
      reads this`observers, this`fields
    {
      [(RegistryName, ObserverList(observers))] + fields
    }

    ghost predicate Valid()
      reads this`observers, this`fields
    {
      UniqueNames(Vars())
    }

    /**
     * `_get_vars()`: the public attributes with their current values, in
     * insertion order.
     */
    function GetVars(): (r: Attrs<Value>)
      reads this`observers, this`fields
      ensures |r| <= |fields|
    {
      PublicAppend([(RegistryName, ObserverList(observers))], fields);
      assert Public([(RegistryName, ObserverList(observers))]) == [];
      Public(Vars())
    }

    /** `__init__`: an empty registry and no other attributes. */
    constructor ()
      ensures Valid()
      ensures observers == [] && fields == [] && deliveries == []
    {
      observers := [];
      fields := [];
      deliveries := [];
    }

    /**
     * An assignment `self.name = v` on the subject. A public attribute then
     * reads back from the snapshot with its new value.
     */
    method SetField(name: string, v: Value)
      requires Valid()
      requires name != RegistryName
      modifies this`fields
      ensures Valid()
      ensures fields == SetAttr(old(fields), name, v)
      ensures Lookup(GetVars(), name) == if IsPrivate(name) then None else Some(v)
    {
      RegistryFirst(ObserverList(observers), fields);
      SetAttrUnique(fields, name, v);
      SetAttrLookup(fields, name, v, name);
      fields := SetAttr(fields, name, v);
      RegistryFirst(ObserverList(observers), fields);
      PublicLookup(Vars(), name);
    }

    /** `register(o)`: appends `o`, even if it is already registered. */
    method Register(o: Observer)
      requires Valid()
      modifies this`observers
      ensures Valid()
      ensures observers == old(observers) + [o]
      ensures multiset(observers)[o] == old(multiset(observers)[o]) + 1
    {
      RegistryFirst(ObserverList(observers), fields);
      observers := observers + [o];
      RegistryFirst(ObserverList(observers), fields);
    }

    /**
     * `remove(o)`: deletes the first entry that is `o`, keeping the order of
     * the rest; when `o` is not registered it fails and nothing changes.
     */
    method Remove(o: Observer) returns (outcome: Outcome)
      requires Valid()
      modifies this`observers
      ensures Valid()
      ensures outcome == (if o in old(observers) then Removed else ValueError)
      ensures outcome == ValueError ==> observers == old(observers)
      ensures outcome == Removed ==>
        var i := IndexOf(old(observers), o);
        observers == old(observers)[..i] + old(observers)[i + 1..]
      ensures multiset(observers) == old(multiset(observers)) - multiset{o}
    {
      if o !in observers {
        return ValueError;
      }
      RegistryFirst(ObserverList(observers), fields);
      RemoveFirstCutsFirst(observers, o);
      RemoveFirstMultiset(observers, o);
      observers := RemoveFirst(observers, o);
      RegistryFirst(ObserverList(observers), fields);
      outcome := Removed;
    }

    /**
     * `notify()`: walks the registry in order and hands each entry the
     * current snapshot; an observer registered k times is updated k times,
     * and, since the snapshot does not change between deliveries, ends with
     * the attributes of a single update and k runs of `on_change`.
     */
    method Notify()
      requires Valid()
      requires forall o :: o in observers ==> o.Valid()
      modifies this`deliveries, set o | o in observers
      ensures deliveries == old(deliveries) + Deliveries(observers, GetVars())
      ensures forall o :: o in observers ==>
        NotifiedTimes(o, old(o.attrs), ApplyAll(old(o.attrs), GetVars()), old(o.reactions), Count(observers, o))
    {
      ghost var snapshot := GetVars();
      SnapshotUnique(this);
      ghost var a0, a1, r0 := Baseline(observers, snapshot);
      var i := 0;
      while i < |observers|
        invariant 0 <= i <= |observers|
        invariant deliveries == old(deliveries) + Deliveries(observers[..i], snapshot)
        invariant NotifiedPrefix(observers, a0, a1, r0, snapshot, i)
      {
        DeliverNext(i, a0, a1, r0, snapshot, old(deliveries));
        i := i + 1;
      }
      assert observers[..i] == observers;
    }

    /**
     * One pass of the loop in `notify()`: entry `i` of the registry is
     * handed the current snapshot, and the delivery is logged.
     */
    method DeliverNext(i: nat, ghost a0: map<Observer, Attrs<Value>>, ghost a1: map<Observer, Attrs<Value>>,
                       ghost r0: map<Observer, seq<Attrs<Value>>>, ghost snapshot: Attrs<Value>,
                       ghost d0: seq<(Observer, Attrs<Value>)>)
      requires i < |observers|
      requires snapshot == GetVars() && UniqueNames(snapshot)
      requires deliveries == d0 + Deliveries(observers[..i], snapshot)
      requires NotifiedPrefix(observers, a0, a1, r0, snapshot, i)
      modifies this`deliveries, observers[i]
      ensures deliveries == d0 + Deliveries(observers[..i + 1], snapshot)
      ensures NotifiedPrefix(observers, a0, a1, r0, snapshot, i + 1)
    {
      var data := GetVars();
      UpdateEntry(observers, i, a0, a1, r0, data);
      deliveries := deliveries + [(observers[i], data)];
    }
  }

  /**
   * Before the first delivery: each registered observer's starting
   * attributes and reaction log, and the attributes one update takes it to.
   */
  lemma Baseline(observers: seq<Observer>, snapshot: Attrs<Value>)
      returns (a0: map<Observer, Attrs<Value>>, a1: map<Observer, Attrs<Value>>, r0: map<Observer, seq<Attrs<Value>>>)
    requires forall o :: o in observers ==> o.Valid()
    ensures NotifiedPrefix(observers, a0, a1, r0, snapshot, 0)
    ensures forall o :: o in observers ==> o in a0 && a0[o] == o.attrs && o in r0 && r0[o] == o.reactions
  {
    a0 := map o | o in observers :: o.attrs;
    a1 := map o | o in observers :: ApplyAll(o.attrs, snapshot);
    r0 := map o | o in observers :: o.reactions;
    assert observers[..0] == [];
    forall o | o in observers
      ensures o in a0 && o in a1 && o in r0 && a1[o] == ApplyAll(a0[o], snapshot)
      ensures NotifiedTimes(o, a0[o], a1[o], r0[o], Count(observers[..0], o))
    {
      assert r0[o] + Repeat(a1[o], 0) == r0[o];
    }
  }

  /**
   * The first `k` entries of the registry have been handed the snapshot:
   * every registered observer `o`, which started from `a0[o]` and `r0[o]` and
   * reaches `a1[o]` by one update, has been updated once per entry it holds
   * among them.
   */
  ghost predicate NotifiedPrefix(observers: seq<Observer>, a0: map<Observer, Attrs<Value>>,
                                 a1: map<Observer, Attrs<Value>>, r0: map<Observer, seq<Attrs<Value>>>,
                                 snapshot: Attrs<Value>, k: nat)
    requires k <= |observers|
    reads set o | o in observers
  {
    forall o :: o in observers ==>
      && o in a0 && o in a1 && o in r0
      && a1[o] == ApplyAll(a0[o], snapshot)
      && NotifiedTimes(o, a0[o], a1[o], r0[o], Count(observers[..k], o))
  }

  /** Entry `i` of the registry is updated with `snapshot`; the other observers are untouched. */
  method UpdateEntry(observers: seq<Observer>, i: nat, ghost a0: map<Observer, Attrs<Value>>,
                     ghost a1: map<Observer, Attrs<Value>>, ghost r0: map<Observer, seq<Attrs<Value>>>,
                     snapshot: Attrs<Value>)
    requires i < |observers|
    requires UniqueNames(snapshot)
    requires NotifiedPrefix(observers, a0, a1, r0, snapshot, i)
    modifies observers[i]
    ensures NotifiedPrefix(observers, a0, a1, r0, snapshot, i + 1)
  {
    var o := observers[i];
    NotifyOne(o, a0[o], a1[o], r0[o], snapshot, Count(observers[..i], o));
    forall p | p in observers
      ensures && p in a0 && p in a1 && p in r0
              && a1[p] == ApplyAll(a0[p], snapshot)
              && NotifiedTimes(p, a0[p], a1[p], r0[p], Count(observers[..i + 1], p))
    {
      CountSnoc(observers, i, p);
    }
  }

  /**
   * The subject's dictionary, registry first, names each attribute once
   * exactly when its other attributes do and none of them is the registry.
   */
  lemma RegistryFirst(registry: Value, fields: Attrs<Value>)
    ensures UniqueNames([(RegistryName, registry)] + fields) <==> UniqueNames(fields) && RegistryName !in Names(fields)
  {
  }

  /**
   * The snapshot holds exactly the subject's public attributes, in insertion
   * order; the registry is never part of it.
   */
  lemma SnapshotIsPublic(s: Subject)
    ensures forall i :: 0 <= i < |s.GetVars()| ==> s.GetVars()[i] in s.fields && !IsPrivate(s.GetVars()[i].0)
    ensures forall i :: 0 <= i < |s.fields| && !IsPrivate(s.fields[i].0) ==> s.fields[i] in s.GetVars()
    ensures Subsequence(s.GetVars(), s.fields)
    ensures RegistryName !in Names(s.GetVars())
  {
    PublicAppend([(RegistryName, ObserverList(s.observers))], s.fields);
    assert Public([(RegistryName, ObserverList(s.observers))]) == [];
    PublicMembers(s.fields);
    PublicInOrder(s.fields);
    PublicNames(s.fields);
  }

  /** The snapshot of a well-formed subject names each attribute once. */
  lemma SnapshotUnique(s: Subject)
    requires s.Valid()
    ensures UniqueNames(s.GetVars())
  {
    assert Names(s.Vars()) == [RegistryName] + Names(s.fields);
    PublicUnique(s.Vars());
  }

  /**
   * One more delivery of `snapshot` to an observer that had been handed it
   * `n` times: since the snapshot names each attribute once, a second update
   * with it leaves the attributes as the first one set them.
   */
  method NotifyOne(o: Observer, ghost a0: Attrs<Value>, ghost a1: Attrs<Value>, ghost r0: seq<Attrs<Value>>,
                   snapshot: Attrs<Value>, ghost n: nat)
    requires UniqueNames(snapshot) && a1 == ApplyAll(a0, snapshot)
    requires NotifiedTimes(o, a0, a1, r0, n)
    modifies o
    ensures NotifiedTimes(o, a0, a1, r0, n + 1)
  {
    if n > 0 {
      ReapplyIsNoop(a0, snapshot);
    }
    o.Update(snapshot);
  }

  /**
   * Observer `o`, which had attributes `a0` and reaction log `r0`, has been
   * handed the snapshot `n` times, one update taking `a0` to `a1`: it holds
   * `a1` (still `a0` if `n` is 0) and `on_change` has run `n` times on `a1`.
   */
  ghost predicate NotifiedTimes(o: Observer, a0: Attrs<Value>, a1: Attrs<Value>, r0: seq<Attrs<Value>>, n: nat)
    reads o
  {
    && o.Valid()
    && o.attrs == (if n == 0 then a0 else a1)
    && o.reactions == r0 + Repeat(a1, n)
  }

  /**
   * The concrete subject of the example: a CPU sensor whose one public
   * attribute is `temp`.
   */
  class CpuSensor {
    const subject: Subject

    constructor ()
      ensures fresh(subject)
      ensures subject.Valid()
      ensures subject.observers == [] && subject.fields == [] && subject.deliveries == []
    {
      subject := new Subject();
    }

    /**
     * `change_measurements(temp)`: sets `temp`, then notifies. Every
     * registered observer then holds `temp` with the new value, and every
     * delivery of this call carried it.
     */
    method ChangeMeasurements(temp: int)
      requires subject.Valid()
      requires forall o :: o in subject.observers ==> o.Valid()
      modifies subject`fields, subject`deliveries, set o | o in subject.observers
      ensures subject.Valid()
      ensures subject.observers == old(subject.observers)
      ensures subject.fields == SetAttr(old(subject.fields), "temp", Int(temp))
      ensures Lookup(subject.GetVars(), "temp") == Some(Int(temp))
      ensures subject.deliveries == old(subject.deliveries) + Deliveries(subject.observers, subject.GetVars())
      ensures forall o :: o in subject.observers ==>
        NotifiedTimes(o, old(o.attrs), ApplyAll(old(o.attrs), subject.GetVars()), old(o.reactions),
                      Count(subject.observers, o))
      ensures forall o :: o in subject.observers ==> Lookup(o.attrs, "temp") == Some(Int(temp))
    {
      subject.SetField("temp", Int(temp));
      SnapshotUnique(subject);
      subject.Notify();
      forall o | o in subject.observers
        ensures Lookup(o.attrs, "temp") == Some(Int(temp))
      {
        ApplyAllLookup(old(o.attrs), subject.GetVars(), "temp", Int(temp));
      }
    }
  }
}
