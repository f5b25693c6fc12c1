/**
 * An object's attribute dictionary, as Python keeps it in `__dict__`: an
 * ordered list of (name, value) pairs in insertion order, one pair per name.
 * Assigning a name that is already present replaces its value in place;
 * assigning a new name appends it.
 */
module Attributes {

  datatype Option<T> = None | Some(value: T)

  type Attrs<V> = seq<(string, V)>

  /** The attribute names, in insertion order. */
  function Names<V>(a: Attrs<V>): (r: seq<string>)
    ensures |r| == |a|
    ensures forall i :: 0 <= i < |a| ==> r[i] == a[i].0
  {
    if a == [] then [] else [a[0].0] + Names(a[1..])
  }

  ghost predicate Distinct(s: seq<string>) {
    forall i, j :: 0 <= i < j < |s| ==> s[i] != s[j]
  }

  /** A well-formed dictionary holds each name at most once. */
  ghost predicate UniqueNames<V>(a: Attrs<V>) {
    Distinct(Names(a))
  }

  /** `getattr`: the value bound to `name`, if any. */
  function Lookup<V>(a: Attrs<V>, name: string): (r: Option<V>)
    ensures r.None? <==> name !in Names(a)
    ensures r.Some? ==> (name, r.value) in a
  {
    if a == [] then None
    else if a[0].0 == name then Some(a[0].1)
    else Lookup(a[1..], name)
  }

  /**
   * `setattr(obj, name, v)`: binds `name` to `v`. An existing name keeps its
   * position; a new name goes to the end.
   */
  function SetAttr<V>(a: Attrs<V>, name: string, v: V): (r: Attrs<V>)
    ensures Names(r) == if name in Names(a) then Names(a) else Names(a) + [name]
  {
    if a == [] then [(name, v)]
    else if a[0].0 == name then [(name, v)] + a[1..]
    else
      var rest := SetAttr(a[1..], name, v);
      assert Names([a[0]] + rest) == [a[0].0] + Names(rest);
      [a[0]] + rest
  }

  /** After `setattr`, `name` reads back as `v` and every other name is untouched. */
  lemma {:induction false} SetAttrLookup<V>(a: Attrs<V>, name: string, v: V, n: string)
    ensures Lookup(SetAttr(a, name, v), n) == if n == name then Some(v) else Lookup(a, n)
  {
    if a != [] && a[0].0 != name {
      SetAttrLookup(a[1..], name, v, n);
    }
  }

  /** `setattr` keeps each name at most once. */
  lemma SetAttrUnique<V>(a: Attrs<V>, name: string, v: V)
    requires UniqueNames(a)
    ensures UniqueNames(SetAttr(a, name, v))
  {
  }

  /** Applying `data` pair by pair, left to right, as `Observer.update` does. */
  function ApplyAll<V>(a: Attrs<V>, data: Attrs<V>): Attrs<V>
  {
    if data == [] then a
    else
      var last := data[|data| - 1];
      SetAttr(ApplyAll(a, data[..|data| - 1]), last.0, last.1)
  }

  /** `k` is the index of the last pair in `data` that carries its name. */
  ghost predicate LastWithName<V>(data: Attrs<V>, k: int) {
    0 <= k < |data| && forall j :: k < j < |data| ==> data[j].0 != data[k].0
  }

  /** A name that `data` does not mention keeps its old binding. */
  lemma {:induction false} ApplyAllUntouched<V>(a: Attrs<V>, data: Attrs<V>, n: string)
    requires n !in Names(data)
    ensures Lookup(ApplyAll(a, data), n) == Lookup(a, n)
  {
    if data != [] {
      var init := data[..|data| - 1];
      assert Names(init) == Names(data)[..|data| - 1];
      ApplyAllUntouched(a, init, n);
      assert n != data[|data| - 1].0 by { assert Names(data)[|data| - 1] == data[|data| - 1].0; }
      SetAttrLookup(ApplyAll(a, init), data[|data| - 1].0, data[|data| - 1].1, n);
    }
  }

  /** A name that `data` mentions ends up bound to the value of its last pair. */
  lemma {:induction false} ApplyAllLastWins<V>(a: Attrs<V>, data: Attrs<V>, k: int)
    requires LastWithName(data, k)
    ensures Lookup(ApplyAll(a, data), data[k].0) == Some(data[k].1)
  {
    var init := data[..|data| - 1];
    var last := data[|data| - 1];
    SetAttrLookup(ApplyAll(a, init), last.0, last.1, data[k].0);
    if k < |data| - 1 {
      assert LastWithName(init, k);
      ApplyAllLastWins(a, init, k);
    }
  }

  /** Applying any data to a well-formed dictionary keeps it well-formed. */
  lemma {:induction false} ApplyAllUnique<V>(a: Attrs<V>, data: Attrs<V>)
    requires UniqueNames(a)
    ensures UniqueNames(ApplyAll(a, data))
  {
    if data != [] {
      var init := data[..|data| - 1];
      ApplyAllUnique(a, init);
      SetAttrUnique(ApplyAll(a, init), data[|data| - 1].0, data[|data| - 1].1);
    }
  }

  /** Re-binding a name to the value it already has changes nothing. */
  lemma {:induction false} SetAttrSame<V>(a: Attrs<V>, name: string, v: V)
    requires Lookup(a, name) == Some(v)
    ensures SetAttr(a, name, v) == a
  {
    if a[0].0 != name {
      SetAttrSame(a[1..], name, v);
      assert [a[0]] + a[1..] == a;
    }
  }

  /** Data whose every pair is already in force leaves the dictionary as it is. */
  lemma {:induction false} ApplyAllInForce<V>(a: Attrs<V>, data: Attrs<V>)
    requires forall k :: 0 <= k < |data| ==> Lookup(a, data[k].0) == Some(data[k].1)
    ensures ApplyAll(a, data) == a
  {
    if data != [] {
      var init := data[..|data| - 1];
      ApplyAllInForce(a, init);
      SetAttrSame(a, data[|data| - 1].0, data[|data| - 1].1);
    }
  }

  /**
   * Delivering the same snapshot a second time does not change the receiver:
   * with distinct names every pair is the last of its name, so it is in force
   * after the first delivery.
   */
  lemma ReapplyIsNoop<V>(a: Attrs<V>, data: Attrs<V>)
    requires UniqueNames(data)
    ensures ApplyAll(ApplyAll(a, data), data) == ApplyAll(a, data)
  {
    forall k | 0 <= k < |data|
      ensures Lookup(ApplyAll(a, data), data[k].0) == Some(data[k].1)
    {
      ApplyAllLastWins(a, data, k);
    }
    ApplyAllInForce(ApplyAll(a, data), data);
  }

  /** `name.startswith("_")`: the naming convention for private attributes. */
  predicate IsPrivate(name: string) {
    |name| > 0 && name[0] == '_'
  }

  /**
   * `_get_vars`: the public pairs of a dictionary, in insertion order. A
   * pair is kept exactly when its name does not start with an underscore.
   */
  function Public<V>(a: Attrs<V>): (r: Attrs<V>)
    ensures |r| <= |a|
  {
    if a == [] then []
    else
      var rest := Public(a[1..]);
      if IsPrivate(a[0].0) then rest else [a[0]] + rest
  }

  /** The snapshot holds exactly the public pairs of the dictionary. */
  lemma {:induction false} PublicMembers<V>(a: Attrs<V>)
    ensures forall i :: 0 <= i < |Public(a)| ==> Public(a)[i] in a && !IsPrivate(Public(a)[i].0)
    ensures forall i :: 0 <= i < |a| && !IsPrivate(a[i].0) ==> a[i] in Public(a)
  {
    if a != [] {
      PublicMembers(a[1..]);
      forall i | 0 <= i < |a| && !IsPrivate(a[i].0) ensures a[i] in Public(a) {
        if i > 0 {
          assert a[i] == a[1..][i - 1];
        }
      }
    }
  }

  /** `r` is `s` with some elements dropped and the rest in their original order. */
  ghost predicate Subsequence<T>(r: seq<T>, s: seq<T>)
    decreases |s|
  {
    if r == [] then true
    else if s == [] then false
    else (r[0] == s[0] && Subsequence(r[1..], s[1..])) || Subsequence(r, s[1..])
  }

  /** The snapshot keeps the dictionary's order. */
  lemma {:induction false} PublicInOrder<V>(a: Attrs<V>)
    ensures Subsequence(Public(a), a)
  {
    if a != [] {
      PublicInOrder(a[1..]);
    }
  }

  /** Filtering a dictionary split in two filters each half. */
  lemma {:induction false} PublicAppend<V>(a: Attrs<V>, b: Attrs<V>)
    ensures Public(a + b) == Public(a) + Public(b)
  {
    if a == [] {
      assert a + b == b;
    } else {
      assert (a + b)[0] == a[0];
      assert (a + b)[1..] == a[1..] + b;
      PublicAppend(a[1..], b);
    }
  }

  /** Reading a name from the snapshot: private names are absent, public ones read as in the dictionary. */
  lemma {:induction false} PublicLookup<V>(a: Attrs<V>, n: string)
    ensures Lookup(Public(a), n) == if IsPrivate(n) then None else Lookup(a, n)
  {
    if a != [] {
      PublicLookup(a[1..], n);
    }
  }

  /**
   * A dictionary that names each attribute once, applied to any receiver,
   * leaves every one of its bindings in force.
   */
  lemma ApplyAllLookup<V>(a: Attrs<V>, data: Attrs<V>, n: string, v: V)
    requires UniqueNames(data) && Lookup(data, n) == Some(v)
    ensures Lookup(ApplyAll(a, data), n) == Some(v)
  {
    var k :| 0 <= k < |data| && data[k] == (n, v);
    ApplyAllLastWins(a, data, k);
  }

  /** The names in the snapshot are exactly the public names of the dictionary. */
  lemma {:induction false} PublicNames<V>(a: Attrs<V>)
    ensures forall n :: n in Names(Public(a)) <==> n in Names(a) && !IsPrivate(n)
  {
    if a != [] {
      assert Names(a) == [a[0].0] + Names(a[1..]);
      PublicNames(a[1..]);
      if !IsPrivate(a[0].0) {
        assert Names([a[0]] + Public(a[1..])) == [a[0].0] + Names(Public(a[1..]));
      }
    }
  }

  /** The snapshot of a well-formed dictionary holds each name at most once. */
  lemma {:induction false} PublicUnique<V>(a: Attrs<V>)
    requires UniqueNames(a)
    ensures UniqueNames(Public(a))
  {
    if a != [] {
      assert Names(a) == [a[0].0] + Names(a[1..]);
      PublicUnique(a[1..]);
      if !IsPrivate(a[0].0) {
        PublicNames(a[1..]);
        assert Names([a[0]] + Public(a[1..])) == [a[0].0] + Names(Public(a[1..]));
      }
    }
  }
}
