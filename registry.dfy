/**
 * The subject's list of observers as a value: appending on `register`,
 * deleting the first equal entry on `remove` (Python's `list.remove`).
 * Duplicates are allowed and counted.
 */
module Registry {

  /** The position of the first entry equal to `x`. */
  function IndexOf<T(==)>(s: seq<T>, x: T): (i: nat)
    requires x in s
    ensures i < |s| && s[i] == x
    ensures forall j :: 0 <= j < i ==> s[j] != x
  {
    if s[0] == x then 0 else 1 + IndexOf(s[1..], x)
  }

  /** `list.remove(x)` on a list that holds `x`; a list without `x` is returned as it is. */
  function RemoveFirst<T(==)>(s: seq<T>, x: T): seq<T>
  {
    if s == [] then []
    else if s[0] == x then s[1..]
    else [s[0]] + RemoveFirst(s[1..], x)
  }

  /** Removal cuts out exactly the first occurrence, keeping the order of the rest. */
  lemma {:induction false} RemoveFirstCutsFirst<T>(s: seq<T>, x: T)
    requires x in s
    ensures RemoveFirst(s, x) == s[..IndexOf(s, x)] + s[IndexOf(s, x) + 1..]
    ensures |RemoveFirst(s, x)| == |s| - 1
  {
    if s[0] != x {
      RemoveFirstCutsFirst(s[1..], x);
      var i := IndexOf(s[1..], x);
      assert s[1..][..i] == s[1..i + 1];
      assert s[1..][i + 1..] == s[i + 2..];
      assert [s[0]] + s[1..i + 1] == s[..i + 1];
    }
  }

  /** Removing an entry that is not there leaves the list as it is. */
  lemma {:induction false} RemoveFirstAbsent<T>(s: seq<T>, x: T)
    requires x !in s
    ensures RemoveFirst(s, x) == s
  {
    if s != [] {
      RemoveFirstAbsent(s[1..], x);
      assert [s[0]] + s[1..] == s;
    }
  }

  /**
   * As a bag, removal takes away one copy of `x` when there is one: other
   * duplicates of `x` stay registered and every other entry keeps its count.
   */
  lemma {:induction false} RemoveFirstMultiset<T>(s: seq<T>, x: T)
    ensures multiset(RemoveFirst(s, x)) == multiset(s) - multiset{x}
  {
    if s == [] {
    } else if s[0] == x {
      assert s == [x] + s[1..];
    } else {
      RemoveFirstMultiset(s[1..], x);
      assert s == [s[0]] + s[1..];
    }
  }

  /**
   * Removing right after registering `x`: when `x` was not registered
   * before, the registry is restored; otherwise the earliest registration
   * is removed and the new one stays at the end.
   */
  lemma {:induction false} RemoveFirstAfterAppend<T>(s: seq<T>, x: T)
    ensures RemoveFirst(s + [x], x) == if x in s then RemoveFirst(s, x) + [x] else s
  {
    if s == [] {
      assert [] + [x] == [x];
    } else {
      assert (s + [x])[0] == s[0] && (s + [x])[1..] == s[1..] + [x];
      if s[0] != x {
        RemoveFirstAfterAppend(s[1..], x);
        assert x in s <==> x in s[1..];
        if x !in s {
          assert [s[0]] + s[1..] == s;
        }
      }
    }
  }

  /** A call on the registry: `register(x)` or `remove(x)`. */
  datatype Op<T> = Register(x: T) | Remove(x: T)

  /** The registry after a series of calls; a `remove` of an absent entry fails and changes nothing. */
  function Replay<T(==)>(s: seq<T>, ops: seq<Op<T>>): seq<T>
    decreases |ops|
  {
    if ops == [] then s
    else
      var s' := match ops[0]
        case Register(x) => s + [x]
        case Remove(x) => if x in s then RemoveFirst(s, x) else s;
      Replay(s', ops[1..])
  }

  /** The bag of observers added, less one copy per removal that found its entry. */
  function Tally<T>(m: multiset<T>, ops: seq<Op<T>>): multiset<T>
    decreases |ops|
  {
    if ops == [] then m
    else
      var m' := match ops[0]
        case Register(x) => m + multiset{x}
        case Remove(x) => m - multiset{x};
      Tally(m', ops[1..])
  }

  /**
   * Whatever the series of `register` and `remove` calls, the registry holds
   * the observers added less those removed, counting duplicates.
   */
  lemma {:induction false} ReplayTally<T>(s: seq<T>, ops: seq<Op<T>>)
    ensures multiset(Replay(s, ops)) == Tally(multiset(s), ops)
    decreases |ops|
  {
    if ops != [] {
      match ops[0]
      case Register(x) =>
        ReplayTally(s + [x], ops[1..]);
      case Remove(x) =>
        if x in s {
          RemoveFirstMultiset(s, x);
          ReplayTally(RemoveFirst(s, x), ops[1..]);
        } else {
          assert multiset(s) - multiset{x} == multiset(s);
          ReplayTally(s, ops[1..]);
        }
    }
  }

  /** How many entries of `s` are `x`: how often `x` is registered. */
  function Count<T(==)>(s: seq<T>, x: T): (n: nat)
    ensures n <= |s|
    ensures n == 0 <==> x !in s
  {
    if s == [] then 0 else Count(s[..|s| - 1], x) + (if s[|s| - 1] == x then 1 else 0)
  }

  /** The count agrees with the registry read as a bag. */
  lemma {:induction false} CountMultiset<T>(s: seq<T>, x: T)
    ensures Count(s, x) == multiset(s)[x]
  {
    if s != [] {
      CountMultiset(s[..|s| - 1], x);
      assert s == s[..|s| - 1] + [s[|s| - 1]];
    }
  }

  /** Extending a prefix of the registry by one entry counts that entry once more. */
  lemma CountSnoc<T>(s: seq<T>, i: nat, x: T)
    requires i < |s|
    ensures Count(s[..i + 1], x) == Count(s[..i], x) + (if s[i] == x then 1 else 0)
  {
    assert s[..i + 1][..i] == s[..i];
  }
}
