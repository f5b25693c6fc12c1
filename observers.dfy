/**
 * The observer side: an object whose attributes are set from a delivered
 * snapshot, after which its reaction hook `on_change` runs once.
 */
module Observers {
  import opened Attributes

  /**
   * The attribute values the model handles. `ObserverList` is the value of a
   * subject's own registry attribute `_observers`.
   */
  datatype Value = Int(i: int) | Str(s: string) | ObserverList(list: seq<Observer>)

  class Observer {
    /** The observer's own attributes (its `__dict__`). */
    var attrs: Attrs<Value>
    /**
     * One entry per run of `on_change`: the attributes it saw. The concrete
     * reactions (printing) are not part of this model.
     */
    ghost var reactions: seq<Attrs<Value>>

    ghost predicate Valid()
      reads this
    {
      UniqueNames(attrs)
    }

    constructor ()
      ensures Valid() && attrs == [] && reactions == []
    {
      attrs := [];
      reactions := [];
    }

    /** The reaction hook: runs against the attributes as they are now. */
    method OnChange()
      modifies this`reactions
      ensures reactions == old(reactions) + [attrs]
    {
      reactions := reactions + [attrs];
    }

    /**
     * `update(data)`: every pair of `data`, in order, is set on this
     * observer, then `on_change` runs once and sees all of them applied.
     */
    method Update(data: Attrs<Value>)
      requires Valid()
      modifies this
      ensures Valid()
      ensures attrs == ApplyAll(old(attrs), data)
      ensures reactions == old(reactions) + [attrs]
      ensures forall k :: LastWithName(data, k) ==> Lookup(attrs, data[k].0) == Some(data[k].1)
      ensures forall n :: n !in Names(data) ==> Lookup(attrs, n) == Lookup(old(attrs), n)
    {
      var i := 0;
      while i < |data|
        invariant 0 <= i <= |data|
        invariant attrs == ApplyAll(old(attrs), data[..i])
        invariant Valid()
        invariant reactions == old(reactions)
      {
        var (name, val) := data[i];
        assert data[..i + 1][..i] == data[..i];
        SetAttrUnique(attrs, name, val);
        attrs := SetAttr(attrs, name, val);
        i := i + 1;
      }
      assert data[..i] == data;
      OnChange();
      forall k | LastWithName(data, k)
        ensures Lookup(attrs, data[k].0) == Some(data[k].1)
      {
        ApplyAllLastWins(old(attrs), data, k);
      }
      forall n | n !in Names(data)
        ensures Lookup(attrs, n) == Lookup(old(attrs), n)
      {
        ApplyAllUntouched(old(attrs), data, n);
      }
    }
  }
}
