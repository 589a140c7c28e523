/** A transaction over a key-value store, and its merging iterator (src/dbwrapper.h). */
module DbTransaction {
  import opened Common
  import opened KeyOrder
  import opened MapSums

  /** What a transaction reads from and commits to: any ordered key-value store. */
  class Store<V> {
    var data: map<Key, V>

    constructor (data: map<Key, V>)
      ensures this.data == data
    {
      this.data := data;
    }
  }

  /** A written value together with the serialized size recorded for it. */
  datatype Holder<V> = Holder(value: V, memoryUsage: nat)

  /** The store as the transaction shows it: its deletes taken away, its writes on top. */
  function Overlay<V>(data: map<Key, V>, writes: map<Key, Holder<V>>, deletes: set<Key>): map<Key, V> {
    map k | k in data.Keys + writes.Keys && (k in writes || k !in deletes) ::
      if k in writes then writes[k].value else data[k]
  }

  function WriteSizes<V>(writes: map<Key, Holder<V>>): map<Key, nat> {
    map k | k in writes :: |k| + writes[k].memoryUsage
  }

  function DeleteSizes(deletes: set<Key>): map<Key, nat> {
    map k | k in deletes :: |k|
  }

  ghost function Usage<V>(writes: map<Key, Holder<V>>, deletes: set<Key>): nat {
    Sum(WriteSizes(writes)) + Sum(DeleteSizes(deletes))
  }

  lemma WritePut<V>(writes: map<Key, Holder<V>>, k: Key, h: Holder<V>)
    ensures Sum(WriteSizes(writes[k := h])) == |k| + h.memoryUsage + Sum(WriteSizes(writes - {k}))
  {
    hide WriteSizes;
    SumPut(WriteSizes(writes), k, |k| + h.memoryUsage);
    SizesPut(writes, k, h);
  }

  lemma SizesPut<V>(writes: map<Key, Holder<V>>, k: Key, h: Holder<V>)
    ensures WriteSizes(writes)[k := |k| + h.memoryUsage] == WriteSizes(writes[k := h])
    ensures WriteSizes(writes) - {k} == WriteSizes(writes - {k})
  {
  }

  lemma WriteRemove<V>(writes: map<Key, Holder<V>>, k: Key)
    ensures k in writes ==> Sum(WriteSizes(writes)) == |k| + writes[k].memoryUsage + Sum(WriteSizes(writes - {k}))
    ensures k !in writes ==> writes - {k} == writes
  {
    if k in writes {
      WritePut(writes, k, writes[k]);
      assert writes[k := writes[k]] == writes;
    }
  }

  lemma DeletePut(deletes: set<Key>, k: Key)
    ensures Sum(DeleteSizes(deletes + {k})) == |k| + Sum(DeleteSizes(deletes - {k}))
    ensures k in deletes ==> deletes + {k} == deletes
    ensures k !in deletes ==> deletes - {k} == deletes
  {
    SumPut(DeleteSizes(deletes), k, |k|);
    assert DeleteSizes(deletes)[k := |k|] == DeleteSizes(deletes + {k});
    assert DeleteSizes(deletes) - {k} == DeleteSizes(deletes - {k});
  }

  function Values<V>(writes: map<Key, Holder<V>>): map<Key, V> {
    map k | k in writes :: writes[k].value
  }

  lemma NothingYet<V>(data: map<Key, V>, writes: map<Key, Holder<V>>)
    ensures data + (Values(writes) - writes.Keys) == data
  {
  }

  lemma OneMore<V>(data: map<Key, V>, writes: map<Key, Holder<V>>, rest: set<Key>, k: Key)
    requires k in rest && k in writes
    ensures (data + (Values(writes) - rest))[k := writes[k].value] == data + (Values(writes) - (rest - {k}))
  {
  }

  lemma CommittedOverlay<V>(data: map<Key, V>, writes: map<Key, Holder<V>>, deletes: set<Key>)
    ensures (data - deletes) + Values(writes) == Overlay(data, writes, deletes)
  {
  }

  lemma OverlayWrite<V>(data: map<Key, V>, writes: map<Key, Holder<V>>, deletes: set<Key>, k: Key, h: Holder<V>)
    ensures Overlay(data, writes[k := h], deletes - {k}) == Overlay(data, writes, deletes)[k := h.value]
  {
  }

  lemma OverlayErase<V>(data: map<Key, V>, writes: map<Key, Holder<V>>, deletes: set<Key>, k: Key)
    ensures Overlay(data, writes - {k}, deletes + {k}) == Overlay(data, writes, deletes) - {k}
  {
  }

  lemma UsageWrite<V>(writes: map<Key, Holder<V>>, deletes: set<Key>, k: Key, h: Holder<V>)
    ensures Usage(writes[k := h], deletes - {k}) == Usage(writes, deletes) + |k| + h.memoryUsage
              - (if k in deletes then |k| else 0) - (if k in writes then |k| + writes[k].memoryUsage else 0)
  {
    DeletePut(deletes, k);
    WriteRemove(writes, k);
    WritePut(writes, k, h);
  }

  lemma UsageErase<V>(writes: map<Key, Holder<V>>, deletes: set<Key>, k: Key)
    ensures Usage(writes - {k}, deletes + {k}) == Usage(writes, deletes)
              + (if k in deletes then 0 else |k|) - (if k in writes then |k| + writes[k].memoryUsage else 0)
  {
    DeletePut(deletes, k);
    WriteRemove(writes, k);
  }

  lemma UsageEmpty<V>()
    ensures Usage<V>(map[], {}) == 0
  {
    assert WriteSizes<V>(map[]) == map[] && DeleteSizes({}) == map[];
  }

  class Transaction<V> {
    const parent: Store<V>
    const commitTarget: Store<V>
    const serializeSize: V -> nat
    var memoryUsage: int
    var writes: map<Key, Holder<V>>
    var deletes: set<Key>

    /** Writes and deletes are disjoint, and the recorded memory use is their exact sum. */
    ghost predicate Valid()
      reads this
    {
      writes.Keys !! deletes && memoryUsage == Usage(writes, deletes)
    }

    ghost function View(): map<Key, V>
      reads this, parent
    {
      Overlay(parent.data, writes, deletes)
    }

    constructor (parent: Store<V>, commitTarget: Store<V>, serializeSize: V -> nat)
      ensures Valid() && this.parent == parent && this.commitTarget == commitTarget && View() == parent.data
      ensures this.serializeSize == serializeSize
    {
      this.parent, this.commitTarget, this.serializeSize := parent, commitTarget, serializeSize;
      memoryUsage, writes, deletes := 0, map[], {};
      new;
      UsageEmpty<V>();
    }

    method Write(k: Key, v: V)
      requires Valid()
      modifies this
      ensures Valid() && View() == old(View())[k := v]
    {
      hide Overlay, Usage;
      var valueMemoryUsage := serializeSize(v);
      OverlayWrite(parent.data, writes, deletes, k, Holder(v, valueMemoryUsage));
      UsageWrite(writes, deletes, k, Holder(v, valueMemoryUsage));
      assert k !in deletes ==> deletes - {k} == deletes;
      if k in deletes {
        deletes := deletes - {k};
        memoryUsage := memoryUsage - |k|;
      }
      if k in writes {
        memoryUsage := memoryUsage - (|k| + writes[k].memoryUsage);
      }
      writes := writes[k := Holder(v, valueMemoryUsage)];
      memoryUsage := memoryUsage + |k| + valueMemoryUsage;
    }

    method Erase(k: Key)
      requires Valid()
      modifies this
      ensures Valid() && View() == old(View()) - {k}
    {
      hide Overlay, Usage;
      OverlayErase(parent.data, writes, deletes, k);
      UsageErase(writes, deletes, k);
      assert k in deletes ==> deletes + {k} == deletes;
      assert k !in writes ==> writes - {k} == writes;
      if k in writes {
        memoryUsage := memoryUsage - (|k| + writes[k].memoryUsage);
        writes := writes - {k};
      }
      if k !in deletes {
        deletes := deletes + {k};
        memoryUsage := memoryUsage + |k|;
      }
    }

    method Read(k: Key) returns (r: Option<V>)
      requires Valid()
      ensures r == if k in View() then Some(View()[k]) else None
    {
      if k in deletes { return None; }
      if k in writes { return Some(writes[k].value); }
      return if k in parent.data then Some(parent.data[k]) else None;
    }

    method Exists(k: Key) returns (r: bool)
      requires Valid()
      ensures r == (k in View())
    {
      if k in deletes { return false; }
      if k in writes { return true; }
      return k in parent.data;
    }

    method Clear()
      modifies this
      ensures Valid() && writes == map[] && deletes == {} && memoryUsage == 0
    {
      writes, deletes, memoryUsage := map[], {}, 0;
      UsageEmpty<V>();
    }

    /** Commit turns the target into the overlay of itself, and starts the transaction afresh. */
    method Commit()
      requires Valid()
      modifies this, commitTarget
      ensures Valid() && writes == map[] && deletes == {}
      ensures commitTarget.data == Overlay(old(commitTarget.data), old(writes), old(deletes))
      ensures old(commitTarget.data == parent.data) ==> commitTarget.data == old(View())
    {
      hide Overlay, Usage;
      ghost var was := commitTarget.data;
      CommitDeletes();
      CommitWrites();
      CommittedOverlay(was, writes, deletes);
      Clear();
    }

    method CommitDeletes()
      modifies commitTarget
      ensures commitTarget.data == old(commitTarget.data) - deletes
    {
      var rest := deletes;
      while rest != {}
        invariant rest <= deletes && commitTarget.data == old(commitTarget.data) - (deletes - rest)
        decreases |rest|
      {
        var k :| k in rest;
        commitTarget.data := commitTarget.data - {k};
        rest := rest - {k};
      }
      assert deletes - {} == deletes;
    }

    method CommitWrites()
      modifies commitTarget
      ensures commitTarget.data == old(commitTarget.data) + Values(writes)
    {
      hide Values;
      var w, rest := writes, writes.Keys;
      ghost var was, values := commitTarget.data, Values(writes);
      NothingYet(was, w);
      while rest != {}
        invariant rest <= w.Keys && commitTarget.data == was + (values - rest)
        decreases |rest|
      {
        var k :| k in rest;
        OneMore(was, w, rest, k);
        commitTarget.data := commitTarget.data[k := w[k].value];
        rest := rest - {k};
      }
      assert values - {} == values;
    }

    method IsClean() returns (r: bool)
      requires Valid()
      ensures r == (writes == map[] && deletes == {})
      ensures r ==> View() == parent.data && memoryUsage == 0
    {
      r := writes == map[] && deletes == {};
      UsageEmpty<V>();
    }

    /** The guard against a negative sum never applies. */
    method GetMemoryUsage() returns (r: int)
      requires Valid()
      ensures r == Usage(writes, deletes)
    {
      r := if memoryUsage < 0 then 0 else memoryUsage;
    }
  }
}
