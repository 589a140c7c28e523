/** The iterator that merges a transaction's writes with its parent's entries (src/dbwrapper.h). */
module DbIterator {
  import opened Common
  import opened KeyOrder
  import opened DbTransaction

  /** The parent's keys that show through a transaction. */
  function Through(parentKeys: set<Key>, writeKeys: set<Key>, deletes: set<Key>): set<Key> {
    parentKeys - deletes - writeKeys
  }

  /** The keys an iterator has yet to visit when it stands at `at`. */
  function Ahead(keys: set<Key>, at: Option<Key>): set<Key> {
    if at.None? then {} else From(keys, at.value)
  }

  lemma OverlayKeys<V>(data: map<Key, V>, writes: map<Key, Holder<V>>, deletes: set<Key>)
    requires writes.Keys !! deletes
    ensures Overlay(data, writes, deletes).Keys == writes.Keys + Through(data.Keys, writes.Keys, deletes)
  {
  }

  class TransactionIterator<V> {
    const transaction: Transaction<V>
    var transactionIt: Option<Key>
    var parentIt: Option<Key>
    var parentKey: Key
    var curIsParent: bool

    function WriteKeys(): set<Key>
      reads transaction
    {
      transaction.writes.Keys
    }

    function ParentKeys(): set<Key>
      reads transaction.parent
    {
      transaction.parent.data.Keys
    }

    ghost function Visible(): set<Key>
      reads transaction, transaction.parent
    {
      Through(ParentKeys(), WriteKeys(), transaction.deletes)
    }

    /** What is left to visit: the writes and the visible parent entries at and after the two positions. */
    ghost function Remaining(): set<Key>
      reads this, transaction, transaction.parent
    {
      Ahead(WriteKeys(), transactionIt) + Ahead(Visible(), parentIt)
    }

    /** Both positions are on keys of their own, and the one marked current has the smaller. */
    ghost predicate Valid()
      reads this, transaction, transaction.parent
    {
      && transaction.Valid()
      && Positioned()
      && (transactionIt.Some? && parentIt.None? ==> !curIsParent)
      && (transactionIt.None? && parentIt.Some? ==> curIsParent)
      && (transactionIt.Some? && parentIt.Some? ==> (curIsParent <==> !Less(transactionIt.value, parentKey)))
    }

    ghost predicate Positioned()
      reads this, transaction, transaction.parent
    {
      && (transactionIt.Some? ==> transactionIt.value in WriteKeys())
      && (parentIt.Some? ==> parentIt.value in Visible() && parentKey == parentIt.value)
    }

    constructor (transaction: Transaction<V>)
      requires transaction.Valid()
      ensures this.transaction == transaction && Valid() && Remaining() == {}
    {
      this.transaction := transaction;
      transactionIt, parentIt, parentKey, curIsParent := None, None, [], false;
    }

    ghost function Current(): Key
      reads this
      requires transactionIt.Some? || parentIt.Some?
    {
      if transactionIt.None? || (curIsParent && parentIt.Some?) then parentIt.value else transactionIt.value
    }

    /** The current key is the least of those left. */
    lemma CurrentIsLeast()
      requires Valid() && Remaining() != {}
      ensures (transactionIt.Some? || parentIt.Some?) && IsLeast(Remaining(), Current())
    {
      var k := Current();
      LessIrreflexive(k);
      forall x | x in Remaining() ensures !Less(x, k) {
        if transactionIt.Some? && parentIt.Some? {
          LessTotal(transactionIt.value, parentIt.value);
          LessTotal(x, k);
          LessTotal(x, transactionIt.value);
          LessTotal(x, parentIt.value);
          if Less(x, k) {
            if k == transactionIt.value && Less(x, k) && Less(k, parentIt.value) { LessTrans(x, k, parentIt.value); }
            if k == parentIt.value && Less(k, transactionIt.value) { LessTrans(x, k, transactionIt.value); }
          }
        }
      }
    }

    lemma EmptyWhenDone()
      requires Positioned()
      ensures Remaining() == {} <==> transactionIt.None? && parentIt.None?
    {
      if transactionIt.Some? {
        LessIrreflexive(transactionIt.value);
        assert transactionIt.value in Remaining();
      }
      if parentIt.Some? {
        LessIrreflexive(parentIt.value);
        assert parentIt.value in Remaining();
      }
    }

    method HasNext() returns (r: bool)
      requires Valid()
      ensures r == (Remaining() != {})
    {
      EmptyWhenDone();
      r := transactionIt.Some? || parentIt.Some?;
    }

    /** Moves the parent position over entries that the transaction deleted or overwrote. */
    method SkipDeletedAndOverwritten(ghost keys: set<Key>)
      requires keys <= ParentKeys() && (if parentIt.None? then keys == {} else IsLeast(keys, parentIt.value))
      requires parentIt.Some? ==> keys == From(ParentKeys(), parentIt.value)
      modifies this`parentIt, this`parentKey
      ensures parentIt.Some? ==> parentIt.value in Visible() && parentKey == parentIt.value
      ensures Ahead(Visible(), parentIt) == keys * Visible()
    {
      ghost var left := keys;
      while parentIt.Some?
        invariant left <= keys && keys * Visible() == left * Visible()
        invariant if parentIt.None? then left == {} else IsLeast(left, parentIt.value)
        invariant parentIt.Some? ==> left == From(ParentKeys(), parentIt.value)
        decreases |left|
      {
        parentKey := parentIt.value;
        if parentKey !in transaction.deletes && parentKey !in transaction.writes { break; }
        FromMinus(ParentKeys(), parentKey);
        parentIt := First(After(ParentKeys(), parentKey));
        left := left - {parentKey};
        if parentIt.Some? { AfterIsFrom(ParentKeys(), parentKey, parentIt.value); }
      }
      if parentIt.Some? { assert Ahead(Visible(), parentIt) == left * Visible(); }
    }

    static lemma AfterIsFrom(keys: set<Key>, k: Key, l: Key)
      requires IsLeast(After(keys, k), l)
      ensures After(keys, k) == From(keys, l)
    {
      forall x | x in keys ensures Less(k, x) <==> !Less(x, l) {
        LessTotal(x, l);
        if Less(l, x) { LessTrans(k, l, x); }
      }
    }

    method DecideCur()
      modifies this`curIsParent
      ensures transactionIt.Some? && parentIt.None? ==> !curIsParent
      ensures transactionIt.None? && parentIt.Some? ==> curIsParent
      ensures transactionIt.Some? && parentIt.Some? ==> (curIsParent <==> !Less(transactionIt.value, parentKey))
    {
      if transactionIt.Some? && parentIt.None? {
        curIsParent := false;
      } else if transactionIt.None? && parentIt.Some? {
        curIsParent := true;
      } else if transactionIt.Some? && parentIt.Some? {
        curIsParent := !Less(transactionIt.value, parentKey);
      }
    }

    static lemma FromFrom(keys: set<Key>, k: Key, l: Key)
      requires IsLeast(From(keys, k), l)
      ensures From(keys, l) == From(keys, k)
    {
      forall x | x in keys ensures !Less(x, l) <==> !Less(x, k) {
        LessTotal(x, l);
        LessTotal(x, k);
        LessTotal(k, l);
        if Less(x, k) && Less(k, l) { LessTrans(x, k, l); }
      }
    }

    ghost function OverlayKeySet(): set<Key>
      reads transaction, transaction.parent
    {
      Overlay(transaction.parent.data, transaction.writes, transaction.deletes).Keys
    }

    /** Seek: exactly the overlay's keys from `k` on are left. */
    method Seek(k: Key)
      requires transaction.Valid()
      modifies this
      ensures Valid() && Remaining() == From(OverlayKeySet(), k)
    {
      hide Overlay;
      transactionIt := First(From(WriteKeys(), k));
      parentIt := First(From(ParentKeys(), k));
      if transactionIt.Some? { FromFrom(WriteKeys(), k, transactionIt.value); }
      if parentIt.Some? { FromFrom(ParentKeys(), k, parentIt.value); }
      SkipDeletedAndOverwritten(From(ParentKeys(), k));
      DecideCur();
      OverlayKeys(transaction.parent.data, transaction.writes, transaction.deletes);
    }

    /** SeekToFirst: all of the overlay's keys are left. */
    method SeekToFirst()
      requires transaction.Valid()
      modifies this
      ensures Valid() && Remaining() == OverlayKeySet()
    {
      hide Overlay;
      transactionIt := First(WriteKeys());
      parentIt := First(ParentKeys());
      if transactionIt.Some? { FromLeast(WriteKeys(), transactionIt.value); }
      if parentIt.Some? { FromLeast(ParentKeys(), parentIt.value); }
      SkipDeletedAndOverwritten(ParentKeys());
      DecideCur();
      OverlayKeys(transaction.parent.data, transaction.writes, transaction.deletes);
    }

    /** Next: the current key, and no other, is left behind; at the end nothing happens. */
    method Next()
      requires Valid()
      modifies this
      ensures Valid()
      ensures old(Remaining()) == {} ==> Remaining() == {}
      ensures old(Remaining()) != {} ==> Remaining() == old(Remaining()) - {old(Current())}
    {
      EmptyWhenDone();
      if transactionIt.None? && parentIt.None? { return; }
      if curIsParent {
        NextParent();
      } else {
        NextWrite();
      }
      DecideCur();
    }

    method NextParent()
      requires Positioned() && parentIt.Some?
      modifies this`parentIt, this`parentKey
      ensures Positioned() && Remaining() == old(Remaining()) - {old(parentIt.value)}
    {
      var k := parentIt.value;
      FromMinus(ParentKeys(), k);
      FromMinus(Visible(), k);
      parentIt := First(After(ParentKeys(), k));
      if parentIt.Some? { AfterIsFrom(ParentKeys(), k, parentIt.value); }
      SkipDeletedAndOverwritten(After(ParentKeys(), k));
      assert After(ParentKeys(), k) * Visible() == After(Visible(), k);
    }

    method NextWrite()
      requires Positioned() && transactionIt.Some?
      modifies this`transactionIt
      ensures Positioned() && Remaining() == old(Remaining()) - {old(transactionIt.value)}
    {
      var k := transactionIt.value;
      FromMinus(WriteKeys(), k);
      transactionIt := First(After(WriteKeys(), k));
      if transactionIt.Some? { AfterIsFrom(WriteKeys(), k, transactionIt.value); }
    }

    /** GetKey: the least key left; the empty key at the end. */
    method GetKey() returns (k: Key)
      requires Valid()
      ensures Remaining() == {} ==> k == []
      ensures Remaining() != {} ==> k == Current() && IsLeast(Remaining(), k)
    {
      EmptyWhenDone();
      if transactionIt.None? && parentIt.None? { return []; }
      CurrentIsLeast();
      k := if curIsParent then parentKey else transactionIt.value;
    }

    /** GetValue: the overlay's value at the current key. */
    method GetValue() returns (v: Option<V>)
      requires Valid()
      ensures Remaining() == {} ==> v.None?
      ensures Remaining() != {} ==> Current() in transaction.View() && v == Some(transaction.View()[Current()])
    {
      EmptyWhenDone();
      if transactionIt.None? && parentIt.None? { return None; }
      if curIsParent {
        v := transaction.Read(parentKey);
      } else {
        v := transaction.Read(transactionIt.value);
      }
    }
  }

  ghost predicate Ascending(ks: seq<Key>) {
    forall i, j :: 0 <= i < j < |ks| ==> Less(ks[i], ks[j])
  }

  function Elements(ks: seq<Key>): set<Key> { set x | x in ks }

  /** `ks` has been visited in order, and `left` is what comes after it. */
  ghost predicate Visited(ks: seq<Key>, left: set<Key>, all: set<Key>) {
    Ascending(ks) && Elements(ks) + left == all && forall x, y :: x in ks && y in left ==> Less(x, y)
  }

  lemma VisitedNext(ks: seq<Key>, left: set<Key>, all: set<Key>, k: Key)
    requires Visited(ks, left, all) && IsLeast(left, k)
    ensures Visited(ks + [k], left - {k}, all)
  {
    forall y | y in left - {k} ensures Less(k, y) { LessTotal(k, y); }
    assert Elements(ks + [k]) == Elements(ks) + {k};
  }

  /** A whole scan visits exactly the overlay's keys from `k` on, in strictly ascending order. */
  method Scan<V>(it: TransactionIterator<V>, k: Key) returns (ks: seq<Key>)
    requires it.transaction.Valid()
    modifies it
    ensures Ascending(ks) && Elements(ks) == From(it.OverlayKeySet(), k)
  {
    hide Visited, Overlay, From, Ahead, Through, Usage;
    it.Seek(k);
    ghost var all := it.Remaining();
    ks := [];
    var more := it.HasNext();
    assert Visited([], all, all) by { VisitedStart(all); }
    while more
      invariant it.Valid() && more == (it.Remaining() != {})
      invariant Visited(ks, it.Remaining(), all)
      decreases |it.Remaining()|
    {
      var key := it.GetKey();
      VisitedNext(ks, it.Remaining(), all, key);
      it.Next();
      ks := ks + [key];
      more := it.HasNext();
    }
    VisitedEnd(ks, all);
  }

  lemma VisitedStart(all: set<Key>)
    ensures Visited([], all, all)
  {
    assert Elements([]) == {};
  }

  lemma VisitedEnd(ks: seq<Key>, all: set<Key>)
    requires Visited(ks, {}, all)
    ensures Ascending(ks) && Elements(ks) == all
  {
  }
}
