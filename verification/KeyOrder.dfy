/** Byte-string keys in lexicographical order, and the least key of a finite set. */
module KeyOrder {
  import opened Common

  type Key = seq<nat>

  predicate Less(a: Key, b: Key) {
    if b == [] then false
    else if a == [] then true
    else if a[0] != b[0] then a[0] < b[0]
    else Less(a[1..], b[1..])
  }

  lemma {:induction false} LessTrans(a: Key, b: Key, c: Key)
    requires Less(a, b) && Less(b, c)
    ensures Less(a, c)
  {
    if a != [] && a[0] == b[0] && b[0] == c[0] { LessTrans(a[1..], b[1..], c[1..]); }
  }

  lemma {:induction false} LessTotal(a: Key, b: Key)
    ensures Less(a, b) || a == b || Less(b, a)
    ensures !(Less(a, b) && Less(b, a)) && !Less(a, a)
  {
    if a != [] && b != [] && a[0] == b[0] {
      LessTotal(a[1..], b[1..]);
      assert a == [a[0]] + a[1..] && b == [b[0]] + b[1..];
    }
    LessIrreflexive(a);
  }

  lemma {:induction false} LessIrreflexive(a: Key)
    ensures !Less(a, a)
  {
    if a != [] { LessIrreflexive(a[1..]); }
  }

  ghost predicate IsLeast(keys: set<Key>, k: Key) {
    k in keys && forall x :: x in keys ==> !Less(x, k)
  }

  lemma {:induction false} LeastExists(keys: set<Key>) returns (k: Key)
    requires keys != {}
    ensures IsLeast(keys, k)
    decreases |keys|
  {
    var z :| z in keys;
    var rest := keys - {z};
    if rest == {} {
      k := z;
      assert keys == {z};
      LessIrreflexive(z);
    } else {
      var x := LeastExists(rest);
      k := if Less(z, x) then z else x;
      forall y | y in keys ensures !Less(y, k) {
        LessTotal(z, x);
        LessTotal(y, z);
        if y != z && Less(z, x) && Less(y, z) { LessTrans(y, z, x); }
      }
    }
  }

  /** Where an ordered container's iterator stands when `keys` is the part it has yet to visit. */
  method First(keys: set<Key>) returns (r: Option<Key>)
    ensures r.None? <==> keys == {}
    ensures r.Some? ==> IsLeast(keys, r.value)
  {
    if keys == {} { return None; }
    ghost var least := LeastExists(keys);
    var k :| k in keys && forall x :: x in keys ==> !Less(x, k);
    return Some(k);
  }

  /** The keys at and after a position. */
  function From(keys: set<Key>, k: Key): set<Key> {
    set x | x in keys && !Less(x, k)
  }

  function After(keys: set<Key>, k: Key): set<Key> {
    set x | x in keys && Less(k, x)
  }

  /** Stepping past a key leaves exactly the later ones. */
  lemma FromMinus(keys: set<Key>, k: Key)
    ensures From(keys, k) - {k} == After(keys, k)
  {
    forall x ensures x in From(keys, k) - {k} <==> x in After(keys, k) {
      LessTotal(x, k);
    }
  }

  lemma FromLeast(keys: set<Key>, k: Key)
    requires IsLeast(keys, k)
    ensures From(keys, k) == keys
  {
  }
}
