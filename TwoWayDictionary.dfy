/** The two-way dictionary: a forward map from keys to values and, in a second object,
    the backward map from values to keys.  The two objects are each other's inverse, and
    each reaches into the other's map when it updates.  The intended invariant is that
    the two maps are inverse bijections (`Paired`); `Add` on a fresh key and value,
    `Remove` by key and `Clear` keep it, while `Add` on a present value, the key
    setter and `Remove` of a mismatched pair break it, as proved below. */
module Collections {
  import opened Errors

  /** `bwd` is exactly the inverse of `fwd`. */
  ghost predicate Paired<K, V>(fwd: map<K, V>, bwd: map<V, K>) {
    (forall k :: k in fwd ==> fwd[k] in bwd && bwd[fwd[k]] == k) &&
    (forall v :: v in bwd ==> bwd[v] in fwd && fwd[bwd[v]] == v)
  }

  /** Inverse maps have the same number of entries. */
  lemma {:induction false} PairedSizes<K, V>(fwd: map<K, V>, bwd: map<V, K>)
    requires Paired(fwd, bwd)
    ensures |fwd| == |bwd|
    decreases |fwd|
  {
    if |fwd| > 0 {
      var k :| k in fwd;
      var v := fwd[k];
      PairedRemove(fwd, bwd, k);
      PairedSizes(fwd - {k}, bwd - {v});
      assert fwd.Keys == (fwd - {k}).Keys + {k};
      assert bwd.Keys == (bwd - {v}).Keys + {v};
    }
  }

  /** A fresh key and a fresh value extend a pairing. */
  lemma PairedAdd<K, V>(fwd: map<K, V>, bwd: map<V, K>, k: K, v: V)
    requires Paired(fwd, bwd) && k !in fwd && v !in bwd
    ensures Paired(fwd[k := v], bwd[v := k])
  {
  }

  /** Removing a key and its value keeps a pairing. */
  lemma PairedRemove<K, V>(fwd: map<K, V>, bwd: map<V, K>, k: K)
    requires Paired(fwd, bwd) && k in fwd
    ensures Paired(fwd - {k}, bwd - {fwd[k]})
  {
    var v := fwd[k];
    forall k' | k' in fwd - {k}
      ensures fwd[k'] in bwd - {v}
    {
      assert bwd[fwd[k']] == k';
    }
  }

  /** A forward entry for a value the backward map already holds breaks pairing. */
  lemma ForwardOnlyAdd<K, V>(fwd: map<K, V>, bwd: map<V, K>, k: K, v: V)
    requires Paired(fwd, bwd) && k !in fwd && v in bwd
    ensures !Paired(fwd[k := v], bwd)
  {
    assert bwd[v] in fwd && bwd[v] != k;
    assert fwd[k := v][k] == v;
  }

  /** Rebinding a key to another value leaves its previous value's backward entry behind. */
  lemma StaleBackwardEntry<K, V>(fwd: map<K, V>, bwd: map<V, K>, k: K, v: V)
    requires Paired(fwd, bwd) && k in fwd && fwd[k] != v
    ensures !Paired(fwd[k := v], bwd[v := k])
  {
    var previous := fwd[k];
    assert previous in bwd[v := k] && bwd[v := k][previous] == k;
  }

  /** Removing a key with a value it is not bound to leaves both partners behind. */
  lemma MismatchedRemoval<K, V>(fwd: map<K, V>, bwd: map<V, K>, k: K, v: V)
    requires Paired(fwd, bwd) && k in fwd && v in bwd && fwd[k] != v
    ensures !Paired(fwd - {k}, bwd - {v})
  {
    var previous := fwd[k];
    assert previous in bwd - {v} && (bwd - {v})[previous] == k;
  }

  class TwoWayDictionary<K(==), V(==)> {
    /** This side's map. */
    var dict: map<K, V>
    /** The other side, whose map runs from values to keys. */
    var inverse: TwoWayDictionary?<V, K>

    /** The two sides are linked both ways and are distinct objects. */
    ghost predicate Valid()
      reads this, inverse
    {
      inverse != null && inverse.inverse == this && inverse as object != this as object
    }

    /** The two maps are inverse bijections. */
    ghost predicate Bijective()
      requires Valid()
      reads this, inverse
    {
      Paired(dict, inverse.dict)
    }

    /** An empty dictionary. */
    constructor ()
      ensures Valid() && fresh(inverse) && dict == map[] && inverse.dict == map[]
      ensures Bijective()
    {
      dict := map[];
      inverse := null;
      new;
      inverse := new TwoWayDictionary<V, K>.Linked(map[], this);
    }

    /** A dictionary over the given forward and backward maps, taken as they are. */
    constructor FromMaps(forwards: map<K, V>, backwards: map<V, K>)
      ensures Valid() && fresh(inverse) && dict == forwards && inverse.dict == backwards
    {
      dict := forwards;
      inverse := null;
      new;
      inverse := new TwoWayDictionary<V, K>.Linked(backwards, this);
    }

    /** The inverse side, built over `d` and linked back to `other`. */
    constructor Linked(d: map<K, V>, other: TwoWayDictionary<V, K>)
      ensures dict == d && inverse == other
    {
      dict := d;
      inverse := other;
    }

    /** The number of entries, counted on this side. */
    function Count(): nat
      reads this
    {
      |dict|
    }

    /** The other side, whose own inverse is this dictionary. */
    function Inverse(): (r: TwoWayDictionary?<V, K>)
      requires Valid()
      reads this, inverse
      ensures r != null && r.inverse == this && r.dict == inverse.dict
    {
      inverse
    }

    /** The key indexer's getter. */
    function Get(key: K): (r: Result<V>)
      reads this
      ensures r.Ok? <==> key in dict
      ensures r.Ok? ==> r.value == dict[key]
      ensures r.Fail? ==> r.error == KeyNotFound
    {
      if key in dict then Ok(dict[key]) else Fail(KeyNotFound)
    }

    /** The value indexer's getter, answered by the other side. */
    function GetByValue(value: V): (r: Result<K>)
      requires Valid()
      reads this, inverse
      ensures r.Ok? <==> value in inverse.dict
      ensures r.Ok? && Bijective() ==> r.value in dict && dict[r.value] == value
    {
      inverse.Get(value)
    }

    function ContainsKey(key: K): (b: bool)
      reads this
      ensures b <==> key in dict
    {
      key in dict
    }

    /** Asked of the other side; while the maps are paired, the same as asking whether
        some key is bound to `value`. */
    function ContainsValue(value: V): (b: bool)
      requires Valid()
      reads this, inverse
      ensures b <==> value in inverse.dict
      ensures Bijective() ==> (b <==> exists k :: k in dict && dict[k] == value)
    {
      inverse.ContainsKey(value)
    }

    /** The pair test: the key is present and the value is present, bound to each
        other or not. */
    function Contains(key: K, value: V): (b: bool)
      requires Valid()
      reads this, inverse
      ensures b <==> key in dict && value in inverse.dict
    {
      ContainsKey(key) && ContainsValue(value)
    }

    function TryGetValue(key: K): (r: Option<V>)
      reads this
      ensures r.Some? <==> key in dict
      ensures r.Some? ==> r.value == dict[key]
    {
      if key in dict then Some(dict[key]) else None
    }

    /** Asked of the other side. */
    function TryGetKey(value: V): (r: Option<K>)
      requires Valid()
      reads this, inverse
      ensures r.Some? <==> value in inverse.dict
      ensures r.Some? && Bijective() ==> r.value in dict && dict[r.value] == value
    {
      inverse.TryGetValue(value)
    }

    /** The shared update: unless `throwIfContained`, the key is first removed from
        this side and the value from the other; then each side gains its entry, and
        either addition fails on a key its map already holds. */
    method Update(key: K, value: V, throwIfContained: bool) returns (r: Result<()>)
      requires Valid()
      modifies this, inverse
      ensures Valid() && inverse == old(inverse)
      ensures throwIfContained && key in old(dict) ==>
                r == Fail(Argument) && dict == old(dict) && inverse.dict == old(inverse.dict)
      ensures throwIfContained && key !in old(dict) && value in old(inverse.dict) ==>
                r == Fail(Argument) && dict == old(dict)[key := value] && inverse.dict == old(inverse.dict)
      ensures !throwIfContained || (key !in old(dict) && value !in old(inverse.dict)) ==>
                r == Ok(()) && dict == old(dict)[key := value] && inverse.dict == old(inverse.dict)[value := key]
    {
      if !throwIfContained {
        dict := dict - {key};
        inverse.dict := inverse.dict - {value};
      }
      if key in dict {
        return Fail(Argument);
      }
      dict := dict[key := value];
      if value in inverse.dict {
        return Fail(Argument);
      }
      inverse.dict := inverse.dict[value := key];
      r := Ok(());
    }

    /** Adds a fresh key with its value.  A present key fails before any change; a
        fresh key with a present value is added to this side only, and then fails. */
    method Add(key: K, value: V) returns (r: Result<()>)
      requires Valid()
      modifies this, inverse
      ensures Valid() && inverse == old(inverse)
      ensures r.Ok? <==> key !in old(dict) && value !in old(inverse.dict)
      ensures r.Ok? ==> dict == old(dict)[key := value] && inverse.dict == old(inverse.dict)[value := key]
      ensures r.Ok? && old(Bijective()) ==> Bijective() && Count() == old(Count()) + 1
      ensures key in old(dict) ==> r == Fail(Argument) && dict == old(dict) && inverse.dict == old(inverse.dict)
      ensures key !in old(dict) && value in old(inverse.dict) ==>
                r == Fail(Argument) && dict == old(dict)[key := value] && inverse.dict == old(inverse.dict)
      ensures key !in old(dict) && value in old(inverse.dict) && old(Bijective()) ==> !Bijective()
    {
      ghost var fwd, bwd := dict, inverse.dict;
      r := Update(key, value, true);
      if Paired(fwd, bwd) && key !in fwd {
        if value in bwd {
          ForwardOnlyAdd(fwd, bwd, key, value);
        } else {
          PairedAdd(fwd, bwd, key, value);
        }
      }
    }

    /** The key indexer's setter: rebinds `key` to `value`.  The backward entry of the
        key's old value and the forward entry of the value's old key are left behind. */
    method Set(key: K, value: V)
      requires Valid()
      modifies this, inverse
      ensures Valid() && inverse == old(inverse)
      ensures dict == old(dict)[key := value] && inverse.dict == old(inverse.dict)[value := key]
      ensures old(Bijective()) && key !in old(dict) && value !in old(inverse.dict) ==> Bijective()
      ensures old(Bijective()) && key in old(dict) && old(dict)[key] != value ==> !Bijective()
    {
      ghost var fwd, bwd := dict, inverse.dict;
      var _ := Update(key, value, false);
      if Paired(fwd, bwd) {
        if key !in fwd && value !in bwd {
          PairedAdd(fwd, bwd, key, value);
        } else if key in fwd && fwd[key] != value {
          StaleBackwardEntry(fwd, bwd, key, value);
        }
      }
    }

    /** The value indexer's setter: the key setter of the other side. */
    method SetByValue(value: V, key: K)
      requires Valid()
      modifies this, inverse
      ensures Valid() && inverse == old(inverse)
      ensures inverse.dict == old(inverse.dict)[value := key] && dict == old(dict)[key := value]
    {
      inverse.Set(value, key);
    }

    /** Removes the key and the value, if this side holds the key and the other the
        value, whether or not they are bound to each other. */
    method RemoveEntries(key: K, value: V) returns (removed: bool)
      requires Valid()
      modifies this, inverse
      ensures Valid() && inverse == old(inverse)
      ensures removed <==> key in old(dict) && value in old(inverse.dict)
      ensures removed ==> dict == old(dict) - {key} && inverse.dict == old(inverse.dict) - {value}
      ensures !removed ==> dict == old(dict) && inverse.dict == old(inverse.dict)
    {
      if !ContainsKey(key) || !ContainsValue(value) {
        return false;
      }
      dict := dict - {key};
      inverse.dict := inverse.dict - {value};
      removed := true;
    }

    /** Removes a key and the value it is bound to. */
    method Remove(key: K) returns (removed: bool)
      requires Valid()
      modifies this, inverse
      ensures Valid() && inverse == old(inverse)
      ensures removed <==> key in old(dict) && old(dict)[key] in old(inverse.dict)
      ensures removed ==> dict == old(dict) - {key} && inverse.dict == old(inverse.dict) - {old(dict)[key]}
      ensures !removed ==> dict == old(dict) && inverse.dict == old(inverse.dict)
      ensures old(Bijective()) ==> Bijective() && (removed <==> key in old(dict))
    {
      var value := TryGetValue(key);
      if value.None? {
        return false;
      }
      if Paired(dict, inverse.dict) {
        PairedRemove(dict, inverse.dict, key);
      }
      removed := RemoveEntries(key, value.value);
    }

    /** The pair removal: removes the key and the value even when the key is bound to
        another value. */
    method RemovePair(key: K, value: V) returns (removed: bool)
      requires Valid()
      modifies this, inverse
      ensures Valid() && inverse == old(inverse)
      ensures removed <==> key in old(dict) && value in old(inverse.dict)
      ensures removed ==> dict == old(dict) - {key} && inverse.dict == old(inverse.dict) - {value}
      ensures !removed ==> dict == old(dict) && inverse.dict == old(inverse.dict)
      ensures old(Bijective()) && removed && old(dict)[key] != value ==> !Bijective()
    {
      if Paired(dict, inverse.dict) && key in dict && value in inverse.dict && dict[key] != value {
        MismatchedRemoval(dict, inverse.dict, key, value);
      }
      removed := RemoveEntries(key, value);
    }

    /** Adds a key-value pair: the same as `Add`, failures included. */
    method AddPair(key: K, value: V) returns (r: Result<()>)
      requires Valid()
      modifies this, inverse
      ensures Valid() && inverse == old(inverse)
      ensures r.Ok? <==> key !in old(dict) && value !in old(inverse.dict)
      ensures r.Ok? ==> dict == old(dict)[key := value] && inverse.dict == old(inverse.dict)[value := key]
      ensures r.Ok? && old(Bijective()) ==> Bijective() && Count() == old(Count()) + 1
      ensures key in old(dict) ==> r == Fail(Argument) && dict == old(dict) && inverse.dict == old(inverse.dict)
      ensures key !in old(dict) && value in old(inverse.dict) ==>
                r == Fail(Argument) && dict == old(dict)[key := value] && inverse.dict == old(inverse.dict)
      ensures key !in old(dict) && value in old(inverse.dict) && old(Bijective()) ==> !Bijective()
    {
      r := Add(key, value);
    }

    /** Empties both sides. */
    method Clear()
      requires Valid()
      modifies this, inverse
      ensures Valid() && inverse == old(inverse)
      ensures dict == map[] && inverse.dict == map[] && Bijective()
    {
      dict := map[];
      inverse.dict := map[];
    }
  }

  /** While the maps are paired, both sides count the same number of entries. */
  lemma CountsAgree<K, V>(d: TwoWayDictionary<K, V>)
    requires d.Valid() && d.Bijective()
    ensures d.Count() == d.Inverse().Count()
  {
    PairedSizes(d.dict, d.inverse.dict);
  }

  /** Even on paired maps, the pair test accepts a key with a value bound to another key. */
  lemma ContainsIgnoresBinding(d: TwoWayDictionary<int, int>)
    requires d.Valid() && d.dict == map[1 := 10, 2 := 20] && d.inverse.dict == map[10 := 1, 20 := 2]
    ensures d.Bijective() && d.Contains(1, 20) && d.Get(1) == Ok(10)
  {
  }
}
