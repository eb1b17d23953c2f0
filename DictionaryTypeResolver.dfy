/** The dictionary type resolver: maps the type name a serialized map carries to the
    factory of an empty dictionary.  Every registered name has the same factory,
    `DefaultCtor`, so the table is the set of registered names.

    As written the table field has no initializer and is never assigned, so the
    constructor's first registration goes through a null reference and construction
    always fails; `New` models that.  The lookup is modelled on a table that does
    exist as well (`Populated`), the one the registrations are meant to build. */
module DictionaryTypes {
  import opened Errors

  /** A dictionary the resolver hands out. */
  class ObjectDictionary {
    var entries: map<object, object>

    constructor ()
      ensures entries == map[]
    {
      entries := map[];
    }
  }

  /** The nine names, in the order the constructor registers them. */
  const RegisteredNames: seq<string> := [
    "System.Collections.Hashtable",
    "System.Collections.Generic.IDictionary`2",
    "System.Collections.Generic.Dictionary`2",
    "System.Collections.IDictionary",
    "java.lang.Map",
    "java.util.HashMap",
    "java.util.EnumMap",
    "java.util.TreeMap",
    "java.util.concurrent.ConcurrentHashMap"
  ]

  /** The nine registered names. */
  const DictionaryTypeNames: set<string> := set n | n in RegisteredNames

  /** The names of the first `i` registrations. */
  ghost function RegisteredBefore(i: nat): (names: set<string>)
    requires i <= |RegisteredNames|
    ensures names <= DictionaryTypeNames
    ensures i == 0 ==> names == {}
    ensures i == |RegisteredNames| ==> names == DictionaryTypeNames
  {
    set n | n in RegisteredNames[..i]
  }

  /** No name is registered twice. */
  lemma NamesDistinct(i: nat, j: nat)
    requires i < j < |RegisteredNames|
    ensures RegisteredNames[i] != RegisteredNames[j]
  {
  }

  /** The `i`-th name is not among the names registered before it. */
  lemma NotYetRegistered(i: nat)
    requires i < |RegisteredNames|
    ensures RegisteredNames[i] !in RegisteredBefore(i)
    ensures RegisteredBefore(i + 1) == RegisteredBefore(i) + {RegisteredNames[i]}
  {
    if RegisteredNames[i] in RegisteredBefore(i) {
      var k :| 0 <= k < i && RegisteredNames[..i][k] == RegisteredNames[i];
      NamesDistinct(k, i);
    }
    assert RegisteredNames[..i + 1] == RegisteredNames[..i] + [RegisteredNames[i]];
  }

  /** The factory every name is registered with: a fresh, empty dictionary. */
  method DefaultCtor() returns (d: ObjectDictionary)
    ensures fresh(d) && d.entries == map[]
  {
    d := new ObjectDictionary();
  }

  class DictionaryTypeResolver {
    /** The registered names; `None` is the null the field holds as written. */
    var constructors: Option<set<string>>

    /** The field as written: never allocated. */
    constructor Unallocated()
      ensures constructors == None
    {
      constructors := None;
    }

    /** The constructor as meant: the nine registrations into an allocated, empty
        table, all of which succeed. */
    constructor Populated()
      ensures constructors == Some(DictionaryTypeNames)
    {
      constructors := Some({});
      new;
      var r := RegisterDefaults();
      assert r.Ok? && {} + DictionaryTypeNames == DictionaryTypeNames;
    }

    /** The table's `Add`: through a null table it fails; a name already present
        is rejected. */
    method Add(name: string) returns (r: Result<()>)
      modifies this
      ensures old(constructors).None? ==> r == Fail(NullReference) && constructors == old(constructors)
      ensures old(constructors).Some? && name in old(constructors).value ==>
                r == Fail(Argument) && constructors == old(constructors)
      ensures old(constructors).Some? && name !in old(constructors).value ==>
                r == Ok(()) && constructors == Some(old(constructors).value + {name})
    {
      if constructors.None? {
        return Fail(NullReference);
      }
      if name in constructors.value {
        return Fail(Argument);
      }
      constructors := Some(constructors.value + {name});
      r := Ok(());
    }

    /** The constructor's body: the nine registrations in the order of
        `RegisteredNames`, stopping at the first that fails.  They all succeed exactly when the table exists and holds none of the
        names; a name already present fails the call after the registrations before
        it have been made. */
    method RegisterDefaults() returns (r: Result<()>)
      modifies this
      ensures old(constructors).None? ==> r == Fail(NullReference) && constructors == old(constructors)
      ensures r.Ok? <==> old(constructors).Some? && old(constructors).value !! DictionaryTypeNames
      ensures r.Ok? ==> constructors == Some(old(constructors).value + DictionaryTypeNames)
      ensures old(constructors).Some? && r.Fail? ==>
                r == Fail(Argument) && constructors.Some? &&
                old(constructors).value <= constructors.value <= old(constructors).value + DictionaryTypeNames
    {
      ghost var base := if constructors.Some? then constructors.value else {};
      assert base + RegisteredBefore(0) == base;
      var _ :- Register(0, base);
      var _ :- Register(1, base);
      var _ :- Register(2, base);
      var _ :- Register(3, base);
      var _ :- Register(4, base);
      var _ :- Register(5, base);
      var _ :- Register(6, base);
      var _ :- Register(7, base);
      var _ :- Register(8, base);
      r := Ok(());
    }

    /** One registration of the constructor's body: the `i`-th name, into the table
        `base` the body started from plus the names registered before it. */
    method Register(i: nat, ghost base: set<string>) returns (r: Result<()>)
      requires i < |RegisteredNames|
      requires (i == 0 && constructors.None?) ||
               (constructors == Some(base + RegisteredBefore(i)) && base !! RegisteredBefore(i))
      modifies this
      ensures old(constructors).None? ==> r == Fail(NullReference) && constructors == old(constructors)
      ensures old(constructors).Some? && r.Fail? ==>
                r == Fail(Argument) && constructors == old(constructors) && !(base !! DictionaryTypeNames) &&
                base <= constructors.value <= base + DictionaryTypeNames
      ensures r.Ok? ==> constructors == Some(base + RegisteredBefore(i + 1)) && base !! RegisteredBefore(i + 1)
    {
      NotYetRegistered(i);
      r := Add(RegisteredNames[i]);
      assert r.Ok? ==> base + RegisteredBefore(i) + {RegisteredNames[i]} == base + RegisteredBefore(i + 1);
    }

    /** Looks the name up; only on a hit is a dictionary built, fresh and empty.  A
        null table fails. */
    method TryGetInstance(typeName: string) returns (r: Result<bool>, instance: ObjectDictionary?)
      ensures constructors.None? ==> r == Fail(NullReference) && instance == null
      ensures constructors.Some? ==> r.Ok? && (r.value <==> typeName in constructors.value)
      ensures !(r == Ok(true)) ==> instance == null
      ensures r == Ok(true) ==> instance != null && fresh(instance) && instance.entries == map[]
    {
      instance := null;
      if constructors.None? {
        return Fail(NullReference), null;
      }
      if typeName !in constructors.value {
        return Ok(false), null;
      }
      instance := DefaultCtor();
      r := Ok(true);
    }
  }

  /** Construction as written: the first registration goes through the null table. */
  method New() returns (r: Result<DictionaryTypeResolver>)
    ensures r == Fail(NullReference)
  {
    var resolver := new DictionaryTypeResolver.Unallocated();
    var registered := resolver.RegisterDefaults();
    r := registered.Map((_: ()) => resolver);
  }
}
