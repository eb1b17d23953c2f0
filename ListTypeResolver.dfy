/** The list type resolver: maps the type name a serialized list carries to a
    factory for an empty container.  Eight names build a plain list; the generic
    `Collection` name builds a collection. */
module ListTypes {

  /** The two factories of the table. */
  datatype ListFactory = EmptyList | EmptyCollection

  /** A container the resolver hands out: its runtime kind and its elements. */
  class ObjectList {
    const kind: ListFactory
    var items: seq<object>

    constructor (kind: ListFactory)
      ensures this.kind == kind && items == []
    {
      this.kind := kind;
      items := [];
    }
  }

  const CollectionName: string := "System.Collections.ObjectModel.Collection`1"

  /** The nine registered names, in registration order. */
  const ListTypeNames: seq<string> := [
    "System.Collections.List",
    "System.Collections.IList",
    "System.Collections.Generic.List`1",
    "System.Collections.Generic.IList`1",
    CollectionName,
    "java.util.List",
    "java.util.Vector",
    "java.util.ArrayList",
    "java.util.LinkedList"
  ]

  class ListTypeResolver {
    /** Type name to the factory that builds its container. */
    var constructors: map<string, ListFactory>

    /** Registers the nine names; only the `Collection` name gets the collection
        factory. */
    constructor ()
      ensures constructors.Keys == set n | n in ListTypeNames
      ensures forall n :: n in constructors ==> constructors[n] == if n == CollectionName then EmptyCollection else EmptyList
    {
      constructors := map[];
      new;
      constructors := constructors["System.Collections.List" := EmptyList];
      constructors := constructors["System.Collections.IList" := EmptyList];
      constructors := constructors["System.Collections.Generic.List`1" := EmptyList];
      constructors := constructors["System.Collections.Generic.IList`1" := EmptyList];
      constructors := constructors[CollectionName := EmptyCollection];
      constructors := constructors["java.util.List" := EmptyList];
      constructors := constructors["java.util.Vector" := EmptyList];
      constructors := constructors["java.util.ArrayList" := EmptyList];
      constructors := constructors["java.util.LinkedList" := EmptyList];
    }

    /** Looks the name up; only on a hit is a container built, fresh and empty, by
        the factory registered for the name.  The table is left as it is. */
    method TryGetListInstance(typeName: string) returns (found: bool, list: ObjectList?)
      ensures found <==> typeName in constructors
      ensures !found ==> list == null
      ensures found ==> list != null && fresh(list) && list.items == [] && list.kind == constructors[typeName]
    {
      list := null;
      if typeName !in constructors {
        return false, null;
      }
      list := new ObjectList(constructors[typeName]);
      found := true;
    }
  }

  /** The two list interfaces resolve to non-null lists. */
  method ListInterfacesResolve() returns (nonGeneric: ObjectList?, generic: ObjectList?)
    ensures nonGeneric != null && nonGeneric.kind == EmptyList && nonGeneric.items == []
    ensures generic != null && generic.kind == EmptyList && generic.items == []
  {
    var resolver := new ListTypeResolver();
    assert "System.Collections.IList" == ListTypeNames[1];
    assert "System.Collections.Generic.IList`1" == ListTypeNames[3];
    var found;
    found, nonGeneric := resolver.TryGetListInstance("System.Collections.IList");
    found, generic := resolver.TryGetListInstance("System.Collections.Generic.IList`1");
  }
}
