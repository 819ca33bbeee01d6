/**
 * A store that wraps another store: read results are filtered on the way out, write arguments on
 * the way in, and deletions, renames and bulk deletions can be vetoed by the filters.
 */
module ConfigSplit {
  import opened ConfigValues
  import opened Tables
  import opened Backend
  import opened Filters

  /** What the constructor accepts: one filter, or a list of them. */
  datatype FilterOrFilters = Single(filter: Filter) | Several(filters: seq<Filter>)

  class StorageWrapper {
    /** The wrapped store. */
    const storage: Store
    /** The chain, in the order the filters are applied; fixed at construction. */
    const filters: seq<Filter>

    constructor (storage: Store, filterOrFilters: FilterOrFilters)
      ensures this.storage == storage
      ensures filterOrFilters.Single? ==> filters == [filterOrFilters.filter]
      ensures filterOrFilters.Several? ==> filters == filterOrFilters.filters
    {
      this.storage := storage;
      filters := match filterOrFilters
        case Single(f) => [f]
        case Several(fs) => fs;
    }

    method Exists(name: string) returns (r: bool)
      ensures r == Chain(filters, ExistsStep(name), storage.Exists(name))
    {
      r := storage.Exists(name);
      ghost var raw := r;
      for i := 0 to |filters|
        invariant r == Chain(filters[..i], ExistsStep(name), raw)
      {
        assert filters[..i + 1][..i] == filters[..i];
        r := filters[i].filterExists(name, r);
      }
      assert filters[..|filters|] == filters;
    }

    method Read(name: string) returns (r: Option<Data>)
      ensures r == Chain(filters, ReadStep(name), storage.Read(name))
    {
      r := storage.Read(name);
      ghost var raw := r;
      for i := 0 to |filters|
        invariant r == Chain(filters[..i], ReadStep(name), raw)
      {
        assert filters[..i + 1][..i] == filters[..i];
        r := filters[i].filterRead(name, r);
      }
      assert filters[..|filters|] == filters;
    }

    method ReadMultiple(names: seq<string>) returns (r: map<string, Data>)
      ensures r == Chain(filters, ReadMultipleStep(names), storage.ReadMultiple(names))
    {
      r := storage.ReadMultiple(names);
      ghost var raw := r;
      for i := 0 to |filters|
        invariant r == Chain(filters[..i], ReadMultipleStep(names), raw)
      {
        assert filters[..i + 1][..i] == filters[..i];
        r := filters[i].filterReadMultiple(names, r);
      }
      assert filters[..|filters|] == filters;
    }

    /** The data `write` ends up with: `data` through the chain, given the store as it is now. */
    ghost function Filtered(name: string, data: Data): Data
      reads storage.memory
    {
      Chain(filters, WriteStep(name, storage.Entries()), data)
    }

    /**
     * Filters `data` and stores what is left. `invoked` lists the filters whose `filterWrite` was
     * called, `asked` lists the filters asked whether an empty write means delete.
     */
    method Write(name: string, data: Data) returns (ok: bool, ghost invoked: seq<nat>, ghost asked: seq<nat>)
      modifies storage.memory
      ensures forall i :: i in invoked <==>
        0 <= i < |filters| && Chain(filters[..i], WriteStep(name, old(storage.Entries())), data) != map[]
      ensures old(Filtered(name, data)) != map[] ==>
        && ok == storage.memory.writable
        && storage.memory.config == (if ok then old(storage.WithEntries(storage.Entries().Put(name, Filtered(name, data)))) else old(storage.memory.config))
        && storage.memory.log == old(storage.memory.log) + [WriteCall(storage.collection, name, old(Filtered(name, data)))]
        && asked == []
      ensures old(Filtered(name, data)) == map[] && !old(storage.Exists(name)) ==>
        ok && unchanged(storage.memory) && asked == []
      ensures old(Filtered(name, data)) == map[] && old(storage.Exists(name)) ==>
        match FirstDeleter(filters, name)
        case Some(k) =>
          && asked == Positions(k + 1)
          && ok == storage.memory.writable
          && storage.memory.config == (if ok then old(storage.WithEntries(storage.Entries().Remove(name))) else old(storage.memory.config))
          && storage.memory.log == old(storage.memory.log) + [DeleteCall(storage.collection, name)]
        case None =>
          asked == Positions(|filters|) && ok && unchanged(storage.memory)
      ensures old(storage.memory.Valid()) ==> storage.memory.Valid()
    {
      ghost var snapshot := storage.Entries();
      var d := data;
      invoked := [];
      for i := 0 to |filters|
        invariant unchanged(storage.memory)
        invariant d == Chain(filters[..i], WriteStep(name, snapshot), data)
        invariant forall k :: k in invoked <==> 0 <= k < i && Chain(filters[..k], WriteStep(name, snapshot), data) != map[]
      {
        assert filters[..i + 1][..i] == filters[..i];
        if d != map[] {
          d := filters[i].filterWrite(name, d, storage.Entries());
          invoked := invoked + [i];
        }
      }
      assert filters[..|filters|] == filters;
      asked := [];

      assert d == Filtered(name, data);
      if d != map[] {
        ok := storage.Write(name, d);
        return;
      }

      if storage.Exists(name) {
        for i := 0 to |filters|
          invariant asked == Positions(i)
          invariant forall k :: 0 <= k < i ==> !filters[k].filterWriteEmptyIsDelete(name)
        {
          asked := asked + [i];
          if filters[i].filterWriteEmptyIsDelete(name) {
            ok := storage.Delete(name);
            return;
          }
        }
      }

      // Nothing was written, and that is not an error.
      ok := true;
    }

    /** The chain's verdict, starting from TRUE, decides whether the store is asked to delete. */
    method Delete(name: string) returns (ok: bool)
      modifies storage.memory
      ensures !Chain(filters, DeleteStep(name), true) ==> !ok && unchanged(storage.memory)
      ensures Chain(filters, DeleteStep(name), true) ==>
        && ok == (storage.memory.writable && old(storage.Exists(name)))
        && storage.memory.config == (if ok then old(storage.WithEntries(storage.Entries().Remove(name))) else old(storage.memory.config))
        && storage.memory.log == old(storage.memory.log) + [DeleteCall(storage.collection, name)]
      ensures old(storage.memory.Valid()) ==> storage.memory.Valid()
    {
      ok := true;
      for i := 0 to |filters|
        invariant ok == Chain(filters[..i], DeleteStep(name), true)
      {
        assert filters[..i + 1][..i] == filters[..i];
        ok := filters[i].filterDelete(name, ok);
      }
      assert filters[..|filters|] == filters;
      if ok {
        ok := storage.Delete(name);
      }
    }

    method Rename(name: string, newName: string) returns (ok: bool)
      modifies storage.memory
      ensures !Chain(filters, RenameStep(name, newName), true) ==> !ok && unchanged(storage.memory)
      ensures Chain(filters, RenameStep(name, newName), true) ==>
        && ok == (storage.memory.writable && old(storage.Exists(name)))
        && storage.memory.config == (if ok then old(storage.WithEntries(storage.Entries().Remove(name).Put(newName, storage.Entries().values[name]))) else old(storage.memory.config))
        && storage.memory.log == old(storage.memory.log) + [RenameCall(storage.collection, name, newName)]
      ensures old(storage.memory.Valid()) ==> storage.memory.Valid()
    {
      ok := true;
      for i := 0 to |filters|
        invariant ok == Chain(filters[..i], RenameStep(name, newName), true)
      {
        assert filters[..i + 1][..i] == filters[..i];
        ok := filters[i].filterRename(name, newName, ok);
      }
      assert filters[..|filters|] == filters;
      if ok {
        ok := storage.Rename(name, newName);
      }
    }

    method Encode(data: Data) returns (raw: string)
      ensures raw == storage.codec.encode(data)
    {
      raw := storage.Encode(data);
    }

    method Decode(raw: string) returns (data: Data)
      ensures data == storage.codec.decode(raw)
    {
      data := storage.Decode(raw);
    }

    method ListAll(prefix: string) returns (r: seq<string>)
      ensures r == Chain(filters, ListAllStep(prefix), storage.ListAll(prefix))
    {
      r := storage.ListAll(prefix);
      ghost var raw := r;
      for i := 0 to |filters|
        invariant r == Chain(filters[..i], ListAllStep(prefix), raw)
      {
        assert filters[..i + 1][..i] == filters[..i];
        r := filters[i].filterListAll(prefix, r);
      }
      assert filters[..|filters|] == filters;
    }

    method DeleteAll(prefix: string) returns (ok: bool)
      modifies storage.memory
      ensures !Chain(filters, DeleteAllStep(prefix), true) ==> !ok && unchanged(storage.memory)
      ensures Chain(filters, DeleteAllStep(prefix), true) ==>
        && ok == storage.memory.writable
        && storage.memory.config == (if ok then old(storage.WithEntries(storage.Entries().RemovePrefixed(prefix))) else old(storage.memory.config))
        && storage.memory.log == old(storage.memory.log) + [DeleteAllCall(storage.collection, prefix)]
      ensures old(storage.memory.Valid()) ==> storage.memory.Valid()
    {
      ok := true;
      for i := 0 to |filters|
        invariant ok == Chain(filters[..i], DeleteAllStep(prefix), true)
      {
        assert filters[..i + 1][..i] == filters[..i];
        ok := filters[i].filterDeleteAll(prefix, ok);
      }
      assert filters[..|filters|] == filters;
      if ok {
        ok := storage.DeleteAll(prefix);
      }
    }

    /** A wrapper for another collection of the same medium, with the chain the filters derive for it. */
    method CreateCollection(collection: string) returns (child: StorageWrapper)
      ensures fresh(child) && fresh(child.storage)
      ensures child.storage.memory == storage.memory && child.storage.collection == collection
      ensures child.storage.codec == storage.codec
      ensures child.filters == Derived(filters, collection)
    {
      var fs: seq<Filter> := [];
      for i := 0 to |filters|
        invariant fs == Derived(filters[..i], collection)
      {
        assert filters[..i + 1][..i] == filters[..i];
        var f := filters[i].filterCreateCollection(collection);
        if f.Some? {
          fs := fs + [f.value];
        }
      }
      assert filters[..|filters|] == filters;
      var s := storage.CreateCollection(collection);
      child := new StorageWrapper(s, Several(fs));
    }

    method GetAllCollectionNames() returns (r: seq<string>)
      ensures r == Chain(filters, AllCollectionNamesStep(), storage.GetAllCollectionNames())
    {
      r := storage.GetAllCollectionNames();
      ghost var raw := r;
      for i := 0 to |filters|
        invariant r == Chain(filters[..i], AllCollectionNamesStep(), raw)
      {
        assert filters[..i + 1][..i] == filters[..i];
        r := filters[i].filterGetAllCollectionNames(r);
      }
      assert filters[..|filters|] == filters;
    }

    method GetCollectionName() returns (r: string)
      ensures r == Chain(filters, CollectionNameStep(), storage.collection)
    {
      r := storage.GetCollectionName();
      ghost var raw := r;
      for i := 0 to |filters|
        invariant r == Chain(filters[..i], CollectionNameStep(), raw)
      {
        assert filters[..i + 1][..i] == filters[..i];
        r := filters[i].filterGetCollectionName(r);
      }
      assert filters[..|filters|] == filters;
    }
  }
}
