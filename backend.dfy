/**
 * The wrapped store. The wrapper only needs the store's operations; this module gives them a
 * simple in-memory meaning: one shared medium holding a table per collection, and a store object
 * bound to one collection of it (so a derived collection writes to the same medium).
 */
module Backend {
  import opened ConfigValues
  import opened Tables

  /** A mutating call made on a store, recorded whether or not it succeeded. */
  datatype Call =
    | WriteCall(collection: string, name: string, data: Data)
    | DeleteCall(collection: string, name: string)
    | RenameCall(collection: string, name: string, newName: string)
    | DeleteAllCall(collection: string, prefix: string)

  /** The serialisation a store uses; left uninterpreted. */
  datatype Codec = Codec(encode: Data -> string, decode: string -> Data)

  /** The medium every collection lives in: collection name -> that collection's entries. */
  class Memory {
    var config: Table<Table<Data>>
    /** Whether the medium accepts changes; when it does not, every mutating call reports FALSE. */
    const writable: bool
    /** Every mutating call made on a store over this medium, in order. */
    ghost var log: seq<Call>

    ghost predicate Valid()
      reads this
    {
      config.Valid() && forall c :: c in config.values ==> config.values[c].Valid()
    }

    constructor (writable: bool)
      ensures Valid() && config == EmptyTable() && this.writable == writable && log == []
    {
      config := EmptyTable();
      this.writable := writable;
      log := [];
    }
  }

  class Store {
    const memory: Memory
    const collection: string
    const codec: Codec

    constructor (memory: Memory, collection: string, codec: Codec)
      ensures this.memory == memory && this.collection == collection && this.codec == codec
    {
      this.memory := memory;
      this.collection := collection;
      this.codec := codec;
    }

    /** The entries of this store's collection. */
    function Entries(): (t: Table<Data>)
      reads memory
      ensures memory.Valid() ==> t.Valid()
    {
      match memory.config.Get(collection)
      case Some(t) => t
      case None => EmptyTable()
    }

    function Exists(name: string): bool
      reads memory
    {
      Entries().Get(name).Some?
    }

    function Read(name: string): Option<Data>
      reads memory
    {
      Entries().Get(name)
    }

    /** The entries among `names` that exist. */
    function ReadMultiple(names: seq<string>): (r: map<string, Data>)
      reads memory
      ensures forall n :: n in r <==> n in names && Exists(n)
      ensures forall n :: n in r ==> Read(n) == Some(r[n])
    {
      map n | n in names && n in Entries().values :: Entries().values[n]
    }

    function ListAll(prefix: string): seq<string>
      reads memory
    {
      Entries().Listing(prefix)
    }

    function Encode(data: Data): string
    {
      codec.encode(data)
    }

    function Decode(raw: string): Data
    {
      codec.decode(raw)
    }

    /** The collections of the medium other than the default one, in the order they were created. */
    function GetAllCollectionNames(): (r: seq<string>)
      reads memory
      ensures DefaultCollection !in r
    {
      Select(memory.config.names, (c: string) => c != DefaultCollection)
    }

    function GetCollectionName(): string
    {
      collection
    }

    /** The medium's state once this collection's entries are replaced by `t`. */
    function WithEntries(t: Table<Data>): (r: Table<Table<Data>>)
      reads memory
      ensures memory.Valid() && t.Valid() ==> r.Valid() && forall c :: c in r.values ==> r.values[c].Valid()
      ensures r.Get(collection) == Some(t)
      ensures forall c :: c != collection ==> r.Get(c) == memory.config.Get(c)
    {
      memory.config.Put(collection, t)
    }

    method Write(name: string, data: Data) returns (ok: bool)
      modifies memory
      ensures ok == memory.writable
      ensures memory.config == if ok then old(WithEntries(Entries().Put(name, data))) else old(memory.config)
      ensures memory.log == old(memory.log) + [WriteCall(collection, name, data)]
      ensures old(memory.Valid()) ==> memory.Valid()
    {
      ok := memory.writable;
      if ok {
        memory.config := WithEntries(Entries().Put(name, data));
      }
      memory.log := memory.log + [WriteCall(collection, name, data)];
    }

    /** Deleting a missing entry reports FALSE. */
    method Delete(name: string) returns (ok: bool)
      modifies memory
      ensures ok == (memory.writable && old(Exists(name)))
      ensures memory.config == if ok then old(WithEntries(Entries().Remove(name))) else old(memory.config)
      ensures memory.log == old(memory.log) + [DeleteCall(collection, name)]
      ensures old(memory.Valid()) ==> memory.Valid()
    {
      ok := memory.writable && Exists(name);
      if ok {
        memory.config := WithEntries(Entries().Remove(name));
      }
      memory.log := memory.log + [DeleteCall(collection, name)];
    }

    /** Moves the data of `name` to `newName`, replacing what was there; a missing `name` reports FALSE. */
    method Rename(name: string, newName: string) returns (ok: bool)
      modifies memory
      ensures ok == (memory.writable && old(Exists(name)))
      ensures memory.config == if ok then old(WithEntries(Entries().Remove(name).Put(newName, Entries().values[name]))) else old(memory.config)
      ensures memory.log == old(memory.log) + [RenameCall(collection, name, newName)]
      ensures old(memory.Valid()) ==> memory.Valid()
    {
      ok := memory.writable && Exists(name);
      if ok {
        memory.config := WithEntries(Entries().Remove(name).Put(newName, Entries().values[name]));
      }
      memory.log := memory.log + [RenameCall(collection, name, newName)];
    }

    method DeleteAll(prefix: string) returns (ok: bool)
      modifies memory
      ensures ok == memory.writable
      ensures memory.config == if ok then old(WithEntries(Entries().RemovePrefixed(prefix))) else old(memory.config)
      ensures memory.log == old(memory.log) + [DeleteAllCall(collection, prefix)]
      ensures old(memory.Valid()) ==> memory.Valid()
    {
      ok := memory.writable;
      if ok {
        memory.config := WithEntries(Entries().RemovePrefixed(prefix));
      }
      memory.log := memory.log + [DeleteAllCall(collection, prefix)];
    }

    /** A store for another collection of the same medium. */
    method CreateCollection(collection: string) returns (s: Store)
      ensures fresh(s)
      ensures s.memory == memory && s.collection == collection && s.codec == codec
    {
      s := new Store(memory, collection, codec);
    }
  }
}
