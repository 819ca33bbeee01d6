/**
 * The filter contract the wrapper drives, and the meaning of running a chain of filters.
 * A filter is a record of total functions, one per interception point; what a filter decides is
 * left uninterpreted.
 */
module Filters {
  import opened ConfigValues
  import opened Tables

  datatype Filter = Filter(
    filterRead: (string, Option<Data>) -> Option<Data>,
    filterWrite: (string, Data, Table<Data>) -> Data,
    filterWriteEmptyIsDelete: string -> bool,
    filterExists: (string, bool) -> bool,
    filterDelete: (string, bool) -> bool,
    filterReadMultiple: (seq<string>, map<string, Data>) -> map<string, Data>,
    filterRename: (string, string, bool) -> bool,
    filterListAll: (string, seq<string>) -> seq<string>,
    filterDeleteAll: (string, bool) -> bool,
    filterCreateCollection: string -> Option<Filter>,
    filterGetAllCollectionNames: seq<string> -> seq<string>,
    filterGetCollectionName: string -> string)

  /**
   * The left fold of `step` over the chain: `x` goes through fs[0] first and fs[|fs|-1] last.
   * Written from the end so that a loop over the chain keeps `acc == Chain(fs[..i], step, x)`.
   */
  function Chain<T>(fs: seq<Filter>, step: (Filter, T) -> T, x: T): T
    decreases |fs|
  {
    if fs == [] then x else step(fs[|fs| - 1], Chain(fs[..|fs| - 1], step, x))
  }

  // One step per interception point: how one filter turns the accumulated value into the next.

  function ExistsStep(name: string): (Filter, bool) -> bool
  {
    (f: Filter, b: bool) => f.filterExists(name, b)
  }

  function ReadStep(name: string): (Filter, Option<Data>) -> Option<Data>
  {
    (f: Filter, d: Option<Data>) => f.filterRead(name, d)
  }

  function ReadMultipleStep(names: seq<string>): (Filter, map<string, Data>) -> map<string, Data>
  {
    (f: Filter, d: map<string, Data>) => f.filterReadMultiple(names, d)
  }

  /** Once the data is empty it is not handed to any further filter. */
  function WriteStep(name: string, snapshot: Table<Data>): (Filter, Data) -> Data
  {
    (f: Filter, d: Data) => if d == map[] then d else f.filterWrite(name, d, snapshot)
  }

  function DeleteStep(name: string): (Filter, bool) -> bool
  {
    (f: Filter, b: bool) => f.filterDelete(name, b)
  }

  function RenameStep(name: string, newName: string): (Filter, bool) -> bool
  {
    (f: Filter, b: bool) => f.filterRename(name, newName, b)
  }

  function ListAllStep(prefix: string): (Filter, seq<string>) -> seq<string>
  {
    (f: Filter, s: seq<string>) => f.filterListAll(prefix, s)
  }

  function DeleteAllStep(prefix: string): (Filter, bool) -> bool
  {
    (f: Filter, b: bool) => f.filterDeleteAll(prefix, b)
  }

  function AllCollectionNamesStep(): (Filter, seq<string>) -> seq<string>
  {
    (f: Filter, s: seq<string>) => f.filterGetAllCollectionNames(s)
  }

  function CollectionNameStep(): (Filter, string) -> string
  {
    (f: Filter, c: string) => f.filterGetCollectionName(c)
  }

  /** The chain of a derived collection: the non-absent answers of `filterCreateCollection`, in chain order. */
  function Derived(fs: seq<Filter>, collection: string): (r: seq<Filter>)
    ensures |r| <= |fs|
    ensures forall g :: g in r <==> exists i :: 0 <= i < |fs| && fs[i].filterCreateCollection(collection) == Some(g)
    decreases |fs|
  {
    if fs == [] then []
    else
      var prefix := Derived(fs[..|fs| - 1], collection);
      assert forall i :: 0 <= i < |fs| - 1 ==> fs[..|fs| - 1][i] == fs[i];
      match fs[|fs| - 1].filterCreateCollection(collection)
      case Some(g) => prefix + [g]
      case None => prefix
  }

  /** The positions 0, 1, ..., n - 1 of a chain, in order. */
  function Positions(n: nat): (r: seq<nat>)
    ensures |r| == n && forall i :: 0 <= i < n ==> r[i] == i
  {
    if n == 0 then [] else Positions(n - 1) + [n - 1]
  }

  /** The first filter, in chain order, that treats an empty write as a delete. */
  function FirstDeleter(fs: seq<Filter>, name: string): (r: Option<nat>)
    ensures r.Some? ==> r.value < |fs| && fs[r.value].filterWriteEmptyIsDelete(name)
    ensures forall k :: 0 <= k < |fs| && (r.None? || k < r.value) ==> !fs[k].filterWriteEmptyIsDelete(name)
  {
    if fs == [] then None
    else if fs[0].filterWriteEmptyIsDelete(name) then Some(0)
    else
      match FirstDeleter(fs[1..], name)
      case None => None
      case Some(k) => Some(k + 1)
  }
}
