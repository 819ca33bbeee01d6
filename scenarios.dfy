/** Client code: what a caller can conclude from the wrapper's contracts alone. */
module Scenarios {
  import opened ConfigValues
  import opened Tables
  import opened Backend
  import opened Filters
  import opened FilterLaws
  import opened ConfigSplit

  /** A filter that drops everything written through it and asks for the entry to be deleted instead. */
  function Eraser(): Filter
  {
    PassThrough().(
      filterWrite := (name: string, d: Data, snapshot: Table<Data>) => map[],
      filterWriteEmptyIsDelete := (name: string) => true)
  }

  /** A filter that drops everything written through it but does not ask for a delete. */
  function Emptier(): Filter
  {
    PassThrough().(filterWrite := (name: string, d: Data, snapshot: Table<Data>) => map[])
  }

  /** A filter that treats an empty write as a delete. */
  function Affirmer(): Filter
  {
    PassThrough().(filterWriteEmptyIsDelete := (name: string) => true)
  }

  /** A filter that vetoes every deletion. */
  function Keeper(): Filter
  {
    PassThrough().(filterDelete := (name: string, b: bool) => false)
  }

  method EmptiedWriteDeletes()
  {
    var memory := new Memory(true);
    var store := new Store(memory, DefaultCollection, Codec((d: Data) => "", (s: string) => map[]));
    var data: Data := map["langcode" := Scalar("en")];
    var written := store.Write("system.site", data);
    assert store.Exists("system.site");

    var wrapper := new StorageWrapper(store, Several([Eraser(), PassThrough()]));
    assert wrapper.filters == [Eraser(), PassThrough()];
    assert [Eraser(), PassThrough()][..1] == [Eraser()];
    assert [Eraser()][..0] == [];
    assert wrapper.Filtered("system.site", data) == map[];
    var log := memory.log;
    ghost var snapshot := store.Entries();
    assert "langcode" in data;
    assert Chain(wrapper.filters[..0], WriteStep("system.site", snapshot), data) == data != map[];
    assert Chain(wrapper.filters[..1], WriteStep("system.site", snapshot), data) == map[];
    var ok, invoked, asked := wrapper.Write("system.site", data);
    // Only the eraser saw the data, and the first filter to be asked decided on a delete.
    assert 0 in invoked && 1 !in invoked;
    assert forall i :: i in invoked ==> i == 0;
    assert asked == [0];
    assert ok && !store.Exists("system.site");
    assert memory.log == log + [DeleteCall(DefaultCollection, "system.site")];

    // An empty write to an entry that is not there changes nothing and still reports success.
    ok, invoked, asked := wrapper.Write("system.site", data);
    assert ok && memory.log == log + [DeleteCall(DefaultCollection, "system.site")];
  }

  method SecondFilterDeletes()
  {
    var memory := new Memory(true);
    var store := new Store(memory, DefaultCollection, Codec((d: Data) => "", (s: string) => map[]));
    var data: Data := map["langcode" := Scalar("en")];
    var written := store.Write("system.site", data);

    var wrapper := new StorageWrapper(store, Several([Emptier(), Affirmer()]));
    assert [Emptier(), Affirmer()][..1] == [Emptier()];
    assert [Emptier()][..0] == [];
    assert FirstDeleter(wrapper.filters, "system.site") == Some(1);
    var log := memory.log;
    var ok, invoked, asked := wrapper.Write("system.site", data);
    // The first filter declined, so the second was asked too, and it decided on the one delete.
    assert asked == [0, 1];
    assert ok && !store.Exists("system.site");
    assert memory.log == log + [DeleteCall(DefaultCollection, "system.site")];
  }

  method VetoedDeleteLeavesStore()
  {
    var memory := new Memory(true);
    var store := new Store(memory, DefaultCollection, Codec((d: Data) => "", (s: string) => map[]));
    var written := store.Write("system.site", map["name" := Scalar("site")]);
    var wrapper := new StorageWrapper(store, Single(Keeper()));
    assert [Keeper()][..0] == [];
    var log := memory.log;
    var ok := wrapper.Delete("system.site");
    assert !ok && store.Exists("system.site") && memory.log == log;
  }
}
