/** What running a chain of filters means, independently of any particular filter. */
module FilterLaws {
  import opened ConfigValues
  import opened Tables
  import opened Filters

  /** Running a chain made of two parts runs the first part, then the second. */
  lemma {:induction false} ChainAppend<T>(a: seq<Filter>, b: seq<Filter>, step: (Filter, T) -> T, x: T)
    ensures Chain(a + b, step, x) == Chain(b, step, Chain(a, step, x))
    decreases |b|
  {
    if b == [] {
      assert a + b == a;
    } else {
      var b' := b[..|b| - 1];
      assert (a + b)[..|a + b| - 1] == a + b';
      ChainAppend(a, b', step, x);
    }
  }

  /** The first filter of the chain sees the backend's value; the rest see its answer. */
  lemma ChainCons<T>(f: Filter, fs: seq<Filter>, step: (Filter, T) -> T, x: T)
    ensures Chain([f] + fs, step, x) == Chain(fs, step, step(f, x))
  {
    ChainAppend([f], fs, step, x);
    assert [f][..0] == [];
  }

  /** For three filters the result is F3(F2(F1(x))). */
  lemma ChainOfThree<T>(f1: Filter, f2: Filter, f3: Filter, step: (Filter, T) -> T, x: T)
    ensures Chain([f1, f2, f3], step, x) == step(f3, step(f2, step(f1, x)))
  {
    assert [f1][..0] == [];
    assert Chain([f1], step, x) == step(f1, x);
    assert [f1, f2][..1] == [f1];
    assert Chain([f1, f2], step, x) == step(f2, step(f1, x));
    assert [f1, f2, f3][..2] == [f1, f2];
  }

  /** A filter that leaves the value of an operation unchanged. */
  ghost predicate Neutral<T(!new)>(step: (Filter, T) -> T, f: Filter)
  {
    forall y :: step(f, y) == y
  }

  /** Filters that do not care about an operation leave its result exactly as the backend gave it. */
  lemma {:induction false} ChainOfNeutral<T(!new)>(fs: seq<Filter>, step: (Filter, T) -> T, x: T)
    requires forall i :: 0 <= i < |fs| ==> Neutral(step, fs[i])
    ensures Chain(fs, step, x) == x
    decreases |fs|
  {
    if fs != [] {
      var p := fs[..|fs| - 1];
      assert forall i :: 0 <= i < |p| ==> p[i] == fs[i];
      ChainOfNeutral(p, step, x);
      assert Neutral(step, fs[|fs| - 1]);
    }
  }

  // ---- write: the short-circuit once the data is empty

  /** Empty data passes the whole chain untouched: no filter's `filterWrite` gets to see it. */
  lemma {:induction false} WriteKeepsEmpty(fs: seq<Filter>, name: string, snapshot: Table<Data>)
    ensures Chain(fs, WriteStep(name, snapshot), map[]) == map[]
    decreases |fs|
  {
    if fs != [] {
      WriteKeepsEmpty(fs[..|fs| - 1], name, snapshot);
    }
  }

  /** Once the first part of the chain has emptied the data, the rest of the chain cannot change it. */
  lemma WriteIgnoresLater(a: seq<Filter>, b: seq<Filter>, name: string, snapshot: Table<Data>, data: Data)
    requires Chain(a, WriteStep(name, snapshot), data) == map[]
    ensures Chain(a + b, WriteStep(name, snapshot), data) == map[]
  {
    ChainAppend(a, b, WriteStep(name, snapshot), data);
    WriteKeepsEmpty(b, name, snapshot);
  }

  /** Once the data is empty after `i` filters, it stays empty after every later filter. */
  lemma WriteStaysEmpty(fs: seq<Filter>, i: nat, name: string, snapshot: Table<Data>, data: Data)
    requires i <= |fs|
    requires Chain(fs[..i], WriteStep(name, snapshot), data) == map[]
    ensures forall j :: i <= j <= |fs| ==> Chain(fs[..j], WriteStep(name, snapshot), data) == map[]
  {
    forall j | i <= j <= |fs|
      ensures Chain(fs[..j], WriteStep(name, snapshot), data) == map[]
    {
      assert fs[..j] == fs[..i] + fs[i..j];
      WriteIgnoresLater(fs[..i], fs[i..j], name, snapshot, data);
    }
  }

  /** A filter whose `filterWrite` keeps non-empty data non-empty. */
  ghost predicate KeepsData(f: Filter, name: string, snapshot: Table<Data>)
  {
    forall d: Data :: d != map[] ==> f.filterWrite(name, d, snapshot) != map[]
  }

  /** If no filter empties non-empty data, non-empty data reaches the backend. */
  lemma {:induction false} WriteReachesBackend(fs: seq<Filter>, name: string, snapshot: Table<Data>, data: Data)
    requires data != map[]
    requires forall i :: 0 <= i < |fs| ==> KeepsData(fs[i], name, snapshot)
    ensures Chain(fs, WriteStep(name, snapshot), data) != map[]
    decreases |fs|
  {
    if fs != [] {
      var p := fs[..|fs| - 1];
      assert forall i :: 0 <= i < |p| ==> p[i] == fs[i];
      WriteReachesBackend(p, name, snapshot, data);
      assert KeepsData(fs[|fs| - 1], name, snapshot);
    }
  }

  // ---- write: the first filter that treats an empty write as a delete

  /** The answer is decided by the filters up to the first affirming one; later filters do not matter. */
  lemma {:induction false} FirstDeleterIgnoresLater(a: seq<Filter>, b: seq<Filter>, name: string)
    requires FirstDeleter(a, name).Some?
    ensures FirstDeleter(a + b, name) == FirstDeleter(a, name)
  {
    if !a[0].filterWriteEmptyIsDelete(name) {
      assert (a + b)[1..] == a[1..] + b;
      FirstDeleterIgnoresLater(a[1..], b, name);
    }
  }

  /** If no filter of `a` affirms, the decision falls to `b`, shifted by the length of `a`. */
  lemma {:induction false} FirstDeleterSkips(a: seq<Filter>, b: seq<Filter>, name: string)
    requires FirstDeleter(a, name).None?
    ensures FirstDeleter(a + b, name) ==
      match FirstDeleter(b, name) case None => None case Some(k) => Some(|a| + k)
  {
    if a == [] {
      assert a + b == b;
    } else {
      assert (a + b)[1..] == a[1..] + b;
      FirstDeleterSkips(a[1..], b, name);
    }
  }

  // ---- createCollection: the derived chain

  /** Deriving a chain made of two parts derives each part and concatenates, so the order is kept. */
  lemma {:induction false} DerivedAppend(a: seq<Filter>, b: seq<Filter>, collection: string)
    ensures Derived(a + b, collection) == Derived(a, collection) + Derived(b, collection)
    decreases |b|
  {
    if b == [] {
      assert a + b == a;
    } else {
      var b' := b[..|b| - 1];
      assert (a + b)[..|a + b| - 1] == a + b';
      DerivedAppend(a, b', collection);
    }
  }

  /** One filter contributes its own answer, or nothing when it opts out. */
  lemma DerivedSingle(f: Filter, collection: string)
    ensures Derived([f], collection) ==
      match f.filterCreateCollection(collection) case Some(g) => [g] case None => []
  {
    assert [f][..0] == [];
  }

  /** Of filters A, B, C where B opts out, the derived chain is A's answer followed by C's. */
  lemma DerivedWithOptOut(a: Filter, b: Filter, c: Filter, collection: string, a': Filter, c': Filter)
    requires a.filterCreateCollection(collection) == Some(a')
    requires b.filterCreateCollection(collection) == None
    requires c.filterCreateCollection(collection) == Some(c')
    ensures Derived([a, b, c], collection) == [a', c']
  {
    assert [a][..0] == [];
    assert Derived([a], collection) == [a'];
    assert [a, b][..1] == [a];
    assert Derived([a, b], collection) == [a'];
    assert [a, b, c][..2] == [a, b];
    assert Derived([a, b, c], collection) == [a'] + [c'];
  }

  /** A filter at the end of the chain contributes its answer at the end of the derived chain. */
  lemma DerivedSnoc(fs: seq<Filter>, f: Filter, collection: string, g: Filter)
    requires f.filterCreateCollection(collection) == Some(g)
    ensures Derived(fs + [f], collection) == Derived(fs, collection) + [g]
  {
    assert (fs + [f])[..|fs|] == fs;
  }

  /** When every filter takes part, the derived chain has one filter per parent filter, in the same place. */
  lemma {:induction false} DerivedAllTakePart(fs: seq<Filter>, collection: string)
    requires forall i :: 0 <= i < |fs| ==> fs[i].filterCreateCollection(collection).Some?
    ensures |Derived(fs, collection)| == |fs|
    ensures forall i :: 0 <= i < |fs| ==> Some(Derived(fs, collection)[i]) == fs[i].filterCreateCollection(collection)
    decreases |fs|
  {
    if fs != [] {
      var p, f := fs[..|fs| - 1], fs[|fs| - 1];
      assert fs == p + [f];
      assert forall i :: 0 <= i < |p| ==> p[i] == fs[i];
      DerivedAllTakePart(p, collection);
      DerivedSnoc(p, f, collection, f.filterCreateCollection(collection).value);
    }
  }

  /** When every filter opts out, the derived collection has no filters at all. */
  lemma {:induction false} DerivedAllOptOut(fs: seq<Filter>, collection: string)
    requires forall i :: 0 <= i < |fs| ==> fs[i].filterCreateCollection(collection).None?
    ensures Derived(fs, collection) == []
    decreases |fs|
  {
    if fs != [] {
      var p := fs[..|fs| - 1];
      assert forall i :: 0 <= i < |p| ==> p[i] == fs[i];
      DerivedAllOptOut(p, collection);
    }
  }

  // ---- idempotence of a chain

  ghost predicate Idempotent<T(!new)>(step: (Filter, T) -> T, f: Filter)
  {
    forall x :: step(f, step(f, x)) == step(f, x)
  }

  ghost predicate Commute<T(!new)>(step: (Filter, T) -> T, f: Filter, g: Filter)
  {
    forall x :: step(f, step(g, x)) == step(g, step(f, x))
  }

  /** A filter that commutes with every filter of a chain can be applied before or after it. */
  lemma {:induction false} CommuteThrough<T(!new)>(f: Filter, fs: seq<Filter>, step: (Filter, T) -> T, x: T)
    requires forall i :: 0 <= i < |fs| ==> Commute(step, f, fs[i])
    ensures Chain(fs, step, step(f, x)) == step(f, Chain(fs, step, x))
    decreases |fs|
  {
    if fs != [] {
      var p := fs[..|fs| - 1];
      assert forall i :: 0 <= i < |p| ==> p[i] == fs[i];
      CommuteThrough(f, p, step, x);
      assert Commute(step, f, fs[|fs| - 1]);
    }
  }

  /**
   * Filtering a result twice with the same chain gives what filtering it once gives, when the
   * filters are idempotent and commute with one another.
   */
  lemma {:induction false} ChainIdempotent<T(!new)>(fs: seq<Filter>, step: (Filter, T) -> T, x: T)
    requires forall i :: 0 <= i < |fs| ==> Idempotent(step, fs[i])
    requires forall i, j :: 0 <= i < j < |fs| ==> Commute(step, fs[j], fs[i])
    ensures Chain(fs, step, Chain(fs, step, x)) == Chain(fs, step, x)
    decreases |fs|
  {
    if fs != [] {
      var p := fs[..|fs| - 1];
      var f := fs[|fs| - 1];
      assert forall i :: 0 <= i < |p| ==> p[i] == fs[i];
      var once := Chain(p, step, x);
      CommuteThrough(f, p, step, once);
      ChainIdempotent(p, step, x);
      assert Idempotent(step, f);
    }
  }

  /** A filter that lets every operation through unchanged and takes no part in other collections. */
  function PassThrough(): Filter
  {
    Filter(
      (name: string, d: Option<Data>) => d,
      (name: string, d: Data, snapshot: Table<Data>) => d,
      (name: string) => false,
      (name: string, b: bool) => b,
      (name: string, b: bool) => b,
      (names: seq<string>, d: map<string, Data>) => d,
      (name: string, newName: string, b: bool) => b,
      (prefix: string, s: seq<string>) => s,
      (prefix: string, b: bool) => b,
      (collection: string) => None,
      (s: seq<string>) => s,
      (c: string) => c)
  }

  /** A listing filter that replaces one exact listing by another and passes every other listing through. */
  function Relisting(from: seq<string>, to: seq<string>): Filter
  {
    PassThrough().(filterListAll := (prefix: string, s: seq<string>) => if s == from then to else s)
  }

  /**
   * Idempotent filters alone do not make the chain idempotent: two idempotent listing filters whose
   * chain turns ["z"] into ["c"], and ["c"] into ["e"].
   */
  lemma IdempotentFiltersNeedNotCommute(prefix: string)
    ensures var f := Relisting(["c"], ["d"]);
            var g := PassThrough().(filterListAll := (p: string, s: seq<string>) =>
              if s == ["z"] then ["c"] else if s == ["d"] then ["e"] else s);
            && Idempotent(ListAllStep(prefix), f)
            && Idempotent(ListAllStep(prefix), g)
            && Chain([f, g], ListAllStep(prefix), ["z"]) == ["c"]
            && Chain([f, g], ListAllStep(prefix), Chain([f, g], ListAllStep(prefix), ["z"])) == ["e"]
  {
    var f := Relisting(["c"], ["d"]);
    var g := PassThrough().(filterListAll := (p: string, s: seq<string>) =>
      if s == ["z"] then ["c"] else if s == ["d"] then ["e"] else s);
    var step := ListAllStep(prefix);
    assert ["z"] != ["c"] && ["d"] != ["c"] && ["e"] != ["c"] && ["e"] != ["z"] && ["e"] != ["d"];
    assert [f][..0] == [];
    assert [f, g][..1] == [f];
    assert Chain([f], step, ["z"]) == ["z"];
    assert Chain([f, g], step, ["z"]) == ["c"];
    assert Chain([f], step, ["c"]) == ["d"];
    assert Chain([f, g], step, ["c"]) == ["e"];
  }

  /** A listing filter that appends `tag`. */
  function Tagging(tag: string): Filter
  {
    PassThrough().(filterListAll := (prefix: string, s: seq<string>) => s + [tag])
  }

  function Taggers(tags: seq<string>): (fs: seq<Filter>)
    ensures |fs| == |tags|
  {
    seq(|tags|, i requires 0 <= i < |tags| => Tagging(tags[i]))
  }

  /** Filters that each append their own tag leave the tags in chain order after the backend's names. */
  lemma {:induction false} TagsInChainOrder(tags: seq<string>, prefix: string, raw: seq<string>)
    ensures Chain(Taggers(tags), ListAllStep(prefix), raw) == raw + tags
    decreases |tags|
  {
    if tags != [] {
      var p := tags[..|tags| - 1];
      assert Taggers(tags)[..|tags| - 1] == Taggers(p);
      TagsInChainOrder(p, prefix, raw);
      assert raw + tags == raw + p + [tags[|tags| - 1]];
    }
  }
}
