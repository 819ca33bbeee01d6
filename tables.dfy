/** Insertion-ordered tables, the way an associative array keeps its keys: the shape of the backend's state. */
module Tables {
  import opened ConfigValues

  /** No name occurs twice. */
  ghost predicate Distinct(s: seq<string>)
  {
    forall i, j :: 0 <= i < j < |s| ==> s[i] != s[j]
  }

  /** The names of `s` that `keep` accepts, in their order in `s`. */
  function Select(s: seq<string>, keep: string -> bool): (r: seq<string>)
    ensures forall x :: x in r <==> x in s && keep(x)
    ensures |r| <= |s|
    ensures Distinct(s) ==> Distinct(r)
  {
    if s == [] then []
    else if keep(s[0]) then [s[0]] + Select(s[1..], keep)
    else Select(s[1..], keep)
  }

  /** Selection distributes over concatenation, so it keeps the relative order of the names it keeps. */
  lemma {:induction false} SelectAppend(a: seq<string>, b: seq<string>, keep: string -> bool)
    ensures Select(a + b, keep) == Select(a, keep) + Select(b, keep)
  {
    if a == [] {
      assert a + b == b;
    } else {
      assert (a + b)[1..] == a[1..] + b;
      SelectAppend(a[1..], b, keep);
    }
  }

  /** `names` lists the keys of `values` in insertion order. */
  datatype Table<V> = Table(names: seq<string>, values: map<string, V>)
  {
    /** Every key is listed exactly once, and only keys are listed. */
    ghost predicate Valid()
    {
      Distinct(names) && forall n :: n in values <==> n in names
    }

    function Get(name: string): Option<V>
    {
      if name in values then Some(values[name]) else None
    }

    /** Stores `v` under `name`; a new name goes to the end, an existing one keeps its place. */
    function Put(name: string, v: V): (t: Table<V>)
      ensures Valid() ==> t.Valid()
      ensures t.Get(name) == Some(v)
      ensures forall m :: m != name ==> t.Get(m) == Get(m)
      ensures name in values ==> t.names == names
      ensures name !in values ==> t.names == names + [name]
    {
      if name in values then Table(names, values[name := v])
      else Table(names + [name], values[name := v])
    }

    /** Drops `name`; the other names keep their relative order. */
    function Remove(name: string): (t: Table<V>)
      ensures Valid() ==> t.Valid()
      ensures t.Get(name) == None
      ensures forall m :: m != name ==> t.Get(m) == Get(m)
    {
      Table(Select(names, (n: string) => n != name), values - {name})
    }

    /** Drops every name that starts with `prefix`. */
    function RemovePrefixed(prefix: string): (t: Table<V>)
      ensures Valid() ==> t.Valid()
      ensures forall m :: t.Get(m) == if prefix <= m then None else Get(m)
    {
      Table(Select(names, (n: string) => !(prefix <= n)), map n | n in values && !(prefix <= n) :: values[n])
    }

    /** The names that start with `prefix`, in insertion order. */
    function Listing(prefix: string): (r: seq<string>)
      ensures Valid() ==> Distinct(r)
      ensures Valid() ==> forall m :: m in r <==> Get(m).Some? && prefix <= m
    {
      Select(names, (n: string) => prefix <= n)
    }
  }

  function EmptyTable<V>(): (t: Table<V>)
    ensures t.Valid() && forall m :: t.Get(m) == None
  {
    Table([], map[])
  }
}
