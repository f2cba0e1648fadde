/** A plain JavaScript object used as a dictionary: string property names, each bound to
    one value, enumerated in the order the properties were first created. */
module Tables {
  import opened Wrappers

  /** A snapshot of such an object: `keys` is the enumeration order, `values` the bindings. */
  datatype Table<V> = Table(keys: seq<string>, values: map<string, V>)
  {
    /** Every property is enumerated exactly once. */
    ghost predicate Valid()
    {
      && Distinct(keys)
      && (forall k :: k in keys <==> k in values)
    }

    /** `obj[k] = v`: a new property goes to the end of the enumeration order, an
        existing one keeps its place and only its value changes. */
    function Put(k: string, v: V): (r: Table<V>)
      requires Valid()
      ensures r.Valid()
      ensures r.values.Keys == values.Keys + {k} && r.values[k] == v
      ensures forall j :: j in values && j != k ==> r.values[j] == values[j]
      ensures k in values ==> r.keys == keys
      ensures k !in values ==> r.keys == keys + [k]
    {
      if k in values then Table(keys, values[k := v])
      else
        assert (keys + [k])[..|keys|] == keys;
        Table(keys + [k], values[k := v])
    }

    /** `obj[k]`: the bound value, or nothing (`undefined`) for a missing property. */
    function Get(k: string): (r: Option<V>)
      ensures r.Some? <==> k in values
      ensures r.Some? ==> r.value == values[k]
    {
      if k in values then Some(values[k]) else None
    }
  }

  /** No name occurs twice in `s`: each one is new when it is appended. */
  ghost predicate Distinct(s: seq<string>)
  {
    s == [] || (Distinct(s[..|s| - 1]) && s[|s| - 1] !in s[..|s| - 1])
  }

  /** `Distinct` is the usual pairwise statement. */
  lemma {:induction false} DistinctPairwise(s: seq<string>)
    ensures Distinct(s) <==> forall i, j :: 0 <= i < j < |s| ==> s[i] != s[j]
  {
    if s != [] {
      var init := s[..|s| - 1];
      DistinctPairwise(init);
      assert forall i :: 0 <= i < |init| ==> init[i] == s[i];
      if forall i, j :: 0 <= i < j < |s| ==> s[i] != s[j] {
        assert s[|s| - 1] !in init;
      }
    }
  }

  /** `{}` */
  function Empty<V>(): (t: Table<V>)
    ensures t.Valid() && t.keys == [] && t.values == map[]
  {
    Table([], map[])
  }

  /** The entries of `ks` whose names are not in `known`, in their order in `ks`. */
  function NewKeys(ks: seq<string>, known: set<string>): (r: seq<string>)
    ensures forall k :: k in r <==> k in ks && k !in known
  {
    if ks == [] then []
    else NewKeys(ks[..|ks| - 1], known) + (if ks[|ks| - 1] in known then [] else [ks[|ks| - 1]])
  }

  /** The own enumerable properties named by `ks`, copied from `src` onto `t` one by one
      in the order of `ks`, as an object spread does. */
  function CopyProperties<V>(t: Table<V>, src: Table<V>, ks: seq<string>): (r: Table<V>)
    requires t.Valid()
    requires forall k :: k in ks ==> k in src.values
    ensures r.Valid()
  {
    if ks == [] then t
    else
      var last := ks[|ks| - 1];
      CopyProperties(t, src, ks[..|ks| - 1]).Put(last, src.values[last])
  }

  /** Copying properties onto `t` binds each copied name to its value in `src` and leaves
      every other property of `t` alone. */
  lemma {:induction false} CopyPropertiesValues<V>(t: Table<V>, src: Table<V>, ks: seq<string>)
    requires t.Valid()
    requires forall k :: k in ks ==> k in src.values
    ensures forall k :: k in CopyProperties(t, src, ks).values <==> k in t.values || k in ks
    ensures forall k :: k in ks ==> CopyProperties(t, src, ks).values[k] == src.values[k]
    ensures forall k :: k in t.values && k !in ks ==> CopyProperties(t, src, ks).values[k] == t.values[k]
  {
    if ks != [] {
      var init, last := ks[..|ks| - 1], ks[|ks| - 1];
      CopyPropertiesValues(t, src, init);
      assert forall k :: k in ks <==> k in init || k == last by {
        assert ks == init + [last];
      }
    }
  }

  /** Copying distinct properties onto `t` appends, in their order, the names `t` did not have. */
  lemma {:induction false} CopyPropertiesKeys<V>(t: Table<V>, src: Table<V>, ks: seq<string>)
    requires t.Valid()
    requires forall k :: k in ks ==> k in src.values
    requires Distinct(ks)
    ensures CopyProperties(t, src, ks).keys == t.keys + NewKeys(ks, t.values.Keys)
  {
    if ks != [] {
      var init, last := ks[..|ks| - 1], ks[|ks| - 1];
      CopyPropertiesKeys(t, src, init);
      var before := CopyProperties(t, src, init);
      assert last in before.values <==> last in t.values by {
        CopyPropertiesValues(t, src, init);
      }
      var known := NewKeys(init, t.values.Keys);
      if last in t.values {
        assert NewKeys(ks, t.values.Keys) == known;
      } else {
        assert NewKeys(ks, t.values.Keys) == known + [last];
        SnocAssoc(t.keys, known, last);
      }
    }
  }

  lemma SnocAssoc<T>(xs: seq<T>, ys: seq<T>, y: T)
    ensures (xs + ys) + [y] == xs + (ys + [y])
  {
  }

  /** A mutable JavaScript object whose properties hold strings. */
  class PlainObject {
    var keys: seq<string>
    var values: map<string, string>

    ghost predicate Valid()
      reads this
    {
      Snapshot().Valid()
    }

    /** The object's current properties, in enumeration order. */
    function Snapshot(): Table<string>
      reads this
    {
      Table(keys, values)
    }

    /** `{}` */
    constructor ()
      ensures Valid() && Snapshot() == Empty()
    {
      keys := [];
      values := map[];
    }

    /** `obj[k]` */
    function Get(k: string): (r: Option<string>)
      reads this
      ensures r == Snapshot().Get(k)
    {
      if k in values then Some(values[k]) else None
    }

    /** `obj[k] = v` */
    method Set(k: string, v: string)
      requires Valid()
      modifies this
      ensures Valid()
      ensures Snapshot() == old(Snapshot()).Put(k, v)
    {
      if k !in values {
        keys := keys + [k];
      }
      values := values[k := v];
    }
  }
}
