/** JavaScript plain objects with string keys, as the price service uses
    them: the keys in insertion order, each once, and the value under each.
    Assigning to a key that is present replaces its value and keeps its
    place; assigning to a new key appends it. */
module JsObject {
  import opened Wrappers

  datatype Entries<V> = Entries(keys: seq<string>, values: map<string, V>)

  predicate UniqueKeys(keys: seq<string>) {
    forall i, j :: 0 <= i < j < |keys| ==> keys[i] != keys[j]
  }

  /** Every listed key has a value and there are as many values as keys,
      so (`Listed`) every key with a value is listed. */
  predicate WellFormed<V>(o: Entries<V>) {
    && UniqueKeys(o.keys)
    && (forall i :: 0 <= i < |o.keys| ==> o.keys[i] in o.values)
    && |o.values| == |o.keys|
  }

  /** A JavaScript object: insertion-ordered keys, each with one value. */
  type Obj<V> = o: Entries<V> | WellFormed(o) witness Entries([], map[])

  /** The keys of a sequence without repetitions are as many as its length. */
  lemma {:induction false} DistinctCard(keys: seq<string>)
    requires UniqueKeys(keys)
    ensures |set i | 0 <= i < |keys| :: keys[i]| == |keys|
  {
    if keys != [] {
      var init := keys[..|keys| - 1];
      DistinctCard(init);
      var s := set i | 0 <= i < |keys| :: keys[i];
      var s' := set i | 0 <= i < |init| :: init[i];
      assert s == s' + {keys[|keys| - 1]};
      assert keys[|keys| - 1] !in s';
    }
  }

  /** Every key that has a value in `o` is one of its listed keys. */
  lemma Listed<V>(o: Obj<V>, key: string)
    requires key in o.values
    ensures key in o.keys
  {
    if key !in o.keys {
      var s := set i | 0 <= i < |o.keys| :: o.keys[i];
      DistinctCard(o.keys);
      assert s <= o.values.Keys - {key};
      assert |o.values.Keys - {key}| == |o.values| - 1;
      SubsetCard(s, o.values.Keys - {key});
      assert false;
    }
  }

  lemma {:induction false} SubsetCard(a: set<string>, b: set<string>)
    requires a <= b
    ensures |a| <= |b|
    decreases |b|
  {
    if a != {} {
      var x :| x in a;
      SubsetCard(a - {x}, b - {x});
    }
  }

  function Empty<V>(): Obj<V> {
    Entries([], map[])
  }

  /** `o[key]`: the value stored under `key`, `undefined` when absent. */
  function Get<V>(o: Obj<V>, key: string): Option<V> {
    if key in o.values then Some(o.values[key]) else None
  }

  /** `o[key] = value`. */
  function Put<V>(o: Obj<V>, key: string, value: V): (r: Obj<V>)
    ensures r.values == o.values[key := value]
    ensures key in o.keys ==> r.keys == o.keys
    ensures key !in o.keys ==> r.keys == o.keys + [key]
  {
    if key in o.values then
      Listed(o, key);
      Entries(o.keys, o.values[key := value])
    else
      Entries(o.keys + [key], o.values[key := value])
  }

  /** `{ ...o, ...p }`: the entries of `p` assigned over `o`, in `p`'s key order. */
  function Assign<V>(o: Obj<V>, p: Obj<V>): Obj<V> {
    AssignKeys(o, p, p.keys)
  }

  function AssignKeys<V>(o: Obj<V>, p: Obj<V>, keys: seq<string>): Obj<V>
    requires forall k :: k in keys ==> k in p.values
    decreases |keys|
  {
    if keys == [] then o else AssignKeys(Put(o, keys[0], p.values[keys[0]]), p, keys[1..])
  }

  lemma {:induction false} AssignKeysGet<V>(o: Obj<V>, p: Obj<V>, keys: seq<string>, key: string)
    requires forall k :: k in keys ==> k in p.values
    ensures Get(AssignKeys(o, p, keys), key) == if key in keys then Get(p, key) else Get(o, key)
    decreases |keys|
  {
    if keys != [] {
      AssignKeysGet(Put(o, keys[0], p.values[keys[0]]), p, keys[1..], key);
      assert keys == [keys[0]] + keys[1..];
    }
  }

  /** Spreading `p` over `o`: a key of `p` takes its value from `p`; any
      other key keeps its value in `o`. */
  lemma AssignGet<V>(o: Obj<V>, p: Obj<V>, key: string)
    ensures Get(Assign(o, p), key) == if Get(p, key).Some? then Get(p, key) else Get(o, key)
  {
    AssignKeysGet(o, p, p.keys, key);
    if key in p.values {
      Listed(p, key);
    }
  }

  /** `pages.reduce((result, page) => ({ ...result, ...page }), {})`. */
  function Merge<V>(pages: seq<Obj<V>>): Obj<V> {
    MergeFirst(pages, |pages|)
  }

  /** The first `n` pages spread, in order, over an empty object. */
  function MergeFirst<V>(pages: seq<Obj<V>>, n: nat): Obj<V>
    requires n <= |pages|
  {
    if n == 0 then Empty() else Assign(MergeFirst(pages, n - 1), pages[n - 1])
  }

  /** The last of the first `n` pages that has `key`, or -1. */
  function LastWith<V>(pages: seq<Obj<V>>, n: nat, key: string): (i: int)
    requires n <= |pages|
    ensures -1 <= i < n
  {
    if n == 0 then -1
    else if Get(pages[n - 1], key).Some? then n - 1
    else LastWith(pages, n - 1, key)
  }

  lemma {:induction false} LastWithIs<V>(pages: seq<Obj<V>>, n: nat, key: string)
    requires n <= |pages|
    ensures var i := LastWith(pages, n, key);
      && (i < 0 <==> forall j :: 0 <= j < n ==> Get(pages[j], key).None?)
      && (i >= 0 ==> Get(pages[i], key).Some? && forall j :: i < j < n ==> Get(pages[j], key).None?)
  {
    if n > 0 && Get(pages[n - 1], key).None? {
      LastWithIs(pages, n - 1, key);
    }
  }

  /** After the first `n` pages are merged, `key` holds its value in the
      last of them that has it. */
  lemma {:induction false} MergeFirstGet<V>(pages: seq<Obj<V>>, n: nat, key: string)
    requires n <= |pages|
    ensures var i := LastWith(pages, n, key);
      Get(MergeFirst(pages, n), key) == if i < 0 then None else Get(pages[i], key)
  {
    if n > 0 {
      MergeFirstGet(pages, n - 1, key);
      AssignGet(MergeFirst(pages, n - 1), pages[n - 1], key);
    }
  }

  /** The merged object has a key exactly when some page has it, and then
      holds the value of the LAST page that has it. */
  lemma MergeGet<V>(pages: seq<Obj<V>>, key: string)
    ensures Get(Merge(pages), key).None? <==> forall i :: 0 <= i < |pages| ==> Get(pages[i], key).None?
    ensures Get(Merge(pages), key).Some? ==>
      exists i :: 0 <= i < |pages| && Get(Merge(pages), key) == Get(pages[i], key)
        && forall j :: i < j < |pages| ==> Get(pages[j], key).None?
  {
    MergeFirstGet(pages, |pages|, key);
    LastWithIs(pages, |pages|, key);
  }

  /** `_.mapKeys(o, (value, key) => rename(key))`: each entry assigned, in
      key order, under its renamed key. */
  function MapKeys<V>(o: Obj<V>, rename: string -> string): Obj<V> {
    RenameFirst(o, rename, |o.keys|)
  }

  /** The first `n` entries of `o` assigned under their renamed keys. */
  function RenameFirst<V>(o: Obj<V>, rename: string -> string, n: nat): Obj<V>
    requires n <= |o.keys|
  {
    if n == 0 then Empty()
    else
      var k := o.keys[n - 1];
      assert k in o.keys;
      Put(RenameFirst(o, rename, n - 1), rename(k), o.values[k])
  }

  /** The last of the first `n` keys that renames to `key`, or -1. */
  function LastRenamedTo(keys: seq<string>, rename: string -> string, n: nat, key: string): (i: int)
    requires n <= |keys|
    ensures -1 <= i < n
  {
    if n == 0 then -1
    else if rename(keys[n - 1]) == key then n - 1
    else LastRenamedTo(keys, rename, n - 1, key)
  }

  lemma {:induction false} LastRenamedToIs(keys: seq<string>, rename: string -> string, n: nat, key: string)
    requires n <= |keys|
    ensures var i := LastRenamedTo(keys, rename, n, key);
      && (i < 0 <==> forall j :: 0 <= j < n ==> rename(keys[j]) != key)
      && (i >= 0 ==> rename(keys[i]) == key && forall j :: i < j < n ==> rename(keys[j]) != key)
  {
    if n > 0 && rename(keys[n - 1]) != key {
      LastRenamedToIs(keys, rename, n - 1, key);
    }
  }

  /** After the first `n` entries are renamed, `key` holds the value of the
      last of them that renames to it. */
  lemma {:induction false} RenameFirstGet<V>(o: Obj<V>, rename: string -> string, n: nat, key: string)
    requires n <= |o.keys|
    ensures var i := LastRenamedTo(o.keys, rename, n, key);
      Get(RenameFirst(o, rename, n), key) == if i < 0 then None else Get(o, o.keys[i])
  {
    if n > 0 {
      var last := o.keys[n - 1];
      assert last in o.keys;
      RenameFirstGet(o, rename, n - 1, key);
      var before := RenameFirst(o, rename, n - 1);
      assert RenameFirst(o, rename, n) == Put(before, rename(last), o.values[last]);
    }
  }

  /** A renamed key is present exactly when some key of `o` renames to it,
      and then holds the value of the LAST key, in insertion order, that
      renames to it. */
  lemma MapKeysGet<V>(o: Obj<V>, rename: string -> string, key: string)
    ensures Get(MapKeys(o, rename), key).None? <==> forall i :: 0 <= i < |o.keys| ==> rename(o.keys[i]) != key
    ensures Get(MapKeys(o, rename), key).Some? ==>
      exists i :: 0 <= i < |o.keys| && rename(o.keys[i]) == key
        && Get(MapKeys(o, rename), key) == Get(o, o.keys[i])
        && forall j :: i < j < |o.keys| ==> rename(o.keys[j]) != key
  {
    RenameFirstGet(o, rename, |o.keys|, key);
    LastRenamedToIs(o.keys, rename, |o.keys|, key);
  }
}
