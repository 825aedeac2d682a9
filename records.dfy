/**
 * A JavaScript object used as a string-keyed dictionary (`Record<K, V>` in the
 * source): the value stored under each key, and the order in which
 * `Object.keys`, `Object.values` and `Object.entries` enumerate the keys.
 */
module Records {
  import opened Wrappers

  datatype Dict<V> = Dict(keys: seq<string>, entries: map<string, V>)

  /** Every key is enumerated exactly once. */
  ghost predicate WellFormed<V>(d: Dict<V>) {
    && (forall i, j :: 0 <= i < j < |d.keys| ==> d.keys[i] != d.keys[j])
    && (forall k :: k in d.entries <==> k in d.keys)
  }

  type Record<V> = d: Dict<V> | WellFormed(d) witness Dict([], map[])

  /** A key enumerated at position `i` is not enumerated before it. */
  lemma FreshKey<V>(r: Record<V>, i: nat)
    requires i < |r.keys|
    ensures r.keys[i] !in r.keys[..i]
  {
  }

  /** `{}` */
  function Empty<V>(): (r: Record<V>)
    ensures r.keys == [] && r.entries == map[]
  {
    Dict([], map[])
  }

  /** `obj[k]`, with `None` for `undefined`. */
  function Get<V>(r: Record<V>, k: string): Option<V> {
    if k in r.entries then Some(r.entries[k]) else None
  }

  /** `obj[k] = v`: a new key is enumerated after the existing ones, an existing key keeps its place. */
  function Put<V>(r: Record<V>, k: string, v: V): (r': Record<V>)
    ensures r'.entries == r.entries[k := v]
    ensures r'.keys == if k in r.entries then r.keys else r.keys + [k]
  {
    if k in r.entries then Dict(r.keys, r.entries[k := v])
    else Dict(r.keys + [k], r.entries[k := v])
  }

  /** `Object.values(obj)`. */
  function Values<V>(r: Record<V>): (vs: seq<V>)
    ensures |vs| == |r.keys|
    ensures forall i :: 0 <= i < |vs| ==> vs[i] == r.entries[r.keys[i]]
  {
    seq(|r.keys|, i requires 0 <= i < |r.keys| => r.entries[r.keys[i]])
  }

  /** The assignments `obj[k] = v` for each pair of `kvs`, left to right. */
  function PutAll<V>(r: Record<V>, kvs: seq<(string, V)>): Record<V>
    decreases |kvs|
  {
    if kvs == [] then r
    else Put(PutAll(r, kvs[..|kvs| - 1]), kvs[|kvs| - 1].0, kvs[|kvs| - 1].1)
  }

  /** The position of the last pair of `kvs` that names `k`, or -1. */
  function LastIndexOf<V>(kvs: seq<(string, V)>, k: string): (j: int)
    ensures -1 <= j < |kvs|
    ensures j == -1 <==> forall i :: 0 <= i < |kvs| ==> kvs[i].0 != k
    ensures j >= 0 ==> kvs[j].0 == k && forall i :: j < i < |kvs| ==> kvs[i].0 != k
    decreases |kvs|
  {
    if kvs == [] then -1
    else if kvs[|kvs| - 1].0 == k then |kvs| - 1
    else LastIndexOf(kvs[..|kvs| - 1], k)
  }

  /** One more write of a fold. */
  lemma PutAllStep<V>(r: Record<V>, kvs: seq<(string, V)>, i: nat)
    requires i < |kvs|
    ensures PutAll(r, kvs[..i + 1]) == Put(PutAll(r, kvs[..i]), kvs[i].0, kvs[i].1)
  {
    assert kvs[..i + 1][..i] == kvs[..i];
  }

  lemma {:induction false} PutAllAppend<V>(r: Record<V>, a: seq<(string, V)>, b: seq<(string, V)>)
    ensures PutAll(r, a + b) == PutAll(PutAll(r, a), b)
    decreases |b|
  {
    if b == [] {
      assert a + b == a;
    } else {
      PutAllAppend(r, a, b[..|b| - 1]);
      assert (a + b)[..|a + b| - 1] == a + b[..|b| - 1];
    }
  }

  /** Later assignments win: after assigning every pair of `kvs`, the value under `k`
      is the one of the last pair naming `k`; a key no pair names keeps its old value. */
  lemma {:induction false} PutAllLastWins<V>(r: Record<V>, kvs: seq<(string, V)>, k: string)
    ensures Get(PutAll(r, kvs), k) ==
            if LastIndexOf(kvs, k) < 0 then Get(r, k) else Some(kvs[LastIndexOf(kvs, k)].1)
    decreases |kvs|
  {
    if kvs != [] {
      PutAllLastWins(r, kvs[..|kvs| - 1], k);
    }
  }
}
