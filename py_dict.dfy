/**
 * Python dictionaries with string keys. A Python `dict` remembers the order in which its keys
 * were first inserted, and every listing the simulator prints walks a dictionary in that order,
 * so a dictionary is modelled as its key order together with its key-value mapping.
 */
module PyDict {

  datatype Dict<V> = Dict(keys: seq<string>, entries: map<string, V>) {

    /** The keys are listed once each, and they are exactly the mapped keys. */
    ghost predicate Valid() {
      && (forall i, j :: 0 <= i < j < |keys| ==> keys[i] != keys[j])
      && (forall k :: k in entries <==> k in keys)
    }
  }

  /** `{}` */
  function Empty<V>(): (d: Dict<V>)
    ensures d.Valid() && d.entries == map[]
  {
    Dict([], map[])
  }

  /** `d[k] = v`: an existing key keeps its place, a new key goes last. */
  function Put<V>(d: Dict<V>, k: string, v: V): (r: Dict<V>)
    ensures d.Valid() ==> r.Valid()
    ensures r.entries == d.entries[k := v]
  {
    Dict(if k in d.entries then d.keys else d.keys + [k], d.entries[k := v])
  }

  /** `for k in ks: d[k] = src[k]`, in the order of `ks`. */
  function PutEach<V>(d: Dict<V>, src: map<string, V>, ks: seq<string>): (r: Dict<V>)
    requires forall k <- ks :: k in src
    ensures d.Valid() ==> r.Valid()
    decreases |ks|
  {
    if ks == [] then d else PutEach(Put(d, ks[0], src[ks[0]]), src, ks[1..])
  }

  /** `d.update(other)` */
  function Update<V>(d: Dict<V>, other: Dict<V>): (r: Dict<V>)
    requires other.Valid()
  {
    PutEach(d, other.entries, other.keys)
  }

  /** After the writes, every written key maps to its source value; all other keys are untouched. */
  lemma {:induction false} PutEachEntries<V>(d: Dict<V>, src: map<string, V>, ks: seq<string>)
    requires forall k <- ks :: k in src
    ensures PutEach(d, src, ks).entries == d.entries + map k | k in ks :: src[k]
    decreases |ks|
  {
    if ks != [] {
      PutEachEntries(Put(d, ks[0], src[ks[0]]), src, ks[1..]);
      OverlayFirst(d.entries, src, ks);
    }
  }

  /** Writing the first key and then the rest is writing them all. */
  lemma OverlayFirst<V>(base: map<string, V>, src: map<string, V>, ks: seq<string>)
    requires ks != [] && forall k <- ks :: k in src
    ensures base[ks[0] := src[ks[0]]] + (map k | k in ks[1..] :: src[k])
         == base + (map k | k in ks :: src[k])
  {
    var rest := map k | k in ks[1..] :: src[k];
    var all := map k | k in ks :: src[k];
    assert forall k :: k in ks <==> k == ks[0] || k in ks[1..];
    assert all == rest[ks[0] := src[ks[0]]];
  }

  /** Writing keys never moves a key that was already there: the old order is a prefix of the new. */
  lemma {:induction false} PutEachKeepsOrder<V>(d: Dict<V>, src: map<string, V>, ks: seq<string>)
    requires forall k <- ks :: k in src
    ensures d.keys <= PutEach(d, src, ks).keys
    decreases |ks|
  {
    if ks != [] {
      PutEachKeepsOrder(Put(d, ks[0], src[ks[0]]), src, ks[1..]);
    }
  }

  /** `d.update(other)` maps every key of `other` to its value there and keeps the other keys
      of `d`, which also keep their order. */
  lemma UpdateSpec<V>(d: Dict<V>, other: Dict<V>)
    requires other.Valid()
    ensures Update(d, other).entries == d.entries + other.entries
    ensures d.keys <= Update(d, other).keys
    ensures d.Valid() ==> Update(d, other).Valid()
  {
    PutEachEntries(d, other.entries, other.keys);
    PutEachKeepsOrder(d, other.entries, other.keys);
    assert (map k | k in other.keys :: other.entries[k]) == other.entries;
  }
}
