/** Python's `dict`: a finite map that remembers the order in which its keys were
  * first inserted. Assigning to an existing key replaces the value and keeps the
  * key's position; `dict(pairs)` assigns the pairs one after the other. */
module Dicts {
  import opened Seqs

  datatype Dict<K, V> = Dict(keys: seq<K>, values: map<K, V>)

  /** `keys` lists each key of `values` exactly once. */
  ghost predicate Valid<K(!new), V>(d: Dict<K, V>) {
    NoDuplicates(d.keys) && forall k :: k in d.values <==> k in d.keys
  }

  function Empty<K(!new), V>(): (r: Dict<K, V>)
    ensures Valid(r) && r.keys == []
  {
    Dict([], map[])
  }

  /** `d[k] = v`. */
  function Set<K(!new), V>(d: Dict<K, V>, k: K, v: V): (r: Dict<K, V>)
    requires Valid(d)
    ensures Valid(r)
    ensures k in r.values && r.values[k] == v
    ensures forall j :: j != k ==> (j in r.values <==> j in d.values)
    ensures forall j :: j != k && j in d.values ==> r.values[j] == d.values[j]
    ensures r.keys == if k in d.values then d.keys else d.keys + [k]
  {
    if k in d.values then Dict(d.keys, d.values[k := v])
    else Dict(d.keys + [k], d.values[k := v])
  }

  /** The keys of a list of pairs, in order, repeats included. */
  function Firsts<K, V>(ps: seq<(K, V)>): (r: seq<K>)
    ensures |r| == |ps|
    decreases |ps|
  {
    if ps == [] then [] else Firsts(ps[..|ps| - 1]) + [ps[|ps| - 1].0]
  }

  /** `dict(ps)`. */
  function FromPairs<K(!new), V>(ps: seq<(K, V)>): (r: Dict<K, V>)
    ensures Valid(r)
    decreases |ps|
  {
    if ps == [] then Empty()
    else Set(FromPairs(ps[..|ps| - 1]), ps[|ps| - 1].0, ps[|ps| - 1].1)
  }

  lemma {:induction false} FirstsAt<K, V>(ps: seq<(K, V)>, i: nat)
    requires i < |ps|
    ensures Firsts(ps)[i] == ps[i].0
    decreases |ps|
  {
    if i < |ps| - 1 {
      FirstsAt(ps[..|ps| - 1], i);
    }
  }

  /** A key of `dict(ps)` keeps the position of its FIRST occurrence in `ps`, and the
    * keys are exactly the keys of the pairs. */
  lemma {:induction false} FromPairsKeys<K(!new), V>(ps: seq<(K, V)>)
    ensures FromPairs(ps).keys == Dedup(Firsts(ps))
    ensures forall k :: k in FromPairs(ps).values <==> k in Firsts(ps)
    decreases |ps|
  {
    if ps != [] {
      var ps', p := ps[..|ps| - 1], ps[|ps| - 1];
      FromPairsKeys(ps');
      var d := FromPairs(ps');
      assert Firsts(ps) == Firsts(ps') + [p.0];
      DedupConcat(Firsts(ps'), [p.0]);
      assert [p.0][..0] == [];
      assert Extend(d.keys, [p.0]) == if p.0 in d.keys then d.keys else d.keys + [p.0];
    }
  }

  /** A key of `dict(ps)` maps to the value of its LAST occurrence in `ps`. */
  lemma {:induction false} FromPairsValue<K(!new), V>(ps: seq<(K, V)>, i: nat)
    requires i < |ps|
    requires forall j :: i < j < |ps| ==> ps[j].0 != ps[i].0
    ensures ps[i].0 in FromPairs(ps).values && FromPairs(ps).values[ps[i].0] == ps[i].1
    decreases |ps|
  {
    if i < |ps| - 1 {
      FromPairsValue(ps[..|ps| - 1], i);
    }
  }

  /** When no key repeats, `dict(ps)` maps each pair's key to that pair's value. */
  lemma FromPairsDistinct<K(!new), V>(ps: seq<(K, V)>, i: nat)
    requires NoDuplicates(Firsts(ps)) && i < |ps|
    ensures ps[i].0 in FromPairs(ps).values && FromPairs(ps).values[ps[i].0] == ps[i].1
  {
    forall j | i < j < |ps| ensures ps[j].0 != ps[i].0 {
      FirstsAt(ps, i);
      FirstsAt(ps, j);
    }
    FromPairsValue(ps, i);
  }

  /** `dict(ps + [(k, v)])` is `dict(ps)` followed by `d[k] = v`. */
  lemma FromPairsSnoc<K(!new), V>(ps: seq<(K, V)>, k: K, v: V)
    ensures FromPairs(ps + [(k, v)]) == Set(FromPairs(ps), k, v)
  {
    assert (ps + [(k, v)])[..|ps|] == ps;
  }
}
