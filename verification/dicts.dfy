/**
 * Python's insertion-ordered `dict` with string keys, as an association list. Iterating a dict
 * visits its entries in this order. Lookup finds the first entry with the key, assignment
 * overwrites that entry or appends a new one, so every dict built by assignments has pairwise
 * distinct keys (`SetUnique`, `SetAllUnique`).
 */
module Dicts {
  import opened Wrappers
  import opened Seqs

  /** The keys of an association list, in order. */
  function Keys<V>(s: seq<(string, V)>): (ks: seq<string>)
    ensures |ks| == |s|
    ensures forall i :: 0 <= i < |s| ==> ks[i] == s[i].0
  {
    seq(|s|, i requires 0 <= i < |s| => s[i].0)
  }

  predicate UniqueKeys<V>(s: seq<(string, V)>) {
    forall i, j :: 0 <= i < j < |s| ==> s[i].0 != s[j].0
  }

  type Dict<V> = seq<(string, V)>

  /** `d[k]`, or None where Python raises KeyError. */
  function Get<V>(d: Dict<V>, k: string): (r: Option<V>)
    ensures r.Some? <==> k in Keys(d)
    ensures r.Some? ==> (k, r.value) in d
  {
    var i := IndexOf(Keys(d), k);
    if i < |d| then Some(d[i].1) else None
  }

  /** Python's `d[k] = v`: an existing key keeps its place, a new key goes last. */
  function Set<V>(d: Dict<V>, k: string, v: V): Dict<V>
  {
    var i := IndexOf(Keys(d), k);
    if i < |d| then d[i := (k, v)] else d + [(k, v)]
  }

  /** After `d[k] = v`, `k` holds `v` and every other key what it held before. */
  lemma GetSet<V>(d: Dict<V>, k: string, v: V, k': string)
    ensures Get(Set(d, k, v), k') == if k' == k then Some(v) else Get(d, k')
  {
    var i := IndexOf(Keys(d), k);
    var r := Set(d, k, v);
    if i < |d| {
      assert Keys(r) == Keys(d);
    } else {
      assert Keys(r) == Keys(d) + [k];
      IndexOfAppend(Keys(d), [k], k');
    }
  }

  /** `d[k] = v` keeps the keys in place and appends `k` when it is new. */
  lemma KeysSet<V>(d: Dict<V>, k: string, v: V)
    ensures Keys(Set(d, k, v)) == if k in Keys(d) then Keys(d) else Keys(d) + [k]
  {
    var r := Set(d, k, v);
    if k in Keys(d) {
      assert Keys(r) == Keys(d);
    } else {
      assert Keys(r) == Keys(d) + [k];
    }
  }

  /** Assigning a key twice leaves only the second value, at the same place. */
  lemma SetTwice<V>(d: Dict<V>, k: string, a: V, b: V)
    ensures Set(Set(d, k, a), k, b) == Set(d, k, b)
  {
    var i := IndexOf(Keys(d), k);
    if i == |d| {
      IndexOfAppend(Keys(d), [k], k);
      assert Keys(d + [(k, a)]) == Keys(d) + [k];
    }
  }

  /** The assignments `d[p.0] = p.1` for every `p` in `ps`, in order. */
  function SetAll<V>(d: Dict<V>, ps: seq<(string, V)>): Dict<V>
  {
    if |ps| == 0 then d
    else
      var n := |ps| - 1;
      Set(SetAll(d, ps[..n]), ps[n].0, ps[n].1)
  }

  /** One more assignment after a series of them. */
  lemma SetAllSnoc<V>(d: Dict<V>, ps: seq<(string, V)>, k: string, v: V)
    ensures SetAll(d, ps + [(k, v)]) == Set(SetAll(d, ps), k, v)
  {
    assert (ps + [(k, v)])[..|ps|] == ps;
  }

  /** The value of the last pair in `ps` whose key is `k`. */
  function LastFor<V>(ps: seq<(string, V)>, k: string): (r: Option<V>)
    ensures r.Some? <==> k in Keys(ps)
  {
    if |ps| == 0 then None
    else
      var n := |ps| - 1;
      assert Keys(ps) == Keys(ps[..n]) + [ps[n].0];
      if ps[n].0 == k then Some(ps[n].1) else LastFor(ps[..n], k)
  }

  /** After a series of assignments, each key holds the last value assigned to it. */
  lemma {:induction false} GetSetAll<V>(d: Dict<V>, ps: seq<(string, V)>, k: string)
    ensures Get(SetAll(d, ps), k) == if k in Keys(ps) then LastFor(ps, k) else Get(d, k)
  {
    if |ps| > 0 {
      var n := |ps| - 1;
      assert Keys(ps) == Keys(ps[..n]) + [ps[n].0];
      GetSetAll(d, ps[..n], k);
      GetSet(SetAll(d, ps[..n]), ps[n].0, ps[n].1, k);
    }
  }

  /** Starting from an empty dict, the keys are those assigned, in the order first assigned. */
  lemma {:induction false} KeysSetAll<V>(ps: seq<(string, V)>)
    ensures Keys(SetAll([], ps)) == Distinct(Keys(ps))
  {
    if |ps| > 0 {
      var n := |ps| - 1;
      assert Keys(ps)[..n] == Keys(ps[..n]);
      KeysSetAll(ps[..n]);
      KeysSet(SetAll([], ps[..n]), ps[n].0, ps[n].1);
    }
  }

  /** Assignment keeps the keys of a dict pairwise distinct. */
  lemma SetUnique<V>(d: Dict<V>, k: string, v: V)
    requires UniqueKeys(d)
    ensures UniqueKeys(Set(d, k, v))
  {
    var r := Set(d, k, v);
    KeysSet(d, k, v);
    assert forall i :: 0 <= i < |r| ==> r[i].0 == Keys(r)[i];
  }

  /** A dict built by assignments from an empty one has pairwise distinct keys. */
  lemma SetAllUnique<V>(ps: seq<(string, V)>)
    ensures UniqueKeys(SetAll([], ps))
  {
    var r := SetAll([], ps);
    KeysSetAll(ps);
    assert forall i :: 0 <= i < |r| ==> r[i].0 == Distinct(Keys(ps))[i];
  }

  /** The last pair with key `k` is at `i` when no later pair has key `k`. */
  lemma {:induction false} LastForIsLast<V>(ps: seq<(string, V)>, i: nat, k: string)
    requires i < |ps| && ps[i].0 == k && forall j :: i < j < |ps| ==> ps[j].0 != k
    ensures LastFor(ps, k) == Some(ps[i].1)
    decreases |ps|
  {
    var n := |ps| - 1;
    if i < n {
      LastForIsLast(ps[..n], i, k);
    }
  }

  /** A key assigned for the last time by pair `i` holds that pair's value. */
  lemma GetSetAllLast<V>(ps: seq<(string, V)>, i: nat)
    requires i < |ps| && forall j :: i < j < |ps| ==> ps[j].0 != ps[i].0
    ensures Get(SetAll([], ps), ps[i].0) == Some(ps[i].1)
  {
    assert ps[i].0 in Keys(ps);
    GetSetAll([], ps, ps[i].0);
    LastForIsLast(ps, i, ps[i].0);
  }
}
