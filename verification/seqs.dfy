/** Facts about sequences shared by the dictionary and text modules. */
module Seqs {
  import opened Wrappers


  /** Position of the first occurrence of `x` in `s`, or `|s|` when there is none. */
  function IndexOf<T(==)>(s: seq<T>, x: T): (i: nat)
    ensures i <= |s|
    ensures i < |s| ==> s[i] == x
    ensures forall j :: 0 <= j < i ==> s[j] != x
    ensures i == |s| <==> x !in s
  {
    if |s| == 0 then 0
    else if s[0] == x then 0
    else 1 + IndexOf(s[1..], x)
  }

  lemma IndexOfAppend<T>(a: seq<T>, b: seq<T>, x: T)
    ensures x in a ==> IndexOf(a + b, x) == IndexOf(a, x)
    ensures x !in a ==> IndexOf(a + b, x) == |a| + IndexOf(b, x)
  {
    var i := IndexOf(a + b, x);
    if x in a {
      assert (a + b)[IndexOf(a, x)] == x;
    } else {
      assert forall j :: 0 <= j < |a| ==> (a + b)[j] == a[j];
      if x in b {
        assert (a + b)[|a| + IndexOf(b, x)] == x;
        assert forall j :: 0 <= j < i - |a| ==> b[j] == (a + b)[|a| + j];
      }
    }
  }

  /** The elements of `s` without repetition, each at the place of its first occurrence. */
  function Distinct<T(==)>(s: seq<T>): (r: seq<T>)
    ensures forall i :: 0 <= i < |r| ==> r[i] in s
    ensures forall i :: 0 <= i < |s| ==> s[i] in r
    ensures forall i, j :: 0 <= i < j < |r| ==> r[i] != r[j]
  {
    if |s| == 0 then []
    else
      var init := s[..|s| - 1];
      assert s == init + [s[|s| - 1]];
      var p := Distinct(init);
      if s[|s| - 1] in p then p else p + [s[|s| - 1]]
  }

  /** Two elements appear in `Distinct(s)` in the order of their first occurrences in `s`. */
  lemma {:induction false} DistinctKeepsFirstOrder<T>(s: seq<T>, x: T, y: T)
    requires x in s && y in s
    ensures IndexOf(Distinct(s), x) < IndexOf(Distinct(s), y) <==> IndexOf(s, x) < IndexOf(s, y)
  {
    var n := |s| - 1;
    var init, z := s[..n], s[n];
    assert s == init + [z];
    var p := Distinct(init);
    if x in init && y in init {
      DistinctKeepsFirstOrder(init, x, y);
      IndexOfAppend(init, [z], x);
      IndexOfAppend(init, [z], y);
      if z !in p {
        IndexOfAppend(p, [z], x);
        IndexOfAppend(p, [z], y);
      }
    } else if x in init {
      // y occurs only at the end
      assert y == z && z !in p;
      IndexOfAppend(init, [z], x);
      IndexOfAppend(init, [z], y);
      IndexOfAppend(p, [z], x);
      IndexOfAppend(p, [z], y);
    } else if y in init {
      assert x == z && z !in p;
      IndexOfAppend(init, [z], x);
      IndexOfAppend(init, [z], y);
      IndexOfAppend(p, [z], x);
      IndexOfAppend(p, [z], y);
    } else {
      assert x == z && y == z;
    }
  }

  /** The results `f` gives for the elements of `s`, in order, dropping the Nones. */
  function FilterMap<A, B>(s: seq<A>, f: A -> Option<B>): (r: seq<B>)
    ensures |r| <= |s|
  {
    if |s| == 0 then []
    else
      var n := |s| - 1;
      match f(s[n])
      case None => FilterMap(s[..n], f)
      case Some(y) => FilterMap(s[..n], f) + [y]
  }

  /** `y` is kept exactly when `f` gives it for some element. */
  lemma {:induction false} FilterMapSpec<A, B>(s: seq<A>, f: A -> Option<B>, y: B)
    ensures y in FilterMap(s, f) <==> exists i :: 0 <= i < |s| && f(s[i]) == Some(y)
  {
    if |s| > 0 {
      var n := |s| - 1;
      var init := s[..n];
      FilterMapSpec(init, f, y);
      if y in FilterMap(s, f) {
        if y in FilterMap(init, f) {
          var i :| 0 <= i < n && f(init[i]) == Some(y);
          assert init[i] == s[i];
        }
      } else {
        forall i | 0 <= i < |s|
          ensures f(s[i]) != Some(y)
        {
          if i < n {
            assert init[i] == s[i];
          }
        }
      }
    }
  }

  /** Filtering two runs gives the results of the first run, then those of the second. */
  lemma {:induction false} FilterMapAppend<A, B>(a: seq<A>, b: seq<A>, f: A -> Option<B>)
    ensures FilterMap(a + b, f) == FilterMap(a, f) + FilterMap(b, f)
    decreases |b|
  {
    if |b| > 0 {
      var n := |b| - 1;
      assert (a + b)[..|a| + n] == a + b[..n];
      FilterMapAppend(a, b[..n], f);
    } else {
      assert a + b == a;
    }
  }
}
