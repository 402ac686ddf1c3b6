/** The column-permutation helpers: the key check of `Permutation.__init__`,
    the scatter `permute`, and the inverse table that `Permutation.decrypt`
    builds.  A key of length n is meant to be a bijection on 0..n-1. */
module Permutations {
  import opened Results

  /** The check the Permutation constructor performs: it passes exactly
      when every index 0..len(key)-1 occurs somewhere in the key. */
  function ValidKey(key: seq<int>): (ok: bool)
    ensures ok <==> forall i :: 0 <= i < |key| ==> i in key
  {
    KeyCheckFrom(key, 0)
  }

  /** The constructor's loop from index i on: it raises at the first index
      that `set(key)` lacks, and passes when there is none. */
  function KeyCheckFrom(key: seq<int>, i: nat): (ok: bool)
    requires i <= |key|
    ensures ok <==> forall j :: i <= j < |key| ==> j in key
    decreases |key| - i
  {
    if i == |key| then true
    else if i !in key then false
    else KeyCheckFrom(key, i + 1)
  }

  /** A bijection on [0, |p|): every entry in range, no entry twice. */
  predicate IsPermutation(p: seq<int>) {
    && (forall i :: 0 <= i < |p| ==> 0 <= p[i] < |p|)
    && (forall i, j :: 0 <= i < j < |p| ==> p[i] != p[j])
  }

  /** The constructor's check accepts exactly the bijections: a key of
      length n holding all of 0..n-1 has no room for a repeat or for an
      entry out of range, and a bijection holds all of 0..n-1. */
  lemma ValidKeyIffPermutation(key: seq<int>)
    ensures ValidKey(key) <==> IsPermutation(key)
  {
    var n := |key|;
    var elems := ElemSet(key);
    var range := RangeSet(n);
    SeqSetCard(key);
    RangeSetCard(n);
    if ValidKey(key) {
      assert range <= elems;
      SubsetEqualCard(range, elems);
      assert |elems| == n;
      forall i | 0 <= i < n
        ensures 0 <= key[i] < n
      {
        assert key[i] in elems;
      }
    }
    if IsPermutation(key) {
      assert elems <= range;
      SubsetEqualCard(elems, range);
      forall i | 0 <= i < n
        ensures i in key
      {
        assert i in range;
      }
    }
  }

  /** Every slot 0..|p|-1 is the destination of some index. */
  lemma PermutationIsOnto(p: seq<int>)
    requires IsPermutation(p)
    ensures forall j :: 0 <= j < |p| ==> j in p
  {
    ValidKeyIffPermutation(p);
  }

  /** The first k iterations of permute's loop, run on a list of empty
      slots (Python's `None`): element i is written to slot p[i]. */
  function Scatter<T>(l: seq<T>, p: seq<int>, k: nat): (ans: seq<Option<T>>)
    requires IsPermutation(p)
    requires k <= |p| <= |l|
    ensures |ans| == |p|
    ensures forall i :: 0 <= i < k ==> ans[p[i]] == Some(l[i])
    ensures forall j :: 0 <= j < |p| && ans[j].Some? ==> exists i :: 0 <= i < k && p[i] == j
  {
    if k == 0 then seq(|p|, _ => None)
    else Scatter(l, p, k - 1)[p[k - 1] := Some(l[k - 1])]
  }

  /** permute: the scatter reordering in which element i moves to slot
      p[i].  For a bijection no slot is left empty. */
  function Permute<T>(l: seq<T>, p: seq<int>): (r: seq<T>)
    requires IsPermutation(p)
    requires |p| <= |l|
    ensures |r| == |p|
    ensures forall i :: 0 <= i < |p| ==> r[p[i]] == l[i]
  {
    var ans := Scatter(l, p, |p|);
    PermutationIsOnto(p);
    assert forall j :: 0 <= j < |p| ==> ans[j].Some? by {
      forall j | 0 <= j < |p|
        ensures ans[j].Some?
      {
        assert j in p;
        var i :| 0 <= i < |p| && p[i] == j;
        assert ans[p[i]] == Some(l[i]);
      }
    }
    seq(|p|, j requires 0 <= j < |p| => ans[j].value)
  }

  /** The first k iterations of the loop in Permutation.decrypt that fills
      a zeroed table with inverse[p[i]] = i. */
  function InverseLoop(p: seq<int>, k: nat): (inv: seq<int>)
    requires IsPermutation(p)
    requires k <= |p|
    ensures |inv| == |p|
    ensures forall i :: 0 <= i < k ==> inv[p[i]] == i
    ensures forall j :: 0 <= j < |p| ==> 0 <= inv[j] < |p|
  {
    if k == 0 then seq(|p|, _ => 0)
    else InverseLoop(p, k - 1)[p[k - 1] := k - 1]
  }

  /** The inverse table of a bijection is the bijection that undoes it,
      in both orders of composition. */
  function Inverse(p: seq<int>): (inv: seq<int>)
    requires IsPermutation(p)
    ensures |inv| == |p|
    ensures IsPermutation(inv)
    ensures forall i :: 0 <= i < |p| ==> inv[p[i]] == i
    ensures forall j :: 0 <= j < |p| ==> p[inv[j]] == j
  {
    var inv := InverseLoop(p, |p|);
    PermutationIsOnto(p);
    forall j | 0 <= j < |p|
      ensures p[inv[j]] == j
    {
      assert j in p;
      var i :| 0 <= i < |p| && p[i] == j;
      assert inv[j] == i;
    }
    inv
  }

  /** Permuting by p and then by p's inverse gives the list back. */
  lemma PermuteInverse<T>(l: seq<T>, p: seq<int>)
    requires IsPermutation(p)
    requires |l| == |p|
    ensures Permute(Permute(l, p), Inverse(p)) == l
  {
    var once := Permute(l, p);
    var inv := Inverse(p);
    var twice := Permute(once, inv);
    forall i | 0 <= i < |l|
      ensures twice[i] == l[i]
    {
      assert twice[inv[p[i]]] == once[p[i]];
    }
  }

  /** A permuted list whose elements all have some property keeps it:
      every slot j holds the element that came from index inv[j]. */
  lemma PermuteSlot<T>(l: seq<T>, p: seq<int>, j: int)
    requires IsPermutation(p)
    requires |p| <= |l|
    requires 0 <= j < |p|
    ensures Permute(l, p)[j] == l[Inverse(p)[j]]
  {
    var inv := Inverse(p);
    assert p[inv[j]] == j;
  }

  // ---- counting facts behind the pigeonhole argument ----

  function ElemSet<T>(s: seq<T>): set<T> {
    set x | x in s
  }

  /** The indices 0..n-1 as a set. */
  function RangeSet(n: nat): (r: set<int>)
    ensures forall i :: i in r <==> 0 <= i < n
  {
    if n == 0 then {} else RangeSet(n - 1) + {n - 1}
  }

  /** A sequence holds at most |s| distinct values, and exactly |s| of them
      precisely when no value repeats. */
  lemma {:induction false} SeqSetCard<T>(s: seq<T>)
    ensures |ElemSet(s)| <= |s|
    ensures |ElemSet(s)| == |s| <==> forall i, j :: 0 <= i < j < |s| ==> s[i] != s[j]
  {
    if |s| > 0 {
      var t := s[1..];
      SeqSetCard(t);
      assert ElemSet(s) == {s[0]} + ElemSet(t);
      if s[0] in t {
        assert ElemSet(s) == ElemSet(t);
        var k :| 0 <= k < |t| && t[k] == s[0];
        assert s[0] == s[k + 1];
      } else {
        assert |ElemSet(s)| == |ElemSet(t)| + 1;
        if |ElemSet(s)| == |s| {
          forall i, j | 0 <= i < j < |s|
            ensures s[i] != s[j]
          {
            if i > 0 {
              assert s[i] == t[i - 1] && s[j] == t[j - 1];
            } else {
              assert s[j] == t[j - 1];
            }
          }
        }
        if forall i, j :: 0 <= i < j < |s| ==> s[i] != s[j] {
          assert forall i, j :: 0 <= i < j < |t| ==> t[i] != t[j] by {
            forall i, j | 0 <= i < j < |t|
              ensures t[i] != t[j]
            {
              assert t[i] == s[i + 1] && t[j] == s[j + 1];
            }
          }
        }
      }
    }
  }

  lemma {:induction false} RangeSetCard(n: nat)
    ensures |RangeSet(n)| == n
  {
    if n > 0 {
      RangeSetCard(n - 1);
      var smaller := RangeSet(n - 1);
      assert n - 1 !in smaller;
      assert RangeSet(n) == smaller + {n - 1};
      assert |smaller + {n - 1}| == |smaller| + 1;
    }
  }

  /** A subset at least as large as its superset is the whole superset. */
  lemma {:induction false} SubsetEqualCard<T>(a: set<T>, b: set<T>)
    requires a <= b && |b| <= |a|
    ensures a == b
    decreases |a|
  {
    if a != {} {
      var x :| x in a;
      assert |a - {x}| == |a| - 1;
      assert |b - {x}| == |b| - 1;
      SubsetEqualCard(a - {x}, b - {x});
      assert a == (a - {x}) + {x};
      assert b == (b - {x}) + {x};
    }
  }
}
