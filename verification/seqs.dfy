/** Sequence operations the ciphers build on: Python's `''.join(...)` over a
    list of strings, and Python's clamping slices. */
module Seqs {

  /** `''.join(ss)`: the pieces written one after another.  Joining one
      piece gives that piece; where each piece of a longer list sits is
      stated by ConcatSplit, and joining two lists of pieces by
      ConcatAppend. */
  function Concat<T>(ss: seq<seq<T>>): (r: seq<T>)
    ensures |ss| == 1 ==> r == ss[0]
  {
    if |ss| == 0 then [] else Concat(ss[..|ss| - 1]) + ss[|ss| - 1]
  }

  /** Joining distributes over concatenating the lists of pieces. */
  lemma {:induction false} ConcatAppend<T>(a: seq<seq<T>>, b: seq<seq<T>>)
    ensures Concat(a + b) == Concat(a) + Concat(b)
    decreases |b|
  {
    if |b| == 0 {
      assert a + b == a;
    } else {
      var b' := b[..|b| - 1];
      assert (a + b)[..|a + b| - 1] == a + b';
      assert Concat(a + b) == Concat(a + b') + b[|b| - 1];
      assert Concat(b) == Concat(b') + b[|b| - 1];
      ConcatAppend(a, b');
    }
  }

  /** The join seen around one piece: what comes before it, the piece, and
      what comes after it. */
  lemma {:induction false} ConcatSplit<T>(ss: seq<seq<T>>, d: nat)
    requires d < |ss|
    ensures Concat(ss) == Concat(ss[..d]) + ss[d] + Concat(ss[d + 1..])
  {
    var pre := ss[..d];
    var post := ss[d + 1..];
    assert ss == (pre + [ss[d]]) + post;
    ConcatAppend(pre + [ss[d]], post);
    ConcatAppend(pre, [ss[d]]);
    assert [ss[d]][..0] == [];
    assert Concat([ss[d]]) == ss[d];
  }

  /** When every piece has length `w`, the join has |ss| * w elements and
      piece d occupies positions [d * w, (d + 1) * w). */
  lemma {:induction false} ConcatUniformLength<T>(ss: seq<seq<T>>, w: nat)
    requires forall k :: 0 <= k < |ss| ==> |ss[k]| == w
    ensures |Concat(ss)| == |ss| * w
    decreases |ss|
  {
    if |ss| > 0 {
      ConcatUniformLength(ss[..|ss| - 1], w);
      assert |ss| * w == (|ss| - 1) * w + w;
    }
  }

  /** Element r of piece d of a join of equally long pieces sits at
      d * w + r. */
  lemma ConcatUniformIndex<T>(ss: seq<seq<T>>, w: nat, d: nat, r: nat)
    requires forall k :: 0 <= k < |ss| ==> |ss[k]| == w
    requires d < |ss| && r < w
    ensures d * w + r < |Concat(ss)|
    ensures Concat(ss)[d * w + r] == ss[d][r]
  {
    ConcatUniformLength(ss[..d], w);
    ConcatSplit(ss, d);
    var pre := Concat(ss[..d]);
    assert Concat(ss) == (pre + ss[d]) + Concat(ss[d + 1..]);
    assert (pre + ss[d])[|pre| + r] == ss[d][r];
  }

  /** Appending one element to one piece adds exactly that element to the
      join's contents. */
  lemma ConcatAppendToPiece<T>(ss: seq<seq<T>>, i: nat, x: T)
    requires i < |ss|
    ensures multiset(Concat(ss[i := ss[i] + [x]])) == multiset(Concat(ss)) + multiset{x}
  {
    var ss' := ss[i := ss[i] + [x]];
    ConcatSplit(ss, i);
    ConcatSplit(ss', i);
    assert ss'[..i] == ss[..i];
    assert ss'[i + 1..] == ss[i + 1..];
  }

  /** Python's `s[:n]` for n >= 0: the first n elements, or all of s. */
  function Take<T>(s: seq<T>, n: nat): (r: seq<T>)
    ensures |r| == if n <= |s| then n else |s|
    ensures r == s[..|r|]
  {
    if n <= |s| then s[..n] else s
  }

  /** Python's `s[lo:hi]` for lo, hi >= 0: both ends are clamped to |s|
      and the slice is empty when hi <= lo. */
  function Slice<T>(s: seq<T>, lo: nat, hi: nat): (r: seq<T>)
    ensures lo <= hi <= |s| ==> r == s[lo..hi]
    ensures |r| <= |s|
  {
    var a := if lo <= |s| then lo else |s|;
    var b := if hi <= |s| then hi else |s|;
    if b <= a then [] else s[a..b]
  }
}
