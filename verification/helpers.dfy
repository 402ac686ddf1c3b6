/** The auxiliary functions at the top of the cipher library: the cyclic
    letter shift, the key-stream builder, the 'C' padding and the byte-wise
    xor, together with the alphabet the ciphers are meant for. */
module Helpers {
  import opened Results

  /** The capital letters A-Z. */
  predicate IsLetter(c: char) {
    'A' <= c <= 'Z'
  }

  /** The alphabet of the library: the capitals plus the space. */
  predicate InAlphabet(c: char) {
    IsLetter(c) || c == ' '
  }

  /** A message written over the alphabet. */
  predicate IsText(s: string) {
    forall i :: 0 <= i < |s| ==> InAlphabet(s[i])
  }

  /** Position of a capital in the alphabet, A = 0. */
  function LetterIndex(c: char): int {
    c as int - 'A' as int
  }

  /** The letter at position `j` of the alphabet. */
  function Letter(j: int): (c: char)
    requires 0 <= j < 26
    ensures IsLetter(c) && LetterIndex(c) == j
  {
    ('A' as int + j) as char
  }

  /** shift: the space is fixed; every other character becomes the capital
      whose index is `(ord('A') + ord(x) + n) mod 26`, with the mathematical
      (never negative) modulus.  Since ord('A') + ord('A') = 130 = 5 * 26,
      a capital with index j goes to the capital with index (j + n) mod 26. */
  function Shift(x: char, n: int): (r: char)
    ensures x == ' ' ==> r == ' '
    ensures x != ' ' ==> IsLetter(r)
    ensures IsLetter(x) ==> LetterIndex(r) == (LetterIndex(x) + n) % 26
  {
    if x == ' ' then ' '
    else
      var j := ('A' as int + x as int + n) % 26;
      assert IsLetter(x) ==> j == (LetterIndex(x) + n) % 26 by {
        if IsLetter(x) {
          assert 'A' as int + x as int + n == 26 * 5 + (LetterIndex(x) + n);
        }
      }
      Letter(j)
  }

  /** Shifting by -n undoes shifting by n on every character of the
      alphabet, for every integer n. */
  lemma ShiftInverse(c: char, n: int)
    requires InAlphabet(c)
    ensures Shift(Shift(c, n), -n) == c
  {
    if c != ' ' {
      var j := LetterIndex(c);
      var a := (j + n) % 26;
      assert LetterIndex(Shift(c, n)) == a;
      var q := (j + n) / 26;
      assert j + n == 26 * q + a;
      assert a - n == j - 26 * q;
      assert (a - n) % 26 == j;
      assert LetterIndex(Shift(Shift(c, n), -n)) == j;
    }
  }

  /** `s` written `k` times in a row (Python's `s * k`). */
  function Repeat(s: string, k: nat): (r: string)
    ensures |r| == k * |s|
    ensures forall i :: 0 <= i < |r| ==> r[i] == s[i % |s|]
  {
    if k == 0 then []
    else
      var rest := Repeat(s, k - 1);
      assert |rest| == (k - 1) * |s|;
      forall i | 0 <= i < |s| + |rest|
        ensures (s + rest)[i] == s[i % |s|]
      {
        if i >= |s| {
          ModShiftDown(i, |s|);
        } else {
          ModSmall(i, |s|);
        }
      }
      s + rest
  }

  /** repeat_to_length: the key stream of exactly `length` characters that
      cycles through `s`.  The source's `int(length/len(s))` is a
      truncated float division; for the non-negative lengths it is called
      with it is integer division. */
  function RepeatToLength(s: string, length: nat): (r: string)
    requires |s| > 0
    ensures |r| == length
    ensures forall i :: 0 <= i < length ==> r[i] == s[i % |s|]
  {
    var k := length / |s| + 1;
    assert length < k * |s| by { DivMulBound(length, |s|); }
    Repeat(s, k)[..length]
  }

  /** The number of 'C's pad_with_c appends to a message of length `len`. */
  function PadCount(len: nat, modulo: nat): nat
    requires modulo >= 1
  {
    (modulo - len % modulo) % modulo
  }

  /** pad_with_c: append 'C' until the length is a multiple of `modulo`. */
  function PadWithC(message: string, modulo: nat): (r: string)
    requires modulo >= 1
    ensures |r| == |message| + PadCount(|message|, modulo)
    ensures r[..|message|] == message
    ensures forall i :: |message| <= i < |r| ==> r[i] == 'C'
    decreases PadCount(|message|, modulo)
  {
    if |message| % modulo == 0 then message
    else
      var longer := message + "C";
      PadCountStep(|message|, modulo);
      var r := PadWithC(longer, modulo);
      assert r[..|message|] == longer[..|message|];
      r
  }

  /** The padded message is the shortest extension to a multiple of
      `modulo`: its length is a multiple, lies in [|m|, |m| + modulo), and
      equals |m| when |m| already is a multiple. */
  lemma PadWithCLength(message: string, modulo: nat)
    requires modulo >= 1
    ensures |PadWithC(message, modulo)| % modulo == 0
    ensures |message| <= |PadWithC(message, modulo)| < |message| + modulo
    ensures |message| % modulo == 0 ==> PadWithC(message, modulo) == message
  {
    PadCountArith(|message|, modulo);
    if |message| % modulo == 0 {
      var r := PadWithC(message, modulo);
      assert r == r[..|message|];
    }
  }

  lemma PadCountArith(len: nat, modulo: nat)
    requires modulo >= 1
    ensures (len + PadCount(len, modulo)) % modulo == 0
    ensures PadCount(len, modulo) < modulo
    ensures len % modulo == 0 ==> PadCount(len, modulo) == 0
  {
    var a := len % modulo;
    var q := len / modulo;
    if a == 0 {
      ModSmall(0, modulo);
      ModSelf(modulo);
      DivModUnique(len, modulo, q, 0);
    } else {
      ModSmall(modulo - a, modulo);
      MulSucc(q, modulo);
      DivModUnique(len + (modulo - a), modulo, q + 1, 0);
    }
  }

  lemma PadCountStep(len: nat, modulo: nat)
    requires modulo >= 1 && len % modulo != 0
    ensures PadCount(len + 1, modulo) == PadCount(len, modulo) - 1
  {
    ModSucc(len, modulo);
    var a := len % modulo;
    ModSmall(modulo - a, modulo);
    if a + 1 < modulo {
      ModSmall(modulo - a - 1, modulo);
    } else {
      ModSelf(modulo);
    }
  }

  /** xor: element-wise exclusive or of two byte strings, failing when the
      lengths differ. */
  function Xor(a: seq<bv8>, b: seq<bv8>): (r: Result<seq<bv8>>)
    ensures r.Failure? <==> |a| != |b|
    ensures r.Failure? ==> r.error == LengthMismatch
    ensures r.Success? ==> |r.value| == |a|
    ensures r.Success? ==> forall i :: 0 <= i < |a| ==> r.value[i] == a[i] ^ b[i]
  {
    if |a| != |b| then Failure(LengthMismatch)
    else Success(seq(|a|, i requires 0 <= i < |a| => a[i] ^ b[i]))
  }

  /** Xor-ing the same operand twice gives back the first one. */
  lemma XorInvolution(a: seq<bv8>, b: seq<bv8>)
    requires |a| == |b|
    ensures Xor(Xor(a, b).value, b) == Success(a)
  {
    var once := Xor(a, b).value;
    var twice := Xor(once, b).value;
    forall i | 0 <= i < |a|
      ensures twice[i] == a[i]
    {
      assert twice[i] == (a[i] ^ b[i]) ^ b[i];
    }
    assert twice == a;
  }

  // ---- arithmetic facts about Euclidean division ----

  lemma ModSmall(i: int, n: int)
    requires 0 <= i < n
    ensures i % n == i && i / n == 0
  {
  }

  lemma ModSelf(n: int)
    requires n > 0
    ensures n % n == 0
  {
    DivModUnique(n, n, 1, 0);
  }

  lemma MulSucc(q: int, n: int)
    ensures (q + 1) * n == q * n + n
  {
  }

  lemma ModShiftDown(i: int, n: int)
    requires 0 < n <= i
    ensures (i - n) % n == i % n
  {
    DivModUnique(i - n, n, i / n - 1, i % n);
  }

  lemma DivMulBound(x: nat, n: nat)
    requires n > 0
    ensures x < (x / n + 1) * n
  {
    assert x == (x / n) * n + x % n;
    assert (x / n + 1) * n == (x / n) * n + n;
  }

  /** Division and remainder are determined by any decomposition
      x == q * n + r with 0 <= r < n. */
  lemma DivModUnique(x: int, n: int, q: int, r: int)
    requires n > 0 && 0 <= r < n && x == q * n + r
    ensures x / n == q && x % n == r
  {
    var q' := x / n;
    var r' := x % n;
    assert x == q' * n + r';
    assert (q - q') * n == r' - r;
    if q > q' {
      assert (q - q') * n >= n by { MulGrows(q - q', n); }
    } else if q < q' {
      MulGrows(q' - q, n);
    }
  }

  lemma MulGrows(d: int, n: int)
    requires d >= 1 && n > 0
    ensures d * n >= n
  {
    assert d * n == (d - 1) * n + n;
  }

  /** The remainder of x + 1 modulo n steps forward cyclically. */
  lemma ModSucc(x: int, n: int)
    requires n > 0
    ensures (x + 1) % n == if x % n + 1 == n then 0 else x % n + 1
    ensures (x + 1) / n == if x % n + 1 == n then x / n + 1 else x / n
  {
    var q := x / n;
    var r := x % n;
    assert x == q * n + r;
    if r + 1 == n {
      assert x + 1 == (q + 1) * n + 0;
      DivModUnique(x + 1, n, q + 1, 0);
    } else {
      DivModUnique(x + 1, n, q, r + 1);
    }
  }
}
