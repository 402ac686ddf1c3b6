/** The columnar permutation transposition.  The message is padded with
    'C' to a multiple of the key length ncols, dealt round-robin into ncols
    columns, the columns are scattered by the key (column i moves to slot
    key[i]) and joined.  The instance remembers the length of the last
    message it encrypted and decryption cuts its output to that length, so
    a round trip holds only for an encryption followed by a decryption on
    the same instance.  Here that remembered length is threaded explicitly:
    `Encrypt` returns the updated instance alongside the ciphertext. */
module PermutationCipher {
  import opened Results
  import opened Seqs
  import opened Permutations
  import Helpers

  datatype Permutation = Permutation(permutation: seq<int>, plaintextLength: nat)

  /** The position of row r, column j in a grid of the given width read
      row by row. */
  function Cell(r: int, j: int, width: int): int {
    r * width + j
  }

  /** Cells of a rows-by-width grid lie in [0, rows * width), and the
      division by the width recovers row and column. */
  lemma CellFacts(r: nat, j: nat, width: nat, rows: nat)
    requires j < width && r < rows
    ensures 0 <= Cell(r, j, width) < rows * width
    ensures Cell(r, j, width) / width == r && Cell(r, j, width) % width == j
  {
    MulLe(r + 1, rows, width);
    assert (r + 1) * width == r * width + width;
    Helpers.DivModUnique(Cell(r, j, width), width, r, j);
  }

  /** The constructor: it accepts exactly the bijections on 0..n-1 and
      starts with a remembered length of 0. */
  function New(key: seq<int>): (r: Result<Permutation>)
    ensures r.Success? <==> IsPermutation(key)
    ensures r.Success? ==> r.value == Permutation(key, 0)
    ensures r.Failure? ==> r.error == InvalidKey
  {
    ValidKeyIffPermutation(key);
    if ValidKey(key) then Success(Permutation(key, 0)) else Failure(InvalidKey)
  }

  /** An instance with a non-empty bijective key; an empty key makes the
      library divide by zero in both directions. */
  predicate Valid(cipher: Permutation) {
    IsPermutation(cipher.permutation) && |cipher.permutation| >= 1
  }

  /** The dealing loop of encrypt from position t on: character t goes to
      the end of column t mod ncols.  Which character lands where is
      stated by ColumnsLayout. */
  function Columns(padded: string, ncols: nat, t: nat, cols: seq<string>): (r: seq<string>)
    requires ncols >= 1 && |cols| == ncols && t <= |padded|
    ensures |r| == ncols
    decreases |padded| - t
  {
    if t == |padded| then cols
    else Columns(padded, ncols, t + 1, cols[t % ncols := cols[t % ncols] + [padded[t]]])
  }

  /** After dealing the first q * ncols + j0 characters, columns before
      j0 hold q + 1 characters and the others q, and the r-th character of
      column j is character Cell(r, j, ncols). */
  predicate Dealt(padded: string, ncols: nat, cols: seq<string>, q: nat, j0: nat)
    requires ncols >= 1 && |cols| == ncols
  {
    && j0 < ncols
    && (forall j :: 0 <= j < ncols ==> |cols[j]| == if j < j0 then q + 1 else q)
    && (forall j, r :: 0 <= j < ncols && 0 <= r < |cols[j]| ==>
          Cell(r, j, ncols) < |padded| && cols[j][r] == padded[Cell(r, j, ncols)])
  }

  /** One round of the dealing loop keeps the layout. */
  lemma DealStep(padded: string, ncols: nat, t: nat, cols: seq<string>, q: nat, j0: nat)
    requires ncols >= 1 && |cols| == ncols && t < |padded|
    requires t == Cell(q, j0, ncols) && Dealt(padded, ncols, cols, q, j0)
    ensures t % ncols == j0
    ensures var cols' := cols[j0 := cols[j0] + [padded[t]]];
      if j0 + 1 < ncols then Dealt(padded, ncols, cols', q, j0 + 1) && t + 1 == Cell(q, j0 + 1, ncols)
      else Dealt(padded, ncols, cols', q + 1, 0) && t + 1 == Cell(q + 1, 0, ncols)
  {
    Helpers.DivModUnique(t, ncols, q, j0);
    var cols' := cols[j0 := cols[j0] + [padded[t]]];
    assert |cols[j0]| == q;
    forall j, r | 0 <= j < ncols && 0 <= r < |cols'[j]|
      ensures Cell(r, j, ncols) < |padded| && cols'[j][r] == padded[Cell(r, j, ncols)]
    {
      if j == j0 && r == q {
        assert cols'[j][r] == padded[t];
      } else {
        assert cols'[j][r] == cols[j][r];
      }
    }
    if j0 + 1 == ncols {
      assert t + 1 == (q + 1) * ncols;
    }
  }

  /** The loop run from a dealt state to the end of a message of
      nrows * ncols characters. */
  lemma {:induction false} ColumnsLayout(padded: string, ncols: nat, nrows: nat, t: nat, cols: seq<string>,
                                         q: nat, j0: nat)
    requires ncols >= 1 && |padded| == nrows * ncols && |cols| == ncols && t <= |padded|
    requires t == Cell(q, j0, ncols) && Dealt(padded, ncols, cols, q, j0)
    ensures Dealt(padded, ncols, Columns(padded, ncols, t, cols), nrows, 0)
    decreases |padded| - t
  {
    if t == |padded| {
      Helpers.DivModUnique(t, ncols, q, j0);
      Helpers.DivModUnique(t, ncols, nrows, 0);
    } else {
      DealStep(padded, ncols, t, cols, q, j0);
      var cols' := cols[j0 := cols[j0] + [padded[t]]];
      if j0 + 1 < ncols {
        ColumnsLayout(padded, ncols, nrows, t + 1, cols', q, j0 + 1);
      } else {
        ColumnsLayout(padded, ncols, nrows, t + 1, cols', q + 1, 0);
      }
    }
  }

  /** Dealing a message of nrows * ncols characters into ncols columns:
      every column gets nrows characters, column j's r-th being the
      message's character Cell(r, j, ncols). */
  function Deal(padded: string, ncols: nat, nrows: nat): (cols: seq<string>)
    requires ncols >= 1 && |padded| == nrows * ncols
    ensures |cols| == ncols
    ensures forall j :: 0 <= j < ncols ==> |cols[j]| == nrows
    ensures forall j, r :: 0 <= j < ncols && 0 <= r < nrows ==>
      Cell(r, j, ncols) < |padded| && cols[j][r] == padded[Cell(r, j, ncols)]
  {
    var empty := seq(ncols, _ => []);
    ColumnsLayout(padded, ncols, nrows, 0, empty, 0, 0);
    Columns(padded, ncols, 0, empty)
  }

  /** encrypt: remember |message|, pad, deal into columns, scatter the
      columns by the key and join them. */
  function Encrypt(cipher: Permutation, message: string): (r: (Permutation, string))
    requires Valid(cipher)
    ensures r.0 == cipher.(plaintextLength := |message|)
    ensures |r.1| % |cipher.permutation| == 0
    ensures |message| <= |r.1| < |message| + |cipher.permutation|
  {
    var ncols := |cipher.permutation|;
    var padded := Helpers.PadWithC(message, ncols);
    Helpers.PadWithCLength(message, ncols);
    var nrows := |padded| / ncols;
    var cols := Deal(padded, ncols, nrows);
    var permuted := Permute(cols, cipher.permutation);
    EncryptLength(cipher, message);
    (cipher.(plaintextLength := |message|), Concat(permuted))
  }

  /** The padded message is an nrows-by-ncols grid. */
  lemma PaddedGrid(message: string, ncols: nat)
    requires ncols >= 1
    ensures |Helpers.PadWithC(message, ncols)| == |Helpers.PadWithC(message, ncols)| / ncols * ncols
  {
    Helpers.PadWithCLength(message, ncols);
    ExactGrid(|Helpers.PadWithC(message, ncols)|, ncols);
  }

  lemma ExactGrid(len: nat, ncols: nat)
    requires ncols >= 1 && len % ncols == 0
    ensures len == len / ncols * ncols
  {
    assert len == len / ncols * ncols + len % ncols;
  }

  /** The scattered columns all keep nrows characters, so the ciphertext
      is as long as the padded message. */
  lemma EncryptLength(cipher: Permutation, message: string)
    requires Valid(cipher)
    ensures var ncols := |cipher.permutation|;
      var padded := Helpers.PadWithC(message, ncols);
      var nrows := (PaddedGrid(message, ncols); |padded| / ncols);
      var permuted := Permute(Deal(padded, ncols, nrows), cipher.permutation);
      (forall d :: 0 <= d < ncols ==> |permuted[d]| == nrows)
      && |Concat(permuted)| == |padded|
  {
    var ncols := |cipher.permutation|;
    var padded := Helpers.PadWithC(message, ncols);
    PaddedGrid(message, ncols);
    var nrows := |padded| / ncols;
    var cols := Deal(padded, ncols, nrows);
    var permuted := Permute(cols, cipher.permutation);
    forall d | 0 <= d < ncols
      ensures |permuted[d]| == nrows
    {
      PermuteSlot(cols, cipher.permutation, d);
    }
    ConcatUniformLength(permuted, nrows);
  }

  /** The layout of the ciphertext: with nrows = |padded| / ncols, block
      key[j] of nrows characters is column j of the padded message, so its
      r-th character is the padded message's character r * ncols + j. */
  lemma EncryptLayout(cipher: Permutation, message: string, j: nat, r: nat)
    requires Valid(cipher)
    requires j < |cipher.permutation|
    requires r < |Helpers.PadWithC(message, |cipher.permutation|)| / |cipher.permutation|
    ensures var ncols := |cipher.permutation|;
      var padded := Helpers.PadWithC(message, ncols);
      var nrows := |padded| / ncols;
      var c := Encrypt(cipher, message).1;
      && 0 <= Cell(cipher.permutation[j], r, nrows) < |c|
      && 0 <= Cell(r, j, ncols) < |padded|
      && c[Cell(cipher.permutation[j], r, nrows)] == padded[Cell(r, j, ncols)]
  {
    var p := cipher.permutation;
    var ncols := |p|;
    var padded := Helpers.PadWithC(message, ncols);
    PaddedGrid(message, ncols);
    var nrows := |padded| / ncols;
    var cols := Deal(padded, ncols, nrows);
    var permuted := Permute(cols, p);
    EncryptLength(cipher, message);
    var c := Concat(permuted);
    ConcatUniformIndex(permuted, nrows, p[j], r);
    PermuteSlot(cols, p, p[j]);
    assert Inverse(p)[p[j]] == j;
    CellFacts(r, j, ncols, nrows);
  }

  /** The ciphertext cut into ncols blocks of nrows = |s| / ncols
      characters; block d's r-th character is the string's character
      Cell(d, r, nrows). */
  function Blocks(s: string, ncols: nat): (cols: seq<string>)
    requires ncols >= 1
    ensures |cols| == ncols
    ensures forall d :: 0 <= d < ncols ==> |cols[d]| == |s| / ncols
    ensures forall d, r :: 0 <= d < ncols && 0 <= r < |s| / ncols ==>
      Cell(d, r, |s| / ncols) < |s| && cols[d][r] == s[Cell(d, r, |s| / ncols)]
  {
    var nrows := |s| / ncols;
    var cols := seq(ncols, d requires 0 <= d < ncols =>
      BlockFits(|s|, ncols, d); Block(s, d, nrows));
    forall d, r | 0 <= d < ncols && 0 <= r < nrows
      ensures Cell(d, r, nrows) < |s| && cols[d][r] == s[Cell(d, r, nrows)]
    {
      BlockFits(|s|, ncols, d);
      BlockCell(s, d, r, nrows);
    }
    cols
  }

  /** Block d of width w: the characters [d * w, (d + 1) * w). */
  function Block(s: string, d: nat, w: nat): (b: string)
    requires (d + 1) * w <= |s|
    ensures |b| == w
  {
    BlockSpan(d, w);
    s[d * w .. (d + 1) * w]
  }

  lemma BlockSpan(d: nat, w: nat)
    ensures (d + 1) * w == d * w + w
  {
  }

  /** Character r of block d is the string's character Cell(d, r, w). */
  lemma BlockCell(s: string, d: nat, r: nat, w: nat)
    requires (d + 1) * w <= |s| && r < w
    ensures Cell(d, r, w) < |s| && Block(s, d, w)[r] == s[Cell(d, r, w)]
  {
    BlockSpan(d, w);
  }

  /** decrypt: cut the ciphertext into ncols blocks of nrows = |c| / ncols,
      gather them back with the inverse key, read the rows across, and keep
      the first `plaintextLength` characters.  The grid holds nrows * ncols
      characters, so the result has the remembered length or, when that is
      longer, the grid's length; DecryptLayout gives each character. */
  function Decrypt(cipher: Permutation, ciphertext: string): (r: string)
    requires Valid(cipher)
    ensures |r| <= cipher.plaintextLength
    ensures |r| <= |ciphertext|
    ensures var grid := |ciphertext| / |cipher.permutation| * |cipher.permutation|;
      |r| == if cipher.plaintextLength <= grid then cipher.plaintextLength else grid
  {
    var ncols := |cipher.permutation|;
    var nrows := |ciphertext| / ncols;
    var cols := Blocks(ciphertext, ncols);
    var restored := Permute(cols, Inverse(cipher.permutation));
    RestoredWidth(cols, cipher.permutation, nrows);
    GridFits(|ciphertext|, ncols);
    Take(ReadRows(restored, ncols, nrows), cipher.plaintextLength)
  }

  /** Character i of a decryption is read from row i / ncols of restored
      column i mod ncols, which is block key[i mod ncols] of the
      ciphertext: so it is the ciphertext's character
      Cell(key[i mod ncols], i / ncols, nrows), for every ciphertext and
      not only for one that encryption produced. */
  lemma DecryptLayout(cipher: Permutation, ciphertext: string, i: nat)
    requires Valid(cipher) && i < cipher.plaintextLength
    requires i < |ciphertext| / |cipher.permutation| * |cipher.permutation|
    ensures i < |Decrypt(cipher, ciphertext)|
    ensures var ncols := |cipher.permutation|;
      var nrows := |ciphertext| / ncols;
      && 0 <= Cell(cipher.permutation[i % ncols], i / ncols, nrows) < |ciphertext|
      && Decrypt(cipher, ciphertext)[i] == ciphertext[Cell(cipher.permutation[i % ncols], i / ncols, nrows)]
  {
    var p := cipher.permutation;
    var ncols := |p|;
    var nrows := |ciphertext| / ncols;
    var cols := Blocks(ciphertext, ncols);
    var inverse := Inverse(p);
    var restored := Permute(cols, inverse);
    RestoredWidth(cols, p, nrows);
    GridFits(|ciphertext|, ncols);
    var read := ReadRows(restored, ncols, nrows);
    assert Decrypt(cipher, ciphertext) == Take(read, cipher.plaintextLength);
    RowMajor(i, ncols, nrows);
    var rr, j := i / ncols, i % ncols;
    var d := p[j];
    assert 0 <= d < ncols;
    assert read[i] == restored[j][rr] by {
      assert i == Cell(rr, j, ncols);
    }
    assert restored[j] == cols[d] by {
      GatherSlot(cols, p, j);
    }
    assert 0 <= rr < nrows;
    CellFacts(d, rr, nrows, ncols);
    assert Cell(d, rr, nrows) < |ciphertext| && cols[d][rr] == ciphertext[Cell(d, rr, nrows)];
    assert Decrypt(cipher, ciphertext)[i] == read[i];
  }

  /** Gathering with the inverse key brings block key[j] back to slot j. */
  lemma GatherSlot<T>(cols: seq<T>, p: seq<int>, j: nat)
    requires IsPermutation(p) && |cols| == |p| && j < |p|
    ensures Permute(cols, Inverse(p))[j] == cols[p[j]]
  {
    var inverse := Inverse(p);
    assert inverse[p[j]] == j;
  }

  /** Reading an nrows-by-ncols grid given as columns row by row. */
  function ReadRows(cols: seq<string>, ncols: nat, nrows: nat): (r: string)
    requires ncols >= 1 && |cols| == ncols
    requires forall j :: 0 <= j < ncols ==> |cols[j]| == nrows
    ensures |r| == nrows * ncols
    ensures forall rr, j :: 0 <= rr < nrows && 0 <= j < ncols ==>
      Cell(rr, j, ncols) < |r| && r[Cell(rr, j, ncols)] == cols[j][rr]
  {
    var r := seq(nrows * ncols, i requires 0 <= i < nrows * ncols =>
      RowMajor(i, ncols, nrows); cols[i % ncols][i / ncols]);
    forall rr, j | 0 <= rr < nrows && 0 <= j < ncols
      ensures Cell(rr, j, ncols) < |r| && r[Cell(rr, j, ncols)] == cols[j][rr]
    {
      CellFacts(rr, j, ncols, nrows);
    }
    r
  }

  /** The nrows = len / ncols full rows of the grid fit in len. */
  lemma GridFits(len: nat, ncols: nat)
    requires ncols >= 1
    ensures len / ncols * ncols <= len
  {
    var q, r := len / ncols, len % ncols;
    assert len == q * ncols + r;
  }

  /** Gathering equally wide columns keeps them equally wide. */
  lemma RestoredWidth(cols: seq<string>, p: seq<int>, w: nat)
    requires IsPermutation(p) && |cols| == |p|
    requires forall d :: 0 <= d < |cols| ==> |cols[d]| == w
    ensures forall j :: 0 <= j < |p| ==> |Permute(cols, Inverse(p))[j]| == w
  {
    var inverse := Inverse(p);
    forall j | 0 <= j < |p|
      ensures |Permute(cols, inverse)[j]| == w
    {
      assert Permute(cols, inverse)[inverse[p[j]]] == cols[p[j]];
    }
  }

  /** Block i < ncols of width nrows = len / ncols lies inside a string
      of length len. */
  lemma BlockFits(len: nat, ncols: nat, i: nat)
    requires ncols >= 1 && i < ncols
    ensures (i + 1) * (len / ncols) <= len
  {
    MulLe(i + 1, ncols, len / ncols);
  }

  lemma MulLe(a: nat, b: nat, c: nat)
    requires a <= b
    ensures a * c <= b * c
  {
    assert b * c == a * c + (b - a) * c;
  }

  /** Position i of an nrows-by-ncols grid read row by row is row i / ncols,
      column i % ncols. */
  lemma RowMajor(i: int, ncols: nat, nrows: nat)
    requires ncols >= 1 && 0 <= i < nrows * ncols
    ensures 0 <= i / ncols < nrows && 0 <= i % ncols < ncols
    ensures i == Cell(i / ncols, i % ncols, ncols)
  {
    if i / ncols >= nrows {
      MulLe(nrows, i / ncols, ncols);
    }
  }

  /** Decrypting on the instance that encryption returned gives back the
      message, the padding stripped. */
  lemma RoundTrip(cipher: Permutation, m: string)
    requires Valid(cipher)
    ensures Decrypt(Encrypt(cipher, m).0, Encrypt(cipher, m).1) == m
  {
    var p := cipher.permutation;
    var ncols := |p|;
    var padded := Helpers.PadWithC(m, ncols);
    PaddedGrid(m, ncols);
    var nrows := |padded| / ncols;
    var (cipher', c) := Encrypt(cipher, m);
    EncryptLength(cipher, m);
    assert |c| / ncols == nrows;
    var cols := Blocks(c, ncols);
    var inverse := Inverse(p);
    var restored := Permute(cols, inverse);
    RestoredWidth(cols, p, nrows);
    var decrypted := ReadRows(restored, ncols, nrows);
    assert Decrypt(cipher', c) == Take(decrypted, |m|);
    forall i | 0 <= i < |padded|
      ensures decrypted[i] == padded[i]
    {
      RowMajor(i, ncols, nrows);
      var rr, j := i / ncols, i % ncols;
      assert restored[inverse[p[j]]] == cols[p[j]];
      EncryptLayout(cipher, m, j, rr);
    }
    assert decrypted == padded;
    Helpers.PadWithCLength(m, ncols);
  }

  /** A fresh instance remembers length 0, so it decrypts anything to the
      empty string. */
  lemma FreshDecryptsToEmpty(key: seq<int>, ciphertext: string)
    requires New(key).Success? && |key| >= 1
    ensures Decrypt(New(key).value, ciphertext) == ""
  {
  }

  /** The key [0, 0, 2, 3] misses index 1 and is refused; [2, 0, 3, 1] is
      accepted. */
  lemma KeyExamples()
    ensures New([0, 0, 2, 3]) == Failure(InvalidKey)
    ensures New([2, 0, 3, 1]) == Success(Permutation([2, 0, 3, 1], 0))
  {
    assert 1 !in [0, 0, 2, 3];
  }

  /** With key [2, 0, 3, 1], HELLO is padded to eight characters and
      decryption on the same instance strips the padding again. */
  lemma PaddingExample(cipher: Permutation, m: string)
    requires cipher == Permutation([2, 0, 3, 1], 0) && m == "HELLO"
    ensures var (after, c) := Encrypt(cipher, m);
      |c| == 8 && after.plaintextLength == 5 && Decrypt(after, c) == m
  {
    HelloPadded();
    EncryptLength(cipher, m);
    RoundTrip(cipher, m);
  }

  lemma HelloPadded()
    ensures Helpers.PadWithC("HELLO", 4) == "HELLOCCC"
  {
    var padded := Helpers.PadWithC("HELLO", 4);
    Helpers.PadWithCLength("HELLO", 4);
    assert |padded| == 8;
  }

  /** With key [2, 0, 3, 1], HELLO is padded to HELLOCCC, dealt into the
      columns HO, EC, LC, LC, and these land in slots 2, 0, 3, 1. */
  lemma HelloExample(cipher: Permutation, m: string)
    requires cipher == Permutation([2, 0, 3, 1], 0) && m == "HELLO"
    ensures Encrypt(cipher, m).1 == "ECLCHOLC"
  {
    HelloSlots01(cipher, m);
    HelloSlots23(cipher, m);
  }

  /** Slots 0 and 1 receive columns 1 (EC) and 3 (LC). */
  lemma HelloSlots01(cipher: Permutation, m: string)
    requires cipher == Permutation([2, 0, 3, 1], 0) && m == "HELLO"
    ensures |Encrypt(cipher, m).1| == 8
    ensures var c := Encrypt(cipher, m).1;
      c[0] == 'E' && c[1] == 'C' && c[2] == 'L' && c[3] == 'C'
  {
    HelloCell(cipher, m, 1, 0, 0, 'E');
    HelloCell(cipher, m, 1, 1, 1, 'C');
    HelloCell(cipher, m, 3, 0, 2, 'L');
    HelloCell(cipher, m, 3, 1, 3, 'C');
  }

  /** Slots 2 and 3 receive columns 0 (HO) and 2 (LC). */
  lemma HelloSlots23(cipher: Permutation, m: string)
    requires cipher == Permutation([2, 0, 3, 1], 0) && m == "HELLO"
    ensures |Encrypt(cipher, m).1| == 8
    ensures var c := Encrypt(cipher, m).1;
      c[4] == 'H' && c[5] == 'O' && c[6] == 'L' && c[7] == 'C'
  {
    HelloCell(cipher, m, 0, 0, 4, 'H');
    HelloCell(cipher, m, 0, 1, 5, 'O');
    HelloCell(cipher, m, 2, 0, 6, 'L');
    HelloCell(cipher, m, 2, 1, 7, 'C');
  }

  /** One character of the example: row r of column j of HELLOCCC lands at
      row r of block key[j]. */
  lemma HelloCell(cipher: Permutation, m: string, j: nat, r: nat, k: nat, ch: char)
    requires cipher == Permutation([2, 0, 3, 1], 0) && m == "HELLO"
    requires j < 4 && r < 2 && k == 2 * [2, 0, 3, 1][j] + r && ch == "HELLOCCC"[4 * r + j]
    ensures |Encrypt(cipher, m).1| == 8 && Encrypt(cipher, m).1[k] == ch
  {
    HelloPadded();
    var padded := Helpers.PadWithC(m, 4);
    assert |padded| / 4 == 2;
    EncryptLength(cipher, m);
    EncryptLayout(cipher, m, j, r);
    assert Cell(cipher.permutation[j], r, 2) == k;
    assert padded[Cell(r, j, 4)] == ch;
  }

}
