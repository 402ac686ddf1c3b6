/** The rail fence (zig-zag) transposition.  Encryption writes the message
    along a zig-zag over `nrows` rows (down from row 0 to row nrows-1, back
    up to row 0, and so on) and then reads the rows top to bottom.

    The library's decrypt counts how many characters each row holds and then
    joins consecutive slices of the ciphertext with those lengths; since the
    counts add up to the ciphertext's length, that is the ciphertext itself.
    `Decrypt` models that code; `DecryptCorrected` is the intended
    decryption, reading the rows back along the same zig-zag. */
module RailFenceCipher {
  import opened Results
  import opened Seqs
  import Helpers

  datatype RailFence = RailFence(nrows: int)

  /** The constructor refuses fewer than two rows. */
  function New(nrows: int): (r: Result<RailFence>)
    ensures r.Success? <==> nrows >= 2
    ensures r.Success? ==> r.value.nrows == nrows
    ensures r.Failure? ==> r.error == InvalidKey
  {
    if nrows < 2 then Failure(InvalidKey) else Success(RailFence(nrows))
  }

  // ---------------------------------------------------------------------
  // The zig-zag walk
  // ---------------------------------------------------------------------

  /** The direction update in encrypt: `if i % (nrows-1) == 0: step = -1`
      followed by `if i == 0: step = 1`.  On the fence it turns down at the
      top rail, up at the bottom rail, and keeps going in between, so the
      walk never leaves rows 0..nrows-1. */
  function EncryptStep(nrows: int, i: int, step: int): (s: int)
    requires nrows >= 2
    ensures i == 0 ==> s == 1
    ensures i == nrows - 1 ==> s == -1
    ensures 0 < i < nrows - 1 ==> s == step
    ensures 0 <= i < nrows && (step == 1 || step == -1) ==> (s == 1 || s == -1) && 0 <= i + s < nrows
  {
    RailEnds(nrows, i);
    var s := if i % (nrows - 1) == 0 then -1 else step;
    if i == 0 then 1 else s
  }

  /** The direction update in decrypt: `if i == 0: step = 1` and
      `elif i % (nrows-1) == 0: step = -1`.  The two orderings agree. */
  function DecryptStep(nrows: int, i: int, step: int): (s: int)
    requires nrows >= 2
    ensures s == EncryptStep(nrows, i, step)
  {
    if i == 0 then 1 else if i % (nrows - 1) == 0 then -1 else step
  }

  /** On the fence, `i % (nrows-1) == 0` picks out the top and bottom rails. */
  lemma RailEnds(nrows: int, i: int)
    requires nrows >= 2
    ensures 0 <= i < nrows ==> (i % (nrows - 1) == 0 <==> i == 0 || i == nrows - 1)
  {
    if i == nrows - 1 {
      Helpers.DivModUnique(i, nrows - 1, 1, 0);
    } else if 0 < i < nrows - 1 {
      Helpers.ModSmall(i, nrows - 1);
    }
  }

  /** The walk's state (row, step) just before character t is placed. */
  function Walk(nrows: int, t: nat): (st: (int, int))
    requires nrows >= 2
    ensures 0 <= st.0 < nrows
    ensures st.1 == 1 || st.1 == -1
  {
    if t == 0 then (0, 1)
    else
      var prev := Walk(nrows, t - 1);
      var s := EncryptStep(nrows, prev.0, prev.1);
      (prev.0 + s, s)
  }

  /** The row that receives character t. */
  function Row(nrows: int, t: nat): int
    requires nrows >= 2
  {
    Walk(nrows, t).0
  }

  /** The bouncing row sequence 0, 1, ..., nrows-1, nrows-2, ..., 1, 0, 1,
      ... in closed form: a triangle wave of period 2 * (nrows - 1). */
  function ZigZag(nrows: int, t: nat): (r: int)
    requires nrows >= 2
    ensures 0 <= r < nrows
  {
    var period := 2 * (nrows - 1);
    var phase := t % period;
    if phase < nrows then phase else period - phase
  }

  /** The direction the triangle wave moves in at position t, away from
      the rails: down during the first half of a period, up after. */
  function Heading(nrows: int, t: nat): int
    requires nrows >= 2
  {
    if t % (2 * (nrows - 1)) < nrows then 1 else -1
  }

  /** One step of the triangle wave: it leaves the top rail downwards,
      the bottom rail upwards, and keeps its heading in between. */
  lemma ZigZagSucc(nrows: int, t: nat)
    requires nrows >= 2
    ensures var z := ZigZag(nrows, t);
      && (z == 0 ==> ZigZag(nrows, t + 1) == 1)
      && (z == nrows - 1 ==> ZigZag(nrows, t + 1) == nrows - 2)
      && (0 < z < nrows - 1 ==> ZigZag(nrows, t + 1) == z + Heading(nrows, t))
      && (0 < ZigZag(nrows, t + 1) < nrows - 1 ==>
            Heading(nrows, t + 1) == ZigZag(nrows, t + 1) - z)
  {
    var period := 2 * (nrows - 1);
    var ph := t % period;
    Helpers.ModSucc(t, period);
    if ph == 0 {
      assert (t + 1) % period == 1;
    } else if ph < nrows - 1 {
      assert (t + 1) % period == ph + 1;
    } else if ph == nrows - 1 {
      if nrows > 2 {
        assert (t + 1) % period == nrows;
      } else {
        assert (t + 1) % period == 0;
      }
    } else if ph + 1 < period {
      assert (t + 1) % period == ph + 1;
    } else {
      assert (t + 1) % period == 0;
    }
  }

  /** The step-by-step walk both loops perform is the triangle wave. */
  lemma {:induction false} WalkIsZigZag(nrows: int, t: nat)
    requires nrows >= 2
    ensures Row(nrows, t) == ZigZag(nrows, t)
    ensures 0 < ZigZag(nrows, t) < nrows - 1 ==> Walk(nrows, t).1 == Heading(nrows, t)
  {
    if t > 0 {
      WalkIsZigZag(nrows, t - 1);
      ZigZagSucc(nrows, t - 1);
    }
  }

  /** Within the first descent the row is the position itself. */
  lemma {:induction false} WalkDescends(nrows: int, t: nat)
    requires nrows >= 2 && t < nrows
    ensures Row(nrows, t) == t
    ensures Walk(nrows, t).1 == 1
  {
    if t > 0 {
      WalkDescends(nrows, t - 1);
    }
  }

  // ---------------------------------------------------------------------
  // Rows as a reference: which characters land on which rail
  // ---------------------------------------------------------------------

  /** The characters among the first L of m that land on row r, in order. */
  function RowOf(nrows: int, m: string, r: int, L: nat): string
    requires nrows >= 2 && L <= |m|
  {
    if L == 0 then []
    else RowOf(nrows, m, r, L - 1) + (if Row(nrows, L - 1) == r then [m[L - 1]] else [])
  }

  /** How many of the first L positions land on row r. */
  function RowCount(nrows: int, r: int, L: nat): nat
    requires nrows >= 2
  {
    if L == 0 then 0
    else RowCount(nrows, r, L - 1) + (if Row(nrows, L - 1) == r then 1 else 0)
  }

  /** All the rows of m, top to bottom. */
  function Rows(nrows: int, m: string): (rows: seq<string>)
    requires nrows >= 2
    ensures |rows| == nrows
  {
    seq(nrows, r requires 0 <= r < nrows => RowOf(nrows, m, r, |m|))
  }

  lemma {:induction false} RowOfLength(nrows: int, m: string, r: int, L: nat)
    requires nrows >= 2 && L <= |m|
    ensures |RowOf(nrows, m, r, L)| == RowCount(nrows, r, L)
  {
    if L > 0 {
      RowOfLength(nrows, m, r, L - 1);
    }
  }

  lemma {:induction false} RowOfPrefix(nrows: int, m: string, r: int, L: nat, L': nat)
    requires nrows >= 2 && L <= L' <= |m|
    ensures |RowOf(nrows, m, r, L)| <= |RowOf(nrows, m, r, L')|
    ensures RowOf(nrows, m, r, L) == RowOf(nrows, m, r, L')[..|RowOf(nrows, m, r, L)|]
    decreases L' - L
  {
    if L < L' {
      RowOfPrefix(nrows, m, r, L, L' - 1);
      var a := RowOf(nrows, m, r, L);
      var b := RowOf(nrows, m, r, L' - 1);
      var c := RowOf(nrows, m, r, L');
      assert c[..|b|] == b;
      assert c[..|a|] == b[..|a|];
    }
  }

  /** Character t sits in its row at the position given by how many
      earlier characters share that row. */
  lemma RowOfAt(nrows: int, m: string, t: nat)
    requires nrows >= 2 && t < |m|
    ensures RowCount(nrows, Row(nrows, t), t) < RowCount(nrows, Row(nrows, t), |m|)
    ensures |RowOf(nrows, m, Row(nrows, t), |m|)| == RowCount(nrows, Row(nrows, t), |m|)
    ensures RowOf(nrows, m, Row(nrows, t), |m|)[RowCount(nrows, Row(nrows, t), t)] == m[t]
  {
    var r := Row(nrows, t);
    var before := RowOf(nrows, m, r, t);
    var upto := RowOf(nrows, m, r, t + 1);
    var all := RowOf(nrows, m, r, |m|);
    RowOfLength(nrows, m, r, t);
    RowOfLength(nrows, m, r, |m|);
    assert upto == before + [m[t]];
    RowOfPrefix(nrows, m, r, t + 1, |m|);
    assert all[..|upto|] == upto;
    assert all[|before|] == upto[|before|] == m[t];
  }

  // ---------------------------------------------------------------------
  // Encryption
  // ---------------------------------------------------------------------

  /** The encrypt loop from character t on: append the character to the
      current row, update the step, move.  Which row gets which character
      is stated by EncryptLoopRows. */
  function EncryptLoop(nrows: int, message: string, t: nat, rows: seq<string>, i: int, step: int)
    : (r: seq<string>)
    requires nrows >= 2 && |rows| == nrows && t <= |message|
    requires 0 <= i < nrows && (step == 1 || step == -1)
    ensures |r| == nrows
    decreases |message| - t
  {
    if t == |message| then rows
    else
      var step' := EncryptStep(nrows, i, step);
      EncryptLoop(nrows, message, t + 1, rows[i := rows[i] + [message[t]]], i + step', step')
  }

  /** Each iteration adds its character to exactly one row, so the loop
      only moves characters around. */
  lemma {:induction false} EncryptLoopMultiset(nrows: int, message: string, t: nat, rows: seq<string>,
                                               i: int, step: int)
    requires nrows >= 2 && |rows| == nrows && t <= |message|
    requires 0 <= i < nrows && (step == 1 || step == -1)
    ensures multiset(Concat(EncryptLoop(nrows, message, t, rows, i, step)))
            == multiset(Concat(rows)) + multiset(message[t..])
    decreases |message| - t
  {
    if t < |message| {
      var step' := EncryptStep(nrows, i, step);
      var rows' := rows[i := rows[i] + [message[t]]];
      assert EncryptLoop(nrows, message, t, rows, i, step)
          == EncryptLoop(nrows, message, t + 1, rows', i + step', step');
      EncryptLoopMultiset(nrows, message, t + 1, rows', i + step', step');
      ConcatAppendToPiece(rows, i, message[t]);
      MultisetUncons(message, t);
    }
  }

  lemma MultisetUncons(s: string, t: nat)
    requires t < |s|
    ensures multiset(s[t..]) == multiset{s[t]} + multiset(s[t + 1..])
  {
    assert s[t..] == [s[t]] + s[t + 1..];
  }

  /** encrypt: walk the zig-zag filling the rows, then join the rows top
      to bottom.  Which character lands where is stated by EncryptIsRows,
      and that it only moves characters around by EncryptIsPermutation. */
  function Encrypt(cipher: RailFence, message: string): (r: string)
    requires cipher.nrows >= 2
    ensures |r| == |message|
  {
    EncryptRearranges(cipher, message);
    Concat(EncryptLoop(cipher.nrows, message, 0, seq(cipher.nrows, _ => []), 0, 1))
  }

  /** The ciphertext is a rearrangement of the message: same characters,
      same number of each. */
  lemma EncryptRearranges(cipher: RailFence, message: string)
    requires cipher.nrows >= 2
    ensures var r := Concat(EncryptLoop(cipher.nrows, message, 0, seq(cipher.nrows, _ => []), 0, 1));
      multiset(r) == multiset(message) && |r| == |message|
  {
    var empty := seq(cipher.nrows, _ => []);
    ConcatUniformLength(empty, 0);
    assert Concat(empty) == [];
    assert message[0..] == message;
    EncryptLoopMultiset(cipher.nrows, message, 0, empty, 0, 1);
    var r := Concat(EncryptLoop(cipher.nrows, message, 0, empty, 0, 1));
    assert |multiset(r)| == |multiset(message)|;
  }

  /** Encrypt only moves characters around. */
  lemma EncryptIsPermutation(cipher: RailFence, message: string)
    requires cipher.nrows >= 2
    ensures multiset(Encrypt(cipher, message)) == multiset(message)
  {
    EncryptRearranges(cipher, message);
  }

  /** The loop, started at position t in the state the walk has reached
      there, ends with every row holding exactly its characters. */
  lemma {:induction false} EncryptLoopRows(nrows: int, m: string, t: nat, rows: seq<string>)
    requires nrows >= 2 && t <= |m| && |rows| == nrows
    requires forall r :: 0 <= r < nrows ==> rows[r] == RowOf(nrows, m, r, t)
    ensures EncryptLoop(nrows, m, t, rows, Walk(nrows, t).0, Walk(nrows, t).1) == Rows(nrows, m)
    decreases |m| - t
  {
    if t < |m| {
      var rows' := RowsAdvance(nrows, m, t, rows);
      EncryptLoopRows(nrows, m, t + 1, rows');
    } else {
      var all := Rows(nrows, m);
      assert forall r :: 0 <= r < nrows ==> rows[r] == all[r];
      assert rows == all;
    }
  }

  /** One iteration of the encrypt loop, in the walk's state, appends
      character t to the row the walk is on. */
  lemma RowsAdvance(nrows: int, m: string, t: nat, rows: seq<string>) returns (rows': seq<string>)
    requires nrows >= 2 && t < |m| && |rows| == nrows
    requires forall r :: 0 <= r < nrows ==> rows[r] == RowOf(nrows, m, r, t)
    ensures |rows'| == nrows
    ensures forall r :: 0 <= r < nrows ==> rows'[r] == RowOf(nrows, m, r, t + 1)
    ensures EncryptLoop(nrows, m, t, rows, Walk(nrows, t).0, Walk(nrows, t).1)
         == EncryptLoop(nrows, m, t + 1, rows', Walk(nrows, t + 1).0, Walk(nrows, t + 1).1)
  {
    var st := Walk(nrows, t);
    var i := st.0;
    rows' := rows[i := rows[i] + [m[t]]];
    forall r | 0 <= r < nrows
      ensures rows'[r] == RowOf(nrows, m, r, t + 1)
    {
      if r == i {
        assert rows'[r] == RowOf(nrows, m, r, t) + [m[t]];
      } else {
        assert rows'[r] == RowOf(nrows, m, r, t);
      }
    }
  }

  /** Encryption equals the rows of the zig-zag, read top to bottom. */
  lemma EncryptIsRows(cipher: RailFence, m: string)
    requires cipher.nrows >= 2
    ensures Encrypt(cipher, m) == Concat(Rows(cipher.nrows, m))
  {
    EncryptLoopRows(cipher.nrows, m, 0, seq(cipher.nrows, _ => []));
  }

  /** A message no longer than the number of rows fills one character per
      row and comes out unchanged. */
  lemma EncryptShortIsIdentity(cipher: RailFence, m: string)
    requires cipher.nrows >= 2 && |m| <= cipher.nrows
    ensures Encrypt(cipher, m) == m
  {
    var n := cipher.nrows;
    var rows := Rows(n, m);
    EncryptIsRows(cipher, m);
    forall r | 0 <= r < n
      ensures rows[r] == if r < |m| then [m[r]] else []
    {
      RowOfShort(n, m, r, |m|);
    }
    ConcatSingletons(rows, m);
  }

  lemma {:induction false} RowOfShort(nrows: int, m: string, r: int, L: nat)
    requires nrows >= 2 && L <= |m| <= nrows
    ensures RowOf(nrows, m, r, L) == if 0 <= r < L then [m[r]] else []
  {
    if L > 0 {
      RowOfShort(nrows, m, r, L - 1);
      WalkDescends(nrows, L - 1);
    }
  }

  /** Joining [m[0]], ..., [m[|m|-1]], followed by empty rows, gives m. */
  lemma {:induction false} ConcatSingletons(rows: seq<string>, m: string)
    requires |m| <= |rows|
    requires forall r :: 0 <= r < |rows| ==> rows[r] == if r < |m| then [m[r]] else []
    ensures Concat(rows) == m
    decreases |rows|
  {
    if |rows| > 0 {
      var k := |rows| - 1;
      if k < |m| {
        assert k == |m| - 1;
        ConcatSingletons(rows[..k], m[..k]);
        assert m == m[..k] + [m[k]];
      } else {
        ConcatSingletons(rows[..k], m);
      }
    }
  }

  /** The classic example with three rows. */
  lemma WeAreDiscoveredExample(cipher: RailFence, m: string)
    requires cipher == RailFence(3) && m == "WEAREDISCOVEREDFLEEATONCE"
    ensures Encrypt(cipher, m) == "WECRLTEERDSOEEFEAOCAIVDEN"
  {
    var rows := WeAreDiscoveredRows();
    assert seq(3, _ => []) == ["", "", ""];
    ConcatThree(rows[0], rows[1], rows[2]);
    assert rows == [rows[0], rows[1], rows[2]];
    assert Encrypt(cipher, m) == Concat(rows);
  }

  lemma ConcatThree<T>(a: seq<T>, b: seq<T>, c: seq<T>)
    ensures Concat([a, b, c]) == a + b + c
  {
    assert [a][..0] == [];
    assert Concat([a]) == a;
    assert [a, b][..1] == [a];
    assert Concat([a, b]) == a + b;
    assert [a, b, c][..2] == [a, b];
  }

  /** The three rows of the classic example, as the loop fills them. */
  lemma WeAreDiscoveredRows() returns (rows: seq<string>)
    ensures rows == ["WECRLTE", "ERDSOEEFEAOC", "AIVDEN"]
    ensures EncryptLoop(3, "WEAREDISCOVEREDFLEEATONCE", 0, ["", "", ""], 0, 1) == rows
  {
    WeAreDiscoveredPart0();
    WeAreDiscoveredPart1();
    WeAreDiscoveredPart2();
    WeAreDiscoveredPart3();
    WeAreDiscoveredPart4();
    rows := ["WECRLTE", "ERDSOEEFEAOC", "AIVDEN"];
  }

  /** One iteration of the encrypt loop, landing in a given state. */
  lemma LoopStep(nrows: int, m: string, t: nat, rows: seq<string>, i: int, step: int,
                 rows': seq<string>, i': int, step': int)
    requires nrows >= 2 && |rows| == nrows && t < |m|
    requires 0 <= i < nrows && (step == 1 || step == -1)
    requires rows' == rows[i := rows[i] + [m[t]]]
    requires step' == EncryptStep(nrows, i, step) && i' == i + step'
    ensures EncryptLoop(nrows, m, t, rows, i, step) == EncryptLoop(nrows, m, t + 1, rows', i', step')
  {
  }

  lemma WeAreDiscoveredPart0()
    ensures var M := "WEAREDISCOVEREDFLEEATONCE";
      EncryptLoop(3, M, 0, ["", "", ""], 0, 1)
      == EncryptLoop(3, M, 5, ["WE", "ER", "A"], 1, 1)
  {
    var M := "WEAREDISCOVEREDFLEEATONCE";
    assert "" + [M[0]] == "W";
    LoopStep(3, M, 0, ["", "", ""], 0, 1, ["W", "", ""], 1, 1);
    assert "" + [M[1]] == "E";
    LoopStep(3, M, 1, ["W", "", ""], 1, 1, ["W", "E", ""], 2, 1);
    assert "" + [M[2]] == "A";
    LoopStep(3, M, 2, ["W", "E", ""], 2, 1, ["W", "E", "A"], 1, -1);
    assert "E" + [M[3]] == "ER";
    LoopStep(3, M, 3, ["W", "E", "A"], 1, -1, ["W", "ER", "A"], 0, -1);
    assert "W" + [M[4]] == "WE";
    LoopStep(3, M, 4, ["W", "ER", "A"], 0, -1, ["WE", "ER", "A"], 1, 1);
  }

  lemma WeAreDiscoveredPart1()
    ensures var M := "WEAREDISCOVEREDFLEEATONCE";
      EncryptLoop(3, M, 5, ["WE", "ER", "A"], 1, 1)
      == EncryptLoop(3, M, 10, ["WEC", "ERDSO", "AI"], 2, 1)
  {
    var M := "WEAREDISCOVEREDFLEEATONCE";
    assert "ER" + [M[5]] == "ERD";
    LoopStep(3, M, 5, ["WE", "ER", "A"], 1, 1, ["WE", "ERD", "A"], 2, 1);
    assert "A" + [M[6]] == "AI";
    LoopStep(3, M, 6, ["WE", "ERD", "A"], 2, 1, ["WE", "ERD", "AI"], 1, -1);
    assert "ERD" + [M[7]] == "ERDS";
    LoopStep(3, M, 7, ["WE", "ERD", "AI"], 1, -1, ["WE", "ERDS", "AI"], 0, -1);
    assert "WE" + [M[8]] == "WEC";
    LoopStep(3, M, 8, ["WE", "ERDS", "AI"], 0, -1, ["WEC", "ERDS", "AI"], 1, 1);
    assert "ERDS" + [M[9]] == "ERDSO";
    LoopStep(3, M, 9, ["WEC", "ERDS", "AI"], 1, 1, ["WEC", "ERDSO", "AI"], 2, 1);
  }

  lemma WeAreDiscoveredPart2()
    ensures var M := "WEAREDISCOVEREDFLEEATONCE";
      EncryptLoop(3, M, 10, ["WEC", "ERDSO", "AI"], 2, 1)
      == EncryptLoop(3, M, 15, ["WECR", "ERDSOEE", "AIVD"], 1, -1)
  {
    var M := "WEAREDISCOVEREDFLEEATONCE";
    assert "AI" + [M[10]] == "AIV";
    LoopStep(3, M, 10, ["WEC", "ERDSO", "AI"], 2, 1, ["WEC", "ERDSO", "AIV"], 1, -1);
    assert "ERDSO" + [M[11]] == "ERDSOE";
    LoopStep(3, M, 11, ["WEC", "ERDSO", "AIV"], 1, -1, ["WEC", "ERDSOE", "AIV"], 0, -1);
    assert "WEC" + [M[12]] == "WECR";
    LoopStep(3, M, 12, ["WEC", "ERDSOE", "AIV"], 0, -1, ["WECR", "ERDSOE", "AIV"], 1, 1);
    assert "ERDSOE" + [M[13]] == "ERDSOEE";
    LoopStep(3, M, 13, ["WECR", "ERDSOE", "AIV"], 1, 1, ["WECR", "ERDSOEE", "AIV"], 2, 1);
    assert "AIV" + [M[14]] == "AIVD";
    LoopStep(3, M, 14, ["WECR", "ERDSOEE", "AIV"], 2, 1, ["WECR", "ERDSOEE", "AIVD"], 1, -1);
  }

  lemma WeAreDiscoveredPart3()
    ensures var M := "WEAREDISCOVEREDFLEEATONCE";
      EncryptLoop(3, M, 15, ["WECR", "ERDSOEE", "AIVD"], 1, -1)
      == EncryptLoop(3, M, 20, ["WECRL", "ERDSOEEFEA", "AIVDE"], 0, -1)
  {
    var M := "WEAREDISCOVEREDFLEEATONCE";
    assert "ERDSOEE" + [M[15]] == "ERDSOEEF";
    LoopStep(3, M, 15, ["WECR", "ERDSOEE", "AIVD"], 1, -1, ["WECR", "ERDSOEEF", "AIVD"], 0, -1);
    assert "WECR" + [M[16]] == "WECRL";
    LoopStep(3, M, 16, ["WECR", "ERDSOEEF", "AIVD"], 0, -1, ["WECRL", "ERDSOEEF", "AIVD"], 1, 1);
    assert "ERDSOEEF" + [M[17]] == "ERDSOEEFE";
    LoopStep(3, M, 17, ["WECRL", "ERDSOEEF", "AIVD"], 1, 1, ["WECRL", "ERDSOEEFE", "AIVD"], 2, 1);
    assert "AIVD" + [M[18]] == "AIVDE";
    LoopStep(3, M, 18, ["WECRL", "ERDSOEEFE", "AIVD"], 2, 1, ["WECRL", "ERDSOEEFE", "AIVDE"], 1, -1);
    assert "ERDSOEEFE" + [M[19]] == "ERDSOEEFEA";
    LoopStep(3, M, 19, ["WECRL", "ERDSOEEFE", "AIVDE"], 1, -1, ["WECRL", "ERDSOEEFEA", "AIVDE"], 0, -1);
  }

  lemma WeAreDiscoveredPart4()
    ensures var M := "WEAREDISCOVEREDFLEEATONCE";
      EncryptLoop(3, M, 20, ["WECRL", "ERDSOEEFEA", "AIVDE"], 0, -1)
      == EncryptLoop(3, M, 25, ["WECRLTE", "ERDSOEEFEAOC", "AIVDEN"], 1, 1)
  {
    var M := "WEAREDISCOVEREDFLEEATONCE";
    assert "WECRL" + [M[20]] == "WECRLT";
    LoopStep(3, M, 20, ["WECRL", "ERDSOEEFEA", "AIVDE"], 0, -1, ["WECRLT", "ERDSOEEFEA", "AIVDE"], 1, 1);
    assert "ERDSOEEFEA" + [M[21]] == "ERDSOEEFEAO";
    LoopStep(3, M, 21, ["WECRLT", "ERDSOEEFEA", "AIVDE"], 1, 1, ["WECRLT", "ERDSOEEFEAO", "AIVDE"], 2, 1);
    assert "AIVDE" + [M[22]] == "AIVDEN";
    LoopStep(3, M, 22, ["WECRLT", "ERDSOEEFEAO", "AIVDE"], 2, 1, ["WECRLT", "ERDSOEEFEAO", "AIVDEN"], 1, -1);
    assert "ERDSOEEFEAO" + [M[23]] == "ERDSOEEFEAOC";
    LoopStep(3, M, 23, ["WECRLT", "ERDSOEEFEAO", "AIVDEN"], 1, -1, ["WECRLT", "ERDSOEEFEAOC", "AIVDEN"], 0, -1);
    assert "WECRLT" + [M[24]] == "WECRLTE";
    LoopStep(3, M, 24, ["WECRLT", "ERDSOEEFEAOC", "AIVDEN"], 0, -1, ["WECRLTE", "ERDSOEEFEAOC", "AIVDEN"], 1, 1);
  }

  // ---------------------------------------------------------------------
  // Decryption as written
  // ---------------------------------------------------------------------

  function Sum(s: seq<nat>): nat {
    if |s| == 0 then 0 else s[0] + Sum(s[1..])
  }

  lemma {:induction false} SumIncrement(s: seq<nat>, i: nat)
    requires i < |s|
    ensures Sum(s[i := s[i] + 1]) == Sum(s) + 1
  {
    if i > 0 {
      SumIncrement(s[1..], i - 1);
      assert s[i := s[i] + 1][1..] == s[1..][i - 1 := s[i] + 1];
    } else {
      assert s[i := s[i] + 1][1..] == s[1..];
    }
  }

  lemma {:induction false} SumZeros(n: nat)
    ensures Sum(seq(n, _ => 0)) == 0
  {
    if n > 0 {
      SumZeros(n - 1);
      assert seq(n, _ => 0)[1..] == seq(n - 1, _ => 0);
    }
  }

  /** decrypt's first loop from position t on: count one character on the
      current row, update the step, move.  Every position is counted once,
      and counting from the walk's own state yields the row counts. */
  function CountLoop(nrows: int, len: nat, t: nat, count: seq<nat>, i: int, step: int): (r: seq<nat>)
    requires nrows >= 2 && |count| == nrows && t <= len
    requires 0 <= i < nrows && (step == 1 || step == -1)
    ensures |r| == nrows
    ensures Sum(r) == Sum(count) + (len - t)
    ensures (i, step) == Walk(nrows, t) && (forall k :: 0 <= k < nrows ==> count[k] == RowCount(nrows, k, t))
      ==> forall k :: 0 <= k < nrows ==> r[k] == RowCount(nrows, k, len)
    decreases len - t
  {
    if t == len then count
    else
      var step' := DecryptStep(nrows, i, step);
      SumIncrement(count, i);
      CountLoop(nrows, len, t + 1, count[i := count[i] + 1], i + step', step')
  }

  /** The row counts for a ciphertext of length len, as decrypt computes
      them. */
  function Counts(nrows: int, len: nat): (count: seq<nat>)
    requires nrows >= 2
    ensures |count| == nrows
    ensures Sum(count) == len
    ensures forall k :: 0 <= k < nrows ==> count[k] == RowCount(nrows, k, len)
  {
    SumZeros(nrows);
    CountLoop(nrows, len, 0, seq(nrows, _ => 0), 0, 1)
  }

  /** decrypt's second loop from row r on: `ans += c[s:s+count[r]]`,
      `s += count[r]`.  Once the counts left add up to what is left of c,
      the slices rebuild c exactly. */
  function SliceLoop(c: string, count: seq<nat>, r: nat, s: nat, ans: string): (res: string)
    requires r <= |count|
    ensures s <= |c| && ans == c[..s] && s + Sum(count[r..]) == |c| ==> res == c
    decreases |count| - r
  {
    if r == |count| then ans
    else
      assert count[r..][1..] == count[r + 1..];
      var piece := Slice(c, s, s + count[r]);
      assert s <= |c| && ans == c[..s] && s + Sum(count[r..]) == |c| ==>
        ans + piece == c[..s + count[r]];
      SliceLoop(c, count, r + 1, s + count[r], ans + piece)
  }

  /** RailFence.decrypt as written: it returns the ciphertext unchanged. */
  function Decrypt(cipher: RailFence, ciphertext: string): (r: string)
    requires cipher.nrows >= 2
    ensures r == ciphertext
  {
    var count := Counts(cipher.nrows, |ciphertext|);
    assert count[0..] == count;
    SliceLoop(ciphertext, count, 0, 0, "")
  }

  /** Decrypt inverts Encrypt only where Encrypt changes nothing: the
      round trip holds for messages of at most nrows characters. */
  lemma DecryptShortRoundTrip(cipher: RailFence, m: string)
    requires cipher.nrows >= 2 && |m| <= cipher.nrows
    ensures Decrypt(cipher, Encrypt(cipher, m)) == m
  {
    EncryptShortIsIdentity(cipher, m);
  }

  /** On the classic example the round trip fails: decrypting yields the
      ciphertext, not the message. */
  lemma DecryptCounterexample(cipher: RailFence, m: string)
    requires cipher == RailFence(3) && m == "WEAREDISCOVEREDFLEEATONCE"
    ensures Decrypt(cipher, Encrypt(cipher, m)) == "WECRLTEERDSOEEFEAOCAIVDEN"
    ensures Decrypt(cipher, Encrypt(cipher, m)) != m
  {
    WeAreDiscoveredExample(cipher, m);
    assert "WECRLTEERDSOEEFEAOCAIVDEN"[2] != m[2];
  }

  // ---------------------------------------------------------------------
  // The intended decryption
  // ---------------------------------------------------------------------

  /** Cut c into consecutive runs of the counted lengths, from row r on. */
  function CutLoop(c: string, count: seq<nat>, r: nat, s: nat): (runs: seq<string>)
    requires r <= |count|
    ensures |runs| == |count| - r
    ensures s + Sum(count[r..]) == |c| ==> forall k :: 0 <= k < |runs| ==> |runs[k]| == count[r + k]
    decreases |count| - r
  {
    if r == |count| then []
    else
      assert count[r..][1..] == count[r + 1..];
      [Slice(c, s, s + count[r])] + CutLoop(c, count, r + 1, s + count[r])
  }

  /** Walk the zig-zag again from position t, taking the next unread
      character of the current row's run. */
  function ReadLoop(nrows: int, runs: seq<string>, len: nat, t: nat, read: seq<nat>): (out: string)
    requires nrows >= 2 && |runs| == nrows && |read| == nrows && t <= len
    requires forall k :: 0 <= k < nrows ==> read[k] == RowCount(nrows, k, t)
    requires forall k :: 0 <= k < nrows ==> |runs[k]| == RowCount(nrows, k, len)
    ensures |out| == len - t
    decreases len - t
  {
    if t == len then []
    else
      var i := Row(nrows, t);
      RowCountGrows(nrows, i, t + 1, len);
      [runs[i][read[i]]] + ReadLoop(nrows, runs, len, t + 1, read[i := read[i] + 1])
  }

  lemma {:induction false} RowCountGrows(nrows: int, r: int, L: nat, L': nat)
    requires nrows >= 2 && L <= L'
    ensures RowCount(nrows, r, L) <= RowCount(nrows, r, L')
    decreases L' - L
  {
    if L < L' {
      RowCountGrows(nrows, r, L, L' - 1);
    }
  }

  /** The intended decryption: count the rows, cut the ciphertext into
      rows, and read them back along the zig-zag. */
  function DecryptCorrected(cipher: RailFence, ciphertext: string): (r: string)
    requires cipher.nrows >= 2
    ensures |r| == |ciphertext|
  {
    var n := cipher.nrows;
    var count := Counts(n, |ciphertext|);
    assert count[0..] == count;
    var runs := CutLoop(ciphertext, count, 0, 0);
    ReadLoop(n, runs, |ciphertext|, 0, seq(n, _ => 0))
  }

  /** Cutting the join of some pieces at the pieces' lengths gives the
      pieces back. */
  lemma {:induction false} CutConcat(pieces: seq<string>, count: seq<nat>, r: nat)
    requires |count| == |pieces| && r <= |pieces|
    requires forall k :: 0 <= k < |pieces| ==> count[k] == |pieces[k]|
    ensures CutLoop(Concat(pieces), count, r, |Concat(pieces[..r])|) == pieces[r..]
    decreases |pieces| - r
  {
    if r < |pieces| {
      var c := Concat(pieces);
      var s := |Concat(pieces[..r])|;
      PieceAt(pieces, r);
      CutStep(c, count, r, s);
      CutConcat(pieces, count, r + 1);
      assert pieces[r..] == [pieces[r]] + pieces[r + 1..];
    }
  }

  lemma CutStep(c: string, count: seq<nat>, r: nat, s: nat)
    requires r < |count| && s + count[r] <= |c|
    ensures CutLoop(c, count, r, s) == [c[s..s + count[r]]] + CutLoop(c, count, r + 1, s + count[r])
  {
  }

  /** Piece r of a join starts where the join of the pieces before it
      ends. */
  lemma PieceAt(pieces: seq<string>, r: nat)
    requires r < |pieces|
    ensures var s := |Concat(pieces[..r])|;
      && |Concat(pieces[..r + 1])| == s + |pieces[r]|
      && s + |pieces[r]| <= |Concat(pieces)|
      && Concat(pieces)[s..s + |pieces[r]|] == pieces[r]
  {
    ConcatSplit(pieces, r);
    assert pieces[..r + 1] == pieces[..r] + [pieces[r]];
    ConcatAppend(pieces[..r], [pieces[r]]);
    assert [pieces[r]][..0] == [];
    assert Concat([pieces[r]]) == pieces[r];
  }

  /** Reading the true rows from the walk's state at t yields the rest of
      the message. */
  lemma {:induction false} ReadLoopRows(nrows: int, m: string, t: nat, read: seq<nat>)
    requires nrows >= 2 && t <= |m| && |read| == nrows
    requires forall k :: 0 <= k < nrows ==> read[k] == RowCount(nrows, k, t)
    requires forall k :: 0 <= k < nrows ==> |Rows(nrows, m)[k]| == RowCount(nrows, k, |m|)
    ensures ReadLoop(nrows, Rows(nrows, m), |m|, t, read) == m[t..]
    decreases |m| - t
  {
    if t < |m| {
      var read' := ReadAdvance(nrows, m, t, read);
      ReadLoopRows(nrows, m, t + 1, read');
      assert m[t..] == [m[t]] + m[t + 1..];
    }
  }

  /** One iteration of the reading walk takes character t from its row and
      counts it as read. */
  lemma ReadAdvance(nrows: int, m: string, t: nat, read: seq<nat>) returns (read': seq<nat>)
    requires nrows >= 2 && t < |m| && |read| == nrows
    requires forall k :: 0 <= k < nrows ==> read[k] == RowCount(nrows, k, t)
    requires forall k :: 0 <= k < nrows ==> |Rows(nrows, m)[k]| == RowCount(nrows, k, |m|)
    ensures |read'| == nrows
    ensures forall k :: 0 <= k < nrows ==> read'[k] == RowCount(nrows, k, t + 1)
    ensures ReadLoop(nrows, Rows(nrows, m), |m|, t, read)
         == [m[t]] + ReadLoop(nrows, Rows(nrows, m), |m|, t + 1, read')
  {
    var i := Row(nrows, t);
    read' := read[i := read[i] + 1];
    RowOfAt(nrows, m, t);
    assert Rows(nrows, m)[i] == RowOf(nrows, m, i, |m|);
  }

  /** The corrected decryption inverts encryption for every row count and
      every message, short or long. */
  lemma DecryptCorrectedRoundTrip(cipher: RailFence, m: string)
    requires cipher.nrows >= 2
    ensures DecryptCorrected(cipher, Encrypt(cipher, m)) == m
  {
    var n := cipher.nrows;
    var c := Encrypt(cipher, m);
    var count := Counts(n, |c|);
    assert count[0..] == count;
    RunsAreRows(cipher, m);
    RowLengths(n, m);
    ReadLoopRows(n, m, 0, seq(n, _ => 0));
    assert m[0..] == m;
  }

  /** Every row of m is as long as its count. */
  lemma RowLengths(nrows: int, m: string)
    requires nrows >= 2
    ensures forall k :: 0 <= k < nrows ==> |Rows(nrows, m)[k]| == RowCount(nrows, k, |m|)
  {
    forall k | 0 <= k < nrows
      ensures |Rows(nrows, m)[k]| == RowCount(nrows, k, |m|)
    {
      RowOfLength(nrows, m, k, |m|);
    }
  }

  /** Cutting a ciphertext at the counted row lengths recovers the rows. */
  lemma RunsAreRows(cipher: RailFence, m: string)
    requires cipher.nrows >= 2
    ensures CutLoop(Encrypt(cipher, m), Counts(cipher.nrows, |m|), 0, 0) == Rows(cipher.nrows, m)
  {
    var n := cipher.nrows;
    var rows := Rows(n, m);
    EncryptIsRows(cipher, m);
    var count := Counts(n, |m|);
    RowLengths(n, m);
    assert rows[..0] == [] && rows[0..] == rows;
    CutConcat(rows, count, 0);
  }
}
