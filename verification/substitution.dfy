/** The monoalphabetic substitution cipher.  The constructor receives a
    character-to-character dict and builds the inverse dict by walking the
    entries in insertion order, so when two keys share a value the later
    key silently wins; nothing checks that the mapping is injective. */
module SubstitutionCipher {
  import opened Results

  /** A dict's entries in insertion order: no key occurs twice. */
  predicate IsDict(entries: seq<(char, char)>) {
    forall i, j :: 0 <= i < j < |entries| ==> entries[i].0 != entries[j].0
  }

  /** No two keys share a value. */
  predicate Injective(entries: seq<(char, char)>) {
    forall i, j :: 0 <= i < j < |entries| ==> entries[i].1 != entries[j].1
  }

  /** Entry i is the last one whose value is entries[i].1. */
  predicate LastWithValue(entries: seq<(char, char)>, i: int)
    requires 0 <= i < |entries|
  {
    forall j :: i < j < |entries| ==> entries[j].1 != entries[i].1
  }

  datatype Substitution = Substitution(mapping: map<char, char>, inverse: map<char, char>)

  /** The dict itself, as a finite map. */
  function MappingOf(entries: seq<(char, char)>): (m: map<char, char>)
    requires IsDict(entries)
    ensures m.Keys == set e | e in entries :: e.0
    ensures forall i :: 0 <= i < |entries| ==> m[entries[i].0] == entries[i].1
  {
    if |entries| == 0 then map[]
    else
      var front := entries[..|entries| - 1];
      var last := entries[|entries| - 1];
      SnocSets(entries, front, last);
      MappingOf(front)[last.0 := last.1]
  }

  /** `{mapping[k]: k for k in mapping}`: each value maps back to the LAST
      key, in insertion order, that carries it. */
  function InverseOf(entries: seq<(char, char)>): (inv: map<char, char>)
    ensures inv.Keys == set e | e in entries :: e.1
    ensures forall i :: 0 <= i < |entries| && LastWithValue(entries, i) ==>
      inv[entries[i].1] == entries[i].0
  {
    if |entries| == 0 then map[]
    else
      var front := entries[..|entries| - 1];
      var last := entries[|entries| - 1];
      var inv := InverseOf(front)[last.1 := last.0];
      SnocSets(entries, front, last);
      forall i | 0 <= i < |front| && LastWithValue(entries, i)
        ensures inv[entries[i].1] == entries[i].0
      {
        assert entries[i] == front[i];
        assert entries[i].1 != last.1;
        assert LastWithValue(front, i);
      }
      inv
  }

  /** The keys and the values of the entries grow by one entry's worth. */
  lemma SnocSets(entries: seq<(char, char)>, front: seq<(char, char)>, last: (char, char))
    requires entries == front + [last]
    ensures (set e | e in entries :: e.0) == (set e | e in front :: e.0) + {last.0}
    ensures (set e | e in entries :: e.1) == (set e | e in front :: e.1) + {last.1}
  {
    assert forall e :: e in entries <==> e in front || e == last;
  }

  /** `Substitution(mapping)`: the constructor accepts every dict.  The
      table sends each key to its value; the inverse table's keys are the
      values, each sent back to the last key that carries it. */
  function New(entries: seq<(char, char)>): (s: Substitution)
    requires IsDict(entries)
    ensures s.mapping.Keys == set e | e in entries :: e.0
    ensures forall i :: 0 <= i < |entries| ==> s.mapping[entries[i].0] == entries[i].1
    ensures s.inverse.Keys == set e | e in entries :: e.1
    ensures forall i :: 0 <= i < |entries| && LastWithValue(entries, i) ==>
      s.inverse[entries[i].1] == entries[i].0
  {
    Substitution(MappingOf(entries), InverseOf(entries))
  }

  /** `''.join(table[c] for c in s)`: every character looked up, failing at
      the first one the table lacks. */
  function Lookup(table: map<char, char>, s: string): (r: Result<string>)
    ensures r.Success? <==> forall i :: 0 <= i < |s| ==> s[i] in table
    ensures r.Success? ==> |r.value| == |s| && forall i :: 0 <= i < |s| ==> r.value[i] == table[s[i]]
    ensures r.Failure? ==> exists k :: 0 <= k < |s| && s[k] !in table && r.error == LookupFailure(s[k])
                              && forall j :: 0 <= j < k ==> s[j] in table
  {
    if |s| == 0 then Success([])
    else if s[0] !in table then Failure(LookupFailure(s[0]))
    else
      match Lookup(table, s[1..])
      case Success(rest) => Success([table[s[0]]] + rest)
      case Failure(e) =>
        assert forall j :: 1 <= j < |s| ==> s[j] == s[1..][j - 1];
        Failure(e)
  }

  /** encrypt: each character replaced by its value in the table; the
      first character that is not a key raises. */
  function Encrypt(cipher: Substitution, message: string): (r: Result<string>)
    ensures r.Success? <==> forall i :: 0 <= i < |message| ==> message[i] in cipher.mapping
    ensures r.Success? ==> |r.value| == |message|
    ensures r.Success? ==> forall i :: 0 <= i < |message| ==> r.value[i] == cipher.mapping[message[i]]
    ensures r.Failure? ==> exists k :: (0 <= k < |message| && message[k] !in cipher.mapping
                                         && r.error == LookupFailure(message[k])
                                         && forall j :: 0 <= j < k ==> message[j] in cipher.mapping)
  {
    Lookup(cipher.mapping, message)
  }

  /** decrypt: each character replaced through the inverse table; the
      first character that is not one of its keys raises. */
  function Decrypt(cipher: Substitution, ciphertext: string): (r: Result<string>)
    ensures r.Success? <==> forall i :: 0 <= i < |ciphertext| ==> ciphertext[i] in cipher.inverse
    ensures r.Success? ==> |r.value| == |ciphertext|
    ensures r.Success? ==> forall i :: 0 <= i < |ciphertext| ==> r.value[i] == cipher.inverse[ciphertext[i]]
    ensures r.Failure? ==> exists k :: (0 <= k < |ciphertext| && ciphertext[k] !in cipher.inverse
                                         && r.error == LookupFailure(ciphertext[k])
                                         && forall j :: 0 <= j < k ==> ciphertext[j] in cipher.inverse)
  {
    Lookup(cipher.inverse, ciphertext)
  }

  /** For an injective mapping the inverse sends every value back to its
      one key. */
  lemma InverseUndoesMapping(entries: seq<(char, char)>)
    requires IsDict(entries) && Injective(entries)
    ensures forall k :: k in New(entries).mapping ==>
      New(entries).mapping[k] in New(entries).inverse && New(entries).inverse[New(entries).mapping[k]] == k
  {
    var s := New(entries);
    forall k | k in s.mapping
      ensures s.mapping[k] in s.inverse && s.inverse[s.mapping[k]] == k
    {
      var e :| e in entries && e.0 == k;
      var i :| 0 <= i < |entries| && entries[i] == e;
      assert LastWithValue(entries, i);
    }
  }

  /** Encryption and decryption are each other's inverse on messages drawn
      from the domain of an injective mapping. */
  lemma RoundTrip(entries: seq<(char, char)>, m: string)
    requires IsDict(entries) && Injective(entries)
    requires forall i :: 0 <= i < |m| ==> m[i] in New(entries).mapping
    ensures Encrypt(New(entries), m).Success?
    ensures Decrypt(New(entries), Encrypt(New(entries), m).value) == Success(m)
  {
    var s := New(entries);
    InverseUndoesMapping(entries);
    var c := Encrypt(s, m).value;
    var d := Decrypt(s, c);
    assert d.Success?;
    assert d.value == m;
  }

  /** A character outside the mapping's domain makes encryption fail with
      that character. */
  lemma EncryptOutsideDomain(entries: seq<(char, char)>, m: string)
    requires IsDict(entries)
    requires |m| > 0 && m[0] !in New(entries).mapping
    ensures Encrypt(New(entries), m) == Failure(LookupFailure(m[0]))
  {
  }

  /** As written, the constructor accepts {A: X, B: X}; the inverse keeps
      only X -> B, so A encrypts to X and decrypts to B. */
  lemma NonInjectiveExample()
    ensures Decrypt(New([('A', 'X'), ('B', 'X')]), Encrypt(New([('A', 'X'), ('B', 'X')]), "A").value)
            == Success("B")
  {
    var entries := [('A', 'X'), ('B', 'X')];
    var s := New(entries);
    assert LastWithValue(entries, 1);
    assert s.inverse['X'] == 'B';
    assert entries[0].0 == 'A' && s.mapping['A'] == 'X';
    var c := Encrypt(s, "A");
    assert c.Success? && |c.value| == 1 && c.value[0] == 'X';
    assert c.value == "X";
    var d := Decrypt(s, "X");
    assert d.Success? && |d.value| == 1 && d.value[0] == 'B';
    assert d.value == "B";
  }

  /** A constructor that refuses a non-injective mapping: one in which two
      keys share a value. */
  function NewChecked(entries: seq<(char, char)>): (r: Result<Substitution>)
    requires IsDict(entries)
    ensures r.Success? <==> Injective(entries)
    ensures r.Failure? ==> r.error == InvalidKey
    ensures r.Success? ==> r.value == New(entries)
  {
    if Injective(entries) then Success(New(entries)) else Failure(InvalidKey)
  }

  /** Every cipher the checked constructor builds round-trips on its
      domain, with no further assumption on the mapping. */
  lemma CheckedRoundTrip(entries: seq<(char, char)>, m: string)
    requires IsDict(entries) && NewChecked(entries).Success?
    requires forall i :: 0 <= i < |m| ==> m[i] in NewChecked(entries).value.mapping
    ensures Decrypt(NewChecked(entries).value, Encrypt(NewChecked(entries).value, m).value) == Success(m)
  {
    RoundTrip(entries, m);
  }
}
