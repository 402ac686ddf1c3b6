/** The Caesar cipher: every character is shifted by the same amount k
    (the constructor's default is 3). */
module CaesarCipher {
  import opened Helpers

  datatype Caesar = Caesar(k: int)

  /** `Caesar()` with no argument. */
  const Default := Caesar(3)

  /** Each character shifted forward by k: spaces stay, capitals move k
      places round the alphabet. */
  function Encrypt(cipher: Caesar, plaintext: string): (r: string)
    ensures |r| == |plaintext|
    ensures forall i :: 0 <= i < |r| ==> (plaintext[i] == ' ' <==> r[i] == ' ')
    ensures forall i :: 0 <= i < |r| && IsLetter(plaintext[i]) ==>
      IsLetter(r[i]) && LetterIndex(r[i]) == (LetterIndex(plaintext[i]) + cipher.k) % 26
  {
    seq(|plaintext|, i requires 0 <= i < |plaintext| => Shift(plaintext[i], cipher.k))
  }

  /** Each character shifted back by k. */
  function Decrypt(cipher: Caesar, ciphertext: string): (r: string)
    ensures |r| == |ciphertext|
    ensures forall i :: 0 <= i < |r| ==> (ciphertext[i] == ' ' <==> r[i] == ' ')
    ensures forall i :: 0 <= i < |r| && IsLetter(ciphertext[i]) ==>
      IsLetter(r[i]) && LetterIndex(r[i]) == (LetterIndex(ciphertext[i]) - cipher.k) % 26
  {
    seq(|ciphertext|, i requires 0 <= i < |ciphertext| => Shift(ciphertext[i], -cipher.k))
  }

  /** Decryption undoes encryption for every shift amount, positive,
      negative or beyond 26, on every message over A-Z and space. */
  lemma RoundTrip(cipher: Caesar, m: string)
    requires IsText(m)
    ensures Decrypt(cipher, Encrypt(cipher, m)) == m
  {
    var c := Encrypt(cipher, m);
    var d := Decrypt(cipher, c);
    forall i | 0 <= i < |m|
      ensures d[i] == m[i]
    {
      ShiftInverse(m[i], cipher.k);
    }
  }

  /** The textbook example: Caesar(3) turns HELLO into KHOOR. */
  lemma HelloExample()
    ensures Encrypt(Default, "HELLO") == "KHOOR"
  {
  }
}
