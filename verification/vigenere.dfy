/** The Vigenere cipher: the key is repeated to the message's length and
    character i is shifted by the alphabet index of key-stream character i.
    A space in the message stays a space but still uses up its key-stream
    position. */
module VigenereCipher {
  import opened Helpers

  datatype Vigenere = Vigenere(key: string)

  /** Position i is shifted forward by key[i mod |key|]. */
  function Encrypt(cipher: Vigenere, plaintext: string): (r: string)
    requires |cipher.key| > 0
    ensures |r| == |plaintext|
    ensures forall i :: 0 <= i < |r| ==> (plaintext[i] == ' ' <==> r[i] == ' ')
    ensures forall i :: 0 <= i < |r| && IsLetter(plaintext[i]) ==>
      LetterIndex(r[i]) == (LetterIndex(plaintext[i]) + LetterIndex(cipher.key[i % |cipher.key|])) % 26
  {
    var k := RepeatToLength(cipher.key, |plaintext|);
    seq(|plaintext|, i requires 0 <= i < |plaintext| => Shift(plaintext[i], LetterIndex(k[i])))
  }

  /** Position i is shifted back by key[i mod |key|]. */
  function Decrypt(cipher: Vigenere, ciphertext: string): (r: string)
    requires |cipher.key| > 0
    ensures |r| == |ciphertext|
    ensures forall i :: 0 <= i < |r| ==> (ciphertext[i] == ' ' <==> r[i] == ' ')
    ensures forall i :: 0 <= i < |r| && IsLetter(ciphertext[i]) ==>
      LetterIndex(r[i]) == (LetterIndex(ciphertext[i]) - LetterIndex(cipher.key[i % |cipher.key|])) % 26
  {
    var k := RepeatToLength(cipher.key, |ciphertext|);
    seq(|ciphertext|, i requires 0 <= i < |ciphertext| => Shift(ciphertext[i], -LetterIndex(k[i])))
  }

  /** With any non-empty key, decryption undoes encryption on every message
      over A-Z and space. */
  lemma RoundTrip(cipher: Vigenere, m: string)
    requires |cipher.key| > 0
    requires IsText(m)
    ensures Decrypt(cipher, Encrypt(cipher, m)) == m
  {
    var c := Encrypt(cipher, m);
    var d := Decrypt(cipher, c);
    var k := RepeatToLength(cipher.key, |m|);
    forall i | 0 <= i < |m|
      ensures d[i] == m[i]
    {
      var n := LetterIndex(k[i]);
      assert c[i] == Shift(m[i], n);
      assert d[i] == Shift(c[i], -n);
      ShiftInverse(m[i], n);
    }
  }

  /** Character i of the ciphertext is character i of the message
      shifted by key character i mod |key|. */
  lemma EncryptAt(cipher: Vigenere, m: string, i: nat)
    requires |cipher.key| > 0 && i < |m|
    ensures |Encrypt(cipher, m)| == |m|
    ensures Encrypt(cipher, m)[i] == Shift(m[i], LetterIndex(cipher.key[i % |cipher.key|]))
  {
  }

  /** The library's demonstration: key MYKEY on HELLO WORLD; the space
      takes the key's M, so W is shifted by the following Y. */
  lemma HelloWorldExample(cipher: Vigenere, m: string)
    requires cipher == Vigenere("MYKEY") && m == "HELLO WORLD"
    ensures Encrypt(cipher, m) == "TCVPM UYVJP"
    ensures Decrypt(cipher, "TCVPM UYVJP") == m
  {
    HelloWorldEncrypt(cipher, m);
    assert IsText(m);
    RoundTrip(cipher, m);
  }

  lemma HelloWorldEncrypt(cipher: Vigenere, m: string)
    requires cipher == Vigenere("MYKEY") && m == "HELLO WORLD"
    ensures Encrypt(cipher, m) == "TCVPM UYVJP"
  {
    HelloWorldPart0(cipher, m);
    HelloWorldPart1(cipher, m);
    HelloWorldPart2(cipher, m);
    HelloWorldPart3(cipher, m);
  }

  /** HEL under MYK. */
  lemma HelloWorldPart0(cipher: Vigenere, m: string)
    requires cipher == Vigenere("MYKEY") && m == "HELLO WORLD"
    ensures |Encrypt(cipher, m)| == 11
    ensures Encrypt(cipher, m)[0] == 'T' && Encrypt(cipher, m)[1] == 'C' && Encrypt(cipher, m)[2] == 'V'
  {
    EncryptAt(cipher, m, 0);
    EncryptAt(cipher, m, 1);
    EncryptAt(cipher, m, 2);
  }

  /** LO and the space under EYM. */
  lemma HelloWorldPart1(cipher: Vigenere, m: string)
    requires cipher == Vigenere("MYKEY") && m == "HELLO WORLD"
    ensures |Encrypt(cipher, m)| == 11
    ensures Encrypt(cipher, m)[3] == 'P' && Encrypt(cipher, m)[4] == 'M' && Encrypt(cipher, m)[5] == ' '
  {
    EncryptAt(cipher, m, 3);
    EncryptAt(cipher, m, 4);
    EncryptAt(cipher, m, 5);
  }

  /** WOR under YKE. */
  lemma HelloWorldPart2(cipher: Vigenere, m: string)
    requires cipher == Vigenere("MYKEY") && m == "HELLO WORLD"
    ensures |Encrypt(cipher, m)| == 11
    ensures Encrypt(cipher, m)[6] == 'U' && Encrypt(cipher, m)[7] == 'Y' && Encrypt(cipher, m)[8] == 'V'
  {
    EncryptAt(cipher, m, 6);
    EncryptAt(cipher, m, 7);
    EncryptAt(cipher, m, 8);
  }

  /** LD under YM. */
  lemma HelloWorldPart3(cipher: Vigenere, m: string)
    requires cipher == Vigenere("MYKEY") && m == "HELLO WORLD"
    ensures |Encrypt(cipher, m)| == 11
    ensures Encrypt(cipher, m)[9] == 'J' && Encrypt(cipher, m)[10] == 'P'
  {
    EncryptAt(cipher, m, 9);
    EncryptAt(cipher, m, 10);
  }

}
