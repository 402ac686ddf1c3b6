# Classical ciphers in Dafny

This project models `ciphers.py`, a small library of classical text
ciphers, and proves properties of the model. It covers the five ciphers:

- Caesar shift.
- Monoalphabetic substitution.
- Vigenère.
- Rail fence transposition.
- Columnar permutation transposition.

It also covers the helpers the ciphers share:

- `shift`, the cyclic letter shift.
- `repeat_to_length`, the key-stream builder.
- `permute`, the scatter reordering of a list by a key.
- `pad_with_c`, padding with 'C' to a multiple of the column count.
- `xor`.

The ciphers are meant for the capital letters plus the space.

How the library's behaviour is represented:

- The exceptions the library raises itself, and the KeyError of a failed Substitution lookup, become a `Failure` carrying a `CipherError` (`results.dfy`).
- The crashes it does not raise on purpose become preconditions instead. These are a division by zero (an empty Vigenère or Permutation key) and an index error (a list shorter than the key given to `permute`). "## Left out" lists each one.
- Each cipher instance is an immutable datatype.
- `Permutation.encrypt` overwrites the instance's `plaintext_length` field. In the model it returns the updated instance together with the ciphertext, and `Decrypt` reads the remembered length from the instance it is given.

Modules:

- `Helpers` (`helpers.dfy`): alphabet, `Shift`, `RepeatToLength`, `PadWithC`, `Xor`, and small arithmetic facts.
- `Seqs` (`seqs.dfy`): `''.join` as `Concat`, and Python slicing as `Take` and `Slice`.
- `Permutations` (`permutations.dfy`): two things.
  - The key check of the Permutation constructor.
  - `permute`, and the inverse table built in `Permutation.decrypt`.
- `CaesarCipher`, `SubstitutionCipher`, `VigenereCipher`, `RailFenceCipher` and `PermutationCipher`: one module per class.

The rail fence decrypt is modelled twice:

- `RailFenceCipher.Decrypt` models the code as written. It returns its input unchanged (see Findings).
- `RailFenceCipher.DecryptCorrected` is the intended decryption. It counts the rows, cuts the ciphertext into those rows, and reads the rows back along the zig-zag. Its round trip is proved for every row count and every message.

The substitution constructor is also modelled twice:

- `SubstitutionCipher.New` accepts any dict, as the code does.
- `SubstitutionCipher.NewChecked` refuses a mapping that is not injective.

Each cipher class pairs an `encrypt` with a `decrypt`, and the `__main__` demonstration (lines 151-155) encrypts a message and then decrypts the result. `RailFence.decrypt` (lines 92-106) first counts how many characters fall on each rail, which only makes sense as the first half of an inversion. As written, though, it returns its input. The model follows the code and records the gap under Findings.

## Model

| member | source | states |
|---|---|---|
| Helpers.Shift | ciphers.py:6-10 | A space stays a space. Every other character becomes a capital letter. A capital with alphabet index j goes to the capital with index (j + n) mod 26, for every integer n, because ord('A') + ord('A') = 130 is a multiple of 26. |
| Helpers.ShiftInverse | ciphers.py:6-10 | Shifting by -n undoes shifting by n on every capital letter and on the space, for every integer n. |
| Helpers.Repeat | ciphers.py:4 | `s * k` has k·\|s\| characters, and its character i is s[i mod \|s\|]. |
| Helpers.RepeatToLength | ciphers.py:3-4 | The key stream has exactly `length` characters, and its character i is key[i mod \|key\|]. |
| Helpers.PadWithC | ciphers.py:19-23 | The result starts with the message, and every character after the message is 'C'. It is longer than the message by exactly the pad count. |
| Helpers.PadWithCLength | ciphers.py:19-23 | The padded length is a multiple of `modulo` and lies in [\|m\|, \|m\| + modulo). A message whose length is already a multiple comes back unchanged. |
| Helpers.Xor | ciphers.py:25-29 | Fails with a length-mismatch error exactly when the lengths differ. Otherwise each element is the xor of the elements at that position. |
| Helpers.XorInvolution | ciphers.py:25-29 | Xor-ing with the same operand twice gives back the first operand. |
| Seqs.Concat | ciphers.py:90 | Joining a single piece gives that piece. |
| Seqs.ConcatAppend | ciphers.py:90 | Joining two lists of pieces one after the other is joining each and concatenating the results. |
| Seqs.ConcatSplit | ciphers.py:128 | In the join, piece d sits between the join of the pieces before it and the join of the pieces after it. |
| Seqs.Take | ciphers.py:143 | `s[:n]` is the prefix of length min(n, \|s\|). |
| Seqs.Slice | ciphers.py:104 | For in-range bounds, `s[lo:hi]` is exactly the elements from lo up to hi. It is never longer than s. |
| Permutations.ValidKey | ciphers.py:112-115 | The constructor's check passes exactly when every index 0..len(key)-1 occurs in the key. |
| Permutations.KeyCheckFrom | ciphers.py:113-115 | The check's loop, started at index i, passes exactly when every index from i to len(key)-1 occurs in the key. It raises at the first one missing. |
| Permutations.ValidKeyIffPermutation | ciphers.py:112-115 | The constructor's check passes exactly for the bijections on 0..n-1: no entry out of range and no entry repeated. |
| Permutations.Scatter | ciphers.py:14-16 | After k iterations of permute's loop, slot p[i] holds l[i] for each i < k. Every filled slot was filled by one of those iterations. |
| Permutations.Permute | ciphers.py:12-17 | The result has \|p\| elements, and element i lands in slot p[i]. |
| Permutations.InverseLoop | ciphers.py:136-138 | After k iterations, inverse[p[i]] == i for each i < k, and every entry is an index in range. |
| Permutations.Inverse | ciphers.py:136-138 | The inverse table is itself a bijection. It satisfies inverse[p[i]] == i and p[inverse[j]] == j. |
| Permutations.PermuteInverse | ciphers.py:12-17 | Scattering by p and then by p's inverse gives the original list back. |
| Permutations.PermuteSlot | ciphers.py:12-17 | Slot j of a scattered list holds the element at index inverse[j]. |
| CaesarCipher.Encrypt | ciphers.py:38-39 | Length is kept, and spaces sit exactly where the message had them. Each capital moves k places forward round the alphabet. |
| CaesarCipher.Decrypt | ciphers.py:41-42 | Length is kept, and spaces sit exactly where the input had them. Each capital moves k places back round the alphabet. |
| CaesarCipher.RoundTrip | ciphers.py:34-42 | For every integer k, decrypt undoes encrypt on every message over A-Z and the space. |
| CaesarCipher.HelloExample | ciphers.py:35-39 | With the default k = 3, HELLO encrypts to KHOOR. |
| SubstitutionCipher.MappingOf | ciphers.py:46-47 | The table's keys are exactly the dict's keys, and each key maps to its own value. |
| SubstitutionCipher.InverseOf | ciphers.py:48 | The inverse's keys are exactly the dict's values. Each value maps back to the last key, in insertion order, that carries it. |
| SubstitutionCipher.Lookup | ciphers.py:50-54 | Succeeds exactly when every character is in the table, and then replaces each character by its entry. Otherwise it fails with the first missing character. |
| SubstitutionCipher.New | ciphers.py:46-48 | The cipher's table sends each dict key to its value. Its inverse table has exactly the dict's values as keys, and each value goes back to the last key carrying it. |
| SubstitutionCipher.Encrypt | ciphers.py:50-51 | Succeeds exactly when every message character is a key, and then replaces each character by its value. Otherwise it fails naming the first character that is not a key. |
| SubstitutionCipher.Decrypt | ciphers.py:53-54 | Succeeds exactly when every ciphertext character is a key of the inverse table, and then replaces each through it. Otherwise it fails naming the first character that is not. |
| SubstitutionCipher.InverseUndoesMapping | ciphers.py:48 | For an injective dict, the inverse sends every value back to its only key. |
| SubstitutionCipher.RoundTrip | ciphers.py:45-54 | For an injective dict, encryption succeeds on every message over the dict's keys, and decryption gives the message back. |
| SubstitutionCipher.EncryptOutsideDomain | ciphers.py:50-51 | A message whose first character is not a key fails with a lookup error naming that character. |
| SubstitutionCipher.NonInjectiveExample | ciphers.py:48 | With {A: X, B: X}, the message "A" encrypts and then decrypts to "B". |
| SubstitutionCipher.NewChecked | ciphers.py:46-48 | The checked constructor succeeds exactly for injective dicts, and then builds the same cipher as the unchecked one. Otherwise it fails with an invalid-key error. |
| SubstitutionCipher.CheckedRoundTrip | ciphers.py:45-54 | Every cipher the checked constructor builds round-trips on its domain, with no further assumption. |
| VigenereCipher.Encrypt | ciphers.py:61-64 | Length is kept, and spaces stay spaces. Capital i moves forward by the alphabet index of key[i mod \|key\|]. A space still uses up its key position. |
| VigenereCipher.Decrypt | ciphers.py:66-69 | Length is kept, and spaces stay spaces. Capital i moves back by the alphabet index of key[i mod \|key\|]. |
| VigenereCipher.RoundTrip | ciphers.py:57-69 | With any non-empty key, decrypt undoes encrypt on every message over A-Z and the space. |
| VigenereCipher.EncryptAt | ciphers.py:61-64 | Ciphertext character i is message character i shifted by key character i mod \|key\|. |
| VigenereCipher.HelloWorldExample | ciphers.py:61-69 | Key MYKEY encrypts HELLO WORLD to TCVPM UYVJP, and decryption gives back HELLO WORLD. |
| RailFenceCipher.New | ciphers.py:73-76 | Construction succeeds exactly when nrows >= 2. Otherwise it fails with an invalid-key error. |
| RailFenceCipher.EncryptStep | ciphers.py:84-88 | At the top rail the walk heads down, and at the bottom rail it heads up. In between it keeps its heading. From a rail in range, it stays in range. |
| RailFenceCipher.DecryptStep | ciphers.py:97-100 | Decrypt tests the two rails in the opposite order to encrypt, yet always picks the same step. |
| RailFenceCipher.Walk | ciphers.py:81-88 | The loop's (i, step) state before position t: the rail is in range and the step is +1 or -1. Which rail it is is stated by WalkIsZigZag. |
| RailFenceCipher.WalkIsZigZag | ciphers.py:81-88 | The rail of position t is the triangle wave of period 2(nrows - 1). |
| RailFenceCipher.WalkDescends | ciphers.py:81-88 | Positions 0..nrows-1 occupy rails 0..nrows-1 in order. |
| RailFenceCipher.Counts | ciphers.py:93-101 | The counts sum to the message length. Count k is the number of positions the zig-zag puts on rail k. |
| RailFenceCipher.CountLoop | ciphers.py:93-101 | Started mid-walk with correct counts, the loop finishes with each rail's final count. It adds exactly one per remaining position. |
| RailFenceCipher.EncryptLoop | ciphers.py:82-88 | The encrypt loop keeps exactly nrows rows. Their content is stated by EncryptLoopRows. |
| RailFenceCipher.EncryptLoopRows | ciphers.py:82-88 | Started at position t in the walk's state, with each row holding the characters before t that fall on it, the loop ends with each row holding all of its characters in message order. |
| RailFenceCipher.Encrypt | ciphers.py:78-90 | The ciphertext is exactly as long as the message. Its content is stated by the two rows below. |
| RailFenceCipher.EncryptIsPermutation | ciphers.py:78-90 | The ciphertext has the same characters as the message, with the same multiplicities. |
| RailFenceCipher.EncryptIsRows | ciphers.py:78-90 | The ciphertext is the rails joined in order. Rail r holds the message characters the zig-zag puts on r, in message order. |
| RailFenceCipher.EncryptShortIsIdentity | ciphers.py:78-90 | A message no longer than the number of rails comes out unchanged. |
| RailFenceCipher.WeAreDiscoveredExample | ciphers.py:78-90 | With 3 rails, WEAREDISCOVEREDFLEEATONCE encrypts to WECRLTEERDSOEEFEAOCAIVDEN. |
| RailFenceCipher.SliceLoop | ciphers.py:102-105 | Cutting consecutive slices whose lengths sum to the rest of the input, and appending them, rebuilds the input. |
| RailFenceCipher.Decrypt | ciphers.py:92-106 | As written, decrypt returns its input unchanged. |
| RailFenceCipher.DecryptShortRoundTrip | ciphers.py:92-106 | As written, the round trip still holds for messages no longer than the number of rails. |
| RailFenceCipher.DecryptCounterexample | ciphers.py:92-106 | As written, the 3-rail example decrypts to its ciphertext, which differs from the message. |
| RailFenceCipher.DecryptCorrected | ciphers.py:92-106 | The corrected decryption keeps the length. |
| RailFenceCipher.DecryptCorrectedRoundTrip | ciphers.py:72-106 | The corrected decryption undoes encryption for every row count >= 2 and every message. |
| PermutationCipher.New | ciphers.py:110-118 | Construction succeeds exactly for bijective keys, with a remembered length of 0. Otherwise it fails with an invalid-key error. |
| PermutationCipher.Columns | ciphers.py:125-126 | The dealing loop keeps exactly ncols columns. Their content is stated by ColumnsLayout. |
| PermutationCipher.ColumnsLayout | ciphers.py:124-126 | Started from a partly dealt grid, the dealing loop ends with nrows characters in every column. Row r of column j is padded character r·ncols + j. |
| PermutationCipher.Deal | ciphers.py:124-126 | Every column gets nrows characters. Row r of column j is padded character r·ncols + j. |
| PermutationCipher.Encrypt | ciphers.py:120-129 | The returned instance remembers the message length. The ciphertext is a multiple of ncols long and at most ncols - 1 characters longer than the message. |
| PermutationCipher.EncryptLength | ciphers.py:120-129 | Every scattered column keeps nrows characters, so the ciphertext is as long as the padded message. |
| PermutationCipher.EncryptLayout | ciphers.py:120-129 | Ciphertext character key[j]·nrows + r is padded character r·ncols + j. Column j, top to bottom, fills ciphertext block key[j]. |
| PermutationCipher.Blocks | ciphers.py:133-135 | The ciphertext is cut into ncols blocks of \|c\| div ncols characters. Character r of block d is ciphertext character d·nrows + r. |
| PermutationCipher.ReadRows | ciphers.py:140-142 | Reading the grid row by row puts row r of column j at position r·ncols + j. |
| PermutationCipher.Decrypt | ciphers.py:131-143 | The grid read back holds ncols·(\|c\| div ncols) characters. The result has exactly the remembered length, or the grid's length when that is shorter. |
| PermutationCipher.GatherSlot | ciphers.py:136-139 | Gathering the blocks with the inverse key puts block key[j] into slot j. |
| PermutationCipher.DecryptLayout | ciphers.py:131-143 | For every ciphertext, not only one that encrypt produced, and every i below both plaintextLength and the grid length \|c\| div ncols · ncols (so below the length Decrypt states), character i of the decryption is ciphertext character key[i mod ncols]·nrows + i div ncols, with nrows = \|c\| div ncols. |
| PermutationCipher.RoundTrip | ciphers.py:109-143 | For every valid key and every message, decrypting with the instance that encryption returned gives the message back, padding stripped. |
| PermutationCipher.FreshDecryptsToEmpty | ciphers.py:116-143 | A freshly built instance remembers length 0, so it decrypts any ciphertext to the empty string. |
| PermutationCipher.KeyExamples | ciphers.py:110-115 | The key [0, 0, 2, 3] is refused and [2, 0, 3, 1] is accepted. |
| PermutationCipher.PaddingExample | ciphers.py:120-143 | With key [2, 0, 3, 1], HELLO becomes 8 ciphertext characters. The instance remembers 5, and decryption gives HELLO back. |
| PermutationCipher.HelloExample | ciphers.py:120-129 | With key [2, 0, 3, 1], HELLO encrypts to ECLCHOLC. |

## Left out

- The `print` of the rails inside `RailFence.encrypt` (line 89) and the `__main__` demonstration (lines 146-155) are output only. The demonstration's Vigenère data reappears in `VigenereCipher.HelloWorldExample`.
- Python's dynamic typing:
  - Messages are strings of characters. Substitution dicts map characters to characters.
  - Permutation keys are sequences of integers.
  - Rail counts are integers.
- The Substitution dict is an ordered list of entries with distinct keys, in insertion order. That order decides which key the inverse keeps when values repeat.
- Every `raise` and every failed dict lookup becomes a `Failure` result. No partial output is modelled.
- VigenereCipher.Encrypt and VigenereCipher.Decrypt require a non-empty key. With an empty key `repeat_to_length` divides by zero.
- Helpers.RepeatToLength requires a non-empty string for the same reason. The source's truncated float division `int(length/len(s))` is modelled as integer division. The two agree unless the length is too large for a float to hold exactly.
- Helpers.PadWithC requires modulo >= 1. The library calls it only with a key length, and a length of 0 makes `%` raise.
- PermutationCipher.Encrypt and PermutationCipher.Decrypt require a non-empty key. The constructor accepts the empty key, but encrypt then fails in `pad_with_c` and decrypt fails in `//`, both with a division by zero.
- Permutations.Permute requires the list to be at least as long as the key. A shorter list makes the source fail with an index error. The ciphers never pass one.
- Helpers.Xor works on byte sequences (`bv8`), whereas the source accepts lists of Python integers of any size. No cipher uses xor.
- RailFenceCipher.Walk states only the ranges of its state in its own contract. The rail at each position is stated by RailFenceCipher.WalkIsZigZag.
- RailFenceCipher.EncryptLoop states only the number of rows in its own contract. Their content is stated by RailFenceCipher.EncryptLoopRows. An append-only clause here makes the worked examples too expensive to check.
- PermutationCipher.Columns states only the number of columns in its own contract. Their content is stated by PermutationCipher.ColumnsLayout, for the same reason of cost.
- RailFenceCipher.Encrypt states only the length in its own contract. Its content is stated by RailFenceCipher.EncryptIsRows and RailFenceCipher.EncryptIsPermutation.
- PermutationCipher.Decrypt states its exact length but not its content in its own contract. PermutationCipher.DecryptLayout gives each character below that length for every ciphertext, and PermutationCipher.RoundTrip gives the whole result for a ciphertext that encrypt produced on the same instance.
- Mutable state: the instance's `plaintext_length` update is returned explicitly rather than written in place.
- Aliasing: `Substitution` keeps the caller's dict by reference (line 47), and `Permutation` does the same with the caller's key list (line 118). Changing either after construction changes the cipher in Python, but the model's values are immutable.
- Helpers.Shift: its contract says nothing about a character that is neither a capital nor a space, beyond that the result is a capital. The body still computes Python's value for such a character.
- CaesarCipher.Encrypt, CaesarCipher.Decrypt, VigenereCipher.Encrypt and VigenereCipher.Decrypt: for the same reason, their contracts and round trips cover only characters in A-Z and the space.
- Concurrent use of one instance is not modelled.

## Findings

| source | as written | input that shows it | evidently intended | confidence | as-written member | corrected member |
|---|---|---|---|---|---|---|
| ciphers.py:92-106 | `RailFence.decrypt` counts each rail's length, then appends consecutive slices of the ciphertext of those lengths. The result is the ciphertext itself, and the counts are never used to re-interleave. | `RailFence(3)`: the ciphertext WECRLTEERDSOEEFEAOCAIVDEN of WEAREDISCOVEREDFLEEATONCE decrypts to WECRLTEERDSOEEFEAOCAIVDEN. | Cut the ciphertext into rails by the counts, then read one character from the proper rail at each step of the zig-zag. Decrypt then undoes encrypt. | high; not executed | RailFenceCipher.DecryptCounterexample | RailFenceCipher.DecryptCorrectedRoundTrip |
| ciphers.py:46-48 | `Substitution.__init__` builds the inverse dict without checking that the mapping is injective. When two keys share a value, the inverse keeps only the later key. | `Substitution({'A': 'X', 'B': 'X'})`: "A" encrypts to "X", which decrypts to "B". | Refuse a mapping that is not a bijection, so that decrypt undoes encrypt. | medium; not executed | SubstitutionCipher.NonInjectiveExample | SubstitutionCipher.CheckedRoundTrip |
