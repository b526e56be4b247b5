# Blowfish, PHP-only engine — a verified model

This project models the PHP-only Blowfish engine of PEAR Crypt_Blowfish. That engine is the class
`Crypt_Blowfish_PHP` in `Blowfish/PHP.php`, and the model covers three of its parts:

- **The 64-bit Feistel block primitive.** `_encipher` and `_decipher` run 16 rounds over the two
  32-bit halves Xl and Xr. `_encipher2` and `_decipher2` are the same rounds with sign corrections
  for 32-bit builds.
- **The key schedule of `setKey`.**
  - It validates the key and the IV.
  - It XORs the key into the subkeys cyclically, as big-endian words.
  - It makes 521 chained encipherments of a running block. Each overwrites the next two entries of
    P[0..17], then of S[0][0..255], S[1], S[2] and S[3], always with the evolving tables.
  - It caches the last key in a method-static variable.
- **The constructor**, which pads the IV and calls `setKey`.

The model has five modules:

- `Words` (`words.dfy`): words, bytes and the arithmetic.
  - A word is an integer in [0, 2^32).
  - `^` is `Xor`, defined bit by bit.
  - The wrapping `+` is `Add`.
  - A byte index `($x >> s) & 255` is `(x / 2^s) % 256`.
  - `$data << 8 | $b` is `data * 256 + b`.
  - It also holds the helpers `_binxor` and `_unpackN2`.
- `Feistel` (`feistel.dfy`): the round, `_encipher` and `_decipher` as functions of P, S and a
  block, with the inverse properties.
- `Unmasked` (`unmasked.dfy`): the same primitive and the same 521-step derivation with the
  source's unmasked `+`, over unbounded non-negative integers. It proves they agree with `Feistel`
  and `KeySchedule` in the low 32 bits.
- `KeySchedule` (`key_schedule.dfy`): the key words, the mixed subkeys, and the 521-step
  derivation `Expand`. The tables are laid out flat (P, then S[0] to S[3]) in the order `setKey`
  overwrites them. `Schedule` is the resulting tables.
- `BlowfishPHP` (`blowfish_php.dfy`): the engine class `Cipher`.
  - Its fields `P`, `S` and `iv` are updated in place.
  - The block methods loop over the rounds.
  - `SetKey` validates and consults the cache, then calls `Derive`.
  - `Derive` runs `_init`, the key-mixing loop, the subkey loop and the S-box loops.
    - The four S-box loops of the source are one loop over the box number.
    - Each loop body is a helper method.
  - The methods are proved equal to the functions above.
  - The method-static `$keyHash` is a `KeyHash` object that instances share, as all instances of
    the PHP class do.

The model follows this code:

- `setKey` accepts keys of 1 to 56 bytes.
- The constructor pads a short IV with NUL bytes. When an IV is required, `setKey` then demands
  exactly 8 bytes.
- The rounds never mask `+`. The model wraps modulo 2^32. `Unmasked` proves this gives the same
  low 32 bits as the unmasked arithmetic over unbounded integers.

## Model

| member | source | states |
|---|---|---|
| Feistel.FIndexesBytes | Blowfish/PHP.php:158-162 | For the word whose big-endian bytes are b0 b1 b2 b3, the round body indexes S[0] with b0 (bits 24-31), S[1] with b1, S[2] with b2 and S[3] with b3 (bits 0-7). |
| Feistel.DecipherEncipher | Blowfish/PHP.php:154-189 | `_decipher` applied to the output of `_encipher` returns the original (Xl, Xr), for any 18 subkeys and any four 256-entry S-boxes. |
| Feistel.EncipherDecipher | Blowfish/PHP.php:154-189 | `_encipher` also undoes `_decipher`, so the two are inverse bijections on blocks for fixed tables. |
| Feistel.DecipherIsReversedEncipher | Blowfish/PHP.php:176-189 | `_decipher` is `_encipher` run with the subkeys in reverse order (P[17] down to P[0]). |
| Feistel.DecipherUnwinds | Blowfish/PHP.php:178-188 | After n decipher rounds on an enciphered block, the halves are those after encipher round 16 - n, swapped and masked with the neighbouring subkeys. |
| Feistel.RoundUndone | Blowfish/PHP.php:156-165 | A decipher round with the same F undoes the encipher round it mirrors. |
| Words.XorWCancel | Blowfish/PHP.php:157 | XOR-ing the same subkey in twice gives the word back. |
| Words.XorAssoc | Blowfish/PHP.php:157-163 | `^` is associative on non-negative integers. |
| Words.XorComm | Blowfish/PHP.php:157-163 | `^` is commutative. |
| Words.XorBelow | Blowfish/PHP.php:157-163 | `^` of two n-bit values is an n-bit value, so `^` of words is a word. |
| Words.XorLow | Blowfish/PHP.php:157-163 | The low 32 bits of `^` on integers of any width are `^` on their low 32 bits. |
| Words.AddLow | Blowfish/PHP.php:158-161 | The low 32 bits of the unmasked `+` are the 32-bit wrapping `+` of the low words. |
| Words.DigitLow | Blowfish/PHP.php:158-161 | A byte `($x >> s) & 255` depends only on the low bits of x up to that byte. |
| Unmasked.FLow | Blowfish/PHP.php:158-162 | The unmasked round body, read modulo 2^32, is F on the low 32 bits of `$temp` and of the S-box entries. |
| Unmasked.RoundLow | Blowfish/PHP.php:156-165 | One unmasked round agrees with the 32-bit round in the low 32 bits of both halves. |
| Unmasked.EncRoundsLow | Blowfish/PHP.php:156-165 | The first n unmasked `_encipher` rounds agree with the 32-bit ones in the low 32 bits. |
| Unmasked.DecRoundsLow | Blowfish/PHP.php:178-187 | The first n unmasked `_decipher` rounds agree with the 32-bit ones in the low 32 bits. |
| Unmasked.EncipherLow | Blowfish/PHP.php:154-167 | `_encipher` with unmasked arithmetic gives the 32-bit Blowfish encipherment in the low 32 bits, even for tables that hold values of 2^32 or more. |
| Unmasked.DecipherLow | Blowfish/PHP.php:176-189 | The same for `_decipher`. |
| Unmasked.DecipherEncipherWide | Blowfish/PHP.php:154-189 | With unmasked arithmetic, deciphering an enciphered block gives back its low 32 bits. |
| Unmasked.UnflatLow | Blowfish/PHP.php:330-354 | Layouts that agree in the low 32 bits entry by entry read back as subkeys and S-boxes that agree in the low 32 bits. |
| Unmasked.FlatEncipherLow | Blowfish/PHP.php:331-351 | One unmasked `_encipher2` of the derivation, on tables agreeing in the low bits, agrees with the 32-bit one in the low 32 bits. |
| Unmasked.ExpandLowStep | Blowfish/PHP.php:330-354 | If the two derivations agree in the low 32 bits after n - 1 encipherments, they agree after n. |
| Unmasked.ExpandLow | Blowfish/PHP.php:330-354 | After any number of the 521 encipherments, the unmasked derivation, which stores every result as it is, agrees with the 32-bit derivation in the low 32 bits of every table entry and of the running block. |
| Unmasked.EncipherWideBound | Blowfish/PHP.php:154-167 | One unmasked encipherment widens values by at most two bits: with table entries below 2^w and halves below 2^(w+2), both output halves are below 2^(w+2). |
| Unmasked.ScheduleLow | Blowfish/PHP.php:316-354 | The tables the unmasked derivation leaves, whose entries may pass 2^32, are `Schedule`'s tables in their low 32 bits. |
| BlowfishPHP.Cipher.Encipher | Blowfish/PHP.php:154-167 | The loop of `_encipher` (16 rounds with P[0..15], then Xr = Xl ^ P[16] and Xl = temp ^ P[17]) computes `Feistel.Encipher`. |
| BlowfishPHP.Cipher.Decipher | Blowfish/PHP.php:176-189 | The loop of `_decipher` (P[17] down to P[2], then P[1] and P[0]) computes `Feistel.Decipher`. |
| BlowfishPHP.Cipher.Encipher2 | Blowfish/PHP.php:200-229 | `_encipher2` corrects negative inputs to their unsigned word and then computes the same encipherment as `_encipher`. |
| BlowfishPHP.Cipher.Decipher2 | Blowfish/PHP.php:240-269 | `_decipher2` corrects negative inputs the same way and then computes the same decipherment as `_decipher`. |
| Words.UnsignedOfReading | Blowfish/PHP.php:202-207 | Either reading of a word, signed or unsigned, is corrected to that word. |
| Words.Signed | Blowfish/PHP.php:202-207 | The signed reading of a word is negative exactly when bit 31 is set. |
| Words.BinxorXors | Blowfish/PHP.php:122-128 | `_binxor` of any readings of two words is the unsigned XOR of the words. |
| Words.UnpackN2Bytes | Blowfish/PHP.php:137-145 | The two words of `_unpackN2` give back the 8 bytes they came from. |
| Words.BytesOfBigEndian | Blowfish/PHP.php:322-327 | Building a big-endian word from 4 bytes and splitting it again gives the bytes back. |
| Words.BigEndianOfBytes | Blowfish/PHP.php:322-327 | Splitting a word into bytes and building it again gives the word back. |
| BlowfishPHP.Code | Blowfish/PHP.php:288-301 | The error codes `setKey` raises are 2, 3 and 7. |
| BlowfishPHP.PadIV | Blowfish/PHP.php:94-95 | An IV shorter than 8 bytes is padded on the right with NUL bytes to exactly 8. A longer IV is left unchanged. |
| BlowfishPHP.Cipher.constructor | Blowfish/PHP.php:92-99 | The IV is padded. Without a key, nothing else happens. With a key, the outcome is that of `setKey` on the key and the padded IV, with the shared cache consulted and updated. |
| BlowfishPHP.ReadKeyWord | Blowfish/PHP.php:322-326 | The inner loop builds the big-endian word of the next four key bytes, read cyclically, and advances `$k` by four modulo the key length. |
| BlowfishPHP.Cipher.MixKey | Blowfish/PHP.php:316-328 | After the mixing loop, P[i] is the initial P[i] XOR the key word at positions 4i..4i+3 modulo the key length. S and the IV are unchanged. |
| KeySchedule.KeyPrefixIsKeyWord | Blowfish/PHP.php:323-326 | Four shift-in steps from position pos give the big-endian key word at pos. |
| KeySchedule.KeyWordBytes | Blowfish/PHP.php:322-327 | The bytes of the key word at pos are key[pos mod L] .. key[(pos + 3) mod L]. |
| KeySchedule.MixedUnmixes | Blowfish/PHP.php:321-328 | XOR-ing the key word in again recovers the initial subkey, so mixing loses nothing. |
| BlowfishPHP.Cipher.Init | Blowfish/PHP.php:106-112 | `_init` loads the default P and S. |
| BlowfishPHP.Cipher.ExpandSubkeys | Blowfish/PHP.php:330-334 | The subkey loop makes encipherments 1 to 9 of the derivation, each written into the next two subkeys. The S-boxes are untouched. |
| BlowfishPHP.Cipher.SubkeyPair | Blowfish/PHP.php:331-333 | One pass of the subkey loop enciphers the running block with the current tables and writes it into `_P[i]` and `_P[i+1]`. |
| BlowfishPHP.Cipher.ExpandSBox | Blowfish/PHP.php:335-354 | Each S-box loop makes the next 128 encipherments of the derivation, written into S-box `box` in order. |
| BlowfishPHP.Cipher.SBoxPair | Blowfish/PHP.php:336-338 | One pass of an S-box loop enciphers the running block with the current tables and writes it into `_S[box][i]` and `_S[box][i+1]`. |
| BlowfishPHP.Cipher.Derive | Blowfish/PHP.php:314-354 | `_init`, mixing and the five loops leave exactly the tables `Schedule` gives for the key. |
| KeySchedule.ExpandNext | Blowfish/PHP.php:330-354 | Each step of the derivation enciphers the running block with the tables as they stand and writes the halves into the next two entries. |
| KeySchedule.SubkeyStep | Blowfish/PHP.php:330-334 | The step for `_P[2n]` and `_P[2n+1]` is encipherment n + 1 of the derivation. |
| KeySchedule.SBoxStep | Blowfish/PHP.php:335-354 | The step for `_S[box][i]` and `_S[box][i+1]` is encipherment 9 + 128 * box + i / 2 + 1 of the derivation. |
| KeySchedule.FlatSetP | Blowfish/PHP.php:332-333 | Writing subkey i changes entry i of the overwrite order and no other. |
| KeySchedule.FlatSetS | Blowfish/PHP.php:337-353 | Writing `_S[box][i]` changes entry 18 + 256 * box + i and no other. |
| KeySchedule.UnflatFlat | Blowfish/PHP.php:330-354 | The overwrite order (P, then S[0] to S[3]) lays out the tables without loss. |
| KeySchedule.ExpandKeeps | Blowfish/PHP.php:330-354 | An entry the first n encipherments have not reached still holds its value from before the derivation. |
| KeySchedule.ExpandWritesOnce | Blowfish/PHP.php:330-354 | After n encipherments, entry j < 2n holds half j mod 2 of encipherment j / 2 + 1. So every entry is written exactly once, in order, and never again. |
| KeySchedule.ScheduleOverwritesAll | Blowfish/PHP.php:316-354 | Every one of the 18 + 1024 entries of the derived tables is the half of the encipherment that wrote it. No initial value survives as such. |
| BlowfishPHP.Cipher.SetKey | Blowfish/PHP.php:284-358 | A non-string key fails with code 2, a key of length 0 or over 56 with code 3, and, when an IV is required, an IV that is not 8 bytes with code 7; every failure changes nothing. Success happens exactly when none of these applies. The IV is stored when required. A key equal to the cached one leaves P and S unchanged. Any other accepted key derives `Schedule` and becomes the cached key. A truthful cache stays truthful. |
| BlowfishPHP.SharedCacheSkipsDerivation | Blowfish/PHP.php:286-309 | Two engines built with the same key share the static cache. The second skips derivation and keeps empty tables that are not the schedule. |
| BlowfishPHP.Cipher.WithOwnCache | Blowfish/PHP.php:92-99 | The constructor with a cache per instance. Every accepted key leaves the schedule's tables. |
| BlowfishPHP.OwnCacheDerives | Blowfish/PHP.php:286-309 | With a cache per instance, both engines end up with the schedule's tables. |

## Left out

- Blowfish.php, the engine selector, and the ECB and CBC modes and the MCrypt engine it loads are
  not part of this model. Neither are padding and chaining.
- The default subkeys and S-boxes of Crypt_Blowfish_DefaultKey (the digits of pi) are not part of
  this model. They are constructor parameters, so known-answer test vectors are out of reach.
- `md5($key)` in the key cache is taken to identify the key, so the cache compares keys.
  - PHP compares the digests with the loose `==`. Two different keys whose digests both read as
    "0e" followed only by digits would compare equal there.
  - The model does not capture this collision, because md5 is a foreign hash function.
- The platform XOR detection (`CRYPT_BLOWFISH_PHP_XORWORKAROUND`) is not modelled. The dispatch
  picks `_encipher2` on both branches, so the key schedule always uses `Encipher2`.
- The `(float)` casts of `_binxor` and `_unpackN2` are not modelled. Floating point is left out.
- Words are integers in [0, 2^32) rather than fixed-width bit-vectors. `^` is the bit-by-bit `Xor`,
  `+` is `Add` (wrapping), `& 255` is `% 256`, and `<< 8 |` into a value whose low byte is zero is
  `* 256 +`.
- BlowfishPHP.Cipher.Encipher: the engine's methods and the key schedule store the low 32 bits of
  every value, although the source never masks `+`. `Unmasked.ScheduleLow` shows the unmasked
  derivation over unbounded integers gives the same low 32 bits.
- Unmasked: its values are unbounded naturals, not 64-bit integers.
  - A 64-bit build computes them exactly only while they stay below 2^53, the limit up to which the
    `(float)` casts of `_binxor` keep every bit. Above 2^63 its integer `+` turns into a float.
  - `Unmasked.EncipherWideBound` shows each encipherment widens the values by at most two bits.
    The derivation stores every result, so this bound alone does not keep 521 steps below 2^53.
  - The model assumes the source's values stay below 2^53 throughout the derivation. No such bound
    is proved.
- On a 32-bit PHP build, an integer overflow of `+` turns into a float. This is not modelled.
- BlowfishPHP.Cipher.Encipher: the block methods require well-formed tables (18 subkeys, four
  S-boxes of 256). The source would read undefined entries of the empty arrays of an unkeyed engine
  as 0 with a notice.
- Words.UnpackN2 requires at least 8 bytes. `unpack('N2')` on a shorter string fails in PHP, and
  its only callers (the ECB and CBC modes) are not part of this model.
- A missing IV (`null`) is the empty byte string, as `strlen` and `.` treat it. A missing key is
  `None`, and a non-string key is `NotString`.
- `PEAR::raiseError` objects are the `Failure` outcome with the error kind, and `Code` gives the
  numeric code. The message text is not modelled.
- BlowfishPHP.Cipher.ExpandSBox: the loop body of each S-box loop is a helper method, and the four
  S-box loops are one loop over the box number. Its contract states the derivation reached, not
  separately that P is unchanged. That follows from the derivation writing only S entries there.

## Findings

| source | as written | input that shows it | evidently intended | confidence | as-written member | corrected member |
|---|---|---|---|---|---|---|
| Blowfish/PHP.php:286, 307-309, 356 | `$keyHash` is a method-static variable, shared by every instance of the class. `setKey` returns `true` without deriving when the digest matches it. | Construct two engines with the same key K. The second constructor's `setKey` finds K cached and returns at once, and the second engine keeps the empty `_P` and `_S` it was declared with. | Skip re-derivation only when this instance's tables already come from K, so the cache belongs to the instance. | high (not executed) | BlowfishPHP.SharedCacheSkipsDerivation | BlowfishPHP.OwnCacheDerives |
