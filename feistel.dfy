/**
 * The 64-bit Feistel block primitive of Blowfish as the PHP engine
 * computes it in `_encipher` and `_decipher` (Blowfish/PHP.php), stated as
 * functions over the subkey array P and the four S-boxes.  The engine's
 * methods, which loop over the rounds and update the two halves in place,
 * are proved equal to these functions in module BlowfishPHP.
 */
module Feistel {
  import opened Words

  /** A 64-bit block as its left half Xl and right half Xr. */
  datatype Block = Block(l: Word, r: Word)

  /** Four S-boxes of 256 words each. */
  predicate ValidSBoxes(S: seq<seq<Word>>)
  {
    |S| == 4 && |S[0]| == 256 && |S[1]| == 256 && |S[2]| == 256 && |S[3]| == 256
  }

  /** 18 subkeys and four S-boxes: the shape every key schedule has. */
  predicate ValidTables(P: seq<Word>, S: seq<seq<Word>>)
  {
    |P| == 18 && ValidSBoxes(S)
  }

  /**
   * Blowfish's F, as the round body computes it from `$temp`: S-box 0 is
   * indexed by `($temp >> 24) & 255`, S-box 1 by `($temp >> 16) & 255`,
   * S-box 2 by `($temp >> 8) & 255` and S-box 3 by `$temp & 255`; the two
   * sums wrap modulo 2^32.
   */
  function F(S: seq<seq<Word>>, x: Word): Word
    requires ValidSBoxes(S)
  {
    Add(XorW(Add(S[0][(x / 0x100_0000) % 256], S[1][(x / 0x1_0000) % 256]),
             S[2][(x / 0x100) % 256]),
        S[3][x % 256])
  }

  /**
   * The four S-box indices of F are the four bytes of its argument, most
   * significant first: for the word whose bytes are b0 b1 b2 b3, S-box 0 is
   * indexed by b0, S-box 1 by b1, S-box 2 by b2 and S-box 3 by b3.
   */
  lemma FIndexesBytes(S: seq<seq<Word>>, b0: Byte, b1: Byte, b2: Byte, b3: Byte)
    requires ValidSBoxes(S)
    ensures F(S, BigEndian([b0, b1, b2, b3])) == Add(XorW(Add(S[0][b0], S[1][b1]), S[2][b2]), S[3][b3])
  {
    var x := BigEndian([b0, b1, b2, b3]);
    BytesOfBigEndian([b0, b1, b2, b3]);
    ShiftDown(0, x / 0x100_0000, 256);
  }

  /** One round with subkey k: temp = Xl ^ k; Xl = F(temp) ^ Xr; Xr = temp. */
  function Round(S: seq<seq<Word>>, k: Word, b: Block): Block
    requires ValidSBoxes(S)
  {
    var temp := XorW(b.l, k);
    Block(XorW(F(S, temp), b.r), temp)
  }

  /** The block after the first n rounds of `_encipher`, which use P[0], ..., P[n-1] in that order. */
  function EncRounds(P: seq<Word>, S: seq<seq<Word>>, b: Block, n: nat): Block
    requires ValidTables(P, S) && n <= 16
  {
    if n == 0 then b else Round(S, P[n - 1], EncRounds(P, S, b, n - 1))
  }

  /** `_encipher`: 16 rounds with P[0..15], then Xr = Xl ^ P[16] and Xl = temp ^ P[17]. */
  function Encipher(P: seq<Word>, S: seq<seq<Word>>, b: Block): Block
    requires ValidTables(P, S)
  {
    var e := EncRounds(P, S, b, 16);
    Block(XorW(e.r, P[17]), XorW(e.l, P[16]))
  }

  /** The block after the first n rounds of `_decipher`, which use P[17], ..., P[18-n] in that order. */
  function DecRounds(P: seq<Word>, S: seq<seq<Word>>, b: Block, n: nat): Block
    requires ValidTables(P, S) && n <= 16
  {
    if n == 0 then b else Round(S, P[18 - n], DecRounds(P, S, b, n - 1))
  }

  /** `_decipher`: 16 rounds with P[17] down to P[2], then Xr = Xl ^ P[1] and Xl = temp ^ P[0]. */
  function Decipher(P: seq<Word>, S: seq<seq<Word>>, b: Block): Block
    requires ValidTables(P, S)
  {
    var d := DecRounds(P, S, b, 16);
    Block(XorW(d.r, P[0]), XorW(d.l, P[1]))
  }

  /**
   * After n rounds of deciphering an enciphered block, the state is the
   * state after round 16 - n of enciphering, halves swapped and each
   * masked with the subkey next to it.
   */
  lemma {:induction false} DecipherUnwinds(P: seq<Word>, S: seq<seq<Word>>, b: Block, n: nat)
    requires ValidTables(P, S) && n <= 16
    ensures var e := EncRounds(P, S, b, 16 - n);
      DecRounds(P, S, Encipher(P, S, b), n) == Block(XorW(e.r, P[17 - n]), XorW(e.l, P[16 - n]))
  {
    if n > 0 {
      DecipherUnwinds(P, S, b, n - 1);
      var k := 16 - n;
      RoundUndone(S, P[k], P[k + 1], P[k + 2], EncRounds(P, S, b, k));
    }
  }

  /**
   * A decipher round with subkey k2 undoes the encipher round with subkey
   * k0 applied to prev, given the enciphered state swapped and masked with
   * k2 and k1.
   */
  lemma RoundUndone(S: seq<seq<Word>>, k0: Word, k1: Word, k2: Word, prev: Block)
    requires ValidSBoxes(S)
    ensures var e := Round(S, k0, prev);
      Round(S, k2, Block(XorW(e.r, k2), XorW(e.l, k1))) == Block(XorW(prev.r, k1), XorW(prev.l, k0))
  {
    var temp := XorW(prev.l, k0);
    XorWCancel(temp, k2);
    XorWCancelLeft(F(S, temp), prev.r, k1);
  }

  /** `_decipher` undoes `_encipher`, for any P and S. */
  lemma DecipherEncipher(P: seq<Word>, S: seq<seq<Word>>, b: Block)
    requires ValidTables(P, S)
    ensures Decipher(P, S, Encipher(P, S, b)) == b
  {
    DecipherUnwinds(P, S, b, 16);
    XorWCancel(b.l, P[0]);
    XorWCancel(b.r, P[1]);
  }

  /** The subkeys in reverse order: what `_decipher` uses where `_encipher` uses P. */
  function Reversed(P: seq<Word>): (R: seq<Word>)
    requires |P| == 18
    ensures |R| == 18
    ensures forall i :: 0 <= i < 18 ==> R[i] == P[17 - i]
  {
    seq(18, i requires 0 <= i < 18 => P[17 - i])
  }

  lemma {:induction false} DecRoundsAreEncRounds(P: seq<Word>, S: seq<seq<Word>>, b: Block, n: nat)
    requires ValidTables(P, S) && n <= 16
    ensures DecRounds(P, S, b, n) == EncRounds(Reversed(P), S, b, n)
  {
    if n > 0 {
      DecRoundsAreEncRounds(P, S, b, n - 1);
    }
  }

  /** `_decipher` is `_encipher` run with the subkeys reversed. */
  lemma DecipherIsReversedEncipher(P: seq<Word>, S: seq<seq<Word>>, b: Block)
    requires ValidTables(P, S)
    ensures Decipher(P, S, b) == Encipher(Reversed(P), S, b)
  {
    DecRoundsAreEncRounds(P, S, b, 16);
  }

  /** `_encipher` undoes `_decipher` too: with the same P and S the two are inverse bijections. */
  lemma EncipherDecipher(P: seq<Word>, S: seq<seq<Word>>, b: Block)
    requires ValidTables(P, S)
    ensures Encipher(P, S, Decipher(P, S, b)) == b
  {
    var R := Reversed(P);
    assert Reversed(R) == P;
    DecipherIsReversedEncipher(P, S, b);
    DecipherIsReversedEncipher(R, S, Encipher(R, S, b));
    DecipherEncipher(R, S, b);
  }
}
