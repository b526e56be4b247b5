/**
 * The block primitive and the key derivation with the unmasked arithmetic
 * of `_encipher`, `_encipher2` and `_decipher` (Blowfish/PHP.php), over
 * unbounded non-negative integers.  The source never masks its additions:
 * the sum of two S-box entries can pass 2^32, the halves then carry bits
 * above bit 31 from round to round, and the tables `setKey` writes hold
 * such values too.  The S-box indices only read bits 0 to 31, and the low
 * 32 bits of `+` and `^` depend only on the low 32 bits of their operands,
 * so every result agrees with the 32-bit Blowfish of modules Feistel and
 * KeySchedule in its low 32 bits.  That is what this module proves.  A
 * 64-bit build computes these values exactly only while they stay below
 * the range of its integers and of the floats `_binxor` passes them through.
 */
module Unmasked {
  import opened Words
  import opened Feistel
  import opened KeySchedule

  /** Two halves as unbounded non-negative integers, which `+` does not wrap. */
  datatype Wide = Wide(l: nat, r: nat)

  /** The low 32 bits of both halves. */
  function Low(w: Wide): (b: Block)
    ensures b.l == w.l % TwoTo32 && b.r == w.r % TwoTo32
  {
    Block(w.l % TwoTo32, w.r % TwoTo32)
  }

  /** Tables of unbounded entries whose low 32 bits are the word tables P and S. */
  predicate LowTables(P': seq<nat>, S': seq<seq<nat>>, P: seq<Word>, S: seq<seq<Word>>)
    requires ValidTables(P, S)
  {
    |P'| == 18 && |S'| == 4 &&
    (forall i :: 0 <= i < 18 ==> P'[i] % TwoTo32 == P[i]) &&
    (forall b :: 0 <= b < 4 ==> |S'[b]| == 256) &&
    (forall b, i :: 0 <= b < 4 && 0 <= i < 256 && |S'[b]| == 256 ==> S'[b][i] % TwoTo32 == S[b][i])
  }

  /** The round body with the unmasked `+` of the source. */
  function FWide(S': seq<seq<nat>>, x: nat): nat
    requires |S'| == 4 && forall b :: 0 <= b < 4 ==> |S'[b]| == 256
  {
    Xor(S'[0][(x / 0x100_0000) % 256] + S'[1][(x / 0x1_0000) % 256], S'[2][(x / 0x100) % 256])
      + S'[3][x % 256]
  }

  /** The four S-box indices of the round body read only bits 0 to 31. */
  lemma IndexesLow(x: nat)
    ensures (x / 0x100_0000) % 256 == ((x % TwoTo32) / 0x100_0000) % 256
    ensures (x / 0x1_0000) % 256 == ((x % TwoTo32) / 0x1_0000) % 256
    ensures (x / 0x100) % 256 == ((x % TwoTo32) / 0x100) % 256
    ensures x % 256 == (x % TwoTo32) % 256
  {
    DigitLow(x, 0x100_0000, 256, 1);
    DigitLow(x, 0x1_0000, 256, 0x100);
    DigitLow(x, 0x100, 256, 0x1_0000);
    DigitLow(x, 1, 256, 0x100_0000);
  }

  /** F reads only the low 32 bits of its argument and of the S-box entries, and wraps. */
  lemma FLow(P': seq<nat>, S': seq<seq<nat>>, P: seq<Word>, S: seq<seq<Word>>, x: nat)
    requires ValidTables(P, S) && LowTables(P', S', P, S)
    ensures FWide(S', x) % TwoTo32 == F(S, x % TwoTo32)
  {
    IndexesLow(x);
    var s0, s1 := S'[0][(x / 0x100_0000) % 256], S'[1][(x / 0x1_0000) % 256];
    var s2, s3 := S'[2][(x / 0x100) % 256], S'[3][x % 256];
    AddLow(s0, s1);
    XorLow(s0 + s1, s2);
    AddLow(Xor(s0 + s1, s2), s3);
  }

  /** One round: temp = Xl ^ k; Xl = F(temp) ^ Xr; Xr = temp, nothing masked. */
  function RoundWide(S': seq<seq<nat>>, k: nat, w: Wide): Wide
    requires |S'| == 4 && forall b :: 0 <= b < 4 ==> |S'[b]| == 256
  {
    var temp := Xor(w.l, k);
    Wide(Xor(FWide(S', temp), w.r), temp)
  }

  lemma RoundLow(P': seq<nat>, S': seq<seq<nat>>, P: seq<Word>, S: seq<seq<Word>>, i: nat, w: Wide)
    requires ValidTables(P, S) && LowTables(P', S', P, S) && i < 18
    ensures Low(RoundWide(S', P'[i], w)) == Round(S, P[i], Low(w))
  {
    var temp := Xor(w.l, P'[i]);
    XorLow(w.l, P'[i]);
    FLow(P', S', P, S, temp);
    XorLow(FWide(S', temp), w.r);
  }

  /** The first n rounds of `_encipher`, nothing masked. */
  function EncRoundsWide(P': seq<nat>, S': seq<seq<nat>>, w: Wide, n: nat): Wide
    requires |P'| == 18 && |S'| == 4 && (forall b :: 0 <= b < 4 ==> |S'[b]| == 256) && n <= 16
  {
    if n == 0 then w else RoundWide(S', P'[n - 1], EncRoundsWide(P', S', w, n - 1))
  }

  /** `_encipher`, nothing masked. */
  function EncipherWide(P': seq<nat>, S': seq<seq<nat>>, w: Wide): Wide
    requires |P'| == 18 && |S'| == 4 && forall b :: 0 <= b < 4 ==> |S'[b]| == 256
  {
    var e := EncRoundsWide(P', S', w, 16);
    Wide(Xor(e.r, P'[17]), Xor(e.l, P'[16]))
  }

  /** The first n rounds of `_decipher`, nothing masked. */
  function DecRoundsWide(P': seq<nat>, S': seq<seq<nat>>, w: Wide, n: nat): Wide
    requires |P'| == 18 && |S'| == 4 && (forall b :: 0 <= b < 4 ==> |S'[b]| == 256) && n <= 16
  {
    if n == 0 then w else RoundWide(S', P'[18 - n], DecRoundsWide(P', S', w, n - 1))
  }

  /** `_decipher`, nothing masked. */
  function DecipherWide(P': seq<nat>, S': seq<seq<nat>>, w: Wide): Wide
    requires |P'| == 18 && |S'| == 4 && forall b :: 0 <= b < 4 ==> |S'[b]| == 256
  {
    var d := DecRoundsWide(P', S', w, 16);
    Wide(Xor(d.r, P'[0]), Xor(d.l, P'[1]))
  }

  lemma {:induction false} EncRoundsLow(P': seq<nat>, S': seq<seq<nat>>, P: seq<Word>, S: seq<seq<Word>>,
                                        w: Wide, n: nat)
    requires ValidTables(P, S) && LowTables(P', S', P, S) && n <= 16
    ensures Low(EncRoundsWide(P', S', w, n)) == EncRounds(P, S, Low(w), n)
  {
    if n > 0 {
      var prev := EncRoundsWide(P', S', w, n - 1);
      EncRoundsLow(P', S', P, S, w, n - 1);
      RoundLow(P', S', P, S, n - 1, prev);
    }
  }

  lemma {:induction false} DecRoundsLow(P': seq<nat>, S': seq<seq<nat>>, P: seq<Word>, S: seq<seq<Word>>,
                                        w: Wide, n: nat)
    requires ValidTables(P, S) && LowTables(P', S', P, S) && n <= 16
    ensures Low(DecRoundsWide(P', S', w, n)) == DecRounds(P, S, Low(w), n)
  {
    if n > 0 {
      var prev := DecRoundsWide(P', S', w, n - 1);
      DecRoundsLow(P', S', P, S, w, n - 1);
      RoundLow(P', S', P, S, 18 - n, prev);
    }
  }

  /** The unmasked `_encipher` agrees with 32-bit Blowfish in the low 32 bits of each half. */
  lemma EncipherLow(P': seq<nat>, S': seq<seq<nat>>, P: seq<Word>, S: seq<seq<Word>>, w: Wide)
    requires ValidTables(P, S) && LowTables(P', S', P, S)
    ensures Low(EncipherWide(P', S', w)) == Feistel.Encipher(P, S, Low(w))
  {
    var e := EncRoundsWide(P', S', w, 16);
    EncRoundsLow(P', S', P, S, w, 16);
    XorLow(e.r, P'[17]);
    XorLow(e.l, P'[16]);
  }

  /** The unmasked `_decipher` agrees with 32-bit Blowfish in the low 32 bits of each half. */
  lemma DecipherLow(P': seq<nat>, S': seq<seq<nat>>, P: seq<Word>, S: seq<seq<Word>>, w: Wide)
    requires ValidTables(P, S) && LowTables(P', S', P, S)
    ensures Low(DecipherWide(P', S', w)) == Feistel.Decipher(P, S, Low(w))
  {
    var d := DecRoundsWide(P', S', w, 16);
    DecRoundsLow(P', S', P, S, w, 16);
    XorLow(d.r, P'[0]);
    XorLow(d.l, P'[1]);
  }

  /**
   * Enciphering and then deciphering, nothing masked, gives back the block
   * in its low 32 bits, even when the tables hold wider values.
   */
  lemma DecipherEncipherWide(P': seq<nat>, S': seq<seq<nat>>, P: seq<Word>, S: seq<seq<Word>>, w: Wide)
    requires ValidTables(P, S) && LowTables(P', S', P, S)
    ensures Low(DecipherWide(P', S', EncipherWide(P', S', w))) == Low(w)
  {
    EncipherLow(P', S', P, S, w);
    DecipherLow(P', S', P, S, EncipherWide(P', S', w));
    DecipherEncipher(P, S, Low(w));
  }

  /** Every entry of the subkeys and S-boxes is below 2^w. */
  predicate TablesBelow(P': seq<nat>, S': seq<seq<nat>>, w: nat)
    requires |P'| == 18 && |S'| == 4 && forall b :: 0 <= b < 4 ==> |S'[b]| == 256
  {
    (forall i :: 0 <= i < 18 ==> P'[i] < Pow2(w)) &&
    (forall b, i :: 0 <= b < 4 && 0 <= i < 256 ==> S'[b][i] < Pow2(w))
  }

  /** With entries below 2^w, the unmasked round body stays below 2^(w + 2). */
  lemma FWideBound(S': seq<seq<nat>>, x: nat, w: nat)
    requires |S'| == 4 && forall b :: 0 <= b < 4 ==> |S'[b]| == 256
    requires forall b, i :: 0 <= b < 4 && 0 <= i < 256 ==> S'[b][i] < Pow2(w)
    ensures FWide(S', x) < Pow2(w + 2)
  {
    var s0, s1 := S'[0][(x / 0x100_0000) % 256], S'[1][(x / 0x1_0000) % 256];
    var s2, s3 := S'[2][(x / 0x100) % 256], S'[3][x % 256];
    assert Pow2(w + 2) == 2 * Pow2(w + 1) && Pow2(w + 1) == 2 * Pow2(w);
    XorBelow(s0 + s1, s2, w + 1);
  }

  /** The first n unmasked rounds keep halves below 2^(w + 2) when the tables are below 2^w. */
  lemma {:induction false} EncRoundsWideBound(P': seq<nat>, S': seq<seq<nat>>, x: Wide, n: nat, w: nat)
    requires |P'| == 18 && |S'| == 4 && (forall b :: 0 <= b < 4 ==> |S'[b]| == 256) && n <= 16
    requires TablesBelow(P', S', w) && x.l < Pow2(w + 2) && x.r < Pow2(w + 2)
    ensures var e := EncRoundsWide(P', S', x, n); e.l < Pow2(w + 2) && e.r < Pow2(w + 2)
  {
    if n > 0 {
      var prev := EncRoundsWide(P', S', x, n - 1);
      EncRoundsWideBound(P', S', x, n - 1, w);
      assert Pow2(w + 2) == 4 * Pow2(w);
      var temp := Xor(prev.l, P'[n - 1]);
      XorBelow(prev.l, P'[n - 1], w + 2);
      FWideBound(S', temp, w);
      XorBelow(FWide(S', temp), prev.r, w + 2);
    }
  }

  /**
   * One unmasked encipherment widens values by at most two bits: with
   * table entries below 2^w and halves below 2^(w + 2), both halves of the
   * result are below 2^(w + 2).
   */
  lemma EncipherWideBound(P': seq<nat>, S': seq<seq<nat>>, x: Wide, w: nat)
    requires |P'| == 18 && |S'| == 4 && forall b :: 0 <= b < 4 ==> |S'[b]| == 256
    requires TablesBelow(P', S', w) && x.l < Pow2(w + 2) && x.r < Pow2(w + 2)
    ensures var y := EncipherWide(P', S', x); y.l < Pow2(w + 2) && y.r < Pow2(w + 2)
  {
    var e := EncRoundsWide(P', S', x, 16);
    EncRoundsWideBound(P', S', x, 16, w);
    assert Pow2(w + 2) == 4 * Pow2(w);
    XorBelow(e.r, P'[17], w + 2);
    XorBelow(e.l, P'[16], w + 2);
  }

  /** Subkeys and S-boxes with unbounded entries, as the unmasked derivation leaves them. */
  datatype WideTables = WideTables(P: seq<nat>, S: seq<seq<nat>>)

  /** The low 32 bits of every entry of f. */
  function LowSeq(f: seq<nat>): (g: seq<Word>)
    ensures |g| == |f| && forall j :: 0 <= j < |f| ==> g[j] == f[j] % TwoTo32
  {
    seq(|f|, j requires 0 <= j < |f| => f[j] % TwoTo32)
  }

  /** Unbounded entries whose low 32 bits are the words of f, entry by entry. */
  predicate LowFlat(f': seq<nat>, f: seq<Word>)
  {
    LowSeq(f') == f
  }

  /** The tables whose entries, in the order `setKey` overwrites them, are f. */
  function UnflatWide(f: seq<nat>): (T: WideTables)
    requires |f| == Slots
    ensures |T.P| == 18 && |T.S| == 4 && forall b :: 0 <= b < 4 ==> |T.S[b]| == 256
  {
    WideTables(f[..18], [f[18..274], f[274..530], f[530..786], f[786..1042]])
  }

  /** Reading unbounded tables and word tables out of layouts that agree in the low bits. */
  lemma UnflatLow(f': seq<nat>, f: seq<Word>)
    requires |f| == Slots && LowFlat(f', f)
    ensures var T', T := UnflatWide(f'), Unflat(f); LowTables(T'.P, T'.S, T.P, T.S)
  {
    var T', T := UnflatWide(f'), Unflat(f);
    forall b, i | 0 <= b < 4 && 0 <= i < 256
      ensures T'.S[b][i] % TwoTo32 == T.S[b][i]
    {
      assert T'.S[b][i] == f'[18 + 256 * b + i] && T.S[b][i] == f[18 + 256 * b + i];
    }
  }

  /** `_encipher2`, nothing masked, with the tables read from their flat layout. */
  function FlatEncipherWide(f: seq<nat>, w: Wide): Wide
  {
    if |f| == Slots then
      var T := UnflatWide(f);
      EncipherWide(T.P, T.S, w)
    else w
  }

  /** The tables, laid out flat, and the running block of the unmasked derivation. */
  datatype WideDerivation = WideDerivation(tables: seq<nat>, block: Wide)

  /**
   * The state after the first n of the 521 encipherments of `setKey`,
   * nothing masked and each result stored as it is.
   */
  function ExpandWide(init: seq<nat>, n: nat): (d: WideDerivation)
    requires |init| == Slots && n <= Steps
    ensures |d.tables| == Slots
  {
    if n == 0 then WideDerivation(init, Wide(0, 0))
    else
      var prev := ExpandWide(init, n - 1);
      var b := FlatEncipherWide(prev.tables, prev.block);
      WideDerivation(prev.tables[2 * n - 2 := b.l][2 * n - 1 := b.r], b)
  }

  /** Storing a block's halves keeps layouts that agree in the low bits agreeing. */
  lemma LowFlatStore(f': seq<nat>, f: seq<Word>, n: nat, w: Wide, b: Block)
    requires LowFlat(f', f) && 0 < n && 2 * n <= |f| && Low(w) == b
    ensures LowFlat(f'[2 * n - 2 := w.l][2 * n - 1 := w.r], f[2 * n - 2 := b.l][2 * n - 1 := b.r])
  {
  }

  /** One encipherment of the derivation, on layouts that agree in the low bits. */
  lemma FlatEncipherLow(f': seq<nat>, f: seq<Word>, w: Wide)
    requires |f| == Slots && LowFlat(f', f)
    ensures Low(FlatEncipherWide(f', w)) == FlatEncipher(f, Low(w))
  {
    var T', T := UnflatWide(f'), Unflat(f);
    UnflatLow(f', f);
    EncipherLow(T'.P, T'.S, T.P, T.S, w);
  }

  /** An unmasked derivation state whose low 32 bits are the 32-bit one, entry by entry. */
  predicate Agree(d': WideDerivation, d: Derivation)
  {
    LowFlat(d'.tables, d.tables) && Low(d'.block) == d.block
  }

  /** One more encipherment keeps the two derivations agreeing. */
  lemma ExpandLowStep(init': seq<nat>, init: seq<Word>, n: nat, d': WideDerivation, d: Derivation)
    requires |init| == Slots && |init'| == Slots && 0 < n <= Steps
    requires d' == ExpandWide(init', n - 1) && d == Expand(FlatEncipher, init, n - 1) && Agree(d', d)
    ensures Agree(ExpandWide(init', n), Expand(FlatEncipher, init, n))
  {
    FlatEncipherLow(d'.tables, d.tables, d'.block);
    LowFlatStore(d'.tables, d.tables, n, FlatEncipherWide(d'.tables, d'.block), FlatEncipher(d.tables, d.block));
  }

  /** The states of the unmasked derivation, step 0 to step 521. */
  ghost predicate IsWideTrace(init: seq<nat>, trace: seq<WideDerivation>)
  {
    |init| == Slots && |trace| == Steps + 1 &&
    forall k {:trigger ExpandWide(init, k)} :: 0 <= k <= Steps ==> trace[k] == ExpandWide(init, k)
  }

  ghost function WideTrace(init: seq<nat>): (trace: seq<WideDerivation>)
    requires |init| == Slots
    ensures IsWideTrace(init, trace)
  {
    seq(Steps + 1, k requires 0 <= k <= Steps => ExpandWide(init, k))
  }

  /** Step n of the two traces agree when step n - 1 does. */
  lemma TraceStepLow(init': seq<nat>, init: seq<Word>, wide: seq<WideDerivation>, trace: seq<Derivation>, n: nat)
    requires IsWideTrace(init', wide) && IsTrace(init, trace) && 0 < n <= Steps
    requires Agree(wide[n - 1], trace[n - 1])
    ensures Agree(wide[n], trace[n])
  {
    assert wide[n - 1] == ExpandWide(init', n - 1) && trace[n - 1] == Expand(FlatEncipher, init, n - 1);
    ExpandLowStep(init', init, n, wide[n - 1], trace[n - 1]);
    assert wide[n] == ExpandWide(init', n) && trace[n] == Expand(FlatEncipher, init, n);
  }

  lemma {:induction false} TraceLow(init': seq<nat>, init: seq<Word>, wide: seq<WideDerivation>, trace: seq<Derivation>, n: nat)
    requires IsWideTrace(init', wide) && IsTrace(init, trace) && LowFlat(init', init) && n <= Steps
    ensures Agree(wide[n], trace[n])
  {
    if n == 0 {
      assert wide[0] == ExpandWide(init', 0) && trace[0] == Expand(FlatEncipher, init, 0);
    } else {
      TraceLow(init', init, wide, trace, n - 1);
      TraceStepLow(init', init, wide, trace, n);
    }
  }

  /**
   * The unmasked derivation and the 32-bit derivation agree in the low 32
   * bits of every table entry and of the running block, step by step.
   */
  lemma ExpandLow(init': seq<nat>, init: seq<Word>, n: nat)
    requires |init| == Slots && LowFlat(init', init) && n <= Steps
    ensures Agree(ExpandWide(init', n), Expand(FlatEncipher, init, n))
  {
    var wide, trace := WideTrace(init'), Trace(init);
    TraceLow(init', init, wide, trace, n);
    assert wide[n] == ExpandWide(init', n) && trace[n] == Expand(FlatEncipher, init, n);
  }

  /**
   * The tables the unmasked derivation leaves, whose entries may pass
   * 2^32, are the schedule's tables in their low 32 bits.
   */
  lemma ScheduleLow(P0: seq<Word>, S0: seq<seq<Word>>, key: seq<Byte>)
    requires ValidTables(P0, S0) && |key| > 0
    ensures var T := Schedule(P0, S0, key);
      var T' := UnflatWide(ExpandWide(Flat(Mixed(P0, key), S0), Steps).tables);
      LowTables(T'.P, T'.S, T.P, T.S)
  {
    var init := Flat(Mixed(P0, key), S0);
    ExpandLow(init, init, Steps);
    UnflatLow(ExpandWide(init, Steps).tables, Expand(FlatEncipher, init, Steps).tables);
  }
}
