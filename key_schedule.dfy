/**
 * The key schedule that `setKey` (Blowfish/PHP.php) runs, stated as
 * functions: the key words XOR-ed into the subkeys, and the 521 chained
 * encipherments that overwrite the 18 subkeys and then the 4 x 256 S-box
 * entries, two at a time, each with the tables as they stand at that point.
 *
 * The tables are laid out flat, as the order in which `setKey` overwrites
 * them: P[0..17], then S[0][0..255], S[1], S[2], S[3] (1042 entries).
 */
module KeySchedule {
  import opened Words
  import opened Feistel

  /** The number of table entries: 18 subkeys and four S-boxes of 256 entries. */
  const Slots: nat := 1042

  /** The number of encipherments of a derivation: two entries each. */
  const Steps: nat := 521

  /** The subkeys and the S-boxes. */
  datatype Tables = Tables(P: seq<Word>, S: seq<seq<Word>>)

  /** The entries in the order `setKey` overwrites them. */
  function Flat(P: seq<Word>, S: seq<seq<Word>>): (f: seq<Word>)
    requires ValidTables(P, S)
    ensures |f| == Slots
  {
    P + S[0] + S[1] + S[2] + S[3]
  }

  /** The subkeys and S-boxes whose entries, in overwrite order, are f. */
  function Unflat(f: seq<Word>): (T: Tables)
    requires |f| == Slots
    ensures ValidTables(T.P, T.S)
  {
    Tables(f[..18], [f[18..274], f[274..530], f[530..786], f[786..1042]])
  }

  /** Laying out the tables and reading them back gives the same tables. */
  lemma UnflatFlat(P: seq<Word>, S: seq<seq<Word>>)
    requires ValidTables(P, S)
    ensures Unflat(Flat(P, S)) == Tables(P, S)
  {
    var f := Flat(P, S);
    assert f[..18] == P;
    assert f[18..274] == S[0];
    assert f[274..530] == S[1];
    assert f[530..786] == S[2];
    assert f[786..1042] == S[3];
    assert [S[0], S[1], S[2], S[3]] == S;
  }

  /** Reading tables out of a flat layout and laying them out again gives the layout. */
  lemma FlatUnflat(f: seq<Word>)
    requires |f| == Slots
    ensures Flat(Unflat(f).P, Unflat(f).S) == f
  {
    assert f == f[..18] + f[18..274] + f[274..530] + f[530..786] + f[786..1042];
  }

  /** The subkeys after `$this->_P[$i] = $w`. */
  function SetP(P: seq<Word>, i: nat, w: Word): (P': seq<Word>)
    requires i < |P|
    ensures |P'| == |P|
  {
    P[i := w]
  }

  /** `$this->_P[$i] = $w` overwrites entry i of the layout. */
  lemma FlatSetP(P: seq<Word>, S: seq<seq<Word>>, i: nat, w: Word)
    requires ValidTables(P, S) && i < 18
    ensures Flat(SetP(P, i, w), S) == Flat(P, S)[i := w]
  {
  }

  /** The S-boxes after `$this->_S[$box][$i] = $w`. */
  function SetS(S: seq<seq<Word>>, box: nat, i: nat, w: Word): (S': seq<seq<Word>>)
    requires ValidSBoxes(S) && box < 4 && i < 256
    ensures ValidSBoxes(S')
  {
    var row: seq<Word> := S[box][i := w];
    S[box := row]
  }

  /** `$this->_S[$box][$i] = $w` overwrites entry 18 + 256 * box + i of the layout. */
  lemma FlatSetS(P: seq<Word>, S: seq<seq<Word>>, box: nat, i: nat, w: Word)
    requires ValidTables(P, S) && box < 4 && i < 256
    ensures Flat(P, SetS(S, box, i, w)) == Flat(P, S)[18 + 256 * box + i := w]
  {
    var S' := SetS(S, box, i, w);
    if box == 0 {
      assert S' == [S[0][i := w], S[1], S[2], S[3]];
    } else if box == 1 {
      assert S' == [S[0], S[1][i := w], S[2], S[3]];
    } else if box == 2 {
      assert S' == [S[0], S[1], S[2][i := w], S[3]];
    } else {
      assert S' == [S[0], S[1], S[2], S[3][i := w]];
    }
  }

  /** The tables, laid out flat, and the running block after some encipherments of a derivation. */
  datatype Derivation = Derivation(tables: seq<Word>, block: Block)

  /**
   * The state after the first n of the 521 encipherments of `setKey`,
   * starting from the tables `init` (laid out flat) and the block (0, 0).
   * Encipherment n applies E to the tables as they stand and the running
   * block, and writes the result's halves into entries 2n - 2 and 2n - 1.
   * `setKey` uses `FlatEncipher` for E; the order in which entries are
   * written does not depend on it.
   */
  function Expand(E: (seq<Word>, Block) -> Block, init: seq<Word>, n: nat): (d: Derivation)
    requires |init| == Slots && n <= Steps
    ensures |d.tables| == Slots
  {
    if n == 0 then Derivation(init, Block(0, 0))
    else
      var prev := Expand(E, init, n - 1);
      var b := E(prev.tables, prev.block);
      Derivation(prev.tables[2 * n - 2 := b.l][2 * n - 1 := b.r], b)
  }

  /**
   * `_encipher2` with the tables read from their flat layout.  Every
   * layout that `Expand` produces has all 1042 entries; any other input
   * leaves the block as it is.
   */
  function FlatEncipher(f: seq<Word>, b: Block): Block
  {
    if |f| == Slots then
      var T := Unflat(f);
      Encipher(T.P, T.S, b)
    else b
  }

  /**
   * trace[k] is the state after the first k encipherments of the
   * derivation from init, for every k up to 521.
   */
  ghost predicate IsTrace(init: seq<Word>, trace: seq<Derivation>)
  {
    |init| == Slots && |trace| == Steps + 1 &&
    forall k {:trigger Expand(FlatEncipher, init, k)} :: 0 <= k <= Steps ==> trace[k] == Expand(FlatEncipher, init, k)
  }

  /** The states of the derivation from init, one per number of encipherments done. */
  ghost function Trace(init: seq<Word>): (trace: seq<Derivation>)
    requires |init| == Slots
    ensures IsTrace(init, trace)
  {
    seq(Steps + 1, k requires 0 <= k <= Steps => Expand(FlatEncipher, init, k))
  }

  /** The tables P, S and the running block b are state n of a trace. */
  ghost predicate Reached(trace: seq<Derivation>, n: nat, P: seq<Word>, S: seq<seq<Word>>, b: Block)
  {
    n < |trace| && ValidTables(P, S) && trace[n] == Derivation(Flat(P, S), b)
  }

  /**
   * One more encipherment: with the tables P, S (laid out as the state of a
   * derivation) and the running block b0, it enciphers b0 with P and S and
   * writes the halves into the next two entries.
   */
  lemma ExpandNext(init: seq<Word>, n: nat, P: seq<Word>, S: seq<seq<Word>>, b0: Block)
    requires |init| == Slots && n < Steps && ValidTables(P, S)
    requires Expand(FlatEncipher, init, n) == Derivation(Flat(P, S), b0)
    ensures var b := Encipher(P, S, b0);
      Expand(FlatEncipher, init, n + 1) == Derivation(Flat(P, S)[2 * n := b.l][2 * n + 1 := b.r], b)
  {
    UnflatFlat(P, S);
  }

  /** The subkey loop's step: encipherment n + 1 written into `_P[2n]` and `_P[2n + 1]`. */
  lemma SubkeyStep(init: seq<Word>, n: nat, P: seq<Word>, S: seq<seq<Word>>, b0: Block)
    requires |init| == Slots && n < 9 && ValidTables(P, S)
    requires Expand(FlatEncipher, init, n) == Derivation(Flat(P, S), b0)
    ensures var b := Encipher(P, S, b0);
      Expand(FlatEncipher, init, n + 1) == Derivation(Flat(SetP(SetP(P, 2 * n, b.l), 2 * n + 1, b.r), S), b)
  {
    var b := Encipher(P, S, b0);
    ExpandNext(init, n, P, S, b0);
    FlatSetP(P, S, 2 * n, b.l);
    FlatSetP(SetP(P, 2 * n, b.l), S, 2 * n + 1, b.r);
  }

  /** An S-box loop's step: encipherment n + 1 written into `_S[box][i]` and `_S[box][i + 1]`. */
  lemma SBoxStep(init: seq<Word>, n: nat, P: seq<Word>, S: seq<seq<Word>>, box: nat, i: nat, b0: Block)
    requires |init| == Slots && n < Steps && ValidTables(P, S) && box < 4 && i + 1 < 256
    requires 2 * n == 18 + 256 * box + i
    requires Expand(FlatEncipher, init, n) == Derivation(Flat(P, S), b0)
    ensures var b := Encipher(P, S, b0);
      Expand(FlatEncipher, init, n + 1) == Derivation(Flat(P, SetS(SetS(S, box, i, b.l), box, i + 1, b.r)), b)
  {
    var b := Encipher(P, S, b0);
    ExpandNext(init, n, P, S, b0);
    FlatSetS(P, S, box, i, b.l);
    FlatSetS(P, SetS(S, box, i, b.l), box, i + 1, b.r);
  }

  /** Half h of a block: 0 is Xl (written first), 1 is Xr. */
  function Half(b: Block, h: nat): Word
  {
    if h == 0 then b.l else b.r
  }

  /** An entry the first n encipherments have not reached still holds its initial value. */
  lemma {:induction false} ExpandKeeps(E: (seq<Word>, Block) -> Block, init: seq<Word>, n: nat, j: nat)
    requires |init| == Slots && n <= Steps && 2 * n <= j < Slots
    ensures Expand(E, init, n).tables[j] == init[j]
  {
    if n > 0 {
      ExpandKeeps(E, init, n - 1, j);
    }
  }

  /**
   * An entry the first n encipherments have reached holds the half that
   * encipherment j / 2 + 1 produced: each entry is written exactly once, in
   * order, and nothing later overwrites it.
   */
  lemma {:induction false} ExpandWritesOnce(E: (seq<Word>, Block) -> Block, init: seq<Word>, n: nat, j: nat)
    requires |init| == Slots && n <= Steps && j < 2 * n
    ensures j / 2 + 1 <= n
    ensures Expand(E, init, n).tables[j] == Half(Expand(E, init, j / 2 + 1).block, j % 2)
  {
    if j < 2 * n - 2 {
      ExpandWritesOnce(E, init, n - 1, j);
    } else {
      assert j / 2 + 1 == n;
    }
  }

  /** 256^m. */
  function Pow256(m: nat): nat
  {
    if m == 0 then 1 else 256 * Pow256(m - 1)
  }

  /**
   * The value of `$data` after m passes of the inner loop of the key-mixing
   * loop, which starts from 0 and shifts in the key byte at position
   * `$k`, with `$k` running cyclically from pos.  `$data << 8 | ord(...)`
   * is `$data * 256 + ord(...)`: the shift leaves the low byte zero.
   */
  function KeyPrefix(key: seq<Byte>, pos: nat, m: nat): (v: nat)
    requires |key| > 0 && m <= 4
    ensures v < Pow256(m)
  {
    if m == 0 then 0
    else
      var v := KeyPrefix(key, pos, m - 1);
      PrefixBound(v, key[(pos + m - 1) % |key|], Pow256(m - 1));
      v * 256 + key[(pos + m - 1) % |key|]
  }

  lemma PrefixBound(v: nat, b: Byte, p: nat)
    requires v < p
    ensures v * 256 + b < 256 * p
  {
  }

  /** The big-endian word of the four key bytes from position pos on, taken cyclically. */
  function KeyWord(key: seq<Byte>, pos: nat): Word
    requires |key| > 0
  {
    var L := |key|;
    BigEndian([key[pos % L], key[(pos + 1) % L], key[(pos + 2) % L], key[(pos + 3) % L]])
  }

  /** Four passes of the inner loop build the key word. */
  lemma KeyPrefixIsKeyWord(key: seq<Byte>, pos: nat)
    requires |key| > 0
    ensures KeyPrefix(key, pos, 4) == KeyWord(key, pos)
  {
    var L := |key|;
    var k0, k1, k2, k3 := key[pos % L] as int, key[(pos + 1) % L] as int, key[(pos + 2) % L] as int, key[(pos + 3) % L] as int;
    assert KeyPrefix(key, pos, 1) == k0;
    assert KeyPrefix(key, pos, 2) == k0 * 256 + k1;
    assert KeyPrefix(key, pos, 3) == (k0 * 256 + k1) * 256 + k2;
    assert KeyPrefix(key, pos, 4) == ((k0 * 256 + k1) * 256 + k2) * 256 + k3;
  }

  /** The bytes of a key word are the key bytes at positions pos .. pos + 3, modulo the key length. */
  lemma KeyWordBytes(key: seq<Byte>, pos: nat)
    requires |key| > 0
    ensures var L := |key|;
      WordBytes(KeyWord(key, pos)) == [key[pos % L], key[(pos + 1) % L], key[(pos + 2) % L], key[(pos + 3) % L]]
  {
    var L := |key|;
    BytesOfBigEndian([key[pos % L], key[(pos + 1) % L], key[(pos + 2) % L], key[(pos + 3) % L]]);
  }

  /** The subkeys after the key-mixing loop: P0[i] ^ the key word at position 4 * i. */
  function Mixed(P0: seq<Word>, key: seq<Byte>): (P: seq<Word>)
    requires |P0| == 18 && |key| > 0
    ensures |P| == 18
  {
    seq(18, i requires 0 <= i < 18 => XorW(P0[i], KeyWord(key, 4 * i)))
  }

  /** XOR-ing the key word in again recovers the initial subkey: mixing loses nothing. */
  lemma MixedUnmixes(P0: seq<Word>, key: seq<Byte>, i: nat)
    requires |P0| == 18 && |key| > 0 && i < 18
    ensures XorW(Mixed(P0, key)[i], KeyWord(key, 4 * i)) == P0[i]
  {
    XorWCancel(P0[i], KeyWord(key, 4 * i));
  }

  /** The tables `setKey` derives from the initial tables P0, S0 and a key. */
  function Schedule(P0: seq<Word>, S0: seq<seq<Word>>, key: seq<Byte>): (T: Tables)
    requires ValidTables(P0, S0) && |key| > 0
    ensures ValidTables(T.P, T.S)
  {
    Unflat(Expand(FlatEncipher, Flat(Mixed(P0, key), S0), Steps).tables)
  }

  /** The tables at the end of a trace of the derivation from the mixed subkeys are the schedule. */
  lemma ScheduleTraced(P0: seq<Word>, S0: seq<seq<Word>>, key: seq<Byte>, trace: seq<Derivation>,
                       P: seq<Word>, S: seq<seq<Word>>, b: Block)
    requires ValidTables(P0, S0) && |key| > 0
    requires IsTrace(Flat(Mixed(P0, key), S0), trace) && Reached(trace, Steps, P, S, b)
    ensures Tables(P, S) == Schedule(P0, S0, key)
  {
    assert trace[Steps] == Expand(FlatEncipher, Flat(Mixed(P0, key), S0), Steps);
    UnflatFlat(P, S);
  }

  /**
   * Every entry of the derived tables is a half of one of the 521
   * encipherments: entry j (in overwrite order) is half j % 2 of
   * encipherment j / 2 + 1; none of the initial values survives as such.
   */
  lemma ScheduleOverwritesAll(P0: seq<Word>, S0: seq<seq<Word>>, key: seq<Byte>, j: nat)
    requires ValidTables(P0, S0) && |key| > 0 && j < Slots
    ensures var T := Schedule(P0, S0, key);
      Flat(T.P, T.S)[j] == Half(Expand(FlatEncipher, Flat(Mixed(P0, key), S0), j / 2 + 1).block, j % 2)
  {
    var init := Flat(Mixed(P0, key), S0);
    FlatUnflat(Expand(FlatEncipher, init, Steps).tables);
    ExpandWritesOnce(FlatEncipher, init, Steps, j);
  }
}
