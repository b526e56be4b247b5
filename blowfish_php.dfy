/**
 * The PHP-only Blowfish engine, class Crypt_Blowfish_PHP (Blowfish/PHP.php):
 * the subkey array `_P`, the S-boxes `_S` and the IV `_iv` as fields that
 * `setKey` updates in place, the block primitives as loops over the two
 * halves, and the key cache that `setKey` keeps in a method-static variable.
 */
module BlowfishPHP {
  import opened Words
  import opened Feistel
  import opened KeySchedule

  datatype Option<T> = None | Some(value: T)

  /** The `$key` argument of `setKey`: a PHP string, or a PHP value of any other type. */
  datatype KeyArg = Str(bytes: seq<Byte>) | NotString

  /** Why `setKey` refused, with what the error message reports. */
  datatype SetKeyError = KeyNotString | KeyLength(len: nat) | IVLength(len: nat)

  /** The code `setKey` passes to `PEAR::raiseError`. */
  function Code(e: SetKeyError): (c: int)
    ensures c in {2, 3, 7}
  {
    match e
    case KeyNotString => 2
    case KeyLength(_) => 3
    case IVLength(_) => 7
  }

  /** What `setKey` returns: `true`, or a PEAR error. */
  datatype Outcome = Success | Failure(error: SetKeyError)

  /** The keys `setKey` accepts: strings of 1 to 56 bytes. */
  predicate KeyAccepted(key: KeyArg)
  {
    key.Str? && 0 < |key.bytes| <= 56
  }

  /**
   * The constructor's IV: padded on the right with NUL bytes to 8 bytes
   * when shorter, unchanged otherwise.  A missing IV (`null`) is the empty
   * string here, as `strlen` and `.` treat it.
   */
  function PadIV(iv: seq<Byte>): (r: seq<Byte>)
    ensures |iv| < 8 ==> |r| == 8 && r[..|iv|] == iv && forall i :: |iv| <= i < 8 ==> r[i] == 0
    ensures |iv| >= 8 ==> r == iv
  {
    if |iv| < 8 then iv + seq(8 - |iv|, _ => 0) else iv
  }

  /**
   * The method-static `$keyHash` of `setKey`: the last key whose tables
   * were derived (`md5($key)` is taken to identify the key).  PHP keeps one
   * such variable for all instances of the class.
   */
  class KeyHash {
    var last: Option<seq<Byte>>

    constructor()
      ensures last == None
    {
      last := None;
    }
  }

  /**
   * The inner loop of the key mixing: `$data` gathers the four key bytes
   * from position `$k` on, most significant first, and `$k` moves on by
   * four, wrapping at the key length.  pos is the position in the
   * unwrapped key that `$k` stands for.
   */
  method ReadKeyWord(key: seq<Byte>, k0: nat, ghost pos: nat) returns (data: Word, k: nat)
    requires 0 < |key| && k0 == pos % |key|
    ensures data == KeyWord(key, pos) && k == (pos + 4) % |key|
  {
    var len := |key|;
    data := 0;
    k := k0;
    var j := 4;
    while j > 0
      invariant 0 <= j <= 4
      invariant data == KeyPrefix(key, pos, 4 - j)
      invariant k == (pos + 4 - j) % len
    {
      // `$data << 8 | ord($key{$k})`: the shift leaves the low byte free.
      data := data * 256 + key[k];
      ModStep(pos + 4 - j, len);
      k := (k + 1) % len;
      j := j - 1;
    }
    KeyPrefixIsKeyWord(key, pos);
  }

  class Cipher {
    /** The initial subkeys and S-boxes that `_init` loads (Crypt_Blowfish_DefaultKey). */
    const P0: seq<Word>
    const S0: seq<seq<Word>>
    /** `_iv_required`: set by the chaining modes, false here. */
    const ivRequired: bool
    /** The key cache `setKey` consults. */
    const keyHash: KeyHash

    var P: seq<Word>
    var S: seq<seq<Word>>
    var iv: seq<Byte>

    /**
     * The cache tells the truth: when it names a key, the tables are the
     * ones derived from that key.
     */
    predicate CacheAgrees()
      reads this, keyHash
    {
      ValidTables(P0, S0) &&
      (keyHash.last.Some? ==>
         0 < |keyHash.last.value| && Tables(P, S) == Schedule(P0, S0, keyHash.last.value))
    }

    /**
     * `__construct($key, $iv)`: pads the IV and, when a key is given, calls
     * `setKey` with it and the padded IV, discarding what `setKey` returns.
     * The cache is the one all instances share.
     */
    constructor(P0: seq<Word>, S0: seq<seq<Word>>, ivRequired: bool, shared: KeyHash,
                key: Option<KeyArg>, ivArg: seq<Byte>)
      requires ValidTables(P0, S0)
      modifies shared
      ensures this.P0 == P0 && this.S0 == S0 && this.ivRequired == ivRequired && keyHash == shared
      ensures key.None? ==> P == [] && S == [] && iv == PadIV(ivArg) && shared.last == old(shared.last)
      ensures (key.Some? && KeyAccepted(key.value) && (!ivRequired || |ivArg| <= 8) &&
               old(shared.last) != Some(key.value.bytes)) ==>
                Tables(P, S) == Schedule(P0, S0, key.value.bytes) && shared.last == Some(key.value.bytes)
      ensures (key.Some? && KeyAccepted(key.value) && (!ivRequired || |ivArg| <= 8) &&
               old(shared.last) == Some(key.value.bytes)) ==> P == [] && S == []
      ensures key.Some? && !(KeyAccepted(key.value) && (!ivRequired || |ivArg| <= 8)) ==>
                P == [] && S == [] && shared.last == old(shared.last)
      ensures iv == PadIV(ivArg)
    {
      this.P0 := P0;
      this.S0 := S0;
      this.ivRequired := ivRequired;
      keyHash := shared;
      P := [];
      S := [];
      iv := PadIV(ivArg);
      new;
      if key.Some? {
        var _ := SetKey(key.value, iv);
      }
    }

    /**
     * The same constructor with a cache of this instance's own: the
     * corrected form of the shared static cache.
     */
    constructor WithOwnCache(P0: seq<Word>, S0: seq<seq<Word>>, ivRequired: bool,
                             key: Option<KeyArg>, ivArg: seq<Byte>)
      requires ValidTables(P0, S0)
      ensures this.P0 == P0 && this.S0 == S0 && this.ivRequired == ivRequired
      ensures fresh(keyHash) && CacheAgrees()
      ensures key.None? ==> P == [] && S == [] && keyHash.last == None
      ensures key.Some? && KeyAccepted(key.value) && (!ivRequired || |ivArg| <= 8) ==>
                Tables(P, S) == Schedule(P0, S0, key.value.bytes)
      ensures iv == PadIV(ivArg)
    {
      this.P0 := P0;
      this.S0 := S0;
      this.ivRequired := ivRequired;
      keyHash := new KeyHash();
      P := [];
      S := [];
      iv := PadIV(ivArg);
      new;
      if key.Some? {
        var _ := SetKey(key.value, iv);
      }
    }

    /** `_encipher`: 16 rounds with P[0..15], then the final swap with P[16] and P[17]. */
    method Encipher(xl: Word, xr: Word) returns (l: Word, r: Word)
      requires ValidTables(P, S)
      ensures Block(l, r) == Feistel.Encipher(P, S, Block(xl, xr))
    {
      l, r := xl, xr;
      var temp: Word := 0;
      var i := 0;
      while i < 16
        invariant 0 <= i <= 16
        invariant Block(l, r) == EncRounds(P, S, Block(xl, xr), i)
        invariant i > 0 ==> temp == r
      {
        temp := XorW(l, P[i]);
        l := XorW(F(S, temp), r);
        r := temp;
        i := i + 1;
      }
      r := XorW(l, P[16]);
      l := XorW(temp, P[17]);
    }

    /** `_decipher`: 16 rounds with P[17] down to P[2], then the final swap with P[1] and P[0]. */
    method Decipher(xl: Word, xr: Word) returns (l: Word, r: Word)
      requires ValidTables(P, S)
      ensures Block(l, r) == Feistel.Decipher(P, S, Block(xl, xr))
    {
      l, r := xl, xr;
      var temp: Word := 0;
      var i := 17;
      while i > 1
        invariant 1 <= i <= 17
        invariant Block(l, r) == DecRounds(P, S, Block(xl, xr), 17 - i)
        invariant i < 17 ==> temp == r
      {
        temp := XorW(l, P[i]);
        l := XorW(F(S, temp), r);
        r := temp;
        i := i - 1;
      }
      r := XorW(l, P[1]);
      l := XorW(temp, P[0]);
    }

    /**
     * `_encipher2`: the halves may arrive in either reading (a negative
     * integer on a 32-bit build); they are corrected to the unsigned value
     * first and the final XORs go through `_binxor`.  The result is the
     * Blowfish encipherment of the two words the arguments carry.
     */
    method Encipher2(xl: int, xr: int) returns (l: Word, r: Word)
      requires ValidTables(P, S) && HoldsWord(xl) && HoldsWord(xr)
      ensures Block(l, r) == Feistel.Encipher(P, S, Block(Unsigned(xl), Unsigned(xr)))
    {
      l := if xl < 0 then xl + TwoTo32 else xl;
      r := if xr < 0 then xr + TwoTo32 else xr;
      ghost var b := Block(l, r);
      var temp: Word := 0;
      var i := 0;
      while i < 16
        invariant 0 <= i <= 16
        invariant Block(l, r) == EncRounds(P, S, b, i)
        invariant i > 0 ==> temp == r
      {
        // `$temp` is already non-negative here, so its correction does nothing.
        temp := XorW(l, P[i]);
        l := XorW(F(S, temp), r);
        r := temp;
        i := i + 1;
      }
      r := Binxor(l, P[16]);
      l := Binxor(temp, P[17]);
    }

    /** `_decipher2`: `_decipher` with the same corrections as `_encipher2`. */
    method Decipher2(xl: int, xr: int) returns (l: Word, r: Word)
      requires ValidTables(P, S) && HoldsWord(xl) && HoldsWord(xr)
      ensures Block(l, r) == Feistel.Decipher(P, S, Block(Unsigned(xl), Unsigned(xr)))
    {
      l := if xl < 0 then xl + TwoTo32 else xl;
      r := if xr < 0 then xr + TwoTo32 else xr;
      ghost var b := Block(l, r);
      var temp: Word := 0;
      var i := 17;
      while i > 1
        invariant 1 <= i <= 17
        invariant Block(l, r) == DecRounds(P, S, b, 17 - i)
        invariant i < 17 ==> temp == r
      {
        temp := XorW(l, P[i]);
        l := XorW(F(S, temp), r);
        r := temp;
        i := i - 1;
      }
      r := Binxor(l, P[1]);
      l := Binxor(temp, P[0]);
    }

    /** `_init`: load the default subkeys and S-boxes. */
    method Init()
      modifies this
      ensures P == P0 && S == S0 && iv == old(iv)
    {
      P := P0;
      S := S0;
    }

    /**
     * The key-mixing loop of `setKey`: each subkey is XOR-ed with the
     * big-endian word of the next four key bytes, the key read cyclically.
     */
    method MixKey(key: seq<Byte>)
      requires |P| == 18 && 0 < |key|
      modifies this
      ensures P == Mixed(old(P), key) && S == old(S) && iv == old(iv)
    {
      ghost var P1 := P;
      var k := 0;
      var i := 0;
      while i < 18
        invariant 0 <= i <= 18 && |P| == 18 && S == old(S) && iv == old(iv)
        invariant k == (4 * i) % |key|
        invariant forall t :: 0 <= t < i ==> P[t] == XorW(P1[t], KeyWord(key, 4 * t))
        invariant forall t :: i <= t < 18 ==> P[t] == P1[t]
      {
        var data;
        data, k := ReadKeyWord(key, k, 4 * i);
        P := P[i := XorW(P[i], data)];
        i := i + 1;
      }
    }

    /**
     * The loop of `setKey` that overwrites the subkeys: encipherments 1 to
     * 9 of the derivation, each written into the next two subkeys.
     */
    method ExpandSubkeys(ghost init: seq<Word>, ghost trace: seq<Derivation>) returns (datal: Word, datar: Word)
      requires IsTrace(init, trace) && Reached(trace, 0, P, S, Block(0, 0))
      modifies this
      ensures S == old(S) && iv == old(iv)
      ensures Reached(trace, 9, P, S, Block(datal, datar))
    {
      datal, datar := 0, 0;
      var i := 0;
      ghost var n := 0;
      while i <= 16
        invariant 0 <= n <= 9 && i == 2 * n
        invariant S == old(S) && iv == old(iv)
        invariant Reached(trace, n, P, S, Block(datal, datar))
      {
        datal, datar := SubkeyPair(init, trace, n, i, datal, datar);
        i := i + 2;
        n := n + 1;
      }
      assert n == 9;
    }

    /**
     * One pass of the subkey loop: encipherment n + 1 of the derivation,
     * written into `_P[i]` and `_P[i + 1]`.
     */
    method SubkeyPair(ghost init: seq<Word>, ghost trace: seq<Derivation>, ghost n: nat, i: nat, l0: Word, r0: Word)
      returns (datal: Word, datar: Word)
      requires n < 9 && i == 2 * n && IsTrace(init, trace) && Reached(trace, n, P, S, Block(l0, r0))
      modifies this
      ensures S == old(S) && iv == old(iv)
      ensures Reached(trace, n + 1, P, S, Block(datal, datar))
    {
      SubkeyStep(init, n, P, S, Block(l0, r0));
      datal, datar := Encipher2(l0, r0);
      P := SetP(SetP(P, i, datal), i + 1, datar);
    }

    /**
     * One of the four loops of `setKey` that overwrite S-box `box`:
     * encipherments 10 + 128 * box to 9 + 128 * (box + 1).
     */
    method ExpandSBox(box: nat, ghost init: seq<Word>, ghost trace: seq<Derivation>, l0: Word, r0: Word)
      returns (datal: Word, datar: Word)
      requires box < 4 && IsTrace(init, trace) && Reached(trace, 9 + 128 * box, P, S, Block(l0, r0))
      modifies this
      ensures iv == old(iv)
      ensures Reached(trace, 9 + 128 * (box + 1), P, S, Block(datal, datar))
    {
      datal, datar := l0, r0;
      ghost var first, last := 9 + 128 * box, 9 + 128 * (box + 1);
      var i := 0;
      ghost var m, n := 0, first;
      while i < 256
        invariant 0 <= m <= 128 && i == 2 * m && n == first + m
        invariant iv == old(iv)
        invariant Reached(trace, n, P, S, Block(datal, datar))
      {
        datal, datar := SBoxPair(box, init, trace, n, i, datal, datar);
        i := i + 2;
        m, n := m + 1, n + 1;
      }
      assert n == last;
    }

    /**
     * One pass of an S-box loop: encipherment n + 1 of the derivation,
     * written into `_S[box][i]` and `_S[box][i + 1]`.
     */
    method SBoxPair(box: nat, ghost init: seq<Word>, ghost trace: seq<Derivation>, ghost n: nat, i: nat, l0: Word, r0: Word)
      returns (datal: Word, datar: Word)
      requires box < 4 && i + 1 < 256 && 2 * n == 18 + 256 * box + i
      requires IsTrace(init, trace) && Reached(trace, n, P, S, Block(l0, r0))
      modifies this
      ensures iv == old(iv)
      ensures Reached(trace, n + 1, P, S, Block(datal, datar))
    {
      SBoxStep(init, n, P, S, box, i, Block(l0, r0));
      datal, datar := Encipher2(l0, r0);
      S := SetS(S, box, i, datal);
      S := SetS(S, box, i + 1, datar);
    }

    /**
     * `setKey($key, $iv)`.  Refuses a non-string key (code 2), a key of 0
     * or more than 56 bytes (code 3) and, when an IV is required, an IV that
     * is not 8 bytes (code 7), changing nothing.  Otherwise it stores the IV
     * when one is required and, unless the cache names this key, derives
     * the tables from the defaults and the key and records the key.
     */
    method SetKey(key: KeyArg, ivArg: seq<Byte>) returns (result: Outcome)
      requires ValidTables(P0, S0)
      modifies this, keyHash
      ensures key.NotString? ==> result == Failure(KeyNotString)
      ensures key.Str? && !KeyAccepted(key) ==> result == Failure(KeyLength(|key.bytes|))
      ensures KeyAccepted(key) && ivRequired && |ivArg| != 8 ==> result == Failure(IVLength(|ivArg|))
      ensures result.Success? <==> KeyAccepted(key) && (!ivRequired || |ivArg| == 8)
      ensures result.Failure? ==> P == old(P) && S == old(S) && iv == old(iv) && keyHash.last == old(keyHash.last)
      ensures result.Success? ==> iv == (if ivRequired then ivArg else old(iv))
      ensures result.Success? && old(keyHash.last) == Some(key.bytes) ==>
                P == old(P) && S == old(S) && keyHash.last == old(keyHash.last)
      ensures result.Success? && old(keyHash.last) != Some(key.bytes) ==>
                Tables(P, S) == Schedule(P0, S0, key.bytes) && keyHash.last == Some(key.bytes)
      ensures old(CacheAgrees()) ==> CacheAgrees()
      ensures old(CacheAgrees()) && result.Success? ==> Tables(P, S) == Schedule(P0, S0, key.bytes)
    {
      if !key.Str? {
        return Failure(KeyNotString);
      }
      var len := |key.bytes|;
      if len > 56 || len == 0 {
        return Failure(KeyLength(len));
      }
      if ivRequired {
        if |ivArg| != 8 {
          return Failure(IVLength(|ivArg|));
        }
        iv := ivArg;
      }
      if keyHash.last == Some(key.bytes) {
        return Success;
      }
      Derive(key.bytes);
      keyHash.last := Some(key.bytes);
      return Success;
    }

    /**
     * The derivation part of `setKey`: `_init`, the key mixing, then the
     * subkey loop and the four S-box loops, 521 encipherments in all.
     */
    method Derive(key: seq<Byte>)
      requires ValidTables(P0, S0) && 0 < |key|
      modifies this
      ensures Tables(P, S) == Schedule(P0, S0, key) && iv == old(iv)
    {
      Init();
      MixKey(key);
      ghost var init := Flat(P, S);
      ghost var trace := Trace(init);
      assert trace[0] == Expand(FlatEncipher, init, 0);
      var datal, datar := ExpandSubkeys(init, trace);
      var box := 0;
      while box < 4
        invariant 0 <= box <= 4 && iv == old(iv)
        invariant Reached(trace, 9 + 128 * box, P, S, Block(datal, datar))
      {
        datal, datar := ExpandSBox(box, init, trace, datal, datar);
        box := box + 1;
      }
      ScheduleTraced(P0, S0, key, trace, P, S, Block(datal, datar));
    }
  }

  /**
   * Two engines constructed with the same key, as the source has them:
   * both consult the one method-static cache, so the second constructor's
   * `setKey` finds the key already recorded and returns `true` without
   * deriving anything, and the second engine is left with the empty `_P`
   * and `_S` it was declared with.
   */
  method SharedCacheSkipsDerivation(P0: seq<Word>, S0: seq<seq<Word>>, key: seq<Byte>)
    returns (first: Cipher, second: Cipher)
    requires ValidTables(P0, S0) && 0 < |key| <= 56
    ensures Tables(first.P, first.S) == Schedule(P0, S0, key)
    ensures second.P == [] && second.S == []
    ensures Tables(second.P, second.S) != Schedule(P0, S0, key)
  {
    var shared := new KeyHash();
    first := new Cipher(P0, S0, false, shared, Some(Str(key)), []);
    second := new Cipher(P0, S0, false, shared, Some(Str(key)), []);
  }

  /**
   * The same two engines with a cache each: both end up with the tables
   * the key schedules.
   */
  method OwnCacheDerives(P0: seq<Word>, S0: seq<seq<Word>>, key: seq<Byte>)
    returns (first: Cipher, second: Cipher)
    requires ValidTables(P0, S0) && 0 < |key| <= 56
    ensures Tables(first.P, first.S) == Schedule(P0, S0, key)
    ensures Tables(second.P, second.S) == Schedule(P0, S0, key)
  {
    first := new Cipher.WithOwnCache(P0, S0, false, Some(Str(key)), []);
    second := new Cipher.WithOwnCache(P0, S0, false, Some(Str(key)), []);
  }
}
