/**
 * Integers, bytes, 32-bit words and the bitwise exclusive or that the
 * PHP-only Blowfish engine (Blowfish/PHP.php) computes with.
 *
 * PHP has no unsigned 32-bit type: the engine keeps words in PHP integers
 * and uses `^`, `+`, `>>` and `&` on them.  Here a word is an integer in
 * [0, 2^32), `^` is the bitwise exclusive or of non-negative integers
 * (`Xor`, defined bit by bit), a wrapping `+` is `Add`, and a byte index
 * `($x >> s) & 255` is `(x / 2^s) % 256`.  On a 32-bit build the same bits
 * can arrive as a negative integer; the helpers `_binxor` and `_unpackN2`
 * and the `+= 4294967296` corrections move such a value back to the
 * unsigned reading, and the lemmas below state that this keeps the word.
 */
module Words {

  const TwoTo32: int := 0x1_0000_0000

  /** One byte of a PHP string, as `ord()` returns it. */
  type Byte = b: int | 0 <= b < 256

  /** An unsigned 32-bit word. */
  type Word = w: int | 0 <= w < TwoTo32

  /** 2^n. */
  function Pow2(n: nat): (p: nat)
    ensures p >= 1
  {
    if n == 0 then 1 else 2 * Pow2(n - 1)
  }

  /** The exclusive or of two bits. */
  function BitXor(p: nat, q: nat): nat
  {
    if p == q then 0 else 1
  }

  /** The bitwise exclusive or of two non-negative integers, lowest bit first. */
  function Xor(a: nat, b: nat): nat
    decreases a + b
  {
    if a == 0 && b == 0 then 0 else 2 * Xor(a / 2, b / 2) + BitXor(a % 2, b % 2)
  }

  /** The lowest bit of a ^ b is the XOR of the lowest bits; the rest is the XOR of the rest. */
  lemma XorDigits(a: nat, b: nat)
    ensures Xor(a, b) % 2 == BitXor(a % 2, b % 2)
    ensures Xor(a, b) / 2 == Xor(a / 2, b / 2)
  {
    var x := Xor(a, b);
    if a != 0 || b != 0 {
      var h, l := Xor(a / 2, b / 2), BitXor(a % 2, b % 2);
      assert x == 2 * h + l;
      Halves(h, l);
      assert x % 2 == l && x / 2 == h;
    }
  }

  /** A lowest bit l below the higher bits h: dividing by 2 and taking the remainder split them again. */
  lemma Halves(h: nat, l: nat)
    requires l < 2
    ensures (2 * h + l) % 2 == l && (2 * h + l) / 2 == h
  {
    ModUnique(2 * h + l, 2, h, l);
  }

  /** Two naturals with the same lowest bit and the same higher bits are equal. */
  lemma SameDigits(x: nat, y: nat)
    requires x % 2 == y % 2 && x / 2 == y / 2
    ensures x == y
  {
  }

  lemma {:induction false} XorZero(a: nat)
    ensures Xor(a, 0) == a
    decreases a
  {
    if a != 0 {
      XorZero(a / 2);
    }
  }

  lemma {:induction false} XorSelf(a: nat)
    ensures Xor(a, a) == 0
    decreases a
  {
    if a != 0 {
      XorSelf(a / 2);
    }
  }

  lemma {:induction false} XorComm(a: nat, b: nat)
    ensures Xor(a, b) == Xor(b, a)
    decreases a + b
  {
    if a != 0 || b != 0 {
      XorComm(a / 2, b / 2);
    }
  }

  lemma {:induction false} XorAssoc(a: nat, b: nat, c: nat)
    ensures Xor(Xor(a, b), c) == Xor(a, Xor(b, c))
    decreases a + b + c
  {
    if a + b + c != 0 {
      XorAssoc(a / 2, b / 2, c / 2);
      XorLeftDigits(a, b, c);
      XorRightDigits(a, b, c);
      ParityAssoc(a % 2, b % 2, c % 2);
      SameDigits(Xor(Xor(a, b), c), Xor(a, Xor(b, c)));
    }
  }

  lemma XorLeftDigits(a: nat, b: nat, c: nat)
    ensures Xor(Xor(a, b), c) / 2 == Xor(Xor(a / 2, b / 2), c / 2)
    ensures Xor(Xor(a, b), c) % 2 == BitXor(BitXor(a % 2, b % 2), c % 2)
  {
    XorDigits(a, b);
    XorDigits(Xor(a, b), c);
  }

  lemma XorRightDigits(a: nat, b: nat, c: nat)
    ensures Xor(a, Xor(b, c)) / 2 == Xor(a / 2, Xor(b / 2, c / 2))
    ensures Xor(a, Xor(b, c)) % 2 == BitXor(a % 2, BitXor(b % 2, c % 2))
  {
    XorDigits(b, c);
    XorDigits(a, Xor(b, c));
  }

  lemma ParityAssoc(p: nat, q: nat, r: nat)
    requires p < 2 && q < 2 && r < 2
    ensures BitXor(BitXor(p, q), r) == BitXor(p, BitXor(q, r))
  {
  }

  /** XOR never sets a bit above the highest bit of its arguments. */
  lemma {:induction false} XorBelow(a: nat, b: nat, n: nat)
    requires a < Pow2(n) && b < Pow2(n)
    ensures Xor(a, b) < Pow2(n)
    decreases n
  {
    if n > 0 && (a != 0 || b != 0) {
      XorBelow(a / 2, b / 2, n - 1);
    }
  }

  lemma Pow2Of32()
    ensures Pow2(32) == TwoTo32
  {
    assert Pow2(8) == 256;
    assert Pow2(16) == 256 * 256 by {
      Pow2Add(8, 8);
    }
    Pow2Add(16, 16);
  }

  lemma {:induction false} Pow2Add(m: nat, n: nat)
    ensures Pow2(m + n) == Pow2(m) * Pow2(n)
    decreases n
  {
    if n > 0 {
      Pow2Add(m, n - 1);
    }
  }

  /** `^` on two words: a word. */
  function XorW(a: Word, b: Word): (x: Word)
    ensures x == Xor(a, b)
  {
    Pow2Of32();
    XorBelow(a, b, 32);
    Xor(a, b)
  }

  /** `+` on two words, wrapping modulo 2^32. */
  function Add(a: Word, b: Word): (x: Word)
    ensures x == (a + b) % TwoTo32
  {
    if a + b < TwoTo32 then a + b else a + b - TwoTo32
  }

  /** Masking twice with the same word gives back the original. */
  lemma XorWCancel(a: Word, k: Word)
    ensures XorW(XorW(a, k), k) == a
  {
    XorAssoc(a, k, k);
    XorSelf(k);
    XorZero(a);
  }

  /** f ^ (f ^ r ^ k) == r ^ k: XOR-ing the same word in twice cancels it. */
  lemma XorWCancelLeft(f: Word, r: Word, k: Word)
    ensures XorW(f, XorW(XorW(f, r), k)) == XorW(r, k)
  {
    XorAssoc(f, r, k);
    XorAssoc(f, f, Xor(r, k));
    XorSelf(f);
    XorComm(0, Xor(r, k));
    XorZero(Xor(r, k));
  }

  /** The big-endian word whose bytes, most significant first, are b[0], b[1], b[2], b[3]. */
  function BigEndian(b: seq<Byte>): Word
    requires |b| == 4
  {
    b[0] as int * 0x100_0000 + b[1] as int * 0x1_0000 + b[2] as int * 0x100 + b[3] as int
  }

  /** The four bytes of w, most significant first. */
  function WordBytes(w: Word): (b: seq<Byte>)
    ensures |b| == 4
  {
    [w / 0x100_0000, (w / 0x1_0000) % 256, (w / 0x100) % 256, w % 256]
  }

  /** Splitting a big-endian word gives back its bytes. */
  lemma BytesOfBigEndian(b: seq<Byte>)
    requires |b| == 4
    ensures WordBytes(BigEndian(b)) == b
  {
    var w := BigEndian(b);
    var b0, b1, b2, b3 := b[0] as int, b[1] as int, b[2] as int, b[3] as int;
    ShiftDown(b0 * 0x100 + b1, b2 * 0x100 + b3, 0x1_0000);
    ShiftDown(b0 * 0x1_0000 + b1 * 0x100 + b2, b3, 0x100);
    ShiftDown(b0, b1 * 0x1_0000 + b2 * 0x100 + b3, 0x100_0000);
    ShiftDown(b0, b1, 0x100);
    ShiftDown(b0 * 0x100 + b1, b2, 0x100);
    assert WordBytes(w)[0] == b[0];
    assert WordBytes(w)[1] == b[1];
    assert WordBytes(w)[2] == b[2];
    assert WordBytes(w)[3] == b[3];
  }

  /** (q * m + r) / m == q and (q * m + r) % m == r when 0 <= r < m. */
  lemma ShiftDown(q: nat, r: nat, m: nat)
    requires 0 <= r < m
    ensures (q * m + r) / m == q && (q * m + r) % m == r
  {
    ModUnique(q * m + r, m, q, r);
  }

  /** Joining the bytes of a word gives back the word. */
  lemma BigEndianOfBytes(w: Word)
    ensures BigEndian(WordBytes(w)) == w
  {
    var b := WordBytes(w);
    assert w == (w / 0x100) * 0x100 + w % 256;
    assert w / 0x100 == (w / 0x1_0000) * 0x100 + (w / 0x100) % 256;
    assert w / 0x1_0000 == (w / 0x100_0000) * 0x100 + (w / 0x1_0000) % 256;
  }

  /** The signed 32-bit reading of a word, as a 32-bit PHP build holds it. */
  function Signed(w: Word): (x: int)
    ensures -0x8000_0000 <= x < 0x8000_0000
    ensures x < 0 <==> w >= 0x8000_0000
  {
    if w < 0x8000_0000 then w else w - TwoTo32
  }

  /** PHP integer x carries word w: as its unsigned value, or as its signed 32-bit value. */
  predicate Holds(x: int, w: Word)
  {
    x == w || x == Signed(w)
  }

  /** A PHP integer in the range that some word reading covers. */
  predicate HoldsWord(x: int)
  {
    -0x8000_0000 <= x < TwoTo32
  }

  /**
   * The correction `if ($x < 0) $x += 4294967296;` of `_encipher2`,
   * `_decipher2`, `_binxor` and `_unpackN2`.
   */
  function Unsigned(x: int): (u: Word)
    requires HoldsWord(x)
    ensures 0 <= x ==> u == x
    ensures x < 0 ==> u == x + TwoTo32
  {
    if x < 0 then x + TwoTo32 else x
  }

  /**
   * Whichever reading of w the integer is, the correction yields w: in
   * 32-bit arithmetic it changes nothing, which is why `_encipher2` and
   * `_decipher2` compute what `_encipher` and `_decipher` compute.
   */
  lemma UnsignedOfReading(x: int, w: Word)
    requires Holds(x, w)
    ensures HoldsWord(x) && Unsigned(x) == w
  {
  }

  /**
   * `_binxor`: the XOR of two words given in either reading, returned as
   * the unsigned value (a PHP float in the source).
   */
  function Binxor(l: int, r: int): (x: Word)
    requires HoldsWord(l) && HoldsWord(r)
  {
    XorW(Unsigned(l), Unsigned(r))
  }

  /** `_binxor` is the XOR of the two words its arguments carry. */
  lemma BinxorXors(l: int, r: int, wl: Word, wr: Word)
    requires Holds(l, wl) && Holds(r, wr)
    ensures HoldsWord(l) && HoldsWord(r)
    ensures Binxor(l, r) == XorW(wl, wr)
  {
    UnsignedOfReading(l, wl);
    UnsignedOfReading(r, wr);
  }

  /**
   * `_unpackN2`: the two big-endian 32-bit words at the start of a block,
   * each as its unsigned value.  `unpack('N2', ...)` is taken at its
   * 32-bit-build reading (signed); the correction restores the unsigned
   * value, which is what a 64-bit build returns directly.
   */
  function UnpackN2(data: seq<Byte>): (n: (Word, Word))
    requires |data| >= 8
    ensures n.0 == BigEndian(data[..4])
    ensures n.1 == BigEndian(data[4..8])
  {
    (Unsigned(Signed(BigEndian(data[..4]))), Unsigned(Signed(BigEndian(data[4..8]))))
  }

  /** `_unpackN2` loses nothing: the bytes of the two words are the eight bytes of the block. */
  lemma UnpackN2Bytes(data: seq<Byte>)
    requires |data| >= 8
    ensures WordBytes(UnpackN2(data).0) == data[..4]
    ensures WordBytes(UnpackN2(data).1) == data[4..8]
  {
    BytesOfBigEndian(data[..4]);
    BytesOfBigEndian(data[4..8]);
  }

  /** Mod arithmetic: x = q*L + r with 0 <= r < L fixes x % L. */
  lemma ModUnique(x: int, L: int, q: int, r: int)
    requires L > 0 && 0 <= r < L && x == q * L + r
    ensures x % L == r && x / L == q
  {
    var q', r' := x / L, x % L;
    assert x == q' * L + r';
    var d := q - q';
    assert d * L == r' - r;
    if d >= 1 {
      MulAtLeast(L, d);
      assert false;
    } else if d <= -1 {
      MulAtLeast(L, -d);
      assert false;
    }
  }

  lemma MulAtLeast(L: int, d: int)
    requires L > 0 && d >= 1
    ensures L * d >= L
  {
  }

  /** Stepping a cyclic position: `($k + 1) % $len` after k = c % len is (c + 1) % len. */
  lemma ModStep(c: nat, L: int)
    requires L > 0
    ensures (c % L + 1) % L == (c + 1) % L
  {
    var q, r := c / L, c % L;
    assert c == q * L + r;
    if r + 1 < L {
      ModUnique(c + 1, L, q, r + 1);
      ModUnique(r + 1, L, 0, r + 1);
    } else {
      ModUnique(c + 1, L, q + 1, 0);
      ModUnique(r + 1, L, 1, 0);
    }
  }

  /** Reducing modulo 2m halves to reducing the higher bits modulo m and keeps the lowest bit. */
  lemma LowerDigits(y: nat, m: nat)
    requires m > 0
    ensures (y % (2 * m)) / 2 == (y / 2) % m && (y % (2 * m)) % 2 == y % 2
  {
    var q, r := y / (2 * m), y % (2 * m);
    assert y == q * (2 * m) + r;
    var h, l := r / 2, r % 2;
    assert r == 2 * h + l;
    assert y == 2 * (q * m + h) + l;
    ModUnique(y, 2, q * m + h, l);
    ModUnique(y / 2, m, q, h);
    Halves(h, l);
  }

  /** The low n bits of a ^ b are the XOR of the low n bits of a and of b. */
  lemma {:induction false} XorLowBits(a: nat, b: nat, n: nat)
    ensures Xor(a, b) % Pow2(n) == Xor(a % Pow2(n), b % Pow2(n))
  {
    if n == 0 {
      assert Xor(0, 0) == 0;
    } else {
      var m := Pow2(n - 1);
      var x, a', b' := Xor(a, b), a % (2 * m), b % (2 * m);
      XorLowBits(a / 2, b / 2, n - 1);
      XorDigits(a, b);
      XorDigits(a', b');
      LowerDigits(x, m);
      LowerDigits(a, m);
      LowerDigits(b, m);
      SameDigits(x % (2 * m), Xor(a', b'));
    }
  }

  /** The low 32 bits of `^` on integers of any width: `^` on their low words. */
  lemma XorLow(a: nat, b: nat)
    ensures Xor(a, b) % TwoTo32 == XorW(a % TwoTo32, b % TwoTo32)
  {
    Pow2Of32();
    XorLowBits(a, b, 32);
  }

  /** The low 32 bits of an unmasked `+`: the wrapping `+` on the low words. */
  lemma AddLow(a: nat, b: nat)
    ensures (a + b) % TwoTo32 == Add(a % TwoTo32, b % TwoTo32)
  {
    var qa, ra, qb, rb := a / TwoTo32, a % TwoTo32, b / TwoTo32, b % TwoTo32;
    assert a == qa * TwoTo32 + ra && b == qb * TwoTo32 + rb;
    if ra + rb < TwoTo32 {
      ModUnique(a + b, TwoTo32, qa + qb, ra + rb);
    } else {
      ModUnique(a + b, TwoTo32, qa + qb + 1, ra + rb - TwoTo32);
    }
  }

  /**
   * A digit of base k above the unit m, `($x >> s) & 255` with m = 2^s and
   * k = 256, is read from the low m * k * c part of x alone.
   */
  lemma DigitLow(x: nat, m: nat, k: nat, c: nat)
    requires m > 0 && k > 0 && c > 0
    ensures ((x % (m * k * c)) / m) % k == (x / m) % k
  {
    var T := m * k * c;
    var q, r := x / T, x % T;
    assert x == q * T + r;
    var h, l := r / m, r % m;
    assert r == h * m + l;
    var a, s := h / k, h % k;
    assert h == a * k + s;
    assert x == (q * k * c + h) * m + l;
    ModUnique(x, m, q * k * c + h, l);
    assert x / m == (q * c + a) * k + s;
    ModUnique(x / m, k, q * c + a, s);
  }
}
