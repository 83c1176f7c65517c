/**
 The stream cipher of an encrypted connection: AES-128 in 8-bit cipher feedback mode, as in section 6.3
 of NIST SP 800-38A with s = 8. The block function is any function from 16 bytes to 16 bytes.
*/
module Cfb8 {
  import opened Common

  type Block = b: seq<U8> | |b| == 16 witness seq(16, i => 0)

  /** Exclusive or of the lowest `bits` bits. */
  function XorBits(a: nat, b: nat, bits: nat): nat {
    if bits == 0 then 0 else (a + b) % 2 + 2 * XorBits(a / 2, b / 2, bits - 1)
  }

  function PowerOfTwo(n: nat): nat {
    if n == 0 then 1 else 2 * PowerOfTwo(n - 1)
  }

  lemma XorBit(a: nat, b: nat, x: nat)
    ensures var c := (a + b) % 2 + 2 * x; c / 2 == x && (c + b) % 2 == a % 2
  {
  }

  lemma {:induction false} XorBitsTwice(a: nat, b: nat, bits: nat)
    requires a < PowerOfTwo(bits)
    ensures XorBits(a, b, bits) < PowerOfTwo(bits)
    ensures XorBits(XorBits(a, b, bits), b, bits) == a
    decreases bits
  {
    if bits != 0 {
      XorBitsTwice(a / 2, b / 2, bits - 1);
      XorBit(a, b, XorBits(a / 2, b / 2, bits - 1));
    }
  }

  function Xor(a: U8, mask: U8): U8 {
    XorFits(a, mask);
    XorBits(a, mask, 8)
  }

  lemma XorFits(a: U8, mask: U8)
    ensures XorBits(a, mask, 8) < 256
    ensures XorBits(XorBits(a, mask, 8), mask, 8) == a
  {
    assert PowerOfTwo(8) == 256;
    XorBitsTwice(a, mask, 8);
  }

  lemma HalvesDivide(x: nat, p: nat)
    requires p > 0
    ensures x / (2 * p) == x / 2 / p
  {
    var q, r := x / 2 / p, x / 2 % p;
    assert x / 2 == q * p + r;
    var low := 2 * r + x % 2;
    assert x == q * (2 * p) + low && 0 <= low < 2 * p;
    QuotientUnique(x, 2 * p, q, low);
  }

  lemma PowerPositive(n: nat)
    ensures PowerOfTwo(n) > 0
  {
  }

  predicate Bit(x: nat, i: nat) {
    PowerPositive(i);
    x / PowerOfTwo(i) % 2 == 1
  }

  lemma BitOfHalf(x: nat, i: nat)
    requires i > 0
    ensures Bit(x, i) <==> Bit(x / 2, i - 1)
  {
    PowerPositive(i - 1);
    HalvesDivide(x, PowerOfTwo(i - 1));
  }

  lemma LowestBit(x: nat)
    ensures Bit(x, 0) <==> x % 2 == 1
  {
    assert x / 1 == x;
  }

  lemma XorHalves(a: nat, b: nat, bits: nat)
    requires bits > 0
    ensures XorBits(a, b, bits) / 2 == XorBits(a / 2, b / 2, bits - 1)
    ensures XorBits(a, b, bits) % 2 == 1 <==> a % 2 != b % 2
  {
  }

  lemma {:induction false} XorBitsAt(a: nat, b: nat, bits: nat, i: nat)
    requires i < bits
    ensures Bit(XorBits(a, b, bits), i) <==> Bit(a, i) != Bit(b, i)
    decreases i
  {
    hide XorBits, Bit;
    XorHalves(a, b, bits);
    if i == 0 {
      LowestBit(XorBits(a, b, bits));
      LowestBit(a);
      LowestBit(b);
    } else {
      XorBitsAt(a / 2, b / 2, bits - 1, i - 1);
      BitOfHalf(XorBits(a, b, bits), i);
      BitOfHalf(a, i);
      BitOfHalf(b, i);
    }
  }

  /** Bit by bit the result is set exactly where the two bytes differ. */
  lemma XorBitwise(a: U8, b: U8, i: nat)
    requires i < 8
    ensures Bit(Xor(a, b), i) <==> Bit(a, i) != Bit(b, i)
  {
    XorBitsAt(a, b, 8, i);
  }

  lemma {:induction false} ZeroXorBits(b: nat, bits: nat)
    requires b < PowerOfTwo(bits)
    ensures XorBits(0, b, bits) == b
    decreases bits
  {
    if bits > 0 {
      ZeroXorBits(b / 2, bits - 1);
    }
  }

  lemma ZeroXor(b: U8)
    ensures Xor(0, b) == b
  {
    assert PowerOfTwo(8) == 256;
    ZeroXorBits(b, 8);
  }

  lemma XorTwice(a: U8, mask: U8)
    ensures Xor(Xor(a, mask), mask) == a
  {
    XorFits(a, mask);
  }

  type BlockCipher = Block -> Block

  /** The feedback register after `cipher` has been shifted in, one byte at a time. */
  function Register(iv: Block, cipher: seq<U8>): Block {
    (iv + cipher)[|cipher|..]
  }

  /**
   The relation the standard defines between plain text and cipher text: each cipher byte is the plain
   byte masked by the first byte of the enciphered register, which holds the 16 cipher bytes before it.
  */
  ghost predicate IsCfb8(aes: BlockCipher, iv: Block, plain: seq<U8>, cipher: seq<U8>) {
    && |plain| == |cipher|
    && forall i :: 0 <= i < |plain| ==> cipher[i] == Xor(plain[i], aes(Register(iv, cipher[..i]))[0])
  }

  /** A text of zeros lays the key stream bare: each cipher byte is the masking byte itself. */
  lemma ZeroTextIsKeyStream(aes: BlockCipher, iv: Block, plain: seq<U8>, cipher: seq<U8>, i: nat)
    requires IsCfb8(aes, iv, plain, cipher) && i < |plain| && plain[i] == 0
    ensures cipher[i] == aes(Register(iv, cipher[..i]))[0]
  {
    ZeroXor(aes(Register(iv, cipher[..i]))[0]);
  }

  /** One plain text has one cipher text. */
  lemma {:induction false} CipherUnique(aes: BlockCipher, iv: Block, plain: seq<U8>, c: seq<U8>, d: seq<U8>)
    requires IsCfb8(aes, iv, plain, c) && IsCfb8(aes, iv, plain, d)
    ensures c == d
  {
    if plain != [] {
      var n := |plain| - 1;
      PrefixIsCfb8(aes, iv, plain, c, n);
      PrefixIsCfb8(aes, iv, plain, d, n);
      CipherUnique(aes, iv, plain[..n], c[..n], d[..n]);
      assert c == c[..n] + [c[n]] && d == d[..n] + [d[n]];
    }
  }

  lemma PrefixIsCfb8(aes: BlockCipher, iv: Block, plain: seq<U8>, cipher: seq<U8>, n: nat)
    requires IsCfb8(aes, iv, plain, cipher) && n <= |plain|
    ensures IsCfb8(aes, iv, plain[..n], cipher[..n])
  {
    forall i | 0 <= i < n
      ensures cipher[..n][i] == Xor(plain[..n][i], aes(Register(iv, cipher[..n][..i]))[0])
    {
      assert cipher[..n][..i] == cipher[..i];
    }
  }

  /** One cipher text has one plain text: deciphering inverts enciphering. */
  lemma PlainUnique(aes: BlockCipher, iv: Block, p: seq<U8>, q: seq<U8>, cipher: seq<U8>)
    requires IsCfb8(aes, iv, p, cipher) && IsCfb8(aes, iv, q, cipher)
    ensures p == q
  {
    forall i | 0 <= i < |p|
      ensures p[i] == q[i]
    {
      var mask := aes(Register(iv, cipher[..i]))[0];
      XorTwice(p[i], mask);
      XorTwice(q[i], mask);
    }
  }

  /** Shifting in two strings is shifting in their concatenation. */
  lemma RegisterAppends(iv: Block, c: seq<U8>, d: seq<U8>)
    ensures Register(Register(iv, c), d) == Register(iv, c + d)
  {
    assert iv + (c + d) == (iv + c) + d;
  }

  /** Ciphering a text in two pieces, carrying the register over, is ciphering it whole. */
  lemma PiecesJoin(aes: BlockCipher, iv: Block, p: seq<U8>, c: seq<U8>, q: seq<U8>, d: seq<U8>)
    requires IsCfb8(aes, iv, p, c) && IsCfb8(aes, Register(iv, c), q, d)
    ensures IsCfb8(aes, iv, p + q, c + d)
  {
    forall i | 0 <= i < |p + q|
      ensures (c + d)[i] == Xor((p + q)[i], aes(Register(iv, (c + d)[..i]))[0])
    {
      if i < |p| {
        assert (c + d)[..i] == c[..i];
      } else {
        assert (c + d)[..i] == c + d[..i - |p|];
        RegisterAppends(iv, c, d[..i - |p|]);
      }
    }
  }

  /** Enciphering as a function. */
  function Encipher(aes: BlockCipher, iv: Block, plain: seq<U8>): (cipher: seq<U8>)
    ensures |cipher| == |plain|
  {
    if plain == [] then []
    else
      var c := Encipher(aes, iv, plain[..|plain| - 1]);
      c + [Xor(plain[|plain| - 1], aes(Register(iv, c))[0])]
  }

  /** Deciphering as a function. */
  function Decipher(aes: BlockCipher, iv: Block, cipher: seq<U8>): (plain: seq<U8>)
    ensures |plain| == |cipher|
  {
    if cipher == [] then []
    else
      var c := cipher[..|cipher| - 1];
      Decipher(aes, iv, c) + [Xor(cipher[|cipher| - 1], aes(Register(iv, c))[0])]
  }

  lemma {:induction false} EncipherIsCfb8(aes: BlockCipher, iv: Block, plain: seq<U8>)
    ensures IsCfb8(aes, iv, plain, Encipher(aes, iv, plain))
    decreases |plain|
  {
    if plain != [] {
      var p, last := plain[..|plain| - 1], plain[|plain| - 1];
      EncipherIsCfb8(aes, iv, p);
      StepCfb8(aes, iv, p, Encipher(aes, iv, p), last);
      assert plain == p + [last];
    }
  }

  lemma {:induction false} DecipherIsCfb8(aes: BlockCipher, iv: Block, cipher: seq<U8>)
    ensures IsCfb8(aes, iv, Decipher(aes, iv, cipher), cipher)
    decreases |cipher|
  {
    if cipher != [] {
      var c, last := cipher[..|cipher| - 1], cipher[|cipher| - 1];
      var mask := aes(Register(iv, c))[0];
      DecipherIsCfb8(aes, iv, c);
      StepCfb8(aes, iv, Decipher(aes, iv, c), c, Xor(last, mask));
      XorTwice(last, mask);
      assert cipher == c + [last];
    }
  }

  lemma EncipherMeets(aes: BlockCipher, iv: Block, plain: seq<U8>, cipher: seq<U8>)
    requires IsCfb8(aes, iv, plain, cipher)
    ensures cipher == Encipher(aes, iv, plain)
  {
    EncipherIsCfb8(aes, iv, plain);
    CipherUnique(aes, iv, plain, cipher, Encipher(aes, iv, plain));
  }

  lemma DecipherMeets(aes: BlockCipher, iv: Block, plain: seq<U8>, cipher: seq<U8>)
    requires IsCfb8(aes, iv, plain, cipher)
    ensures plain == Decipher(aes, iv, cipher)
  {
    DecipherIsCfb8(aes, iv, cipher);
    PlainUnique(aes, iv, plain, Decipher(aes, iv, cipher), cipher);
  }

  /** Where a text is cut does not matter: not to the cipher text, and not to the final register. */
  lemma EncipherJoins(aes: BlockCipher, iv: Block, p: seq<U8>, q: seq<U8>)
    ensures
      var c := Encipher(aes, iv, p);
      var d := Encipher(aes, Register(iv, c), q);
      Encipher(aes, iv, p + q) == c + d && Register(Register(iv, c), d) == Register(iv, Encipher(aes, iv, p + q))
  {
    var c := Encipher(aes, iv, p);
    var d := Encipher(aes, Register(iv, c), q);
    EncipherIsCfb8(aes, iv, p);
    EncipherIsCfb8(aes, Register(iv, c), q);
    RegisterAppends(iv, c, d);
    PiecesJoin(aes, iv, p, c, q, d);
    EncipherMeets(aes, iv, p + q, c + d);
  }

  lemma DecipherInverts(aes: BlockCipher, iv: Block, plain: seq<U8>)
    ensures Decipher(aes, iv, Encipher(aes, iv, plain)) == plain
  {
    var cipher := Encipher(aes, iv, plain);
    EncipherIsCfb8(aes, iv, plain);
    DecipherMeets(aes, iv, plain, cipher);
  }

  /** The shared secret is both the AES key and the initial register. */
  class AesCfb8 {
    const aes: BlockCipher
    var state: Block

    constructor (aes: BlockCipher, key: Block)
      ensures this.aes == aes && state == key
    {
      this.aes := aes;
      state := key;
    }

    method Encrypt(data: array<U8>)
      modifies this`state, data
      ensures IsCfb8(aes, old(state), old(data[..]), data[..])
      ensures state == Register(old(state), data[..])
    {
      var buf := state;
      assert Register(buf, []) == buf;
      for i := 0 to data.Length
        invariant buf == Register(state, data[..i])
        invariant state == old(state)
        invariant IsCfb8(aes, state, old(data[..i]), data[..i])
        invariant forall j :: i <= j < data.Length ==> data[j] == old(data[j])
      {
        ghost var done := data[..i];
        var keystream := aes(buf)[0];
        data[i] := Xor(data[i], keystream);
        buf := buf[1..] + [data[i]];
        StepRegister(state, done, data[i]);
        StepCfb8(aes, state, old(data[..i]), done, old(data[i]));
        assert data[..i + 1] == done + [data[i]];
        assert old(data[..i + 1]) == old(data[..i]) + [old(data[i])];
      }
      assert data[..data.Length] == data[..];
      assert old(data[..data.Length]) == old(data[..]);
      state := buf;
    }

    method Decrypt(data: array<U8>)
      modifies this`state, data
      ensures IsCfb8(aes, old(state), data[..], old(data[..]))
      ensures state == Register(old(state), old(data[..]))
    {
      var buf := state;
      assert Register(buf, []) == buf;
      for i := 0 to data.Length
        invariant buf == Register(state, old(data[..i]))
        invariant state == old(state)
        invariant IsCfb8(aes, state, data[..i], old(data[..i]))
        invariant forall j :: i <= j < data.Length ==> data[j] == old(data[j])
      {
        ghost var done := data[..i];
        var keystream := aes(buf)[0];
        var ciphertext := data[i];
        data[i] := Xor(data[i], keystream);
        buf := buf[1..] + [ciphertext];
        StepRegister(state, old(data[..i]), ciphertext);
        XorTwice(ciphertext, keystream);
        StepCfb8(aes, state, done, old(data[..i]), data[i]);
        assert data[..i + 1] == done + [data[i]];
        assert old(data[..i + 1]) == old(data[..i]) + [ciphertext];
      }
      assert data[..data.Length] == data[..];
      assert old(data[..data.Length]) == old(data[..]);
      state := buf;
    }
  }

  lemma StepRegister(iv: Block, cipher: seq<U8>, b: U8)
    ensures Register(iv, cipher)[1..] + [b] == Register(iv, cipher + [b])
  {
    assert iv + (cipher + [b]) == (iv + cipher) + [b];
  }

  lemma StepCfb8(aes: BlockCipher, iv: Block, plain: seq<U8>, cipher: seq<U8>, b: U8)
    requires IsCfb8(aes, iv, plain, cipher)
    ensures IsCfb8(aes, iv, plain + [b], cipher + [Xor(b, aes(Register(iv, cipher))[0])])
  {
    var c := Xor(b, aes(Register(iv, cipher))[0]);
    forall i | 0 <= i < |plain| + 1
      ensures (cipher + [c])[i] == Xor((plain + [b])[i], aes(Register(iv, (cipher + [c])[..i]))[0])
    {
      assert (cipher + [c])[..i] == cipher[..i];
      assert cipher[..|cipher|] == cipher;
    }
  }
}
