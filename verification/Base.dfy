// Shared vocabulary: results and errors, bytes and fixed-width integers.
module Base {

  datatype Option<+T> = None | Some(value: T)

  /** What went wrong inside the cryptographic layer; only the first is retried by unlock. */
  datatype CryptoFault = PayloadAuthentication | KeyDerivation

  datatype Error =
    | Io
    | InvalidArgument
    | InvalidFormat
    | UnsupportedVersion(version: byte)
    | Crypto(fault: CryptoFault)
    | Verification
    | Cancelled

  datatype Result<+T> = Success(value: T) | Failure(error: Error) {
    predicate IsFailure() { Failure? }

    function PropagateFailure<U>(): Result<U>
      requires Failure?
    {
      Failure(error)
    }

    function Extract(): T
      requires Success?
    {
      value
    }
  }

  type byte = b: int | 0 <= b < 256
  type u16 = n: int | 0 <= n < 0x1_0000
  type u32 = n: int | 0 <= n < 0x1_0000_0000
  type u64 = n: int | 0 <= n < 0x1_0000_0000_0000_0000

  type Bytes = seq<byte>

  /** A 32-byte file key, mask or digest. */
  type Key = s: Bytes | |s| == 32 witness seq(32, _ => 0)

  function Zeros(n: nat): (z: Bytes)
    ensures |z| == n
  {
    seq(n, _ => 0)
  }

  /** ASCII text as bytes. */
  function Ascii(text: string): (bytes: Bytes)
    ensures |bytes| == |text|
  {
    seq(|text|, i requires 0 <= i < |text| => (text[i] as int) % 128)
  }

  function Concat(pieces: seq<Bytes>): Bytes {
    if pieces == [] then [] else pieces[0] + Concat(pieces[1..])
  }

  lemma AppendAssociates(a: Bytes, b: Bytes, c: Bytes)
    ensures (a + b) + c == a + (b + c)
  {
  }

  function Flag(b: bool): byte { if b then 1 else 0 }

  function Min(a: int, b: int): int { if a <= b then a else b }

  function CeilDiv(a: nat, b: nat): nat
    requires b > 0
  {
    (a + b - 1) / b
  }

  lemma {:induction false} SubsetSize<T>(s: set<T>, t: set<T>)
    requires s <= t
    ensures |s| <= |t|
  {
    if s != {} {
      var x :| x in s;
      SubsetSize(s - {x}, t - {x});
    }
  }

  // ---------------------------------------------------------------- exclusive or

  /** Bitwise exclusive or of the low `width` bits: each bit is the parity of the two bits. */
  function XorBits(a: nat, b: nat, width: nat): nat {
    if width == 0 then 0 else (a + b) % 2 + 2 * XorBits(a / 2, b / 2, width - 1)
  }

  function Power2(k: nat): (p: nat) {
    if k == 0 then 1 else 2 * Power2(k - 1)
  }

  lemma {:induction false} XorBitsCancels(a: nat, b: nat, width: nat)
    requires a < Power2(width)
    ensures XorBits(XorBits(a, b, width), b, width) == a
  {
    if width != 0 {
      XorBitsCancels(a / 2, b / 2, width - 1);
      var low, rest := (a + b) % 2, XorBits(a / 2, b / 2, width - 1);
      HalfAndParity(a, b, low, rest);
    }
  }

  /** The k-th bit of a number. */
  function Bit(n: nat, k: nat): bool {
    if k == 0 then n % 2 == 1 else Bit(n / 2, k - 1)
  }

  lemma {:induction false} XorBitsBit(a: nat, b: nat, width: nat, k: nat)
    requires k < width
    ensures Bit(XorBits(a, b, width), k) == (Bit(a, k) != Bit(b, k))
  {
    var low, rest := (a + b) % 2, XorBits(a / 2, b / 2, width - 1);
    HalfAndParity(a, b, low, rest);
    assert (low + 2 * rest) % 2 == low;
    if k > 0 {
      XorBitsBit(a / 2, b / 2, width - 1, k - 1);
    }
  }

  lemma HalfAndParity(a: nat, b: nat, low: nat, rest: nat)
    requires low == (a + b) % 2
    ensures (low + 2 * rest) / 2 == rest && (low + 2 * rest + b) % 2 == a % 2
  {
  }

  lemma {:induction false} XorBitsBound(a: nat, b: nat, width: nat)
    ensures XorBits(a, b, width) < Power2(width)
  {
    if width != 0 {
      XorBitsBound(a / 2, b / 2, width - 1);
    }
  }

  lemma Power2Byte()
    ensures Power2(8) == 256
  {
    assert Power2(4) == 16;
    assert Power2(6) == 64;
  }

  function XorByte(a: byte, b: byte): byte {
    Power2Byte();
    XorBitsBound(a, b, 8);
    XorBits(a, b, 8)
  }

  function Xor(left: Key, right: Key): Key {
    seq(32, i requires 0 <= i < 32 => XorByte(left[i], right[i]))
  }

  /** The byte loop that fills the output array. */
  method XorKeys(left: Key, right: Key) returns (out: Key)
    ensures out == Xor(left, right)
  {
    var buffer := new byte[32](_ => 0);
    for i := 0 to 32
      invariant forall k :: 0 <= k < i ==> buffer[k] == XorByte(left[k], right[k])
    {
      buffer[i] := XorByte(left[i], right[i]);
    }
    out := buffer[..];
  }

  /** Each bit of the result is set exactly when the two bits differ. */
  lemma XorIsBitwise(left: Key, right: Key, i: nat, k: nat)
    requires i < 32 && k < 8
    ensures Bit(Xor(left, right)[i], k) == (Bit(left[i], k) != Bit(right[i], k))
  {
    XorBitsBit(left[i], right[i], 8, k);
  }

  lemma {:induction false} SameBits(a: nat, b: nat, width: nat)
    requires a < Power2(width) && b < Power2(width) && forall k :: 0 <= k < width ==> Bit(a, k) == Bit(b, k)
    ensures a == b
  {
    if width != 0 {
      assert Bit(a, 0) == Bit(b, 0);
      forall k | 0 <= k < width - 1
        ensures Bit(a / 2, k) == Bit(b / 2, k)
      {
        assert Bit(a, k + 1) == Bit(b, k + 1);
      }
      SameBits(a / 2, b / 2, width - 1);
    }
  }

  /** Two masks that give the same result are the same. */
  lemma XorInjective(key: Key, m: Key, m': Key)
    requires Xor(key, m) == Xor(key, m')
    ensures m == m'
  {
    hide Xor, Bit;
    forall i | 0 <= i < 32
      ensures m[i] == m'[i]
    {
      Power2Byte();
      forall k | 0 <= k < 8
        ensures Bit(m[i], k) == Bit(m'[i], k)
      {
        XorIsBitwise(key, m, i, k);
        XorIsBitwise(key, m', i, k);
      }
      SameBits(m[i], m'[i], 8);
    }
  }

  /** Masking twice with the same mask gives the key back. */
  lemma XorCancels(key: Key, mask: Key)
    ensures Xor(Xor(key, mask), mask) == key
  {
    forall i | 0 <= i < 32
      ensures Xor(Xor(key, mask), mask)[i] == key[i]
    {
      Power2Byte();
      XorBitsCancels(key[i], mask[i], 8);
    }
  }

  // ---------------------------------------------------------------- little-endian integers

  function Power256(width: nat): (p: nat)
    ensures p > 0
  {
    if width == 0 then 1 else 256 * Power256(width - 1)
  }

  /** The low `width` bytes of n, least significant first; higher bytes are cut off. */
  function Le(n: nat, width: nat): (bytes: Bytes)
    ensures |bytes| == width
  {
    if width == 0 then [] else [n % 256] + Le(n / 256, width - 1)
  }

  function FromLe(bytes: Bytes): (n: nat)
  {
    if bytes == [] then 0 else bytes[0] + 256 * FromLe(bytes[1..])
  }

  lemma {:induction false} FromLeBound(bytes: Bytes)
    ensures FromLe(bytes) < Power256(|bytes|)
  {
    if bytes != [] {
      FromLeBound(bytes[1..]);
    }
  }

  lemma {:induction false} LeRoundTrip(n: nat, width: nat)
    requires n < Power256(width)
    ensures FromLe(Le(n, width)) == n
  {
    if width != 0 {
      LeRoundTrip(n / 256, width - 1);
      assert Le(n, width)[1..] == Le(n / 256, width - 1);
    }
  }

  lemma {:induction false} LeOfFromLe(bytes: Bytes)
    ensures Le(FromLe(bytes), |bytes|) == bytes
  {
    if bytes != [] {
      LeOfFromLe(bytes[1..]);
    }
  }

  lemma {:induction false} LeInjective(m: nat, n: nat, width: nat)
    requires m < Power256(width) && n < Power256(width) && Le(m, width) == Le(n, width)
    ensures m == n
  {
    LeRoundTrip(m, width);
    LeRoundTrip(n, width);
  }

  lemma Widths()
    ensures Power256(1) == 0x100 && Power256(2) == 0x1_0000 && Power256(4) == 0x1_0000_0000
    ensures Power256(8) == 0x1_0000_0000_0000_0000
  {
    assert Power256(1) == 256 * Power256(0);
    assert Power256(2) == 256 * Power256(1);
    assert Power256(3) == 256 * Power256(2);
    assert Power256(4) == 256 * Power256(3);
    assert Power256(5) == 256 * Power256(4);
    assert Power256(6) == 256 * Power256(5);
    assert Power256(7) == 256 * Power256(6);
  }

  /** Byte k has the weight 256^k. */
  lemma {:induction false} LeDigit(n: nat, width: nat, k: nat)
    requires k < width
    ensures Le(n, width)[k] == (n / Power256(k)) % 256
    decreases k
  {
    if k > 0 {
      LeDigit(n / 256, width - 1, k - 1);
      DivTwice(n, Power256(k - 1));
    }
  }

  lemma DivTwice(n: nat, p: nat)
    requires p > 0
    ensures n / (256 * p) == n / 256 / p
  {
    var q, r := n / 256 / p, n / 256 % p;
    assert n / 256 == p * q + r;
    assert (256 * p) * q == 256 * (p * q);
    QuotientUnique(n, 256 * p, q, 256 * r + n % 256);
  }

  lemma QuotientUnique(n: nat, d: nat, q: nat, r: nat)
    requires d > 0 && n == d * q + r && r < d
    ensures n / d == q
  {
    assert n == d * (n / d) + n % d;
    MulStep(d, q, n / d);
    MulStep(d, n / d, q);
  }

  lemma {:induction false} MulStep(d: nat, a: nat, b: nat)
    ensures a < b ==> d * a + d <= d * b
    decreases b
  {
    if a < b {
      assert d * b == d * (b - 1) + d;
      MulStep(d, a, b - 1);
    }
  }

  // ---------------------------------------------------------------- big-endian naturals

  function BeDigits(n: nat): (bytes: Bytes)
    ensures n > 0 ==> |bytes| > 0 && bytes[0] != 0
  {
    if n == 0 then [] else BeDigits(n / 256) + [n % 256]
  }

  /** The shortest big-endian form, one zero byte for zero. */
  function ToBe(n: nat): (bytes: Bytes)
    ensures |bytes| > 0
  {
    if n == 0 then [0] else BeDigits(n)
  }

  function FromBe(bytes: Bytes): nat {
    if bytes == [] then 0 else 256 * FromBe(bytes[..|bytes| - 1]) + bytes[|bytes| - 1]
  }

  /** The first byte has the highest weight. */
  lemma {:induction false} FromBeFirst(first: byte, rest: Bytes)
    ensures FromBe([first] + rest) == first * Power256(|rest|) + FromBe(rest)
    decreases |rest|
  {
    var bytes := [first] + rest;
    if rest == [] {
      assert bytes[..0] == [];
    } else {
      var init := rest[..|rest| - 1];
      FromBeFirst(first, init);
      assert bytes[..|bytes| - 1] == [first] + init;
      TimesPower(first, Power256(|init|));
    }
  }

  lemma TimesPower(a: nat, p: nat)
    ensures 256 * (a * p) == a * (256 * p)
  {
  }

  lemma {:induction false} BeDigitsRoundTrip(n: nat)
    ensures FromBe(BeDigits(n)) == n
  {
    if n != 0 {
      BeDigitsRoundTrip(n / 256);
      var d := BeDigits(n);
      assert d[..|d| - 1] == BeDigits(n / 256);
    }
  }

  lemma BeRoundTrip(n: nat)
    ensures FromBe(ToBe(n)) == n
  {
    if n == 0 {
      assert [0][..0] == [];
    } else {
      BeDigitsRoundTrip(n);
    }
  }

  lemma LastDigit(high: nat, last: byte)
    ensures (256 * high + last) / 256 == high && (256 * high + last) % 256 == last
  {
  }

  /** Bytes without a leading zero are the shortest form of their value. */
  lemma {:induction false} ShortestForm(bytes: Bytes)
    requires bytes != [] && bytes[0] != 0
    ensures FromBe(bytes) > 0 && BeDigits(FromBe(bytes)) == bytes
    decreases |bytes|
  {
    var init, last := bytes[..|bytes| - 1], bytes[|bytes| - 1];
    var high := FromBe(init);
    LastDigit(high, last);
    if init == [] {
      assert high == 0 && BeDigits(high) == [];
    } else {
      ShortestForm(init);
    }
    assert FromBe(bytes) == 256 * high + last;
    assert bytes == init + [last];
  }

  /** One zero byte, or bytes without a leading zero. */
  predicate IsShortest(bytes: Bytes) {
    bytes != [] && (bytes[0] != 0 || bytes == [0])
  }

  /** There is exactly one shortest form of every natural. */
  lemma ToBeExactly(n: nat, bytes: Bytes)
    ensures bytes == ToBe(n) <==> FromBe(bytes) == n && IsShortest(bytes)
  {
    BeRoundTrip(n);
    if bytes == [0] {
      assert bytes[..0] == [];
    } else if IsShortest(bytes) {
      ShortestForm(bytes);
    }
  }
}
