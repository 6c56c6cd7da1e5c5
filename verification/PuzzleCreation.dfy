// Creating a puzzle from a supply of random primes and random bytes: the searches and the trapdoor.
module PuzzleCreation {
  import opened Base
  import opened NumberTheory
  import opened TimelockPuzzle

  predicate Blum(p: nat) { p % 4 == 3 }

  /** The difference has fewer than `bits` bits. */
  predicate TooClose(p: nat, q: nat, bits: nat)
    requires bits > 0
  {
    (if p > q then p - q else q - p) < Pow(2, bits - 1)
  }

  /** How many binary digits a number has. */
  function BitLength(n: nat): nat {
    if n == 0 then 0 else 1 + BitLength(n / 2)
  }

  lemma {:induction false} BitsBelowPower(n: nat, k: nat)
    ensures BitLength(n) <= k <==> n < Pow(2, k)
  {
    if k > 0 {
      BitsBelowPower(n / 2, k - 1);
    }
  }

  lemma TooCloseExactly(p: nat, q: nat, bits: nat)
    requires bits > 0
    ensures TooClose(p, q, bits) <==> BitLength(if p > q then p - q else q - p) < bits
  {
    BitsBelowPower(if p > q then p - q else q - p, bits - 1);
  }

  predicate UsableBase(a: nat, n: nat) { a >= 2 && Gcd(a, n) == 1 }

  /** The i-th prime that the generator draws. */
  type Primes = nat -> nat

  /** The i-th buffer of random bytes. */
  type Buffers = nat -> Bytes

  /** The first Blum prime from `start` on; `good` is a draw at which the search ends at the latest. */
  method GenBlumPrime(primes: Primes, start: nat, ghost good: nat) returns (p: nat, next: nat)
    requires start <= good && Blum(primes(good))
    ensures start < next <= good + 1 && p == primes(next - 1) && p % 4 == 3
    ensures forall i :: start <= i < next - 1 ==> primes(i) % 4 != 3
  {
    next := start;
    while !Blum(primes(next))
      invariant start <= next <= good
      invariant forall i :: start <= i < next ==> !Blum(primes(i))
      decreases good - next
    {
      next := next + 1;
    }
    p, next := primes(next), next + 1;
  }

  ghost predicate FirstUsable(n: nat, buffers: Buffers, k: nat)
    requires n > 0
  {
    && UsableBase(FromBe(buffers(k)) % n, n)
    && forall i :: 0 <= i < k ==> !UsableBase(FromBe(buffers(i)) % n, n)
  }

  /** The first candidate modulo n that is at least 2 and coprime to n; `good` is a draw at which the search ends at the latest. */
  method RandomCoprimeBase(n: nat, buffers: Buffers, ghost good: nat) returns (a: nat)
    requires n > 0 && UsableBase(FromBe(buffers(good)) % n, n)
    ensures 2 <= a < n && Gcd(a, n) == 1
    ensures exists k: nat ::
      && FirstUsable(n, buffers, k) && k <= good && a == FromBe(buffers(k)) % n
      && forall i :: 0 <= i < k ==> FromBe(buffers(i)) % n < 2 || Gcd(FromBe(buffers(i)) % n, n) != 1
  {
    var k := 0;
    a := FromBe(buffers(0)) % n;
    while !UsableBase(a, n)
      invariant k <= good && a == FromBe(buffers(k)) % n
      invariant forall i :: 0 <= i < k ==> !UsableBase(FromBe(buffers(i)) % n, n)
      decreases good - k
    {
      k := k + 1;
      a := FromBe(buffers(k)) % n;
    }
    assert FirstUsable(n, buffers, k);
  }

  ghost predicate FirstBlum(primes: Primes, first: nat) {
    Blum(primes(first)) && forall i :: 0 <= i < first ==> !Blum(primes(i))
  }

  /** A later draw that ends the search for the second prime. */
  ghost predicate Partner(primes: Primes, bits: nat, first: nat, i: nat)
    requires bits > 0
  {
    first < i && Blum(primes(i)) && primes(i) != primes(first) && !TooClose(primes(first), primes(i), bits)
  }

  ghost predicate FirstPartner(primes: Primes, bits: nat, first: nat, second: nat)
    requires bits > 0
  {
    Partner(primes, bits, first, second) && forall i :: first < i < second ==> !Partner(primes, bits, first, i)
  }

  /** The three searches end, at these draws; nothing is said of any other draw. */
  ghost predicate SearchesEnd(primes: Primes, buffers: Buffers, bits: nat, first: nat, second: nat, base: nat)
    requires bits > 0
  {
    && FirstBlum(primes, first) && FirstPartner(primes, bits, first, second)
    && Prime(primes(first)) && Prime(primes(second))
    && FirstUsable(primes(first) * primes(second), buffers, base)
  }

  /** The first Blum prime and the first later one that is another and not too close to it. */
  method PickPrimes(primes: Primes, bits: nat, ghost first: nat, ghost second: nat) returns (p: nat, q: nat)
    requires bits > 0 && FirstBlum(primes, first) && FirstPartner(primes, bits, first, second)
    ensures p == primes(first) && q == primes(second)
    ensures p != q && !TooClose(p, q, bits) && p % 4 == 3 && q % 4 == 3
  {
    var next;
    p, next := GenBlumPrime(primes, 0, first);
    q, next := GenBlumPrime(primes, next, second);
    while p == q || TooClose(p, q, bits)
      invariant first < next - 1 <= second && q == primes(next - 1) && Blum(q)
      invariant forall i :: first < i < next - 1 ==> !Partner(primes, bits, first, i)
      decreases second - next
    {
      q, next := GenBlumPrime(primes, next, second);
    }
    assert Partner(primes, bits, first, next - 1);
  }

  /**
   * With draws on which the searches end, the puzzle that is created has the modulus, the base and the
   * count the solver needs, made of the first draws that will do, and the mask that solving it gives.
   */
  method CreatePuzzleAndDeriveMask(blake3: Bytes -> Key, iterations: u64, modulusBits: nat, primes: Primes, buffers: Buffers,
                                   ghost first: nat, ghost second: nat, ghost base: nat)
    returns (r: Result<CreatedPuzzle>)
    requires iterations > 0 && modulusBits >= MINIMUM_MODULUS_BITS && modulusBits % 2 == 0 ==>
      SearchesEnd(primes, buffers, modulusBits / 2 / 2, first, second, base)
    ensures r.Success? <==> iterations > 0 && modulusBits >= MINIMUM_MODULUS_BITS && modulusBits % 2 == 0
    ensures r.Failure? ==> r.error == InvalidArgument
    ensures r.Success? ==>
      && r.value.modulusN > 0 && 2 <= r.value.baseA < r.value.modulusN && r.value.iterations == iterations
      && (forall wrapped: Key, bits: u16 ::
            SolutionMask(blake3, PuzzleMaterial(r.value.modulusN, r.value.baseA, wrapped, iterations, bits))
              == r.value.solutionMask)
    ensures r.Success? ==> exists bytes ::
      && FromBe(bytes) == Pow(r.value.baseA, Pow(2, iterations)) % r.value.modulusN && IsShortest(bytes)
      && r.value.solutionMask == blake3(bytes)
    ensures r.Success? ==>
      var p, q := primes(first), primes(second);
      && p * q > 0 && PuzzleInputs(p, q, FromBe(buffers(base)) % (p * q)) && r.value.modulusN == p * q
      && r == CreatePuzzle(blake3, p, q, FromBe(buffers(base)) % (p * q), iterations, modulusBits)
  {
    if iterations == 0 || modulusBits < MINIMUM_MODULUS_BITS || modulusBits % 2 != 0 {
      return Failure(InvalidArgument);
    }
    var p, q := PickPrimes(primes, modulusBits / 2 / 2, first, second);
    assert p * q > 0 by { MulMonotone(p, 1, q); }
    var a := RandomCoprimeBase(p * q, buffers, base);
    r := CreatePuzzle(blake3, p, q, a, iterations, modulusBits);
    assert PuzzleInputs(p, q, a);
    TrapdoorAgrees(p, q, a, iterations);
    CreatedMaskIsHash(blake3, p, q, a, iterations, modulusBits);
  }
}
