// The repeated-squaring puzzle: the creator's trapdoor and the solver's sequential loop.
module TimelockPuzzle {
  import opened Base
  import opened NumberTheory

  const MINIMUM_MODULUS_BITS := 2048
  const CANCEL_INTERVAL := 1_024
  const PROGRESS_INTERVAL := 10_000

  datatype PuzzleMaterial = PuzzleMaterial(
    modulusN: nat, baseA: nat, wrappedKey: Key, iterations: u64, modulusBits: u16)

  datatype CreatedPuzzle = CreatedPuzzle(
    modulusN: nat, baseA: nat, iterations: u64, modulusBits: u16, solutionMask: Key)

  function ModPow(base: nat, exponent: nat, modulus: nat): nat
    requires modulus > 0
  {
    Pow(base, exponent) % modulus
  }

  function DeriveKeyMask(blake3: Bytes -> Key, result: nat): Key {
    blake3(ToBe(result))
  }

  /** What the prime and base searches hand over. */
  ghost predicate PuzzleInputs(p: nat, q: nat, a: nat) {
    Prime(p) && Prime(q) && p != q && 2 <= a < p * q && Gcd(a, p * q) == 1
  }

  /** Creating a puzzle takes the shortcut through the group order. */
  function CreatePuzzle(blake3: Bytes -> Key, p: nat, q: nat, a: nat, iterations: u64, modulusBits: nat)
    : Result<CreatedPuzzle>
    requires p >= 2 && q >= 2
  {
    if iterations == 0 then Failure(InvalidArgument)
    else if modulusBits < MINIMUM_MODULUS_BITS || modulusBits % 2 != 0 then Failure(InvalidArgument)
    else
      var n := p * q;
      LcmPositive(p - 1, q - 1);
      var exponent := ModPow(2, iterations, Lcm(p - 1, q - 1));
      assert n > 0 by { MulMonotone(p, 1, q); }
      var b := ModPow(a, exponent, n);
      Success(CreatedPuzzle(n, a, iterations, modulusBits % 0x1_0000, DeriveKeyMask(blake3, b)))
  }

  lemma LcmPositive(a: nat, b: nat)
    requires a > 0 && b > 0
    ensures Lcm(a, b) > 0
  {
    var _, _ := LcmMultiple(a, b);
  }

  function RepeatedSquareStep(value: nat, modulusN: nat): nat
    requires modulusN > 0
  {
    value * value % modulusN
  }

  /** The value after `steps` sequential squarings. */
  function Squared(a: nat, n: nat, steps: nat): nat
    requires n > 0
  {
    if steps == 0 then a else RepeatedSquareStep(Squared(a, n, steps - 1), n)
  }

  /** After t squarings the value is a^(2^t) modulo n. */
  lemma {:induction false} SquaredIsPower(a: nat, n: nat, t: nat)
    requires n > 0
    ensures Squared(a, n, t) % n == Pow(a, Pow(2, t)) % n
    ensures t > 0 ==> Squared(a, n, t) < n
  {
    if t == 0 {
      assert Pow(a, 1) == a * Pow(a, 0);
    } else {
      var s, e := Squared(a, n, t - 1), Pow(2, t - 1);
      SquaredIsPower(a, n, t - 1);
      MulCongruent(s, Pow(a, e), s, Pow(a, e), n);
      PowAdd(a, e, e);
      assert Pow(2, t) == e + e;
      ModTwice(s * s, n);
    }
  }

  /** Reducing the exponent modulo a multiple of p-1 does not change the power modulo p. */
  lemma ReduceExponent(a: nat, p: nat, lambda: nat, j: nat, e: nat)
    requires Prime(p) && a % p != 0 && lambda > 0 && lambda == (p - 1) * j
    ensures Pow(a, e) % p == Pow(a, e % lambda) % p
  {
    var k := j * (e / lambda);
    assert e == (p - 1) * k + e % lambda by {
      assert e == lambda * (e / lambda) + e % lambda;
      assert ((p - 1) * j) * (e / lambda) == (p - 1) * (j * (e / lambda));
    }
    PowModuloOrder(a, p, k, e % lambda);
  }

  /** The trapdoor a^(2^T mod lcm(p-1, q-1)) mod pq is the value T squarings reach. */
  lemma TrapdoorAgrees(p: nat, q: nat, a: nat, iterations: nat)
    requires PuzzleInputs(p, q, a) && iterations > 0
    ensures p * q > 0 && Lcm(p - 1, q - 1) > 0
    ensures ModPow(a, ModPow(2, iterations, Lcm(p - 1, q - 1)), p * q) == Squared(a, p * q, iterations)
  {
    var n := p * q;
    var j, k := LcmMultiple(p - 1, q - 1);
    var lambda, e := Lcm(p - 1, q - 1), Pow(2, iterations);
    CoprimeToFactor(a, p, q);
    MulCommutes(p, q);
    CoprimeToFactor(a, q, p);
    ReduceExponent(a, p, lambda, j, e);
    ReduceExponent(a, q, lambda, k, e);
    CombineCongruences(Pow(a, e), Pow(a, e % lambda), p, q);
    SquaredIsPower(a, n, iterations);
    DivModUnique(Squared(a, n, iterations), n, 0, Squared(a, n, iterations));
  }

  /** What a creator's mask is: the hash of the shortest big-endian form of a^(2^T) modulo pq. */
  lemma CreatedMaskIsHash(blake3: Bytes -> Key, p: nat, q: nat, a: nat, iterations: u64, modulusBits: nat)
    requires PuzzleInputs(p, q, a) && CreatePuzzle(blake3, p, q, a, iterations, modulusBits).Success?
    ensures p * q > 0
    ensures exists bytes ::
      && FromBe(bytes) == Pow(a, Pow(2, iterations)) % (p * q) && IsShortest(bytes)
      && CreatePuzzle(blake3, p, q, a, iterations, modulusBits).value.solutionMask == blake3(bytes)
  {
    TrapdoorAgrees(p, q, a, iterations);
    HashedSolution(blake3, a, p * q, iterations);
  }

  // ---------------------------------------------------------------- solving

  lemma HashedSolution(blake3: Bytes -> Key, a: nat, n: nat, iterations: nat)
    requires n > 0
    ensures exists bytes ::
      && FromBe(bytes) == (if iterations == 0 then a else Pow(a, Pow(2, iterations)) % n) && IsShortest(bytes)
      && DeriveKeyMask(blake3, Squared(a, n, iterations)) == blake3(bytes)
  {
    var value := Squared(a, n, iterations);
    SquaredIsPower(a, n, iterations);
    if iterations > 0 {
      DivModUnique(value, n, 0, value);
    }
    ToBeExactly(value, ToBe(value));
    assert DeriveKeyMask(blake3, value) == blake3(ToBe(value));
  }

  function SolutionMask(blake3: Bytes -> Key, material: PuzzleMaterial): Key
    requires material.modulusN > 0
  {
    DeriveKeyMask(blake3, Squared(material.baseA, material.modulusN, material.iterations))
  }

  predicate ProgressPoint(completed: nat, iterations: nat) {
    completed == iterations || completed % PROGRESS_INTERVAL == 0
  }

  /**
   * The answers of the cancellation token, by time: 0 is the check before the first squaring,
   * 2c the periodic check and 2c + 1 the check before reporting progress, after c squarings.
   */
  type Token = nat -> bool

  /** The solver gives up after exactly c squarings unless it gave up before. */
  predicate Stops(cancelled: Token, iterations: nat, c: nat) {
    if c == 0 then cancelled(0)
    else
      (c % CANCEL_INTERVAL == 0 && cancelled(2 * c)) ||
      (ProgressPoint(c, iterations) && cancelled(2 * c + 1))
  }

  /** No check up to and including the ones after c squarings finds the token set. */
  ghost predicate RunsPast(cancelled: Token, iterations: nat, c: int) {
    forall k :: 0 <= k <= c ==> !Stops(cancelled, iterations, k)
  }

  /** At which times the token is looked at: at the start, after every 1,024 squarings, and before every report. */
  lemma RunsPastExactly(cancelled: Token, iterations: nat)
    ensures RunsPast(cancelled, iterations, iterations) <==>
      && !cancelled(0)
      && forall c: nat :: 0 < c <= iterations ==>
           (c % 1_024 == 0 ==> !cancelled(2 * c)) &&
           (c == iterations || c % 10_000 == 0 ==> !cancelled(2 * c + 1))
  {
    if RunsPast(cancelled, iterations, iterations) {
      assert !Stops(cancelled, iterations, 0);
      forall c: nat | 0 < c <= iterations
        ensures c % 1_024 == 0 ==> !cancelled(2 * c)
        ensures c == iterations || c % 10_000 == 0 ==> !cancelled(2 * c + 1)
      {
        assert !Stops(cancelled, iterations, c);
      }
    }
  }

  /** The counts reported while the first c squarings are made. */
  function ProgressUpTo(c: nat, iterations: nat): seq<nat> {
    if c == 0 then []
    else ProgressUpTo(c - 1, iterations) + if ProgressPoint(c, iterations) then [c] else []
  }

  lemma {:induction false} ProgressPoints(c: nat, iterations: nat)
    ensures var events := ProgressUpTo(c, iterations);
      && (forall i, j :: 0 <= i < j < |events| ==> events[i] < events[j])
      && (forall k :: k in events <==> 0 < k <= c && ProgressPoint(k, iterations))
  {
    if c > 0 {
      ProgressPoints(c - 1, iterations);
      var before := ProgressUpTo(c - 1, iterations);
      assert forall i :: 0 <= i < |before| ==> before[i] in before;
    }
  }

  /** Progress counts are strictly increasing and are the multiples of 10,000 and the total, nothing else. */
  lemma ProgressCounts(c: nat, iterations: nat)
    ensures var events := ProgressUpTo(c, iterations);
      && (forall i, j :: 0 <= i < j < |events| ==> events[i] < events[j])
      && (forall k: nat :: k in events <==> 0 < k <= c && (k == iterations || k % 10_000 == 0))
  {
    ProgressPoints(c, iterations);
    forall k: nat
      ensures k in ProgressUpTo(c, iterations) <==> 0 < k <= c && (k == iterations || k % 10_000 == 0)
    {
      assert ProgressPoint(k, iterations) <==> k == iterations || k % 10_000 == 0;
    }
  }

  /**
   * Solves by `iterations` squarings, no more and no fewer, unless a check finds the token set.
   * `events` are the completed counts reported as progress, `squarings` the work done.
   */
  method SolvePuzzleMask(blake3: Bytes -> Key, material: PuzzleMaterial, cancelled: Token)
    returns (mask: Result<Key>, events: seq<nat>, squarings: nat)
    requires material.modulusN > 0
    ensures squarings <= material.iterations
    ensures RunsPast(cancelled, material.iterations, squarings - 1)
    ensures mask.Success? <==> RunsPast(cancelled, material.iterations, squarings)
    ensures mask.Failure? ==> mask.error == Cancelled
    ensures mask.Success? ==> squarings == material.iterations
    ensures mask.Success? ==> mask.value == SolutionMask(blake3, material)
    ensures mask.Success? ==>
      var solution := if material.iterations == 0 then material.baseA
                      else Pow(material.baseA, Pow(2, material.iterations)) % material.modulusN;
      exists bytes :: FromBe(bytes) == solution && IsShortest(bytes) && mask.value == blake3(bytes)
    ensures mask.Success? ==> events == ProgressUpTo(squarings, material.iterations)
    ensures mask.Failure? ==> events == ProgressUpTo(if squarings == 0 then 0 else squarings - 1, material.iterations)
  {
    events, squarings := [], 0;
    if cancelled(0) {
      assert Stops(cancelled, material.iterations, 0);
      return Failure(Cancelled), events, squarings;
    }
    var value := material.baseA;
    while squarings < material.iterations
      invariant squarings <= material.iterations
      invariant value == Squared(material.baseA, material.modulusN, squarings)
      invariant RunsPast(cancelled, material.iterations, squarings)
      invariant events == ProgressUpTo(squarings, material.iterations)
    {
      value := RepeatedSquareStep(value, material.modulusN);
      squarings := squarings + 1;
      if squarings % CANCEL_INTERVAL == 0 && cancelled(2 * squarings) {
        assert Stops(cancelled, material.iterations, squarings);
        return Failure(Cancelled), events, squarings;
      }
      if ProgressPoint(squarings, material.iterations) {
        if cancelled(2 * squarings + 1) {
          assert Stops(cancelled, material.iterations, squarings);
          return Failure(Cancelled), events, squarings;
        }
        events := events + [squarings];
      }
      assert !Stops(cancelled, material.iterations, squarings);
    }
    HashedSolution(blake3, material.baseA, material.modulusN, material.iterations);
    mask := Success(DeriveKeyMask(blake3, value));
  }

  /**
   * The mask depends on the solution: two puzzles whose masks agree have the same a^(2^T) modulo n, or
   * show a collision of the hash.
   */
  lemma SameMaskSameSolution(blake3: Bytes -> Key, m: PuzzleMaterial, m': PuzzleMaterial)
    requires m.modulusN > 0 && m'.modulusN > 0 && m.iterations > 0 && m'.iterations > 0
    requires SolutionMask(blake3, m) == SolutionMask(blake3, m')
    ensures
      || Pow(m.baseA, Pow(2, m.iterations)) % m.modulusN == Pow(m'.baseA, Pow(2, m'.iterations)) % m'.modulusN
      || exists x, y :: x != y && blake3(x) == blake3(y)
  {
    HashedSolution(blake3, m.baseA, m.modulusN, m.iterations);
    HashedSolution(blake3, m'.baseA, m'.modulusN, m'.iterations);
    hide Squared, FromBe, Pow, IsShortest;
  }

  /**
   * A token set at time s, that is after s / 2 squarings, stops the solver within 1,024 further
   * squarings; a solver that completes passed its final check before s.
   */
  lemma CancellationIsPrompt(cancelled: Token, iterations: nat, s: nat, squarings: nat)
    requires forall t: nat :: cancelled(t) <==> t >= s
    requires iterations > 0 && squarings <= iterations
    requires RunsPast(cancelled, iterations, squarings - 1)
    ensures Stops(cancelled, iterations, squarings) ==> s <= 2 * squarings + 1
    ensures Stops(cancelled, iterations, squarings) ==> squarings <= s / 2 + 1_024
    ensures squarings == iterations && !Stops(cancelled, iterations, squarings) ==> 2 * iterations + 1 < s
  {
    var m := (s / 2 / CANCEL_INTERVAL + 1) * CANCEL_INTERVAL;
    assert s / 2 < m <= s / 2 + CANCEL_INTERVAL;
    if m <= iterations {
      assert Stops(cancelled, iterations, m);
    } else if 2 * iterations + 1 >= s {
      assert Stops(cancelled, iterations, iterations);
    }
  }

  /** A mask solved from a puzzle is the mask it was created with. */
  lemma SolverMatchesCreator(blake3: Bytes -> Key, p: nat, q: nat, a: nat, iterations: u64, modulusBits: nat,
                             wrappedKey: Key)
    requires PuzzleInputs(p, q, a)
    requires CreatePuzzle(blake3, p, q, a, iterations, modulusBits).Success?
    ensures
      var puzzle := CreatePuzzle(blake3, p, q, a, iterations, modulusBits).value;
      puzzle.modulusN == p * q > 0 && puzzle.baseA == a && puzzle.iterations == iterations &&
      SolutionMask(blake3, PuzzleMaterial(p * q, a, wrappedKey, iterations, puzzle.modulusBits)) == puzzle.solutionMask
  {
    TrapdoorAgrees(p, q, a, iterations);
  }

  /** Unwrapping a key: solve, then unmask. */
  method UnwrapKey(blake3: Bytes -> Key, material: PuzzleMaterial, cancelled: Token)
    returns (key: Result<Key>, events: seq<nat>, squarings: nat)
    requires material.modulusN > 0
    ensures key.Success? ==> key.value == Xor(material.wrappedKey, SolutionMask(blake3, material))
    ensures key.Success? ==>
      var solution := if material.iterations == 0 then material.baseA
                      else Pow(material.baseA, Pow(2, material.iterations)) % material.modulusN;
      exists bytes :: FromBe(bytes) == solution && IsShortest(bytes) && key.value == Xor(material.wrappedKey, blake3(bytes))
    ensures key.Failure? ==> key.error == Cancelled
    ensures key.Success? <==> RunsPast(cancelled, material.iterations, material.iterations)
  {
    var mask;
    mask, events, squarings := SolvePuzzleMask(blake3, material, cancelled);
    if mask.Failure? {
      return Failure(mask.error), events, squarings;
    }
    var plain := XorKeys(material.wrappedKey, mask.value);
    key := Success(plain);
  }

  /** create_puzzle_and_wrap_key followed by unwrapping gives exactly the key that was wrapped. */
  lemma WrappedKeyIsRecovered(blake3: Bytes -> Key, p: nat, q: nat, a: nat, iterations: u64, modulusBits: nat, key: Key)
    requires PuzzleInputs(p, q, a)
    requires CreatePuzzle(blake3, p, q, a, iterations, modulusBits).Success?
    ensures
      var puzzle := CreatePuzzle(blake3, p, q, a, iterations, modulusBits).value;
      var material := PuzzleMaterial(puzzle.modulusN, puzzle.baseA, Xor(key, puzzle.solutionMask),
                                     puzzle.iterations, puzzle.modulusBits);
      material.modulusN > 0 && Xor(material.wrappedKey, SolutionMask(blake3, material)) == key
  {
    var puzzle := CreatePuzzle(blake3, p, q, a, iterations, modulusBits).value;
    SolverMatchesCreator(blake3, p, q, a, iterations, modulusBits, Xor(key, puzzle.solutionMask));
    XorCancels(key, puzzle.solutionMask);
  }
}
