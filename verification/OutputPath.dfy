// Finding a free name for the recovered file next to names that are taken.
module OutputPath {
  import opened Base

  const MAX_INDEX := 0xFFFF_FFFF_FFFF_FFFF

  /** A path: its directory and its last component, empty or ".." when it has no file name. */
  datatype Path = Path(parent: string, name: string)

  // ---------------------------------------------------------------- names

  /** The text before and after the last dot. */
  function SplitLastDot(s: string): Option<(string, string)> {
    if s == "" then None
    else if s[|s| - 1] == '.' then Some((s[..|s| - 1], ""))
    else
      match SplitLastDot(s[..|s| - 1])
      case None => None
      case Some((before, after)) => Some((before, after + [s[|s| - 1]]))
  }

  /** A name's stem and extension; a leading dot does not start an extension. */
  function StemAndExtension(name: string): (string, Option<string>) {
    match SplitLastDot(name)
    case None => (name, None)
    case Some((before, after)) => if before == "" then (name, None) else (before, Some(after))
  }

  predicate IsDigit(c: char) { '0' <= c <= '9' }

  function DigitValue(c: char): nat
    requires IsDigit(c)
  {
    c as int - '0' as int
  }

  function DigitChar(d: nat): (c: char)
    requires d < 10
    ensures IsDigit(c) && DigitValue(c) == d
  {
    ['0', '1', '2', '3', '4', '5', '6', '7', '8', '9'][d]
  }

  predicate AllDigits(s: string) {
    forall i :: 0 <= i < |s| ==> IsDigit(s[i])
  }

  function Decimal(n: nat): (s: string)
    ensures |s| > 0
  {
    (if n < 10 then "" else Decimal(n / 10)) + [DigitChar(n % 10)]
  }

  function DecimalValue(s: string): nat
    requires AllDigits(s)
  {
    if s == "" then 0 else 10 * DecimalValue(s[..|s| - 1]) + DigitValue(s[|s| - 1])
  }

  /** The stem without its counter and the first counter to try. */
  function ParseSuffixIndex(stem: string): (r: (string, nat))
    ensures r.1 <= MAX_INDEX
  {
    match SplitLastDot(stem)
    case None => (stem, 1)
    case Some((prefix, suffix)) =>
      if prefix == "" || suffix == "" || !AllDigits(suffix) then (stem, 1)
      else if DecimalValue(suffix) > MAX_INDEX then (stem, 1)
      else if DecimalValue(suffix) == MAX_INDEX then (prefix, MAX_INDEX)
      else (prefix, DecimalValue(suffix) + 1)
  }

  lemma {:induction false} DecimalRoundTrip(n: nat)
    ensures AllDigits(Decimal(n)) && DecimalValue(Decimal(n)) == n
  {
    var s := Decimal(n);
    if n < 10 {
      assert s[..|s| - 1] == "";
    } else {
      DecimalRoundTrip(n / 10);
      assert s[..|s| - 1] == Decimal(n / 10);
    }
  }

  lemma {:induction false} SplitAtDot(before: string, after: string)
    requires forall i :: 0 <= i < |after| ==> after[i] != '.'
    ensures SplitLastDot(before + "." + after) == Some((before, after))
  {
    var s := before + "." + after;
    if after == "" {
      assert s[..|s| - 1] == before;
    } else {
      var shorter := after[..|after| - 1];
      assert s[..|s| - 1] == before + "." + shorter;
      SplitAtDot(before, shorter);
      assert shorter + [s[|s| - 1]] == after;
    }
  }

  /** A stem printed with a counter parses back to the stem and the next counter, the last one to itself. */
  lemma PrintedCounterParses(base: string, index: nat)
    requires base != "" && index <= MAX_INDEX
    ensures ParseSuffixIndex(base + "." + Decimal(index)) == (base, Min(index + 1, MAX_INDEX))
  {
    DecimalRoundTrip(index);
    SplitAtDot(base, Decimal(index));
  }

  /** Where the search for a free name starts: base, first counter and extension. */
  function SearchStart(name: string): (r: (string, nat, Option<string>))
    ensures r.1 <= MAX_INDEX
  {
    var (stem, extension) := StemAndExtension(name);
    var (base, start) := ParseSuffixIndex(stem);
    (base, start, extension)
  }

  predicate NoDot(s: string) {
    forall i :: 0 <= i < |s| ==> s[i] != '.'
  }

  /** The split is at the last dot, and there is none exactly when the text has no dot. */
  lemma {:induction false} SplitIsLast(s: string)
    ensures SplitLastDot(s).None? <==> NoDot(s)
    ensures SplitLastDot(s).Some? ==>
      var (before, after) := SplitLastDot(s).value;
      NoDot(after) && s == before + "." + after
  {
    if s != "" && s[|s| - 1] != '.' {
      SplitIsLast(s[..|s| - 1]);
      assert s == s[..|s| - 1] + [s[|s| - 1]];
    }
  }

  /**
   * Exactly when a name has a counter: its stem is a nonempty base, a dot, and digits that fit u64; counting
   * then goes on behind their value, and otherwise starts with 1 behind the whole stem.
   */
  lemma CounterExactly(stem: string, base: string, digits: string)
    ensures stem == base + "." + digits && base != "" && digits != "" && AllDigits(digits) && DecimalValue(digits) <= 0xFFFF_FFFF_FFFF_FFFF ==>
      ParseSuffixIndex(stem) == (base, Min(DecimalValue(digits) + 1, 0xFFFF_FFFF_FFFF_FFFF))
    ensures (forall b, d :: !(stem == b + "." + d && b != "" && d != "" && AllDigits(d) && DecimalValue(d) <= 0xFFFF_FFFF_FFFF_FFFF)) ==>
      ParseSuffixIndex(stem) == (stem, 1)
  {
    SplitIsLast(stem);
    if stem == base + "." + digits && AllDigits(digits) {
      SplitAtDot(base, digits);
    }
    if SplitLastDot(stem).Some? {
      var (b, d) := SplitLastDot(stem).value;
      assert stem == b + "." + d;
    }
  }

  /** Exactly what the extension of a name is: what follows its last dot, unless that dot comes first. */
  lemma ExtensionExactly(name: string)
    ensures var (stem, extension) := StemAndExtension(name);
      match extension
      case Some(ext) => name == stem + "." + ext && stem != "" && NoDot(ext)
      case None => stem == name && (NoDot(name) || (name[0] == '.' && NoDot(name[1..])))
  {
    SplitIsLast(name);
  }

  /** Counters are printed in decimal digits without leading zeros. */
  lemma {:induction false} DecimalIsShort(n: nat)
    ensures n > 0 ==> Decimal(n)[0] != '0'
    ensures n < 10 ==> |Decimal(n)| == 1
  {
    if n >= 10 {
      DecimalIsShort(n / 10);
    }
  }

  /** A name without extension has no counter either, and so its base is the name. */
  lemma StartWithoutExtension(name: string)
    requires StemAndExtension(name).1.None?
    ensures SearchStart(name) == (name, 1, None) && ParseSuffixIndex(name) == (name, 1)
  {
  }

  /**
   * A search from a name that a search has printed goes on with the next counter, for the same base
   * and extension, exactly when there is an extension. Without one the counter is taken for the
   * extension, and counting begins anew in front of it.
   */
  lemma PrintedNameParses(path: Path, name: string, index: nat)
    requires name != "" && index <= MAX_INDEX
    ensures var (base, _, extension) := SearchStart(name);
      var printed := Candidate(path, base, extension, index).name;
      && (SearchStart(printed) == (base, Min(index + 1, MAX_INDEX), extension) <==> extension.Some?)
      && (extension.None? ==> SearchStart(printed) == (base, 1, Some(Decimal(index))))
  {
    var (base, start, extension) := SearchStart(name);
    SplitIsLast(name);
    if extension.Some? {
      SplitAtDot(base + "." + Decimal(index), extension.value);
      PrintedCounterParses(base, index);
    } else {
      StartWithoutExtension(name);
      DecimalRoundTrip(index);
      SplitAtDot(base, Decimal(index));
    }
  }

  /** "foo.1" is taken: with an extension the next name would have counter 2, here it is "foo.1.1". */
  lemma CounterWithoutExtension(parent: string)
    ensures var wanted := Path(parent, "foo.1");
      Candidate(wanted, "foo", None, 1) == wanted && ResolveAvailable({wanted}, wanted) == Success(Path(parent, "foo.1.1"))
  {
    var wanted := Path(parent, "foo.1");
    DecimalOfOne();
    SplitAtDot("foo", "1");
    assert "foo" + "." + "1" == wanted.name;
    SplitIsLast("foo");
    StartWithoutExtension("foo");
    assert StemAndExtension(wanted.name) == ("foo", Some("1"));
    assert Candidate(wanted, "foo", Some("1"), 1).name == "foo.1.1";
  }

  lemma DecimalOfOne()
    ensures Decimal(1) == "1"
  {
  }

  // ---------------------------------------------------------------- the search

  function Candidate(path: Path, base: string, extension: Option<string>, index: nat): Path {
    var name := base + "." + Decimal(index);
    Path(path.parent, if extension.Some? then name + "." + extension.value else name)
  }

  /** What a name with a counter looks like. */
  lemma CandidateIs(path: Path, base: string, extension: Option<string>, index: nat)
    ensures var digits, c := Decimal(index), Candidate(path, base, extension, index);
      && c.parent == path.parent && AllDigits(digits) && DecimalValue(digits) == index
      && (digits[0] != '0' || digits == "0")
      && c.name == match extension case None => base + "." + digits case Some(e) => base + "." + digits + "." + e
  {
    DecimalRoundTrip(index);
    DecimalIsShort(index);
  }

  function SearchFrom(taken: set<Path>, path: Path, base: string, extension: Option<string>, index: nat): Result<Path>
    requires index <= MAX_INDEX
    decreases MAX_INDEX - index
  {
    var candidate := Candidate(path, base, extension, index);
    if candidate !in taken then Success(candidate)
    else if index == MAX_INDEX then Failure(InvalidArgument)
    else SearchFrom(taken, path, base, extension, index + 1)
  }

  function ResolveAvailable(taken: set<Path>, path: Path): Result<Path> {
    if path !in taken then Success(path)
    else if path.name == "" || path.name == ".." then Failure(InvalidArgument)
    else
      var (base, start, extension) := SearchStart(path.name);
      SearchFrom(taken, path, base, extension, start)
  }

  /** The search loop: counts up until a name is free. */
  method ResolveAvailableOutputPath(taken: set<Path>, path: Path) returns (r: Result<Path>)
    ensures r == ResolveAvailable(taken, path)
  {
    hide Candidate, SearchStart;
    if path !in taken {
      return Success(path);
    }
    if path.name == "" || path.name == ".." {
      return Failure(InvalidArgument);
    }
    var (base, start, extension) := SearchStart(path.name);
    var index := start;
    while true
      invariant start <= index <= MAX_INDEX
      invariant SearchFrom(taken, path, base, extension, index) == SearchFrom(taken, path, base, extension, start)
      decreases MAX_INDEX - index
    {
      var candidate := Candidate(path, base, extension, index);
      if candidate !in taken {
        return Success(candidate);
      }
      if index == MAX_INDEX {
        return Failure(InvalidArgument);
      }
      index := index + 1;
    }
  }

  /** The search returns the free name with the least counter, and fails only when every counter is taken. */
  lemma {:induction false} SearchIsLeast(taken: set<Path>, path: Path, base: string, extension: Option<string>, start: nat)
    returns (index: nat)
    requires start <= MAX_INDEX
    ensures start <= index <= MAX_INDEX
    ensures forall i :: start <= i < index ==> Candidate(path, base, extension, i) in taken
    ensures SearchFrom(taken, path, base, extension, start)
         == if Candidate(path, base, extension, index) !in taken then Success(Candidate(path, base, extension, index))
            else Failure(InvalidArgument)
    ensures Candidate(path, base, extension, index) in taken ==> index == MAX_INDEX
    decreases MAX_INDEX - start
  {
    hide Candidate;
    index := start;
    if Candidate(path, base, extension, start) in taken && start < MAX_INDEX {
      index := SearchIsLeast(taken, path, base, extension, start + 1);
    }
  }

  lemma CandidatesDiffer(path: Path, base: string, extension: Option<string>, i: nat, j: nat)
    requires Candidate(path, base, extension, i) == Candidate(path, base, extension, j)
    ensures i == j
  {
    hide Decimal;
    DecimalRoundTrip(i);
    DecimalRoundTrip(j);
    var m, n := base + "." + Decimal(i), base + "." + Decimal(j);
    if extension.Some? {
      SameFront(m, n, ".");
      SameFront(m + ".", n + ".", extension.value);
    }
    assert m[|base| + 1..] == Decimal(i) && n[|base| + 1..] == Decimal(j);
  }

  lemma SameFront(m: string, n: string, tail: string)
    ensures m + tail == n + tail ==> m == n
  {
    if m + tail == n + tail {
      assert |m| == |n|;
      assert m == (m + tail)[..|m|] && n == (n + tail)[..|n|];
    }
  }

  /** The candidates start .. start + count - 1 are that many distinct names. */
  lemma {:induction false} CandidateCount(path: Path, base: string, extension: Option<string>, start: nat, count: nat)
    returns (names: set<Path>)
    ensures |names| == count
    ensures forall p :: p in names <==> exists i :: start <= i < start + count && p == Candidate(path, base, extension, i)
  {
    hide Candidate;
    if count == 0 {
      names := {};
    } else {
      var last := Candidate(path, base, extension, start + count - 1);
      var before := CandidateCount(path, base, extension, start, count - 1);
      if last in before {
        var i :| start <= i < start + count - 1 && last == Candidate(path, base, extension, i);
        CandidatesDiffer(path, base, extension, i, start + count - 1);
      }
      names := before + {last};
    }
  }

  /** With fewer files than counters left, a free name is always found, and it is not taken. */
  lemma FreeNameFound(taken: set<Path>, path: Path)
    requires path.name != "" && path.name != ".."
    requires |taken| <= MAX_INDEX - SearchStart(path.name).1
    ensures ResolveAvailable(taken, path).Success? && ResolveAvailable(taken, path).value !in taken
  {
    hide Candidate, SearchStart, SearchFrom;
    var (base, start, extension) := SearchStart(path.name);
    var index := SearchIsLeast(taken, path, base, extension, start);
    if Candidate(path, base, extension, index) in taken {
      var names := CandidateCount(path, base, extension, start, MAX_INDEX - start + 1);
      SubsetSize(names, taken);
    }
  }

  /** The search fails in one way only. */
  lemma OnlyInvalidNames(taken: set<Path>, path: Path)
    ensures ResolveAvailable(taken, path).Failure? ==> ResolveAvailable(taken, path).error == InvalidArgument
    ensures path in taken && (path.name == "" || path.name == "..") ==> ResolveAvailable(taken, path) == Failure(InvalidArgument)
  {
    hide SearchStart, Candidate, SearchFrom;
    if path in taken && path.name != "" && path.name != ".." {
      var (base, start, extension) := SearchStart(path.name);
      var _ := SearchIsLeast(taken, path, base, extension, start);
    }
  }

  /** A resolved path is never taken. */
  lemma ResolvedIsFree(taken: set<Path>, path: Path)
    requires ResolveAvailable(taken, path).Success?
    ensures ResolveAvailable(taken, path).value !in taken
  {
    if path in taken {
      var (base, start, extension) := SearchStart(path.name);
      var _ := SearchIsLeast(taken, path, base, extension, start);
    }
  }

  /** The result stays in the wanted directory, and is the wanted name when that is free. */
  lemma ResolvedStaysBeside(taken: set<Path>, path: Path)
    requires ResolveAvailable(taken, path).Success?
    ensures ResolveAvailable(taken, path).value.parent == path.parent
    ensures ResolveAvailable(taken, path).value == path <==> path !in taken
  {
    ResolvedIsFree(taken, path);
    if path in taken {
      var (base, start, extension) := SearchStart(path.name);
      var _ := SearchIsLeast(taken, path, base, extension, start);
    }
  }
}
