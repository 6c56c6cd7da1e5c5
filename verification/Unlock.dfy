// The unlock flow: parse, find an output name, recover the key once or ask for a password up to three times,
// recover the payload, and only then let the result appear.
module Unlock {
  import opened Base
  import opened Streams
  import opened ProtectedStream
  import opened PasswordProtection
  import opened Utf8
  import opened SuperblockBody
  import opened Reader
  import opened Writer
  import opened Recovery
  import opened TimelockPuzzle
  import opened OutputPath

  const MAX_PASSWORD_ATTEMPTS := 3

  datatype UnlockRequest = UnlockRequest(input: Path, outDir: Option<string>, out: Option<Path>)

  datatype PromptContext = PromptContext(input: Path, attempt: nat, maxAttempts: nat, previousAttemptFailed: bool)

  /** What an unlock hands back: recovered text, or the file it has written. */
  datatype Response = RecoveredText(text: Bytes, recoveredBytes: nat) | RecoveredFile(path: Path, recoveredBytes: nat)

  /** Whoever types the passwords: answers by attempt, and remembers what it was asked. */
  class PasswordProvider {
    const answer: nat -> Result<Bytes>
    var asked: seq<PromptContext>

    constructor (answer: nat -> Result<Bytes>)
      ensures this.answer == answer && asked == []
    {
      this.answer, asked := answer, [];
    }

    method Ask(context: PromptContext) returns (r: Result<Bytes>)
      modifies this
      ensures r == answer(context.attempt) && asked == old(asked) + [context]
    {
      asked := asked + [context];
      r := answer(context.attempt);
    }
  }

  /** Runs the puzzle and counts how often it has been run. */
  class PuzzleSolver {
    const blake3: Bytes -> Key
    const cancelled: Token
    var runs: nat

    constructor (blake3: Bytes -> Key, cancelled: Token)
      ensures this.blake3 == blake3 && this.cancelled == cancelled && runs == 0
    {
      this.blake3, this.cancelled, runs := blake3, cancelled, 0;
    }

    method Solve(puzzle: PuzzleMaterial) returns (r: Result<Key>)
      requires puzzle.modulusN > 0
      modifies this
      ensures r == Solved(blake3, puzzle, cancelled) && runs == old(runs) + 1
    {
      runs := runs + 1;
      var mask, _, _ := SolvePuzzleMask(blake3, puzzle, cancelled);
      r := mask;
    }
  }

  ghost function Solved(blake3: Bytes -> Key, puzzle: PuzzleMaterial, cancelled: Token): Result<Key>
    requires puzzle.modulusN > 0
  {
    if RunsPast(cancelled, puzzle.iterations, puzzle.iterations) then Success(SolutionMask(blake3, puzzle))
    else Failure(Cancelled)
  }

  /** The files that exist, by path. */
  class FileSystem {
    var files: map<Path, Bytes>

    constructor (files: map<Path, Bytes>)
      ensures this.files == files
    {
      this.files := files;
    }

    /** A temporary file appears under its final name in one step. */
    method Persist(path: Path, bytes: Bytes)
      modifies this
      ensures files == old(files)[path := bytes]
    {
      files := files[path := bytes];
    }
  }

  function PuzzleOf(b: Body): PuzzleMaterial {
    PuzzleMaterial(b.material.modulusN, b.material.baseA, b.material.wrappedKey, b.fixed.iterations, b.fixed.modulusBits)
  }

  /**
   * What a run is given besides the request: the primitives, joining a directory and a stored name,
   * and the token's answers at the start, while decrypting and before persisting, by attempt.
   */
  datatype Run = Run(
    prims: Primitives, join: (string, Bytes) -> Path,
    startCancelled: bool, decryptCancelled: nat -> nat -> bool, persistCancelled: nat -> bool)

  // ---------------------------------------------------------------- one recovery

  datatype Delivery = Delivery(content: Bytes, recoveredBytes: nat)

  /** Recovers with a key; text must be text, and a file is refused when cancelled at the last moment. */
  function Deliver(run: Run, file: Bytes, a: Artifact, attempt: nat, key: Key): Result<Delivery> {
    var d := RecoverPayload(run.prims, file, a, key, run.decryptCancelled(attempt));
    var stats :- d.result;
    if a.superblock.originalFilename.None? then
      if !ValidUtf8(d.written) then Failure(InvalidFormat) else Success(Delivery(d.written, stats.plaintextBytes))
    else if run.persistCancelled(attempt) then Failure(Cancelled)
    else Success(Delivery(d.written, stats.plaintextBytes))
  }

  function ResponseFor(path: Option<Path>, d: Delivery): Response {
    if path.Some? then RecoveredFile(path.value, d.recoveredBytes) else RecoveredText(d.content, d.recoveredBytes)
  }

  function Delivered(files: map<Path, Bytes>, path: Option<Path>, d: Delivery): map<Path, Bytes> {
    if path.Some? then files[path.value := d.content] else files
  }

  /** Recovers into memory or a temporary file; the result file appears only after everything has succeeded. */
  method RecoverPayloadOnce(run: Run, fs: FileSystem, file: Bytes, a: Artifact, path: Option<Path>, attempt: nat, key: Key)
    returns (r: Result<Response>)
    requires path.Some? <==> a.superblock.originalFilename.Some?
    modifies fs
    ensures var d := Deliver(run, file, a, attempt, key);
      && (d.Failure? ==> r == Failure(d.error) && fs.files == old(fs.files))
      && (d.Success? ==> r == Success(ResponseFor(path, d.value)) && fs.files == Delivered(old(fs.files), path, d.value))
  {
    hide RecoverPayload;
    var temp := new ByteWriter();
    var stats :- RecoverPayloadToWriter(run.prims, file, a, key, temp, run.decryptCancelled(attempt));
    var content := temp.written;
    assert content == RecoverPayload(run.prims, file, a, key, run.decryptCancelled(attempt)).written;
    if path.None? {
      if !ValidUtf8(content) {
        return Failure(InvalidFormat);
      }
      return Success(RecoveredText(content, stats.plaintextBytes));
    }
    if run.persistCancelled(attempt) {
      return Failure(Cancelled);
    }
    fs.Persist(path.value, content);
    r := Success(RecoveredFile(path.value, stats.plaintextBytes));
  }

  // ---------------------------------------------------------------- the password attempts

  predicate IsAuthenticationError<T>(r: Result<T>) {
    r.Failure? && r.error == Crypto(PayloadAuthentication)
  }

  /** One attempt with a solved mask: the answer, the unwrapped key, the recovery. */
  function Attempt(run: Run, file: Bytes, a: Artifact, m: PasswordMetadata, mask: Key, answer: nat -> Result<Bytes>,
                   attempt: nat): Result<Delivery>
  {
    var passphrase :- answer(attempt);
    var key :- UnwrapWithPassword(run.prims.kdf, a.superblock.material.wrappedKey, mask, passphrase, m.params);
    Deliver(run, file, a, attempt, key)
  }

  function AttemptsFrom(run: Run, file: Bytes, a: Artifact, m: PasswordMetadata, mask: Key, answer: nat -> Result<Bytes>,
                        attempt: nat): Result<Delivery>
    decreases MAX_PASSWORD_ATTEMPTS - attempt
  {
    var r := Attempt(run, file, a, m, mask, answer, attempt);
    if IsAuthenticationError(r) && attempt < MAX_PASSWORD_ATTEMPTS then
      AttemptsFrom(run, file, a, m, mask, answer, attempt + 1)
    else r
  }

  /** What the provider is asked from this attempt on. */
  function PromptsFrom(run: Run, input: Path, file: Bytes, a: Artifact, m: PasswordMetadata, mask: Key,
                       answer: nat -> Result<Bytes>, attempt: nat): seq<PromptContext>
    decreases MAX_PASSWORD_ATTEMPTS - attempt
  {
    [PromptContext(input, attempt, MAX_PASSWORD_ATTEMPTS, attempt > 1)] +
    if IsAuthenticationError(Attempt(run, file, a, m, mask, answer, attempt)) && attempt < MAX_PASSWORD_ATTEMPTS then
      PromptsFrom(run, input, file, a, m, mask, answer, attempt + 1)
    else []
  }

  /**
   * Attempts are numbered 1, 2, 3 in order, there are never more than three, and each prompt but the
   * first says that the previous attempt failed.
   */
  lemma {:induction false} PromptDiscipline(run: Run, input: Path, file: Bytes, a: Artifact, m: PasswordMetadata, mask: Key,
                                           answer: nat -> Result<Bytes>, attempt: nat)
    requires 1 <= attempt <= 3
    ensures var prompts := PromptsFrom(run, input, file, a, m, mask, answer, attempt);
      && 1 <= |prompts| <= 4 - attempt
      && forall i :: 0 <= i < |prompts| ==> prompts[i] == PromptContext(input, attempt + i, 3, attempt + i > 1)
    decreases MAX_PASSWORD_ATTEMPTS - attempt
  {
    hide Attempt;
    if IsAuthenticationError(Attempt(run, file, a, m, mask, answer, attempt)) && attempt < MAX_PASSWORD_ATTEMPTS {
      PromptDiscipline(run, input, file, a, m, mask, answer, attempt + 1);
    }
  }

  /**
   * The attempts end with the first that does not fail authentication, or with the third: its result,
   * whether delivery or error, is the result, and nothing is asked after it.
   */
  lemma {:induction false} FirstDecisiveAttempt(run: Run, input: Path, file: Bytes, a: Artifact, m: PasswordMetadata, mask: Key,
                                               answer: nat -> Result<Bytes>, attempt: nat, last: nat)
    requires attempt <= last <= 3
    requires forall j :: attempt <= j < last ==> IsAuthenticationError(Attempt(run, file, a, m, mask, answer, j))
    requires last == 3 || !IsAuthenticationError(Attempt(run, file, a, m, mask, answer, last))
    ensures AttemptsFrom(run, file, a, m, mask, answer, attempt) == Attempt(run, file, a, m, mask, answer, last)
    ensures |PromptsFrom(run, input, file, a, m, mask, answer, attempt)| == last + 1 - attempt
    decreases last - attempt
  {
    hide Attempt;
    if attempt < last {
      FirstDecisiveAttempt(run, input, file, a, m, mask, answer, attempt + 1, last);
    }
  }

  /** Whether an attempt is reached depends on the answers before it; a cancelled prompt ends the attempts. */
  lemma {:induction false} AttemptReached(run: Run, input: Path, file: Bytes, a: Artifact, m: PasswordMetadata, mask: Key,
                                          given: nat -> Result<Bytes>, other: nat -> Result<Bytes>, attempt: nat, k: nat)
    requires attempt <= k && forall j :: attempt <= j < k ==> given(j) == other(j)
    requires |PromptsFrom(run, input, file, a, m, mask, given, attempt)| > k - attempt
    ensures |PromptsFrom(run, input, file, a, m, mask, other, attempt)| > k - attempt
    ensures other(k) == Failure(Cancelled) ==>
      && |PromptsFrom(run, input, file, a, m, mask, other, attempt)| == k + 1 - attempt
      && AttemptsFrom(run, file, a, m, mask, other, attempt) == Failure(Cancelled)
    decreases k - attempt
  {
    hide Deliver;
    if attempt < k {
      assert given(attempt) == other(attempt);
      AttemptReached(run, input, file, a, m, mask, given, other, attempt + 1, k);
    }
  }

  /** Solves the puzzle unless the mask is cached, asks for the password, unwraps the key. */
  method RecoverPasswordProtectedFileKey(run: Run, a: Artifact, m: PasswordMetadata, cached: Option<Key>,
                                         solver: PuzzleSolver, provider: PasswordProvider?, context: PromptContext)
    returns (key: Result<Key>, mask: Option<Key>)
    requires a.superblock.material.modulusN > 0
    modifies solver, provider
    ensures solver.runs == old(solver.runs) + if cached.None? then 1 else 0
    ensures var solved := if cached.Some? then Success(cached.value)
                          else Solved(solver.blake3, PuzzleOf(a.superblock), solver.cancelled);
      && (solved.Failure? ==> key == Failure(solved.error) && mask == None)
      && (solved.Success? ==> mask == Some(solved.value))
      && (solved.Success? && provider == null ==> key == Failure(InvalidArgument))
      && (solved.Failure? && provider != null ==> provider.asked == old(provider.asked))
      && (solved.Success? && provider != null ==>
            provider.asked == old(provider.asked) + [context] &&
            key == match provider.answer(context.attempt)
                   case Failure(e) => Failure(e)
                   case Success(passphrase) =>
                     UnwrapWithPassword(run.prims.kdf, a.superblock.material.wrappedKey, solved.value, passphrase, m.params))
  {
    mask := cached;
    if cached.None? {
      var solved := solver.Solve(PuzzleOf(a.superblock));
      if solved.Failure? {
        return Failure(solved.error), None;
      }
      mask := Some(solved.value);
    }
    if provider == null {
      return Failure(InvalidArgument), mask;
    }
    var passphrase := provider.Ask(context);
    if passphrase.Failure? {
      return Failure(passphrase.error), mask;
    }
    key := UnwrapWithPassword(run.prims.kdf, a.superblock.material.wrappedKey, mask.value, passphrase.value, m.params);
  }

  /** The outcome of a delivery as the caller sees it: a response and files, or an error and no change. */
  ghost predicate Reports(r: Result<Response>, after: map<Path, Bytes>, before: map<Path, Bytes>, path: Option<Path>,
                          d: Result<Delivery>)
  {
    && (d.Failure? ==> r == Failure(d.error) && after == before)
    && (d.Success? ==> r == Success(ResponseFor(path, d.value)) && after == Delivered(before, path, d.value))
  }

  /** One turn of the attempt loop. */
  method TryOnce(run: Run, fs: FileSystem, file: Bytes, a: Artifact, m: PasswordMetadata, path: Option<Path>,
                 cached: Option<Key>, solver: PuzzleSolver, provider: PasswordProvider?, context: PromptContext)
    returns (r: Result<Response>, mask: Option<Key>)
    requires a.superblock.material.modulusN > 0 && (path.Some? <==> a.superblock.originalFilename.Some?)
    modifies fs, solver, provider
    ensures solver.runs == old(solver.runs) + if cached.None? then 1 else 0
    ensures var solved := if cached.Some? then Success(cached.value)
                          else Solved(solver.blake3, PuzzleOf(a.superblock), solver.cancelled);
      && (solved.Failure? ==> r == Failure(solved.error) && mask == None && fs.files == old(fs.files))
      && (solved.Failure? && provider != null ==> provider.asked == old(provider.asked))
      && (solved.Success? ==> mask == Some(solved.value))
      && (solved.Success? && provider == null ==> r == Failure(InvalidArgument) && fs.files == old(fs.files))
      && (solved.Success? && provider != null ==>
            provider.asked == old(provider.asked) + [context] &&
            Reports(r, fs.files, old(fs.files), path,
                    Attempt(run, file, a, m, solved.value, provider.answer, context.attempt)))
  {
    hide Deliver, UnwrapWithPassword, Solved;
    var key;
    key, mask := RecoverPasswordProtectedFileKey(run, a, m, cached, solver, provider, context);
    if key.Failure? {
      return Failure(key.error), mask;
    }
    r := RecoverPayloadOnce(run, fs, file, a, path, context.attempt, key.value);
  }

  /**
   * The attempt loop with its cached mask: the puzzle is run once, and the result, the prompts and the
   * files are those of the attempts.
   */
  method UnlockProtected(run: Run, fs: FileSystem, input: Path, file: Bytes, a: Artifact, m: PasswordMetadata,
                         path: Option<Path>, solver: PuzzleSolver, provider: PasswordProvider?)
    returns (r: Result<Response>)
    requires a.superblock.material.modulusN > 0 && (path.Some? <==> a.superblock.originalFilename.Some?)
    modifies fs, solver, provider
    ensures solver.runs == old(solver.runs) + 1
    ensures var solved := Solved(solver.blake3, PuzzleOf(a.superblock), solver.cancelled);
      && (solved.Failure? ==> r == Failure(solved.error) && fs.files == old(fs.files))
      && (solved.Failure? && provider != null ==> provider.asked == old(provider.asked))
      && (solved.Success? && provider == null ==> r == Failure(InvalidArgument) && fs.files == old(fs.files))
      && (solved.Success? && provider != null ==>
            provider.asked == old(provider.asked) + PromptsFrom(run, input, file, a, m, solved.value, provider.answer, 1) &&
            Reports(r, fs.files, old(fs.files), path, AttemptsFrom(run, file, a, m, solved.value, provider.answer, 1)))
  {
    hide Attempt;
    ghost var solved := Solved(solver.blake3, PuzzleOf(a.superblock), solver.cancelled);
    assert solved.Failure? ==> solved.error == Cancelled;
    hide Attempt, Solved;
    var cached: Option<Key>, previousAttemptFailed, attempt := None, false, 1;
    while true
      invariant 1 <= attempt <= MAX_PASSWORD_ATTEMPTS && previousAttemptFailed == (attempt > 1)
      invariant attempt > 1 ==> solved.Success? && provider != null
      invariant cached == if attempt > 1 then Some(solved.value) else None
      invariant solver.runs == old(solver.runs) + if attempt > 1 then 1 else 0
      invariant fs.files == old(fs.files)
      invariant solved.Failure? && provider != null ==> provider.asked == old(provider.asked)
      invariant solved.Success? && provider != null ==>
        && provider.asked + PromptsFrom(run, input, file, a, m, solved.value, provider.answer, attempt)
             == old(provider.asked) + PromptsFrom(run, input, file, a, m, solved.value, provider.answer, 1)
        && AttemptsFrom(run, file, a, m, solved.value, provider.answer, attempt)
             == AttemptsFrom(run, file, a, m, solved.value, provider.answer, 1)
      decreases MAX_PASSWORD_ATTEMPTS - attempt
    {
      r, cached := TryOnce(run, fs, file, a, m, path, cached, solver, provider,
                           PromptContext(input, attempt, MAX_PASSWORD_ATTEMPTS, previousAttemptFailed));
      if !IsAuthenticationError(r) || attempt == MAX_PASSWORD_ATTEMPTS {
        return;
      }
      previousAttemptFailed, attempt := true, attempt + 1;
    }
  }

  // ---------------------------------------------------------------- the whole flow

  /** Where the payload goes: nowhere for text, which takes no output options. */
  function ResolveRecoveredFilePath(run: Run, request: UnlockRequest, b: Body): (r: Result<Option<Path>>)
    ensures r.Success? ==> (r.value.Some? <==> b.originalFilename.Some?)
  {
    match b.originalFilename
    case None => if request.out.Some? || request.outDir.Some? then Failure(InvalidArgument) else Success(None)
    case Some(name) =>
      if request.out.Some? then Success(Some(request.out.value))
      else
        var dir := if request.outDir.Some? then request.outDir.value else request.input.parent;
        Success(Some(run.join(dir, name)))
  }

  /** The name the result will get. */
  function OutputFor(run: Run, taken: set<Path>, request: UnlockRequest, b: Body): (r: Result<Option<Path>>)
    ensures r.Success? ==> (r.value.Some? <==> b.originalFilename.Some?)
  {
    var path :- ResolveRecoveredFilePath(run, request, b);
    if path.None? then Success(None)
    else
      var free :- ResolveAvailable(taken, path.value);
      Success(Some(free))
  }

  /** Everything before a key is needed. */
  datatype Opened = Opened(file: Bytes, artifact: Artifact, path: Option<Path>)

  function Prepare(run: Run, files: map<Path, Bytes>, request: UnlockRequest): (r: Result<Opened>)
    ensures r.Success? ==> (r.value.path.Some? <==> r.value.artifact.superblock.originalFilename.Some?)
  {
    if run.startCancelled then Failure(Cancelled)
    else if request.input !in files then Failure(Io)
    else
      var file := files[request.input];
      var a :- ReadArtifact(run.prims.crc, file);
      var path :- OutputFor(run, files.Keys, request, a.superblock);
      Success(Opened(file, a, path))
  }

  /** What gets delivered; without metadata the mask alone unwraps the key and nobody is asked. */
  ghost function Outcome(run: Run, o: Opened, token: Token, answer: Option<nat -> Result<Bytes>>): Result<Delivery>
    requires o.artifact.superblock.material.modulusN > 0
  {
    var b := o.artifact.superblock;
    var mask :- Solved(run.prims.blake3, PuzzleOf(b), token);
    match b.password
    case None => Deliver(run, o.file, o.artifact, 1, Xor(b.material.wrappedKey, mask))
    case Some(m) =>
      if answer.None? then Failure(InvalidArgument)
      else AttemptsFrom(run, o.file, o.artifact, m, mask, answer.value, 1)
  }

  /** What is prepared is the parsed input; its modulus is never zero, so the puzzle can be run. */
  lemma PreparedArtifact(run: Run, files: map<Path, Bytes>, request: UnlockRequest)
    requires Prepare(run, files, request).Success?
    ensures var o := Prepare(run, files, request).value;
      && request.input in files && o.file == files[request.input]
      && ReadArtifact(run.prims.crc, o.file) == Success(o.artifact)
      && o.artifact.superblock.material.modulusN > 0
  {
    hide DecodeBody, OutputFor;
    var file := files[request.input];
    AcceptedIsInBounds(run.prims.crc, file);
    DecodedIsStorable(ReadArtifact(run.prims.crc, file).value.superblockBytes);
  }

  /** The prompts of a run. */
  ghost function Prompts(run: Run, request: UnlockRequest, o: Opened, token: Token, answer: nat -> Result<Bytes>)
    : seq<PromptContext>
    requires o.artifact.superblock.material.modulusN > 0
  {
    var b := o.artifact.superblock;
    var mask := Solved(run.prims.blake3, PuzzleOf(b), token);
    if b.password.None? || mask.Failure? then []
    else PromptsFrom(run, request.input, o.file, o.artifact, b.password.value, mask.value, answer, 1)
  }

  /** The result of the attempts is the result of one of them. */
  lemma {:induction false} SomeAttempt(run: Run, file: Bytes, a: Artifact, m: PasswordMetadata, mask: Key,
                                      answer: nat -> Result<Bytes>, attempt: nat) returns (j: nat)
    ensures AttemptsFrom(run, file, a, m, mask, answer, attempt) == Attempt(run, file, a, m, mask, answer, j)
    decreases MAX_PASSWORD_ATTEMPTS - attempt
  {
    hide Attempt;
    j := attempt;
    if IsAuthenticationError(Attempt(run, file, a, m, mask, answer, attempt)) && attempt < MAX_PASSWORD_ATTEMPTS {
      j := SomeAttempt(run, file, a, m, mask, answer, attempt + 1);
    }
  }

  /** An outcome is the delivery with some key, at some attempt. */
  lemma OutcomeIsDelivery(run: Run, o: Opened, token: Token, answer: Option<nat -> Result<Bytes>>)
    returns (attempt: nat, key: Key)
    requires o.artifact.superblock.material.modulusN > 0 && Outcome(run, o, token, answer).Success?
    ensures Outcome(run, o, token, answer) == Deliver(run, o.file, o.artifact, attempt, key)
  {
    var b := o.artifact.superblock;
    var mask := Solved(run.prims.blake3, PuzzleOf(b), token).value;
    hide Solved, Deliver;
    if b.password.None? {
      attempt, key := 1, Xor(b.material.wrappedKey, mask);
    } else {
      attempt := SomeAttempt(run, o.file, o.artifact, b.password.value, mask, answer.value, 1);
      hide AttemptsFrom, DeriveWrapKey;
      key := UnwrapWithPassword(run.prims.kdf, b.material.wrappedKey, mask, answer.value(attempt).value,
                                b.password.value.params).value;
    }
  }

  /** What is delivered is what recovery has written, counted; a message is text, and a file was not cancelled. */
  lemma DeliveredIsRecovered(run: Run, file: Bytes, a: Artifact, attempt: nat, key: Key)
    requires Deliver(run, file, a, attempt, key).Success?
    ensures var d := Deliver(run, file, a, attempt, key).value;
      var recovered := RecoverPayload(run.prims, file, a, key, run.decryptCancelled(attempt));
      && recovered.result.Success? && d.content == recovered.written && d.recoveredBytes == |d.content|
      && (if a.superblock.originalFilename.None? then IsText(d.content) else !run.persistCancelled(attempt))
  {
    var recovered := RecoverPayload(run.prims, file, a, key, run.decryptCancelled(attempt));
    RecoveredIsCounted(run.prims, file, a, key, run.decryptCancelled(attempt));
    TextExactly(recovered.written);
    hide RecoverPayload, ValidUtf8, IsText;
  }

  /**
   * What stands against an unlock before the puzzle is run, in this order: cancellation, a missing file, a
   * file that cannot be read, output options for a message.
   */
  lemma PreparationReports(run: Run, files: map<Path, Bytes>, request: UnlockRequest)
    ensures run.startCancelled ==> Prepare(run, files, request) == Failure(Cancelled)
    ensures !run.startCancelled && request.input !in files ==> Prepare(run, files, request) == Failure(Io)
    ensures !run.startCancelled && request.input in files ==>
      var a := ReadArtifact(run.prims.crc, files[request.input]);
      && (a.Failure? ==> Prepare(run, files, request) == Failure(a.error))
      && (a.Success? && a.value.superblock.originalFilename.None? ==>
            if request.out.Some? || request.outDir.Some? then Prepare(run, files, request) == Failure(InvalidArgument)
            else Prepare(run, files, request) == Success(Opened(files[request.input], a.value, None)))
      && (a.Success? && a.value.superblock.originalFilename.Some? && Prepare(run, files, request).Failure? ==>
            Prepare(run, files, request) == Failure(InvalidArgument))
  {
    hide ReadArtifact;
    if request.input in files {
      var a := ReadArtifact(run.prims.crc, files[request.input]);
      if a.Success? && a.value.superblock.originalFilename.Some? {
        var wanted := ResolveRecoveredFilePath(run, request, a.value.superblock).value.value;
        OnlyInvalidNames(files.Keys, wanted);
      }
    }
  }

  /** Where the recovered file is wanted: as asked, or under its stored name, in the directory asked for or beside the input. */
  lemma WantedPath(run: Run, files: map<Path, Bytes>, request: UnlockRequest)
    requires Prepare(run, files, request).Success?
    ensures var o := Prepare(run, files, request).value;
      match o.artifact.superblock.originalFilename
      case None => o.path == None && request.out == None && request.outDir == None
      case Some(name) =>
        var wanted := match request.out
          case Some(path) => path
          case None => run.join(if request.outDir.Some? then request.outDir.value else request.input.parent, name);
        && o.path.Some? && o.path.value !in files && o.path.value.parent == wanted.parent
        && (wanted !in files ==> o.path.value == wanted)
  {
    hide ReadArtifact, ResolveAvailable;
    var b := ReadArtifact(run.prims.crc, files[request.input]).value.superblock;
    var wanted := ResolveRecoveredFilePath(run, request, b).value;
    if wanted.Some? {
      ResolvedIsFree(files.Keys, wanted.value);
      ResolvedStaysBeside(files.Keys, wanted.value);
    }
  }

  /** The bytes delivered are counted. */
  lemma OutcomeIsCounted(run: Run, o: Opened, token: Token, answer: Option<nat -> Result<Bytes>>)
    requires o.artifact.superblock.material.modulusN > 0 && Outcome(run, o, token, answer).Success?
    ensures var d := Outcome(run, o, token, answer).value; d.recoveredBytes == |d.content|
  {
    hide Outcome, Deliver;
    var attempt, key := OutcomeIsDelivery(run, o, token, answer);
    DeliveredIsRecovered(run, o.file, o.artifact, attempt, key);
  }

  /**
   * What a caller is told: text just when there is no filename, and then the delivered text; else the path
   * of the one file that was added, which did not exist and holds what was delivered; and how many bytes.
   */
  lemma ResponseIsTheDelivery(run: Run, files: map<Path, Bytes>, request: UnlockRequest, o: Opened, d: Delivery,
                              r: Result<Response>, after: map<Path, Bytes>)
    requires Prepare(run, files, request) == Success(o) && Reports(r, after, files, o.path, Success(d))
    ensures r.Success? && r.value.recoveredBytes == d.recoveredBytes
    ensures r.value.RecoveredText? <==> o.artifact.superblock.originalFilename.None?
    ensures r.value.RecoveredText? ==> r.value.text == d.content && after == files
    ensures r.value.RecoveredFile? ==> r.value.path !in files && after == files[r.value.path := d.content]
  {
    WantedPath(run, files, request);
    hide Prepare;
  }

  /**
   * Unlocks a file. The puzzle is run at most once; a file without password metadata never asks; every
   * failure leaves the files as they were, and success adds exactly the recovered file.
   */
  method Execute(run: Run, fs: FileSystem, request: UnlockRequest, solver: PuzzleSolver, provider: PasswordProvider?)
    returns (r: Result<Response>)
    requires solver.blake3 == run.prims.blake3
    modifies fs, solver, provider
    ensures var prepared := Prepare(run, old(fs.files), request);
      && (prepared.Failure? ==> r == Failure(prepared.error) && fs.files == old(fs.files) && solver.runs == old(solver.runs))
      && (prepared.Failure? && provider != null ==> provider.asked == old(provider.asked))
      && (prepared.Success? ==>
            prepared.value.artifact.superblock.material.modulusN > 0 && solver.runs == old(solver.runs) + 1 &&
            Reports(r, fs.files, old(fs.files), prepared.value.path,
                    Outcome(run, prepared.value, solver.cancelled, if provider == null then None else Some(provider.answer))))
      && (prepared.Success? && provider != null ==>
            provider.asked == old(provider.asked) + Prompts(run, request, prepared.value, solver.cancelled, provider.answer))
    ensures r.Success? ==>
      var o := Prepare(run, old(fs.files), request).value;
      var d := Outcome(run, o, solver.cancelled, if provider == null then None else Some(provider.answer)).value;
      && (r.value.RecoveredText? <==> o.artifact.superblock.originalFilename.None?)
      && (r.value.RecoveredText? ==> r.value.text == d.content && fs.files == old(fs.files))
      && (r.value.RecoveredFile? ==>
            r.value.path !in old(fs.files) && fs.files == old(fs.files)[r.value.path := d.content])
      && r.value.recoveredBytes == |d.content|
  {
    hide ReadArtifact, Deliver, AttemptsFrom, PromptsFrom, OutputFor, Solved;
    var prepared := Prepare(run, fs.files, request);
    if prepared.Failure? {
      return Failure(prepared.error);
    }
    PreparedArtifact(run, fs.files, request);
    var o := prepared.value;
    var b := o.artifact.superblock;
    if b.password.None? {
      var mask := solver.Solve(PuzzleOf(b));
      if mask.Failure? {
        return Failure(mask.error);
      }
      r := RecoverPayloadOnce(run, fs, o.file, o.artifact, o.path, 1, Xor(b.material.wrappedKey, mask.value));
    } else {
      r := UnlockProtected(run, fs, request.input, o.file, o.artifact, b.password.value, o.path, solver, provider);
    }
    ghost var outcome := Outcome(run, o, solver.cancelled, if provider == null then None else Some(provider.answer));
    assert Reports(r, fs.files, old(fs.files), o.path, outcome);
    if r.Success? {
      OutcomeIsCounted(run, o, solver.cancelled, if provider == null then None else Some(provider.answer));
      ResponseIsTheDelivery(run, old(fs.files), request, o, outcome.value, r, fs.files);
    }
  }

  // ---------------------------------------------------------------- what a caller can rely on

  /** The output name was free: success overwrites nothing and adds exactly one file, for file payloads. */
  lemma SuccessAddsOneFile(run: Run, files: map<Path, Bytes>, request: UnlockRequest, d: Delivery)
    requires Prepare(run, files, request).Success?
    ensures var path := Prepare(run, files, request).value.path;
      var after := Delivered(files, path, d);
      && (path.None? ==> after == files)
      && (path.Some? ==> path.value !in files && after.Keys == files.Keys + {path.value} && after[path.value] == d.content)
      && (forall p :: p in files ==> p in after && after[p] == files[p])
  {
    hide ReadArtifact;
    var b := ReadArtifact(run.prims.crc, files[request.input]).value.superblock;
    var target := ResolveRecoveredFilePath(run, request, b).value;
    if target.Some? {
      ResolvedIsFree(files.Keys, target.value);
    }
  }
}
