// The password prompt between the unlock worker thread and the user interface: an event queue, a reply
// channel for each request, and a cancellation flag, under every interleaving.
module PromptProtocol {
  import opened Base
  import opened TimelockPuzzle
  import opened OutputPath
  import opened Unlock

  /** A reply channel is known by its number, over all sessions. */
  datatype Request = Request(attempt: nat, maxAttempts: nat, previousAttemptFailed: bool, reply: nat)

  datatype Reply = Passphrase(text: Bytes) | ReplyCancelled

  datatype Event = Progress | PasswordRequired(request: Request) | Finished(result: Result<Delivery>)

  datatype PromptFocus = Password | UnlockButton | CancelButton {
    function Next(): PromptFocus {
      match this
      case Password => UnlockButton
      case UnlockButton => CancelButton
      case CancelButton => Password
    }

    function Prev(): PromptFocus { Next().Next() }
  }

  datatype Prompt = Prompt(text: Bytes, focus: PromptFocus, request: Request)

  /** What a message says: that the unlock was cancelled, how it failed, or something else. */
  datatype Note = UnlockCancelled | UnlockFailed(error: Error) | OtherNote

  datatype Modal = NoModal | Message(note: Note) | Browser | PasswordPrompt(prompt: Prompt)

  /** Closed: the application has been dropped. */
  datatype Screen =
    | MainMenu
    | OtherScreen
    | UnlockProgress(cancelRequested: bool, cancelFocused: bool)
    | UnlockComplete(delivery: Delivery)
    | Closed

  /** The worker thread; Stopping: it was told to give up and is on its way out. */
  datatype Phase = Idle | Working | Waiting | Stopping | Ended

  datatype State = State(
    screen: Screen, modal: Modal, quit: bool,
    queue: seq<Event>, cancelled: bool,
    channels: seq<seq<Reply>>,
    phase: Phase, session: Option<Session>, asked: seq<PromptContext>, answers: seq<Bytes>)
  {
    /** The number of the first reply channel of this session. */
    function Base(): int { |channels| - |asked| }
  }

  const INITIAL := State(MainMenu, NoModal, false, [], false, [], Idle, None, [], [])

  // ---------------------------------------------------------------- what the worker runs

  /**
   * The unlock that a session's worker runs. What the token will answer at the checks of the unlock is
   * fixed with it, and any choice is allowed, so that every behaviour of the flag is covered.
   */
  datatype Session = Session(run: Run, files: map<Path, Bytes>, request: UnlockRequest, token: Token)

  /** The provider that gives these passphrases and then reports cancellation. */
  function AnswersOf(answers: seq<Bytes>): nat -> Result<Bytes> {
    i => if 1 <= i <= |answers| then Success(answers[i - 1]) else Failure(Cancelled)
  }

  /** All prompts of the unlock with this provider. */
  ghost function SessionPrompts(session: Session, answers: seq<Bytes>): seq<PromptContext> {
    var prepared := Prepare(session.run, session.files, session.request);
    if prepared.Failure? then []
    else
      PreparedArtifact(session.run, session.files, session.request);
      Prompts(session.run, session.request, prepared.value, session.token, AnswersOf(answers))
  }

  /** What the unlock delivers with this provider. */
  ghost function SessionOutcome(session: Session, answers: seq<Bytes>): Result<Delivery> {
    var o :- Prepare(session.run, session.files, session.request);
    PreparedArtifact(session.run, session.files, session.request);
    Outcome(session.run, o, session.token, Some(AnswersOf(answers)))
  }

  /** What the unlock asks next when it has been given these passphrases. */
  ghost function NextPrompt(session: Session, answers: seq<Bytes>): Option<PromptContext> {
    var prompts := SessionPrompts(session, answers);
    if |prompts| > |answers| then Some(prompts[|answers|]) else None
  }

  /** Prompts are numbered from 1, at most three, and say that the previous attempt failed from the second on. */
  lemma PromptsInOrder(session: Session, answers: seq<Bytes>)
    ensures var prompts := SessionPrompts(session, answers);
      && |prompts| <= MAX_PASSWORD_ATTEMPTS
      && forall i :: 0 <= i < |prompts| ==>
           prompts[i] == PromptContext(session.request.input, i + 1, MAX_PASSWORD_ATTEMPTS, i > 0)
  {
    hide Prepare, PromptsFrom, Solved;
    var prepared := Prepare(session.run, session.files, session.request);
    if prepared.Success? {
      PreparedArtifact(session.run, session.files, session.request);
      var b := prepared.value.artifact.superblock;
      var mask := Solved(session.run.prims.blake3, PuzzleOf(b), session.token);
      if b.password.Some? && mask.Success? {
        PromptDiscipline(session.run, session.request.input, prepared.value.file, prepared.value.artifact, b.password.value,
                         mask.value, AnswersOf(answers), 1);
      }
    }
  }

  /** A prompt that is reached stays so with its answer; without one the unlock is cancelled there. */
  lemma PromptReached(session: Session, answers: seq<Bytes>, text: Bytes)
    requires |SessionPrompts(session, answers)| > |answers|
    ensures |SessionPrompts(session, answers + [text])| > |answers|
    ensures |SessionPrompts(session, answers)| == |answers| + 1 && SessionOutcome(session, answers) == Failure(Cancelled)
  {
    hide Prepare, PromptsFrom, AttemptsFrom, Solved;
    var o := Prepare(session.run, session.files, session.request).value;
    PreparedArtifact(session.run, session.files, session.request);
    var b := o.artifact.superblock;
    var mask := Solved(session.run.prims.blake3, PuzzleOf(b), session.token).value;
    var given: nat -> Result<Bytes>, k := AnswersOf(answers), |answers| + 1;
    AttemptReached(session.run, session.request.input, o.file, o.artifact, b.password.value, mask,
                   given, AnswersOf(answers + [text]), 1, k);
    AttemptReached(session.run, session.request.input, o.file, o.artifact, b.password.value, mask,
                   given, given, 1, k);
  }

  // ---------------------------------------------------------------- the user interface

  datatype Key = Tab | BackTab | Left | Right | Esc | Enter | CtrlC | Edit(text: Bytes)

  /** What a key does on the screens and in the browser that are not modelled. */
  datatype Elsewhere = Stays | Goes | Quits | ShowsMessage | OpensBrowser | ClosesBrowser | StartsUnlock(session: Session)

  function Send(s: State, reply: nat, message: Reply): State {
    if reply < |s.channels| then s.(channels := s.channels[reply := s.channels[reply] + [message]]) else s
  }

  /** Deals with an event that has been taken off the queue. */
  function OnEvent(s: State, event: Event): State
    requires s.screen.UnlockProgress?
  {
    match event
    case Progress => s
    case PasswordRequired(request) =>
      if s.screen.cancelRequested || s.cancelled then Send(s, request.reply, ReplyCancelled)
      else s.(modal := PasswordPrompt(Prompt([], Password, request)))
    case Finished(result) =>
      if result.Success? then s.(screen := UnlockComplete(result.value), queue := [])
      else
        var note := if result.error == Cancelled then UnlockCancelled else UnlockFailed(result.error);
        s.(screen := MainMenu, modal := Message(note), queue := [])
  }

  /** Takes one event off the queue. */
  function PollOne(s: State): State
    requires s.screen.UnlockProgress? && s.queue != []
  {
    OnEvent(s.(queue := s.queue[1..]), s.queue[0])
  }

  /** A poll drains progress reports and stops after the first other event. */
  function Poll(s: State): State
    decreases |s.queue|
  {
    if !s.screen.UnlockProgress? || s.queue == [] then s
    else if s.queue[0].Progress? then Poll(PollOne(s))
    else PollOne(s)
  }

  /** Cancelling answers the worker, and cancels the session if its screen is up. */
  function CancelPrompt(s: State, p: Prompt): State {
    var replied := Send(s, p.request.reply, ReplyCancelled).(modal := NoModal);
    if s.screen.UnlockProgress? then Cancel(replied) else replied
  }

  function SubmitPrompt(s: State, p: Prompt): State {
    Send(s, p.request.reply, Passphrase(p.text)).(modal := NoModal)
  }

  function PromptKey(s: State, p: Prompt, key: Key): State {
    match key
    case Tab => s.(modal := PasswordPrompt(p.(focus := p.focus.Next())))
    case BackTab => s.(modal := PasswordPrompt(p.(focus := p.focus.Prev())))
    case Esc => CancelPrompt(s, p)
    case Enter => if p.focus.CancelButton? then CancelPrompt(s, p) else SubmitPrompt(s, p)
    case Edit(text) => if p.focus.Password? then s.(modal := PasswordPrompt(p.(text := text))) else s
    case _ => s
  }

  function ModalKey(s: State, key: Key, otherwise: Elsewhere): State {
    match s.modal
    case NoModal => s
    case Message(_) => if key.Enter? || key.Esc? then s.(modal := NoModal) else s
    case Browser => if otherwise.ClosesBrowser? then s.(modal := NoModal) else s
    case PasswordPrompt(p) => PromptKey(s, p, key)
  }

  function Cancel(s: State): State
    requires s.screen.UnlockProgress?
  {
    s.(screen := s.screen.(cancelRequested := true), cancelled := true)
  }

  function RequestCancel(s: State): State
    requires s.screen.UnlockProgress?
  {
    if s.screen.cancelRequested then s else Cancel(s)
  }

  function ProgressKey(s: State, key: Key): State
    requires s.screen.UnlockProgress?
  {
    match key
    case Tab | BackTab | Left | Right => s.(screen := s.screen.(cancelFocused := !s.screen.cancelFocused))
    case Esc => RequestCancel(s)
    case Enter => if s.screen.cancelFocused then RequestCancel(s) else s
    case _ => s
  }

  /** A new session has a fresh queue, a fresh flag and a fresh worker. */
  function StartUnlock(s: State, session: Session): State {
    s.(screen := UnlockProgress(false, false), queue := [], cancelled := false,
       phase := Working, session := Some(session), asked := [], answers := [])
  }

  function ElsewhereKey(s: State, otherwise: Elsewhere): State {
    match otherwise
    case Goes => s.(screen := OtherScreen)
    case Quits => s.(quit := true)
    case ShowsMessage => s.(modal := Message(OtherNote))
    case OpensBrowser => s.(modal := Browser)
    case StartsUnlock(session) => StartUnlock(s, session)
    case _ => s
  }

  function OnKey(s: State, key: Key, otherwise: Elsewhere): State {
    if key.CtrlC? then s.(quit := true)
    else if s.modal != NoModal then ModalKey(s, key, otherwise)
    else if s.screen.UnlockProgress? then ProgressKey(s, key)
    else ElsewhereKey(s, otherwise)
  }

  // ---------------------------------------------------------------- the worker thread

  /** Sending fails once the receiver is gone with its screen. */
  function SendEvent(s: State, e: Event): State {
    if s.screen.UnlockProgress? then s.(queue := s.queue + [e]) else s
  }

  function RequestFor(context: PromptContext, reply: nat): Request {
    Request(context.attempt, context.maxAttempts, context.previousAttemptFailed, reply)
  }

  function Ask(s: State, context: PromptContext): State {
    var asked := s.(channels := s.channels + [[]], asked := s.asked + [context]);
    var request := RequestFor(context, |s.channels|);
    if s.screen.UnlockProgress? then SendEvent(asked, PasswordRequired(request)).(phase := Waiting)
    else asked.(phase := Stopping)
  }

  function Receive(s: State, reply: Reply): State {
    match reply
    case Passphrase(text) => s.(phase := Working, answers := s.answers + [text])
    case ReplyCancelled => s.(phase := Stopping)
  }

  // ---------------------------------------------------------------- steps

  datatype Step =
    | WorkerReports
    | WorkerAsks(context: PromptContext)
    | WorkerReceives
    | WorkerSeesCancel
    | WorkerDisconnects
    | WorkerFinishes(result: Result<Delivery>)
    | UiPolls
    | UiKey(key: Key, otherwise: Elsewhere)
    | UiDropped

  /** The requests still on their way to the user, in order. */
  function Requests(queue: seq<Event>): seq<Request> {
    if queue == [] then []
    else (if queue[0].PasswordRequired? then [queue[0].request] else []) + Requests(queue[1..])
  }

  function Outstanding(s: State): seq<Request> {
    Requests(s.queue) + if s.modal.PasswordPrompt? then [s.modal.prompt.request] else []
  }

  /** The worker asks and ends as the unlock does that it runs; one that is stopping ends as cancelled. */
  ghost predicate Enabled(s: State, step: Step) {
    match step
    case WorkerReports => s.phase.Working?
    case WorkerAsks(context) => s.phase.Working? && s.session.Some? && NextPrompt(s.session.value, s.answers) == Some(context)
    case WorkerReceives => s.phase.Waiting? && s.channels != [] && s.channels[|s.channels| - 1] != []
    case WorkerSeesCancel => s.phase.Waiting? && s.cancelled
    case WorkerDisconnects =>
      s.phase.Waiting? && s.channels != [] && s.channels[|s.channels| - 1] == [] && Outstanding(s) == []
    case WorkerFinishes(result) =>
      || (s.phase.Stopping? && result == Failure(Cancelled))
      || (s.phase.Working? && s.session.Some? && NextPrompt(s.session.value, s.answers) == None &&
            result == SessionOutcome(s.session.value, s.answers))
    case UiPolls => !s.quit && s.screen.UnlockProgress? && s.queue != []
    case UiKey(_, _) => !s.quit && !s.screen.Closed?
    case UiDropped => s.quit && !s.screen.Closed?
  }

  function Apply(s: State, step: Step): State
    requires Enabled(s, step)
  {
    match step
    case WorkerReports => SendEvent(s, Progress)
    case WorkerAsks(context) => Ask(s, context)
    case WorkerReceives => Receive(s, s.channels[|s.channels| - 1][0])
    case WorkerSeesCancel => s.(phase := Stopping)
    case WorkerDisconnects => s.(phase := Stopping)
    case WorkerFinishes(result) => SendEvent(s, Finished(result)).(phase := Ended)
    case UiPolls => PollOne(s)
    case UiKey(key, otherwise) => OnKey(s, key, otherwise)
    case UiDropped => s.(screen := Closed, modal := NoModal, queue := [])
  }

  // ---------------------------------------------------------------- the invariant

  function Finishes(queue: seq<Event>): nat {
    if queue == [] then 0 else (if queue[0].Finished? then 1 else 0) + Finishes(queue[1..])
  }

  /** No reply channel ever holds more than one reply. */
  ghost predicate OneReplyEach(channels: seq<seq<Reply>>) {
    forall i :: 0 <= i < |channels| ==> |channels[i]| <= 1
  }

  /** The worker has received exactly what was sent to its requests, in order. */
  ghost predicate Received(channels: seq<seq<Reply>>, base: int, answers: seq<Bytes>) {
    && 0 <= base && base + |answers| <= |channels|
    && forall k :: 0 <= k < |answers| ==> channels[base + k] == [Passphrase(answers[k])]
  }

  /** An outstanding request is the worker's latest, and not yet answered. */
  ghost predicate RequestFits(s: State, r: Request) {
    && s.asked != [] && r == RequestFor(s.asked[|s.asked| - 1], r.reply)
    && r.reply == |s.channels| - 1 && s.channels[r.reply] == []
  }

  ghost predicate RequestsFit(s: State) {
    && |Outstanding(s)| <= 1
    && (Outstanding(s) != [] ==> RequestFits(s, Outstanding(s)[0]))
    && (Outstanding(s) != [] ==> s.phase.Waiting? || (s.cancelled && (s.phase.Stopping? || s.phase.Ended?)))
  }

  /** An open prompt is the prompt of a session that is waiting for it and has not been cancelled. */
  ghost predicate PromptFits(s: State) {
    s.modal.PasswordPrompt? ==> s.screen.UnlockProgress? && !s.cancelled && s.phase.Waiting?
  }

  ghost predicate WorkerFits(s: State) {
    match s.phase
    case Idle => s.asked == [] && s.answers == []
    case Working => |s.answers| == |s.asked|
    case Waiting =>
      && |s.answers| + 1 == |s.asked| && s.channels != []
      && (Outstanding(s) == [] ==> |s.channels[|s.channels| - 1]| == 1 || s.screen.Closed?)
    case Stopping => |s.answers| + 1 == |s.asked|
    case Ended => |s.answers| <= |s.asked|
  }

  ghost predicate ScreenFits(s: State) {
    if s.screen.UnlockProgress? then
      && s.screen.cancelRequested == s.cancelled && !s.phase.Idle?
      && Finishes(s.queue) == (if s.phase.Ended? then 1 else 0)
      && (s.phase.Ended? ==> s.queue[|s.queue| - 1].Finished?)
    else
      && s.queue == []
      && (s.screen.Closed? || s.phase.Idle? || s.phase.Ended?)
  }

  ghost predicate Inv(s: State) {
    && |s.asked| <= |s.channels|
    && OneReplyEach(s.channels) && Received(s.channels, s.Base(), s.answers)
    && RequestsFit(s) && PromptFits(s) && WorkerFits(s) && ScreenFits(s)
  }

  lemma {:induction false} Appended(queue: seq<Event>, e: Event)
    ensures Requests(queue + [e]) == Requests(queue) + if e.PasswordRequired? then [e.request] else []
    ensures Finishes(queue + [e]) == Finishes(queue) + if e.Finished? then 1 else 0
  {
    if queue != [] {
      Appended(queue[1..], e);
      assert (queue + [e])[1..] == queue[1..] + [e];
    }
  }

  lemma {:induction false} FinishedIsLast(queue: seq<Event>, i: nat)
    requires Finishes(queue) <= 1 && i < |queue| && queue[i].Finished?
    requires queue[|queue| - 1].Finished?
    ensures i == |queue| - 1
  {
    if |queue| > 1 {
      if i > 0 {
        FinishedIsLast(queue[1..], i - 1);
      } else {
        FinishesSome(queue[1..]);
      }
    }
  }

  lemma {:induction false} FinishesSome(queue: seq<Event>)
    requires queue != [] && queue[|queue| - 1].Finished?
    ensures Finishes(queue) >= 1
  {
    if |queue| > 1 {
      FinishesSome(queue[1..]);
    }
  }

  lemma ReportKeepsInv(s: State)
    requires Inv(s) && Enabled(s, WorkerReports)
    ensures Inv(Apply(s, WorkerReports))
  {
    Appended(s.queue, Progress);
  }

  lemma ChannelOpened(channels: seq<seq<Reply>>, base: int, answers: seq<Bytes>)
    requires OneReplyEach(channels) && Received(channels, base, answers)
    ensures OneReplyEach(channels + [[]]) && Received(channels + [[]], base, answers)
  {
  }

  lemma AskKeepsInv(s: State, context: PromptContext)
    requires Inv(s) && Enabled(s, WorkerAsks(context))
    ensures Inv(Apply(s, WorkerAsks(context)))
  {
    hide NextPrompt, SessionOutcome, Received, OneReplyEach, Requests, Finishes;
    ChannelOpened(s.channels, s.Base(), s.answers);
    Appended(s.queue, PasswordRequired(RequestFor(context, |s.channels|)));
    assert Outstanding(s) == [];
  }

  lemma ReceivedNext(channels: seq<seq<Reply>>, base: int, answers: seq<Bytes>, text: Bytes)
    requires Received(channels, base, answers) && base + |answers| < |channels|
    requires channels[base + |answers|] == [Passphrase(text)]
    ensures Received(channels, base, answers + [text])
  {
  }

  lemma LoneReply(channels: seq<seq<Reply>>)
    requires OneReplyEach(channels) && channels != [] && channels[|channels| - 1] != []
    ensures var last := channels[|channels| - 1]; last == [last[0]]
  {
  }

  lemma ReceiveKeepsInv(s: State)
    requires Inv(s) && Enabled(s, WorkerReceives)
    ensures Inv(Apply(s, WorkerReceives))
  {
    hide OneReplyEach, Requests, Finishes, Received;
    var last := s.channels[|s.channels| - 1];
    LoneReply(s.channels);
    assert Outstanding(s) == [];
    if last[0].Passphrase? {
      assert |s.channels| - 1 == s.Base() + |s.answers|;
      ReceivedNext(s.channels, s.Base(), s.answers, last[0].text);
    }
  }

  lemma StopKeepsInv(s: State, step: Step)
    requires Inv(s) && Enabled(s, step) && (step.WorkerSeesCancel? || step.WorkerDisconnects?)
    ensures Inv(Apply(s, step))
  {
  }

  lemma FinishKeepsInv(s: State, result: Result<Delivery>)
    requires Inv(s) && Enabled(s, WorkerFinishes(result))
    ensures Inv(Apply(s, WorkerFinishes(result)))
  {
    hide NextPrompt, SessionOutcome, Received, OneReplyEach, Requests, Finishes;
    Appended(s.queue, Finished(result));
  }

  lemma PollProgressKeepsInv(s: State)
    requires Inv(s) && s.screen.UnlockProgress? && s.queue != [] && s.queue[0].Progress?
    ensures Inv(PollOne(s))
  {
    hide Received, OneReplyEach;
    assert Requests(PollOne(s).queue) == Requests(s.queue);
  }

  lemma PollRequestKeepsInv(s: State)
    requires Inv(s) && s.screen.UnlockProgress? && s.queue != [] && s.queue[0].PasswordRequired?
    ensures Inv(PollOne(s))
  {
    hide Requests, Finishes, OneReplyEach, Received;
    var request := s.queue[0].request;
    RequestFirst(s.queue);
    assert Outstanding(s)[0] == request;
    assert Requests(s.queue[1..]) == [];
    if s.cancelled {
      LastIsAnswered(s.channels, s.Base(), s.answers, ReplyCancelled);
    }
  }

  lemma RequestFirst(queue: seq<Event>)
    requires queue != [] && queue[0].PasswordRequired?
    ensures Requests(queue) == [queue[0].request] + Requests(queue[1..]) && Finishes(queue) == Finishes(queue[1..])
  {
  }

  /** One reply to the last request, which has none and whose answer has not been received. */
  lemma LastIsAnswered(channels: seq<seq<Reply>>, base: int, answers: seq<Bytes>, message: Reply)
    requires OneReplyEach(channels) && Received(channels, base, answers)
    requires channels != [] && channels[|channels| - 1] == []
    ensures var after := channels[|channels| - 1 := channels[|channels| - 1] + [message]];
      OneReplyEach(after) && Received(after, base, answers) && after[|channels| - 1] == [message]
  {
  }

  lemma PollFinishedKeepsInv(s: State)
    requires Inv(s) && s.screen.UnlockProgress? && s.queue != [] && s.queue[0].Finished?
    ensures Inv(PollOne(s))
  {
    assert s.phase.Ended?;
    FinishedIsLast(s.queue, 0);
    hide Received, OneReplyEach;
    assert Requests(s.queue) == [];
  }

  lemma OneEventKeepsInv(s: State)
    requires Inv(s) && s.screen.UnlockProgress? && s.queue != []
    ensures Inv(PollOne(s))
  {
    hide Inv, PollOne;
    match s.queue[0]
    case Progress => PollProgressKeepsInv(s);
    case PasswordRequired(_) => PollRequestKeepsInv(s);
    case Finished(_) => PollFinishedKeepsInv(s);
  }

  lemma PromptKeyKeepsInv(s: State, key: Key)
    requires Inv(s) && s.modal.PasswordPrompt?
    ensures Inv(PromptKey(s, s.modal.prompt, key))
  {
  }

  lemma ProgressKeyKeepsInv(s: State, key: Key)
    requires Inv(s) && s.modal.NoModal? && s.screen.UnlockProgress?
    ensures Inv(ProgressKey(s, key))
  {
    hide Received, OneReplyEach, Requests, Finishes;
    assert Outstanding(ProgressKey(s, key)) == Outstanding(s);
  }

  lemma ElsewhereKeyKeepsInv(s: State, otherwise: Elsewhere)
    requires Inv(s) && s.modal.NoModal? && !s.screen.UnlockProgress? && !s.screen.Closed?
    ensures Inv(ElsewhereKey(s, otherwise))
  {
  }

  lemma OtherModalKeyKeepsInv(s: State, key: Key, otherwise: Elsewhere)
    requires Inv(s) && (s.modal.Message? || s.modal.Browser?)
    ensures Inv(ModalKey(s, key, otherwise))
  {
    hide Received, OneReplyEach, Requests, Finishes, PromptKey;
    assert Outstanding(ModalKey(s, key, otherwise)) == Outstanding(s);
  }

  lemma QuitKeepsInv(s: State)
    requires Inv(s)
    ensures Inv(s.(quit := true))
  {
    hide Received, OneReplyEach, Requests, Finishes;
    assert Outstanding(s.(quit := true)) == Outstanding(s);
  }

  lemma KeyKeepsInv(s: State, key: Key, otherwise: Elsewhere)
    requires Inv(s) && Enabled(s, UiKey(key, otherwise))
    ensures Inv(OnKey(s, key, otherwise))
  {
    hide Inv, PromptKey, ProgressKey, ElsewhereKey;
    if key.CtrlC? {
      QuitKeepsInv(s);
    } else if s.modal.PasswordPrompt? {
      PromptKeyKeepsInv(s, key);
    } else if s.modal != NoModal {
      OtherModalKeyKeepsInv(s, key, otherwise);
    } else if s.screen.UnlockProgress? {
      ProgressKeyKeepsInv(s, key);
    } else {
      ElsewhereKeyKeepsInv(s, otherwise);
    }
  }

  lemma DropKeepsInv(s: State)
    requires Inv(s) && Enabled(s, UiDropped)
    ensures Inv(Apply(s, UiDropped))
  {
  }

  lemma StepKeepsInv(s: State, step: Step)
    requires Inv(s) && Enabled(s, step)
    ensures Inv(Apply(s, step))
  {
    hide Inv, OnKey, PollOne, Ask, Receive, SendEvent;
    match step
    case WorkerReports => ReportKeepsInv(s);
    case WorkerAsks(context) => AskKeepsInv(s, context);
    case WorkerReceives => ReceiveKeepsInv(s);
    case WorkerSeesCancel => StopKeepsInv(s, step);
    case WorkerDisconnects => StopKeepsInv(s, step);
    case WorkerFinishes(result) => FinishKeepsInv(s, result);
    case UiPolls => OneEventKeepsInv(s);
    case UiKey(key, otherwise) => KeyKeepsInv(s, key, otherwise);
    case UiDropped => DropKeepsInv(s);
  }

  // ---------------------------------------------------------------- the unlock behind the protocol

  predicate StartsSession(s: State, step: Step) {
    step.UiKey? && !step.key.CtrlC? && s.modal.NoModal? && !s.screen.UnlockProgress? && step.otherwise.StartsUnlock?
  }

  /** Every result reported, on its way or on screen, is the outcome of the unlock. */
  ghost predicate Reported(s: State)
    requires s.session.Some?
  {
    && (forall i :: 0 <= i < |s.queue| && s.queue[i].Finished? ==>
          s.queue[i].result == SessionOutcome(s.session.value, s.answers))
    && (s.screen.UnlockComplete? ==> SessionOutcome(s.session.value, s.answers) == Success(s.screen.delivery))
  }

  /** What has been asked begins the prompts of the unlock, and is all of them at the end. */
  ghost predicate RunsUnlock(s: State) {
    if s.phase.Idle? then s.asked == [] && s.queue == [] && !s.screen.UnlockComplete?
    else
      && s.session.Some?
      && s.asked <= SessionPrompts(s.session.value, s.answers)
      && (s.phase.Ended? ==> s.asked == SessionPrompts(s.session.value, s.answers))
      && Reported(s)
  }

  lemma AskRunsUnlock(s: State, context: PromptContext)
    requires Inv(s) && RunsUnlock(s) && Enabled(s, WorkerAsks(context))
    ensures RunsUnlock(Apply(s, WorkerAsks(context)))
  {
    hide SessionPrompts, SessionOutcome, Received, OneReplyEach, Requests, Finishes;
  }

  lemma ReceiveRunsUnlock(s: State)
    requires Inv(s) && RunsUnlock(s) && Enabled(s, WorkerReceives)
    ensures RunsUnlock(Apply(s, WorkerReceives))
  {
    hide SessionPrompts, SessionOutcome, Received, OneReplyEach, Requests, Finishes;
    var reply := s.channels[|s.channels| - 1][0];
    if reply.Passphrase? {
      PromptReached(s.session.value, s.answers, reply.text);
      PromptsInOrder(s.session.value, s.answers);
      PromptsInOrder(s.session.value, s.answers + [reply.text]);
      NoFinished(s.queue);
    }
  }

  lemma FinishRunsUnlock(s: State, result: Result<Delivery>)
    requires Inv(s) && RunsUnlock(s) && Enabled(s, WorkerFinishes(result))
    ensures RunsUnlock(Apply(s, WorkerFinishes(result)))
  {
    hide SessionPrompts, SessionOutcome, Received, OneReplyEach, Requests, Finishes;
    if s.phase.Stopping? {
      PromptReached(s.session.value, s.answers, []);
    }
  }

  lemma {:induction false} NoFinished(queue: seq<Event>)
    ensures Finishes(queue) == 0 <==> forall i :: 0 <= i < |queue| ==> !queue[i].Finished?
  {
    if queue != [] {
      NoFinished(queue[1..]);
      assert forall i :: 0 < i < |queue| ==> queue[i] == queue[1..][i - 1];
    }
  }

  lemma PollRunsUnlock(s: State)
    requires RunsUnlock(s) && Enabled(s, UiPolls)
    ensures RunsUnlock(PollOne(s))
  {
    hide SessionPrompts, SessionOutcome, Send;
    var t := PollOne(s);
    SendKeeps(s.(queue := s.queue[1..]), if s.queue[0].PasswordRequired? then s.queue[0].request.reply else 0, ReplyCancelled);
    assert forall i :: 0 <= i < |s.queue| - 1 ==> s.queue[1..][i] == s.queue[i + 1];
  }

  /** A reply changes its channel alone. */
  lemma SendKeeps(s: State, reply: nat, message: Reply)
    ensures Send(s, reply, message) == s.(channels := Send(s, reply, message).channels)
    ensures |Send(s, reply, message).channels| == |s.channels|
  {
  }

  /** What the worker has asked, received and reported is left alone. */
  ghost predicate SameWorker(s: State, t: State) {
    && t.phase == s.phase && t.session == s.session && t.asked == s.asked && t.answers == s.answers && t.queue == s.queue
    && (t.screen.UnlockComplete? ==> t.screen == s.screen)
  }

  lemma PromptKeyLeavesWorker(s: State, p: Prompt, key: Key)
    ensures SameWorker(s, PromptKey(s, p, key))
  {
    hide Send;
    SendKeeps(s, p.request.reply, ReplyCancelled);
    SendKeeps(s, p.request.reply, Passphrase(p.text));
  }

  lemma ScreenKeyLeavesWorker(s: State, key: Key, otherwise: Elsewhere)
    ensures s.screen.UnlockProgress? ==> SameWorker(s, ProgressKey(s, key))
    ensures !otherwise.StartsUnlock? ==> SameWorker(s, ElsewhereKey(s, otherwise))
  {
  }

  /** Unless it starts a session, a key leaves the worker alone. */
  lemma KeyLeavesWorker(s: State, key: Key, otherwise: Elsewhere)
    requires !StartsSession(s, UiKey(key, otherwise))
    ensures SameWorker(s, OnKey(s, key, otherwise))
  {
    hide PromptKey, ProgressKey, ElsewhereKey;
    ScreenKeyLeavesWorker(s, key, otherwise);
    if s.modal.PasswordPrompt? {
      PromptKeyLeavesWorker(s, s.modal.prompt, key);
    }
  }

  lemma KeyRunsUnlock(s: State, key: Key, otherwise: Elsewhere)
    requires RunsUnlock(s) && Enabled(s, UiKey(key, otherwise))
    ensures RunsUnlock(OnKey(s, key, otherwise))
  {
    hide SessionPrompts, SessionOutcome, Prepare;
    if StartsSession(s, UiKey(key, otherwise)) {
      assert OnKey(s, key, otherwise).asked == [];
    } else {
      KeyLeavesWorker(s, key, otherwise);
      hide OnKey;
    }
  }

  lemma StepRunsUnlock(s: State, step: Step)
    requires Inv(s) && RunsUnlock(s) && Enabled(s, step)
    ensures RunsUnlock(Apply(s, step))
  {
    hide SessionPrompts, SessionOutcome, NextPrompt, OnKey, PollOne, Inv;
    match step
    case WorkerAsks(context) => AskRunsUnlock(s, context);
    case WorkerReceives => ReceiveRunsUnlock(s);
    case WorkerFinishes(result) => FinishRunsUnlock(s, result);
    case UiPolls => PollRunsUnlock(s);
    case UiKey(key, otherwise) => KeyRunsUnlock(s, key, otherwise);
    case _ =>
  }

  // ---------------------------------------------------------------- runs

  /** The steps can be taken one after the other from s. */
  ghost predicate Follows(s: State, steps: seq<Step>)
    decreases |steps|
  {
    steps == [] || (Enabled(s, steps[0]) && Follows(Apply(s, steps[0]), steps[1..]))
  }

  function After(s: State, steps: seq<Step>): State
    requires Follows(s, steps)
    decreases |steps|
  {
    if steps == [] then s else After(Apply(s, steps[0]), steps[1..])
  }

  lemma {:induction false} RunKeepsInv(s: State, steps: seq<Step>)
    requires Inv(s) && RunsUnlock(s) && Follows(s, steps)
    ensures Inv(After(s, steps)) && RunsUnlock(After(s, steps))
    decreases |steps|
  {
    hide Inv, RunsUnlock, Apply, Enabled;
    if steps != [] {
      StepKeepsInv(s, steps[0]);
      StepRunsUnlock(s, steps[0]);
      RunKeepsInv(Apply(s, steps[0]), steps[1..]);
    }
  }

  /**
   * Safety under every interleaving, over any number of sessions: at most one request is outstanding;
   * an open prompt belongs to a session on screen that has not been cancelled and whose worker waits on
   * exactly this prompt's reply; every request has had at most one reply; the worker has asked at most
   * three times, numbering from 1, and has received exactly the passphrases sent to it, in order.
   */
  lemma PromptSafety(steps: seq<Step>)
    requires Follows(INITIAL, steps)
    ensures var s := After(INITIAL, steps);
      && |Outstanding(s)| <= 1 && |s.asked| <= 3 && |s.asked| <= |s.channels|
      && (forall i :: 0 <= i < |s.channels| ==> |s.channels[i]| <= 1)
      && (forall i :: 0 <= i < |s.asked| ==>
            s.asked[i].attempt == i + 1 && s.asked[i].maxAttempts == 3 &&
            s.asked[i].previousAttemptFailed == (i > 0))
      && (s.modal.PasswordPrompt? ==>
            var r := s.modal.prompt.request;
            && s.screen.UnlockProgress? && !s.cancelled && !s.screen.cancelRequested
            && s.phase.Waiting? && r.reply == |s.channels| - 1 && s.channels[r.reply] == []
            && r.attempt == |s.asked| == |s.answers| + 1 && r.maxAttempts == 3
            && r.previousAttemptFailed == (r.attempt > 1))
      && (forall k :: 0 <= k < |s.answers| ==>
            s.Base() + k < |s.channels| && s.channels[s.Base() + k] == [Passphrase(s.answers[k])])
  {
    RunKeepsInv(INITIAL, steps);
    hide Follows, After, Enabled, Apply, Requests, Finishes, SessionPrompts;
    var s := After(INITIAL, steps);
    if s.session.Some? {
      PromptsInOrder(s.session.value, s.answers);
    }
  }

  /**
   * The protocol carries out the unlock it runs: at the end of a session the worker has asked exactly
   * the prompts of the unlock whose provider gives the passphrases received and then cancellation, and
   * what is shown as complete is what that unlock delivers.
   */
  lemma SessionRefinesUnlock(steps: seq<Step>)
    requires Follows(INITIAL, steps)
    ensures var s := After(INITIAL, steps);
      && (s.phase.Ended? ==> s.session.Some? && s.asked == SessionPrompts(s.session.value, s.answers))
      && (s.screen.UnlockComplete? ==>
            s.session.Some? && SessionOutcome(s.session.value, s.answers) == Success(s.screen.delivery))
      && (forall i :: 0 <= i < |s.queue| && s.queue[i].Finished? ==>
            s.session.Some? && s.queue[i].result == SessionOutcome(s.session.value, s.answers))
  {
    RunKeepsInv(INITIAL, steps);
    hide Follows, After, Enabled, Apply, Requests, Finishes, SessionPrompts, SessionOutcome;
  }

  /** What the user sees of an unlock's outcome: its delivery, or a message that it was cancelled or how it failed. */
  ghost predicate Shows(s: State, outcome: Result<Delivery>) {
    match outcome
    case Success(d) => s.screen == UnlockComplete(d)
    case Failure(Cancelled) => s.screen == MainMenu && s.modal == Message(UnlockCancelled)
    case Failure(error) => s.screen == MainMenu && s.modal == Message(UnlockFailed(error))
  }

  lemma EndShowsOutcome(s: State, step: Step)
    requires Inv(s) && RunsUnlock(s) && Enabled(s, step)
    requires s.screen.UnlockProgress? && !Apply(s, step).screen.UnlockProgress?
    ensures s.session.Some? && (step.UiDropped? || step.UiPolls?)
    ensures step.UiPolls? ==>
      Shows(Apply(s, step), SessionOutcome(s.session.value, s.answers)) && s.phase.Ended?
  {
    hide SessionPrompts, SessionOutcome, NextPrompt, Requests, Received, OneReplyEach, Finishes;
    NoFinished(s.queue);
  }

  /**
   * Every session that comes to its end on screen shows its outcome: over every run, the progress screen is
   * left only by a poll or with the application, and then for the completed screen with what the unlock
   * delivers, exactly when it delivers something, and else for the main menu with the reason.
   */
  lemma EveryEndIsShown(steps: seq<Step>, step: Step)
    requires Follows(INITIAL, steps) && Enabled(After(INITIAL, steps), step)
    requires After(INITIAL, steps).screen.UnlockProgress? && !Apply(After(INITIAL, steps), step).screen.UnlockProgress?
    ensures var s, t := After(INITIAL, steps), Apply(After(INITIAL, steps), step);
      && s.session.Some? && t.session == s.session && t.answers == s.answers
      && (step.UiDropped? ==> t.screen == Closed)
      && (!step.UiDropped? ==>
            var outcome := SessionOutcome(s.session.value, s.answers);
            && step.UiPolls? && s.asked == SessionPrompts(s.session.value, s.answers)
            && (forall d :: t.screen == UnlockComplete(d) <==> outcome == Success(d))
            && (outcome.Failure? ==>
                  t.screen == MainMenu &&
                  t.modal == Message(if outcome.error == Cancelled then UnlockCancelled else UnlockFailed(outcome.error))))
  {
    RunKeepsInv(INITIAL, steps);
    var s := After(INITIAL, steps);
    hide Follows, After, Requests, Finishes, SessionPrompts, SessionOutcome, Received, OneReplyEach, NextPrompt;
    EndShowsOutcome(s, step);
  }

  /** Esc always cancels a session on screen, and so does Enter on a focused cancel button; nothing else the user does. */
  lemma CancelKeys(s: State, key: Key, otherwise: Elsewhere)
    requires Inv(s) && s.screen.UnlockProgress? && (s.modal.NoModal? || s.modal.PasswordPrompt?)
    ensures OnKey(s, key, otherwise).cancelled <==>
      s.cancelled || key.Esc? ||
      (key.Enter? && if s.modal.PasswordPrompt? then s.modal.prompt.focus.CancelButton? else s.screen.cancelFocused)
  {
    hide OneReplyEach, Received, Requests, Finishes;
  }

  predicate StartsNoSession(s: State, steps: seq<Step>)
    requires Follows(s, steps)
    decreases |steps|
  {
    steps == [] || (!StartsSession(s, steps[0]) && StartsNoSession(Apply(s, steps[0]), steps[1..]))
  }

  lemma CancellationStays(s: State, step: Step)
    requires Enabled(s, step) && s.cancelled && !StartsSession(s, step)
    ensures Apply(s, step).cancelled
  {
  }

  /** Once cancelled, a session stays cancelled and never shows a prompt again; only a new one is not. */
  lemma {:induction false} NoPromptAfterCancel(s: State, steps: seq<Step>)
    requires Inv(s) && Follows(s, steps) && s.cancelled && StartsNoSession(s, steps)
    ensures var t := After(s, steps); t.cancelled && !t.modal.PasswordPrompt?
    decreases |steps|
  {
    assert !s.modal.PasswordPrompt?;
    hide Inv, Apply, Enabled, StartsSession;
    if steps != [] {
      CancellationStays(s, steps[0]);
      StepKeepsInv(s, steps[0]);
      NoPromptAfterCancel(Apply(s, steps[0]), steps[1..]);
    }
  }

  /**
   * A waiting worker is never forgotten: its reply is there, or its session is cancelled, or its request
   * is still with the user interface. Losing the reply channel happens only when the application closes.
   */
  lemma WaitingIsAttended(s: State)
    requires Inv(s) && s.phase.Waiting? && !s.screen.Closed?
    ensures Enabled(s, WorkerReceives) || Enabled(s, WorkerSeesCancel) ||
      (Outstanding(s) != [] && Outstanding(s)[0].reply == |s.channels| - 1)
    ensures !Enabled(s, WorkerDisconnects)
  {
    hide Requests, Finishes, OneReplyEach, Received;
  }

  /**
   * A key answers the open prompt exactly when it is Enter or Esc. Then the waiting worker's channel gets
   * its one reply, the text as typed or a cancellation with the flag set, and no other channel changes;
   * any other key leaves the request open and unanswered.
   */
  lemma PromptKeyAnswers(s: State, key: Key, otherwise: Elsewhere)
    requires Inv(s) && s.modal.PasswordPrompt? && !key.CtrlC?
    ensures var t, p := OnKey(s, key, otherwise), s.modal.prompt;
      var submits := key.Enter? && !p.focus.CancelButton?;
      && (t.modal.PasswordPrompt? <==> !key.Enter? && !key.Esc?)
      && (t.modal.PasswordPrompt? ==>
            t.channels == s.channels && t.cancelled == s.cancelled && t.modal.prompt.request == p.request)
      && (!t.modal.PasswordPrompt? ==>
            && t.modal.NoModal? && t.cancelled == !submits && t.screen.cancelRequested == !submits
            && t.channels == s.channels[..|s.channels| - 1] + [[if submits then Passphrase(p.text) else ReplyCancelled]]
            && Enabled(t, WorkerReceives)
            && Apply(t, WorkerReceives).answers == (if submits then s.answers + [p.text] else s.answers)
            && Apply(t, WorkerReceives).phase == (if submits then Working else Stopping))
      && t.phase.Waiting? && t.queue == s.queue && t.quit == s.quit
  {
    hide Requests, Finishes, OneReplyEach, Received;
    var reply := s.modal.prompt.request.reply;
    assert [] + [ReplyCancelled] == [ReplyCancelled];
    assert [] + [Passphrase(s.modal.prompt.text)] == [Passphrase(s.modal.prompt.text)];
  }

  lemma PromptAttempt(s: State)
    requires Inv(s) && RunsUnlock(s) && s.modal.PasswordPrompt?
    ensures |s.answers| + 1 == s.modal.prompt.request.attempt
  {
    hide Requests, Finishes, OneReplyEach, Received, SessionPrompts, Reported;
    PromptsInOrder(s.session.value, s.answers);
  }

  /** The passphrase typed into the prompt is the one the worker receives for this attempt. */
  lemma TypedIsReceived(s: State, otherwise: Elsewhere)
    requires Inv(s) && RunsUnlock(s) && s.modal.PasswordPrompt? && !s.modal.prompt.focus.CancelButton? && !s.quit
    ensures Enabled(s, UiKey(Enter, otherwise))
    ensures var submitted := Apply(s, UiKey(Enter, otherwise));
      && submitted.modal.NoModal? && !submitted.cancelled && Enabled(submitted, WorkerReceives)
      && !Enabled(submitted, WorkerSeesCancel) && !Enabled(submitted, WorkerDisconnects)
      && Apply(submitted, WorkerReceives).answers == s.answers + [s.modal.prompt.text]
      && |s.answers| + 1 == s.modal.prompt.request.attempt
      && Apply(submitted, WorkerReceives).phase.Working?
  {
    hide RunsUnlock, Requests, Finishes, OneReplyEach, Received;
    PromptAttempt(s);
    var reply := s.modal.prompt.request.reply;
    assert s.channels[reply] + [Passphrase(s.modal.prompt.text)] == [Passphrase(s.modal.prompt.text)];
  }

  function Rank(phase: Phase): nat {
    match phase
    case Idle => 0
    case Ended => 1
    case Stopping => 2
    case Waiting => 3
    case Working => 4
  }

  /** The next step towards the end of the session; Esc is the only key it takes. */
  ghost function TowardsEnd(s: State): Step
    requires s.session.Some?
  {
    match s.phase
    case Idle | Ended => UiPolls
    case Stopping => WorkerFinishes(Failure(Cancelled))
    case Working =>
      var next := NextPrompt(s.session.value, s.answers);
      if next.Some? then WorkerAsks(next.value) else WorkerFinishes(SessionOutcome(s.session.value, s.answers))
    case Waiting =>
      if s.channels != [] && s.channels[|s.channels| - 1] != [] then WorkerReceives
      else if s.cancelled then WorkerSeesCancel
      else if s.modal.PasswordPrompt? then UiKey(Esc, Stays)
      else UiPolls
  }

  lemma EmptyQueue(queue: seq<Event>)
    ensures queue == [] ==> Requests(queue) == [] && Finishes(queue) == 0
  {
  }

  lemma TowardsEndEnabled(s: State)
    requires Inv(s) && RunsUnlock(s) && s.screen.UnlockProgress? && !s.quit
    ensures s.session.Some? && Enabled(s, TowardsEnd(s)) && |s.answers| <= MAX_PASSWORD_ATTEMPTS
  {
    hide OneReplyEach, Received, Finishes, Requests, SessionPrompts, SessionOutcome, Reported;
    EmptyQueue(s.queue);
    PromptsInOrder(s.session.value, s.answers);
  }

  /** A passphrase received, a phase further on, the flag set, or an event off the queue. */
  lemma TowardsEndProgresses(s: State)
    requires s.session.Some? && s.screen.UnlockProgress? && !s.quit && Enabled(s, TowardsEnd(s))
    ensures var t := Apply(s, TowardsEnd(s));
      && !t.quit
      && (t.screen.UnlockProgress? ==>
            || |t.answers| > |s.answers|
            || (t.answers == s.answers &&
                  (Rank(t.phase) < Rank(s.phase) ||
                   (t.phase == s.phase && ((!s.cancelled && t.cancelled) || (t.cancelled == s.cancelled && |t.queue| < |s.queue|))))))
  {
    hide Finishes, Requests, SessionPrompts, SessionOutcome;
  }

  lemma PollKeepsSession(s: State)
    requires s.screen.UnlockProgress? && s.queue != []
    ensures PollOne(s).session == s.session && PollOne(s).answers == s.answers
  {
  }

  /** No session can get stuck: from every reachable state it can still come to its end, and to its outcome on screen. */
  lemma {:induction false} SessionCanEnd(s: State) returns (steps: seq<Step>)
    requires Inv(s) && RunsUnlock(s) && s.screen.UnlockProgress? && !s.quit
    ensures Follows(s, steps) && !After(s, steps).screen.UnlockProgress?
    ensures var t := After(s, steps); t.session.Some? && Shows(t, SessionOutcome(t.session.value, t.answers))
    decreases MAX_PASSWORD_ATTEMPTS - |s.answers|, Rank(s.phase), if s.cancelled then 0 else 1, |s.queue|
  {
    TowardsEndEnabled(s);
    TowardsEndProgresses(s);
    StepKeepsInv(s, TowardsEnd(s));
    StepRunsUnlock(s, TowardsEnd(s));
    var t := Apply(s, TowardsEnd(s));
    assert !TowardsEnd(s).UiDropped?;
    hide Inv, RunsUnlock, Enabled, TowardsEnd, Shows, SessionOutcome;
    var rest: seq<Step> := [];
    if t.screen.UnlockProgress? {
      TowardsEndEnabled(t);
      rest := SessionCanEnd(t);
    } else {
      EndShowsOutcome(s, TowardsEnd(s));
      PollKeepsSession(s);
    }
    hide Apply;
    steps := [TowardsEnd(s)] + rest;
    assert steps[1..] == rest;
  }

  /**
   * Cancelling a prompt answers first and sets the flag after it; a worker step in between has the same
   * effect as after both, so that taking the two as one step loses no behaviour.
   */
  lemma CancelCommutes(s: State, step: Step)
    requires s.screen.UnlockProgress? && Enabled(s, step) && !step.UiPolls? && !step.UiKey? && !step.UiDropped?
    ensures Apply(s, step).screen.UnlockProgress? && Enabled(Cancel(s), step)
    ensures Apply(Cancel(s), step) == Cancel(Apply(s, step))
  {
    assert Outstanding(Cancel(s)) == Outstanding(s);
    hide Requests;
  }

  /** A poll is a run of single events. */
  lemma {:induction false} PollIsRun(s: State) returns (steps: seq<Step>)
    requires !s.quit
    ensures Follows(s, steps) && After(s, steps) == Poll(s)
    ensures forall i :: 0 <= i < |steps| ==> steps[i] == UiPolls
    decreases |s.queue|
  {
    if !s.screen.UnlockProgress? || s.queue == [] {
      steps := [];
    } else {
      var t := PollOne(s);
      var rest: seq<Step> := [];
      if s.queue[0].Progress? {
        rest := PollIsRun(t);
      }
      hide PollOne;
      steps := [UiPolls] + rest;
      assert steps[1..] == rest;
    }
  }

  lemma {:induction false} PollKeepsInv(s: State)
    requires Inv(s)
    ensures Inv(Poll(s))
    decreases |s.queue|
  {
    hide Inv, PollOne;
    if s.screen.UnlockProgress? && s.queue != [] {
      OneEventKeepsInv(s);
      PollOneShortens(s);
      if s.queue[0].Progress? {
        PollKeepsInv(PollOne(s));
      }
    }
  }

  /** How many progress reports come before any other event. */
  function LeadingReports(queue: seq<Event>): (n: nat)
    ensures n <= |queue|
    ensures n < |queue| ==> !queue[n].Progress?
    ensures forall i :: 0 <= i < n ==> queue[i].Progress?
  {
    if queue == [] || !queue[0].Progress? then 0 else 1 + LeadingReports(queue[1..])
  }

  /**
   * What a poll does: it takes the reports in front off the queue, and the event after them. A request
   * opens its prompt, or is answered with cancellation when the session is cancelled; a result ends the
   * session on the screen that shows it.
   */
  ghost predicate PollEffect(s: State, t: State)
    requires s.screen.UnlockProgress?
  {
    var n := LeadingReports(s.queue);
    if n == |s.queue| then t == s.(queue := [])
    else
      match s.queue[n]
      case PasswordRequired(request) =>
        if s.screen.cancelRequested || s.cancelled then
          t == Send(s, request.reply, ReplyCancelled).(queue := s.queue[n + 1..])
        else t == s.(queue := s.queue[n + 1..], modal := PasswordPrompt(Prompt([], Password, request)))
      case Finished(Success(d)) => t == s.(queue := [], screen := UnlockComplete(d))
      case Finished(Failure(Cancelled)) => t == s.(queue := [], screen := MainMenu, modal := Message(UnlockCancelled))
      case Finished(Failure(e)) => t == s.(queue := [], screen := MainMenu, modal := Message(UnlockFailed(e)))
      case Progress => false
  }

  lemma PollEffectNow(s: State)
    requires s.screen.UnlockProgress? && s.queue != [] && !s.queue[0].Progress?
    ensures PollEffect(s, PollOne(s))
  {
  }

  lemma PollEffectLater(s: State, t: State)
    requires s.screen.UnlockProgress? && s.queue != [] && s.queue[0].Progress? && PollEffect(PollOne(s), t)
    ensures PollEffect(s, t)
  {
    var rest := PollOne(s);
    assert LeadingReports(s.queue) == 1 + LeadingReports(rest.queue);
    assert forall i :: 1 <= i <= |s.queue| ==> s.queue[i..] == rest.queue[i - 1..];
  }

  lemma {:induction false} PollExactly(s: State)
    requires s.screen.UnlockProgress?
    ensures PollEffect(s, Poll(s))
    decreases |s.queue|
  {
    if s.queue == [] {
    } else if s.queue[0].Progress? {
      hide PollEffect;
      PollExactly(PollOne(s));
      PollEffectLater(s, Poll(s));
    } else {
      hide PollEffect, OnEvent;
      PollEffectNow(s);
    }
  }

  /** A message is closed by Enter and Esc alone; Ctrl-C leaves the application at any time, another key only elsewhere. */
  lemma MessageCloses(s: State, key: Key, otherwise: Elsewhere)
    ensures s.modal.Message? && !key.CtrlC? ==>
      OnKey(s, key, otherwise) == if key.Enter? || key.Esc? then s.(modal := NoModal) else s
    ensures OnKey(s, key, otherwise).quit
         == (s.quit || key.CtrlC? || (s.modal.NoModal? && !s.screen.UnlockProgress? && otherwise.Quits?))
    ensures key.CtrlC? ==> OnKey(s, key, otherwise) == s.(quit := true)
  {
  }

  /** Tab and BackTab go round the three places of the prompt in opposite directions; so they do on the screen's button. */
  lemma FocusMoves(s: State, otherwise: Elsewhere)
    ensures s.modal.PasswordPrompt? ==>
      var p := s.modal.prompt;
      && OnKey(OnKey(s, Tab, otherwise), BackTab, otherwise) == s
      && OnKey(OnKey(s, BackTab, otherwise), Tab, otherwise) == s
      && OnKey(OnKey(OnKey(s, Tab, otherwise), Tab, otherwise), Tab, otherwise) == s
      && (p.focus.Password? ==> OnKey(s, Tab, otherwise) == s.(modal := PasswordPrompt(p.(focus := UnlockButton))))
      && (p.focus.UnlockButton? ==> OnKey(s, Tab, otherwise) == s.(modal := PasswordPrompt(p.(focus := CancelButton))))
      && (forall text :: OnKey(s, Edit(text), otherwise)
            == if p.focus.Password? then s.(modal := PasswordPrompt(p.(text := text))) else s)
    ensures s.modal.NoModal? && s.screen.UnlockProgress? ==> forall key :: key in {Tab, BackTab, Left, Right} ==>
      OnKey(s, key, otherwise) == s.(screen := UnlockProgress(s.screen.cancelRequested, !s.screen.cancelFocused))
  {
  }

  lemma PollOneShortens(s: State)
    requires s.screen.UnlockProgress? && s.queue != []
    ensures |PollOne(s).queue| < |s.queue|
  {
  }

  // ---------------------------------------------------------------- the handlers

  /** What the user interface and the worker share, with the handlers that change it in place. */
  class Tui {
    var screen: Screen
    var modal: Modal
    var shouldQuit: bool
    var queue: seq<Event>
    var cancelled: bool
    var channels: seq<seq<Reply>>
    var phase: Phase
    var session: Option<Session>
    var asked: seq<PromptContext>
    var answers: seq<Bytes>

    constructor ()
      ensures View() == INITIAL
    {
      screen, modal, shouldQuit, queue, cancelled := MainMenu, NoModal, false, [], false;
      channels, phase, session, asked, answers := [], Idle, None, [], [];
    }

    ghost function View(): State
      reads this
    {
      State(screen, modal, shouldQuit, queue, cancelled, channels, phase, session, asked, answers)
    }

    method SendReply(reply: nat, message: Reply)
      modifies this`channels
      ensures View() == Send(old(View()), reply, message)
    {
      if reply < |channels| {
        channels := channels[reply := channels[reply] + [message]];
      }
    }

    /** Drains the queue up to the first event that needs the user or ends the session. */
    method PollUnlockWorker()
      modifies this`screen, this`modal, this`queue, this`channels
      ensures View() == Poll(old(View()))
      ensures old(Inv(View())) ==> Inv(View())
      ensures old(screen).UnlockProgress? ==> PollEffect(old(View()), View())
    {
      hide Inv, PollEffect, OnEvent;
      ghost var before := View();
      if Inv(before) {
        PollKeepsInv(before);
      }
      if !screen.UnlockProgress? {
        return;
      }
      PollExactly(before);
      while queue != []
        invariant screen.UnlockProgress?
        invariant Poll(View()) == Poll(old(View()))
        decreases |queue|
      {
        var event := queue[0];
        queue := queue[1..];
        TakeEvent(event);
        if !event.Progress? {
          return;
        }
      }
    }

    method TakeEvent(event: Event)
      requires screen.UnlockProgress?
      modifies this`screen, this`modal, this`queue, this`channels
      ensures View() == OnEvent(old(View()), event)
      ensures event.Progress? ==> View() == old(View())
    {
      match event
      case Progress =>
      case PasswordRequired(request) =>
        if screen.cancelRequested || cancelled {
          SendReply(request.reply, ReplyCancelled);
        } else {
          modal := PasswordPrompt(Prompt([], Password, request));
        }
      case Finished(result) =>
        queue := [];
        match result {
          case Success(delivery) => screen := UnlockComplete(delivery);
          case Failure(Cancelled) => screen, modal := MainMenu, Message(UnlockCancelled);
          case Failure(error) => screen, modal := MainMenu, Message(UnlockFailed(error));
        }
    }

    method SubmitPasswordPrompt(p: Prompt)
      modifies this`modal, this`channels
      ensures View() == SubmitPrompt(old(View()), p)
    {
      SendReply(p.request.reply, Passphrase(p.text));
      modal := NoModal;
    }

    method CancelPasswordPrompt(p: Prompt)
      modifies this`screen, this`modal, this`cancelled, this`channels
      ensures View() == CancelPrompt(old(View()), p)
    {
      SendReply(p.request.reply, ReplyCancelled);
      modal := NoModal;
      if screen.UnlockProgress? {
        screen := screen.(cancelRequested := true);
        cancelled := true;
      }
    }

    method HandlePasswordPromptKey(p: Prompt, key: Key)
      requires modal == PasswordPrompt(p)
      modifies this`screen, this`modal, this`cancelled, this`channels
      ensures View() == PromptKey(old(View()), p, key)
    {
      match key
      case Tab => modal := PasswordPrompt(p.(focus := p.focus.Next()));
      case BackTab => modal := PasswordPrompt(p.(focus := p.focus.Prev()));
      case Esc => CancelPasswordPrompt(p);
      case Enter =>
        match p.focus {
          case Password | UnlockButton => SubmitPasswordPrompt(p);
          case CancelButton => CancelPasswordPrompt(p);
        }
      case Edit(text) =>
        if p.focus.Password? {
          modal := PasswordPrompt(p.(text := text));
        }
      case _ =>
    }

    method RequestUnlockCancel()
      requires screen.UnlockProgress?
      modifies this`screen, this`cancelled
      ensures View() == RequestCancel(old(View()))
    {
      if screen.cancelRequested {
        return;
      }
      screen := screen.(cancelRequested := true);
      cancelled := true;
    }

    method HandleProgressKey(key: Key)
      requires screen.UnlockProgress?
      modifies this`screen, this`cancelled
      ensures View() == ProgressKey(old(View()), key)
    {
      if key.Tab? || key.BackTab? || key.Left? || key.Right? {
        screen := screen.(cancelFocused := !screen.cancelFocused);
        return;
      }
      if key.Esc? || (key.Enter? && screen.cancelFocused) {
        RequestUnlockCancel();
      }
    }

    method HandleModalKey(key: Key, otherwise: Elsewhere)
      modifies this`screen, this`modal, this`cancelled, this`channels
      ensures View() == ModalKey(old(View()), key, otherwise)
    {
      hide PromptKey;
      match modal
      case NoModal =>
      case Message(_) =>
        if key.Enter? || key.Esc? {
          modal := NoModal;
        }
      case Browser =>
        if otherwise.ClosesBrowser? {
          modal := NoModal;
        }
      case PasswordPrompt(p) => HandlePasswordPromptKey(p, key);
    }

    /** Routes a key press, and keeps the protocol invariant. */
    method Press(key: Key, otherwise: Elsewhere)
      modifies this
      ensures View() == OnKey(old(View()), key, otherwise)
      ensures old(Inv(View()) && !shouldQuit && !screen.Closed?) ==> Inv(View())
    {
      hide ModalKey, ProgressKey, ElsewhereKey, Inv;
      ghost var before := View();
      if Inv(before) && !shouldQuit && !screen.Closed? {
        KeyKeepsInv(before, key, otherwise);
      }
      if key.CtrlC? {
        shouldQuit := true;
      } else if modal != NoModal {
        HandleModalKey(key, otherwise);
      } else if screen.UnlockProgress? {
        HandleProgressKey(key);
      } else {
        GoElsewhere(otherwise);
      }
    }

    method GoElsewhere(otherwise: Elsewhere)
      requires modal == NoModal && !screen.UnlockProgress?
      modifies this
      ensures View() == ElsewhereKey(old(View()), otherwise)
    {
      match otherwise
      case Goes => screen := OtherScreen;
      case Quits => shouldQuit := true;
      case ShowsMessage => modal := Message(OtherNote);
      case OpensBrowser => modal := Browser;
      case StartsUnlock(session) =>
        screen, queue, cancelled := UnlockProgress(false, false), [], false;
        phase, this.session, asked, answers := Working, Some(session), [], [];
      case _ =>
    }
  }
}
