/**
 The input/chat state machine of the VoiceToText component
 (src/components/VoiceToText.tsx): the transcript, the text box, the
 listening flag, the input mode, whether a speech recognizer exists, and the
 replies whose one-second timers are still running.

 Every handler of the component is a pure function from the current state.
 Handlers that call the recognizer's `start()` or `stop()` return that call
 as a `Command` beside the new state; the recognizer's answers come back as
 `RecognizerEvent`s. A `setTimeout` is a text queued in `pending`; the timer
 firing is the `ReplyTimerFires` event, which answers the oldest entry.
 */
module VoiceToText {
  import opened Trimming
  import opened Transcript

  datatype Mode = Text | Voice

  /** A call the component makes on the recognizer object. */
  datatype Command = NoCommand | StartRecognition | StopRecognition

  datatype State = State(
    messages: seq<Message>,
    textInput: string,
    isListening: bool,
    mode: Mode,
    hasRecognizer: bool,
    pending: seq<string>)

  /** The state after a handler, and the recognizer call it made (if any). */
  datatype Effect = Effect(state: State, command: Command)

  /** The callbacks the component installs on the recognizer. The recognizer
      is configured non-continuous and without interim results, so a result
      carries the single final transcript. */
  datatype RecognizerEvent =
    | OnStart
    | OnResult(transcript: string)
    | OnError(reason: string)
    | OnEnd

  /** What the user can do on the page. */
  datatype UserIntent =
    | EditText(value: string)  // typing into the text box
    | SubmitText               // submitting the text form
    | TapTalk                  // the microphone button
    | ToggleMode               // the "Switch to ..." button

  datatype Event =
    | Intent(intent: UserIntent)
    | Recognizer(event: RecognizerEvent)
    | ReplyTimerFires

  /** The state right after mounting. `hasRecognizer` is whether the browser
      offers a speech recognizer, probed once when the component mounts. */
  function Initial(hasRecognizer: bool): (s: State)
    ensures s.messages == [Greeting]
    ensures s.textInput == [] && !s.isListening && s.mode == Text
    ensures s.pending == [] && s.hasRecognizer == hasRecognizer
  {
    State([Greeting], [], false, Text, hasRecognizer, [])
  }

  /** handleSendMessage: blank content (all white space) is ignored; anything
      else is trimmed and appended as a user message, the text box is
      cleared, and one simulated reply is scheduled. */
  function HandleSendMessage(s: State, content: string): (r: State)
    ensures Trim(content) == [] <==> r == s
    ensures Trim(content) != [] ==>
      && |r.messages| == |s.messages| + 1
      && s.messages <= r.messages
      && r.messages[|s.messages|] == Message(User, Trim(content))
      && r.textInput == []
      && r.pending == s.pending + [Trim(content)]
      && r == s.(messages := r.messages, textInput := [], pending := r.pending)
  {
    var text := Trim(content);
    if text == [] then s
    else
      s.(messages := s.messages + [Message(User, text)],
         textInput := [],
         pending := s.pending + [text])
  }

  /** The reply timer of the oldest pending send fires: one assistant message
      built from the reply template is appended and nothing else in the log
      changes. With no timer running there is nothing to fire. */
  function FireReply(s: State): (r: State)
    ensures s.pending == [] ==> r == s
    ensures s.pending != [] ==>
      && s.messages <= r.messages
      && r.messages[|s.messages|..] == [Message(Assistant, ReplyText(s.pending[0]))]
      && s.pending == [s.pending[0]] + r.pending
      && r == s.(messages := r.messages, pending := r.pending)
  {
    if s.pending == [] then s
    else
      s.(messages := s.messages + [Message(Assistant, ReplyText(s.pending[0]))],
         pending := s.pending[1..])
  }

  /** startVoiceRecording: asks the recognizer to start only when there is one
      and it is not already listening; the state itself does not change. */
  function StartVoiceRecording(s: State): (e: Effect)
    ensures e.state == s
    ensures e.command != StopRecognition
    ensures e.command == StartRecognition <==> s.hasRecognizer && !s.isListening
  {
    Effect(s, if s.hasRecognizer && !s.isListening then StartRecognition else NoCommand)
  }

  /** stopVoiceRecording: asks the recognizer to stop only when there is one
      and it is listening; `isListening` is cleared later, by the recognizer's
      end or error callback. */
  function StopVoiceRecording(s: State): (e: Effect)
    ensures e.state == s
    ensures e.command != StartRecognition
    ensures e.command == StopRecognition <==> s.hasRecognizer && s.isListening
  {
    Effect(s, if s.hasRecognizer && s.isListening then StopRecognition else NoCommand)
  }

  /** handleTextSubmit: sends whatever the text box holds. */
  function HandleTextSubmit(s: State): (r: State)
    ensures Trim(s.textInput) == [] ==> r == s
    ensures Trim(s.textInput) != [] ==>
      && r.messages == s.messages + [Message(User, Trim(s.textInput))]
      && r.textInput == []
      && r.pending == s.pending + [Trim(s.textInput)]
      && r == s.(messages := r.messages, textInput := [], pending := r.pending)
  {
    HandleSendMessage(s, s.textInput)
  }

  /** toggleInputMode: flips the mode; when listening it first asks the
      recognizer to stop, but `isListening` stays set until the recognizer
      reports the end of the session. */
  function ToggleInputMode(s: State): (e: Effect)
    ensures e.state.mode != s.mode
    ensures e.state == s.(mode := e.state.mode)
    ensures e.command != StartRecognition
    ensures e.command == StopRecognition <==> s.hasRecognizer && s.isListening
  {
    var stop := if s.isListening then StopVoiceRecording(s).command else NoCommand;
    Effect(s.(mode := if s.mode == Voice then Text else Voice), stop)
  }

  /** The submit button is enabled only in text mode, with a non-blank text
      box and while not listening. */
  predicate SubmitEnabled(s: State) {
    s.mode == Text && Trim(s.textInput) != [] && !s.isListening
  }

  /** The recognizer callbacks: `onstart` sets the listening flag, `onresult`
      sends the transcript exactly as a typed message is sent, `onerror` and
      `onend` clear the flag and add nothing to the log. */
  function OnRecognizerEvent(s: State, ev: RecognizerEvent): (r: State)
    ensures r.isListening <==> ev.OnStart? || (ev.OnResult? && s.isListening)
    ensures !ev.OnResult? ==> r.messages == s.messages && r.pending == s.pending
    ensures ev.OnResult? && Trim(ev.transcript) == [] ==> r == s
    ensures ev.OnResult? && Trim(ev.transcript) != [] ==>
      && r.messages == s.messages + [Message(User, Trim(ev.transcript))]
      && r.textInput == []
      && r.pending == s.pending + [Trim(ev.transcript)]
      && r == s.(messages := r.messages, textInput := [], pending := r.pending)
    ensures !ev.OnResult? ==> r == s.(isListening := r.isListening)
  {
    match ev
    case OnStart => s.(isListening := true)
    case OnResult(t) => HandleSendMessage(s, t)
    case OnError(_) => s.(isListening := false)
    case OnEnd => s.(isListening := false)
  }

  /** One event, as far as it can reach the component. The text box exists
      only in text mode and is disabled while listening; the form can only be
      submitted while its submit button is enabled (an HTML form is not
      submitted implicitly when its submit button is disabled); the
      microphone button exists only in voice mode and stops or starts
      depending on the listening flag; the mode button is always there;
      recognizer callbacks arrive only when a recognizer exists, and a reply
      timer only when one was scheduled. An event that cannot arrive changes
      nothing. */
  function Step(s: State, e: Event): (r: Effect)
    ensures s.messages <= r.state.messages
    ensures |r.state.messages| <= |s.messages| + 1
    ensures r.state.hasRecognizer == s.hasRecognizer
    ensures !s.isListening && r.state.isListening ==> e == Recognizer(OnStart)
    ensures s.isListening && !r.state.isListening ==>
      e.Recognizer? && (e.event.OnError? || e.event.OnEnd?)
    ensures r.state.mode != s.mode <==> e == Intent(ToggleMode)
    ensures r.state.textInput == s.textInput
            || (e.Intent? && e.intent.EditText? && r.state.textInput == e.intent.value)
            || (&& r.state.textInput == []
                && |r.state.messages| == |s.messages| + 1
                && r.state.messages[|s.messages|].role == User)
    ensures e.Intent? && e.intent.EditText? && (s.mode != Text || s.isListening) ==> r.state == s
    ensures e == Intent(TapTalk) && s.mode != Voice ==> r == Effect(s, NoCommand)
    ensures e == Intent(TapTalk) && s.mode == Voice && s.hasRecognizer ==> r.command != NoCommand
    ensures e == Recognizer(OnStart) && s.hasRecognizer ==> r.state.isListening
    ensures e.Recognizer? && (e.event.OnError? || e.event.OnEnd?) && s.hasRecognizer ==>
      !r.state.isListening
    ensures r.command == StartRecognition ==> s.hasRecognizer && !s.isListening
    ensures r.command == StopRecognition ==> s.hasRecognizer && s.isListening
  {
    match e
    case Intent(EditText(v)) =>
      Effect(if s.mode == Text && !s.isListening then s.(textInput := v) else s, NoCommand)
    case Intent(SubmitText) =>
      Effect(if SubmitEnabled(s) then HandleTextSubmit(s) else s, NoCommand)
    case Intent(TapTalk) =>
      if s.mode != Voice then Effect(s, NoCommand)
      else if s.isListening then StopVoiceRecording(s)
      else StartVoiceRecording(s)
    case Intent(ToggleMode) =>
      ToggleInputMode(s)
    case Recognizer(ev) =>
      Effect(if s.hasRecognizer then OnRecognizerEvent(s, ev) else s, NoCommand)
    case ReplyTimerFires =>
      Effect(FireReply(s), NoCommand)
  }

  /** The state after a sequence of events, oldest first. The transcript only
      ever grows at its end, by at most one message per event. */
  function Run(s: State, events: seq<Event>): (r: State)
    ensures s.messages <= r.messages
    ensures |r.messages| <= |s.messages| + |events|
    ensures r.hasRecognizer == s.hasRecognizer
    decreases |events|
  {
    if events == [] then s
    else Run(Step(s, events[0]).state, events[1..])
  }
}
