/**
 Concrete runs of the VoiceToText state machine: the conversations the
 component is designed for, and one it allows that a reader might not expect.
 */
module Scenarios {
  import opened Trimming
  import opened Transcript
  import opened VoiceToText

  /** Typing a message and submitting it adds the user message and clears
      the box; when the timer fires the templated reply follows it. For
      "Hello" this is [greeting, user "Hello", reply to "Hello"]. */
  lemma TypedMessageGetsReply(hasRecognizer: bool, text: string)
    requires text != [] && IsTrimmed(text)
    ensures var s1 := Step(Initial(hasRecognizer), Intent(EditText(text))).state;
            var s2 := Step(s1, Intent(SubmitText)).state;
            var s3 := Step(s2, ReplyTimerFires).state;
            && s2.messages == [Greeting, Message(User, text)]
            && s2.textInput == []
            && s3.messages == [Greeting, Message(User, text), Message(Assistant, ReplyText(text))]
            && s3.pending == []
  {
    TrimKeepsTrimmed(text);
  }

  /** A blank text box cannot be submitted, and sending blank text changes
      nothing, not even the text box. */
  lemma BlankSubmitIgnored(hasRecognizer: bool, blank: string)
    requires AllWhitespace(blank)
    ensures var s1 := Step(Initial(hasRecognizer), Intent(EditText(blank))).state;
            && s1.textInput == blank
            && Step(s1, Intent(SubmitText)).state == s1
            && HandleSendMessage(s1, blank) == s1
  {
  }

  /** In voice mode, tapping the microphone asks the recognizer to start; the
      recognized phrase (say "book a flight") becomes a user message without
      any text submit, and the end of the session clears the listening flag. */
  lemma SpokenMessageIsSent(phrase: string)
    requires phrase != [] && IsTrimmed(phrase)
    ensures var s1 := Step(Initial(true), Intent(ToggleMode)).state;
            var tap := Step(s1, Intent(TapTalk));
            var s3 := Step(tap.state, Recognizer(OnStart)).state;
            var s4 := Step(s3, Recognizer(OnResult(phrase))).state;
            var s5 := Step(s4, Recognizer(OnEnd)).state;
            && s1.mode == Voice
            && tap.command == StartRecognition
            && s3.isListening
            && s4.messages == [Greeting, Message(User, phrase)]
            && s4.pending == [phrase]
            && !s5.isListening
  {
    TrimKeepsTrimmed(phrase);
  }

  /** A recognition error leaves the transcript as it was and stops
      listening. */
  lemma RecognitionErrorAddsNothing(reason: string)
    ensures var s1 := Step(Initial(true), Intent(ToggleMode)).state;
            var s2 := Step(s1, Intent(TapTalk)).state;
            var s3 := Step(s2, Recognizer(OnStart)).state;
            var s4 := Step(s3, Recognizer(OnError(reason))).state;
            && s3.isListening
            && s4.messages == [Greeting]
            && !s4.isListening
            && s4.mode == Voice
  {
  }

  /** In text mode and while not listening, typing a trimmed, non-blank
      text and submitting it appends it as a user message, clears the box and
      queues its reply. */
  lemma TypeAndSubmit(s: State, text: string)
    requires s.mode == Text && !s.isListening
    requires text != [] && IsTrimmed(text)
    ensures Step(Step(s, Intent(EditText(text))).state, Intent(SubmitText)).state
            == s.(messages := s.messages + [Message(User, text)], textInput := [],
                  pending := s.pending + [text])
  {
    TrimKeepsTrimmed(text);
  }

  /** Two quick submissions: both user messages come first, then the two
      replies in the order the messages were sent. */
  lemma RapidSubmissionsOrder(hasRecognizer: bool, a: string, b: string)
    requires a != [] && IsTrimmed(a) && b != [] && IsTrimmed(b)
    ensures var s1 := Step(Initial(hasRecognizer), Intent(EditText(a))).state;
            var s2 := Step(s1, Intent(SubmitText)).state;
            var s3 := Step(s2, Intent(EditText(b))).state;
            var s4 := Step(s3, Intent(SubmitText)).state;
            var s5 := Step(s4, ReplyTimerFires).state;
            var s6 := Step(s5, ReplyTimerFires).state;
            s6.messages == [Greeting, Message(User, a), Message(User, b),
                            Message(Assistant, ReplyText(a)), Message(Assistant, ReplyText(b))]
  {
    var s0 := Initial(hasRecognizer);
    TypeAndSubmit(s0, a);
    var s2 := Step(Step(s0, Intent(EditText(a))).state, Intent(SubmitText)).state;
    TypeAndSubmit(s2, b);
    var s4 := Step(Step(s2, Intent(EditText(b))).state, Intent(SubmitText)).state;
    assert s4.pending == [a, b];
    var s5 := Step(s4, ReplyTimerFires).state;
    assert s5.pending == [b];
  }

  /** Switching mode while listening asks the recognizer to stop, but the
      listening flag stays set until the recognizer reports the end. */
  lemma ToggleWhileListeningStopsLater()
    ensures var s1 := Step(Initial(true), Intent(ToggleMode)).state;
            var s2 := Step(s1, Intent(TapTalk)).state;
            var s3 := Step(s2, Recognizer(OnStart)).state;
            var toggle := Step(s3, Intent(ToggleMode));
            var s5 := Step(toggle.state, Recognizer(OnEnd)).state;
            && toggle.command == StopRecognition
            && toggle.state.mode == Text
            && toggle.state.isListening
            && !s5.isListening
  {
  }

  /** Switching to text mode after asking the recognizer to start but before
      it reports the start sends no stop, so the session then starts while
      the component is in text mode. */
  lemma ListeningInTextMode()
    ensures var s1 := Step(Initial(true), Intent(ToggleMode)).state;
            var tap := Step(s1, Intent(TapTalk));
            var toggle := Step(tap.state, Intent(ToggleMode));
            var s4 := Step(toggle.state, Recognizer(OnStart)).state;
            && tap.command == StartRecognition
            && toggle.command == NoCommand
            && s4.mode == Text
            && s4.isListening
  {
  }

  /** Without a recognizer the microphone button asks for nothing. */
  lemma NoRecognizerNoStart()
    ensures var s1 := Step(Initial(false), Intent(ToggleMode)).state;
            var tap := Step(s1, Intent(TapTalk));
            && s1.mode == Voice
            && tap.command == NoCommand
            && tap.state == s1
  {
  }
}
