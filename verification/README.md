# VoiceToText chat state machine, in Dafny

This project models the input and chat logic of the `VoiceToText` React
component (`src/components/VoiceToText.tsx`). The component is a single-page
chat. The user either types a message or speaks one through the browser's
speech recognizer. Each accepted message is appended to the transcript, and a
simulated assistant reply follows one second later.

The component's state is one immutable record, `VoiceToText.State`. It holds:

- the transcript;
- the text box;
- the `isListening` flag;
- the input mode (text or voice);
- whether a recognizer exists;
- the replies whose timers are still running.

Every handler is a pure function of that record. A handler that calls the
recognizer's `start()` or `stop()` also returns that call as a `Command`.
The environment drives the machine with `Event`s:

- user intents: typing, submitting the form, tapping the microphone, switching mode;
- the recognizer callbacks `onstart`, `onresult`, `onerror` and `onend`;
- a reply timer firing.

`Step` delivers one event. It honours what the page lets through: the text
box exists only in text mode and is disabled while listening, and the submit
button is disabled unless the trimmed text is non-empty. `Run` delivers a
sequence of events. Recognizer callbacks may arrive in any order, so every
property proved over runs holds for any recognizer behaviour.

Files:

- `trimming.dfy`: ECMAScript's `String.prototype.trim`, with the white-space
  and line-terminator characters of sections 12.2 and 12.3 of ECMA-262.
- `transcript.dfy`: messages, the greeting, the reply template, and the views
  of the log by role.
- `voice_to_text.dfy`: the state, the handlers, `Step` and `Run`.
- `properties.dfy`: the invariant `Valid` that every reachable state keeps, and
  the properties that follow from it.
- `scenarios.dfy`: concrete conversations.

The invariant `Valid` says:

- the log starts with the greeting;
- without a recognizer the component never listens;
- every user message is non-blank and trimmed;
- the replies in the log, followed by the replies still pending, are exactly
  the replies to the user messages, in order;
- in no prefix of the conversation after the greeting do replies outnumber
  user messages.

Four points about the code shape the model:

- Message ids come from `Date.now()`. They are not guaranteed unique, so ids
  are not modelled and no uniqueness is claimed.
- Switching mode only *asks* the recognizer to stop, and only when
  `isListening` is already set. A start requested before the switch still
  takes effect afterwards. So a listening session can outlive a mode switch
  (`Scenarios.ListeningInTextMode`).
- `startVoiceRecording` itself does not check the mode. Only the page's
  rendering confines the microphone button to voice mode, and `Step` models
  that.
- Each send schedules an independent one-second timer. The model answers
  pending sends oldest first. That order follows from the equal delays and
  is a modelling assumption, not something the code enforces. Two quick
  sends therefore give `[user A, user B, reply A, reply B]`.

## Model

| member | source | states |
|---|---|---|
| Trimming.TrimStart | src/components/VoiceToText.tsx:77 | the result is the suffix of the input left after the leading white space: every dropped character is white space and the result does not start with one |
| Trimming.TrimEnd | src/components/VoiceToText.tsx:77 | the result is the prefix left after the trailing white space: every dropped character is white space and the result does not end with one |
| Trimming.Trim | src/components/VoiceToText.tsx:77 | the trimmed text has no white space at either end, and it is empty exactly when every input character is white space (the blank-input guard) |
| Trimming.TrimUnique | src/components/VoiceToText.tsx:82 | independent characterisation: any slice with only white space around it and kept characters at its ends is exactly what trim returns |
| Trimming.TrimKeepsTrimmed | src/components/VoiceToText.tsx:82 | a text with no white space at its ends is its own trim |
| Trimming.TrimIdempotent | src/components/VoiceToText.tsx:82 | trimming an already trimmed text changes nothing |
| Trimming.TrimIsSlice | src/components/VoiceToText.tsx:82 | trim only removes characters at the two ends: the result is a contiguous slice of the input |
| Transcript.ReplyTextInjective | src/components/VoiceToText.tsx:94 | the reply template names the text it answers: two texts with the same reply are equal |
| VoiceToText.Initial | src/components/VoiceToText.tsx:17-28 | after mounting, the log is just the assistant greeting, the text box is empty, the component is not listening, the mode is text and no reply is pending |
| VoiceToText.HandleSendMessage | src/components/VoiceToText.tsx:76-99 | blank content leaves the whole state unchanged, text box included; otherwise exactly one user message with the trimmed content is appended after the unchanged old log, the text box is cleared and exactly one reply is scheduled |
| VoiceToText.FireReply | src/components/VoiceToText.tsx:89-98 | a firing timer appends exactly one assistant message built from the template around the oldest pending text; earlier messages and all other fields are unchanged |
| VoiceToText.StartVoiceRecording | src/components/VoiceToText.tsx:101-105 | the recognizer is asked to start if and only if it exists and the component is not listening; never a stop; the state is unchanged |
| VoiceToText.StopVoiceRecording | src/components/VoiceToText.tsx:107-111 | the recognizer is asked to stop if and only if it exists and the component is listening; never a start; the state is unchanged |
| VoiceToText.HandleTextSubmit | src/components/VoiceToText.tsx:113-116 | submitting a blank text box changes nothing; otherwise the trimmed text is appended as a user message, the box is cleared, its reply is queued and nothing else changes |
| VoiceToText.ToggleInputMode | src/components/VoiceToText.tsx:118-123 | the mode flips and nothing else in the state changes, `isListening` included; a stop is requested exactly when a recognizer exists and is listening |
| VoiceToText.OnRecognizerEvent | src/components/VoiceToText.tsx:41-60 | after the callback the component is listening exactly on `onstart`, or on `onresult` when it already was; `onstart`, `onerror` and `onend` change nothing but the listening flag; a blank result changes nothing; any other result appends the trimmed transcript as a user message, clears the text box, queues its reply and changes nothing else |
| VoiceToText.Step | src/components/VoiceToText.tsx:41-123 | every event keeps the old log as a prefix and adds at most one message; only `onstart` raises the listening flag and only `onerror`/`onend` lower it; only the toggle changes the mode; the text box changes only by typing, or is cleared when a user message is added; typing is ignored in voice mode or while listening; a tap outside voice mode does nothing; start and stop requests respect their guards; conversely a delivered `onstart` sets the flag, a delivered `onerror`/`onend` clears it, and a tap in voice mode with a recognizer always reaches it |
| VoiceToText.Run | src/components/VoiceToText.tsx:86-97 | over any run the log is append-only: the old log is a prefix of the new one, at most one message per event |
| Properties.InitialValid | src/components/VoiceToText.tsx:17-28 | the state after mounting satisfies the invariant |
| Properties.SendPreservesValid | src/components/VoiceToText.tsx:76-99 | sending keeps the invariant: the new user message is trimmed and non-blank and its reply joins the pending queue |
| Properties.FireReplyPreservesValid | src/components/VoiceToText.tsx:89-98 | a firing timer keeps the invariant: the reply moves from the queue to the log, after its request |
| Properties.StepPreservesValid | src/components/VoiceToText.tsx:41-123 | every event keeps the invariant |
| Properties.RunPreservesValid | src/components/VoiceToText.tsx:41-123 | every run of events keeps the invariant |
| Properties.ReachableIsValid | src/components/VoiceToText.tsx:16-123 | every state reachable from mounting satisfies the invariant |
| Properties.NoRecognizerNeverListens | src/components/VoiceToText.tsx:31-63 | without a speech recognizer, `isListening` stays false after any sequence of events |
| Properties.OneReplyPerUserMessage | src/components/VoiceToText.tsx:89-98 | in a valid state the k-th user message is answered by the k-th reply in the log or, past the log's replies, is the matching entry of the pending queue; the counts agree |
| Properties.MatchedReplies | src/components/VoiceToText.tsx:89-98 | when the replies to the user texts are the logged replies followed by the replies to the pending texts, each user text is matched one to one with its logged reply or its pending entry |
| Properties.ReplyFollowsItsRequest | src/components/VoiceToText.tsx:86-97 | the k-th reply in the log answers the k-th user message, and that message comes before it |
| Properties.PendingAreUnanswered | src/components/VoiceToText.tsx:89-98 | the pending queue is exactly the user messages not yet answered, oldest first |
| Properties.AllRepliesArrive | src/components/VoiceToText.tsx:89-98 | once every pending timer has fired, nothing is pending and the replies in the log are the replies to all user messages, in order |
| Properties.ToggleTwiceRestores | src/components/VoiceToText.tsx:118-123 | toggling the mode twice restores the original state |
| Properties.SubmitActsIffEnabled | src/components/VoiceToText.tsx:206-218 | a form submit changes the state if and only if the submit button is enabled (text mode, non-blank box, not listening); it then appends the trimmed box and clears it |
| Properties.ResultActsAsSend | src/components/VoiceToText.tsx:46-50 | with a recognizer, a recognition result is handled exactly like sending its transcript, clearing the text box included |
| Scenarios.TypedMessageGetsReply | src/components/VoiceToText.tsx:76-98 | typing any trimmed non-blank text (e.g. "Hello") and submitting gives [greeting, user text] with the box cleared; the timer then adds the templated reply and nothing is pending |
| Scenarios.BlankSubmitIgnored | src/components/VoiceToText.tsx:77 | a blank text box cannot be submitted and sending blank text changes nothing |
| Scenarios.SpokenMessageIsSent | src/components/VoiceToText.tsx:41-60 | in voice mode a tap requests a start; the recognized phrase becomes a user message with its reply scheduled; the end clears the listening flag |
| Scenarios.RecognitionErrorAddsNothing | src/components/VoiceToText.tsx:52-55 | a recognition error leaves the log as the greeting alone and stops listening |
| Scenarios.TypeAndSubmit | src/components/VoiceToText.tsx:76-88 | in text mode and while not listening, typing a trimmed non-blank text and submitting it appends it as a user message, clears the box, queues its reply and changes nothing else |
| Scenarios.RapidSubmissionsOrder | src/components/VoiceToText.tsx:86-98 | two quick sends give [greeting, user A, user B, reply A, reply B] |
| Scenarios.ToggleWhileListeningStopsLater | src/components/VoiceToText.tsx:118-123 | a toggle while listening requests a stop and switches to text mode, but the component listens until the recognizer ends |
| Scenarios.ListeningInTextMode | src/components/VoiceToText.tsx:101-123 | a start requested before a switch to text mode sends no stop, so the session starts in text mode |
| Scenarios.NoRecognizerNoStart | src/components/VoiceToText.tsx:101-105 | without a recognizer, tapping the microphone requests nothing and changes nothing |

## Left out

- Rendering, CSS classes and icons (`src/components/VoiceToText.tsx:133-261`). They are presentation and carry no invariants. Only the enabling guards of the text box, the submit button and the microphone button are kept, in `Step`.
- The auto-scroll effect (`src/components/VoiceToText.tsx:66-74`). It is DOM manipulation.
- `formatTime` (`src/components/VoiceToText.tsx:125-131`). It depends on the platform's locale and clock formatting.
- Message ids and timestamps (`src/components/VoiceToText.tsx:80, 83, 92, 95`). They come from the clock and `Date.now()` is not unique. They are dropped from `Message`.
- The speech engine, the browser capability probe (`src/components/VoiceToText.tsx:33-35`) and the recognizer settings (`src/components/VoiceToText.tsx:37-39`). A boolean `hasRecognizer` stands for the probe. The callbacks arrive as events in any order. Because the recognizer is non-continuous with no interim results, a result carries one final transcript.
- The reason carried by `onerror`. It is only logged.
- `setTimeout` timing. Pending replies form a queue that `ReplyTimerFires` answers oldest first.
- `console.log`/`console.error`, React render batching and closure capture. Every handler's state updates are applied at once, in order.
- UTF-16 code units. JavaScript strings are UTF-16 code units, while a Dafny `string` is a sequence of Unicode scalar values. Every character trim removes is a single code unit of the Basic Multilingual Plane, so the two agree on well-formed text; strings with lone surrogates cannot be represented.
- Unicode versions. The white-space set is the ECMA-262 one with the category Zs of Unicode 15. Later Unicode versions could add characters to Zs.
- A failing reply generator. The source simulates replies and has no failure path.
