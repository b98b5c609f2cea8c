/**
 Properties of the VoiceToText state machine over whole runs: the invariant
 every reachable state keeps, what it says about replies and their order,
 and the behaviour of individual handlers that the component promises.
 */
module Properties {
  import opened Trimming
  import opened Transcript
  import opened VoiceToText

  /** The conversation proper: the transcript without its opening greeting. */
  function Conversation(s: State): (r: seq<Message>)
    requires |s.messages| >= 1
  {
    s.messages[1..]
  }

  /** In every prefix of `conv`, replies never outnumber user messages. */
  ghost predicate RepliesNeverLead(conv: seq<Message>) {
    forall n :: 0 <= n <= |conv| ==>
      |Texts(conv[..n], Assistant)| <= |Texts(conv[..n], User)|
  }

  /** Every text is non-blank and trimmed, as the send guard leaves it. */
  predicate AllSendable(ts: seq<string>) {
    forall k :: 0 <= k < |ts| ==> ts[k] != [] && IsTrimmed(ts[k])
  }

  /** The invariant of every reachable state:
      - the transcript starts with the greeting;
      - without a recognizer the component never listens;
      - every user message is a non-blank, trimmed text;
      - the replies in the log, followed by the replies still pending, are
        exactly the replies to the user messages, in the same order;
      - at no point in the log did replies outnumber user messages. */
  ghost predicate Valid(s: State) {
    && |s.messages| >= 1
    && s.messages[0] == Greeting
    && (!s.hasRecognizer ==> !s.isListening)
    && AllSendable(Texts(Conversation(s), User))
    && Replies(Texts(Conversation(s), User))
       == Texts(Conversation(s), Assistant) + Replies(s.pending)
    && RepliesNeverLead(Conversation(s))
  }

  lemma InitialValid(hasRecognizer: bool)
    ensures Valid(Initial(hasRecognizer))
  {
    var s := Initial(hasRecognizer);
    assert Conversation(s) == [];
    assert forall n :: 0 <= n <= 0 ==> Conversation(s)[..n] == [];
  }

  /** The role that is not `who`. */
  function Other(who: Role): (r: Role)
    ensures r != who
  {
    if who == User then Assistant else User
  }

  /** Appending one message to the log appends it to the conversation and
      to the texts of its role; the texts of the other role stay as they
      were. */
  lemma ConversationAppend(s: State, m: Message, r: State)
    requires |s.messages| >= 1
    requires r.messages == s.messages + [m]
    ensures Conversation(r) == Conversation(s) + [m]
    ensures Texts(Conversation(r), m.role) == Texts(Conversation(s), m.role) + [m.content]
    ensures Texts(Conversation(r), Other(m.role)) == Texts(Conversation(s), Other(m.role))
  {
    assert Conversation(r) == Conversation(s) + [m];
    TextsAppend(Conversation(s), m, m.role);
    TextsAppend(Conversation(s), m, Other(m.role));
  }

  /** Appending a message keeps replies from leading, provided that a reply
      is appended only while some user message is still unanswered. */
  lemma {:induction false} AppendKeepsOrder(conv: seq<Message>, m: Message)
    requires RepliesNeverLead(conv)
    requires m.role == Assistant ==> |Texts(conv, Assistant)| < |Texts(conv, User)|
    ensures RepliesNeverLead(conv + [m])
  {
    var c := conv + [m];
    forall n | 0 <= n <= |c|
      ensures |Texts(c[..n], Assistant)| <= |Texts(c[..n], User)|
    {
      if n <= |conv| {
        assert c[..n] == conv[..n];
      } else {
        assert c[..n] == c;
        assert conv[..|conv|] == conv;
        TextsAppend(conv, m, Assistant);
        TextsAppend(conv, m, User);
      }
    }
  }

  /** The replies to a sequence of texts extended by one more text. */
  lemma RepliesAppend(ts: seq<string>, t: string)
    ensures Replies(ts + [t]) == Replies(ts) + [ReplyText(t)]
  {
  }

  /** The replies to a non-empty sequence of texts start with the reply to
      its first text. */
  lemma RepliesFirst(ts: seq<string>)
    requires ts != []
    ensures Replies(ts) == [ReplyText(ts[0])] + Replies(ts[1..])
  {
  }

  /** Associativity of concatenation, stated on its own so that the
      invariant proofs below stay within the solver's resource limit. */
  lemma AppendAssociative<T>(a: seq<T>, b: seq<T>, c: seq<T>)
    ensures a + (b + c) == (a + b) + c
  {
  }

  /** An accepted send adds its trimmed text to the conversation's user
      messages and to the pending queue, and leaves the replies alone. */
  lemma SendTexts(s: State, content: string)
    requires |s.messages| >= 1 && Trim(content) != []
    ensures var r := HandleSendMessage(s, content);
            && Conversation(r) == Conversation(s) + [Message(User, Trim(content))]
            && Texts(Conversation(r), User) == Texts(Conversation(s), User) + [Trim(content)]
            && Texts(Conversation(r), Assistant) == Texts(Conversation(s), Assistant)
            && r.pending == s.pending + [Trim(content)]
  {
    ConversationAppend(s, Message(User, Trim(content)), HandleSendMessage(s, content));
  }

  /** A text sent after `users` has its reply queued after `pending`, so
      the replies still match. */
  lemma SendKeepsMatch(users: seq<string>, replies: seq<string>, pending: seq<string>, t: string)
    requires Replies(users) == replies + Replies(pending)
    ensures Replies(users + [t]) == replies + Replies(pending + [t])
  {
    RepliesAppend(users, t);
    RepliesAppend(pending, t);
    AppendAssociative(replies, Replies(pending), [ReplyText(t)]);
  }

  /** Appending a non-blank, trimmed text keeps every text sendable. */
  lemma SendableAppend(ts: seq<string>, t: string)
    requires AllSendable(ts) && t != [] && IsTrimmed(t)
    ensures AllSendable(ts + [t])
  {
  }

  lemma SendPreservesValid(s: State, content: string)
    requires Valid(s)
    ensures Valid(HandleSendMessage(s, content))
  {
    if Trim(content) != [] {
      var t := Trim(content);
      SendTexts(s, content);
      AppendKeepsOrder(Conversation(s), Message(User, t));
      var users := Texts(Conversation(s), User);
      SendableAppend(users, t);
      SendKeepsMatch(users, Texts(Conversation(s), Assistant), s.pending, t);
    }
  }

  /** Firing a reply timer adds the reply of the oldest pending text to the
      conversation's replies and leaves its user messages alone. */
  lemma FireReplyTexts(s: State)
    requires |s.messages| >= 1 && s.pending != []
    ensures Conversation(FireReply(s)) == Conversation(s) + [Message(Assistant, ReplyText(s.pending[0]))]
    ensures Texts(Conversation(FireReply(s)), User) == Texts(Conversation(s), User)
    ensures Texts(Conversation(FireReply(s)), Assistant)
            == Texts(Conversation(s), Assistant) + [ReplyText(s.pending[0])]
  {
    ConversationAppend(s, Message(Assistant, ReplyText(s.pending[0])), FireReply(s));
  }

  lemma FireReplyPreservesValid(s: State)
    requires Valid(s)
    ensures Valid(FireReply(s))
  {
    if s.pending != [] {
      var r := FireReply(s);
      var m := Message(Assistant, ReplyText(s.pending[0]));
      FireReplyTexts(s);
      ReplyCount(s);
      AppendKeepsOrder(Conversation(s), m);
      var users := Texts(Conversation(s), User);
      var replies := Texts(Conversation(s), Assistant);
      RepliesFirst(s.pending);
      AppendAssociative(replies, [m.content], Replies(r.pending));
    }
  }

  /** Every event keeps the invariant. */
  lemma StepPreservesValid(s: State, e: Event)
    requires Valid(s)
    ensures Valid(Step(s, e).state)
  {
    match e
    case Intent(SubmitText) =>
      if SubmitEnabled(s) {
        SendPreservesValid(s, s.textInput);
      }
    case Recognizer(OnResult(t)) =>
      if s.hasRecognizer {
        SendPreservesValid(s, t);
      }
    case ReplyTimerFires =>
      FireReplyPreservesValid(s);
    case _ =>
      assert Conversation(Step(s, e).state) == Conversation(s);
  }

  /** Every run keeps the invariant. */
  lemma {:induction false} RunPreservesValid(s: State, events: seq<Event>)
    requires Valid(s)
    ensures Valid(Run(s, events))
    decreases |events|
  {
    if events != [] {
      StepPreservesValid(s, events[0]);
      RunPreservesValid(Step(s, events[0]).state, events[1..]);
    }
  }

  /** A state the component can be in after mounting and any events. */
  ghost predicate Reachable(s: State) {
    exists hasRecognizer: bool, events: seq<Event> :: s == Run(Initial(hasRecognizer), events)
  }

  lemma ReachableIsValid(s: State)
    requires Reachable(s)
    ensures Valid(s)
  {
    var hasRecognizer: bool, events: seq<Event> :| s == Run(Initial(hasRecognizer), events);
    InitialValid(hasRecognizer);
    RunPreservesValid(Initial(hasRecognizer), events);
  }

  /** Without a speech recognizer the component never listens, whatever
      happens. */
  lemma NoRecognizerNeverListens(events: seq<Event>)
    ensures !Run(Initial(false), events).isListening
  {
    InitialValid(false);
    RunPreservesValid(Initial(false), events);
  }

  /** In a valid state the replies in the log and the pending queue together
      are as many as the user messages. */
  lemma {:induction false} ReplyCount(s: State)
    requires Valid(s)
    ensures |Texts(Conversation(s), User)|
            == |Texts(Conversation(s), Assistant)| + |s.pending|
  {
    assert |Replies(Texts(Conversation(s), User))|
           == |Texts(Conversation(s), Assistant) + Replies(s.pending)|;
  }

  /** When the replies to `users` are `replies` followed by the replies to
      `pending`, the k-th text of `users` is answered by `replies[k]` or, past
      the end of `replies`, is the matching entry of `pending`. */
  lemma MatchedReplies(users: seq<string>, replies: seq<string>, pending: seq<string>)
    requires Replies(users) == replies + Replies(pending)
    ensures |users| == |replies| + |pending|
    ensures forall k :: 0 <= k < |users| ==>
              if k < |replies| then replies[k] == ReplyText(users[k])
              else pending[k - |replies|] == users[k]
  {
    assert |Replies(users)| == |replies + Replies(pending)|;
    forall k | 0 <= k < |users|
      ensures if k < |replies| then replies[k] == ReplyText(users[k])
              else pending[k - |replies|] == users[k]
    {
      assert Replies(users)[k] == (replies + Replies(pending))[k];
      if k >= |replies| {
        ReplyTextInjective(pending[k - |replies|], users[k]);
      }
    }
  }

  /** Every user message has exactly one reply: the k-th user message is
      answered either by the k-th reply in the log, or, once the log's
      replies run out, by the matching entry of the pending queue. */
  lemma OneReplyPerUserMessage(s: State)
    requires Valid(s)
    ensures var users := Texts(Conversation(s), User);
            var replies := Texts(Conversation(s), Assistant);
            && |users| == |replies| + |s.pending|
            && forall k :: 0 <= k < |users| ==>
                 if k < |replies| then replies[k] == ReplyText(users[k])
                 else s.pending[k - |replies|] == users[k]
  {
    MatchedReplies(Texts(Conversation(s), User), Texts(Conversation(s), Assistant), s.pending);
  }

  /** In a log where replies never lead, the reply at position `p` is the
      `k`-th reply, where `k` counts the replies before it, and the `k`-th
      user message already lies before it. */
  lemma {:induction false} ReplyAtPosition(conv: seq<Message>, p: nat)
    requires RepliesNeverLead(conv)
    requires p < |conv| && conv[p].role == Assistant
    ensures var before := conv[..p];
            var k := |Texts(before, Assistant)|;
            && k < |Texts(before, User)|
            && k < |Texts(conv, Assistant)|
            && Texts(conv, Assistant)[k] == conv[p].content
            && k < |Texts(conv, User)|
            && Texts(conv, User)[k] == Texts(before, User)[k]
  {
    var before := conv[..p];
    var m := conv[p];
    var k := |Texts(before, Assistant)|;
    var upto := conv[..p + 1];
    assert upto == before + [m];
    TextsAppend(before, m, Assistant);
    TextsAppend(before, m, User);
    assert |Texts(upto, Assistant)| <= |Texts(upto, User)|;
    assert conv == upto + conv[p + 1..];
    TextsPrefix(upto, conv[p + 1..], Assistant);
    assert Texts(upto, Assistant)[k] == m.content;
    assert before + conv[p..] == conv;
    TextsPrefix(before, conv[p..], User);
  }

  /** The reply at position `p` of the conversation, the `k`-th reply, answers
      the `k`-th user message, and that user message comes before it. */
  lemma ReplyFollowsItsRequest(s: State, p: nat)
    requires Valid(s)
    requires p < |Conversation(s)| && Conversation(s)[p].role == Assistant
    ensures var before := Conversation(s)[..p];
            var k := |Texts(before, Assistant)|;
            && k < |Texts(before, User)|
            && Conversation(s)[p].content == ReplyText(Texts(before, User)[k])
  {
    ReplyAtPosition(Conversation(s), p);
    OneReplyPerUserMessage(s);
  }

  /** The texts of a log are a prefix of the texts of any extension of it. */
  lemma {:induction false} TextsPrefix(log: seq<Message>, more: seq<Message>, who: Role)
    ensures Texts(log, who) <= Texts(log + more, who)
    decreases |more|
  {
    if more == [] {
      assert log + more == log;
    } else {
      var init := more[..|more| - 1];
      var last := more[|more| - 1];
      assert log + more == (log + init) + [last];
      TextsPrefix(log, init, who);
      TextsAppend(log + init, last, who);
    }
  }

  /** The run that fires every pending reply timer. */
  function FireAll(n: nat): (events: seq<Event>) {
    seq(n, _ => ReplyTimerFires)
  }

  /** Once the pending timers have fired, every user message has its reply,
      in order, and nothing is pending. */
  lemma {:induction false} AllRepliesArrive(s: State)
    requires Valid(s)
    ensures var r := Run(s, FireAll(|s.pending|));
            && r.pending == []
            && Replies(Texts(Conversation(r), User)) == Texts(Conversation(r), Assistant)
    decreases |s.pending|
  {
    var r := Run(s, FireAll(|s.pending|));
    if s.pending == [] {
      assert r == s;
      assert Texts(Conversation(s), Assistant) + [] == Texts(Conversation(s), Assistant);
    } else {
      var events := FireAll(|s.pending|);
      var s1 := Step(s, ReplyTimerFires).state;
      assert events[1..] == FireAll(|s1.pending|);
      FireReplyPreservesValid(s);
      AllRepliesArrive(s1);
    }
  }

  /** The pending queue holds exactly the user messages not answered yet,
      oldest first. */
  lemma {:induction false} PendingAreUnanswered(s: State)
    requires Valid(s)
    ensures var users := Texts(Conversation(s), User);
            var answered := |Texts(Conversation(s), Assistant)|;
            answered <= |users| && s.pending == users[answered..]
  {
    var users := Texts(Conversation(s), User);
    var replies := Texts(Conversation(s), Assistant);
    MatchedReplies(users, replies, s.pending);
    var a := |replies|;
    forall k | 0 <= k < |s.pending| ensures s.pending[k] == users[a + k] {
      assert a + k < |users|;
    }
  }

  /** Toggling the input mode twice gives back the original state. */
  lemma ToggleTwiceRestores(s: State)
    ensures ToggleInputMode(ToggleInputMode(s).state).state == s
  {
  }

  /** Submitting the text form changes the state exactly when the submit
      button is enabled, and then it appends the trimmed text box as a user
      message and clears the box. */
  lemma SubmitActsIffEnabled(s: State)
    ensures var r := Step(s, Intent(SubmitText));
            && (r.state != s <==> SubmitEnabled(s))
            && r.command == NoCommand
            && (SubmitEnabled(s) ==>
                  r.state.messages == s.messages + [Message(User, Trim(s.textInput))]
                  && r.state.textInput == [])
  {
  }

  /** A recognized transcript is handled exactly like a sent message,
      including clearing the text box. */
  lemma ResultActsAsSend(s: State, t: string)
    requires s.hasRecognizer
    ensures Step(s, Recognizer(OnResult(t))) == Effect(HandleSendMessage(s, t), NoCommand)
  {
  }
}
