/**
 The chat transcript of the VoiceToText component: its messages, the fixed
 greeting it starts with, the templated simulated reply, and views of the
 log by role.
 */
module Transcript {

  /** Who wrote a message (the `type` field of the component's Message). */
  datatype Role = User | Assistant

  /** One transcript entry. The source also stamps each message with an id and a
      timestamp taken from the clock; both are left out of this model. */
  datatype Message = Message(role: Role, content: string)

  /** The assistant message the transcript starts with. */
  const GreetingText: string :=
    "Hello! I can help you with voice or text messages. Try speaking or typing your message."
  const Greeting: Message := Message(Assistant, GreetingText)

  const ReplyPrefix: string := "I received your message: \""
  const ReplySuffix: string :=
    "\". This is a simulated response. In a real application, this would be processed by an AI assistant."

  /** The simulated assistant reply to the (trimmed) user text `t`. */
  function ReplyText(t: string): (r: string) {
    ReplyPrefix + t + ReplySuffix
  }

  /** A reply names the text it answers: different texts get different replies. */
  lemma ReplyTextInjective(t: string, u: string)
    requires ReplyText(t) == ReplyText(u)
    ensures t == u
  {
    var n := |ReplyPrefix|;
    assert |t| == |u|;
    assert t == ReplyText(t)[n..n + |t|];
    assert u == ReplyText(u)[n..n + |u|];
  }

  /** The contents of the messages of role `who` in `log`, oldest first. */
  function Texts(log: seq<Message>, who: Role): (r: seq<string>)
    ensures |r| <= |log|
  {
    if log == [] then []
    else
      var last := log[|log| - 1];
      Texts(log[..|log| - 1], who) + (if last.role == who then [last.content] else [])
  }

  /** Appending one message extends the view of its own role by its content
      and leaves the view of the other role as it was. */
  lemma TextsAppend(log: seq<Message>, m: Message, who: Role)
    ensures Texts(log + [m], who)
         == Texts(log, who) + (if m.role == who then [m.content] else [])
  {
    assert (log + [m])[..|log|] == log;
  }

  /** Applies the reply template to every text of a sequence. */
  function Replies(ts: seq<string>): (r: seq<string>) {
    seq(|ts|, k requires 0 <= k < |ts| => ReplyText(ts[k]))
  }
}
