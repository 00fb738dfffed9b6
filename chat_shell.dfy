/**
 * The full-page chat: the same submit-then-reply machine as the widget, except
 * that the reply is a fixed template chosen by the visitor's access level, and a
 * "new chat" action that restores the demo conversation.
 */
module ChatShell {
  import opened Text
  import opened Conversation
  import opened AuthState

  /** The reply template for each access level. */
  function StatusMessage(status: Status): string {
    match status
    case Guest =>
      "Still collecting historical moon-phase data. \U{1F4AB}\n" +
      "Leave your e-mail or grab an Early-Bird pass " +
      "to get first access!"
    case Waitlist =>
      "Thanks for joining our waitlist! " +
      "You'll be among the first to access our full features once they're ready.\n" +
      "Upgrade to Early-Bird for immediate access."
    case Paid =>
      "Welcome to Vibe Trading! " +
      "I'm your AI trading assistant. " +
      "How can I help you today?"
  }

  /** The demo conversation the page starts with and returns to. */
  const SampleMessages: seq<Message> := [
    Message(User, "buy the dip on BTC if the moon looks right"),
    Message(Assistant,
      "I'll help you create a strategy based on your idea. Here's a simple pseudocode:\n\n" +
      "```python\n" +
      "def moon_based_btc_strategy(btc_price, moon_phase):\n" +
      "    # Check if moon is in the right phase (e.g., new moon)\n" +
      "    if moon_phase == 'new' or moon_phase == 'waxing_crescent':\n" +
      "        # Check if BTC is in a dip (e.g., below 5-day moving average)\n" +
      "        if btc_price < calculate_moving_average(btc_price_history, days=5):\n" +
      "            # Buy signal\n" +
      "            return 'BUY'\n" +
      "    \n" +
      "    # No signal\n" +
      "    return 'HOLD'\n" +
      "```\n\n" +
      "This is just a starting point. " +
      "We would need to define what 'the moon looks right' means in more specific terms and how to detect a 'dip' in BTC price.")
  ]

  /** Whether the stand-alone status bubble is shown under the conversation. */
  predicate ShowStatusBubble(isTyping: bool, status: Status, messages: seq<Message>) {
    !isTyping && status != Paid && |messages| > 0 && messages[|messages| - 1].role != Assistant
  }

  /** A scheduled reply: the list as it was at submit, and the access level the submit saw. */
  datatype Timer = Timer(snapshot: seq<Message>, status: Status)

  /** Every pending reply goes after a user message. */
  ghost predicate AwaitsReply(t: Timer) {
    t.snapshot != [] && t.snapshot[|t.snapshot| - 1].role == User
  }

  class Shell {
    var status: Status
    var messages: seq<Message>
    var input: string
    var isTyping: bool
    /** Scheduled replies that have not fired yet, oldest first. */
    var timers: seq<Timer>

    ghost predicate Valid()
      reads this
    {
      (isTyping ==> timers != []) && forall k :: 0 <= k < |timers| ==> AwaitsReply(timers[k])
    }

    constructor (status: Status)
      ensures Valid()
      ensures this.status == status && messages == SampleMessages && input == []
      ensures !isTyping && timers == []
    {
      this.status := status;
      messages := SampleMessages;
      input := [];
      isTyping := false;
      timers := [];
    }

    /** The textarea's change handler. */
    method SetInput(text: string)
      requires Valid()
      modifies this`input
      ensures Valid() && input == text
    {
      input := text;
    }

    /** The shared access level changes (the wait-list form or a payment). */
    method SetStatus(s: Status)
      requires Valid()
      modifies this`status
      ensures Valid() && status == s
    {
      status := s;
    }

    /** `handleSubmit`: a blank input is ignored; otherwise the user message is appended and a reply scheduled. */
    method Submit()
      requires Valid()
      modifies this
      ensures Valid()
      ensures AllSpace(old(input)) ==> unchanged(this)
      ensures !AllSpace(old(input)) ==>
        && messages == old(messages) + [Message(User, old(input))]
        && input == [] && isTyping && status == old(status)
        && timers == old(timers) + [Timer(messages, old(status))]
    {
      if Trim(input) == [] {
        return;
      }
      var newMessages := messages + [Message(User, input)];
      messages := newMessages;
      input := [];
      isTyping := true;
      timers := timers + [Timer(newMessages, status)];
    }

    /**
     * The oldest timer fires: the list becomes its snapshot plus the template of the
     * access level seen at submit; the text the visitor typed plays no part.
     */
    method TimerFires()
      requires Valid() && timers != []
      modifies this
      ensures Valid()
      ensures messages == old(timers[0].snapshot) + [Message(Assistant, StatusMessage(old(timers[0].status)))]
      ensures !isTyping && timers == old(timers[1..]) && input == old(input) && status == old(status)
    {
      var timer := timers[0];
      timers := timers[1..];
      isTyping := false;
      messages := timer.snapshot + [Message(Assistant, StatusMessage(timer.status))];
    }

    /** `handleNewChat`: back to the demo conversation, whatever was there. */
    method NewChat()
      requires Valid()
      modifies this`messages
      ensures Valid() && messages == SampleMessages
    {
      messages := SampleMessages;
    }

    /** The status bubble under the current conversation. */
    function StatusBubbleShown(): (b: bool)
      reads this
      ensures b ==> status != Paid && !isTyping && messages != []
    {
      ShowStatusBubble(isTyping, status, messages)
    }
  }

  /** The demo conversation ends with the assistant, so it never shows the status bubble. */
  lemma SamplesHideBubble(isTyping: bool, status: Status)
    ensures !ShowStatusBubble(isTyping, status, SampleMessages)
  {
  }

  /** After a user message and with no reply pending, the bubble shows exactly for guests and wait-listed visitors. */
  lemma BubbleAfterUserMessage(status: Status, messages: seq<Message>, text: string)
    ensures ShowStatusBubble(false, status, messages + [Message(User, text)]) <==> status != Paid
  {
  }

  /** A reply, whatever its text, hides the bubble; a pending reply hides it too. */
  lemma ReplyHidesBubble(snapshot: seq<Message>, reply: string, status: Status, isTyping: bool)
    ensures !ShowStatusBubble(isTyping, status, snapshot + [Message(Assistant, reply)])
    ensures !ShowStatusBubble(true, status, snapshot)
  {
  }

  /**
   * A reply pending when the visitor starts a new chat still arrives, and replaces the
   * restored demo conversation with the old one plus the reply.
   */
  method PendingReplyUndoesNewChat(s: Shell, text: string)
    requires s.Valid() && s.timers == [] && !AllSpace(text)
    modifies s
    ensures s.messages == old(s.messages) + [Message(User, text)] + [Message(Assistant, StatusMessage(old(s.status)))]
    ensures !s.isTyping && s.timers == []
  {
    ghost var m0, st := s.messages, s.status;
    ghost var pending := Timer(m0 + [Message(User, text)], st);
    s.SetInput(text);
    s.Submit();
    assert s.timers == [pending];
    s.NewChat();
    assert s.timers == [pending];
    s.TimerFires();
    assert s.messages == pending.snapshot + [Message(Assistant, StatusMessage(st))];
  }
}
