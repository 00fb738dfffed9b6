/**
 * The landing page's chat-intake widget: a reply classifier (an address in the
 * message, else one of eight project keywords, else a nudge) and the
 * submit / reply state machine around it. The 1500 ms typing delay is an explicit
 * `TimerFires` event; every submit schedules its own timer and, all delays being
 * equal, timers fire in the order they were scheduled.
 */
module ChatWidget {
  import opened Wrappers
  import opened Text
  import opened EmailPattern
  import opened Conversation
  import opened MessageBubble

  const Welcome: string :=
    "\U{1F44B} Welcome to Vibe Trading!\n\n" +
    "We're building an innovative algorithmic trading platform " +
    "that uses market sentiment analysis to identify opportunities.\n\n" +
    "\U{2728} Please type your email address in this chat " +
    "to join our waitlist and get notified when we launch! \U{2728}\n\n" +
    "I can also tell you more about our project " +
    "if you have questions."

  /** The four features the project reply lists (each written as its first word and the rest). */
  const ProjectInfoItems: seq<string> := [
    "Advanced" + " algorithmic trading strategies based on market sentiment",
    "Real-time" + " analysis of social media and news sources",
    "User-friendly" + " interface with customizable trading parameters",
    "Secure" + " API integrations with major exchanges"
  ]

  /** Each feature starts and ends with a letter. */
  lemma FeatureEnds(k: nat)
    requires k < |ProjectInfoItems|
    ensures var item := ProjectInfoItems[k];
      item != [] && 'A' <= item[0] <= 'Z' && 'a' <= item[|item| - 1] <= 'z'
  {
    var item := ProjectInfoItems[k];
    if k == 0 {
      assert |item| == 65 && item[0] == 'A' && item[64] == 't';
    } else if k == 1 {
      assert |item| == 51 && item[0] == 'R' && item[50] == 's';
    } else if k == 2 {
      assert |item| == 60 && item[0] == 'U' && item[59] == 's';
    } else {
      assert |item| == 44 && item[0] == 'S' && item[43] == 's';
    }
  }

  /** The project reply, its four feature lines marked with `mark`. */
  function ProjectInfoWith(mark: string): string {
    "Vibe Trading is currently in development. " +
    "Here's what we're working on:\n\n" +
    mark + " " + ProjectInfoItems[0] + "\n" +
    mark + " " + ProjectInfoItems[1] + "\n" +
    mark + " " + ProjectInfoItems[2] + "\n" +
    mark + " " + ProjectInfoItems[3] + "\n\n" +
    "Our platform is designed to help both beginners and experienced traders " +
    "make more informed decisions based on market sentiment."
  }

  /**
   * The mark the component file actually holds: the UTF-8 bytes of U+2022 read
   * back as Windows-1252 characters.
   */
  const MisencodedBullet: string := "\U{E2}\U{20AC}\U{A2}"

  const ProjectInfoAsWritten: string := ProjectInfoWith(MisencodedBullet)

  /** The project reply with the bullet it was evidently written with. */
  const ProjectInfoText: string := ProjectInfoWith([BulletMark])

  /**
   * As written, no feature line of the project reply is shown as a bullet item by the
   * message bubble: each starts with a character that is neither a space nor the mark.
   */
  lemma MisencodedFeatureLinesArePlain(k: nat, last: bool)
    requires k < |ProjectInfoItems|
    ensures var line := MisencodedBullet + " " + ProjectInfoItems[k];
      FormatLine(line, last) == Plain(line, !last)
  {
    var line := MisencodedBullet + " " + ProjectInfoItems[k];
    assert line[0] == '\U{E2}';
    OtherLineIsPlain(line, last);
  }

  /** With the intended mark, every feature line is shown as a bullet item holding the feature. */
  lemma FeatureLinesAreBullets(k: nat, last: bool)
    requires k < |ProjectInfoItems|
    ensures FormatLine([BulletMark] + " " + ProjectInfoItems[k], last) == Bullet(ProjectInfoItems[k])
  {
    var item := ProjectInfoItems[k];
    assert [BulletMark] + " " + item == [BulletMark, ' '] + item;
    FeatureEnds(k);
    BulletLineIsBullet(item, last);
  }

  const NudgeText: string :=
    "That's interesting! " +
    "If you'd like to stay updated on our progress, " +
    "just share your email address."

  const Keywords: seq<string> := ["what", "how", "platform", "trading", "about", "project", "vibe", "features"]

  /** The acknowledgement sent for a captured address. */
  function ThanksText(email: string): string {
    "Thanks for subscribing with " + email +
    "! We'll notify you when Vibe Trading launches.\n\n" +
    "Is there anything else you'd like to know " +
    "about our platform?"
  }

  /** The three reply kinds; an acknowledgement carries the address it acknowledges. */
  datatype Reply = Thanks(email: string) | ProjectInfo | Nudge

  function ReplyText(r: Reply): string {
    match r
    case Thanks(e) => ThanksText(e)
    case ProjectInfo => ProjectInfoText
    case Nudge => NudgeText
  }

  /** What `onEmailSubmit` receives for a reply: the acknowledged address, if any. */
  function Forwarded(r: Reply): seq<string> {
    if r.Thanks? then [r.email] else []
  }

  /** One of `keywords` occurs in `lowered`. */
  ghost predicate MentionsAny(lowered: string, keywords: seq<string>) {
    exists k: nat, i: nat :: k < |keywords| && OccursAt(lowered, keywords[k], i)
  }

  /** The message, lower-cased, contains one of the eight keywords as a substring. */
  ghost predicate MentionsProject(message: string) {
    MentionsAny(Lower(message), Keywords)
  }

  /** `keywords.some(keyword => lowered.includes(keyword))`. */
  function SomeIncluded(lowered: string, keywords: seq<string>): (b: bool)
    ensures b <==> MentionsAny(lowered, keywords)
  {
    if keywords == [] then false
    else
      var b := Includes(lowered, keywords[0]) || SomeIncluded(lowered, keywords[1..]);
      assert MentionsAny(lowered, keywords[1..]) ==> MentionsAny(lowered, keywords) by {
        if MentionsAny(lowered, keywords[1..]) {
          var k: nat, i: nat :| k < |keywords| - 1 && OccursAt(lowered, keywords[1..][k], i);
          assert OccursAt(lowered, keywords[k + 1], i);
        }
      }
      assert MentionsAny(lowered, keywords) ==> Includes(lowered, keywords[0]) || MentionsAny(lowered, keywords[1..]) by {
        if MentionsAny(lowered, keywords) {
          var k: nat, i: nat :| k < |keywords| && OccursAt(lowered, keywords[k], i);
          if k > 0 { assert OccursAt(lowered, keywords[1..][k - 1], i); }
        }
      }
      b
  }

  /** The reply `processMessage` chooses. */
  function Classify(message: string): (r: Reply)
    ensures r.Thanks? ==> |r.email| >= 6 && '@' in r.email
  {
    var found := Extract(message);
    if found.Some? then Thanks(found.value)
    else if SomeIncluded(Lower(message), Keywords) then ProjectInfo
    else Nudge
  }

  /**
   * An address wins over keywords, and the address acknowledged is the
   * leftmost-longest match of the pattern, a slice of the message; without an
   * address, any keyword in the lower-cased text gives the project information,
   * and anything else the nudge.
   */
  lemma ClassifyCorrect(message: string)
    ensures Classify(message).Thanks? <==> HasMatch(message)
    ensures Classify(message).Thanks? ==>
      exists i: nat, j: nat :: LeftmostLongest(message, i, j) && Classify(message).email == message[i..j]
    ensures Classify(message).ProjectInfo? <==> !HasMatch(message) && MentionsProject(message)
    ensures Classify(message).Nudge? <==> !HasMatch(message) && !MentionsProject(message)
  {
    ExtractCorrect(message);
  }

  /** A reply scheduled by a submit: the list snapshot taken then, and the text submitted. */
  datatype Timer = Timer(snapshot: seq<Message>, text: string)

  class Widget {
    var messages: seq<Message>
    var input: string
    var isTyping: bool
    var emailSubmitted: bool
    /** Every address handed to `onEmailSubmit`, in call order. */
    var forwarded: seq<string>
    /** Scheduled replies that have not fired yet, oldest first. */
    var timers: seq<Timer>

    /** The flag records whether an address was ever forwarded; typing implies a pending reply. */
    ghost predicate Valid()
      reads this
    {
      (emailSubmitted <==> forwarded != []) && (isTyping ==> timers != [])
    }

    constructor ()
      ensures Valid()
      ensures messages == [Message(Assistant, Welcome)] && input == []
      ensures !isTyping && !emailSubmitted && forwarded == [] && timers == []
    {
      messages := [Message(Assistant, Welcome)];
      input := [];
      isTyping := false;
      emailSubmitted := false;
      forwarded := [];
      timers := [];
    }

    /** The textarea's change handler. */
    method SetInput(text: string)
      requires Valid()
      modifies this`input
      ensures Valid() && input == text
    {
      input := text;
    }

    /** `handleSubmit`: a blank input is ignored; otherwise the user message is appended and a reply scheduled. */
    method Submit()
      requires Valid()
      modifies this
      ensures Valid()
      ensures AllSpace(old(input)) ==> unchanged(this)
      ensures !AllSpace(old(input)) ==>
        && messages == old(messages) + [Message(User, old(input))]
        && input == [] && isTyping
        && timers == old(timers) + [Timer(messages, old(input))]
        && emailSubmitted == old(emailSubmitted) && forwarded == old(forwarded)
    {
      if Trim(input) == [] {
        return;
      }
      var newMessages := messages + [Message(User, input)];
      messages := newMessages;
      var submitted := input;
      input := [];
      isTyping := true;
      timers := timers + [Timer(newMessages, submitted)];
    }

    /**
     * `processMessage` with its side effects: an address is forwarded to
     * `onEmailSubmit` on every occurrence, without de-duplication, and the flag is set.
     */
    method ProcessMessage(message: string) returns (reply: Reply)
      requires Valid()
      modifies this`forwarded, this`emailSubmitted
      ensures Valid()
      ensures reply == Classify(message)
      ensures forwarded == old(forwarded) + Forwarded(reply)
      ensures emailSubmitted == (old(emailSubmitted) || reply.Thanks?)
    {
      var found := Extract(message);
      if found.Some? {
        forwarded := forwarded + [found.value];
        emailSubmitted := true;
        return Thanks(found.value);
      }
      if SomeIncluded(Lower(message), Keywords) {
        return ProjectInfo;
      }
      return Nudge;
    }

    /** The oldest timer fires: the list becomes its snapshot plus the reply, whatever was appended since. */
    method TimerFires() returns (reply: Reply)
      requires Valid() && timers != []
      modifies this
      ensures Valid()
      ensures reply == Classify(old(timers[0].text))
      ensures messages == old(timers[0].snapshot) + [Message(Assistant, ReplyText(reply))]
      ensures !isTyping && timers == old(timers[1..]) && input == old(input)
      ensures forwarded == old(forwarded) + Forwarded(reply)
      ensures emailSubmitted == (old(emailSubmitted) || reply.Thanks?)
    {
      var timer := timers[0];
      timers := timers[1..];
      isTyping := false;
      reply := ProcessMessage(timer.text);
      messages := timer.snapshot + [Message(Assistant, ReplyText(reply))];
    }
  }

  /**
   * Two submits before the first reply arrives: the second reply replaces the
   * list with a snapshot taken before the first reply existed, so the first
   * reply is lost from the conversation.
   */
  method OverlappingSubmitsLoseFirstReply(w: Widget, first: string, second: string)
    requires w.Valid() && w.timers == []
    requires !AllSpace(first) && !AllSpace(second)
    modifies w
    ensures w.messages ==
      old(w.messages) + [Message(User, first), Message(User, second)] +
      [Message(Assistant, ReplyText(Classify(second)))]
    ensures w.forwarded == old(w.forwarded) + Forwarded(Classify(first)) + Forwarded(Classify(second))
  {
    ghost var m0 := w.messages;
    ghost var t1 := Timer(m0 + [Message(User, first)], first);
    ghost var t2 := Timer(m0 + [Message(User, first), Message(User, second)], second);
    w.SetInput(first);
    w.Submit();
    assert w.timers == [t1];
    w.SetInput(second);
    w.Submit();
    assert w.messages == t1.snapshot + [Message(User, second)] == t2.snapshot;
    assert w.timers == [t1, t2];
    var r1 := w.TimerFires();
    assert w.timers == [t2];
    var r2 := w.TimerFires();
  }


}
