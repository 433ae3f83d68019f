/**
  The message handler: whether an incoming text is addressed to the bot, the
  query taken from it, and the order of the history updates around the call
  to the completion service. The call itself is an input: its outcome is
  given, and the request the handler would send is returned.
 */
module Relay {
  import opened Wrappers
  import opened Conversation
  import opened Mention
  import opened Store

  /** The author of a replied-to message; Telegram users need not have a username. */
  datatype Sender = Sender(username: Option<string>)

  /** The message being replied to; channel posts have no `from_user`. */
  datatype RepliedMessage = RepliedMessage(fromUser: Option<Sender>)

  /** The fields of an incoming text message that the handler reads. */
  datatype Inbound = Inbound(text: string, userId: UserId, replyTo: Option<RepliedMessage>)

  /** What the completion service returned: the first choice's content, or the exception's text. */
  datatype Completion = Completed(content: string) | Failed(error: string)

  datatype CompletionRequest = CompletionRequest(model: string, messages: seq<ChatMessage>, maxTokens: nat)

  const GroqModel: string := "llama3-8b-8192"
  const MaxTokens: nat := 500
  const ErrorPrefix: string := "Sorry, I encountered an error: "
  const Greeting: string :=
    "Hi! I'm Sigmoydbot. Tag me with @Sigmoydbot or reply to my messages to have a conversation! I'll remember what we talk about."

  /** The message replies to one whose author has exactly the bot's username. */
  predicate IsReplyToBot(msg: Inbound, botUsername: string)
  {
    msg.replyTo.Some? && msg.replyTo.value.fromUser.Some? &&
    msg.replyTo.value.fromUser.value.username == Some(botUsername)
  }

  /** The bot acts on a message that mentions it or replies to it, and on no other. */
  function ShouldRespond(msg: Inbound, botUsername: string): (r: bool)
    ensures r <==> Occurs(msg.text, MentionToken(botUsername)) || IsReplyToBot(msg, botUsername)
  {
    IsBotMentioned(msg.text, botUsername) || IsReplyToBot(msg, botUsername)
  }

  /**
    The query: the text itself when the bot is not mentioned; otherwise the
    text with every mention removed and then trimmed.
   */
  function ExtractQuery(text: string, botUsername: string): (q: string)
    ensures !Occurs(text, MentionToken(botUsername)) ==> q == text
    ensures Occurs(text, MentionToken(botUsername)) ==> q == Strip(Scan(text, MentionToken(botUsername)))
    ensures Occurs(text, MentionToken(botUsername)) ==> |q| <= |text| - |botUsername| - 1
  {
    var token := MentionToken(botUsername);
    if IsBotMentioned(text, botUsername) then
      RemoveAllIsScan(text, token);
      RemoveFromShrinks(text, token, 0);
      StripRemovesOnlySpace(RemoveAll(text, token));
      assert text[0..] == text;
      Strip(RemoveAll(text, token))
    else text
  }

  /**
    The first half of the `try` block: the user turn (stamped `now`) is
    recorded, and the request is built from the updated history.
   */
  method Ask(store: ConversationStore, uid: UserId, query: string, now: int)
    returns (request: CompletionRequest)
    modifies store
    ensures store.history == old(store.history)[uid := AfterUpdate(old(store.Turns(uid)), User, query, now)]
    ensures request == CompletionRequest(GroqModel, Prompt(store.Turns(uid)), MaxTokens)
  {
    store.UpdateConversation(uid, User, query, now);
    var messages := store.GroqMessages(uid);
    request := CompletionRequest(GroqModel, messages, MaxTokens);
  }

  /**
    The second half: on success the answer (stamped `replyNow`) is recorded
    and becomes the reply; on failure the reply is the error text and the
    history is left as it is, so the user turn is not rolled back.
   */
  method Answer(store: ConversationStore, uid: UserId, outcome: Completion, replyNow: int)
    returns (reply: string)
    modifies store
    ensures outcome.Completed? ==>
              reply == outcome.content &&
              store.history == old(store.history)[uid := AfterUpdate(old(store.Turns(uid)), Assistant, outcome.content, replyNow)]
    ensures outcome.Failed? ==> reply == ErrorPrefix + outcome.error && store.history == old(store.history)
  {
    match outcome
    case Completed(content) =>
      store.UpdateConversation(uid, Assistant, content, replyNow);
      reply := content;
    case Failed(error) =>
      reply := ErrorPrefix + error;
  }

  /** The `try` block of `handle_message`, once the query is known: `Ask`, then `Answer`. */
  method Converse(store: ConversationStore, uid: UserId, query: string,
                  now: int, outcome: Completion, replyNow: int)
    returns (request: CompletionRequest, reply: string)
    modifies store
    ensures request == CompletionRequest(GroqModel, Prompt(AfterUpdate(old(store.Turns(uid)), User, query, now)), MaxTokens)
    ensures outcome.Completed? ==>
              reply == outcome.content &&
              store.history == old(store.history)[uid := AfterUpdate(AfterUpdate(old(store.Turns(uid)), User, query, now),
                                                                     Assistant, outcome.content, replyNow)]
    ensures outcome.Failed? ==>
              reply == ErrorPrefix + outcome.error &&
              store.history == old(store.history)[uid := AfterUpdate(old(store.Turns(uid)), User, query, now)]
  {
    ghost var before, afterUser := store.history, AfterUpdate(store.Turns(uid), User, query, now);
    request := Ask(store, uid, query, now);
    assert store.Turns(uid) == afterUser;
    reply := Answer(store, uid, outcome, replyNow);
    if outcome.Completed? {
      UpdateTwice(before, uid, afterUser, AfterUpdate(afterUser, Assistant, outcome.content, replyNow));
    }
  }

  /** A second update of the same key overrides the first. */
  lemma UpdateTwice<K, V>(m: map<K, V>, k: K, a: V, b: V)
    ensures m[k := a][k := b] == m[k := b]
  {
  }

  /**
    `handle_message`: a message not addressed to the bot changes nothing and
    gets no reply; an addressed one is answered by `Converse` with the query
    taken from its text.
   */
  method HandleMessage(store: ConversationStore, msg: Inbound, botUsername: string,
                       now: int, outcome: Completion, replyNow: int)
    returns (request: Option<CompletionRequest>, reply: Option<string>)
    modifies store
    ensures !ShouldRespond(msg, botUsername) ==>
              request == None && reply == None && store.history == old(store.history)
    ensures ShouldRespond(msg, botUsername) ==>
              var uid := msg.userId;
              var afterUser := AfterUpdate(old(store.Turns(uid)), User, ExtractQuery(msg.text, botUsername), now);
              && request == Some(CompletionRequest(GroqModel, Prompt(afterUser), MaxTokens))
              && (outcome.Completed? ==>
                    reply == Some(outcome.content) &&
                    store.history == old(store.history)[uid := AfterUpdate(afterUser, Assistant, outcome.content, replyNow)])
              && (outcome.Failed? ==>
                    reply == Some(ErrorPrefix + outcome.error) &&
                    store.history == old(store.history)[uid := afterUser])
  {
    if ShouldRespond(msg, botUsername) {
      var query := ExtractQuery(msg.text, botUsername);
      var sent, text := Converse(store, msg.userId, query, now, outcome, replyNow);
      request, reply := Some(sent), Some(text);
    } else {
      request, reply := None, None;
    }
  }

  /** The start command: forget the user's history and greet. */
  method Start(store: ConversationStore, uid: UserId) returns (greeting: string)
    modifies store
    ensures greeting == Greeting
    ensures store.history == old(store.history)[uid := []]
    ensures Prompt(store.Turns(uid)) == [SystemMessage]
  {
    store.Reset(uid);
    greeting := Greeting;
  }

  // ---------------------------------------------------------------------------
  // Properties of one handled message

  /** The prompt that is sent ends with the user's query, right after the still-young history. */
  lemma RequestEndsWithQuery(turns: seq<Turn>, query: string, now: int)
    ensures Prompt(AfterUpdate(turns, User, query, now)) == Prompt(Prune(turns, now)) + [ChatMessage(User, query)]
  {
    UpdateKeepsNewTurn(turns, User, query, now);
    PromptSnoc(Prune(turns, now), Turn(User, query, now));
  }

  /** After a failed completion the history holds the user turn last and no answer. */
  lemma FailureKeepsOnlyUserTurn(turns: seq<Turn>, query: string, now: int)
    ensures AfterUpdate(turns, User, query, now) == Prune(turns, now) + [Turn(User, query, now)]
    ensures (forall i :: 0 <= i < |turns| ==> IsYoung(turns[i], now)) ==>
              |AfterUpdate(turns, User, query, now)| == |turns| + 1
  {
    UpdateKeepsNewTurn(turns, User, query, now);
    if forall i :: 0 <= i < |turns| ==> IsYoung(turns[i], now) {
      PruneAllYoung(turns, now);
    }
  }

  /**
    After a successful completion returned within the expiry window, the
    history ends with the user turn followed by the answer.
   */
  lemma SuccessKeepsBothTurns(turns: seq<Turn>, query: string, now: int, answer: string, replyNow: int)
    requires replyNow - now < Expiry
    ensures AfterUpdate(AfterUpdate(turns, User, query, now), Assistant, answer, replyNow)
            == Prune(Prune(turns, now), replyNow) + [Turn(User, query, now), Turn(Assistant, answer, replyNow)]
  {
    TwoUpdatesKeepBoth(turns, User, query, now, Assistant, answer, replyNow);
  }

  // ---------------------------------------------------------------------------
  // Examples, with the bot's username Sigmoydbot

  lemma MentionInAnyCase()
    ensures ShouldRespond(Inbound("hey @SIGMOYDBOT how are you", 1, None), "Sigmoydbot")
  {
    var text, token := "hey @SIGMOYDBOT how are you", MentionToken("Sigmoydbot");
    assert token == "@Sigmoydbot";
    MatchAt(text, token, 4);
  }

  lemma NoAtSignNotAddressed()
    ensures !ShouldRespond(Inbound("hey sigmoydbot", 1, None), "Sigmoydbot")
  {
    NoAtSignNoMention("hey sigmoydbot", "Sigmoydbot");
  }

  lemma ReplyToBotWithoutMention()
    ensures ShouldRespond(Inbound("ok", 1, Some(RepliedMessage(Some(Sender(Some("Sigmoydbot")))))), "Sigmoydbot")
  {
  }

  lemma LeadingMentionRemoved()
    ensures ExtractQuery("@Sigmoydbot what's up", "Sigmoydbot") == "what's up"
  {
    LeadingMentionCut();
    TrimOneSpace();
  }

  lemma LeadingMentionCut()
    ensures MatchesAt("@Sigmoydbot what's up", MentionToken("Sigmoydbot"), 0)
    ensures RemoveAll("@Sigmoydbot what's up", MentionToken("Sigmoydbot")) == " what's up"
  {
    var text, token, rest := "@Sigmoydbot what's up", MentionToken("Sigmoydbot"), " what's up";
    assert token == "@Sigmoydbot";
    MatchAt(text, token, 0);
    assert text[|token|..] == rest;
    RemoveAllAtFront(text, token);
    assert |rest| < |token|;
    RemoveAllWithoutMatch(rest, token);
  }

  lemma TrimOneSpace()
    ensures Strip(" what's up") == "what's up"
  {
    var rest := " what's up";
    assert SkipLeading(rest, 1) == 1;
    assert SkipLeading(rest, 0) == 1;
    assert SkipTrailing(rest, 1, |rest|) == |rest|;
  }

  /** Every mention is removed, not only the first one. */
  lemma EveryMentionRemoved()
    ensures ExtractQuery("@b hi @B", "b") == "hi"
  {
    assert IsBotMentioned("@b hi @B", "b") by {
      MatchAt("@b hi @B", MentionToken("b"), 0);
    }
    SecondMentionCut();
    TrimTwoSpaces();
  }

  lemma SecondMentionCut()
    ensures RemoveAll("@b hi @B", MentionToken("b")) == " hi "
  {
    var text, token := "@b hi @B", MentionToken("b");
    RemoveAllIsScan(text, token);
    assert text[0..] == text;
    assert token == "@b";
    MatchAt(text, token, 0);
    ScanDrops(text, token, 0);
    ScanMiddle();
    MatchAt(text, token, 6);
    ScanDrops(text, token, 6);
    assert text[8..] == [];
  }

  /** The characters ` hi ` between the two mentions are kept. */
  lemma ScanMiddle()
    ensures Scan("@b hi @B"[2..], "@b") == " hi " + Scan("@b hi @B"[6..], "@b")
  {
    var text, token := "@b hi @B", "@b";
    MismatchAt(text, token, 2, 0);
    MismatchAt(text, token, 3, 0);
    MismatchAt(text, token, 4, 0);
    MismatchAt(text, token, 5, 0);
    ScanKeepsRun(text, token, 2, 6);
    assert text[2..6] == " hi ";
  }

  lemma TrimTwoSpaces()
    ensures Strip(" hi ") == "hi"
  {
    var padded := " hi ";
    assert SkipLeading(padded, 1) == 1;
    assert SkipLeading(padded, 0) == 1;
    assert SkipTrailing(padded, 1, 3) == 3;
    assert SkipTrailing(padded, 1, 4) == 3;
  }
}
