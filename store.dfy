/**
  The process-wide conversation history: one list of turns per user id, updated
  in place by `update_conversation` and by the reset of the start command, and
  read by `get_groq_messages`.
 */
module Store {
  import opened Conversation

  /** Telegram's numeric user id. */
  type UserId = int

  class ConversationStore {
    /** The history; a user without an entry has the empty list, as with a `defaultdict(list)`. */
    var history: map<UserId, seq<Turn>>

    /** The turns currently held for `uid`. */
    function Turns(uid: UserId): seq<Turn>
      reads this
    {
      if uid in history then history[uid] else []
    }

    constructor ()
      ensures history == map[]
      ensures forall uid :: Turns(uid) == []
    {
      history := map[];
    }

    /**
      Append a turn stamped `now` to `uid`'s list, then drop every turn of that
      list whose age at `now` is the expiry window or more. Other users' lists
      are left as they are.
     */
    method UpdateConversation(uid: UserId, role: Role, content: string, now: int)
      modifies this
      ensures history == old(history)[uid := AfterUpdate(old(Turns(uid)), role, content, now)]
      ensures Turns(uid) == Prune(old(Turns(uid)), now) + [Turn(role, content, now)]
      ensures forall t :: t in Turns(uid) ==> IsYoung(t, now)
      ensures forall other :: other != uid ==> Turns(other) == old(Turns(other))
    {
      var turns := Turns(uid) + [Turn(role, content, now)];
      history := history[uid := turns];
      history := history[uid := Prune(history[uid], now)];
      UpdateKeepsNewTurn(old(Turns(uid)), role, content, now);
    }

    /** The start command: `uid`'s list becomes empty; nothing else changes. */
    method Reset(uid: UserId)
      modifies this
      ensures history == old(history)[uid := []]
      ensures Turns(uid) == []
      ensures forall other :: other != uid ==> Turns(other) == old(Turns(other))
    {
      history := history[uid := []];
    }

    /**
      The prompt for `uid`: the system message, then each stored turn without
      its timestamp, in stored order. Nothing is pruned or otherwise changed.
     */
    method GroqMessages(uid: UserId) returns (messages: seq<ChatMessage>)
      ensures messages == Prompt(Turns(uid))
      ensures |messages| == 1 + |Turns(uid)|
      ensures messages[0] == SystemMessage
      ensures forall i :: 0 <= i < |Turns(uid)| ==> messages[i + 1] == ToMessage(Turns(uid)[i])
    {
      var turns := Turns(uid);
      messages := [SystemMessage];
      var i := 0;
      while i < |turns|
        invariant 0 <= i <= |turns|
        invariant messages == [SystemMessage] + Messages(turns[..i])
      {
        assert turns[..i + 1][..i] == turns[..i];
        messages := messages + [ToMessage(turns[i])];
        i := i + 1;
      }
      assert turns[..i] == turns;
    }
  }

  /** Right after a reset the prompt for that user is the system message alone. */
  method ResetThenPrompt(store: ConversationStore, uid: UserId) returns (messages: seq<ChatMessage>)
    modifies store
    ensures store.history == old(store.history)[uid := []]
    ensures messages == [SystemMessage]
  {
    store.Reset(uid);
    messages := store.GroqMessages(uid);
  }
}
