/**
  Values of the per-user conversation history: the turns that are stored, the
  messages that are sent to the completion service, the expiry rule that prunes
  old turns and the prompt that is assembled from a user's turns.
 */
module Conversation {

  /** Who produced a turn: the store only ever receives User and Assistant turns. */
  datatype Role = System | User | Assistant

  /** One stored turn; `timestamp` is the clock value (whole seconds) at append time. */
  datatype Turn = Turn(role: Role, content: string, timestamp: int)

  /** One call of `update_conversation`: who spoke, what was said, and the clock value at the call. */
  datatype Append = Append(role: Role, content: string, time: int)

  /** One message of a completion request: a turn without its timestamp. */
  datatype ChatMessage = ChatMessage(role: Role, content: string)

  /** Turns aged this many seconds or more are dropped on the next append. */
  const Expiry: int := 3600

  const SystemPrompt: string :=
    "You are Sigmoydbot, a helpful and conversational AI assistant. \n" +
    "You have a friendly personality and maintain context through conversations.\n" +
    "You provide concise but thoughtful responses and can discuss a wide range of topics.\n" +
    "You should remember information shared by users during the conversation and give short replies talk like a person."

  /** The fixed first message of every prompt. */
  const SystemMessage: ChatMessage := ChatMessage(System, SystemPrompt)

  /** A turn survives pruning at time `now` when its age is below the expiry window. */
  predicate IsYoung(t: Turn, now: int)
  {
    now - t.timestamp < Expiry
  }

  /** `a` can be obtained from `b` by deleting elements; order is kept. */
  ghost predicate IsSubsequence<T>(a: seq<T>, b: seq<T>)
    decreases |b|
  {
    a == [] ||
    (b != [] &&
     ((a[|a| - 1] == b[|b| - 1] && IsSubsequence(a[..|a| - 1], b[..|b| - 1])) ||
      IsSubsequence(a, b[..|b| - 1])))
  }

  /** The list comprehension that keeps the turns younger than the window, in order. */
  function Prune(turns: seq<Turn>, now: int): (r: seq<Turn>)
    ensures |r| <= |turns|
  {
    if turns == [] then []
    else
      var last := turns[|turns| - 1];
      assert turns == turns[..|turns| - 1] + [last];
      Prune(turns[..|turns| - 1], now) + (if IsYoung(last, now) then [last] else [])
  }

  /** The content of `uid`'s list after `update_conversation`: append, then prune. */
  function AfterUpdate(turns: seq<Turn>, role: Role, content: string, now: int): seq<Turn>
  {
    Prune(turns + [Turn(role, content, now)], now)
  }

  /** The turns the appends would store, in call order, before any pruning. */
  function AsTurns(ups: seq<Append>): (r: seq<Turn>)
    ensures |r| == |ups|
    ensures forall i :: 0 <= i < |ups| ==> r[i] == Turn(ups[i].role, ups[i].content, ups[i].time)
  {
    if ups == [] then []
    else
      var u := ups[|ups| - 1];
      AsTurns(ups[..|ups| - 1]) + [Turn(u.role, u.content, u.time)]
  }

  /** The list after the updates `ups`, applied one after the other to `turns`. */
  function UpdateAll(turns: seq<Turn>, ups: seq<Append>): seq<Turn>
  {
    if ups == [] then turns
    else
      var u := ups[|ups| - 1];
      AfterUpdate(UpdateAll(turns, ups[..|ups| - 1]), u.role, u.content, u.time)
  }

  /** The clock never goes back between calls. */
  predicate InTimeOrder(ups: seq<Append>)
  {
    forall i, j :: 0 <= i < j < |ups| ==> ups[i].time <= ups[j].time
  }

  function ToMessage(t: Turn): ChatMessage
  {
    ChatMessage(t.role, t.content)
  }

  /** The turns with their timestamps removed, one message per turn, in order. */
  function Messages(turns: seq<Turn>): (r: seq<ChatMessage>)
    ensures |r| == |turns|
    ensures forall i :: 0 <= i < |turns| ==> r[i] == ToMessage(turns[i])
  {
    if turns == [] then [] else Messages(turns[..|turns| - 1]) + [ToMessage(turns[|turns| - 1])]
  }

  /** The message list sent to the completion service for a user with these turns. */
  function Prompt(turns: seq<Turn>): seq<ChatMessage>
  {
    [SystemMessage] + Messages(turns)
  }

  // ---------------------------------------------------------------------------
  // Pruning

  /** Pruning keeps exactly the turns that are young at `now`. */
  lemma {:induction false} PruneKeepsExactlyYoung(turns: seq<Turn>, now: int)
    ensures forall t :: t in Prune(turns, now) <==> t in turns && IsYoung(t, now)
    decreases |turns|
  {
    if turns != [] {
      var init := turns[..|turns| - 1];
      assert turns == init + [turns[|turns| - 1]];
      PruneKeepsExactlyYoung(init, now);
    }
  }

  /** Pruning is a filter: it distributes over concatenation. */
  lemma {:induction false} PruneConcat(a: seq<Turn>, b: seq<Turn>, now: int)
    ensures Prune(a + b, now) == Prune(a, now) + Prune(b, now)
    decreases |b|
  {
    if b == [] {
      assert a + b == a;
    } else {
      var b' := b[..|b| - 1];
      var last := b[|b| - 1];
      assert (a + b)[..|a + b| - 1] == a + b';
      assert (a + b)[|a + b| - 1] == last;
      PruneConcat(a, b', now);
    }
  }

  /** Pruning keeps the relative order of the turns it keeps. */
  lemma {:induction false} PruneIsSubsequence(turns: seq<Turn>, now: int)
    ensures IsSubsequence(Prune(turns, now), turns)
    decreases |turns|
  {
    if turns != [] {
      var init := turns[..|turns| - 1];
      var last := turns[|turns| - 1];
      var r := Prune(turns, now);
      PruneIsSubsequence(init, now);
      if IsYoung(last, now) {
        assert r[..|r| - 1] == Prune(init, now);
      } else {
        assert r == Prune(init, now);
      }
    }
  }

  /** A turn that is young at `now` is never dropped, and the rest is pruned as before. */
  lemma KeepYoungLast(turns: seq<Turn>, t: Turn, now: int)
    requires IsYoung(t, now)
    ensures Prune(turns + [t], now) == Prune(turns, now) + [t]
  {
    assert (turns + [t])[..|turns|] == turns;
  }

  /** Pruning a single turn keeps it exactly when it is young. */
  lemma PruneSingle(t: Turn, now: int)
    ensures Prune([t], now) == if IsYoung(t, now) then [t] else []
  {
    assert [t][..0] == [];
  }

  /** Pruning twice at the same instant prunes nothing more. */
  lemma {:induction false} PruneIdempotent(turns: seq<Turn>, now: int)
    ensures Prune(Prune(turns, now), now) == Prune(turns, now)
    decreases |turns|
  {
    if turns != [] {
      var init := turns[..|turns| - 1];
      var last := turns[|turns| - 1];
      var kept := if IsYoung(last, now) then [last] else [];
      assert Prune(turns, now) == Prune(init, now) + kept;
      PruneIdempotent(init, now);
      PruneConcat(Prune(init, now), kept, now);
      if IsYoung(last, now) { PruneSingle(last, now); }
    }
  }

  /** A later pruning subsumes an earlier one. */
  lemma {:induction false} PruneLater(turns: seq<Turn>, earlier: int, later: int)
    requires earlier <= later
    ensures Prune(Prune(turns, earlier), later) == Prune(turns, later)
    decreases |turns|
  {
    if turns != [] {
      var init := turns[..|turns| - 1];
      var last := turns[|turns| - 1];
      var kept := if IsYoung(last, earlier) then [last] else [];
      assert Prune(turns, earlier) == Prune(init, earlier) + kept;
      assert Prune(turns, later) == Prune(init, later) + (if IsYoung(last, later) then [last] else []);
      PruneLater(init, earlier, later);
      PruneConcat(Prune(init, earlier), kept, later);
      if IsYoung(last, earlier) { PruneSingle(last, later); }
    }
  }

  /** Turns that are all young are left exactly as they are. */
  lemma {:induction false} PruneAllYoung(turns: seq<Turn>, now: int)
    requires forall i :: 0 <= i < |turns| ==> IsYoung(turns[i], now)
    ensures Prune(turns, now) == turns
    decreases |turns|
  {
    if turns != [] {
      var init := turns[..|turns| - 1];
      assert turns == init + [turns[|turns| - 1]];
      PruneAllYoung(init, now);
    }
  }

  // ---------------------------------------------------------------------------
  // update_conversation

  /**
    After an update the new turn is the last one, preceded by exactly the old
    turns that are still young, in their old order; every surviving turn is young.
   */
  lemma UpdateKeepsNewTurn(turns: seq<Turn>, role: Role, content: string, now: int)
    ensures AfterUpdate(turns, role, content, now) == Prune(turns, now) + [Turn(role, content, now)]
    ensures AfterUpdate(turns, role, content, now)[|AfterUpdate(turns, role, content, now)| - 1]
            == Turn(role, content, now)
    ensures forall t :: t in AfterUpdate(turns, role, content, now) ==> IsYoung(t, now)
    ensures forall t :: t in turns && !IsYoung(t, now) ==> t !in AfterUpdate(turns, role, content, now)
  {
    KeepYoungLast(turns, Turn(role, content, now), now);
    PruneKeepsExactlyYoung(turns, now);
  }

  /** Two updates, the second at most one window after the first, end with both turns in order. */
  lemma TwoUpdatesKeepBoth(turns: seq<Turn>, r1: Role, c1: string, t1: int, r2: Role, c2: string, t2: int)
    requires t2 - t1 < Expiry
    ensures AfterUpdate(AfterUpdate(turns, r1, c1, t1), r2, c2, t2)
            == Prune(Prune(turns, t1), t2) + [Turn(r1, c1, t1), Turn(r2, c2, t2)]
  {
    var u1, u2 := Turn(r1, c1, t1), Turn(r2, c2, t2);
    var kept := Prune(turns, t1);
    calc {
      AfterUpdate(AfterUpdate(turns, r1, c1, t1), r2, c2, t2);
      { KeepYoungLast(turns, u1, t1); }
      AfterUpdate(kept + [u1], r2, c2, t2);
      { KeepYoungLast(kept + [u1], u2, t2); }
      Prune(kept + [u1], t2) + [u2];
      { KeepYoungLast(kept, u1, t2); }
      (Prune(kept, t2) + [u1]) + [u2];
      { AppendAssoc(Prune(kept, t2), [u1], [u2]); }
      Prune(kept, t2) + [u1, u2];
    }
  }

  /** With no turn old enough to expire, updates only ever append. */
  lemma UpdateWithoutExpiry(turns: seq<Turn>, role: Role, content: string, now: int)
    requires forall i :: 0 <= i < |turns| ==> IsYoung(turns[i], now)
    ensures AfterUpdate(turns, role, content, now) == turns + [Turn(role, content, now)]
  {
    UpdateKeepsNewTurn(turns, role, content, now);
    PruneAllYoung(turns, now);
  }

  /**
    Any number of updates in time order amount to appending all their turns
    and pruning once, at the time of the last update.
   */
  lemma {:induction false} UpdateAllPrunesOnce(turns: seq<Turn>, ups: seq<Append>)
    requires ups != [] && InTimeOrder(ups)
    ensures UpdateAll(turns, ups) == Prune(turns + AsTurns(ups), ups[|ups| - 1].time)
    decreases |ups|
  {
    var init, u := ups[..|ups| - 1], ups[|ups| - 1];
    var t := Turn(u.role, u.content, u.time);
    assert AsTurns(ups) == AsTurns(init) + [t];
    assert turns + AsTurns(ups) == (turns + AsTurns(init)) + [t];
    if init != [] {
      var prev := init[|init| - 1].time;
      var all := turns + AsTurns(init);
      assert InTimeOrder(init);
      UpdateAllPrunesOnce(turns, init);
      assert UpdateAll(turns, ups) == Prune(Prune(all, prev) + [t], u.time);
      PruneConcat(Prune(all, prev), [t], u.time);
      PruneLater(all, prev, u.time);
      PruneConcat(all, [t], u.time);
    } else {
      assert UpdateAll(turns, init) == turns + AsTurns(init);
    }
  }

  /**
    When every appended turn is still young at the last update, all of them
    are kept, in the order they were appended, after the surviving older turns.
   */
  lemma UpdateAllKeepsOrder(turns: seq<Turn>, ups: seq<Append>)
    requires ups != [] && InTimeOrder(ups)
    requires forall i :: 0 <= i < |ups| ==> ups[|ups| - 1].time - ups[i].time < Expiry
    ensures UpdateAll(turns, ups) == Prune(turns, ups[|ups| - 1].time) + AsTurns(ups)
  {
    var last := ups[|ups| - 1].time;
    UpdateAllPrunesOnce(turns, ups);
    PruneConcat(turns, AsTurns(ups), last);
    PruneAllYoung(AsTurns(ups), last);
  }

  // ---------------------------------------------------------------------------
  // get_groq_messages

  /** The prompt is the system message followed by one message per turn, in order. */
  lemma PromptShape(turns: seq<Turn>)
    ensures |Prompt(turns)| == 1 + |turns|
    ensures Prompt(turns)[0] == SystemMessage
    ensures forall i :: 0 <= i < |turns| ==> Prompt(turns)[i + 1] == ToMessage(turns[i])
  {
  }

  /** Appending a turn appends its message to the prompt. */
  lemma {:induction false} PromptSnoc(turns: seq<Turn>, t: Turn)
    ensures Prompt(turns + [t]) == Prompt(turns) + [ToMessage(t)]
  {
    assert (turns + [t])[..|turns|] == turns;
  }

  /** The messages of two lists of turns, one after the other. */
  lemma MessagesConcat(a: seq<Turn>, b: seq<Turn>)
    ensures Messages(a + b) == Messages(a) + Messages(b)
  {
    assert forall i :: 0 <= i < |b| ==> (a + b)[|a| + i] == b[i];
  }

  /**
    After updates in time order whose turns are all still young at the last
    one, the prompt lists the surviving older turns and then every appended
    turn, in the order appended.
   */
  lemma PromptAfterUpdates(turns: seq<Turn>, ups: seq<Append>)
    requires ups != [] && InTimeOrder(ups)
    requires forall i :: 0 <= i < |ups| ==> ups[|ups| - 1].time - ups[i].time < Expiry
    ensures Prompt(UpdateAll(turns, ups)) == Prompt(Prune(turns, ups[|ups| - 1].time)) + Messages(AsTurns(ups))
  {
    var kept := Prune(turns, ups[|ups| - 1].time);
    UpdateAllKeepsOrder(turns, ups);
    MessagesConcat(kept, AsTurns(ups));
    AppendAssoc([SystemMessage], Messages(kept), Messages(AsTurns(ups)));
  }

  lemma AppendAssoc<T>(a: seq<T>, b: seq<T>, c: seq<T>)
    ensures (a + b) + c == a + (b + c)
  {
  }

  /**
   * The system message appears only at the front of a prompt built from user and assistant turns.
   * The relay records only `User` and `Assistant` turns (`Relay.Ask` and `Relay.Answer`), so the
   * hypothesis holds for every history the message handler builds.
   */
  lemma SystemMessageOnlyFirst(turns: seq<Turn>)
    requires forall i :: 0 <= i < |turns| ==> turns[i].role != System
    ensures forall i :: 0 < i < |Prompt(turns)| ==> Prompt(turns)[i] != SystemMessage
  {
    PromptShape(turns);
    forall i | 0 < i < |Prompt(turns)|
      ensures Prompt(turns)[i] != SystemMessage
    {
      assert Prompt(turns)[i] == ToMessage(turns[i - 1]);
    }
  }
}
