/**
 * The sliding-window conversation memory of the chat client
 * (`ChatMemory` in chat_memory.py): a fixed system-prompt message and a
 * double-ended queue of at most `2 * window_size` role-tagged messages in
 * which appending to a full queue evicts the oldest entry.
 */
module Memory {

  import opened Wrappers
  import opened Strings

  datatype Role = System | User | Assistant

  /** A role-tagged message; the source's `{"role": ..., "content": ...}` dictionary. */
  datatype Message = Message(role: Role, content: String)

  const DefaultSystemPrompt: String :=
    "You are a helpful AI assistant. Provide concise, accurate answers. If you don't know something, say so instead of guessing. Keep responses brief and factual."

  /** The counters reported by `get_conversation_summary`. */
  datatype Summary = Summary(
    totalMessages: nat,
    userMessages: nat,
    assistantMessages: nat,
    conversationTurns: nat,
    memoryCapacity: nat)

  /** The last `min(|h|, n)` entries of `h`, in order: what a deque bounded by `n` keeps. */
  function LastN<T>(h: seq<T>, n: nat): (r: seq<T>)
    ensures |r| == if |h| <= n then |h| else n
    ensures r == h[|h| - |r|..]
  {
    if |h| <= n then h else h[|h| - n..]
  }

  /**
   * The history after appending `ms`, one message at a time, to a deque
   * bounded by `n`: from a history within capacity, exactly the most recent
   * `min(|h| + |ms|, n)` of the old and new messages, in their original order.
   */
  function AppendAll(h: seq<Message>, ms: seq<Message>, n: nat): (r: seq<Message>)
    ensures |h| <= n ==> r == LastN(h + ms, n) && |r| <= n
    decreases |ms|
  {
    if ms == [] then
      assert h + ms == h;
      h
    else
      LastNAbsorb(h + [ms[0]], ms[1..], n);
      ConcatFirst(h, ms);
      AppendAll(LastN(h + [ms[0]], n), ms[1..], n)
  }

  /** Windowing twice is windowing once: eviction never depends on what was evicted before. */
  lemma LastNAbsorb<T>(s: seq<T>, t: seq<T>, n: nat)
    ensures LastN(LastN(s, n) + t, n) == LastN(s + t, n)
  {
    var a := LastN(s, n);
    if |a + t| > n {
      var x := (a + t)[|a + t| - n..];
      var y := (s + t)[|s + t| - n..];
      forall k | 0 <= k < n
        ensures x[k] == y[k]
      {
        var d := |s| - |a|;
        assert (s + t)[|s + t| - n + k] == (a + t)[|a + t| - n + k] by {
          if |a + t| - n + k < |a| {
            assert a[|a + t| - n + k] == s[d + |a + t| - n + k];
          }
        }
      }
    } else if |a| == n {
      assert t == [];
      assert s + t == s;
    } else {
      assert a == s;
    }
  }



  // A one-step fact, kept as its own lemma so the proofs that use it stay cheap.
  lemma ConcatFirst<T>(h: seq<T>, ms: seq<T>)
    requires ms != []
    ensures h + [ms[0]] + ms[1..] == h + ms
  {
  }

  /** Number of entries of `h` whose role is `role`: `sum(1 for msg in h if msg["role"] == role)`. */
  function CountRole(h: seq<Message>, role: Role): (n: nat)
    ensures n <= |h|
  {
    if h == [] then 0 else (if h[0].role == role then 1 else 0) + CountRole(h[1..], role)
  }

  predicate NoSystemEntries(h: seq<Message>) {
    forall i :: 0 <= i < |h| ==> h[i].role != System
  }

  /** In a history of user and assistant messages only, the two counts add up to its length. */
  lemma {:induction false} RolesPartition(h: seq<Message>)
    requires NoSystemEntries(h)
    ensures CountRole(h, User) + CountRole(h, Assistant) == |h|
  {
    if h != [] {
      assert NoSystemEntries(h[1..]) by {
        forall i | 0 <= i < |h[1..]| ensures h[1..][i].role != System {
          assert h[1..][i] == h[i + 1];
        }
      }
      RolesPartition(h[1..]);
    }
  }

  /**
   * The summary of a history in a window of `windowSize` pairs, or None where
   * the source's usage percentage divides by a zero capacity.
   */
  function Summarize(h: seq<Message>, windowSize: nat): (s: Option<Summary>)
    ensures s.None? <==> windowSize == 0
    ensures s.Some? ==> s.value.conversationTurns <= s.value.userMessages
    ensures s.Some? ==> s.value.conversationTurns <= s.value.assistantMessages
    ensures s.Some? ==> s.value.conversationTurns in {s.value.userMessages, s.value.assistantMessages}
    ensures s.Some? ==> s.value.userMessages + s.value.assistantMessages <= s.value.totalMessages
    ensures s.Some? ==> s.value.totalMessages == |h| && s.value.memoryCapacity == 2 * windowSize
    ensures s.Some? ==> s.value.userMessages == CountRole(h, User)
    ensures s.Some? ==> s.value.assistantMessages == CountRole(h, Assistant)
  {
    if windowSize == 0 then None
    else
      var users := CountRole(h, User);
      var assistants := CountRole(h, Assistant);
      UserAndAssistantAtMostAll(h);
      Some(Summary(
        totalMessages := |h|,
        userMessages := users,
        assistantMessages := assistants,
        conversationTurns := if users <= assistants then users else assistants,
        memoryCapacity := 2 * windowSize))
  }

  lemma {:induction false} UserAndAssistantAtMostAll(h: seq<Message>)
    ensures CountRole(h, User) + CountRole(h, Assistant) <= |h|
  {
    if h != [] {
      UserAndAssistantAtMostAll(h[1..]);
    }
  }

  /**
   * Three user and two assistant messages, added to an empty memory that can
   * hold them, give five messages in two complete turns.
   */
  lemma SummaryExample(windowSize: nat, ms: seq<Message>)
    requires windowSize >= 3
    requires |ms| == 5
    requires ms[0].role == User && ms[1].role == Assistant && ms[2].role == User
    requires ms[3].role == Assistant && ms[4].role == User
    ensures Summarize(AppendAll([], ms, 2 * windowSize), windowSize)
              == Some(Summary(5, 3, 2, 2, 2 * windowSize))
  {
    AppendToEmpty(ms, 2 * windowSize);
    AlternatingSummary(windowSize, ms);
  }

  lemma AlternatingSummary(windowSize: nat, ms: seq<Message>)
    requires windowSize >= 3
    requires |ms| == 5
    requires ms[0].role == User && ms[1].role == Assistant && ms[2].role == User
    requires ms[3].role == Assistant && ms[4].role == User
    ensures Summarize(ms, windowSize) == Some(Summary(5, 3, 2, 2, 2 * windowSize))
  {
    AlternatingCounts(ms);
    SummaryOfCounts(ms, windowSize, 3, 2);
  }


  /** Summarize's record, for known counts; its own lemma so the example stays cheap. */
  lemma SummaryOfCounts(h: seq<Message>, windowSize: nat, users: nat, assistants: nat)
    requires windowSize > 0
    requires CountRole(h, User) == users && CountRole(h, Assistant) == assistants
    ensures Summarize(h, windowSize) == Some(Summary(
      |h|, users, assistants, if users <= assistants then users else assistants, 2 * windowSize))
  {
    var s := Summarize(h, windowSize).value;
    assert s.conversationTurns == if users <= assistants then users else assistants;
  }

  /** Messages that fit, appended to an empty history, are all kept. */
  lemma AppendToEmpty(ms: seq<Message>, n: nat)
    requires |ms| <= n
    ensures AppendAll([], ms, n) == ms
  {
    assert [] + ms == ms;
  }

  /** Counting roles in five alternating messages, user first. */
  lemma AlternatingCounts(ms: seq<Message>)
    requires |ms| == 5
    requires ms[0].role == User && ms[1].role == Assistant && ms[2].role == User
    requires ms[3].role == Assistant && ms[4].role == User
    ensures CountRole(ms, User) == 3 && CountRole(ms, Assistant) == 2
  {
    var s4 := ms[4..];
    var s3 := ms[3..];
    var s2 := ms[2..];
    var s1 := ms[1..];
    assert s4[1..] == [] && s3[1..] == s4 && s2[1..] == s3 && s1[1..] == s2 && ms[1..] == s1;
    assert s4[0] == ms[4] && s3[0] == ms[3] && s2[0] == ms[2] && s1[0] == ms[1];
    assert CountRole(s4, User) == 1 && CountRole(s4, Assistant) == 0;
    assert CountRole(s3, User) == 1 && CountRole(s3, Assistant) == 1;
    assert CountRole(s2, User) == 2 && CountRole(s2, Assistant) == 1;
    assert CountRole(s1, User) == 2 && CountRole(s1, Assistant) == 2;
  }


  /** Python's backward scan for the newest user message. */
  function LastUserContent(h: seq<Message>): (r: Option<String>)
    ensures r.Some? ==> Message(User, r.value) in h
  {
    if h == [] then None
    else if Last(h).role == User then Some(Last(h).content)
    else LastUserContent(h[..|h| - 1])
  }

  /**
   * The backward scan finds the content of the newest user message, and
   * finds nothing exactly when there is no user message.
   */
  lemma {:induction false} LastUserContentIsNewest(h: seq<Message>)
    ensures LastUserContent(h).None? <==> forall i :: 0 <= i < |h| ==> h[i].role != User
    ensures LastUserContent(h).Some? ==>
      exists i :: 0 <= i < |h| && h[i] == Message(User, LastUserContent(h).value) &&
        forall j :: i < j < |h| ==> h[j].role != User
  {
    if h != [] && Last(h).role != User {
      var front := h[..|h| - 1];
      LastUserContentIsNewest(front);
      if LastUserContent(front).Some? {
        var i :| 0 <= i < |front| && front[i] == Message(User, LastUserContent(front).value) &&
          forall j :: i < j < |front| ==> front[j].role != User;
        assert h[i] == front[i];
        assert forall j :: i < j < |h| ==> h[j].role != User by {
          forall j | i < j < |h| ensures h[j].role != User {
            if j < |h| - 1 {
              assert h[j] == front[j];
            }
          }
        }
      } else {
        forall i | 0 <= i < |h| ensures h[i].role != User {
          if i < |h| - 1 {
            assert h[i] == front[i];
          }
        }
      }
    } else if h != [] {
      assert h[|h| - 1] == Message(User, LastUserContent(h).value);
    }
  }

  /**
   * With room for at least one pair, a user message followed by an
   * assistant reply leaves the pair at the end of the history, and the user
   * message is the last one the backward scan finds.
   */
  lemma AnsweredTurn(h: seq<Message>, n: nat, question: String, reply: String)
    requires n >= 2
    ensures var r := LastN(LastN(h + [Message(User, question)], n) + [Message(Assistant, reply)], n);
      && |r| >= 2
      && r[|r| - 2] == Message(User, question)
      && Last(r) == Message(Assistant, reply)
      && LastUserContent(r) == Some(question)
  {
    var a := LastN(h + [Message(User, question)], n);
    var r := LastN(a + [Message(Assistant, reply)], n);
    assert Last(a) == Message(User, question);
    assert r[|r| - 2] == (a + [Message(Assistant, reply)])[|a| - 1];
    LastUserBeforeReply(r);
  }

  lemma LastUserBeforeReply(r: seq<Message>)
    requires |r| >= 2 && r[|r| - 2].role == User && Last(r).role == Assistant
    ensures LastUserContent(r) == Some(r[|r| - 2].content)
  {
    assert r[..|r| - 1][|r| - 2] == r[|r| - 2];
  }

  /** The conversation memory: a constant system prompt and a bounded history. */
  class ChatMemory {

    const windowSize: nat
    const systemPrompt: Message
    var memory: seq<Message>

    ghost predicate Valid()
      reads this
    {
      && |memory| <= Capacity()
      && systemPrompt.role == System
      && NoSystemEntries(memory)
    }

    /** The deque's `maxlen`: two messages per user/assistant pair. */
    function Capacity(): nat {
      2 * windowSize
    }

    constructor (windowSize: nat)
      ensures Valid()
      ensures this.windowSize == windowSize
      ensures systemPrompt == Message(System, DefaultSystemPrompt)
      ensures memory == []
    {
      this.windowSize := windowSize;
      memory := [];
      systemPrompt := Message(System, DefaultSystemPrompt);
    }

    /** `deque.append` on a deque bounded by `Capacity()`: a full deque drops its oldest entry first. */
    method Append(m: Message)
      requires Valid() && m.role != System
      modifies this
      ensures Valid()
      ensures memory == LastN(old(memory) + [m], Capacity())
    {
      if |memory| < Capacity() {
        memory := memory + [m];
      } else if Capacity() > 0 {
        memory := memory[1..] + [m];
      }
    }

    method AddUserMessage(content: String)
      requires Valid()
      modifies this
      ensures Valid()
      ensures memory == LastN(old(memory) + [Message(User, content)], Capacity())
    {
      Append(Message(User, content));
    }

    method AddAssistantMessage(content: String)
      requires Valid()
      modifies this
      ensures Valid()
      ensures memory == LastN(old(memory) + [Message(Assistant, content)], Capacity())
    {
      Append(Message(Assistant, content));
    }

    /** The snapshot sent for generation: the system prompt, then the history in order. */
    method GetConversationHistory() returns (messages: seq<Message>)
      ensures |messages| == |memory| + 1
      ensures messages[0] == systemPrompt
      ensures messages[1..] == memory
    {
      messages := [systemPrompt];
      messages := messages + memory;
    }

    method ClearMemory()
      requires Valid()
      modifies this
      ensures Valid()
      ensures memory == []
    {
      memory := [];
    }

    /** Number of messages (not pairs) held. */
    method GetMemorySize() returns (size: nat)
      ensures size == |memory|
    {
      size := |memory|;
    }

    /** Walks the history from the newest entry back to the first user message. */
    method GetLastUserMessage() returns (content: Option<String>)
      ensures content == LastUserContent(memory)
    {
      var i := |memory|;
      assert memory[..i] == memory;
      while i > 0
        invariant 0 <= i <= |memory|
        invariant LastUserContent(memory) == LastUserContent(memory[..i])
      {
        i := i - 1;
        assert memory[..i + 1][..i] == memory[..i];
        if memory[i].role == User {
          return Some(memory[i].content);
        }
      }
      return None;
    }

    /**
     * The summary counters.  Only the two add methods insert, so every
     * message is a user or an assistant message and the two counts make
     * up the total, which stays within the capacity; the turns are the
     * smaller of the two counts.
     */
    function GetConversationSummary(): (s: Option<Summary>)
      reads this
      requires Valid()
      ensures s.None? <==> windowSize == 0
      ensures s.Some? ==> s.value.userMessages + s.value.assistantMessages == s.value.totalMessages
      ensures s.Some? ==> s.value.totalMessages <= s.value.memoryCapacity == Capacity()
      ensures s.Some? ==> s.value.totalMessages == |memory|
      ensures s.Some? ==> s.value.userMessages == CountRole(memory, User)
      ensures s.Some? ==> s.value.assistantMessages == CountRole(memory, Assistant)
      ensures s.Some? ==> s.value.conversationTurns <= s.value.userMessages
      ensures s.Some? ==> s.value.conversationTurns <= s.value.assistantMessages
      ensures s.Some? ==> s.value.conversationTurns in {s.value.userMessages, s.value.assistantMessages}
    {
      RolesPartition(memory);
      Summarize(memory, windowSize)
    }
  }

}
