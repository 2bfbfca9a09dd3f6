/**
  `AgentMemory`: a map from session id to a bounded list of conversation
  records. `api/services/openai_service.py` and `api/services/ollamaService.py`
  carry identical copies of the class; both are modelled here.

  The record timestamp (`datetime.now().isoformat()`) is an opaque string
  supplied by the caller.
 */
module Memory {

  datatype Record = Record(role: string, content: string, timestamp: string)

  datatype AgentMemory = AgentMemory(maxMessages: int, conversations: map<string, seq<Record>>)

  /** The class's default capacity. */
  const DefaultMaxMessages := 20

  function Empty(maxMessages: int): (m: AgentMemory)
    ensures m.maxMessages == maxMessages && m.conversations == map[]
  {
    AgentMemory(maxMessages, map[])
  }

  /** Python's `l[start:]` for any integer `start`: a negative start counts
      from the end and is clamped at the front, so `l[-0:]` is all of `l`. */
  function SliceFrom<T>(l: seq<T>, start: int): (r: seq<T>)
    ensures |r| <= |l| && r == l[|l| - |r|..]
    ensures start < 0 ==> |r| == if -start <= |l| then -start else |l|
    ensures start >= 0 ==> |r| == if start <= |l| then |l| - start else 0
  {
    var from := if start < 0 then (if |l| + start < 0 then 0 else |l| + start)
                else (if start > |l| then |l| else start);
    l[from..]
  }

  /** The truncation step of `add_message`: a list longer than `maxMessages`
      is replaced by `l[-maxMessages:]`. */
  function Truncate(l: seq<Record>, maxMessages: int): seq<Record> {
    if |l| > maxMessages then SliceFrom(l, -maxMessages) else l
  }

  /** `add_message`: creates the session on first use, appends the record and
      keeps only the newest `maxMessages` records. */
  function AddMessage(m: AgentMemory, sessionId: string, rec: Record): (r: AgentMemory)
    ensures r.maxMessages == m.maxMessages
    ensures r.conversations.Keys == m.conversations.Keys + {sessionId}
    // bounded, and the new record is the last one
    ensures m.maxMessages >= 1 ==> 1 <= |r.conversations[sessionId]| <= m.maxMessages
    ensures m.maxMessages >= 1 ==> r.conversations[sessionId][|r.conversations[sessionId]| - 1] == rec
  {
    var l := History(m, sessionId) + [rec];
    m.(conversations := m.conversations[sessionId := Truncate(l, m.maxMessages)])
  }

  /** `get_conversation_history`: the retained records, or `[]` for a session
      never seen (or cleared). */
  function History(m: AgentMemory, sessionId: string): (r: seq<Record>)
    ensures sessionId !in m.conversations ==> r == []
    ensures sessionId in m.conversations ==> r == m.conversations[sessionId]
  {
    if sessionId in m.conversations then m.conversations[sessionId] else []
  }

  /** `clear_conversation`: forgets one session; no error when it is absent. */
  function ClearConversation(m: AgentMemory, sessionId: string): (r: AgentMemory)
    ensures r.maxMessages == m.maxMessages
    ensures r.conversations.Keys == m.conversations.Keys - {sessionId}
    ensures forall k :: k in r.conversations ==> r.conversations[k] == m.conversations[k]
    ensures sessionId !in m.conversations ==> r == m
  {
    m.(conversations := m.conversations - {sessionId})
  }

  /** After clearing, the session reads back as empty; clearing twice is the
      same as clearing once. */
  lemma ClearIsIdempotent(m: AgentMemory, sessionId: string)
    ensures History(ClearConversation(m, sessionId), sessionId) == []
    ensures ClearConversation(ClearConversation(m, sessionId), sessionId) == ClearConversation(m, sessionId)
  {
  }

  /** Adding to one session never changes another session. */
  lemma AddIsolatesSessions(m: AgentMemory, sessionId: string, rec: Record)
    ensures forall k :: k in m.conversations && k != sessionId ==>
              AddMessage(m, sessionId, rec).conversations[k] == m.conversations[k]
  {
  }

  /** Adds the records one by one to the same session. */
  function AddAll(m: AgentMemory, sessionId: string, recs: seq<Record>): AgentMemory
    decreases |recs|
  {
    if |recs| == 0 then m
    else AddAll(AddMessage(m, sessionId, recs[0]), sessionId, recs[1..])
  }

  /** The newest `n` elements of `l` (all of them when there are fewer). */
  function Newest<T>(l: seq<T>, n: nat): seq<T> {
    if |l| <= n then l else l[|l| - n..]
  }

  /** Taking the newest `n` twice is the same as taking them once. */
  lemma NewestOfNewest<T>(a: seq<T>, b: seq<T>, n: nat)
    ensures Newest(Newest(a, n) + b, n) == Newest(a + b, n)
  {
    if |a| > n {
      var c := Newest(a, n) + b;
      var d := a + b;
      assert d[|a| - n..] == c;
      assert d[|d| - n..] == c[|c| - n..];
    }
  }

  /** One `add_message` keeps the newest `maxMessages` of the old history
      followed by the new record: the record is last and the rest are the
      most recent earlier records, in order. */
  lemma AddMessageKeepsNewest(m: AgentMemory, sessionId: string, rec: Record)
    requires m.maxMessages >= 1
    ensures History(AddMessage(m, sessionId, rec), sessionId)
              == Newest(History(m, sessionId) + [rec], m.maxMessages)
    ensures |History(AddMessage(m, sessionId, rec), sessionId)| <= m.maxMessages
  {
  }

  /** Over any run of `add_message` calls on one session that starts within
      the bound, the history is the newest `maxMessages` records of
      everything added, in insertion order: truncation keeps relative order
      and drops only the oldest. */
  lemma {:induction false} AddAllKeepsNewest(m: AgentMemory, sessionId: string, recs: seq<Record>)
    requires m.maxMessages >= 1
    requires |History(m, sessionId)| <= m.maxMessages
    ensures History(AddAll(m, sessionId, recs), sessionId)
              == Newest(History(m, sessionId) + recs, m.maxMessages)
    decreases |recs|
  {
    var prior := History(m, sessionId);
    var n := m.maxMessages;
    if |recs| == 0 {
      assert prior + recs == prior;
    } else {
      var m1 := AddMessage(m, sessionId, recs[0]);
      var rest := recs[1..];
      AddMessageKeepsNewest(m, sessionId, recs[0]);
      calc {
        History(AddAll(m, sessionId, recs), sessionId);
        History(AddAll(m1, sessionId, rest), sessionId);
        { AddAllKeepsNewest(m1, sessionId, rest); }
        Newest(History(m1, sessionId) + rest, n);
        Newest(Newest(prior + [recs[0]], n) + rest, n);
        { NewestOfNewest(prior + [recs[0]], rest, n); }
        Newest((prior + [recs[0]]) + rest, n);
        { assert (prior + [recs[0]]) + rest == prior + recs; }
        Newest(prior + recs, n);
      }
    }
  }

  /** A session created by `add_message` calls alone holds exactly the newest
      `maxMessages` records given to it. */
  lemma FreshSessionKeepsNewest(maxMessages: int, sessionId: string, recs: seq<Record>)
    requires maxMessages >= 1
    ensures History(AddAll(Empty(maxMessages), sessionId, recs), sessionId) == Newest(recs, maxMessages)
  {
    AddAllKeepsNewest(Empty(maxMessages), sessionId, recs);
    assert [] + recs == recs;
  }

  /** With `max_messages == 0` the slice `l[-0:]` is the whole list, so the
      session grows without bound. */
  lemma {:induction false} ZeroCapacityKeepsEverything(m: AgentMemory, sessionId: string, recs: seq<Record>)
    requires m.maxMessages == 0
    ensures History(AddAll(m, sessionId, recs), sessionId) == History(m, sessionId) + recs
    decreases |recs|
  {
    var prior := History(m, sessionId);
    if |recs| == 0 {
      assert prior + recs == prior;
    } else {
      var m1 := AddMessage(m, sessionId, recs[0]);
      assert AddAll(m, sessionId, recs) == AddAll(m1, sessionId, recs[1..]);
      assert History(m1, sessionId) == prior + [recs[0]] by {
        var l := prior + [recs[0]];
        assert SliceFrom(l, -0) == l;
      }
      ZeroCapacityKeepsEverything(m1, sessionId, recs[1..]);
      assert (prior + [recs[0]]) + recs[1..] == prior + recs;
    }
  }
}
