/** The bounded message history (`MessageHistoryManager` in both source
    trees): messages are appended at the end, and once the list grows past
    the limit the oldest one is evicted. */
module History {
  import opened Model

  /** `MESSAGE_HISTORY_LIMIT`. */
  const Limit: nat := 10

  /** The history, oldest message first. */
  type History = seq<Message>

  /** A new manager starts with an empty history. */
  const Empty: History := []

  /** `addMessage`: the message goes to the end; if the list now holds more
      than `Limit` entries, the entry at index 0 is removed. */
  function AddMessage(h: History, m: Message): (r: History)
    ensures |r| > 0 && r[|r| - 1] == m
    ensures |h| < Limit ==> r == h + [m]
    ensures |h| >= Limit ==> |r| == |h| && r == h[1..] + [m]
  {
    var appended := h + [m];
    if |appended| > Limit then appended[1..] else appended
  }

  /** `getHistory`: a copy of the list, oldest first. Sequences are values,
      so the copy is the history itself, and reading it changes nothing. */
  function GetHistory(h: History): (r: seq<Message>)
    ensures |r| == |h| && forall k :: 0 <= k < |h| ==> r[k] == h[k]
  {
    h
  }

  /** The bound is kept: a history within the limit stays within it. */
  lemma AddMessageBounded(h: History, m: Message)
    requires |h| <= Limit
    ensures |AddMessage(h, m)| <= Limit
    ensures |AddMessage(h, m)| == if |h| < Limit then |h| + 1 else Limit
  {
  }

  /** Retained messages keep their relative order: the new history is the old
      one with some oldest entries removed, followed by the new message. */
  lemma AddMessageKeepsOrder(h: History, m: Message)
    ensures exists d :: 0 <= d <= |h| && AddMessage(h, m) == h[d..] + [m]
  {
    if |h| >= Limit {
      assert AddMessage(h, m) == h[1..] + [m];
    } else {
      assert AddMessage(h, m) == h[0..] + [m];
    }
  }

  /** The history after appending every message of `ms`, in order. */
  function AddAll(h: History, ms: seq<Message>): History
    decreases |ms|
  {
    if |ms| == 0 then h else AddAll(AddMessage(h, ms[0]), ms[1..])
  }

  /** The last `n` entries of `s` (all of them when it is shorter). */
  function LastN<T>(s: seq<T>, n: nat): (r: seq<T>)
    ensures |r| == if |s| < n then |s| else n
  {
    if |s| <= n then s else s[|s| - n..]
  }

  /** From any history within the limit, appending `ms` leaves exactly the
      last `Limit` messages of the old history followed by `ms`, in order. */
  lemma {:induction false} AddAllKeepsLast(h: History, ms: seq<Message>)
    requires |h| <= Limit
    ensures AddAll(h, ms) == LastN(h + ms, Limit)
    decreases |ms|
  {
    if |ms| > 0 {
      var m, rest := ms[0], ms[1..];
      AddMessageBounded(h, m);
      AddAllKeepsLast(AddMessage(h, m), rest);
      AppendThenLast(h, m, rest);
      assert ms == [m] + rest;
    }
  }

  /** One append followed by `rest` keeps the same last `Limit` messages as
      the old history followed by the message and `rest`. */
  lemma AppendThenLast(h: History, m: Message, rest: seq<Message>)
    requires |h| <= Limit
    ensures LastN(AddMessage(h, m) + rest, Limit) == LastN(h + ([m] + rest), Limit)
  {
    if |h| < Limit {
      assert AddMessage(h, m) + rest == h + ([m] + rest);
    } else {
      assert AddMessage(h, m) + rest == (h + ([m] + rest))[1..];
      LastNDropFirst(h + ([m] + rest), Limit);
    }
  }

  /** Dropping the first element of a sequence longer than `n` does not
      change its last `n` elements. */
  lemma LastNDropFirst<T>(s: seq<T>, n: nat)
    requires |s| > n
    ensures LastN(s[1..], n) == LastN(s, n)
  {
    assert s[1..][|s| - 1 - n..] == s[|s| - n..];
  }

  /** Starting empty, after `N` appends the history is the last `min(N, 10)`
      messages in the order they were appended. */
  lemma HistoryIsLastMessages(ms: seq<Message>)
    ensures AddAll(Empty, ms) == LastN(ms, Limit)
    ensures |AddAll(Empty, ms)| <= Limit
  {
    AddAllKeepsLast(Empty, ms);
    assert Empty + ms == ms;
  }

  /** What `getHistory` hands a client after the messages `ms` were added to
      a new manager: at most `Limit` of them, the newest, oldest first, each
      the message appended at the matching position of `ms`. */
  lemma HistorySnapshot(ms: seq<Message>)
    ensures GetHistory(AddAll(Empty, ms)) == LastN(ms, Limit)
    ensures |GetHistory(AddAll(Empty, ms))| <= Limit
    ensures var r := GetHistory(AddAll(Empty, ms));
            forall k :: 0 <= k < |r| ==> r[k] == ms[|ms| - |r| + k]
  {
    HistoryIsLastMessages(ms);
  }
}
