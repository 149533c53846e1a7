/**
  The shadow store of store.go: a map from a scope key
  "<business connection>:<chat id>" to a bucket mapping message IDs to the
  last text seen and the time it was stored.

  The mutex and the hourly ticker are not modelled: every operation is a
  pure function from the store before to the store after, and the clock is
  an integer `now` supplied by the caller (the same unit as `ttl`).
 */
module Store {
  import opened Wrappers
  import Decimal

  /** One remembered message: its last known text and when it was stored. */
  datatype StoredMessage = StoredMessage(text: string, timestamp: int)

  /** The messages of one (connection, chat) scope, by message ID. */
  type Bucket = map<int, StoredMessage>

  datatype MessageStore = MessageStore(messages: map<string, Bucket>, ttl: int)

  // ---------------------------------------------------------------------------
  // Scope keys
  // ---------------------------------------------------------------------------

  /** The bucket key, `fmt.Sprintf("%s:%d", bizConnID, chatID)`. */
  function ScopeKey(bizConnID: string, chatID: int): string {
    bizConnID + ":" + Decimal.IntToDecimal(chatID)
  }

  /**
    The key determines the scope. The connection ID may itself contain ':',
    but the decimal chat ID never does, so the key's last ':' is the one the
    format inserted.
   */
  lemma ScopeKeyInjective(conn1: string, chat1: int, conn2: string, chat2: int)
    ensures ScopeKey(conn1, chat1) == ScopeKey(conn2, chat2) ==> conn1 == conn2 && chat1 == chat2
  {
    var d1, d2 := Decimal.IntToDecimal(chat1), Decimal.IntToDecimal(chat2);
    var k1, k2 := ScopeKey(conn1, chat1), ScopeKey(conn2, chat2);
    if k1 == k2 {
      if |conn1| < |conn2| {
        NoColonAfterSeparator(conn1, d1, |conn2|);
        assert false;
      } else if |conn2| < |conn1| {
        NoColonAfterSeparator(conn2, d2, |conn1|);
        assert false;
      }
      assert conn1 == k1[..|conn1|] == k2[..|conn2|] == conn2;
      assert d1 == k1[|conn1| + 1..] == k2[|conn2| + 1..] == d2;
      Decimal.DecimalInjective(chat1, chat2);
    }
  }

  lemma NoColonAfterSeparator(conn: string, digits: string, n: int)
    requires ':' !in digits
    requires |conn| < n < |conn| + 1 + |digits|
    ensures (conn + ":" + digits)[n] != ':'
  {
    assert (conn + ":" + digits)[n] == digits[n - |conn| - 1];
  }

  lemma AllScopeKeysInjective()
    ensures forall conn1, chat1, conn2, chat2 ::
      ScopeKey(conn1, chat1) == ScopeKey(conn2, chat2) ==> conn1 == conn2 && chat1 == chat2
  {
    forall conn1, chat1, conn2, chat2
      ensures ScopeKey(conn1, chat1) == ScopeKey(conn2, chat2) ==> conn1 == conn2 && chat1 == chat2
    {
      ScopeKeyInjective(conn1, chat1, conn2, chat2);
    }
  }

  // ---------------------------------------------------------------------------
  // Reading
  // ---------------------------------------------------------------------------

  /** The whole record stored for a message, if any. */
  function Find(s: MessageStore, bizConnID: string, chatID: int, messageID: int): Option<StoredMessage> {
    var key := ScopeKey(bizConnID, chatID);
    if key in s.messages && messageID in s.messages[key] then Some(s.messages[key][messageID]) else None
  }

  /**
    Get: the stored text and `true`, or `("", false)` when either the bucket
    or the message is missing. Being a function of the store, it changes
    nothing, timestamps included.
   */
  function Get(s: MessageStore, bizConnID: string, chatID: int, messageID: int): (result: (string, bool))
    ensures result.1 <==> Find(s, bizConnID, chatID, messageID).Some?
    ensures result.1 ==> result.0 == Find(s, bizConnID, chatID, messageID).value.text
    ensures !result.1 ==> result.0 == ""
  {
    var key := ScopeKey(bizConnID, chatID);
    if key in s.messages then
      var chat := s.messages[key];
      if messageID in chat then (chat[messageID].text, true) else ("", false)
    else ("", false)
  }

  /** `b` holds the same record as `a` for every message except (conn, chat, id). */
  ghost predicate SameElsewhere(a: MessageStore, b: MessageStore, conn: string, chat: int, id: int) {
    forall c, ch, i :: c != conn || ch != chat || i != id ==> Find(b, c, ch, i) == Find(a, c, ch, i)
  }

  // ---------------------------------------------------------------------------
  // Writing
  // ---------------------------------------------------------------------------

  /** NewMessageStore: nothing stored yet. */
  function NewMessageStore(ttl: int): (s: MessageStore)
    ensures s.ttl == ttl
    ensures Count(s) == 0
    ensures forall c, ch, i :: Find(s, c, ch, i) == None
  {
    assert Entries(map[]) == {};
    MessageStore(map[], ttl)
  }

  /**
    Save: upsert with the timestamp set to `now`, creating the bucket on
    first use. Every other message, in this scope or another, keeps its record.
   */
  function Save(s: MessageStore, bizConnID: string, chatID: int, messageID: int, text: string, now: int): (r: MessageStore)
    ensures Find(r, bizConnID, chatID, messageID) == Some(StoredMessage(text, now))
    ensures SameElsewhere(s, r, bizConnID, chatID, messageID)
    ensures r.messages.Keys == s.messages.Keys + {ScopeKey(bizConnID, chatID)}
    ensures forall k :: k in s.messages && k != ScopeKey(bizConnID, chatID) ==> r.messages[k] == s.messages[k]
    ensures r.ttl == s.ttl
  {
    AllScopeKeysInjective();
    var key := ScopeKey(bizConnID, chatID);
    var chat := if key in s.messages then s.messages[key] else map[];
    s.(messages := s.messages[key := chat[messageID := StoredMessage(text, now)]])
  }

  /**
    Delete: removes the message if present. The bucket stays even when it
    becomes empty, and a missing message leaves the store exactly as it was.
   */
  function Delete(s: MessageStore, bizConnID: string, chatID: int, messageID: int): (r: MessageStore)
    ensures Find(r, bizConnID, chatID, messageID) == None
    ensures SameElsewhere(s, r, bizConnID, chatID, messageID)
    ensures r.messages.Keys == s.messages.Keys
    ensures forall k :: k in s.messages && k != ScopeKey(bizConnID, chatID) ==> r.messages[k] == s.messages[k]
    ensures Find(s, bizConnID, chatID, messageID) == None ==> r == s
    ensures r.ttl == s.ttl
  {
    AllScopeKeysInjective();
    var key := ScopeKey(bizConnID, chatID);
    if key in s.messages then
      var chat := s.messages[key];
      assert messageID !in chat ==> chat - {messageID} == chat;
      s.(messages := s.messages[key := chat - {messageID}])
    else s
  }

  // ---------------------------------------------------------------------------
  // Counting
  // ---------------------------------------------------------------------------

  /** Every stored (scope key, message ID) pair. */
  function Entries(m: map<string, Bucket>): set<(string, int)> {
    set key, id | key in m && id in m[key] :: (key, id)
  }

  ghost function PickKey(m: map<string, Bucket>): string
    requires m != map[]
  {
    var key :| key in m; key
  }

  /** The sum of the bucket sizes, in no particular order. */
  ghost function BucketSizes(m: map<string, Bucket>): nat
    decreases |m|
  {
    if m == map[] then 0
    else
      var key := PickKey(m);
      assert (m - {key}).Keys == m.Keys - {key};
      |m[key]| + BucketSizes(m - {key})
  }

  /** Count: the total number of stored messages, the sum of the bucket sizes. */
  function Count(s: MessageStore): (n: nat)
    ensures n == BucketSizes(s.messages)
  {
    EntriesSize(s.messages);
    |Entries(s.messages)|
  }

  lemma {:induction false} BucketSizesRemove(m: map<string, Bucket>, key: string)
    requires key in m
    ensures BucketSizes(m) == |m[key]| + BucketSizes(m - {key})
    decreases |m|
  {
    var p := PickKey(m);
    if p != key {
      assert (m - {p}).Keys == m.Keys - {p};
      assert (m - {key}).Keys == m.Keys - {key};
      BucketSizesRemove(m - {p}, key);
      BucketSizesRemove(m - {key}, p);
      assert m - {p} - {key} == m - {key} - {p};
    }
  }

  lemma {:induction false} RowSize(key: string, ids: set<int>)
    ensures |set id | id in ids :: (key, id)| == |ids|
    decreases ids
  {
    var row := set id | id in ids :: (key, id);
    if row == {} {
      assert forall x :: x in ids ==> (key, x) in row;
      assert ids == {};
    } else {
      var e :| e in row;
      var x := e.1;
      RowSize(key, ids - {x});
      assert row == (set id | id in ids - {x} :: (key, id)) + {(key, x)};
    }
  }

  lemma {:induction false} EntriesSize(m: map<string, Bucket>)
    ensures |Entries(m)| == BucketSizes(m)
    decreases |m|
  {
    if m == map[] {
      assert Entries(m) == {};
    } else {
      var key := PickKey(m);
      var rest := m - {key};
      assert rest.Keys == m.Keys - {key};
      var row := set id | id in m[key].Keys :: (key, id);
      assert Entries(m) == Entries(rest) + row;
      assert Entries(rest) * row == {};
      RowSize(key, m[key].Keys);
      EntriesSize(rest);
    }
  }

  lemma EntryIffFind(s: MessageStore, conn: string, chat: int, id: int)
    ensures (ScopeKey(conn, chat), id) in Entries(s.messages) <==> Find(s, conn, chat, id).Some?
  {
  }

  /** Saving a message not yet stored adds one to the count; overwriting adds nothing. */
  lemma SaveCount(s: MessageStore, bizConnID: string, chatID: int, messageID: int, text: string, now: int)
    ensures Count(Save(s, bizConnID, chatID, messageID, text, now))
      == Count(s) + (if Find(s, bizConnID, chatID, messageID).None? then 1 else 0)
  {
    var r := Save(s, bizConnID, chatID, messageID, text, now);
    var key := ScopeKey(bizConnID, chatID);
    EntriesInsert(s.messages, key, messageID, StoredMessage(text, now));
    assert Entries(r.messages) == Entries(s.messages) + {(key, messageID)};
    EntryIffFind(s, bizConnID, chatID, messageID);
    if Find(s, bizConnID, chatID, messageID).None? {
      assert (key, messageID) !in Entries(s.messages);
    } else {
      assert (key, messageID) in Entries(s.messages);
      assert Entries(r.messages) == Entries(s.messages);
    }
  }

  /** Deleting a stored message removes one from the count; deleting a missing one changes nothing. */
  lemma DeleteCount(s: MessageStore, bizConnID: string, chatID: int, messageID: int)
    ensures Count(Delete(s, bizConnID, chatID, messageID))
      == Count(s) - (if Find(s, bizConnID, chatID, messageID).Some? then 1 else 0)
  {
    var key := ScopeKey(bizConnID, chatID);
    EntryIffFind(s, bizConnID, chatID, messageID);
    if Find(s, bizConnID, chatID, messageID).Some? {
      EntriesRemove(s.messages, key, messageID);
      assert (key, messageID) in Entries(s.messages);
    }
  }

  lemma EntriesInsert(m: map<string, Bucket>, key: string, id: int, v: StoredMessage)
    ensures Entries(m[key := (if key in m then m[key] else map[])[id := v]]) == Entries(m) + {(key, id)}
  {
  }

  lemma EntriesRemove(m: map<string, Bucket>, key: string, id: int)
    requires key in m
    ensures Entries(m[key := m[key] - {id}]) == Entries(m) - {(key, id)}
  {
  }

  // ---------------------------------------------------------------------------
  // The cleanup sweep
  // ---------------------------------------------------------------------------

  /** Older than the TTL at `now`: `now.Sub(Timestamp) > ttl`. */
  predicate Expired(msg: StoredMessage, now: int, ttl: int) {
    now - msg.timestamp > ttl
  }

  /** What a sweep leaves of a record: the record if it has not expired. */
  function Survivor(entry: Option<StoredMessage>, now: int, ttl: int): Option<StoredMessage> {
    if entry.Some? && !Expired(entry.value, now, ttl) then entry else None
  }

  function Prune(chat: Bucket, now: int, ttl: int): Bucket {
    map id | id in chat && !Expired(chat[id], now, ttl) :: chat[id]
  }

  /** The buckets after a sweep: each pruned, the empty ones dropped. */
  function SweptBuckets(m: map<string, Bucket>, now: int, ttl: int): map<string, Bucket> {
    var pruned := map key | key in m :: Prune(m[key], now, ttl);
    map key | key in pruned && pruned[key] != map[] :: pruned[key]
  }

  lemma SweptBucketsFind(s: MessageStore, now: int, c: string, ch: int, i: int)
    ensures var r := s.(messages := SweptBuckets(s.messages, now, s.ttl));
      Find(r, c, ch, i) == Survivor(Find(s, c, ch, i), now, s.ttl)
  {
    var key := ScopeKey(c, ch);
    if key in s.messages && i in s.messages[key] && !Expired(s.messages[key][i], now, s.ttl) {
      assert i in Prune(s.messages[key], now, s.ttl);
    }
  }

  /**
    One pass of the cleanup loop: drop every expired message, then every
    bucket left empty, including buckets already emptied by Delete.
   */
  function Sweep(s: MessageStore, now: int): (r: MessageStore)
    ensures r.ttl == s.ttl
    ensures forall c, ch, i :: Find(r, c, ch, i) == Survivor(Find(s, c, ch, i), now, s.ttl)
    ensures forall key :: key in r.messages ==> r.messages[key] != map[]
    ensures forall key, id :: key in r.messages && id in r.messages[key] ==> !Expired(r.messages[key][id], now, r.ttl)
    ensures r.messages.Keys <= s.messages.Keys
    ensures forall k, id :: k in r.messages && id in r.messages[k] ==>
      k in s.messages && id in s.messages[k] && r.messages[k][id] == s.messages[k][id]
    ensures forall k, id :: k in s.messages && id in s.messages[k] && !Expired(s.messages[k][id], now, s.ttl) ==>
      k in r.messages && id in r.messages[k]
  {
    var r := s.(messages := SweptBuckets(s.messages, now, s.ttl));
    assert forall c, ch, i :: Find(r, c, ch, i) == Survivor(Find(s, c, ch, i), now, s.ttl)
    by {
      forall c, ch, i {
        SweptBucketsFind(s, now, c, ch, i);
      }
    }
    forall k, id | k in s.messages && id in s.messages[k] && !Expired(s.messages[k][id], now, s.ttl)
      ensures k in r.messages && id in r.messages[k]
    {
      assert id in Prune(s.messages[k], now, s.ttl);
    }
    r
  }

  /** The (key, id) pairs a sweep at `now` evicts. */
  function ExpiredEntries(s: MessageStore, now: int): set<(string, int)> {
    set key, id | key in s.messages && id in s.messages[key] && Expired(s.messages[key][id], now, s.ttl) :: (key, id)
  }

  /** A sweep lowers the count by exactly the number of expired messages. */
  lemma SweepCount(s: MessageStore, now: int)
    ensures Count(Sweep(s, now)) == Count(s) - |ExpiredEntries(s, now)|
  {
    var all, gone := Entries(s.messages), ExpiredEntries(s, now);
    SweptEntries(s, now);
    DifferenceSize(all, gone);
  }

  lemma DifferenceSize<T>(a: set<T>, b: set<T>)
    requires b <= a
    ensures |a - b| == |a| - |b|
  {
    assert a == (a - b) + b;
    assert (a - b) * b == {};
  }

  lemma SweptEntries(s: MessageStore, now: int)
    ensures Entries(Sweep(s, now).messages) == Entries(s.messages) - ExpiredEntries(s, now)
  {
    var r := Sweep(s, now);
    forall e | e in Entries(r.messages)
      ensures e in Entries(s.messages) - ExpiredEntries(s, now)
    {
    }
    forall e | e in Entries(s.messages) - ExpiredEntries(s, now)
      ensures e in Entries(r.messages)
    {
      assert e.1 in Prune(s.messages[e.0], now, s.ttl);
    }
  }

  /** Sweeping twice at the same instant is sweeping once. */
  lemma SweepIdempotent(s: MessageStore, now: int)
    ensures Sweep(Sweep(s, now), now) == Sweep(s, now)
  {
    var r := Sweep(s, now);
    var rr := Sweep(r, now);
    forall key | key in r.messages
      ensures Prune(r.messages[key], now, r.ttl) == r.messages[key]
    {
    }
    assert rr.messages == r.messages;
  }

  /** A message saved at `saved` is still there after a sweep at most `ttl` later. */
  lemma SaveSurvivesSweepWithinTtl(s: MessageStore, bizConnID: string, chatID: int, messageID: int, text: string, saved: int, now: int)
    requires now - saved <= s.ttl
    ensures Get(Sweep(Save(s, bizConnID, chatID, messageID, text, saved), now), bizConnID, chatID, messageID) == (text, true)
  {
  }

  /** ... and is gone after a sweep more than `ttl` later. */
  lemma SaveEvictedAfterTtl(s: MessageStore, bizConnID: string, chatID: int, messageID: int, text: string, saved: int, now: int)
    requires now - saved > s.ttl
    ensures Get(Sweep(Save(s, bizConnID, chatID, messageID, text, saved), now), bizConnID, chatID, messageID) == ("", false)
  {
  }
}
