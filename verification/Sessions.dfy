/**
 The cache of paid sessions: one session for a node, a recipient and an expiration block, found again under a string
 made of the three.
 */
module Sessions {
  import opened Decimals
  import opened Filters
  import opened Wrappers

  datatype SessionKey = SessionKey(nodeId: string, recipient: string, expirationBlock: nat)

  // ----------------------------------------------------------------------------------------------
  // The key string
  // ----------------------------------------------------------------------------------------------

  function Lower(s: string): (r: string)
    ensures |r| == |s|
    ensures forall i | 0 <= i < |s| :: r[i] == if 'A' <= s[i] <= 'Z' then s[i] - 'A' + 'a' else s[i]
  {
    if s == "" then ""
    else [if 'A' <= s[0] <= 'Z' then s[0] - 'A' + 'a' else s[0]] + Lower(s[1..])
  }

  function KeyToString(k: SessionKey): string {
    k.nodeId + "|" + Lower(k.recipient) + "|" + Decimal(k.expirationBlock)
  }

  /** The two cases of one letter. */
  predicate IsCaseOf(upper: char, lower: char) {
    'A' <= upper <= 'Z' && lower as int == upper as int + 32
  }

  /** Equal but for the case of letters. */
  predicate SameButCase(a: string, b: string) {
    |a| == |b| && forall i | 0 <= i < |a| :: a[i] == b[i] || IsCaseOf(a[i], b[i]) || IsCaseOf(b[i], a[i])
  }

  /** Two keys name one session if they have the same node, recipient up to case, and block. */
  predicate SameSession(a: SessionKey, b: SessionKey) {
    a.nodeId == b.nodeId && SameButCase(a.recipient, b.recipient) && a.expirationBlock == b.expirationBlock
  }

  lemma LowerTellsCharsApart(x: char, y: char)
    ensures (if 'A' <= x <= 'Z' then x - 'A' + 'a' else x) == (if 'A' <= y <= 'Z' then y - 'A' + 'a' else y)
      <==> x == y || IsCaseOf(x, y) || IsCaseOf(y, x)
  {
  }

  /** Lowering tells two strings apart exactly if they differ in more than case. */
  lemma LowerTellsApart(a: string, b: string)
    ensures Lower(a) == Lower(b) <==> SameButCase(a, b)
  {
    hide Lower, IsCaseOf;
    if |a| == |b| {
      forall i | 0 <= i < |a|
        ensures Lower(a)[i] == Lower(b)[i] <==> a[i] == b[i] || IsCaseOf(a[i], b[i]) || IsCaseOf(b[i], a[i])
      {
        LowerTellsCharsApart(a[i], b[i]);
      }
    }
  }

  lemma LastBar(front: string, last: string)
    requires '|' !in last
    ensures var s := front + "|" + last;
      && s[|front|] == '|' && (forall k | |front| < k < |s| :: s[k] != '|')
      && s[..|front|] == front && s[|front| + 1..] == last
  {
    var s := front + "|" + last;
    forall k | |front| < k < |s| ensures s[k] != '|' {
      assert s[k] == last[k - |front| - 1];
    }
  }

  /** Two strings cut at their last `|` agree in both parts. */
  lemma SplitAtLastBar(front: string, last: string, front': string, last': string)
    requires '|' !in last && '|' !in last'
    requires front + "|" + last == front' + "|" + last'
    ensures front == front' && last == last'
  {
    LastBar(front, last);
    LastBar(front', last');
  }

  /** A node id may hold any character; a recipient is a hexadecimal address. */
  predicate IsKey(k: SessionKey) {
    '|' !in k.recipient
  }

  lemma NoBarInKey(k: SessionKey)
    requires IsKey(k)
    ensures '|' !in Lower(k.recipient) && '|' !in Decimal(k.expirationBlock)
  {
    var r := Lower(k.recipient);
    forall i | 0 <= i < |r|
      ensures r[i] != '|'
    {
      assert k.recipient[i] in k.recipient;
    }
  }

  /** The string tells two keys apart exactly if they name different sessions. */
  lemma KeyStringInjective(a: SessionKey, b: SessionKey)
    requires IsKey(a) && IsKey(b)
    ensures KeyToString(a) == KeyToString(b) <==> SameSession(a, b)
  {
    LowerTellsApart(a.recipient, b.recipient);
    NoBarInKey(a);
    NoBarInKey(b);
    if KeyToString(a) == KeyToString(b) {
      hide Decimal, Lower, SameButCase;
      SplitAtLastBar(a.nodeId + "|" + Lower(a.recipient), Decimal(a.expirationBlock),
                     b.nodeId + "|" + Lower(b.recipient), Decimal(b.expirationBlock));
      SplitAtLastBar(a.nodeId, Lower(a.recipient), b.nodeId, Lower(b.recipient));
      DecimalInjective(a.expirationBlock, b.expirationBlock);
    }
  }

  /** With a `|` in a recipient two sessions would share a string. */
  lemma BarInRecipientCollides()
    ensures var a, b := SessionKey("n|x", "y", 0), SessionKey("n", "x|y", 0);
      KeyToString(a) == KeyToString(b) && !SameSession(a, b)
  {
    var a, b := SessionKey("n|x", "y", 0), SessionKey("n", "x|y", 0);
    assert Lower("y") == "y" && Lower("x|y") == "x|y";
    assert KeyToString(a) == "n|x|y|" + Decimal(0) == KeyToString(b);
  }

  // ----------------------------------------------------------------------------------------------
  // The cache as a value
  // ----------------------------------------------------------------------------------------------

  datatype Entry = Entry(key: SessionKey, workId: string, expiresAt: int)

  /** A place in the `entries` map, which keeps its insertion order. */
  datatype Slot = Slot(id: string, entry: Entry)

  /** The map, and everything that ever happened to sessions: which were started, which the daemon was asked to
      close, and which were dropped because they had expired. */
  datatype Cache = Cache(entries: seq<Slot>, started: seq<Entry>, closeAttempted: seq<Entry>, dropped: seq<Entry>)

  const EMPTY := Cache([], [], [], [])

  function Find(entries: seq<Slot>, id: string): Option<Entry> {
    if entries == [] then None
    else if entries[0].id == id then Some(entries[0].entry)
    else Find(entries[1..], id)
  }

  /** `entries.delete(id)`. */
  function Delete(entries: seq<Slot>, id: string): seq<Slot> {
    if entries == [] then []
    else (if entries[0].id == id then [] else [entries[0]]) + Delete(entries[1..], id)
  }

  function Entries(slots: seq<Slot>): (r: seq<Entry>)
    ensures |r| == |slots| && forall i | 0 <= i < |slots| :: r[i] == slots[i].entry
  {
    seq(|slots|, i requires 0 <= i < |slots| => slots[i].entry)
  }

  function Of(entries: seq<Slot>, nodeId: string): seq<Slot> {
    if entries == [] then []
    else (if entries[0].entry.key.nodeId == nodeId then [entries[0]] else []) + Of(entries[1..], nodeId)
  }

  function Without(entries: seq<Slot>, nodeId: string): seq<Slot> {
    if entries == [] then []
    else (if entries[0].entry.key.nodeId == nodeId then [] else [entries[0]]) + Without(entries[1..], nodeId)
  }

  datatype Quote = Quote(recipient: string, expirationBlock: nat, expiresAt: int)

  /** A call on the cache. The daemon answers a start with a work id, or with nothing if it fails. */
  datatype Call =
    | GetOrStart(nodeId: string, quote: Quote, now: int, daemon: Option<string>)
    | Close(nodeId: string)
    | CloseAll

  function KeyOf(nodeId: string, quote: Quote): SessionKey {
    SessionKey(nodeId, quote.recipient, quote.expirationBlock)
  }

  predicate IsLive(entry: Option<Entry>, now: int) {
    entry.Some? && entry.value.expiresAt > now
  }

  function Perform(c: Cache, call: Call): Cache {
    match call
    case GetOrStart(nodeId, quote, now, daemon) =>
      var key := KeyOf(nodeId, quote);
      var id := KeyToString(key);
      var existing := Find(c.entries, id);
      if IsLive(existing, now) then c
      else
        var cleared :=
          if existing.None? then c
          else c.(entries := Delete(c.entries, id), dropped := c.dropped + [existing.value]);
        if daemon.None? then cleared
        else
          var entry := Entry(key, daemon.value, quote.expiresAt);
          cleared.(entries := cleared.entries + [Slot(id, entry)], started := c.started + [entry])
    case Close(nodeId) =>
      c.(entries := Without(c.entries, nodeId), closeAttempted := c.closeAttempted + Entries(Of(c.entries, nodeId)))
    case CloseAll =>
      c.(entries := [], closeAttempted := c.closeAttempted + Entries(c.entries))
  }

  /** The work id a call on the cache answers with; None if it answers with none. */
  function Reply(c: Cache, call: Call): Option<string> {
    if call.GetOrStart? then
      var existing := Find(c.entries, KeyToString(KeyOf(call.nodeId, call.quote)));
      if IsLive(existing, call.now) then Some(existing.value.workId) else call.daemon
    else None
  }

  function Run(c: Cache, calls: seq<Call>): Cache
    decreases |calls|
  {
    if calls == [] then c else Run(Perform(c, calls[0]), calls[1..])
  }

  // ----------------------------------------------------------------------------------------------
  // Invariant
  // ----------------------------------------------------------------------------------------------

  /** Every entry sits under its own key, and under nothing else. */
  predicate Keyed(entries: seq<Slot>) {
    && (forall i | 0 <= i < |entries| ::
          entries[i].id == KeyToString(entries[i].entry.key) && IsKey(entries[i].entry.key))
    && (forall i, j | 0 <= i < j < |entries| :: entries[i].id != entries[j].id)
  }

  /** Each started session is live, was asked to close, or was dropped: one of the three, and once. */
  ghost predicate Accounted(c: Cache) {
    multiset(c.started) == multiset(Entries(c.entries)) + multiset(c.closeAttempted) + multiset(c.dropped)
  }

  ghost predicate Inv(c: Cache) {
    Keyed(c.entries) && Accounted(c)
  }

  predicate LegalCall(call: Call) {
    call.GetOrStart? ==> IsKey(KeyOf(call.nodeId, call.quote))
  }

  lemma EntriesCons(slots: seq<Slot>)
    requires slots != []
    ensures multiset(Entries(slots)) == multiset{slots[0].entry} + multiset(Entries(slots[1..]))
    ensures multiset(Entries([slots[0]])) == multiset{slots[0].entry}
  {
    assert Entries(slots) == [slots[0].entry] + Entries(slots[1..]);
    assert Entries([slots[0]]) == [slots[0].entry];
  }

  lemma EntriesAppend(left: seq<Slot>, right: seq<Slot>)
    ensures multiset(Entries(left + right)) == multiset(Entries(left)) + multiset(Entries(right))
  {
    assert Entries(left + right) == Entries(left) + Entries(right);
  }

  lemma KeyedCons(slots: seq<Slot>)
    requires slots != []
    ensures Keyed(slots)
      <==> && Keyed(slots[1..])
           && slots[0].id == KeyToString(slots[0].entry.key) && IsKey(slots[0].entry.key)
           && forall s | s in slots[1..] :: s.id != slots[0].id
  {
    hide KeyToString;
    var rest := slots[1..];
    assert slots == [slots[0]] + rest;
    if Keyed(slots) {
      forall s | s in rest ensures s.id != slots[0].id {
        var i :| 0 <= i < |rest| && rest[i] == s;
        assert slots[i + 1] == s;
      }
    }
  }

  lemma {:induction false} FindsTheSlot(entries: seq<Slot>, id: string)
    ensures Find(entries, id).Some? <==> exists s | s in entries :: s.id == id
    ensures Find(entries, id).Some? ==> Slot(id, Find(entries, id).value) in entries
    ensures Find(entries, id).None? ==> Delete(entries, id) == entries
    ensures forall s :: s in Delete(entries, id) <==> s in entries && s.id != id
  {
    if entries != [] {
      FindsTheSlot(entries[1..], id);
      assert entries == [entries[0]] + entries[1..];
    }
  }

  lemma {:induction false} DeleteTakesOne(entries: seq<Slot>, id: string)
    requires Keyed(entries)
    ensures Keyed(Delete(entries, id))
    ensures Find(entries, id).Some? ==>
      multiset(Entries(entries)) == multiset(Entries(Delete(entries, id))) + multiset{Find(entries, id).value}
  {
    hide KeyToString, Keyed;
    if entries == [] {
    } else {
      var head, rest, left := entries[0], entries[1..], Delete(entries, id);
      assert left == (if head.id == id then [] else [head]) + Delete(rest, id);
      assert Find(entries, id) == if head.id == id then Some(head.entry) else Find(rest, id);
      hide Entries, Find, Delete;
      KeyedCons(entries);
      EntriesCons(entries);
      FindsTheSlot(rest, id);
      DeleteTakesOne(rest, id);
      if head.id == id {
        assert left == Delete(rest, id) == rest;
      } else {
        assert left[0] == head && left[1..] == Delete(rest, id);
        KeyedCons(left);
        EntriesCons(left);
      }
    }
  }

  lemma {:induction false} NodeSlots(entries: seq<Slot>, nodeId: string)
    ensures forall s :: s in Without(entries, nodeId) <==> s in entries && s.entry.key.nodeId != nodeId
    ensures forall s :: s in Of(entries, nodeId) <==> s in entries && s.entry.key.nodeId == nodeId
  {
    if entries != [] {
      NodeSlots(entries[1..], nodeId);
      assert entries == [entries[0]] + entries[1..];
    }
  }

  lemma {:induction false} WithoutKeyed(entries: seq<Slot>, nodeId: string)
    requires Keyed(entries)
    ensures Keyed(Without(entries, nodeId))
  {
    hide KeyToString, Keyed;
    if entries == [] {
    } else {
      var head, rest, others := entries[0], entries[1..], Without(entries, nodeId);
      assert others == (if head.entry.key.nodeId == nodeId then [] else [head]) + Without(rest, nodeId);
      hide Without;
      KeyedCons(entries);
      WithoutKeyed(rest, nodeId);
      if head.entry.key.nodeId == nodeId {
        assert others == Without(rest, nodeId);
      } else {
        assert others[0] == head && others[1..] == Without(rest, nodeId);
        NodeSlots(rest, nodeId);
        KeyedCons(others);
      }
    }
  }

  lemma {:induction false} NodeSplits(entries: seq<Slot>, nodeId: string)
    ensures multiset(Entries(entries))
      == multiset(Entries(Without(entries, nodeId))) + multiset(Entries(Of(entries, nodeId)))
  {
    if entries == [] {
    } else {
      var head, rest := entries[0], entries[1..];
      var mine, others := Of(entries, nodeId), Without(entries, nodeId);
      var isMine := head.entry.key.nodeId == nodeId;
      assert mine == (if isMine then [head] else []) + Of(rest, nodeId);
      assert others == (if isMine then [] else [head]) + Without(rest, nodeId);
      hide Entries, Of, Without;
      EntriesCons(entries);
      NodeSplits(rest, nodeId);
      if isMine {
        assert mine[0] == head && mine[1..] == Of(rest, nodeId) && others == Without(rest, nodeId);
        EntriesCons(mine);
      } else {
        assert others[0] == head && others[1..] == Without(rest, nodeId) && mine == Of(rest, nodeId);
        EntriesCons(others);
      }
    }
  }

  lemma KeyedAppend(slots: seq<Slot>, slot: Slot)
    requires Keyed(slots) && slot.id == KeyToString(slot.entry.key) && IsKey(slot.entry.key)
    requires forall s | s in slots :: s.id != slot.id
    ensures Keyed(slots + [slot])
  {
    hide KeyToString;
  }

  lemma PerformKeepsInv(c: Cache, call: Call)
    requires Inv(c) && LegalCall(call)
    ensures Inv(Perform(c, call))
  {
    hide KeyToString, Keyed, Find, Delete, Entries;
    match call
    case GetOrStart(nodeId, quote, now, daemon) =>
      var id := KeyToString(KeyOf(nodeId, quote));
      var kept := Delete(c.entries, id);
      FindsTheSlot(c.entries, id);
      DeleteTakesOne(c.entries, id);
      if daemon.Some? {
        var entry := Entry(KeyOf(nodeId, quote), daemon.value, quote.expiresAt);
        KeyedAppend(kept, Slot(id, entry));
        EntriesAppend(kept, [Slot(id, entry)]);
        EntriesCons([Slot(id, entry)]);
      }
    case Close(nodeId) =>
      hide Of, Without;
      WithoutKeyed(c.entries, nodeId);
      NodeSplits(c.entries, nodeId);
    case CloseAll =>
      NothingKept();
  }

  lemma NothingKept()
    ensures Keyed([]) && Entries([]) == []
  {
  }

  /** Over every sequential run, sessions are conserved and the map stays keyed. */
  lemma {:induction false} SessionsConserved(c: Cache, calls: seq<Call>)
    requires Inv(c)
    requires forall call | call in calls :: LegalCall(call)
    ensures Inv(Run(c, calls))
    decreases |calls|
  {
    if calls != [] {
      PerformKeepsInv(c, calls[0]);
      SessionsConserved(Perform(c, calls[0]), calls[1..]);
    }
  }

  // ----------------------------------------------------------------------------------------------
  // What follows for one session
  // ----------------------------------------------------------------------------------------------

  /** The work ids that the daemon has ready for the starts of a run. */
  function Answers(calls: seq<Call>): seq<string> {
    if calls == [] then []
    else
      (if calls[0].GetOrStart? && calls[0].daemon.Some? then [calls[0].daemon.value] else []) + Answers(calls[1..])
  }

  function WithId(entries: seq<Entry>, workId: string): nat {
    if entries == [] then 0
    else WithId(entries[..|entries| - 1], workId) + if entries[|entries| - 1].workId == workId then 1 else 0
  }

  lemma {:induction false} WithIdCounts(entries: seq<Entry>, entry: Entry)
    ensures multiset(entries)[entry] <= WithId(entries, entry.workId)
    decreases |entries|
  {
    if entries != [] {
      var init := entries[..|entries| - 1];
      WithIdCounts(init, entry);
      assert entries == init + [entries[|entries| - 1]];
    }
  }

  lemma StartsOne(c: Cache, call: Call, workId: string)
    ensures WithId(Perform(c, call).started, workId)
      <= WithId(c.started, workId) + if call.GetOrStart? && call.daemon == Some(workId) then 1 else 0
  {
    hide KeyToString, Find, Delete, Without, Of, Entries;
    var after := Perform(c, call);
    if after.started != c.started {
      assert after.started[..|c.started|] == c.started;
    }
  }

  lemma {:induction false} StartedWereAnswered(c: Cache, calls: seq<Call>, workId: string)
    ensures WithId(Run(c, calls).started, workId) <= WithId(c.started, workId) + multiset(Answers(calls))[workId]
    decreases |calls|
  {
    hide Perform;
    if calls != [] {
      StartsOne(c, calls[0], workId);
      StartedWereAnswered(Perform(c, calls[0]), calls[1..], workId);
      hide WithId;
      assert multiset(Answers(calls))[workId] == multiset(Answers(calls[1..]))[workId]
        + if calls[0].GetOrStart? && calls[0].daemon == Some(workId) then 1 else 0;
    }
  }

  /**
   If the daemon gives a session's work id no second time, then after any run from the empty cache that session is
   live, close-attempted or dropped if it was started, never two of them, and never asked to close twice.
   */
  lemma ClosedAtMostOnce(calls: seq<Call>, entry: Entry)
    requires forall call | call in calls :: LegalCall(call)
    requires multiset(Answers(calls))[entry.workId] <= 1
    ensures var c := Run(EMPTY, calls);
      multiset(Entries(c.entries))[entry] + multiset(c.closeAttempted)[entry] + multiset(c.dropped)[entry]
        == if entry in c.started then 1 else 0
  {
    NothingKept();
    SessionsConserved(EMPTY, calls);
    StartedWereAnswered(EMPTY, calls, entry.workId);
    var c := Run(EMPTY, calls);
    WithIdCounts(c.started, entry);
    hide Run, Answers;
    assert multiset(c.started)[entry]
      == multiset(Entries(c.entries))[entry] + multiset(c.closeAttempted)[entry] + multiset(c.dropped)[entry];
    assert entry in c.started <==> entry in multiset(c.started);
  }

  /** A session is handed out again exactly if one started for the same node, recipient and block has not expired. */
  lemma ReusesTheRightSession(c: Cache, nodeId: string, quote: Quote, now: int)
    requires Inv(c) && IsKey(KeyOf(nodeId, quote))
    ensures var existing := Find(c.entries, KeyToString(KeyOf(nodeId, quote)));
      && (existing.Some? ==>
            && existing.value in Entries(c.entries)
            && SameSession(existing.value.key, KeyOf(nodeId, quote)))
      && (IsLive(existing, now) <==>
            exists e | e in Entries(c.entries) :: SameSession(e.key, KeyOf(nodeId, quote)) && e.expiresAt > now)
  {
    var key := KeyOf(nodeId, quote);
    var id := KeyToString(key);
    var existing := Find(c.entries, id);
    FindsTheSlot(c.entries, id);
    forall s | s in c.entries
      ensures s.id == id <==> SameSession(s.entry.key, key)
      ensures s.id == id ==> existing == Some(s.entry)
      ensures s.entry in Entries(c.entries)
    {
      KeyStringInjective(s.entry.key, key);
      hide KeyToString;
      var i :| 0 <= i < |c.entries| && c.entries[i] == s;
      assert Entries(c.entries)[i] == s.entry;
      if s.id == id {
        var j :| 0 <= j < |c.entries| && c.entries[j] == Slot(id, existing.value);
        assert i == j;
      }
    }
    if e :| e in Entries(c.entries) && SameSession(e.key, key) && e.expiresAt > now {
      var i :| 0 <= i < |c.entries| && Entries(c.entries)[i] == e;
      assert c.entries[i] in c.entries;
    }
  }

  /** Closing a node takes out its sessions, asks for each to be closed, and touches no other. */
  lemma CloseTakesOutTheNode(c: Cache, nodeId: string)
    requires Inv(c)
    ensures var after := Perform(c, Close(nodeId));
      && (forall s :: s in after.entries <==> s in c.entries && s.entry.key.nodeId != nodeId)
      && c.closeAttempted <= after.closeAttempted
      && (var asked := after.closeAttempted[|c.closeAttempted|..];
          && (forall e | e in asked :: e.key.nodeId == nodeId)
          && multiset(Entries(c.entries)) == multiset(Entries(after.entries)) + multiset(asked))
  {
    NodeSlots(c.entries, nodeId);
    NodeSplits(c.entries, nodeId);
    var after := Perform(c, Close(nodeId));
    var mine := Of(c.entries, nodeId);
    assert after.closeAttempted[|c.closeAttempted|..] == Entries(mine);
    forall e | e in Entries(mine) ensures e.key.nodeId == nodeId {
      var i :| 0 <= i < |mine| && Entries(mine)[i] == e;
      assert mine[i] in mine;
    }
  }

  /** A work id handed out belongs to an entry that is in the map afterwards, for the session asked for, and that is
      either not expired or was started by this call. */
  lemma HandsOutTheRightSession(c: Cache, call: Call)
    requires Inv(c) && LegalCall(call) && call.GetOrStart? && Reply(c, call).Some?
    ensures exists e | e in Entries(Perform(c, call).entries) ::
      && e.workId == Reply(c, call).value
      && SameSession(e.key, KeyOf(call.nodeId, call.quote))
      && if Perform(c, call).started == c.started then e.expiresAt > call.now
         else Perform(c, call).started == c.started + [e] && e.expiresAt == call.quote.expiresAt
  {
    hide KeyToString, Lower, Decimal;
    ReusesTheRightSession(c, call.nodeId, call.quote, call.now);
    var key := KeyOf(call.nodeId, call.quote);
    var existing := Find(c.entries, KeyToString(key));
    var after := Perform(c, call);
    if IsLive(existing, call.now) {
      assert existing.value in Entries(after.entries);
    } else {
      var entry := Entry(key, call.daemon.value, call.quote.expiresAt);
      assert Entries(after.entries)[|after.entries| - 1] == entry;
    }
  }

  /**
   What a call does, by the entries for the session it asks for: with one that has not expired it changes nothing and
   hands out that one's work id. Otherwise it drops the one that has expired, if there is one, and asks the daemon:
   exactly if that answers, one session is started, under this key, and its work id handed out.
   */
  lemma StartsExactly(c: Cache, call: Call)
    requires Inv(c) && LegalCall(call) && call.GetOrStart?
    ensures var key, after := KeyOf(call.nodeId, call.quote), Perform(c, call);
      && (forall e | e in Entries(c.entries) && SameSession(e.key, key) ::
            if e.expiresAt > call.now then after == c && Reply(c, call) == Some(e.workId)
            else after.dropped == c.dropped + [e])
      && ((forall e | e in Entries(c.entries) && SameSession(e.key, key) :: e.expiresAt <= call.now) ==>
            && Reply(c, call) == call.daemon
            && after.started == c.started
                 + if call.daemon.Some? then [Entry(key, call.daemon.value, call.quote.expiresAt)] else [])
      && ((forall e | e in Entries(c.entries) :: !SameSession(e.key, key)) ==> after.dropped == c.dropped)
      && after.closeAttempted == c.closeAttempted
  {
    var key, after := KeyOf(call.nodeId, call.quote), Perform(c, call);
    var id := KeyToString(key);
    forall e | e in Entries(c.entries) && SameSession(e.key, key)
      ensures Find(c.entries, id) == Some(e)
    {
      FoundBySession(c, e, key);
    }
    ReusesTheRightSession(c, call.nodeId, call.quote, call.now);
    FindsTheSlot(c.entries, id);
  }

  lemma FoundBySession(c: Cache, e: Entry, key: SessionKey)
    requires Inv(c) && IsKey(key) && e in Entries(c.entries) && SameSession(e.key, key)
    ensures Find(c.entries, KeyToString(key)) == Some(e)
    ensures exists i | 0 <= i < |c.entries| :: c.entries[i] == Slot(KeyToString(key), e)
  {
    var i :| 0 <= i < |c.entries| && Entries(c.entries)[i] == e;
    KeyStringInjective(e.key, key);
    hide KeyToString;
    FindsTheSlot(c.entries, KeyToString(key));
    assert c.entries[i] in c.entries;
    var other := Slot(KeyToString(key), Find(c.entries, KeyToString(key)).value);
    var j :| 0 <= j < |c.entries| && c.entries[j] == other;
    assert i == j;
  }

  /** Closing all takes out every entry and asks for each to be closed, in order. */
  lemma CloseAllTakesOutAll(c: Cache)
    ensures var after := Perform(c, CloseAll);
      && after.entries == [] && after.started == c.started && after.dropped == c.dropped
      && after.closeAttempted == c.closeAttempted + Entries(c.entries)
  {
  }

  /** Closing a node asks for its sessions to be closed in the order in which they were put in, and keeps the others in
      theirs: `mine` says which entries are the node's. */
  lemma CloseKeepsOrder(c: Cache, nodeId: string, mine: seq<bool>, others: seq<bool>)
    requires |mine| == |others| == |c.entries|
    requires forall i | 0 <= i < |mine| :: mine[i] <==> c.entries[i].entry.key.nodeId == nodeId
    requires forall i | 0 <= i < |mine| :: others[i] <==> !mine[i]
    ensures var after := Perform(c, Close(nodeId));
      && IsFiltered(after.entries, c.entries, others)
      && exists closed: seq<Slot> ::
           IsFiltered(closed, c.entries, mine) && after.closeAttempted == c.closeAttempted + Entries(closed)
  {
    OfInOrder(c.entries, nodeId, mine);
    WithoutInOrder(c.entries, nodeId, others);
  }

  lemma {:induction false} OfInOrder(entries: seq<Slot>, nodeId: string, kept: seq<bool>)
    requires |kept| == |entries|
    requires forall i | 0 <= i < |kept| :: kept[i] <==> entries[i].entry.key.nodeId == nodeId
    ensures IsFiltered(Of(entries, nodeId), entries, kept)
    decreases |entries|
  {
    hide IsFiltered;
    if entries == [] {
      NothingFiltered(entries, kept);
    } else {
      OfInOrder(entries[1..], nodeId, kept[1..]);
      FilteredCons(Of(entries[1..], nodeId), entries, kept);
    }
  }

  lemma {:induction false} WithoutInOrder(entries: seq<Slot>, nodeId: string, kept: seq<bool>)
    requires |kept| == |entries|
    requires forall i | 0 <= i < |kept| :: kept[i] <==> entries[i].entry.key.nodeId != nodeId
    ensures IsFiltered(Without(entries, nodeId), entries, kept)
    decreases |entries|
  {
    hide IsFiltered;
    if entries == [] {
      NothingFiltered(entries, kept);
    } else {
      WithoutInOrder(entries[1..], nodeId, kept[1..]);
      FilteredCons(Without(entries[1..], nodeId), entries, kept);
    }
  }

  // ----------------------------------------------------------------------------------------------
  // The cache object
  // ----------------------------------------------------------------------------------------------

  /** Taking out the first slot of a node leaves the others where they are. */
  lemma {:induction false} DeleteFirstOf(entries: seq<Slot>, nodeId: string)
    requires Keyed(entries) && Of(entries, nodeId) != []
    ensures var first := Of(entries, nodeId)[0];
      var left := Delete(entries, first.id);
      && first.id == KeyToString(first.entry.key)
      && Keyed(left)
      && Without(left, nodeId) == Without(entries, nodeId)
      && Of(left, nodeId) == Of(entries, nodeId)[1..]
  {
    hide KeyToString, Keyed;
    var head, rest := entries[0], entries[1..];
    var id := Of(entries, nodeId)[0].id;
    KeyedCons(entries);
    FindsTheSlot(rest, id);
    DeleteTakesOne(entries, id);
    if head.entry.key.nodeId == nodeId {
      assert Of(entries, nodeId) == [head] + Of(rest, nodeId);
      assert Delete(entries, id) == rest;
    } else {
      assert Of(entries, nodeId) == Of(rest, nodeId);
      DeleteFirstOf(rest, nodeId);
      NodeSlots(rest, nodeId);
      var left := Delete(entries, id);
      assert Of(rest, nodeId)[0] in rest;
      assert left == [head] + Delete(rest, id) && left[1..] == Delete(rest, id);
    }
  }

  lemma {:induction false} NoneOf(entries: seq<Slot>, nodeId: string)
    requires Of(entries, nodeId) == []
    ensures Without(entries, nodeId) == entries
  {
    if entries != [] {
      assert entries[0].entry.key.nodeId != nodeId;
      NoneOf(entries[1..], nodeId);
    }
  }

  lemma OfStep(entries: seq<Slot>, nodeId: string, i: nat)
    requires i < |entries|
    ensures Of(entries[i..], nodeId)
      == (if entries[i].entry.key.nodeId == nodeId then [entries[i]] else []) + Of(entries[i + 1..], nodeId)
  {
    assert entries[i..][0] == entries[i] && entries[i..][1..] == entries[i + 1..];
  }

  lemma NoSlots(nodeId: string)
    ensures Of([], nodeId) == [] && Entries([]) == []
  {
  }

  class SessionCache {
    var entries: seq<Slot>
    ghost var started: seq<Entry>
    ghost var closeAttempted: seq<Entry>
    ghost var dropped: seq<Entry>

    ghost function State(): Cache
      reads this
    {
      Cache(entries, started, closeAttempted, dropped)
    }

    constructor ()
      ensures State() == EMPTY
    {
      entries, started, closeAttempted, dropped := [], [], [], [];
    }

    /** `daemon` is what `startSession` answers if it is called; None if it throws, and the throw is passed on. */
    method GetOrStart(nodeId: string, quote: Quote, now: int, daemon: Option<string>) returns (workId: Option<string>)
      modifies this
      ensures State() == Perform(old(State()), Call.GetOrStart(nodeId, quote, now, daemon))
      ensures workId == Reply(old(State()), Call.GetOrStart(nodeId, quote, now, daemon))
    {
      var key := SessionKey(nodeId, quote.recipient, quote.expirationBlock);
      var id := KeyToString(key);
      var existing := Find(entries, id);
      if existing.Some? && existing.value.expiresAt > now {
        return Some(existing.value.workId);
      }
      if existing.Some? {
        entries := Delete(entries, id);
        dropped := dropped + [existing.value];
      }
      if daemon.None? {
        return None;
      }
      var entry := Entry(key, daemon.value, quote.expiresAt);
      entries := entries + [Slot(id, entry)];
      started := started + [entry];
      return daemon;
    }

    method EntriesOf(nodeId: string) returns (toClose: seq<Entry>)
      ensures toClose == Entries(Of(entries, nodeId))
    {
      hide Of;
      NoSlots(nodeId);
      toClose := [];
      ghost var mine: seq<Slot> := [];
      var i := 0;
      assert entries[0..] == entries && mine + Of(entries, nodeId) == Of(entries, nodeId);
      while i < |entries|
        invariant 0 <= i <= |entries|
        invariant mine + Of(entries[i..], nodeId) == Of(entries, nodeId)
        invariant toClose == Entries(mine)
      {
        var entry := entries[i].entry;
        OfStep(entries, nodeId, i);
        if entry.key.nodeId == nodeId {
          toClose := toClose + [entry];
          mine := mine + [entries[i]];
        }
        i := i + 1;
      }
      assert entries[i..] == [] && mine + [] == mine;
    }

    /** A close that fails is swallowed, so each session is attempted once whatever the daemon answers. */
    method Close(nodeId: string)
      requires Keyed(entries)
      modifies this
      ensures State() == Perform(old(State()), Call.Close(nodeId))
    {
      hide KeyToString, Keyed, Of, Without, Delete, Entries;
      ghost var mine := Of(entries, nodeId);
      var toClose := EntriesOf(nodeId);
      var i := 0;
      while i < |toClose|
        invariant 0 <= i <= |toClose| == |mine|
        invariant Keyed(entries) && started == old(started) && dropped == old(dropped)
        invariant Without(entries, nodeId) == Without(old(entries), nodeId)
        invariant Of(entries, nodeId) == mine[i..]
        invariant closeAttempted == old(closeAttempted) + toClose[..i]
      {
        DeleteFirstOf(entries, nodeId);
        entries := Delete(entries, KeyToString(toClose[i].key));
        closeAttempted := closeAttempted + [toClose[i]];
        i := i + 1;
      }
      NoneOf(entries, nodeId);
      assert toClose[..i] == toClose;
    }

    method CloseAll()
      modifies this
      ensures State() == Perform(old(State()), Call.CloseAll)
    {
      var all := Entries(entries);
      entries := [];
      var i := 0;
      while i < |all|
        invariant 0 <= i <= |all|
        invariant entries == [] && started == old(started) && dropped == old(dropped)
        invariant closeAttempted == old(closeAttempted) + all[..i]
      {
        closeAttempted := closeAttempted + [all[i]];
        i := i + 1;
      }
      assert all[..i] == all;
    }
  }
}
