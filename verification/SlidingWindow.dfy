/**
 The sliding-window script over a Redis sorted set, and why it is a window: along any run it admits a call
 exactly when a plain log of all admissions holds fewer than `limit` of them in the last `windowMs`.
 */
module SlidingWindow {

  datatype Entry = Entry(score: nat, member: string)

  /** The sorted set under one key, in ascending order of score, with the time from which it may expire. */
  datatype Key = Key(entries: seq<Entry>, expireAt: nat)

  const NO_KEY := Key([], 0)

  datatype Reply = Reply(allowed: bool, count: nat, resetMs: nat)

  // ----------------------------------------------------------------------------------------------
  // The script
  // ----------------------------------------------------------------------------------------------

  /** ZREMRANGEBYSCORE key 0 `max`. */
  function Purge(entries: seq<Entry>, max: int): seq<Entry> {
    if entries == [] then []
    else (if entries[0].score <= max then [] else [entries[0]]) + Purge(entries[1..], max)
  }

  function Without(entries: seq<Entry>, member: string): seq<Entry> {
    if entries == [] then []
    else (if entries[0].member == member then [] else [entries[0]]) + Without(entries[1..], member)
  }

  function Insert(entries: seq<Entry>, e: Entry): seq<Entry> {
    if entries == [] || e.score < entries[0].score then [e] + entries
    else [entries[0]] + Insert(entries[1..], e)
  }

  /** ZADD key `score` `member`: a member already present gets the new score. */
  function Add(entries: seq<Entry>, score: nat, member: string): seq<Entry> {
    Insert(Without(entries, member), Entry(score, member))
  }

  /** One run of the script: the key it leaves and what it returns. */
  function RunScript(key: Key, now: nat, windowMs: nat, limit: nat, member: string): (Key, Reply) {
    var kept := Purge(key.entries, now - windowMs);
    var allowed := |kept| < limit;
    var key' := if allowed then Key(Add(kept, now, member), now + windowMs) else Key(kept, key.expireAt);
    var count := if allowed then |kept| + 1 else |kept|;
    var resetMs :=
      if key'.entries == [] then windowMs
      else if key'.entries[0].score + windowMs < now then 0
      else key'.entries[0].score + windowMs - now;
    (key', Reply(allowed, count, resetMs))
  }

  /** The sorted set in Redis, updated in place by the script. */
  class WindowStore {
    var entries: seq<Entry>
    var expireAt: nat

    constructor ()
      ensures Contents() == NO_KEY
    {
      entries, expireAt := [], 0;
    }

    function Contents(): Key
      reads this
    {
      Key(entries, expireAt)
    }

    /** The key is gone once its time to live has passed. */
    method Expire(now: nat)
      requires now >= expireAt
      modifies this
      ensures Contents() == NO_KEY
    {
      entries, expireAt := [], 0;
    }

    method Run(now: nat, windowMs: nat, limit: nat, member: string) returns (reply: Reply)
      modifies this
      ensures (Contents(), reply) == RunScript(old(Contents()), now, windowMs, limit, member)
    {
      entries := Purge(entries, now - windowMs);
      var count := |entries|;
      var allowed := false;
      if count < limit {
        entries := Add(entries, now, member);
        expireAt := now + windowMs;
        count := count + 1;
        allowed := true;
      }
      var resetMs: int := windowMs;
      if entries != [] {
        resetMs := entries[0].score + windowMs - now;
        if resetMs < 0 {
          resetMs := 0;
        }
      }
      reply := Reply(allowed, count, resetMs);
    }
  }

  /** `Math.max(0, Math.ceil(resetMs / 1000))`. */
  function ResetSeconds(resetMs: nat): nat {
    (resetMs + 999) / 1000
  }

  // ----------------------------------------------------------------------------------------------
  // What the commands do to any set
  // ----------------------------------------------------------------------------------------------

  /** The sorted set is ascending in score and holds a member once. */
  ghost predicate IsSortedSet(entries: seq<Entry>) {
    && (forall i, j | 0 <= i < j < |entries| :: entries[i].score <= entries[j].score)
    && (forall i, j | 0 <= i < j < |entries| :: entries[i].member != entries[j].member)
  }

  lemma SortedSetCons(entries: seq<Entry>)
    requires entries != []
    ensures IsSortedSet(entries) <==>
      && IsSortedSet(entries[1..])
      && forall e | e in entries[1..] :: entries[0].score <= e.score && entries[0].member != e.member
  {
    var rest := entries[1..];
    if IsSortedSet(entries) {
      forall e | e in rest ensures entries[0].score <= e.score && entries[0].member != e.member {
        var i :| 0 <= i < |rest| && rest[i] == e;
        assert entries[i + 1] == e;
      }
    }
    assert entries == [entries[0]] + rest;
  }

  /** The purge keeps exactly the entries above `max`. */
  lemma {:induction false} PurgeExactly(entries: seq<Entry>, max: int)
    requires IsSortedSet(entries)
    ensures IsSortedSet(Purge(entries, max))
    ensures forall e :: e in Purge(entries, max) <==> e in entries && e.score > max
  {
    if entries != [] {
      var rest := entries[1..];
      assert entries == [entries[0]] + rest;
      SortedSetCons(entries);
      PurgeExactly(rest, max);
      if entries[0].score > max {
        assert Purge(entries, max)[1..] == Purge(rest, max);
        hide IsSortedSet;
        SortedSetCons(Purge(entries, max));
      }
    }
  }

  lemma {:induction false} WithoutExactly(entries: seq<Entry>, member: string)
    requires IsSortedSet(entries)
    ensures IsSortedSet(Without(entries, member))
    ensures forall e :: e in Without(entries, member) <==> e in entries && e.member != member
  {
    if entries != [] {
      var rest := entries[1..];
      assert entries == [entries[0]] + rest;
      SortedSetCons(entries);
      WithoutExactly(rest, member);
      if entries[0].member != member {
        assert Without(entries, member)[1..] == Without(rest, member);
        hide IsSortedSet;
        SortedSetCons(Without(entries, member));
      }
    }
  }

  lemma {:induction false} InsertExactly(entries: seq<Entry>, e: Entry)
    requires IsSortedSet(entries) && forall other | other in entries :: other.member != e.member
    ensures IsSortedSet(Insert(entries, e))
    ensures forall other :: other in Insert(entries, e) <==> other == e || other in entries
  {
    hide IsSortedSet;
    var all := Insert(entries, e);
    if entries == [] {
      assert all == [e];
      SingletonSorted(e);
    } else {
      var rest := entries[1..];
      assert entries == [entries[0]] + rest;
      SortedSetCons(entries);
      if e.score < entries[0].score {
        assert all[0] == e && all[1..] == entries;
      } else {
        InsertExactly(rest, e);
        assert all[0] == entries[0] && all[1..] == Insert(rest, e);
      }
      SortedSetCons(all);
    }
  }

  lemma SingletonSorted(e: Entry)
    ensures IsSortedSet([e])
  {
  }

  /** Adding puts in the member with its score, in place of what was under that member, and keeps the rest. */
  lemma AddExactly(entries: seq<Entry>, score: nat, member: string)
    requires IsSortedSet(entries)
    ensures IsSortedSet(Add(entries, score, member))
    ensures forall e ::
      e in Add(entries, score, member) <==> e == Entry(score, member) || (e in entries && e.member != member)
  {
    hide IsSortedSet;
    WithoutExactly(entries, member);
    InsertExactly(Without(entries, member), Entry(score, member));
  }

  /** A key lives one window beyond its last admission; a denied call does not prolong it. */
  lemma TimeToLive(key: Key, now: nat, windowMs: nat, limit: nat, member: string)
    ensures var (key', reply) := RunScript(key, now, windowMs, limit, member);
      key'.expireAt == if reply.allowed then now + windowMs else key.expireAt
  {
    hide Purge, Add;
  }

  // ----------------------------------------------------------------------------------------------
  // Runs
  // ----------------------------------------------------------------------------------------------

  /** A call of the limiter; `gone` says that the key had expired when the call arrived. */
  datatype Call = Call(now: nat, member: string, gone: bool)

  datatype Config = Config(windowMs: nat, limit: nat)

  function Found(key: Key, c: Call): Key {
    if c.gone then NO_KEY else key
  }

  function After(calls: seq<Call>, cfg: Config): Key {
    if calls == [] then NO_KEY
    else
      var last := calls[|calls| - 1];
      RunScript(Found(After(calls[..|calls| - 1], cfg), last), last.now, cfg.windowMs, cfg.limit, last.member).0
  }

  /** What the last call of a run is told. */
  function LastReply(calls: seq<Call>, cfg: Config): Reply
    requires calls != []
  {
    var last := calls[|calls| - 1];
    RunScript(Found(After(calls[..|calls| - 1], cfg), last), last.now, cfg.windowMs, cfg.limit, last.member).1
  }

  /** The clock never goes back, members are distinct, and a key expires no earlier than its time to live. */
  ghost predicate Legal(calls: seq<Call>, cfg: Config) {
    calls != [] ==>
      var last, init := calls[|calls| - 1], calls[..|calls| - 1];
      && Legal(init, cfg)
      && (forall i | 0 <= i < |init| :: init[i].now <= last.now && init[i].member != last.member)
      && (last.gone ==> last.now >= After(init, cfg).expireAt)
  }

  // ----------------------------------------------------------------------------------------------
  // The log of admissions
  // ----------------------------------------------------------------------------------------------

  /** How many of the times lie in `(from, to]`. */
  function CountIn(times: seq<nat>, from: int, to: int): (n: nat)
    ensures n <= |times|
  {
    if times == [] then 0
    else (if from < times[|times| - 1] <= to then 1 else 0) + CountIn(times[..|times| - 1], from, to)
  }

  /** Reference: a limiter that never forgets. It admits while the last `windowMs` hold fewer than `limit`. */
  function Admissions(calls: seq<Call>, cfg: Config): seq<nat> {
    if calls == [] then []
    else
      var log, now := Admissions(calls[..|calls| - 1], cfg), calls[|calls| - 1].now;
      if CountIn(log, now - cfg.windowMs, now) < cfg.limit then log + [now] else log
  }

  function Scores(entries: seq<Entry>): (s: seq<nat>)
    ensures |s| == |entries|
  {
    seq(|entries|, i requires 0 <= i < |entries| => entries[i].score)
  }

  /**
   What ties the key to the log: it holds a suffix of the log, what it has dropped is out of every later
   window, its members were all seen, and it outlives its newest entry by a window.
   */
  ghost predicate Tied(key: Key, log: seq<nat>, clock: nat, seen: set<string>, cfg: Config) {
    && (forall i, j | 0 <= i < j < |log| :: log[i] <= log[j])
    && (forall i | 0 <= i < |log| :: log[i] <= clock)
    && |key.entries| <= |log|
    && Scores(key.entries) == log[|log| - |key.entries|..]
    && (forall i | 0 <= i < |log| - |key.entries| :: log[i] + cfg.windowMs <= clock)
    && (forall i | 0 <= i < |key.entries| :: key.entries[i].member in seen)
    && |key.entries| <= cfg.limit
    && (forall i | 0 <= i < |key.entries| :: key.entries[i].score + cfg.windowMs <= key.expireAt)
  }

  // ----------------------------------------------------------------------------------------------
  // Refinement
  // ----------------------------------------------------------------------------------------------

  ghost predicate Ascending(entries: seq<Entry>) {
    forall i, j | 0 <= i < j < |entries| :: entries[i].score <= entries[j].score
  }

  lemma {:induction false} PurgeNothing(entries: seq<Entry>, max: int)
    requires forall i | 0 <= i < |entries| :: entries[i].score > max
    ensures Purge(entries, max) == entries
  {
    if entries != [] {
      PurgeNothing(entries[1..], max);
      assert entries == [entries[0]] + entries[1..];
    }
  }

  lemma {:induction false} PurgeAll(entries: seq<Entry>, max: int)
    requires forall i | 0 <= i < |entries| :: entries[i].score <= max
    ensures Purge(entries, max) == []
  {
    if entries != [] {
      PurgeAll(entries[1..], max);
    }
  }

  lemma AscendingTail(entries: seq<Entry>)
    requires Ascending(entries) && entries != []
    ensures Ascending(entries[1..]) && forall i | 0 <= i < |entries| :: entries[0].score <= entries[i].score
  {
  }

  /** Purging an ascending set drops a prefix: the scores up to `max`. */
  lemma {:induction false} PurgeCut(entries: seq<Entry>, max: int) returns (cut: nat)
    requires Ascending(entries)
    ensures cut <= |entries| && Purge(entries, max) == entries[cut..]
    ensures forall i | 0 <= i < cut :: entries[i].score <= max
    ensures forall i | cut <= i < |entries| :: entries[i].score > max
  {
    hide Ascending;
    if entries == [] {
      cut := 0;
    } else if entries[0].score > max {
      cut := 0;
      AscendingTail(entries);
      PurgeNothing(entries, max);
    } else {
      AscendingTail(entries);
      var c := PurgeCut(entries[1..], max);
      cut := c + 1;
      TailCut(entries, c, max);
    }
  }

  lemma TailCut(entries: seq<Entry>, c: nat, max: int)
    requires entries != [] && entries[0].score <= max && c <= |entries[1..]|
    requires Purge(entries[1..], max) == entries[1..][c..]
    requires forall i | 0 <= i < c :: entries[1..][i].score <= max
    requires forall i | c <= i < |entries[1..]| :: entries[1..][i].score > max
    ensures Purge(entries, max) == entries[c + 1..]
    ensures forall i | 0 <= i < c + 1 :: entries[i].score <= max
    ensures forall i | c + 1 <= i < |entries| :: entries[i].score > max
  {
    assert Purge(entries, max) == Purge(entries[1..], max);
    hide Purge;
    assert entries[1..][c..] == entries[c + 1..];
    forall i | 0 < i < |entries|
      ensures entries[i] == entries[1..][i - 1]
    {
    }
  }

  lemma {:induction false} AddNewest(entries: seq<Entry>, score: nat, member: string)
    requires forall i | 0 <= i < |entries| :: entries[i].score <= score && entries[i].member != member
    ensures Add(entries, score, member) == entries + [Entry(score, member)]
  {
    if entries != [] {
      AddNewest(entries[1..], score, member);
      assert entries == [entries[0]] + entries[1..];
    }
  }

  /** In a log cut at `from`, the window counts exactly what lies behind the cut. */
  lemma {:induction false} CountBehindCut(log: seq<nat>, cut: nat, from: int, to: int)
    requires cut <= |log|
    requires forall i | 0 <= i < cut :: log[i] <= from
    requires forall i | cut <= i < |log| :: from < log[i] <= to
    ensures CountIn(log, from, to) == |log| - cut
    decreases |log|
  {
    if log != [] {
      var init := log[..|log| - 1];
      CountBehindCut(init, if cut == |log| then cut - 1 else cut, from, to);
    }
  }

  function Members(calls: seq<Call>): set<string> {
    set i | 0 <= i < |calls| :: calls[i].member
  }

  lemma MembersSnoc(calls: seq<Call>)
    requires calls != []
    ensures Members(calls) == Members(calls[..|calls| - 1]) + {calls[|calls| - 1].member}
  {
    forall m | m in Members(calls)
      ensures m in Members(calls[..|calls| - 1]) + {calls[|calls| - 1].member}
    {
      var i :| 0 <= i < |calls| && calls[i].member == m;
      assert i < |calls| - 1 ==> calls[..|calls| - 1][i].member == m;
    }
    forall m | m in Members(calls[..|calls| - 1])
      ensures m in Members(calls)
    {
      var i :| 0 <= i < |calls| - 1 && calls[..|calls| - 1][i].member == m;
      assert calls[i].member == m;
    }
  }

  function Clock(calls: seq<Call>): nat {
    if calls == [] then 0 else calls[|calls| - 1].now
  }

  lemma TiedIsAscending(key: Key, log: seq<nat>, clock: nat, seen: set<string>, cfg: Config)
    requires Tied(key, log, clock, seen, cfg)
    ensures Ascending(key.entries)
    ensures forall i | 0 <= i < |key.entries| :: key.entries[i].score == log[|log| - |key.entries| + i] <= clock
  {
    var off := |log| - |key.entries|;
    forall i | 0 <= i < |key.entries|
      ensures key.entries[i].score == log[off + i]
    {
      assert key.entries[i].score == Scores(key.entries)[i] == log[off..][i];
    }
  }

  /** An expired key holds nothing that a later window could count. */
  lemma TiedExpires(key: Key, log: seq<nat>, clock: nat, seen: set<string>, cfg: Config, now: nat)
    requires Tied(key, log, clock, seen, cfg) && now >= clock && now >= key.expireAt
    ensures Tied(NO_KEY, log, now, seen, cfg)
  {
    TiedIsAscending(key, log, clock, seen, cfg);
    forall i | 0 <= i < |log|
      ensures log[i] + cfg.windowMs <= now
    {
      if i >= |log| - |key.entries| {
        assert key.entries[i - (|log| - |key.entries|)].score == log[i];
      }
    }
    assert log[|log|..] == [];
  }

  /** The cut in the log that the purge of a tied key makes. */
  lemma TiedPurges(key: Key, log: seq<nat>, clock: nat, seen: set<string>, cfg: Config, now: nat) returns (cut: nat)
    requires Tied(key, log, clock, seen, cfg) && now >= clock
    ensures cut <= |key.entries| && Purge(key.entries, now - cfg.windowMs) == key.entries[cut..]
    ensures CountIn(log, now - cfg.windowMs, now) == |key.entries| - cut
    ensures forall i | 0 <= i < |log| - |key.entries| + cut :: log[i] + cfg.windowMs <= now
  {
    TiedIsAscending(key, log, clock, seen, cfg);
    var off := |log| - |key.entries|;
    cut := PurgeCut(key.entries, now - cfg.windowMs);
    forall i | 0 <= i < |log|
      ensures i < off + cut ==> log[i] <= now - cfg.windowMs
      ensures i >= off + cut ==> now - cfg.windowMs < log[i] <= now
    {
      if i >= off {
        assert key.entries[i - off].score == log[i];
      }
    }
    CountBehindCut(log, off + cut, now - cfg.windowMs, now);
  }

  lemma TiedAfterPurge(key: Key, log: seq<nat>, clock: nat, seen: set<string>, cfg: Config, now: nat, cut: nat)
    requires Tied(key, log, clock, seen, cfg) && now >= clock && cut <= |key.entries|
    requires forall i | 0 <= i < |log| - |key.entries| + cut :: log[i] + cfg.windowMs <= now
    ensures Tied(Key(key.entries[cut..], key.expireAt), log, now, seen, cfg)
  {
    var kept := key.entries[cut..];
    assert Scores(kept) == Scores(key.entries)[cut..] == log[|log| - |kept|..];
  }

  lemma TiedAfterAdd(key: Key, log: seq<nat>, seen: set<string>, cfg: Config, now: nat, member: string)
    requires Tied(key, log, now, seen, cfg) && |key.entries| < cfg.limit && member !in seen
    ensures Tied(Key(Add(key.entries, now, member), now + cfg.windowMs), log + [now], now, seen + {member}, cfg)
  {
    TiedIsAscending(key, log, now, seen, cfg);
    AddNewest(key.entries, now, member);
    var entries := key.entries + [Entry(now, member)];
    assert Scores(entries) == Scores(key.entries) + [now] == (log + [now])[|log| - |key.entries|..];
  }

  lemma TiedSeesMore(key: Key, log: seq<nat>, clock: nat, seen: set<string>, cfg: Config, member: string)
    requires Tied(key, log, clock, seen, cfg)
    ensures Tied(key, log, clock, seen + {member}, cfg)
  {
  }

  /** One run of the script decides as the log does and keeps the key tied to it. */
  lemma TiedSteps(key: Key, log: seq<nat>, clock: nat, seen: set<string>, cfg: Config, now: nat, member: string)
    requires Tied(key, log, clock, seen, cfg) && now >= clock && member !in seen
    ensures var (key', reply) := RunScript(key, now, cfg.windowMs, cfg.limit, member);
      var admit := CountIn(log, now - cfg.windowMs, now) < cfg.limit;
      && reply.allowed == admit
      && reply.count == CountIn(log, now - cfg.windowMs, now) + (if admit then 1 else 0)
      && Tied(key', if admit then log + [now] else log, now, seen + {member}, cfg)
  {
    hide Tied, CountIn, Purge, Add;
    var cut := TiedPurges(key, log, clock, seen, cfg, now);
    var kept := Key(key.entries[cut..], key.expireAt);
    TiedAfterPurge(key, log, clock, seen, cfg, now, cut);
    if |kept.entries| < cfg.limit {
      TiedAfterAdd(kept, log, seen, cfg, now, member);
    } else {
      TiedSeesMore(kept, log, now, seen, cfg, member);
    }
  }

  lemma LegalLast(calls: seq<Call>, cfg: Config)
    requires Legal(calls, cfg) && calls != []
    ensures var init, last := calls[..|calls| - 1], calls[|calls| - 1];
      && Legal(init, cfg) && Clock(init) <= last.now && last.member !in Members(init)
      && (last.gone ==> last.now >= After(init, cfg).expireAt)
  {
    hide RunScript;
    var init, last := calls[..|calls| - 1], calls[|calls| - 1];
    assert init != [] ==> init[|init| - 1].now <= last.now;
  }

  lemma NothingTied(cfg: Config)
    ensures Tied(NO_KEY, [], 0, {}, cfg)
  {
  }

  /** Along any legal run the key stays tied to the log, and every call is decided as the log decides it. */
  lemma {:induction false} RunIsTied(calls: seq<Call>, cfg: Config)
    requires Legal(calls, cfg)
    ensures Tied(After(calls, cfg), Admissions(calls, cfg), Clock(calls), Members(calls), cfg)
    ensures calls != [] ==>
      var init, now, reply := calls[..|calls| - 1], Clock(calls), LastReply(calls, cfg);
      var held := CountIn(Admissions(init, cfg), now - cfg.windowMs, now);
      (reply.allowed <==> held < cfg.limit) && reply.count == held + if reply.allowed then 1 else 0
    decreases |calls|
  {
    hide Tied, RunScript, CountIn, Legal;
    if calls == [] {
      NothingTied(cfg);
      assert Members(calls) == {};
    } else {
      var init, last := calls[..|calls| - 1], calls[|calls| - 1];
      LegalLast(calls, cfg);
      RunIsTied(init, cfg);
      var key, log := After(init, cfg), Admissions(init, cfg);
      if last.gone {
        TiedExpires(key, log, Clock(init), Members(init), cfg, last.now);
        TiedSteps(NO_KEY, log, last.now, Members(init), cfg, last.now, last.member);
      } else {
        TiedSteps(key, log, Clock(init), Members(init), cfg, last.now, last.member);
      }
      MembersSnoc(calls);
    }
  }

  /** Refinement: the script admits the last call of a run exactly when fewer than `limit` were admitted in the
      window that ends now, and counts those and itself. */
  lemma AdmitsAsTheLogDoes(calls: seq<Call>, cfg: Config)
    requires Legal(calls, cfg) && calls != []
    ensures var now, reply := Clock(calls), LastReply(calls, cfg);
      var held := CountIn(Admissions(calls[..|calls| - 1], cfg), now - cfg.windowMs, now);
      (reply.allowed <==> held < cfg.limit) && reply.count == held + if reply.allowed then 1 else 0
    ensures LastReply(calls, cfg).allowed <==> Admissions(calls, cfg) != Admissions(calls[..|calls| - 1], cfg)
  {
    AdmissionsStep(calls, cfg);
    hide Tied, RunScript, CountIn, LastReply, Legal, Admissions, After, Members;
    RunIsTied(calls, cfg);
  }

  lemma AdmissionsStep(calls: seq<Call>, cfg: Config)
    requires calls != []
    ensures var init, now := calls[..|calls| - 1], Clock(calls);
      Admissions(calls, cfg) != Admissions(init, cfg)
      <==> CountIn(Admissions(init, cfg), now - cfg.windowMs, now) < cfg.limit
  {
    hide CountIn;
  }

  // ----------------------------------------------------------------------------------------------
  // Safety
  // ----------------------------------------------------------------------------------------------

  lemma {:induction false} CountMonotone(log: seq<nat>, from: int, to: int, from': int, to': int)
    requires from' <= from && forall i | 0 <= i < |log| :: log[i] <= to'
    ensures CountIn(log, from, to) <= CountIn(log, from', to')
    decreases |log|
  {
    if log != [] {
      CountMonotone(log[..|log| - 1], from, to, from', to');
    }
  }

  lemma LogUpToClock(calls: seq<Call>, cfg: Config, log: seq<nat>)
    requires Legal(calls, cfg) && calls != [] && log == Admissions(calls[..|calls| - 1], cfg)
    ensures forall i | 0 <= i < |log| :: log[i] <= Clock(calls)
  {
    var init := calls[..|calls| - 1];
    LegalLast(calls, cfg);
    RunIsTied(init, cfg);
  }

  /** No interval of length `windowMs`, wherever it starts, ever holds more than `limit` admissions. */
  lemma {:induction false} WindowNeverOverfull(calls: seq<Call>, cfg: Config, start: int)
    requires Legal(calls, cfg)
    ensures CountIn(Admissions(calls, cfg), start, start + cfg.windowMs) <= cfg.limit
    decreases |calls|
  {
    hide RunScript, LastReply, Tied;
    if calls != [] {
      var init, now := calls[..|calls| - 1], Clock(calls);
      WindowNeverOverfull(init, cfg, start);
      var log := Admissions(init, cfg);
      LogUpToClock(calls, cfg, log);
      assert (log + [now])[..|log|] == log;
      if start < now <= start + cfg.windowMs {
        CountMonotone(log, start, start + cfg.windowMs, now - cfg.windowMs, now);
      }
    }
  }

  lemma {:induction false} SameLog(calls: seq<Call>, other: seq<Call>, cfg: Config)
    requires |calls| == |other| && forall i | 0 <= i < |calls| :: calls[i].now == other[i].now
    ensures Admissions(calls, cfg) == Admissions(other, cfg)
    decreases |calls|
  {
    if calls != [] {
      SameLog(calls[..|calls| - 1], other[..|other| - 1], cfg);
    }
  }

  // ----------------------------------------------------------------------------------------------
  // Retry-after
  // ----------------------------------------------------------------------------------------------

  /** Waiting `resetMs` in whole seconds is never too short, and never a second too long. */
  lemma ResetSecondsExact(resetMs: nat)
    ensures 1000 * ResetSeconds(resetMs) >= resetMs
    ensures 1000 * (ResetSeconds(resetMs) - 1) < resetMs
  {
  }

  ghost predicate AllDenied(calls: seq<Call>, more: seq<Call>, cfg: Config) {
    forall k | 0 < k <= |more| :: !LastReply(calls + more[..k], cfg).allowed
  }

  lemma {:induction false} LegalPrefix(calls: seq<Call>, more: seq<Call>, cfg: Config)
    requires Legal(calls + more, cfg)
    ensures Legal(calls, cfg) && forall i | 0 <= i < |more| :: Clock(calls) <= more[i].now
    decreases |more|
  {
    if more == [] {
      assert calls + more == calls;
    } else {
      var all := calls + more;
      assert all[..|all| - 1] == calls + more[..|more| - 1];
      LegalPrefix(calls, more[..|more| - 1], cfg);
      if calls != [] {
        assert all[..|all| - 1][|calls| - 1] == calls[|calls| - 1];
      }
      forall i | 0 <= i < |more|
        ensures Clock(calls) <= more[i].now
      {
        if i < |more| - 1 {
          assert more[..|more| - 1][i] == more[i];
        }
      }
    }
  }

  lemma ResetStep(key: Key, now: nat, cfg: Config, member: string)
    requires cfg.limit >= 1 && cfg.windowMs >= 1 && Ascending(key.entries)
    requires forall i | 0 <= i < |key.entries| :: key.entries[i].score <= now && key.entries[i].member != member
    ensures var (key', reply) := RunScript(key, now, cfg.windowMs, cfg.limit, member);
      key'.entries != [] && 0 < reply.resetMs == key'.entries[0].score + cfg.windowMs - now
  {
    var cut := PurgeCut(key.entries, now - cfg.windowMs);
    var kept := key.entries[cut..];
    if |kept| < cfg.limit {
      AddNewest(kept, now, member);
    }
  }

  /** Every reply, admitted or not, tells when the oldest admission still in the window falls out of it. */
  lemma ResetNamesOldest(calls: seq<Call>, cfg: Config)
    requires Legal(calls, cfg) && calls != [] && cfg.limit >= 1 && cfg.windowMs >= 1
    ensures var log, now, resetMs := Admissions(calls, cfg), Clock(calls), LastReply(calls, cfg).resetMs;
      && resetMs > 0
      && exists i | 0 <= i < |log| ::
           log[i] + cfg.windowMs == now + resetMs && forall j | 0 <= j < i :: log[j] + cfg.windowMs <= now
  {
    hide Tied, Legal, Admissions, CountIn, Members, RunScript, Clock;
    var init, last, log := calls[..|calls| - 1], calls[|calls| - 1], Admissions(calls, cfg);
    LegalLast(calls, cfg);
    RunIsTied(init, cfg);
    RunIsTied(calls, cfg);
    TiedSays(After(init, cfg), Admissions(init, cfg), Clock(init), Members(init), cfg);
    TiedSays(After(calls, cfg), log, Clock(calls), Members(calls), cfg);
    ResetStep(Found(After(init, cfg), last), last.now, cfg, last.member);
    ClockIsLast(calls);
    assert log[|log| - |After(calls, cfg).entries|] == After(calls, cfg).entries[0].score;
  }

  lemma ClockIsLast(calls: seq<Call>)
    requires calls != []
    ensures Clock(calls) == calls[|calls| - 1].now
  {
  }

  lemma TiedSays(key: Key, log: seq<nat>, clock: nat, seen: set<string>, cfg: Config)
    requires Tied(key, log, clock, seen, cfg)
    ensures Ascending(key.entries) && |key.entries| <= |log|
    ensures forall i | 0 <= i < |key.entries| ::
      key.entries[i].score == log[|log| - |key.entries| + i] <= clock && key.entries[i].member in seen
    ensures forall i | 0 <= i < |log| - |key.entries| :: log[i] + cfg.windowMs <= clock
  {
    TiedIsAscending(key, log, clock, seen, cfg);
  }

  /** How long until the oldest of the admissions that are still in the window falls out of it; a whole window if none
      is. */
  function WaitMs(log: seq<nat>, now: nat, windowMs: nat): nat {
    if log == [] then windowMs
    else if log[0] + windowMs > now then log[0] + windowMs - now
    else WaitMs(log[1..], now, windowMs)
  }

  lemma {:induction false} WaitFrom(log: seq<nat>, i: nat, now: nat, windowMs: nat)
    requires i < |log| && log[i] + windowMs > now && forall j | 0 <= j < i :: log[j] + windowMs <= now
    ensures WaitMs(log, now, windowMs) == log[i] + windowMs - now
  {
    if i > 0 {
      WaitFrom(log[1..], i - 1, now, windowMs);
    }
  }

  /** The whole reply to a call, by the log of admissions alone. */
  lemma ReplyByLog(calls: seq<Call>, cfg: Config)
    requires Legal(calls, cfg) && calls != [] && cfg.windowMs >= 1
    ensures var before, after, now := Admissions(calls[..|calls| - 1], cfg), Admissions(calls, cfg), Clock(calls);
      var held := CountIn(before, now - cfg.windowMs, now);
      && LastReply(calls, cfg) == Reply(
           held < cfg.limit, if held < cfg.limit then held + 1 else held, WaitMs(after, now, cfg.windowMs))
      && after == if held < cfg.limit then before + [now] else before
  {
    AdmissionsStep(calls, cfg);
    hide Legal, LastReply, CountIn;
    AdmitsAsTheLogDoes(calls, cfg);
    if cfg.limit == 0 {
      DegenerateReply(calls, cfg);
      NothingAdmitted(calls, cfg);
    } else {
      ResetNamesOldest(calls, cfg);
      var log, now, resetMs := Admissions(calls, cfg), Clock(calls), LastReply(calls, cfg).resetMs;
      var i :| 0 <= i < |log| && log[i] + cfg.windowMs == now + resetMs
        && forall j | 0 <= j < i :: log[j] + cfg.windowMs <= now;
      WaitFrom(log, i, now, cfg.windowMs);
    }
  }

  lemma {:induction false} NothingAdmitted(calls: seq<Call>, cfg: Config)
    requires cfg.limit == 0
    ensures Admissions(calls, cfg) == []
    decreases |calls|
  {
    if calls != [] {
      NothingAdmitted(calls[..|calls| - 1], cfg);
    }
  }

  /** Whether keys expire on time, late or never makes no difference to any reply. */
  lemma ExpiryUnobservable(calls: seq<Call>, other: seq<Call>, cfg: Config)
    requires Legal(calls, cfg) && Legal(other, cfg) && calls != [] && |calls| == |other|
    requires forall i | 0 <= i < |calls| :: calls[i].now == other[i].now
    ensures LastReply(calls, cfg) == LastReply(other, cfg)
  {
    hide Legal, LastReply, CountIn, Admissions;
    if cfg.limit == 0 || cfg.windowMs == 0 {
      DegenerateReply(calls, cfg);
      DegenerateReply(other, cfg);
    } else {
      AdmitsAsTheLogDoes(calls, cfg);
      AdmitsAsTheLogDoes(other, cfg);
      ResetNamesOldest(calls, cfg);
      ResetNamesOldest(other, cfg);
      SameLog(calls, other, cfg);
      SameLog(calls[..|calls| - 1], other[..|other| - 1], cfg);
    }
  }

  /** A limit of 0 denies every call, a window of length 0 admits every other. */
  lemma DegenerateReply(calls: seq<Call>, cfg: Config)
    requires Legal(calls, cfg) && calls != [] && (cfg.limit == 0 || cfg.windowMs == 0)
    ensures LastReply(calls, cfg) == if cfg.limit == 0 then Reply(false, 0, cfg.windowMs) else Reply(true, 1, 0)
  {
    var init, last := calls[..|calls| - 1], calls[|calls| - 1];
    LegalLast(calls, cfg);
    RunIsTied(init, cfg);
    BoundedAndAscending(After(init, cfg), Admissions(init, cfg), Clock(init), Members(init), cfg);
    hide Tied, Legal, Admissions, CountIn, Members, RunScript, Ascending;
    DegenerateStep(Found(After(init, cfg), last), last.now, cfg, last.member);
  }

  lemma DegenerateStep(key: Key, now: nat, cfg: Config, member: string)
    requires |key.entries| <= cfg.limit && (cfg.limit == 0 || cfg.windowMs == 0)
    requires forall i | 0 <= i < |key.entries| :: key.entries[i].score <= now
    ensures RunScript(key, now, cfg.windowMs, cfg.limit, member).1
      == if cfg.limit == 0 then Reply(false, 0, cfg.windowMs) else Reply(true, 1, 0)
  {
    PurgeAll(key.entries, now - cfg.windowMs);
    AddNewest([], now, member);
  }

  /** On ascending entries, losing the key leaves the reply as it is exactly if all entries would be purged. */
  lemma LossStep(key: Key, now: nat, cfg: Config, member: string)
    requires |key.entries| <= cfg.limit && Ascending(key.entries)
    requires forall i | 0 <= i < |key.entries| :: key.entries[i].score <= now && key.entries[i].member != member
    ensures RunScript(NO_KEY, now, cfg.windowMs, cfg.limit, member).1
      == RunScript(key, now, cfg.windowMs, cfg.limit, member).1
      <==> Purge(key.entries, now - cfg.windowMs) == []
  {
    var cut := PurgeCut(key.entries, now - cfg.windowMs);
    AddNewest([], now, member);
    if cut < |key.entries| {
      AddNewest(key.entries[cut..], now, member);
    }
  }

  /**
   Whenever a key is lost, by whatever clock it expires, the next call can tell if and only if an admission lies in
   the window that ends at that call.
   */
  lemma LossUnobservableExactly(calls: seq<Call>, now: nat, member: string, cfg: Config)
    requires Legal(calls, cfg) && Clock(calls) <= now && member !in Members(calls)
    ensures RunScript(NO_KEY, now, cfg.windowMs, cfg.limit, member).1
      == RunScript(After(calls, cfg), now, cfg.windowMs, cfg.limit, member).1
      <==> CountIn(Admissions(calls, cfg), now - cfg.windowMs, now) == 0
  {
    hide Legal, RunScript, Admissions, CountIn, Members, Purge, Tied, Clock;
    var key, log := After(calls, cfg), Admissions(calls, cfg);
    RunIsTied(calls, cfg);
    TiedSays(key, log, Clock(calls), Members(calls), cfg);
    BoundedAndAscending(key, log, Clock(calls), Members(calls), cfg);
    LossStep(key, now, cfg, member);
    var cut := TiedPurges(key, log, Clock(calls), Members(calls), cfg, now);
    assert cut == |key.entries| ==> key.entries[cut..] == [];
  }

  /** A full key: the newest `limit` admissions, all of the denying call's window, oldest first. */
  ghost predicate Full(key: Key, resetAt: int, cfg: Config) {
    && |key.entries| == cfg.limit && cfg.limit > 0
    && Ascending(key.entries)
    && key.entries[0].score + cfg.windowMs == resetAt
    && resetAt <= key.expireAt
  }

  /** What the script leaves and says when it denies a call on at most `limit` entries. */
  lemma DenyingStep(key: Key, now: nat, cfg: Config, member: string)
    requires |key.entries| <= cfg.limit && cfg.limit >= 1 && Ascending(key.entries)
    requires forall i | 0 <= i < |key.entries| :: key.entries[i].score <= now
    requires forall i | 0 <= i < |key.entries| :: key.entries[i].score + cfg.windowMs <= key.expireAt
    requires !RunScript(key, now, cfg.windowMs, cfg.limit, member).1.allowed
    ensures var (key', reply) := RunScript(key, now, cfg.windowMs, cfg.limit, member);
      key' == key && 0 < reply.resetMs <= cfg.windowMs && Full(key, now + reply.resetMs, cfg)
  {
    hide Purge, Add;
    var cut := PurgeCut(key.entries, now - cfg.windowMs);
    assert cut == 0 && key.entries[cut..] == key.entries;
  }

  /** A denied call leaves a full key whose oldest entry falls out at `now + resetMs`. */
  lemma DenialLeavesFull(calls: seq<Call>, cfg: Config)
    requires Legal(calls, cfg) && calls != [] && cfg.limit >= 1 && !LastReply(calls, cfg).allowed
    ensures 0 < LastReply(calls, cfg).resetMs <= cfg.windowMs
    ensures Full(After(calls, cfg), Clock(calls) + LastReply(calls, cfg).resetMs, cfg)
  {
    var init, last := calls[..|calls| - 1], calls[|calls| - 1];
    LegalLast(calls, cfg);
    RunIsTied(init, cfg);
    BoundedAndAscending(After(init, cfg), Admissions(init, cfg), Clock(init), Members(init), cfg);
    hide Tied, Legal, Admissions, CountIn, Members, RunScript, Full;
    DenyingStep(Found(After(init, cfg), last), last.now, cfg, last.member);
  }

  lemma BoundedAndAscending(key: Key, log: seq<nat>, clock: nat, seen: set<string>, cfg: Config)
    requires Tied(key, log, clock, seen, cfg)
    ensures |key.entries| <= cfg.limit && Ascending(key.entries)
    ensures forall i | 0 <= i < |key.entries| :: key.entries[i].score <= clock
    ensures forall i | 0 <= i < |key.entries| :: key.entries[i].score + cfg.windowMs <= key.expireAt
  {
    TiedIsAscending(key, log, clock, seen, cfg);
  }

  /** On a full key, a call is denied and changes nothing until the oldest entry falls out, then it is admitted. */
  lemma FullStep(key: Key, resetAt: int, cfg: Config, c: Call)
    requires Full(key, resetAt, cfg) && (c.gone ==> c.now >= key.expireAt)
    ensures var (key', reply) := RunScript(Found(key, c), c.now, cfg.windowMs, cfg.limit, c.member);
      && (reply.allowed <==> c.now >= resetAt)
      && (!reply.allowed ==> key' == key)
  {
    var cut := PurgeCut(Found(key, c).entries, c.now - cfg.windowMs);
  }

  lemma {:induction false} WaitingKeepsFull(calls: seq<Call>, waits: seq<Call>, cfg: Config)
    requires Legal(calls + waits, cfg) && calls != [] && cfg.limit >= 1 && !LastReply(calls, cfg).allowed
    requires AllDenied(calls, waits, cfg)
    ensures Full(After(calls + waits, cfg), Clock(calls) + LastReply(calls, cfg).resetMs, cfg)
    decreases |waits|
  {
    var resetAt := Clock(calls) + LastReply(calls, cfg).resetMs;
    if waits == [] {
      assert calls + waits == calls;
      DenialLeavesFull(calls, cfg);
    } else {
      var init, last := waits[..|waits| - 1], waits[|waits| - 1];
      assert (calls + waits)[..|calls + waits| - 1] == calls + init;
      forall k | 0 < k <= |init|
        ensures !LastReply(calls + init[..k], cfg).allowed
      {
        assert init[..k] == waits[..k];
      }
      WaitingKeepsFull(calls, init, cfg);
      FullStep(After(calls + init, cfg), resetAt, cfg, last);
      assert waits[..|waits|] == waits;
    }
  }

  /**
   Retry-after is exact: after a denial at `now` told to wait `resetMs`, and with no admission since, a call is
   admitted if and only if it comes at `now + resetMs` or later.
   */
  lemma RetryAfterExact(calls: seq<Call>, waits: seq<Call>, next: Call, cfg: Config)
    requires Legal(calls + waits + [next], cfg) && calls != [] && cfg.limit >= 1
    requires !LastReply(calls, cfg).allowed && AllDenied(calls, waits, cfg)
    ensures 0 < LastReply(calls, cfg).resetMs <= cfg.windowMs
    ensures LastReply(calls + waits + [next], cfg).allowed
      <==> next.now >= Clock(calls) + LastReply(calls, cfg).resetMs
  {
    var all := calls + waits + [next];
    assert all[..|all| - 1] == calls + waits;
    LegalPrefix(calls, waits, cfg);
    DenialLeavesFull(calls, cfg);
    WaitingKeepsFull(calls, waits, cfg);
    FullStep(After(calls + waits, cfg), Clock(calls) + LastReply(calls, cfg).resetMs, cfg, next);
  }
}
