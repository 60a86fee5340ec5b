/** Sequential runs of the cached WHOIS lookup, with the cache's periodic cleanup in between. */
module WhoisRuns {
  import opened Durations
  import opened Text
  import opened Cache
  import opened Whois

  datatype Event = Call(query: string, reply: Option<string>, times: Times) | Sweep(time: int)

  function Begins(e: Event): int { match e case Call(_, _, t) => t.look case Sweep(time) => time }

  function Ends(e: Event): int { match e case Call(_, _, t) => t.stored case Sweep(time) => time }

  /** The events of a run and the entries before each of them and after the last. */
  datatype Trace = Trace(events: seq<Event>, items: seq<Items>)

  function AnswerAt(tr: Trace, n: nat, env: Env): Outcome
    requires n < |tr.events| < |tr.items| && tr.events[n].Call?
  {
    var e := tr.events[n];
    Answer(tr.items[n], e.query, e.reply, e.times, env)
  }

  /** One event on a cache with room: nothing is evicted. */
  function Next(items: Items, e: Event, env: Env): Items {
    match e
    case Sweep(time) => Cleaned(items, time)
    case Call(query, reply, t) =>
      var o := Answer(items, query, reply, t, env);
      if WentUpstream(o) then
        var (key, item) := Stored(query, o, t, env);
        items[key := item]
      else items
  }

  /** That is what a call leaves when the entry it stores fits. */
  lemma NextIsCall(items: Items, maxSize: int, e: Event, env: Env, after: Items)
    requires e.Call?
    requires var o := Answer(items, e.query, e.reply, e.times, env);
      if WentUpstream(o) then
        var (key, item) := Stored(e.query, o, e.times, env);
        Size(items) + |key| + |item.value| <= maxSize && SetLeaves(items, maxSize, key, item, e.times.stored, after)
      else after == items
    ensures after == Next(items, e, env)
  {
    hide Answer, Stored;
  }

  /** A run that starts with an empty cache: one event after the other, in time. */
  ghost predicate IsRun(tr: Trace, env: Env) {
    && |tr.items| == |tr.events| + 1 && tr.items[0] == map[]
    && (forall n :: 0 <= n < |tr.events| ==> tr.items[n + 1] == Next(tr.items[n], tr.events[n], env))
    && (forall n :: 0 <= n < |tr.events| && tr.events[n].Call? ==> Ordered(tr.events[n].times))
    && (forall m, n :: 0 <= m < n < |tr.events| ==> Ends(tr.events[m]) <= Begins(tr.events[n]))
  }

  /** The last of the first `n` events that queried upstream for `query` with success, or without. */
  function Last(tr: Trace, n: nat, query: string, success: bool, env: Env): (r: Option<nat>)
    requires n <= |tr.events| < |tr.items|
    ensures r.Some? ==> r.value < n
  {
    if n == 0 then None
    else if IsUpstream(tr, n - 1, query, success, env) then Some(n - 1)
    else Last(tr, n - 1, query, success, env)
  }

  predicate IsUpstream(tr: Trace, n: nat, query: string, success: bool, env: Env)
    requires n < |tr.events| < |tr.items|
  {
    tr.events[n].Call? && tr.events[n].query == query &&
    if success then AnswerAt(tr, n, env).Fresh? else AnswerAt(tr, n, env).Failed?
  }

  lemma {:induction false} LastMeaning(tr: Trace, n: nat, query: string, success: bool, env: Env)
    requires n <= |tr.events| < |tr.items|
    ensures var r := Last(tr, n, query, success, env);
      && (r.Some? ==> IsUpstream(tr, r.value, query, success, env))
      && (forall i: nat :: i < n && IsUpstream(tr, i, query, success, env) ==> r.Some? && i <= r.value)
  {
    hide IsUpstream;
    if n > 0 { LastMeaning(tr, n - 1, query, success, env); }
  }

  /** The entry is there, or has been swept away after its expiry. */
  predicate Kept(items: Items, key: string, item: Item, now: int) {
    if key in items then items[key] == item else item.expiration < now
  }

  /** The cache after `n` events holds, for a query, what its last success and failure stored. */
  ghost predicate Holds(tr: Trace, n: nat, query: string, success: bool, env: Env)
    requires n <= |tr.events| < |tr.items|
  {
    var key := if success then WhoisKey(query) else FailureKey(query);
    var last := Last(tr, n, query, success, env);
    LastMeaning(tr, n, query, success, env);
    if last.None? then key !in tr.items[n]
    else Kept(tr.items[n], key, StoredBy(tr, last.value, query, success, env), Ends(tr.events[n - 1]))
  }

  /** The entry that an upstream query stored. */
  function StoredBy(tr: Trace, i: nat, query: string, success: bool, env: Env): Item
    requires i < |tr.events| < |tr.items| && IsUpstream(tr, i, query, success, env)
  {
    Stored(query, AnswerAt(tr, i, env), tr.events[i].times, env).1
  }

  lemma StoredKey(tr: Trace, i: nat, query: string, success: bool, env: Env)
    requires i < |tr.events| < |tr.items| && IsUpstream(tr, i, query, success, env)
    ensures Stored(query, AnswerAt(tr, i, env), tr.events[i].times, env).0 ==
      if success then WhoisKey(query) else FailureKey(query)
  {
  }

  lemma StartHolds(tr: Trace, query: string, success: bool, env: Env)
    requires IsRun(tr, env)
    ensures Holds(tr, 0, query, success, env)
  {
  }

  lemma {:induction false} RunHolds(tr: Trace, n: nat, query: string, success: bool, env: Env)
    requires IsRun(tr, env) && n <= |tr.events| && SoundIpParser(env.parseIp) && Accepted(query, env.parseIp)
    requires Decodable(env)
    ensures Holds(tr, n, query, success, env)
  {
    hide Holds, Accepted, SoundIpParser, Decodable, Next, Ordered;
    if n == 0 {
      StartHolds(tr, query, success, env);
    } else {
      RunHolds(tr, n - 1, query, success, env);
      StepHolds(tr, n - 1, query, success, env);
    }
  }

  lemma StepHolds(tr: Trace, n: nat, query: string, success: bool, env: Env)
    requires IsRun(tr, env) && n < |tr.events| && SoundIpParser(env.parseIp) && Accepted(query, env.parseIp)
    requires Decodable(env) && Holds(tr, n, query, success, env)
    ensures Holds(tr, n + 1, query, success, env)
  {
    hide Accepted, SoundIpParser, Answer, Stored, WhoisKey, FailureKey, Decodable;
    var e := tr.events[n];
    var key := if success then WhoisKey(query) else FailureKey(query);
    assert tr.items[n + 1] == Next(tr.items[n], e, env);
    if n > 0 { assert Ends(tr.events[n - 1]) <= Begins(e) <= Ends(e); }
    if e.Call? && WentUpstream(AnswerAt(tr, n, env)) {
      UpstreamLooked(tr.items[n], e.query, e.reply, e.times, env);
      StoredKey(tr, n, e.query, AnswerAt(tr, n, env).Fresh?, env);
      KeysApart(query, e.query, env.parseIp);
      KeysApart(e.query, query, env.parseIp);
    }
  }

  // ---------- throttling ----------

  /** A lookup that misses the entry its last success or failure left comes after the entry's expiry. */
  lemma MissedAfterExpiry(items: Items, key: string, item: Item, now: int, at: int)
    requires Kept(items, key, item, now) && at >= now
    requires Lookup(items, key, at) == None
    ensures at > item.expiration
  {
  }

  /** A query that goes upstream has missed what the last success, or failure, stored. */
  lemma UpstreamMisses(tr: Trace, j: nat, query: string, success: bool, env: Env, k: nat)
    requires IsRun(tr, env) && Decodable(env) && j < |tr.events| && Holds(tr, j, query, success, env)
    requires tr.events[j].Call? && tr.events[j].query == query && WentUpstream(AnswerAt(tr, j, env))
    requires Last(tr, j, query, success, env) == Some(k) && IsUpstream(tr, k, query, success, env)
    ensures tr.events[j].times.upstream > StoredBy(tr, k, query, success, env).expiration
  {
    hide WhoisKey, FailureKey, Answer, Last;
    var e := tr.events[j];
    var item := StoredBy(tr, k, query, success, env);
    UpstreamLooked(tr.items[j], query, e.reply, e.times, env);
    assert Ends(tr.events[j - 1]) <= Begins(e);
    if success {
      assert item.value == env.encode(AnswerAt(tr, k, env).result);
      MissedAfterExpiry(tr.items[j], WhoisKey(query), item, Ends(tr.events[j - 1]), e.times.look);
    } else {
      MissedAfterExpiry(tr.items[j], FailureKey(query), item, Ends(tr.events[j - 1]), e.times.check);
    }
  }

  /** What a later event stored expires later than a time to live after an earlier upstream query. */
  lemma StoredLate(tr: Trace, i: nat, k: nat, query: string, success: bool, env: Env)
    requires IsRun(tr, env) && i <= k < |tr.events|
    requires IsUpstream(tr, i, query, success, env) && IsUpstream(tr, k, query, success, env)
    ensures StoredBy(tr, k, query, success, env).expiration >=
      tr.events[i].times.upstream + if success then SuccessTtl(DetectQueryType(query, env.parseIp)) else FAILURE_TTL
  {
    hide DetectQueryType, WhoisKey, FailureKey;
    if i < k { assert Ends(tr.events[i]) <= Begins(tr.events[k]); }
  }

  /** Two upstream queries for the same text are more than five minutes apart, and more than the time
      to live of its type when the earlier one succeeded: a day for a domain, a week for the rest. */
  lemma UpstreamThrottled(tr: Trace, env: Env, i: nat, j: nat, query: string)
    requires IsRun(tr, env) && SoundIpParser(env.parseIp) && Decodable(env)
    requires i < j < |tr.events| && tr.events[i].Call? && tr.events[j].Call?
    requires tr.events[i].query == query && tr.events[j].query == query
    requires WentUpstream(AnswerAt(tr, i, env)) && WentUpstream(AnswerAt(tr, j, env))
    ensures tr.events[j].times.upstream - tr.events[i].times.upstream >
      if AnswerAt(tr, i, env).Failed? then 300_000_000_000
      else if DetectQueryType(query, env.parseIp) == Domain then 86_400_000_000_000 else 604_800_000_000_000
  {
    hide Answer, Holds, SoundIpParser, Decodable, Last, Accepted, StoredBy;
    var success := AnswerAt(tr, i, env).Fresh?;
    var e := tr.events[j];
    UpstreamLooked(tr.items[j], query, e.reply, e.times, env);
    LastMeaning(tr, j, query, success, env);
    assert IsUpstream(tr, i, query, success, env);
    var k := Last(tr, j, query, success, env).value;
    RunHolds(tr, j, query, success, env);
    UpstreamMisses(tr, j, query, success, env, k);
    StoredLate(tr, i, k, query, success, env);
  }

  /** So with a codec that loses nothing of that success, a hit has the very text that upstream replied, and
      the query, type and server it was asked with. */
  lemma HitIsLastReply(tr: Trace, env: Env, j: nat)
    requires IsRun(tr, env) && SoundIpParser(env.parseIp) && Decodable(env)
    requires j < |tr.events| && tr.events[j].Call? && AnswerAt(tr, j, env).Hit?
    ensures var (e, r) := (tr.events[j], AnswerAt(tr, j, env).result); var last := Last(tr, j, e.query, true, env);
      && last.Some? && tr.events[last.value].Call? && tr.events[last.value].query == e.query
      && tr.events[last.value].reply.Some?
      && var (asked, queryType) := (tr.events[last.value], DetectQueryType(e.query, env.parseIp));
        env.decode(env.encode(Result(e.query, queryType, env.server(queryType, e.query), asked.reply.value, asked.times.built))) ==
          Some(Result(e.query, queryType, env.server(queryType, e.query), asked.reply.value, asked.times.built)) ==>
        r == Result(e.query, queryType, env.server(queryType, e.query), asked.reply.value, e.times.look)
  {
    HitIsLastSuccess(tr, env, j);
    hide Answer, SoundIpParser, Last, Accepted, DetectQueryType;
    var last := Last(tr, j, tr.events[j].query, true, env).value;
    var asked := tr.events[last];
    FreshMeaning(tr.items[last], asked.query, asked.reply, asked.times, env);
  }

  /** A hit returns what the codec keeps of the last upstream success for that text (all of it, when the
      codec loses nothing of that success), with the time of the lookup as its timestamp, and within
      that success's time to live. */
  lemma HitIsLastSuccess(tr: Trace, env: Env, j: nat)
    requires IsRun(tr, env) && SoundIpParser(env.parseIp) && Decodable(env)
    requires j < |tr.events| && tr.events[j].Call? && AnswerAt(tr, j, env).Hit?
    ensures var (e, o) := (tr.events[j], AnswerAt(tr, j, env)); var last := Last(tr, j, e.query, true, env);
      && last.Some? && IsUpstream(tr, last.value, e.query, true, env)
      && env.decode(env.encode(AnswerAt(tr, last.value, env).result)).Some?
      && o.result == env.decode(env.encode(AnswerAt(tr, last.value, env).result)).value.(timestamp := e.times.look)
      && e.times.look <= tr.events[last.value].times.stored +
           (if DetectQueryType(e.query, env.parseIp) == Domain then 86_400_000_000_000 else 604_800_000_000_000)
  {
    hide Answer, SoundIpParser, Last, Accepted, WhoisKey, FailureKey;
    var e := tr.events[j];
    HitLooked(tr.items[j], e.query, e.reply, e.times, env);
    RunHolds(tr, j, e.query, true, env);
    LastMeaning(tr, j, e.query, true, env);
    var last := Last(tr, j, e.query, true, env);
    if last.Some? {
      var stored := AnswerAt(tr, last.value, env).result;
      assert env.decode(env.encode(stored)).Some?;
      var k := tr.events[last.value];
      FreshMeaning(tr.items[last.value], k.query, k.reply, k.times, env);
    }
  }
}
