/** The read-through WHOIS lookup on top of the cache: successes and failures are both remembered,
    and so throttle the queries sent upstream. */
module Whois {
  import opened Durations
  import opened Text
  import opened Cache

  const FAILURE_TTL: int := 5 * MINUTE

  // ---------- query types ----------

  datatype QueryType = Domain | IPv4 | IPv6 | ASN | Unknown

  /** What `net.ParseIP` says of a text. */
  datatype IpKind = NotIp | Four | Six

  predicate IsAlnum(c: char) { 'a' <= c <= 'z' || '0' <= c <= '9' }

  /** `strings.ToLower` on one character, where the result is an ASCII letter: a capital, or one of the two
      others (dotted I, the Kelvin sign) whose small letter is one. Other characters are unchanged. */
  function LowerChar(c: char): char {
    if 'A' <= c <= 'Z' then (c as int + 32) as char
    else if c == '\U{0130}' then 'i'
    else if c == '\U{212A}' then 'k'
    else c
  }

  /** `^(AS|as)?\d+$`. */
  predicate IsAsnText(s: string) {
    var digits := if "AS" <= s || "as" <= s then s[2..] else s;
    digits != [] && AllDigits(digits)
  }

  /** One label of the domain pattern, after lower-casing. */
  predicate IsLabel(s: string) {
    s != [] && IsAlnum(LowerChar(s[0])) && IsAlnum(LowerChar(s[|s| - 1])) &&
    forall i :: 0 <= i < |s| ==> IsAlnum(LowerChar(s[i])) || s[i] == '-'
  }

  /** Labels joined by dots. */
  predicate IsDomainText(s: string) {
    forall i :: 0 <= i < |Split(s, '.')| ==> IsLabel(Split(s, '.')[i])
  }

  /** `DetectQueryType`. */
  function DetectQueryType(query: string, parseIp: string -> IpKind): QueryType {
    var q := TrimSpace(query);
    if IsAsnText(q) then ASN
    else if parseIp(q) == Four then IPv4
    else if parseIp(q) == Six then IPv6
    else if IsDomainText(q) then Domain
    else Unknown
  }

  /** The time to live of a success. */
  function SuccessTtl(t: QueryType): (ttl: int)
    ensures ttl >= DAY
  {
    if t == Domain then DAY else 7 * DAY
  }

  // ---------- keys ----------

  function WhoisKey(query: string): string { "whois:" + query }

  function FailureKey(query: string): string { "whois:failure:" + query }

  /** IP addresses are written with hexadecimal digits, dots and colons. */
  ghost predicate SoundIpParser(parseIp: string -> IpKind) {
    forall s, i :: 0 <= i < |s| && parseIp(s) != NotIp ==>
      s[i] == '.' || s[i] == ':' || IsDigit(s[i]) || 'a' <= s[i] <= 'f' || 'A' <= s[i] <= 'F'
  }

  ghost predicate Accepted(query: string, parseIp: string -> IpKind) {
    DetectQueryType(query, parseIp) != Unknown
  }

  /** Trimming on the right stops at a character that is not a space. */
  lemma {:induction false} TrimRightUpTo(s: string, k: nat)
    requires k < |s| && !IsSpace(s[k])
    ensures |TrimRightSpace(s)| > k && TrimRightSpace(s) <= s
    decreases |s|
  {
    if IsSpace(s[|s| - 1]) { TrimRightUpTo(s[..|s| - 1], k); }
  }

  lemma ColonIsNoLabel(s: string, k: nat)
    requires k < |s| && s[k] == ':'
    ensures !IsDomainText(s)
  {
    SplitKeepsChar(s, k);
    var i, j :| 0 <= i < |Split(s, '.')| && 0 <= j < |Split(s, '.')[i]| && Split(s, '.')[i][j] == ':';
    assert !IsLabel(Split(s, '.')[i]);
  }

  lemma {:induction false} SplitKeepsChar(s: string, k: nat)
    requires k < |s| && s[k] == ':'
    ensures exists i, j :: 0 <= i < |Split(s, '.')| && 0 <= j < |Split(s, '.')[i]| && Split(s, '.')[i][j] == ':'
  {
    var rest := Split(s[1..], '.');
    if k == 0 {
      assert Split(s, '.')[0][0] == ':';
    } else {
      SplitKeepsChar(s[1..], k - 1);
      var i, j :| 0 <= i < |rest| && 0 <= j < |rest[i]| && rest[i][j] == ':';
      if s[0] == '.' {
        assert Split(s, '.')[i + 1][j] == ':';
      } else if i == 0 {
        assert Split(s, '.')[0][j + 1] == ':';
      } else {
        assert Split(s, '.')[i][j] == ':';
      }
    }
  }

  lemma FailureTextTrimmed(query: string)
    requires "failure:" <= query
    ensures var q := TrimSpace(query); |q| > 7 && q[0] == 'f' && q[2] == 'i' && q[7] == ':'
  {
    var f := "failure:";
    assert query[0] == f[0] && query[2] == f[2] && query[7] == f[7];
    assert TrimLeftSpace(query) == query;
    TrimRightUpTo(query, 7);
  }

  lemma FailureTextRefused(q: string, parseIp: string -> IpKind)
    requires SoundIpParser(parseIp) && |q| > 7 && q[0] == 'f' && q[2] == 'i' && q[7] == ':'
    ensures !IsAsnText(q) && parseIp(q) == NotIp && !IsDomainText(q)
  {
    ColonIsNoLabel(q, 7);
    hide IsDomainText;
    assert "AS"[0] != q[0] && "as"[0] != q[0];
  }

  /** No query that is accepted starts with the text that would turn its key into a failure key. */
  lemma AcceptedIsNoFailure(query: string, parseIp: string -> IpKind)
    requires SoundIpParser(parseIp) && Accepted(query, parseIp)
    ensures !("failure:" <= query)
  {
    hide TrimSpace, IsAsnText, IsDomainText;
    if "failure:" <= query {
      FailureTextTrimmed(query);
      FailureTextRefused(TrimSpace(query), parseIp);
    }
  }

  /** Keys of accepted queries never collide. */
  lemma KeysApart(a: string, b: string, parseIp: string -> IpKind)
    requires SoundIpParser(parseIp) && Accepted(a, parseIp) && Accepted(b, parseIp)
    ensures WhoisKey(a) != FailureKey(b)
    ensures WhoisKey(a) == WhoisKey(b) ==> a == b
    ensures FailureKey(a) == FailureKey(b) ==> a == b
  {
    hide Accepted;
    AcceptedIsNoFailure(a, parseIp);
    var w, f := "whois:", "whois:failure:";
    assert WhoisKey(a)[6..] == a && WhoisKey(b)[6..] == b;
    assert FailureKey(a)[14..] == a && FailureKey(b)[14..] == b;
    assert FailureKey(b)[6..] == "failure:" + b;
  }

  // ---------- one lookup ----------

  /** A result, apart from the fields parsed out of the raw text. */
  datatype Result = Result(query: string, queryType: QueryType, server: string, raw: string, timestamp: int)

  /** What the lookup takes from its surroundings: IP parsing, the server tables and the JSON codec. */
  datatype Env = Env(parseIp: string -> IpKind, server: (QueryType, string) -> string,
                     encode: Result -> string, decode: string -> Option<Result>)

  /** What is stored can be decoded; not to the same result, when the raw text is not valid UTF-8. */
  ghost predicate Decodable(env: Env) {
    forall r :: env.decode(env.encode(r)).Some?
  }

  /** The instants at which a lookup looks, checks for a failure, goes upstream, builds its result and
      stores it. */
  datatype Times = Times(look: int, check: int, upstream: int, built: int, stored: int)

  predicate Ordered(t: Times) {
    0 < t.look <= t.check <= t.upstream <= t.built <= t.stored
  }

  lemma TimesPositive(t: Times)
    requires Ordered(t)
    ensures t.stored > 0
  {
  }

  datatype Outcome =
    | Refused
    | Hit(result: Result)
    | Throttled
    | NoServer
    | Failed
    | Fresh(result: Result)

  /** What a lookup answers, given the reply that upstream would give. */
  function Answer(items: Items, query: string, reply: Option<string>, t: Times, env: Env): Outcome {
    var queryType := DetectQueryType(query, env.parseIp);
    if queryType == Unknown then Refused
    else
      var found := Lookup(items, WhoisKey(query), t.look);
      var cached := if found.Some? then env.decode(found.value) else None;
      if cached.Some? then Hit(cached.value.(timestamp := t.look))
      else if Lookup(items, FailureKey(query), t.check).Some? then Throttled
      else
        var server := env.server(queryType, query);
        if server == "" then NoServer
        else if reply.None? then Failed
        else Fresh(Result(query, queryType, server, reply.value, t.built))
  }

  /** A lookup goes upstream only past the stored failure and past any success that decodes. */
  lemma UpstreamLooked(items: Items, query: string, reply: Option<string>, t: Times, env: Env)
    requires Decodable(env) && WentUpstream(Answer(items, query, reply, t, env))
    ensures Accepted(query, env.parseIp)
    ensures Lookup(items, FailureKey(query), t.check) == None
    ensures forall r :: Lookup(items, WhoisKey(query), t.look) != Some(env.encode(r))
  {
    hide DetectQueryType, WhoisKey, FailureKey, Lookup;
    forall r ensures Lookup(items, WhoisKey(query), t.look) != Some(env.encode(r)) {
      assert env.decode(env.encode(r)).Some?;
    }
  }

  /** A hit decodes what is stored. */
  lemma HitLooked(items: Items, query: string, reply: Option<string>, t: Times, env: Env)
    requires Answer(items, query, reply, t, env).Hit?
    ensures Accepted(query, env.parseIp)
    ensures var found := Lookup(items, WhoisKey(query), t.look);
      found.Some? && env.decode(found.value).Some? &&
      Answer(items, query, reply, t, env).result == env.decode(found.value).value.(timestamp := t.look)
  {
    hide DetectQueryType, WhoisKey, FailureKey, Lookup;
  }

  /** A fresh result has the query asked, its type, the server chosen for that, the text upstream replied
      and the instant it was built. */
  lemma FreshMeaning(items: Items, query: string, reply: Option<string>, t: Times, env: Env)
    requires Answer(items, query, reply, t, env).Fresh?
    ensures reply.Some?
    ensures var (r, queryType) := (Answer(items, query, reply, t, env).result, DetectQueryType(query, env.parseIp));
      && r.query == query && r.queryType == queryType && r.server == env.server(queryType, query)
      && r.raw == reply.value && r.timestamp == t.built
  {
    hide DetectQueryType, WhoisKey, FailureKey, Lookup;
  }

  /** The entry under a key that a lookup at `now` finds. */
  predicate Finds(items: Items, key: string, now: int) { key in items && now <= items[key].expiration }

  /** When each answer is given. A query of no known type is refused. Else a stored success that has not
      expired and decodes is a hit; else a stored failure that has not expired throttles; else, if a
      server is known, upstream is asked, and fails or replies. */
  lemma AnswerMeaning(items: Items, query: string, reply: Option<string>, t: Times, env: Env)
    ensures var o := Answer(items, query, reply, t, env);
      var queryType := DetectQueryType(query, env.parseIp);
      var cached := Finds(items, "whois:" + query, t.look) && env.decode(items["whois:" + query].value).Some?;
      var failed := Finds(items, "whois:failure:" + query, t.check);
      && (o.Refused? <==> queryType == Unknown)
      && (o.Hit? <==> queryType != Unknown && cached)
      && (o.Hit? ==> o.result == env.decode(items["whois:" + query].value).value.(timestamp := t.look))
      && (o.Throttled? <==> queryType != Unknown && !cached && failed)
      && (o.NoServer? <==> queryType != Unknown && !cached && !failed && env.server(queryType, query) == "")
      && (o.Failed? <==> queryType != Unknown && !cached && !failed && env.server(queryType, query) != "" && reply.None?)
      && (o.Fresh? <==> queryType != Unknown && !cached && !failed && env.server(queryType, query) != "" && reply.Some?)
  {
    hide DetectQueryType;
  }

  /** What an upstream query stores: a failure for five minutes, a domain for a day, an address or an AS
      number for a week. */
  lemma StoredMeaning(query: string, o: Outcome, t: Times, env: Env)
    requires WentUpstream(o)
    ensures var (key, item) := Stored(query, o, t, env);
      && (o.Failed? ==> key == "whois:failure:" + query && item == Item("1", t.stored + 300_000_000_000))
      && (o.Fresh? ==> key == "whois:" + query && item.value == env.encode(o.result))
      && (o.Fresh? && o.result.queryType == Domain ==> item.expiration == t.stored + 86_400_000_000_000)
      && (o.Fresh? && o.result.queryType in {IPv4, IPv6, ASN} ==> item.expiration == t.stored + 604_800_000_000_000)
  {
  }

  // ---------- query types, by their text ----------

  /** A query is an AS number when, without blanks around it, it is digits, perhaps after AS or as. */
  lemma AsnTexts(query: string, parseIp: string -> IpKind)
    ensures DetectQueryType(query, parseIp) == ASN <==> exists digits :: SpellsAsn(TrimSpace(query), digits)
  {
    hide TrimSpace, IsDomainText, IsAsnText;
    AsnText(TrimSpace(query));
  }

  predicate SpellsAsn(q: string, digits: string) {
    digits != "" && (forall i :: 0 <= i < |digits| ==> '0' <= digits[i] <= '9') &&
    (q == digits || q == "AS" + digits || q == "as" + digits)
  }

  lemma AsnText(q: string)
    ensures IsAsnText(q) <==> exists digits :: SpellsAsn(q, digits)
  {
    if IsAsnText(q) { AsnDigits(q); }
    hide IsAsnText;
    forall digits | SpellsAsn(q, digits) ensures IsAsnText(q) { DigitsNoPrefix(digits); }
  }

  lemma AsnDigits(q: string)
    requires IsAsnText(q)
    ensures SpellsAsn(q, if "AS" <= q || "as" <= q then q[2..] else q)
  {
  }

  lemma DigitsNoPrefix(digits: string)
    requires AllDigits(digits) && digits != ""
    ensures IsAsnText(digits) && IsAsnText("AS" + digits) && IsAsnText("as" + digits)
  {
    assert "AS"[0] == 'A' && "as"[0] == 'a';
    assert ("AS" + digits)[2..] == digits && ("as" + digits)[2..] == digits;
  }

  /** A letter or digit of the domain pattern, in either case. */
  predicate NameChar(c: char) {
    'a' <= c <= 'z' || 'A' <= c <= 'Z' || '0' <= c <= '9' || c == '\U{0130}' || c == '\U{212A}'
  }

  /** What is neither that nor an address is a domain when all its labels are letters, digits and dashes,
      with no dash at either end; everything else is refused. */
  lemma OtherTexts(query: string, parseIp: string -> IpKind)
    requires DetectQueryType(query, parseIp) != ASN
    ensures var (q, queryType) := (TrimSpace(query), DetectQueryType(query, parseIp));
      && (queryType == IPv4 <==> parseIp(q) == Four) && (queryType == IPv6 <==> parseIp(q) == Six)
      && (queryType == Domain <==> parseIp(q) == NotIp && IsPlainDomain(q))
  {
    hide TrimSpace, IsAsnText, IsDomainText, IsPlainDomain;
    DomainMeaning(TrimSpace(query));
  }

  predicate IsPlainDomain(q: string) {
    forall k :: 0 <= k < |Split(q, '.')| ==>
      var part := Split(q, '.')[k];
      part != "" && NameChar(part[0]) && NameChar(part[|part| - 1]) &&
      forall i :: 0 <= i < |part| ==> NameChar(part[i]) || part[i] == '-'
  }

  lemma DomainMeaning(q: string)
    ensures IsDomainText(q) <==> IsPlainDomain(q)
  {
    hide Split, IsLabel;
    forall k | 0 <= k < |Split(q, '.')| { LabelMeaning(Split(q, '.')[k]); }
  }

  lemma LabelMeaning(part: string)
    ensures IsLabel(part) <==>
      part != "" && NameChar(part[0]) && NameChar(part[|part| - 1]) &&
      forall i :: 0 <= i < |part| ==> NameChar(part[i]) || part[i] == '-'
  {
    forall c ensures IsAlnum(LowerChar(c)) <==> NameChar(c) {}
    hide IsAlnum, LowerChar, NameChar;
  }

  predicate WentUpstream(o: Outcome) { o.Failed? || o.Fresh? }

  /** The key and entry that an upstream query leaves behind. */
  function Stored(query: string, o: Outcome, t: Times, env: Env): (string, Item)
    requires WentUpstream(o)
  {
    if o.Failed? then (FailureKey(query), Item("1", t.stored + FAILURE_TTL))
    else (WhoisKey(query), Item(env.encode(o.result), t.stored + SuccessTtl(o.result.queryType)))
  }

  /** `QueryWHOISWithCache`. Without a cache every accepted query goes upstream; with one, the answer
      depends on the entries found, and only an upstream query changes them. */
  method QueryWHOISWithCache(query: string, cache: MemoryCache?, env: Env, reply: Option<string>, t: Times)
    returns (o: Outcome)
    requires Ordered(t) && (cache != null ==> cache.Valid())
    modifies if cache == null then {} else {cache}
    ensures cache == null ==> o == Answer(map[], query, reply, t, env)
    ensures cache != null ==> cache.Valid() && o == Answer(old(cache.items), query, reply, t, env)
    ensures cache != null && !WentUpstream(o) ==> cache.items == old(cache.items) && cache.history == old(cache.history)
    ensures cache != null && WentUpstream(o) ==>
      var (key, item) := Stored(query, o, t, env);
      SetLeaves(old(cache.items), cache.maxSize, key, item, t.stored, cache.items)
  {
    hide DetectQueryType, WhoisKey, FailureKey, SetLeaves, Replay, Ordered;
    assert t.stored > 0 by { TimesPositive(t); }
    var queryType := DetectQueryType(query, env.parseIp);
    if queryType == Unknown { return Refused; }
    if cache != null {
      var data := cache.Get(WhoisKey(query), t.look);
      if data.Some? {
        var result := env.decode(data.value);
        if result.Some? { return Hit(result.value.(timestamp := t.look)); }
      }
      var failed := cache.Exists(FailureKey(query), t.check);
      if failed { return Throttled; }
    }
    var server := env.server(queryType, query);
    if server == "" { return NoServer; }
    ghost var victim;
    if reply.None? {
      if cache != null { victim := cache.Set(FailureKey(query), "1", FAILURE_TTL, t.stored); }
      return Failed;
    }
    var result := Result(query, queryType, server, reply.value, t.built);
    if cache != null {
      var ttl := SuccessTtl(queryType);
      victim := cache.Set(WhoisKey(query), env.encode(result), ttl, t.stored);
    }
    return Fresh(result);
  }
}
