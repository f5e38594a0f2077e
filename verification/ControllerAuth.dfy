// The controller's decision on a request (src/controller.c), with its two cached passwords and the throttle,
// against the same decision without caches.
module ControllerAuth {
  import opened Common
  import opened ControllerPassword
  import opened ControllerThrottle

  /** What check_forwarded says: a trusted client behind the proxy, no proxy header, or anything else. */
  datatype Forwarded = Accepted | Absent | Refused

  datatype Peer = Peer(unix: bool, secure: bool, forwarded: Forwarded)

  /** The settings a decision depends on. */
  datatype Config = Config(password: Option<string>, enable: Option<string>, secureMap: bool)

  /**
   * A request, whether memory for either cache would be available during it, and what a full table of
   * buckets would evict.
   */
  datatype Request = Request(peer: Peer, from: Address, now: real, password: Option<string>, isEnable: bool,
    mapNormal: bool, mapEnable: bool, evicts: set<Address>)

  datatype Answer = Allow | Unauthorized | TooMany

  datatype Verdict = Verdict(answer: Answer, readOnly: bool)

  predicate Trusted(peer: Peer) {
    (peer.unix || peer.secure) && peer.forwarded != Refused
  }

  predicate IsSet(crypto: Crypto, check: Option<string>, password: string) {
    check.Some? && Matches(crypto, check.value, password)
  }

  /** The passwords that are refused before anything is looked at. */
  const DEFAULTS: set<string> := {"q1", "q2"}

  /**
   * The right answer to a password: a privileged command needs the enable password, or the only one
   * there is; others take both, and write access follows the stronger one.
   */
  function Judge(crypto: Crypto, config: Config, isEnable: bool, password: string): Verdict {
    var strong := if config.enable.Some? then config.enable else config.password;
    if password in DEFAULTS then Verdict(Unauthorized, true)
    else if IsSet(crypto, strong, password) then Verdict(Allow, false)
    else if !isEnable && IsSet(crypto, config.password, password) then Verdict(Allow, true)
    else Verdict(Unauthorized, true)
  }

  // ---- The decision with caches ----------------------------------------------------------------------

  /** cached_password and cached_enable_password; an empty one holds nothing. */
  datatype Caches = Caches(password: string, enable: string)

  const NOTHING := Caches("", "")

  predicate Hashed(check: Option<string>) {
    check.Some? && KdfOf(check.value).Some?
  }

  /** What a check of one of the configured passwords says. */
  predicate Passes(crypto: Crypto, config: Config, cs: Caches, isEnable: bool, password: string) {
    var check := if isEnable then config.enable else config.password;
    if !Hashed(check) then IsSet(crypto, check, password)
    else if isEnable then (if cs.enable != "" then password == cs.enable else IsSet(crypto, check, password))
    else if cs.password == "" then IsSet(crypto, check, password)
    else password == cs.password || (if cs.enable != "" then password == cs.enable else IsSet(crypto, check, password))
  }

  /** The caches after it: a password that was verified fills its empty cache, if there is memory for it. */
  function Filled(crypto: Crypto, config: Config, cs: Caches, isEnable: bool, password: string, mapped: bool): Caches {
    var check := if isEnable then config.enable else config.password;
    var cache := if isEnable then cs.enable else cs.password;
    if !Hashed(check) || cache != "" || !mapped || !IsSet(crypto, check, password) then cs
    else if isEnable then cs.(enable := password)
    else cs.(password := password)
  }

  /** The same string is configured for both passwords. */
  predicate Same(config: Config) {
    config.password.Some? && config.password == config.enable
  }

  /** The answer to a password with caches. */
  function CachedJudge(crypto: Crypto, config: Config, cs: Caches, isEnable: bool, password: string): Verdict {
    var normal := Passes(crypto, config, cs, false, password);
    var enable := if Same(config) && !isEnable then normal else Passes(crypto, config, cs, true, password);
    var strong := if config.enable.Some? then enable else normal;
    if password in DEFAULTS then Verdict(Unauthorized, true)
    else if strong then Verdict(Allow, false)
    else if !isEnable && normal then Verdict(Allow, true)
    else Verdict(Unauthorized, true)
  }

  /** The caches after an answer: the strong password is looked at, and for an ordinary command the other one first. */
  function CachesAfter(crypto: Crypto, config: Config, cs: Caches, isEnable: bool, password: string, mapNormal: bool,
      mapEnable: bool): Caches
  {
    if password in DEFAULTS then cs
    else if isEnable then
      Filled(crypto, config, cs, config.enable.Some?, password, if config.enable.Some? then mapEnable else mapNormal)
    else
      var first := Filled(crypto, config, cs, false, password, mapNormal);
      if Same(config) then first else Filled(crypto, config, first, true, password, mapEnable)
  }

  // ---- Requests --------------------------------------------------------------------------------------

  /** No password is asked for when none is set and there is no list of trusted addresses. */
  predicate Open(config: Config, isEnable: bool) {
    !config.secureMap && config.password.None? && (isEnable ==> config.enable.None?)
  }

  /** A request that is answered before any password is looked at. */
  function Gate(config: Config, limit: Limit, buckets: Buckets, r: Request): Option<Verdict>
    requires Usable(limit)
  {
    if Trusted(r.peer) then Some(Verdict(Allow, false))
    else if !Allows(limit, buckets, r.from, r.now) then Some(Verdict(TooMany, true))
    else if r.password.None? && Open(config, r.isEnable) then Some(Verdict(Allow, !r.isEnable))
    else None
  }

  /** The answer to a request without caches. */
  function Uncached(crypto: Crypto, config: Config, limit: Limit, buckets: Buckets, r: Request): Verdict
    requires Usable(limit)
  {
    match Gate(config, limit, buckets, r)
    case Some(v) => v
    case None =>
      if r.password.None? then Verdict(Unauthorized, true)
      else Judge(crypto, config, r.isEnable, r.password.value)
  }

  /** The answer with caches. */
  function Cached(crypto: Crypto, config: Config, limit: Limit, buckets: Buckets, cs: Caches, r: Request): Verdict
    requires Usable(limit)
  {
    match Gate(config, limit, buckets, r)
    case Some(v) => v
    case None =>
      if r.password.None? then Verdict(Unauthorized, true)
      else CachedJudge(crypto, config, cs, r.isEnable, r.password.value)
  }

  /** The table of buckets after a request that got this answer. */
  function TableAfter(config: Config, limit: Limit, buckets: Buckets, r: Request, v: Verdict): Buckets
    requires Usable(limit)
  {
    if Trusted(r.peer) then buckets
    else
      var looked := AfterCheck(limit, buckets, r.from, r.now);
      if Gate(config, limit, buckets, r).Some? then looked
      else if v.answer == Allow then AfterSuccess(limit, looked, r.from)
      else AfterFailure(limit, looked, r.from, r.now, r.evicts)
  }

  function CachesNext(crypto: Crypto, config: Config, limit: Limit, buckets: Buckets, cs: Caches, r: Request): Caches
    requires Usable(limit)
  {
    if Gate(config, limit, buckets, r).Some? || r.password.None? then cs
    else CachesAfter(crypto, config, cs, r.isEnable, r.password.value, r.mapNormal, r.mapEnable)
  }

  /** The answers to a history of requests without caches. */
  function UncachedRun(crypto: Crypto, config: Config, limit: Limit, buckets: Buckets, requests: seq<Request>)
    : (vs: seq<Verdict>)
    requires Usable(limit)
    ensures |vs| == |requests|
    decreases |requests|
  {
    if requests == [] then []
    else
      var v := Uncached(crypto, config, limit, buckets, requests[0]);
      [v] + UncachedRun(crypto, config, limit, TableAfter(config, limit, buckets, requests[0], v), requests[1..])
  }

  /** The answers with caches. */
  function CachedRun(crypto: Crypto, config: Config, limit: Limit, buckets: Buckets, cs: Caches,
      requests: seq<Request>): (vs: seq<Verdict>)
    requires Usable(limit)
    ensures |vs| == |requests|
    decreases |requests|
  {
    if requests == [] then []
    else
      var r := requests[0];
      var v := Cached(crypto, config, limit, buckets, cs, r);
      [v] + CachedRun(crypto, config, limit, TableAfter(config, limit, buckets, r, v),
                      CachesNext(crypto, config, limit, buckets, cs, r), requests[1..])
  }

  // ---- Who is let in ---------------------------------------------------------------------------------

  /** A password verifies with the configured one that gives write access: the enable one, if there is one. */
  predicate Strong(crypto: Crypto, config: Config, password: string) {
    match config.enable
    case Some(e) => Matches(crypto, e, password)
    case None => config.password.Some? && Matches(crypto, config.password.value, password)
  }

  /** Write access, and with it any privileged command, is for exactly the strong password; the rest is for both. */
  lemma Grants(crypto: Crypto, config: Config, isEnable: bool, password: string)
    ensures var v := Judge(crypto, config, isEnable, password);
            && (v.answer == Allow && !v.readOnly <==>
                  password != "q1" && password != "q2" && Strong(crypto, config, password))
            && (isEnable ==> (v.answer == Allow <==> !v.readOnly))
            && (!isEnable ==> (v.answer == Allow <==>
                  && password != "q1" && password != "q2"
                  && ((config.password.Some? && Matches(crypto, config.password.value, password)) ||
                      (config.enable.Some? && Matches(crypto, config.enable.value, password)))))
            && v.answer != TooMany
  {
  }

  /**
   * A request is answered without its password being looked at in three cases: it comes from a trusted place,
   * through the proxy only for a trusted client; the throttle refuses it; or none was given and none is set.
   */
  lemma Ungated(config: Config, limit: Limit, buckets: Buckets, r: Request)
    requires Usable(limit)
    ensures (r.peer.unix || r.peer.secure) && r.peer.forwarded != Refused ==>
              Gate(config, limit, buckets, r) == Some(Verdict(Allow, false))
    ensures (!r.peer.unix && !r.peer.secure) || r.peer.forwarded == Refused ==>
              (Gate(config, limit, buckets, r) == Some(Verdict(TooMany, true)) <==>
                 !Allows(limit, buckets, r.from, r.now))
    ensures ((!r.peer.unix && !r.peer.secure) || r.peer.forwarded == Refused)
            && Allows(limit, buckets, r.from, r.now) ==>
              (Gate(config, limit, buckets, r).Some? <==>
                 && r.password.None? && !config.secureMap && config.password.None?
                 && (r.isEnable ==> config.enable.None?))
  {
  }

  /** With nothing cached the caches say nothing. */
  lemma FreshJudge(crypto: Crypto, config: Config, isEnable: bool, password: string)
    ensures CachedJudge(crypto, config, NOTHING, isEnable, password) == Judge(crypto, config, isEnable, password)
  {
  }

  /**
   * A new controller that has only $id$salt$key configured lets in exactly the passwords, but for the two refused
   * ones, from which the derivation makes the key.
   */
  lemma FreshAnswers(crypto: Crypto, config: Config, limit: Limit, buckets: Buckets, r: Request, id: char, salt: string,
      key: string, s: seq<nat>, k: seq<nat>)
    requires Usable(limit) && !Trusted(r.peer) && Allows(limit, buckets, r.from, r.now) && r.password.Some?
    requires config.password == Some(Encrypted(id, salt, key)) && config.enable == None
    requires (id == '1' || id == '2') && Alnum(salt) && Alnum(key)
    requires crypto.decode(salt) == Some(s) && |s| == 20 && crypto.decode(key) == Some(k) && |k| == 32
    ensures Cached(crypto, config, limit, buckets, NOTHING, r).answer == Allow <==>
              && r.password.value != "q1" && r.password.value != "q2"
              && crypto.derive(if id == '1' then 1 else 2, r.password.value, s) == k
  {
    FreshJudge(crypto, config, r.isEnable, r.password.value);
    EncryptedMatches(crypto, id, salt, key, s, k, r.password.value);
  }

  // ---- When the caches do not show -------------------------------------------------------------------

  /** The passwords of a history. */
  ghost predicate AllAsked(requests: seq<Request>, asked: set<string>) {
    forall i | 0 <= i < |requests| :: requests[i].password.Some? ==> requests[i].password.value in asked
  }

  /** A password that fills the cache of the enable hash is asked about. */
  ghost predicate EnableAsked(crypto: Crypto, check: string, asked: set<string>) {
    exists e :: e in asked && e != "" && Matches(crypto, check, e)
  }

  /**
   * Of the passwords that are asked about, and not refused anyway, no two verify the enable hash; nor any two
   * the other hash, if one that verifies the enable hash is asked about too.
   */
  ghost predicate NoTwo(crypto: Crypto, config: Config, asked: set<string>) {
    Hashed(config.enable) ==>
      && Unambiguous(crypto, config.enable.value, asked - DEFAULTS)
      && (Hashed(config.password) && EnableAsked(crypto, config.enable.value, asked - DEFAULTS) ==>
            Unambiguous(crypto, config.password.value, asked - DEFAULTS))
  }

  /** A cache is empty or holds a password that was asked about and verified with the configured hash. */
  ghost predicate CacheRight(crypto: Crypto, check: Option<string>, cached: string, asked: set<string>) {
    cached != "" ==> cached in asked - DEFAULTS && Hashed(check) && Matches(crypto, check.value, cached)
  }

  ghost predicate CachesRight(crypto: Crypto, config: Config, cs: Caches, asked: set<string>) {
    CacheRight(crypto, config.password, cs.password, asked) && CacheRight(crypto, config.enable, cs.enable, asked)
  }

  lemma FilledRight(crypto: Crypto, config: Config, cs: Caches, isEnable: bool, password: string, mapped: bool,
      asked: set<string>)
    requires CachesRight(crypto, config, cs, asked) && password in asked - DEFAULTS
    ensures CachesRight(crypto, config, Filled(crypto, config, cs, isEnable, password, mapped), asked)
  {
  }

  /** With the enable password a check says what the configured password does. */
  lemma EnableRight(crypto: Crypto, config: Config, cs: Caches, password: string, asked: set<string>)
    requires NoTwo(crypto, config, asked) && CachesRight(crypto, config, cs, asked) && password in asked - DEFAULTS
    ensures Passes(crypto, config, cs, true, password) == IsSet(crypto, config.enable, password)
  {
  }

  /** With the other one too, but that the cached enable password will do as well. */
  lemma NormalRight(crypto: Crypto, config: Config, cs: Caches, password: string, asked: set<string>)
    requires NoTwo(crypto, config, asked) && CachesRight(crypto, config, cs, asked) && password in asked - DEFAULTS
    ensures IsSet(crypto, config.password, password) ==> Passes(crypto, config, cs, false, password)
    ensures Passes(crypto, config, cs, false, password) ==>
              IsSet(crypto, config.password, password) || IsSet(crypto, config.enable, password)
  {
    if Hashed(config.password) && cs.password != "" && cs.enable != "" {
      assert EnableAsked(crypto, config.enable.value, asked - DEFAULTS);
    }
  }

  lemma JudgeRight(crypto: Crypto, config: Config, cs: Caches, isEnable: bool, password: string, asked: set<string>)
    requires NoTwo(crypto, config, asked) && CachesRight(crypto, config, cs, asked) && password in asked
    ensures CachedJudge(crypto, config, cs, isEnable, password) == Judge(crypto, config, isEnable, password)
  {
    if password !in DEFAULTS {
      EnableRight(crypto, config, cs, password, asked);
      NormalRight(crypto, config, cs, password, asked);
      if config.enable.None? {
        assert cs.enable == "";
      }
    }
  }

  lemma CachesStayRight(crypto: Crypto, config: Config, cs: Caches, isEnable: bool, password: string, mapNormal: bool,
      mapEnable: bool, asked: set<string>)
    requires CachesRight(crypto, config, cs, asked) && password in asked
    ensures CachesRight(crypto, config, CachesAfter(crypto, config, cs, isEnable, password, mapNormal, mapEnable),
            asked)
  {
    if password !in DEFAULTS {
      var mapped := if config.enable.Some? then mapEnable else mapNormal;
      FilledRight(crypto, config, cs, config.enable.Some?, password, mapped, asked);
      FilledRight(crypto, config, cs, false, password, mapNormal, asked);
      FilledRight(crypto, config, Filled(crypto, config, cs, false, password, mapNormal), true, password, mapEnable,
          asked);
    }
  }

  /** Then every history gets the answers it would get without caches. */
  lemma {:induction false} Transparent(crypto: Crypto, config: Config, limit: Limit, buckets: Buckets,
      cs: Caches, requests: seq<Request>, asked: set<string>)
    requires Usable(limit) && NoTwo(crypto, config, asked) && CachesRight(crypto, config, cs, asked)
    requires AllAsked(requests, asked)
    ensures CachedRun(crypto, config, limit, buckets, cs, requests)
            == UncachedRun(crypto, config, limit, buckets, requests)
    decreases |requests|
  {
    if requests != [] {
      var r := requests[0];
      if r.password.Some? {
        JudgeRight(crypto, config, cs, r.isEnable, r.password.value, asked);
        CachesStayRight(crypto, config, cs, r.isEnable, r.password.value, r.mapNormal, r.mapEnable, asked);
      }
      var v := Cached(crypto, config, limit, buckets, cs, r);
      Transparent(crypto, config, limit, TableAfter(config, limit, buckets, r, v),
        CachesNext(crypto, config, limit, buckets, cs, r), requests[1..], asked);
    }
  }

  // ---- And when they do ------------------------------------------------------------------------------

  /** A request from an address that is not trusted, at the start of all time and with memory to spare. */
  function Ask(a: Address, password: string, isEnable: bool): Request {
    Request(Peer(false, false, Absent), a, 0.0, Some(password), isEnable, true, true, {})
  }

  /** A first request from anyone is judged, and one that is allowed leaves no bucket. */
  lemma AskIsJudged(config: Config, limit: Limit, a: Address, password: string, isEnable: bool, v: Verdict)
    requires Usable(limit)
    ensures Gate(config, limit, map[], Ask(a, password, isEnable)).None?
    ensures v.answer == Allow ==> TableAfter(config, limit, map[], Ask(a, password, isEnable), v) == map[]
  {
    var none: Buckets := map[];
    assert none - {a} == none;
  }

  /** The last answer of a history whose earlier requests are all allowed. */
  lemma AfterOne(crypto: Crypto, config: Config, limit: Limit, cs: Caches, a: Address, p: string, isEnable: bool,
      rest: seq<Request>)
    requires Usable(limit) && CachedJudge(crypto, config, cs, isEnable, p) == Judge(crypto, config, isEnable, p)
    requires Judge(crypto, config, isEnable, p).answer == Allow
    ensures var rs, cs' := [Ask(a, p, isEnable)] + rest, CachesAfter(crypto, config, cs, isEnable, p, true, true);
            CachedRun(crypto, config, limit, map[], cs, rs) == UncachedRun(crypto, config, limit, map[], rs) <==>
            CachedRun(crypto, config, limit, map[], cs', rest) == UncachedRun(crypto, config, limit, map[], rest)
  {
    var r, v, rs := Ask(a, p, isEnable), Judge(crypto, config, isEnable, p), [Ask(a, p, isEnable)] + rest;
    var cs' := CachesAfter(crypto, config, cs, isEnable, p, true, true);
    AskIsJudged(config, limit, a, p, isEnable, v);
    assert rs[0] == r && rs[1..] == rest;
    var c, u := CachedRun(crypto, config, limit, map[], cs', rest), UncachedRun(crypto, config, limit, map[], rest);
    assert CachedRun(crypto, config, limit, map[], cs, rs) == [v] + c;
    assert UncachedRun(crypto, config, limit, map[], rs) == [v] + u;
    assert ([v] + c)[1..] == c && ([v] + u)[1..] == u;
  }

  lemma LastDiffers(crypto: Crypto, config: Config, limit: Limit, cs: Caches, a: Address, p: string, isEnable: bool)
    requires Usable(limit) && CachedJudge(crypto, config, cs, isEnable, p) != Judge(crypto, config, isEnable, p)
    ensures var rs := [Ask(a, p, isEnable)];
            CachedRun(crypto, config, limit, map[], cs, rs) != UncachedRun(crypto, config, limit, map[], rs)
  {
    var rs := [Ask(a, p, isEnable)];
    AskIsJudged(config, limit, a, p, isEnable, Verdict(Allow, true));
    assert CachedRun(crypto, config, limit, map[], cs, rs)[0] == CachedJudge(crypto, config, cs, isEnable, p);
    assert UncachedRun(crypto, config, limit, map[], rs)[0] == Judge(crypto, config, isEnable, p);
  }

  /** Of two passwords that verify the enable hash, the first one used shuts the other out. */
  lemma SecondEnableShutOut(crypto: Crypto, config: Config, limit: Limit, a: Address, p: string, q: string)
    requires Usable(limit) && Hashed(config.enable) && p != "" && p != q && p !in DEFAULTS && q !in DEFAULTS
    requires Matches(crypto, config.enable.value, p) && Matches(crypto, config.enable.value, q)
    ensures var rs := [Ask(a, p, true), Ask(a, q, true)];
            CachedRun(crypto, config, limit, map[], NOTHING, rs) != UncachedRun(crypto, config, limit, map[], rs)
  {
    var cs := CachesAfter(crypto, config, NOTHING, true, p, true, true);
    assert cs == Caches("", p);
    AfterOne(crypto, config, limit, NOTHING, a, p, true, [Ask(a, q, true)]);
    assert [Ask(a, p, true)] + [Ask(a, q, true)] == [Ask(a, p, true), Ask(a, q, true)];
    LastDiffers(crypto, config, limit, cs, a, q, true);
  }

  /** With an enable password cached, of two that verify the other hash the first one used shuts the other out. */
  lemma SecondNormalShutOut(crypto: Crypto, config: Config, limit: Limit, a: Address, e: string, x: string, y: string)
    requires Usable(limit) && Hashed(config.enable) && Hashed(config.password) && config.password != config.enable
    requires e != "" && x != "" && y != x && y != e && e !in DEFAULTS && x !in DEFAULTS && y !in DEFAULTS
    requires Matches(crypto, config.enable.value, e) && Matches(crypto, config.password.value, x)
    requires Matches(crypto, config.password.value, y)
    requires Matches(crypto, config.enable.value, x) ==> x == e
    ensures var rs := [Ask(a, e, true), Ask(a, x, false), Ask(a, y, false)];
            CachedRun(crypto, config, limit, map[], NOTHING, rs) != UncachedRun(crypto, config, limit, map[], rs)
  {
    var one, two := Caches("", e), Caches(x, e);
    assert CachesAfter(crypto, config, NOTHING, true, e, true, true) == one;
    assert CachesAfter(crypto, config, one, false, x, true, true) == two;
    AfterOne(crypto, config, limit, NOTHING, a, e, true, [Ask(a, x, false), Ask(a, y, false)]);
    AfterOne(crypto, config, limit, one, a, x, false, [Ask(a, y, false)]);
    LastDiffers(crypto, config, limit, two, a, y, false);
    assert [Ask(a, x, false)] + [Ask(a, y, false)] == [Ask(a, x, false), Ask(a, y, false)];
    assert [Ask(a, e, true)] + [Ask(a, x, false), Ask(a, y, false)]
        == [Ask(a, e, true), Ask(a, x, false), Ask(a, y, false)];
  }

  /** Where two passwords asked about verify one hash that matters, some history shows the caches. */
  lemma CachesShow(crypto: Crypto, config: Config, limit: Limit, a: Address, asked: set<string>)
    returns (requests: seq<Request>)
    requires Usable(limit) && !NoTwo(crypto, config, asked)
    ensures AllAsked(requests, asked)
    ensures CachedRun(crypto, config, limit, map[], NOTHING, requests) != UncachedRun(crypto, config, limit, map[],
            requests)
  {
    var known := asked - DEFAULTS;
    if !Unambiguous(crypto, config.enable.value, known) {
      var p, q := TwoOf(crypto, config.enable.value, known);
      SecondEnableShutOut(crypto, config, limit, a, p, q);
      requests := [Ask(a, p, true), Ask(a, q, true)];
    } else {
      var e :| e in known && e != "" && Matches(crypto, config.enable.value, e);
      var p, q := TwoOf(crypto, config.password.value, known);
      var x, y := if q == e then q else p, if q == e then p else q;
      SecondNormalShutOut(crypto, config, limit, a, e, x, y);
      requests := [Ask(a, e, true), Ask(a, x, false), Ask(a, y, false)];
    }
  }

  lemma TwoOf(crypto: Crypto, check: string, known: set<string>) returns (p: string, q: string)
    requires !Unambiguous(crypto, check, known)
    ensures p in known && q in known && p != q && p != "" && Matches(crypto, check, p) && Matches(crypto, check, q)
  {
    p, q :| p in known && q in known && Matches(crypto, check, p) && Matches(crypto, check, q) && p != q;
    if p == "" {
      p, q := q, p;
    }
  }

  /**
   * The caches of a new controller never show, whatever is asked, if and only if no two passwords are in
   * each other's way.
   */
  lemma TransparentIff(crypto: Crypto, config: Config, limit: Limit, a: Address, asked: set<string>)
    requires Usable(limit)
    ensures (forall requests {:trigger AllAsked(requests, asked)} | AllAsked(requests, asked) ::
               CachedRun(crypto, config, limit, map[], NOTHING, requests)
                   == UncachedRun(crypto, config, limit, map[], requests))
            <==> NoTwo(crypto, config, asked)
  {
    if NoTwo(crypto, config, asked) {
      forall requests | AllAsked(requests, asked)
        ensures CachedRun(crypto, config, limit, map[], NOTHING, requests)
                == UncachedRun(crypto, config, limit, map[], requests)
      {
        Transparent(crypto, config, limit, map[], NOTHING, requests, asked);
      }
    } else {
      var requests := CachesShow(crypto, config, limit, a, asked);
    }
  }

  // ---- Failures in a history -------------------------------------------------------------------------

  /** A request, its answer, and whether a failure would have begun a bucket. */
  datatype Served = Served(request: Request, verdict: Verdict, begins: bool)

  ghost function ServedAt(limit: Limit, buckets: Buckets, r: Request, v: Verdict): Served
    requires Usable(limit)
  {
    Served(r, v, limit.max > 0 && !Known(limit, buckets, r.from, r.now))
  }

  /** The tables of buckets before, between and after the requests of a history. */
  ghost predicate Traced(config: Config, limit: Limit, tables: seq<Buckets>, served: seq<Served>)
    requires Usable(limit)
  {
    && |tables| == |served| + 1
    && forall i {:trigger served[i]} | 0 <= i < |served| ::
         && tables[i + 1] == TableAfter(config, limit, tables[i], served[i].request, served[i].verdict)
         && served[i] == ServedAt(limit, tables[i], served[i].request, served[i].verdict)
  }

  lemma TracedFirst(config: Config, limit: Limit, first: Buckets, r: Request, v: Verdict,
      tables: seq<Buckets>, served: seq<Served>)
    requires Usable(limit) && Traced(config, limit, tables, served)
             && tables[0] == TableAfter(config, limit, first, r, v)
    ensures Traced(config, limit, [first] + tables, [ServedAt(limit, first, r, v)] + served)
  {
    var all, ts := [ServedAt(limit, first, r, v)] + served, [first] + tables;
    forall i {:trigger all[i]} | 0 <= i < |all|
      ensures ts[i + 1] == TableAfter(config, limit, ts[i], all[i].request, all[i].verdict)
      ensures all[i] == ServedAt(limit, ts[i], all[i].request, all[i].verdict)
    {
      if i > 0 {
        assert all[i] == served[i - 1] && ts[i] == tables[i - 1] && ts[i + 1] == tables[i];
      }
    }
  }

  /** These requests got these answers. */
  ghost predicate Follows(served: seq<Served>, requests: seq<Request>, verdicts: seq<Verdict>) {
    && |served| == |requests| == |verdicts|
    && forall i | 0 <= i < |served| :: served[i].request == requests[i] && served[i].verdict == verdicts[i]
  }

  /** A password of this request was accepted. */
  predicate Accepts(s: Served) {
    s.verdict.answer == Allow && !Trusted(s.request.peer) && s.request.password.Some?
  }

  /** The unauthorized requests of each address since a password of it was accepted. */
  ghost function Unauthorizeds(log: Logs, served: seq<Served>): Logs
    decreases |served|
  {
    if served == [] then log else Unauthorizeds(LogAfter(log, served[0]), served[1..])
  }

  ghost function LogAfter(log: Logs, s: Served): Logs {
    if s.verdict.answer == Answer.Unauthorized then
      WithAttempt(log, s.request.from, Attempt(s.request.now, true, s.begins))
    else if Accepts(s) then log - {s.request.from}
    else log
  }

  ghost predicate Rated(limit: Limit, log: Logs, steady: bool)
    requires limit.window > 0.0
  {
    forall a | a in log :: AllBounded(limit, log[a]) && (steady ==> AllAged(limit, log[a]))
  }

  /** At no time in the history were there too many of them. */
  ghost predicate AlwaysRated(limit: Limit, log: Logs, served: seq<Served>, steady: bool)
    requires limit.window > 0.0
  {
    forall n {:trigger served[..n]} | 0 <= n <= |served| :: Rated(limit, Unauthorizeds(log, served[..n]), steady)
  }

  lemma RatedFirst(limit: Limit, log: Logs, s: Served, served: seq<Served>, steady: bool)
    requires limit.window > 0.0 && Rated(limit, log, steady) && AlwaysRated(limit, LogAfter(log, s), served, steady)
    ensures AlwaysRated(limit, log, [s] + served, steady)
  {
    var all := [s] + served;
    forall n {:trigger all[..n]} | 0 <= n <= |all| ensures Rated(limit, Unauthorizeds(log, all[..n]), steady) {
      if n > 0 {
        assert all[..n][0] == s && all[..n][1..] == served[..n - 1];
      }
    }
  }

  /** The request's address had failed often enough to be refused. */
  ghost predicate TooOften(limit: Limit, log: Logs, r: Request)
    requires limit.window > 0.0
  {
    r.from in log && Overfull(limit, log[r.from], r.now)
  }

  /** Whoever was refused for failing too often had done so. */
  ghost predicate Deserved(limit: Limit, log: Logs, served: seq<Served>)
    requires limit.window > 0.0
  {
    forall n {:trigger served[..n]} | 0 <= n < |served| && served[n].verdict.answer == TooMany ::
      TooOften(limit, Unauthorizeds(log, served[..n]), served[n].request)
  }

  lemma DeservedFirst(limit: Limit, log: Logs, s: Served, served: seq<Served>)
    requires limit.window > 0.0 && Deserved(limit, LogAfter(log, s), served)
    requires s.verdict.answer == TooMany ==> TooOften(limit, log, s.request)
    ensures Deserved(limit, log, [s] + served)
  {
    var all := [s] + served;
    forall n {:trigger all[..n]} | 0 <= n < |all| && all[n].verdict.answer == TooMany
      ensures TooOften(limit, Unauthorizeds(log, all[..n]), all[n].request)
    {
      if n > 0 {
        assert all[..n][0] == s && all[..n][1..] == served[..n - 1] && all[n] == served[n - 1];
      }
    }
  }

  /** Every failure logged was let pass. */
  ghost predicate LetPass(log: Logs) {
    forall a | a in log :: forall k | 0 <= k < |log[a]| :: log[a][k].passed
  }

  lemma {:induction false} AllLetPass(log: Logs, served: seq<Served>)
    requires LetPass(log)
    ensures LetPass(Unauthorizeds(log, served))
    decreases |served|
  {
    if served != [] {
      AllLetPass(LogAfter(log, served[0]), served[1..]);
    }
  }

  /** The unauthorized answers of a new controller to one address, up to some time. */
  ghost function Refusals(served: seq<Served>, n: nat, a: Address): seq<Attempt>
    requires n <= |served|
  {
    var log := Unauthorizeds(map[], served[..n]);
    if a in log then log[a] else []
  }

  /**
   * A new controller refuses an address for failing too often only after max unauthorized answers to it that one
   * bucket counted, no password of it accepted between.
   */
  lemma RefusedAfterMax(limit: Limit, served: seq<Served>, n: nat) returns (i: nat)
    requires limit.window > 0.0 && Deserved(limit, map[], served) && n < |served| && served[n].verdict.answer == TooMany
    ensures var log := Refusals(served, n, served[n].request.from);
            i < |log| && |log| - i >= limit.max && OneLife(log, i, |log| - 1)
  {
    var log := Refusals(served, n, served[n].request.from);
    assert served[..n] == served[..n];
    assert TooOften(limit, Unauthorizeds(map[], served[..n]), served[n].request);
    i :| i < |log| && Enough(limit, log, served[n].request.now, i);
  }

  /**
   * At any time in a history, n unauthorized answers to one address from t1 to tn, no password of it accepted
   * between, that one bucket counted, are fewer than max + 1 + max * (tn - t1) / window.
   */
  lemma UnauthorizedRate(limit: Limit, served: seq<Served>, steady: bool, n: nat, a: Address, i: nat, j: nat,
      span: real)
    requires limit.window > 0.0 && AlwaysRated(limit, map[], served, steady) && n <= |served|
    requires var log := Refusals(served, n, a);
             i <= j < |log| && Forward(log, i, j) && OneLife(log, i, j) && span == log[j].at - log[i].at
    ensures (j - i + 1) as real < limit.max as real + 1.0 + limit.max as real * span / limit.window
  {
    assert Rated(limit, Unauthorizeds(map[], served[..n]), steady);
    AllLetPass(map[], served[..n]);
    RateInLife(limit, Refusals(served, n, a), i, j, span);
  }

  /**
   * However many buckets counted them, max + 1 are allowed for each.  If the clock never went back and nothing was
   * evicted, there were two buckets at most, and one more for each TTL that went by.
   */
  lemma UnauthorizedOverLives(limit: Limit, served: seq<Served>, steady: bool, n: nat, a: Address, i: nat, j: nat,
      span: real)
    requires limit.window > 0.0 && AlwaysRated(limit, map[], served, steady) && n <= |served|
    requires var log := Refusals(served, n, a); i <= j < |log| && Forward(log, i, j) && span == log[j].at - log[i].at
    ensures var log := Refusals(served, n, a);
            && (j - i + 1) as real < Allowed(limit, Lives(log, i, j)) + limit.max as real * span / limit.window
            && (steady ==> Lives(log, i, j) <= 2 + (Seconds(log[j].at) - Seconds(log[i].at)) / (Ttl(limit) + 1))
  {
    var log := Refusals(served, n, a);
    assert Rated(limit, Unauthorizeds(map[], served[..n]), steady);
    AllLetPass(map[], served[..n]);
    RateOverLives(limit, log, i, j, span);
    if steady {
      LivesInTime(limit, log, i, j);
    }
  }

  class Controller {
    const crypto: Crypto
    const config: Config
    const throttle: Throttle
    var cachedPassword: string
    var cachedEnable: string

    ghost function Cache(): Caches
      reads `cachedPassword, `cachedEnable
    {
      Caches(cachedPassword, cachedEnable)
    }

    constructor (crypto: Crypto, config: Config, throttle: Throttle)
      ensures this.crypto == crypto && this.config == config && this.throttle == throttle && Cache() == NOTHING
    {
      this.crypto, this.config, this.throttle := crypto, config, throttle;
      cachedPassword, cachedEnable := "", "";
    }

    /** rspamd_check_encrypted_password: the caches first, then the key derivation. */
    method CheckEncrypted(password: string, check: string, kdf: Kdf, isEnable: bool, mapped: bool) returns (ret: bool)
      requires KdfOf(check) == Some(kdf) && (if isEnable then config.enable else config.password) == Some(check)
      modifies `cachedPassword, `cachedEnable
      ensures ret == Passes(crypto, config, old(Cache()), isEnable, password)
      ensures Cache() == Filled(crypto, config, old(Cache()), isEnable, password, mapped)
    {
      if isEnable && |cachedEnable| != 0 {
        return password == cachedEnable;
      } else if !isEnable && |cachedPassword| != 0 {
        if password == cachedPassword {
          return true;
        }
        if |cachedEnable| != 0 {
          return password == cachedEnable;
        }
      }
      ret := CheckUncached(crypto, password, check, kdf);
      if ret && mapped {
        if isEnable && |cachedEnable| == 0 {
          cachedEnable := password;
        } else if !isEnable && |cachedPassword| == 0 {
          cachedPassword := password;
        }
      }
    }

    /** A password against one of the configured ones, plain or encrypted. */
    method CheckOne(password: string, check: string, isEnable: bool, mapped: bool) returns (ret: bool)
      requires (if isEnable then config.enable else config.password) == Some(check)
      modifies `cachedPassword, `cachedEnable
      ensures ret == Passes(crypto, config, old(Cache()), isEnable, password)
      ensures Cache() == Filled(crypto, config, old(Cache()), isEnable, password, mapped)
    {
      var kdf := IsEncrypted(check);
      if kdf.None? {
        ret := |check| == |password| && password == check;
      } else {
        ret := CheckEncrypted(password, check, kdf.value, isEnable, mapped);
      }
    }

    /** The decision on a privileged command: strictly the enable password, or the only one there is. */
    method CheckPrivileged(password: string, mapNormal: bool, mapEnable: bool) returns (ret: bool)
      modifies `cachedPassword, `cachedEnable
      ensures ret == Passes(crypto, config, old(Cache()), config.enable.Some?, password)
      ensures Cache() == Filled(crypto, config, old(Cache()), config.enable.Some?, password,
                                if config.enable.Some? then mapEnable else mapNormal)
    {
      if config.enable.Some? {
        ret := CheckOne(password, config.enable.value, true, mapEnable);
      } else if config.password.Some? {
        ret := CheckOne(password, config.password.value, false, mapNormal);
      } else {
        ret := false;
      }
    }

    /** The decision on an ordinary command: either password, the enable password looked at again for write access. */
    method CheckNormal(password: string, mapNormal: bool, mapEnable: bool)
      returns (checkNormal: bool, checkEnable: bool, readOnly: bool)
      requires password !in DEFAULTS
      modifies `cachedPassword, `cachedEnable
      ensures Verdict(if checkNormal || checkEnable then Allow else Unauthorized, readOnly)
           == CachedJudge(crypto, config, old(Cache()), false, password)
      ensures Cache() == CachesAfter(crypto, config, old(Cache()), false, password, mapNormal, mapEnable)
    {
      var same := config.password.Some? && config.enable.Some? && config.password.value == config.enable.value;
      checkNormal, checkEnable, readOnly := false, false, true;
      if config.password.Some? {
        checkNormal := CheckOne(password, config.password.value, false, mapNormal);
        if checkNormal {
          if config.enable.None? {
            readOnly := false;
          } else if same {
            checkEnable := true;
          } else {
            checkEnable := CheckOne(password, config.enable.value, true, mapEnable);
          }
        }
      }
      if !checkNormal && !checkEnable && config.enable.Some? && !same {
        checkEnable := CheckOne(password, config.enable.value, true, mapEnable);
      }
      if checkEnable {
        readOnly := false;
      }
    }

    /** The decision on a password that was given. */
    method Answered(password: string, isEnable: bool, mapNormal: bool, mapEnable: bool)
      returns (ret: bool, readOnly: bool)
      modifies `cachedPassword, `cachedEnable
      ensures Verdict(if ret then Allow else Unauthorized, readOnly)
           == CachedJudge(crypto, config, old(Cache()), isEnable, password)
      ensures Cache() == CachesAfter(crypto, config, old(Cache()), isEnable, password, mapNormal, mapEnable)
    {
      if password == "q1" || password == "q2" {
        return false, true;
      }
      var checkNormal, checkEnable := false, false;
      ret, readOnly := true, true;
      if isEnable {
        ret := CheckPrivileged(password, mapNormal, mapEnable);
        if ret {
          checkEnable, readOnly := true, false;
        }
      } else {
        checkNormal, checkEnable, readOnly := CheckNormal(password, mapNormal, mapEnable);
      }
      if !checkNormal && !checkEnable {
        ret := false;
      }
    }

    /** rspamd_controller_check_password. */
    method CheckPassword(r: Request) returns (v: Verdict)
      requires throttle.Valid()
      modifies this, throttle
      ensures throttle.Valid() && v == Cached(crypto, config, throttle.limit, old(throttle.buckets), old(Cache()), r)
      ensures throttle.Now() == BooksAfter(config, throttle.limit, old(throttle.Now()), r, v)
      ensures Cache() == CachesNext(crypto, config, throttle.limit, old(throttle.buckets), old(Cache()), r)
    {
      if r.peer.unix {
        if r.peer.forwarded == Accepted {
          return Verdict(Allow, false);
        } else if r.peer.forwarded == Absent {
          return Verdict(Allow, false);
        }
      } else if r.peer.secure {
        if r.peer.forwarded == Accepted {
          return Verdict(Allow, false);
        } else if r.peer.forwarded == Absent {
          return Verdict(Allow, false);
        }
      }
      v := CheckUntrusted(r);
    }

    /** The decision on a request from anywhere else. */
    method CheckUntrusted(r: Request) returns (v: Verdict)
      requires throttle.Valid() && !Trusted(r.peer)
      modifies this, throttle
      ensures throttle.Valid() && v == Cached(crypto, config, throttle.limit, old(throttle.buckets), old(Cache()), r)
      ensures throttle.Now() == BooksAfter(config, throttle.limit, old(throttle.Now()), r, v)
      ensures Cache() == CachesNext(crypto, config, throttle.limit, old(throttle.buckets), old(Cache()), r)
    {
      var allowed := throttle.IsAllowed(r.from, r.now);
      if !allowed {
        return Verdict(TooMany, true);
      }
      v := Consider(r);
    }

    /** A request the throttle lets pass. */
    method Consider(r: Request) returns (v: Verdict)
      requires throttle.Valid()
      modifies this, throttle
      ensures throttle.Valid() && v == Considered(crypto, config, old(Cache()), r)
      ensures throttle.Now() == BooksConsidered(config, throttle.limit, old(throttle.Now()), r, v)
      ensures Cache() == if r.password.None? then old(Cache())
                         else CachesAfter(crypto, config, old(Cache()), r.isEnable, r.password.value, r.mapNormal,
                             r.mapEnable)
    {
      var ret, readOnly := true, true;
      if r.password.None? {
        if !config.secureMap {
          if config.password.None? && !r.isEnable {
            return Verdict(Allow, true);
          } else if r.isEnable && config.password.None? && config.enable.None? {
            return Verdict(Allow, false);
          }
        }
        ret := false;
      } else {
        ret, readOnly := Answered(r.password.value, r.isEnable, r.mapNormal, r.mapEnable);
      }
      v := Conclude(r, ret, readOnly);
    }

    /** A failure or a success is recorded with the throttle. */
    method Conclude(r: Request, ret: bool, readOnly: bool) returns (v: Verdict)
      requires throttle.Valid()
      modifies throttle
      ensures throttle.Valid() && v == Verdict(if ret then Allow else Unauthorized, readOnly)
      ensures throttle.Now() == if ret then BooksCleared(throttle.limit, old(throttle.Now()), r.from)
                                else BooksFailed(throttle.limit, old(throttle.Now()), r.from, r.now, r.evicts)
    {
      if !ret {
        throttle.Failure(r.from, r.now, r.evicts);
        v := Verdict(Unauthorized, readOnly);
      } else {
        throttle.Success(r.from);
        v := Verdict(Allow, readOnly);
      }
    }

    /**
     * A whole history of requests gets the answers of the decision with caches, and at no time had an address more
     * unauthorized answers than the throttle allows.
     */
    method Serve(requests: seq<Request>)
      returns (verdicts: seq<Verdict>, ghost served: seq<Served>, ghost tables: seq<Buckets>)
      requires throttle.Valid()
      modifies this, throttle
      ensures throttle.Valid()
      ensures verdicts == CachedRun(crypto, config, throttle.limit, old(throttle.buckets), old(Cache()), requests)
      ensures History(config, throttle.limit, old(throttle.Now()), requests, verdicts, served, tables, throttle.Now())
      decreases |requests|
    {
      ghost var first, cs := throttle.Now(), Cache();
      if requests == [] {
        verdicts, served, tables := [], [], [throttle.buckets];
        NoHistory(config, throttle.limit, first);
      } else {
        var v := CheckPassword(requests[0]);
        ghost var next := throttle.Now();
        var rest;
        ghost var after, later;
        rest, after, later := Serve(requests[1..]);
        verdicts := [v] + rest;
        served, tables := [ServedAt(throttle.limit, first.buckets, requests[0], v)] + after, [first.buckets] + later;
        BooksTell(crypto, config, throttle.limit, first, cs, requests[0], v);
        HistoryFirst(config, throttle.limit, first, next, requests, v, rest, after, later, throttle.Now());
      }
    }
  }

  // ---- What a request does to the books --------------------------------------------------------------

  /** The answer where the throttle does not refuse. */
  ghost function Considered(crypto: Crypto, config: Config, cs: Caches, r: Request): Verdict {
    if r.password.Some? then CachedJudge(crypto, config, cs, r.isEnable, r.password.value)
    else if Open(config, r.isEnable) then Verdict(Allow, !r.isEnable)
    else Verdict(Unauthorized, true)
  }

  ghost function BooksConsidered(config: Config, limit: Limit, b: Books, r: Request, v: Verdict): Books
    requires Usable(limit)
  {
    if r.password.None? && Open(config, r.isEnable) then b
    else if v.answer == Allow then BooksCleared(limit, b, r.from)
    else BooksFailed(limit, b, r.from, r.now, r.evicts)
  }

  ghost function BooksAfter(config: Config, limit: Limit, b: Books, r: Request, v: Verdict): Books
    requires Usable(limit)
  {
    if Trusted(r.peer) then b
    else
      var looked := BooksChecked(limit, b, r.from, r.now);
      if !Allows(limit, b.buckets, r.from, r.now) then looked else BooksConsidered(config, limit, looked, r, v)
  }

  /** The books have the table, and the failure or that the address was forgotten. */
  lemma BooksTell(crypto: Crypto, config: Config, limit: Limit, b: Books, cs: Caches, r: Request, v: Verdict)
    requires InOrder(limit, b) && v == Cached(crypto, config, limit, b.buckets, cs, r)
    ensures Step(config, limit, b, r, v, BooksAfter(config, limit, b, r, v))
  {
    Earned(limit, b, r.from, r.now);
    if !Trusted(r.peer) && Allows(limit, b.buckets, r.from, r.now) {
      LookedAgain(limit, b.buckets, r.from, r.now);
      LetThrough(crypto, config, limit, b.buckets, cs, r);
      ConsideredTells(config, limit, BooksChecked(limit, b, r.from, r.now), r, v);
    }
  }

  /** A request the throttle lets pass is answered without looking at a password only if none is asked for. */
  lemma LetThrough(crypto: Crypto, config: Config, limit: Limit, buckets: Buckets, cs: Caches, r: Request)
    requires Usable(limit) && !Trusted(r.peer) && Allows(limit, buckets, r.from, r.now)
    ensures Gate(config, limit, buckets, r).Some? <==> r.password.None? && Open(config, r.isEnable)
    ensures var v := Cached(crypto, config, limit, buckets, cs, r);
            v.answer != TooMany && (r.password.None? ==> (v.answer == Allow <==> Open(config, r.isEnable)))
  {
  }

  /** After the lookup: the failure is logged, or the address forgotten, or nothing was asked. */
  ghost predicate Tells(config: Config, limit: Limit, b: Books, r: Request, v: Verdict, next: Books)
    requires Usable(limit)
  {
    && next.buckets == (if r.password.None? && Open(config, r.isEnable) then b.buckets
                        else if v.answer == Allow then AfterSuccess(limit, b.buckets, r.from)
                        else AfterFailure(limit, b.buckets, r.from, r.now, r.evicts))
    && (limit.max > 0 ==>
          next.log == if v.answer == Answer.Unauthorized then
                        WithAttempt(b.log, r.from, Attempt(r.now, true, !Known(limit, b.buckets, r.from, r.now)))
                      else if r.password.None? then b.log
                      else b.log - {r.from})
    && next.clock == r.now && (next.steady ==> b.steady) && (b.steady && r.evicts == {} ==> next.steady)
  }

  lemma ConsideredTells(config: Config, limit: Limit, b: Books, r: Request, v: Verdict)
    requires Usable(limit) && Allows(limit, b.buckets, r.from, r.now) && v.answer != TooMany && b.clock == r.now
    requires r.password.None? ==> (v.answer == Allow <==> Open(config, r.isEnable))
    ensures Tells(config, limit, b, r, v, BooksConsidered(config, limit, b, r, v))
  {
    if v.answer == Answer.Unauthorized {
      FailedTells(config, limit, b, r, v);
    }
  }

  lemma FailedTells(config: Config, limit: Limit, b: Books, r: Request, v: Verdict)
    requires Usable(limit) && Allows(limit, b.buckets, r.from, r.now) && v.answer == Answer.Unauthorized
             && b.clock == r.now
    requires r.password.None? ==> !Open(config, r.isEnable)
    ensures Tells(config, limit, b, r, v, BooksFailed(limit, b, r.from, r.now, r.evicts))
  {
    var next := BooksFailed(limit, b, r.from, r.now, r.evicts);
    assert next.buckets == AfterFailure(limit, b.buckets, r.from, r.now, r.evicts);
    if limit.max > 0 {
      assert NextAttempt(limit, b.buckets, r.from, r.now) ==
        Attempt(r.now, true, !Known(limit, b.buckets, r.from, r.now));
    }
  }

  /** Everything a history of requests leaves behind. */
  ghost predicate History(config: Config, limit: Limit, first: Books, requests: seq<Request>, verdicts: seq<Verdict>,
      served: seq<Served>, tables: seq<Buckets>, last: Books)
    requires Usable(limit)
  {
    && Traced(config, limit, tables, served) && tables[0] == first.buckets && Follows(served, requests, verdicts)
    && (limit.max > 0 ==> AlwaysRated(limit, first.log, served, last.steady) && Deserved(limit, first.log, served))
    && (limit.max == 0 ==> forall i | 0 <= i < |verdicts| :: verdicts[i].answer != TooMany)
    && (last.steady ==> first.steady) && (first.steady && Calm(first.clock, requests) ==> last.steady)
  }

  lemma NoHistory(config: Config, limit: Limit, b: Books)
    requires InOrder(limit, b)
    ensures History(config, limit, b, [], [], [], [b.buckets], b)
  {
    if limit.max > 0 {
      NowRated(limit, b);
      var none: seq<Served> := [];
      forall n {:trigger none[..n]} | 0 <= n <= |none| ensures Rated(limit, Unauthorizeds(b.log, none[..n]), b.steady) {
        assert none[..n] == [];
      }
    }
  }

  lemma HistoryFirst(config: Config, limit: Limit, first: Books, next: Books, requests: seq<Request>, v: Verdict,
      rest: seq<Verdict>, after: seq<Served>, later: seq<Buckets>, last: Books)
    requires InOrder(limit, first) && requests != []
             && History(config, limit, next, requests[1..], rest, after, later, last)
    requires Step(config, limit, first, requests[0], v, next)
    ensures History(config, limit, first, requests, [v] + rest,
            [ServedAt(limit, first.buckets, requests[0], v)] + after,
              [first.buckets] + later, last)
  {
    var r, s := requests[0], ServedAt(limit, first.buckets, requests[0], v);
    TracedFirst(config, limit, first.buckets, r, v, later, after);
    if limit.max > 0 {
      NowRated(limit, first);
      RatedFirst(limit, first.log, s, after, last.steady);
      DeservedFirst(limit, first.log, s, after);
    }
    if Calm(first.clock, requests) {
      CalmRest(first.clock, next.clock, requests);
    }
  }

  /** One request's step, as far as a history is concerned. */
  ghost predicate Step(config: Config, limit: Limit, b: Books, r: Request, v: Verdict, next: Books)
    requires Usable(limit)
  {
    && next.buckets == TableAfter(config, limit, b.buckets, r, v)
    && (limit.max > 0 ==> next.log == LogAfter(b.log, ServedAt(limit, b.buckets, r, v)))
    && (v.answer == TooMany ==> limit.max > 0 && TooOften(limit, b.log, r))
    && (next.steady ==> b.steady) && (b.steady && b.clock <= r.now && r.evicts == {} ==> next.steady)
    && (next.clock == b.clock || next.clock == r.now)
  }

  /** From this time on the clock does not go back and nothing is evicted. */
  ghost predicate Calm(clock: real, requests: seq<Request>) {
    && (forall i | 0 <= i < |requests| :: clock <= requests[i].now && requests[i].evicts == {})
    && (forall i, j | 0 <= i < j < |requests| :: requests[i].now <= requests[j].now)
  }

  lemma CalmRest(clock: real, next: real, requests: seq<Request>)
    requires requests != [] && Calm(clock, requests) && (next == clock || next == requests[0].now)
    ensures Calm(next, requests[1..])
  {
    forall i | 0 <= i < |requests[1..]| ensures next <= requests[1..][i].now && requests[1..][i].evicts == {} {
      assert requests[1..][i] == requests[i + 1] && requests[0].now <= requests[i + 1].now;
    }
  }

  lemma NowRated(limit: Limit, b: Books)
    requires InOrder(limit, b) && limit.max > 0
    ensures Rated(limit, b.log, b.steady)
  {
    forall a | a in b.log ensures AllBounded(limit, b.log[a]) && (b.steady ==> AllAged(limit, b.log[a])) {
      assert Kept(limit, b.buckets, b.log, a);
      assert b.steady ==> Spaced(limit, b.buckets, b.log, b.clock, a);
    }
  }

  /** A second lookup at the same time finds what the first one did. */
  lemma LookedAgain(limit: Limit, buckets: Buckets, a: Address, now: real)
    requires Usable(limit)
    ensures var looked := AfterCheck(limit, buckets, a, now);
            && Allows(limit, looked, a, now) == Allows(limit, buckets, a, now)
            && (limit.max > 0 ==> Known(limit, looked, a, now) == Known(limit, buckets, a, now))
  {
  }
}
