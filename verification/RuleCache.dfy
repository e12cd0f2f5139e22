/** The two caches in front of rule resolution: effective rules are kept for 15 minutes, and the
    resolution service keeps its own results for 5 minutes under other keys of the same cache. */
module RuleCache {
  import opened Wrappers
  import opened IsoText
  import opened RuleVersions

  const EFFECTIVE_TTL := 900000
  const INHERITANCE_TTL := 300000

  /** A cached value, when it was set and when it expires. */
  datatype Entry<V> = Entry(value: V, since: int, expires: int)

  /** The clock, the stored categories and the cache. */
  datatype State<S, V> = State(now: int, store: S, cache: map<string, Entry<V>>)

  /** What merging the rules of the store gives; None when the category does not exist. */
  type Resolution<!S, V> = (S, Kind, string) -> Option<V>

  /** An interrupted read fails between resolving the rules and caching them under its own key. A
      write is an update of rules; other changes of the store delete no keys. */
  datatype Event<S> =
    | Tick(ms: nat)
    | Read(kind: Kind, id: string)
    | Interrupted(kind: Kind, id: string)
    | Write(kind: Kind, id: string, store: S)
    | Change(store: S)

  // ----- keys

  function Word(kind: Kind): string {
    match kind
    case Pricing => "pricing"
    case Feature => "feature"
    case Validation => "validation"
  }

  function EffectiveKey(kind: Kind, id: string): string { Word(kind) + ("-rules:" + id) }

  function InheritanceKey(kind: Kind, id: string): string { "rule-inheritance:" + (id + (":" + Word(kind))) }

  /** The keys the rule template service deletes for one word when it backs up rules. */
  function BackupKeys(id: string, word: string): set<string> {
    {"rule_inheritance:" + (id + (":" + word)), "rule_inheritance:*:" + word,
     "rule_validation:" + (id + (":" + word)), "rule_template_versions:" + (id + (":" + word))}
  }

  /** The keys the category service deletes after an update. */
  function InvalidatedKeys(kind: Kind, id: string): set<string> {
    {"effective_" + (Word(kind) + ("_rules_" + id)), "category_analytics_" + id, "category_data_" + id}
  }

  /** All the keys an update deletes. */
  function DeletedKeys(kind: Kind, id: string): set<string> {
    InvalidatedKeys(kind, id)
    + BackupKeys(id, "pricing") + BackupKeys(id, "availability")
    + BackupKeys(id, "feature") + BackupKeys(id, "validation")
  }

  lemma EffectiveKeyInjective(k: Kind, id: string, l: Kind, id': string)
    ensures EffectiveKey(k, id) == EffectiveKey(l, id') <==> k == l && id == id'
  {
    if EffectiveKey(k, id) == EffectiveKey(l, id') {
      assert EffectiveKey(k, id)[0] == Word(k)[0] && EffectiveKey(l, id')[0] == Word(l)[0];
      ConcatSplit(Word(k), "-rules:" + id, Word(l), "-rules:" + id');
      ConcatSplit("-rules:", id, "-rules:", id');
    }
  }

  lemma InheritanceKeyInjective(k: Kind, id: string, l: Kind, id': string)
    ensures InheritanceKey(k, id) == InheritanceKey(l, id') <==> k == l && id == id'
  {
    if InheritanceKey(k, id) == InheritanceKey(l, id') {
      var a, b := id + (":" + Word(k)), id' + (":" + Word(l));
      ConcatSplit("rule-inheritance:", a, "rule-inheritance:", b);
      assert a[|a| - 1] == Word(k)[|Word(k)| - 1] && a[|a| - 2] == Word(k)[|Word(k)| - 2]
             && a[|a| - 3] == Word(k)[|Word(k)| - 3];
      assert b[|b| - 1] == Word(l)[|Word(l)| - 1] && b[|b| - 2] == Word(l)[|Word(l)| - 2]
             && b[|b| - 3] == Word(l)[|Word(l)| - 3];
      assert k == l;
      ConcatSplit(id, ":" + Word(k), id', ":" + Word(l));
    }
  }

  lemma KeysNeverMeet(k: Kind, id: string, l: Kind, id': string)
    ensures EffectiveKey(k, id) != InheritanceKey(l, id')
  {
    assert EffectiveKey(k, id)[0] == Word(k)[0] && InheritanceKey(l, id')[0] == 'r';
  }

  lemma PrefixShows(prefix: string, rest: string, i: nat)
    requires i < |prefix|
    ensures i < |prefix + rest| && (prefix + rest)[i] == prefix[i]
  {}

  lemma BackupKeysBeginWithRule(id: string, word: string, key: string)
    requires key in BackupKeys(id, word)
    ensures |key| > 4 && key[4] == '_' && key[0] == 'r'
  {
    var rest := id + (":" + word);
    assert key == "rule_inheritance:" + rest || key == "rule_inheritance:*:" + word
           || key == "rule_validation:" + rest || key == "rule_template_versions:" + rest;
  }

  lemma InvalidatedKeysBegin(kind: Kind, id: string, key: string)
    requires key in InvalidatedKeys(kind, id)
    ensures key != "" && key[0] in {'e', 'c'}
  {
    var rest := Word(kind) + ("_rules_" + id);
    assert key == "effective_" + rest || key == "category_analytics_" + id || key == "category_data_" + id;
  }

  lemma ReadKeysBegin(k: Kind, id: string)
    ensures EffectiveKey(k, id) != "" && EffectiveKey(k, id)[0] in {'p', 'f', 'v'}
    ensures |InheritanceKey(k, id)| > 4 && InheritanceKey(k, id)[0] == 'r' && InheritanceKey(k, id)[4] == '-'
  {
    assert EffectiveKey(k, id)[0] == Word(k)[0];
    PrefixShows("rule-inheritance:", id + (":" + Word(k)), 0);
    PrefixShows("rule-inheritance:", id + (":" + Word(k)), 4);
  }

  /** No key that is deleted on an update is ever read: invalidation does not reach the caches. */
  lemma DeletedKeysAreNeverRead(k: Kind, id: string, l: Kind, id': string)
    ensures EffectiveKey(k, id) !in DeletedKeys(l, id') && InheritanceKey(k, id) !in DeletedKeys(l, id')
  {
    hide EffectiveKey;
    hide InheritanceKey;
    hide BackupKeys;
    hide InvalidatedKeys;
    ReadKeysBegin(k, id);
    forall key | key in DeletedKeys(l, id')
      ensures key != "" && (key[0] in {'e', 'c'} || (|key| > 4 && key[4] == '_' && key[0] == 'r'))
    {
      if key in InvalidatedKeys(l, id') {
        InvalidatedKeysBegin(l, id', key);
      } else {
        var word :| word in {"pricing", "availability", "feature", "validation"} && key in BackupKeys(id', word);
        BackupKeysBeginWithRule(id', word, key);
      }
    }
  }

  lemma EffectiveKeyTexts(id: string)
    ensures EffectiveKey(Pricing, id) == "pricing-rules:" + id && EffectiveKey(Feature, id) == "feature-rules:" + id
            && EffectiveKey(Validation, id) == "validation-rules:" + id
  {
    assert "pricing" + "-rules:" == "pricing-rules:" && "feature" + "-rules:" == "feature-rules:"
           && "validation" + "-rules:" == "validation-rules:";
  }

  lemma InheritanceKeyTexts(id: string)
    ensures InheritanceKey(Pricing, id) == "rule-inheritance:" + id + ":pricing"
            && InheritanceKey(Feature, id) == "rule-inheritance:" + id + ":feature"
            && InheritanceKey(Validation, id) == "rule-inheritance:" + id + ":validation"
  {
    assert ":" + "pricing" == ":pricing" && ":" + "feature" == ":feature" && ":" + "validation" == ":validation";
  }

  lemma DeletedKeyText(kind: Kind, id: string)
    ensures "effective_" + Word(kind) + "_rules_" + id in InvalidatedKeys(kind, id)
  {
    assert "effective_" + Word(kind) + "_rules_" + id == "effective_" + (Word(kind) + ("_rules_" + id));
  }

  lemma DeletedKeyTexts(id: string)
    ensures "effective_" + "pricing" + "_rules_" + id in InvalidatedKeys(Pricing, id)
            && "effective_" + "feature" + "_rules_" + id in InvalidatedKeys(Feature, id)
            && "effective_" + "validation" + "_rules_" + id in InvalidatedKeys(Validation, id)
  {
    hide InvalidatedKeys;
    DeletedKeyText(Pricing, id);
    DeletedKeyText(Feature, id);
    DeletedKeyText(Validation, id);
  }

  /** The keys as the services spell them. */
  lemma KeyTexts(id: string)
    ensures EffectiveKey(Pricing, id) == "pricing-rules:" + id && EffectiveKey(Feature, id) == "feature-rules:" + id
            && EffectiveKey(Validation, id) == "validation-rules:" + id
    ensures InheritanceKey(Pricing, id) == "rule-inheritance:" + id + ":pricing"
            && InheritanceKey(Feature, id) == "rule-inheritance:" + id + ":feature"
            && InheritanceKey(Validation, id) == "rule-inheritance:" + id + ":validation"
    ensures "effective_" + "pricing" + "_rules_" + id in DeletedKeys(Pricing, id)
            && "effective_" + "feature" + "_rules_" + id in DeletedKeys(Feature, id)
            && "effective_" + "validation" + "_rules_" + id in DeletedKeys(Validation, id)
  {
    EffectiveKeyTexts(id);
    InheritanceKeyTexts(id);
    DeletedKeyTexts(id);
  }

  // ----- reading and writing

  function Lookup<V>(cache: map<string, Entry<V>>, key: string, now: int): Option<V> {
    if key in cache && now < cache[key].expires then Some(cache[key].value) else None
  }

  function Remember<S, V>(s: State<S, V>, key: string, value: V, ttl: nat): State<S, V> {
    s.(cache := s.cache[key := Entry(value, s.now, s.now + ttl)])
  }

  datatype Served<S, V> = Served(state: State<S, V>, answer: Option<V>)

  /** resolveRuleInheritance of the rule template service. */
  function ResolveRuleInheritance<S, V>(
    s: State<S, V>, resolve: Resolution<S, V>, kind: Kind, id: string): Served<S, V>
  {
    var key := InheritanceKey(kind, id);
    match Lookup(s.cache, key, s.now)
    case Some(value) => Served(s, Some(value))
    case None =>
      match resolve(s.store, kind, id)
      case None => Served(s, None)
      case Some(value) => Served(Remember(s, key, value, INHERITANCE_TTL), Some(value))
  }

  /** getEffectivePricingRules, getEffectiveFeatureRules and getEffectiveValidationRules. */
  function GetEffectiveRules<S, V>(s: State<S, V>, resolve: Resolution<S, V>, kind: Kind, id: string): Served<S, V> {
    var key := EffectiveKey(kind, id);
    match Lookup(s.cache, key, s.now)
    case Some(value) => Served(s, Some(value))
    case None =>
      if resolve(s.store, kind, id).None? then Served(s, None)
      else
        var inherited := ResolveRuleInheritance(s, resolve, kind, id);
        match inherited.answer
        case None => inherited
        case Some(value) => Served(Remember(inherited.state, key, value, EFFECTIVE_TTL), Some(value))
  }

  /** The state an interrupted read leaves: that of the resolution service, if it gets there. */
  function AfterInterruption<S, V>(s: State<S, V>, resolve: Resolution<S, V>, kind: Kind, id: string): State<S, V> {
    if Lookup(s.cache, EffectiveKey(kind, id), s.now).Some? || resolve(s.store, kind, id).None? then s
    else ResolveRuleInheritance(s, resolve, kind, id).state
  }

  function Step<S, V>(s: State<S, V>, resolve: Resolution<S, V>, e: Event<S>): State<S, V> {
    match e
    case Tick(ms) => s.(now := s.now + ms)
    case Read(kind, id) => GetEffectiveRules(s, resolve, kind, id).state
    case Interrupted(kind, id) => AfterInterruption(s, resolve, kind, id)
    case Write(kind, id, store) => State(s.now, store, s.cache - DeletedKeys(kind, id))
    case Change(store) => s.(store := store)
  }

  /** An entry is there and has not expired. */
  predicate IsLive<V>(cache: map<string, Entry<V>>, key: string, now: int) {
    key in cache && now < cache[key].expires
  }

  /** The resolution service answers from its cache while it can, and else what resolution gives. */
  lemma ResolutionAnswers<S, V>(s: State<S, V>, resolve: Resolution<S, V>, kind: Kind, id: string)
    ensures var answer, key := ResolveRuleInheritance(s, resolve, kind, id).answer, InheritanceKey(kind, id);
            answer == if IsLive(s.cache, key, s.now) then Some(s.cache[key].value) else resolve(s.store, kind, id)
  {}

  /** A read answers from its cache while it can; else it answers None exactly when the category
      does not exist, and otherwise what the resolution service has cached or resolution gives. */
  lemma ReadAnswers<S, V>(s: State<S, V>, resolve: Resolution<S, V>, kind: Kind, id: string)
    ensures var answer, found := GetEffectiveRules(s, resolve, kind, id).answer, resolve(s.store, kind, id);
            var outer, inner := EffectiveKey(kind, id), InheritanceKey(kind, id);
            && (IsLive(s.cache, outer, s.now) ==> answer == Some(s.cache[outer].value))
            && (!IsLive(s.cache, outer, s.now) && found.Some? && IsLive(s.cache, inner, s.now)
                ==> answer == Some(s.cache[inner].value))
            && (!IsLive(s.cache, outer, s.now) && !IsLive(s.cache, inner, s.now) ==> answer == found)
            && (answer.None? <==> !IsLive(s.cache, outer, s.now) && found.None?)
  {}

  /** What a read has answered the next one answers again, at once and from the cache alone. */
  lemma ReadAgain<S, V>(s: State<S, V>, resolve: Resolution<S, V>, kind: Kind, id: string)
    ensures var read := GetEffectiveRules(s, resolve, kind, id);
            && GetEffectiveRules(read.state, resolve, kind, id) == read
            && (read.answer.Some? ==> IsLive(read.state.cache, EffectiveKey(kind, id), s.now))
  {
    hide EffectiveKey;
    hide InheritanceKey;
    KeysNeverMeet(kind, id, kind, id);
  }

  /** The services over one cache; between two calls the clock may have moved on. */
  class CachedRules<S, V> {
    var state: State<S, V>

    constructor (now: int, store: S)
      ensures state == State(now, store, map[])
    {
      state := State(now, store, map[]);
    }

    method Inherited(resolve: Resolution<S, V>, kind: Kind, id: string) returns (answer: Option<V>)
      modifies this
      ensures Served(state, answer) == ResolveRuleInheritance(old(state), resolve, kind, id)
      ensures var before, key := old(state), InheritanceKey(kind, id);
              answer == if IsLive(before.cache, key, before.now) then Some(before.cache[key].value)
                        else resolve(before.store, kind, id)
    {
      ResolutionAnswers(state, resolve, kind, id);
      var cacheKey := InheritanceKey(kind, id);
      var cached := Lookup(state.cache, cacheKey, state.now);
      if cached.Some? {
        return cached;
      }
      answer := resolve(state.store, kind, id);
      if answer.Some? {
        state := state.(cache := state.cache[cacheKey := Entry(answer.value, state.now, state.now + INHERITANCE_TTL)]);
      }
    }

    /** setFails: the last step, caching the answer, fails the read. */
    method Effective(resolve: Resolution<S, V>, kind: Kind, id: string, setFails: bool) returns (answer: Option<V>)
      modifies this
      ensures !setFails ==> Served(state, answer) == GetEffectiveRules(old(state), resolve, kind, id)
      ensures setFails ==> state == AfterInterruption(old(state), resolve, kind, id)
      ensures setFails ==> answer == Lookup(old(state).cache, EffectiveKey(kind, id), state.now)
      ensures var before, outer, inner := old(state), EffectiveKey(kind, id), InheritanceKey(kind, id);
              var found := resolve(before.store, kind, id);
              && (IsLive(before.cache, outer, before.now) ==> answer == Some(before.cache[outer].value))
              && (!setFails && !IsLive(before.cache, outer, before.now) && !IsLive(before.cache, inner, before.now)
                  ==> answer == found)
              && (!setFails ==> (answer.None? <==> !IsLive(before.cache, outer, before.now) && found.None?))
    {
      ReadAnswers(state, resolve, kind, id);
      var cacheKey := EffectiveKey(kind, id);
      var cached := Lookup(state.cache, cacheKey, state.now);
      if cached.Some? {
        return cached;
      }
      if resolve(state.store, kind, id).None? {
        return None;
      }
      answer := Inherited(resolve, kind, id);
      if setFails {
        return None;
      }
      if answer.Some? {
        state := state.(cache := state.cache[cacheKey := Entry(answer.value, state.now, state.now + EFFECTIVE_TTL)]);
      }
    }

    /** The next read of any rules finds in either cache what it would have found before. */
    method WriteRules(kind: Kind, id: string, store: S)
      modifies this
      ensures state == State(old(state).now, store, old(state).cache - DeletedKeys(kind, id))
      ensures forall k, other: string ::
                Lookup(state.cache, EffectiveKey(k, other), state.now)
                == Lookup(old(state).cache, EffectiveKey(k, other), state.now)
      ensures forall k, other: string ::
                Lookup(state.cache, InheritanceKey(k, other), state.now)
                == Lookup(old(state).cache, InheritanceKey(k, other), state.now)
    {
      hide EffectiveKey;
      hide InheritanceKey;
      hide DeletedKeys;
      forall k, other: string
        ensures EffectiveKey(k, other) !in DeletedKeys(kind, id) && InheritanceKey(k, other) !in DeletedKeys(kind, id)
      {
        DeletedKeysAreNeverRead(k, other, kind, id);
      }
      state := state.(store := store, cache := state.cache - DeletedKeys(kind, id));
    }
  }

  // ----- runs

  /** The states a run passes through. */
  function Trace<S, V>(first: State<S, V>, resolve: Resolution<S, V>, events: seq<Event<S>>): (trace: seq<State<S, V>>)
    ensures |trace| == |events| + 1
  {
    if events == [] then [first]
    else
      var before := Trace(first, resolve, events[..|events| - 1]);
      before + [Step(before[|events| - 1], resolve, events[|events| - 1])]
  }

  function Last<S, V>(trace: seq<State<S, V>>): State<S, V>
    requires trace != []
  {
    trace[|trace| - 1]
  }

  /** The value is what resolution gives on the store of some state of the trace at the time. */
  ghost predicate SeenAt<S, V>(
    trace: seq<State<S, V>>, resolve: Resolution<S, V>, kind: Kind, id: string, value: V, at: int)
  {
    exists i :: 0 <= i < |trace| && trace[i].now == at && resolve(trace[i].store, kind, id) == Some(value)
  }

  /** The value is what resolution gives on the store of some state of the trace after the bound. */
  ghost predicate SeenAfter<S, V>(
    trace: seq<State<S, V>>, resolve: Resolution<S, V>, kind: Kind, id: string, value: V, bound: int)
  {
    exists i :: 0 <= i < |trace| && trace[i].now > bound && resolve(trace[i].store, kind, id) == Some(value)
  }

  lemma SeenInLonger<S, V>(
    trace: seq<State<S, V>>, next: State<S, V>, resolve: Resolution<S, V>, kind: Kind, id: string, value: V, at: int)
    ensures SeenAt(trace, resolve, kind, id, value, at) ==> SeenAt(trace + [next], resolve, kind, id, value, at)
    ensures SeenAfter(trace, resolve, kind, id, value, at) ==> SeenAfter(trace + [next], resolve, kind, id, value, at)
  {
    var longer := trace + [next];
    if i :| 0 <= i < |trace| && trace[i].now == at && resolve(trace[i].store, kind, id) == Some(value) {
      assert longer[i] == trace[i];
    }
    if i :| 0 <= i < |trace| && trace[i].now > at && resolve(trace[i].store, kind, id) == Some(value) {
      assert longer[i] == trace[i];
    }
  }

  ghost predicate Same<V>(a: map<string, Entry<V>>, b: map<string, Entry<V>>, key: string) {
    (key in a <==> key in b) && (key in a ==> a[key] == b[key])
  }

  /** What an event leaves under the two keys of a category and kind. */
  lemma EntriesAfter<S, V>(s: State<S, V>, resolve: Resolution<S, V>, e: Event<S>, kind: Kind, id: string)
    ensures var next := Step(s, resolve, e);
            var outer, inner := EffectiveKey(kind, id), InheritanceKey(kind, id);
            var found := resolve(s.store, kind, id);
            var innerHit, outerHit := Lookup(s.cache, inner, s.now), Lookup(s.cache, outer, s.now);
            && next.now >= s.now
            && (if e == Interrupted(kind, id) && outerHit.None? && found.Some? then
                  && Same(s.cache, next.cache, outer)
                  && if innerHit.Some? then Same(s.cache, next.cache, inner)
                     else inner in next.cache && next.cache[inner] == Entry(found.value, s.now, s.now + INHERITANCE_TTL)
                else if e == Read(kind, id) && outerHit.None? && found.Some? then
                  if innerHit.Some? then
                    && Same(s.cache, next.cache, inner)
                    && outer in next.cache && next.cache[outer] == Entry(innerHit.value, s.now, s.now + EFFECTIVE_TTL)
                  else
                    && inner in next.cache && next.cache[inner] == Entry(found.value, s.now, s.now + INHERITANCE_TTL)
                    && outer in next.cache && next.cache[outer] == Entry(found.value, s.now, s.now + EFFECTIVE_TTL)
                else Same(s.cache, next.cache, outer) && Same(s.cache, next.cache, inner))
  {
    hide EffectiveKey;
    hide InheritanceKey;
    hide DeletedKeys;
    KeysNeverMeet(kind, id, kind, id);
    match e
    case Tick(_) =>
    case Change(_) =>
    case Write(l, other, _) => DeletedKeysAreNeverRead(kind, id, l, other);
    case Read(l, other) =>
      EffectiveKeyInjective(kind, id, l, other);
      InheritanceKeyInjective(kind, id, l, other);
      KeysNeverMeet(kind, id, l, other);
      KeysNeverMeet(l, other, kind, id);
    case Interrupted(l, other) =>
      EffectiveKeyInjective(kind, id, l, other);
      InheritanceKeyInjective(kind, id, l, other);
      KeysNeverMeet(kind, id, l, other);
  }

  // ----- any run

  /** An entry of either key comes from a resolution at a state of the trace: for the inner key at
      the time it was set, for the outer key less than the inner lifetime before. */
  ghost predicate Accounted<S, V>(trace: seq<State<S, V>>, resolve: Resolution<S, V>, kind: Kind, id: string)
    requires trace != []
  {
    var s, outer, inner := Last(trace), EffectiveKey(kind, id), InheritanceKey(kind, id);
    && (inner in s.cache ==>
          var e := s.cache[inner];
          && e.since <= s.now && e.expires == e.since + INHERITANCE_TTL
          && SeenAt(trace, resolve, kind, id, e.value, e.since))
    && (outer in s.cache ==>
          var e := s.cache[outer];
          && e.since <= s.now && e.expires == e.since + EFFECTIVE_TTL
          && SeenAfter(trace, resolve, kind, id, e.value, e.since - INHERITANCE_TTL))
  }

  lemma RecentlySeen<S, V>(
    trace: seq<State<S, V>>, resolve: Resolution<S, V>, kind: Kind, id: string, value: V, at: int, bound: int)
    requires SeenAt(trace, resolve, kind, id, value, at)
    ensures at > bound ==> SeenAfter(trace, resolve, kind, id, value, bound)
  {
    var i :| 0 <= i < |trace| && trace[i].now == at && resolve(trace[i].store, kind, id) == Some(value);
  }

  lemma SeenNow<S, V>(trace: seq<State<S, V>>, resolve: Resolution<S, V>, kind: Kind, id: string)
    requires trace != []
    ensures var s := Last(trace);
            var found := resolve(s.store, kind, id);
            found.Some? ==> SeenAt(trace, resolve, kind, id, found.value, s.now)
                            && forall bound :: bound < s.now ==> SeenAfter(trace, resolve, kind, id, found.value, bound)
  {}

  lemma StepKeepsAccounted<S, V>(
    trace: seq<State<S, V>>, resolve: Resolution<S, V>, e: Event<S>, kind: Kind, id: string)
    requires trace != [] && Accounted(trace, resolve, kind, id)
    ensures Accounted(trace + [Step(Last(trace), resolve, e)], resolve, kind, id)
  {
    hide Step;
    hide SeenAt;
    hide SeenAfter;
    hide EffectiveKey;
    hide InheritanceKey;
    var s := Last(trace);
    var next := Step(s, resolve, e);
    var outer, inner := EffectiveKey(kind, id), InheritanceKey(kind, id);
    EntriesAfter(s, resolve, e, kind, id);
    if inner in s.cache {
      var v := s.cache[inner];
      SeenInLonger(trace, next, resolve, kind, id, v.value, v.since);
      RecentlySeen(trace, resolve, kind, id, v.value, v.since, s.now - INHERITANCE_TTL);
      SeenInLonger(trace, next, resolve, kind, id, v.value, s.now - INHERITANCE_TTL);
    }
    if outer in s.cache {
      SeenInLonger(trace, next, resolve, kind, id, s.cache[outer].value, s.cache[outer].since - INHERITANCE_TTL);
    }
    SeenNow(trace, resolve, kind, id);
    if resolve(s.store, kind, id).Some? {
      SeenInLonger(trace, next, resolve, kind, id, resolve(s.store, kind, id).value, s.now);
      SeenInLonger(trace, next, resolve, kind, id, resolve(s.store, kind, id).value, s.now - INHERITANCE_TTL);
    }
  }

  lemma {:induction false} RunIsAccounted<S, V>(
    first: State<S, V>, resolve: Resolution<S, V>, events: seq<Event<S>>, kind: Kind, id: string)
    requires first.cache == map[]
    ensures Accounted(Trace(first, resolve, events), resolve, kind, id)
  {
    if events == [] {
    } else {
      var last := |events| - 1;
      RunIsAccounted(first, resolve, events[..last], kind, id);
      StepKeepsAccounted(Trace(first, resolve, events[..last]), resolve, events[last], kind, id);
    }
  }

  /** In every run a read answers what resolution gave at some moment less than 20 minutes ago: 15
      minutes in its own cache after up to 5 in the cache of the resolution service. */
  lemma ReadIsRecent<S, V>(first: State<S, V>, resolve: Resolution<S, V>, events: seq<Event<S>>, kind: Kind, id: string)
    requires first.cache == map[]
    ensures var trace := Trace(first, resolve, events);
            var answer := GetEffectiveRules(Last(trace), resolve, kind, id).answer;
            var bound := Last(trace).now - 1200000;
            answer.Some? ==> SeenAfter(trace, resolve, kind, id, answer.value, bound)
  {
    hide Trace;
    hide EffectiveKey;
    hide InheritanceKey;
    var trace := Trace(first, resolve, events);
    RunIsAccounted(first, resolve, events, kind, id);
    SeenNow(trace, resolve, kind, id);
  }

  // ----- runs without interrupted reads

  predicate NoInterruptions<S>(events: seq<Event<S>>) {
    forall i :: 0 <= i < |events| ==> !events[i].Interrupted?
  }

  /** Both entries of a category and kind are set together, from a resolution at that time. */
  ghost predicate Coupled<S, V>(trace: seq<State<S, V>>, resolve: Resolution<S, V>, kind: Kind, id: string)
    requires trace != []
  {
    var s, outer, inner := Last(trace), EffectiveKey(kind, id), InheritanceKey(kind, id);
    && (inner in s.cache ==>
          && outer in s.cache && s.cache[outer].since == s.cache[inner].since
          && s.cache[inner].expires == s.cache[inner].since + INHERITANCE_TTL)
    && (outer in s.cache ==>
          var e := s.cache[outer];
          && e.since <= s.now && e.expires == e.since + EFFECTIVE_TTL
          && SeenAt(trace, resolve, kind, id, e.value, e.since))
  }

  lemma StepKeepsCoupled<S, V>(trace: seq<State<S, V>>, resolve: Resolution<S, V>, e: Event<S>, kind: Kind, id: string)
    requires trace != [] && Coupled(trace, resolve, kind, id) && !e.Interrupted?
    ensures Coupled(trace + [Step(Last(trace), resolve, e)], resolve, kind, id)
  {
    hide Step;
    hide SeenAt;
    hide SeenAfter;
    hide EffectiveKey;
    hide InheritanceKey;
    var s := Last(trace);
    var next := Step(s, resolve, e);
    var outer := EffectiveKey(kind, id);
    EntriesAfter(s, resolve, e, kind, id);
    if outer in s.cache {
      SeenInLonger(trace, next, resolve, kind, id, s.cache[outer].value, s.cache[outer].since);
    }
    SeenNow(trace, resolve, kind, id);
    if resolve(s.store, kind, id).Some? {
      SeenInLonger(trace, next, resolve, kind, id, resolve(s.store, kind, id).value, s.now);
    }
  }

  lemma {:induction false} RunIsCoupled<S, V>(
    first: State<S, V>, resolve: Resolution<S, V>, events: seq<Event<S>>, kind: Kind, id: string)
    requires first.cache == map[] && NoInterruptions(events)
    ensures Coupled(Trace(first, resolve, events), resolve, kind, id)
  {
    if events == [] {
    } else {
      var last := |events| - 1;
      RunIsCoupled(first, resolve, events[..last], kind, id);
      StepKeepsCoupled(Trace(first, resolve, events[..last]), resolve, events[last], kind, id);
    }
  }

  /** In a run of complete reads, updates and clock ticks a read answers what resolution gave at some
      moment less than 15 minutes ago: the inner cache has always expired with the outer one. */
  lemma ReadIsFresh<S, V>(
    first: State<S, V>, resolve: Resolution<S, V>, events: seq<Event<S>>, kind: Kind, id: string)
    requires first.cache == map[] && NoInterruptions(events)
    ensures var trace := Trace(first, resolve, events);
            var answer := GetEffectiveRules(Last(trace), resolve, kind, id).answer;
            answer.Some? ==> SeenAfter(trace, resolve, kind, id, answer.value, Last(trace).now - 900000)
  {
    hide Trace;
    hide EffectiveKey;
    hide InheritanceKey;
    hide SeenAt;
    hide SeenAfter;
    var trace := Trace(first, resolve, events);
    var s, outer := Last(trace), EffectiveKey(kind, id);
    RunIsCoupled(first, resolve, events, kind, id);
    SeenNow(trace, resolve, kind, id);
    if outer in s.cache {
      RecentlySeen(trace, resolve, kind, id, s.cache[outer].value, s.cache[outer].since, s.now - EFFECTIVE_TTL);
    }
  }

  // ----- when a cached answer stays fresh

  /** A read after the run answers what resolution gave less than 15 minutes before, if at all. */
  ghost predicate AnswersFresh<S, V>(
    first: State<S, V>, resolve: Resolution<S, V>, events: seq<Event<S>>, kind: Kind, id: string)
  {
    var trace := Trace(first, resolve, events);
    var answer := GetEffectiveRules(Last(trace), resolve, kind, id).answer;
    answer.Some? ==> SeenAfter(trace, resolve, kind, id, answer.value, Last(trace).now - 900000)
  }

  lemma TraceStep<S, V>(first: State<S, V>, resolve: Resolution<S, V>, events: seq<Event<S>>, e: Event<S>)
    ensures Trace(first, resolve, events + [e])
            == Trace(first, resolve, events) + [Step(Last(Trace(first, resolve, events)), resolve, e)]
  {
    assert (events + [e])[..|events|] == events;
  }

  lemma TraceOfTick<S, V>(first: State<S, V>, resolve: Resolution<S, V>, events: seq<Event<S>>, ms: nat)
    ensures var trace := Trace(first, resolve, events);
            var next := Last(trace).(now := Last(trace).now + ms);
            Trace(first, resolve, events + [Tick(ms)]) == trace + [next]
  {
    TraceStep(first, resolve, events, Tick(ms));
  }

  /** Time alone shows no new resolution that was not there before it passed. */
  lemma SeenBeforeTick<S, V>(
    trace: seq<State<S, V>>, ms: nat, resolve: Resolution<S, V>, kind: Kind, id: string, value: V, bound: int)
    requires trace != [] && bound < Last(trace).now
    ensures var next := Last(trace).(now := Last(trace).now + ms);
            SeenAfter(trace + [next], resolve, kind, id, value, bound)
            ==> SeenAfter(trace, resolve, kind, id, value, bound)
  {
    var longer := trace + [Last(trace).(now := Last(trace).now + ms)];
    if i :| 0 <= i < |longer| && longer[i].now > bound && resolve(longer[i].store, kind, id) == Some(value) {
      var j := if i < |trace| then i else |trace| - 1;
      assert trace[j].now > bound && resolve(trace[j].store, kind, id) == Some(value);
    }
  }

  lemma SeenWithLowerBound<S, V>(
    trace: seq<State<S, V>>, resolve: Resolution<S, V>, kind: Kind, id: string, value: V, bound: int, lower: int)
    requires SeenAfter(trace, resolve, kind, id, value, bound) && lower <= bound
    ensures SeenAfter(trace, resolve, kind, id, value, lower)
  {
    var i :| 0 <= i < |trace| && trace[i].now > bound && resolve(trace[i].store, kind, id) == Some(value);
    assert trace[i].now > lower;
  }

  /** While it lives, the entry answers; once it has expired, any answer is fresh, for it is at most
      as old as an entry of the resolution service lives. */
  lemma FreshAfterTick<S, V>(
    first: State<S, V>, resolve: Resolution<S, V>, events: seq<Event<S>>, kind: Kind, id: string, ms: nat)
    requires first.cache == map[]
    requires var trace := Trace(first, resolve, events);
             var cache, outer := Last(trace).cache, EffectiveKey(kind, id);
             outer in cache && SeenAfter(trace, resolve, kind, id, cache[outer].value, cache[outer].since - 1)
    ensures AnswersFresh(first, resolve, events + [Tick(ms)], kind, id)
  {
    hide Trace;
    hide EffectiveKey;
    hide InheritanceKey;
    hide SeenAt;
    hide SeenAfter;
    var trace := Trace(first, resolve, events);
    var s, outer, inner := Last(trace), EffectiveKey(kind, id), InheritanceKey(kind, id);
    var next := s.(now := s.now + ms);
    var longer := trace + [next];
    TraceOfTick(first, resolve, events, ms);
    RunIsAccounted(first, resolve, events, kind, id);
    SeenNow(longer, resolve, kind, id);
    var e := s.cache[outer];
    SeenInLonger(trace, next, resolve, kind, id, e.value, e.since - 1);
    if next.now < e.expires {
      SeenWithLowerBound(longer, resolve, kind, id, e.value, e.since - 1, next.now - EFFECTIVE_TTL);
    } else if inner in s.cache {
      var v := s.cache[inner];
      SeenInLonger(trace, next, resolve, kind, id, v.value, v.since);
      RecentlySeen(longer, resolve, kind, id, v.value, v.since, next.now - EFFECTIVE_TTL);
    }
  }

  lemma SeenSinceSet<S, V>(
    first: State<S, V>, resolve: Resolution<S, V>, events: seq<Event<S>>, kind: Kind, id: string, ms: nat)
    requires first.cache == map[]
    requires var s, outer := Last(Trace(first, resolve, events)), EffectiveKey(kind, id);
             outer in s.cache && s.now + ms == s.cache[outer].expires - 1
    requires AnswersFresh(first, resolve, events + [Tick(ms)], kind, id)
    ensures var trace, outer := Trace(first, resolve, events), EffectiveKey(kind, id);
            var e := Last(trace).cache[outer];
            SeenAfter(trace, resolve, kind, id, e.value, e.since - 1)
  {
    hide Trace;
    hide EffectiveKey;
    hide InheritanceKey;
    hide SeenAt;
    hide SeenAfter;
    var trace := Trace(first, resolve, events);
    var e := Last(trace).cache[EffectiveKey(kind, id)];
    TraceOfTick(first, resolve, events, ms);
    RunIsAccounted(first, resolve, events, kind, id);
    SeenBeforeTick(trace, ms, resolve, kind, id, e.value, e.since - 1);
  }

  /** After any run, interrupted reads included: a cached answer and what follows it stay less than
      15 minutes old, however long one waits, if and only if its value is what resolution gave when
      it was cached or has given since. */
  lemma CachedAnswerStaysFreshExactly<S, V>(
    first: State<S, V>, resolve: Resolution<S, V>, events: seq<Event<S>>, kind: Kind, id: string)
    requires first.cache == map[]
    requires var s, outer := Last(Trace(first, resolve, events)), EffectiveKey(kind, id);
             outer in s.cache && s.now < s.cache[outer].expires
    ensures var trace, outer := Trace(first, resolve, events), EffectiveKey(kind, id);
            var e := Last(trace).cache[outer];
            (forall ms: nat :: AnswersFresh(first, resolve, events + [Tick(ms)], kind, id))
            <==> SeenAfter(trace, resolve, kind, id, e.value, e.since - 1)
  {
    hide Trace;
    hide EffectiveKey;
    hide AnswersFresh;
    hide SeenAfter;
    var trace := Trace(first, resolve, events);
    var s := Last(trace);
    var e := s.cache[EffectiveKey(kind, id)];
    if SeenAfter(trace, resolve, kind, id, e.value, e.since - 1) {
      forall ms: nat
        ensures AnswersFresh(first, resolve, events + [Tick(ms)], kind, id)
      {
        FreshAfterTick(first, resolve, events, kind, id, ms);
      }
    }
    if forall ms: nat :: AnswersFresh(first, resolve, events + [Tick(ms)], kind, id) {
      var ms: nat := e.expires - 1 - s.now;
      SeenSinceSet(first, resolve, events, kind, id, ms);
    }
  }

  // ----- what an interrupted read can do

  lemma TraceOfNothing<S, V>(first: State<S, V>, resolve: Resolution<S, V>)
    ensures Trace(first, resolve, []) == [first]
  {}

  lemma FiveSteps<S, V>(
    first: State<S, V>, resolve: Resolution<S, V>, a: Event<S>, b: Event<S>, c: Event<S>, d: Event<S>, e: Event<S>)
    ensures var s1 := Step(first, resolve, a);
            var s2 := Step(s1, resolve, b);
            var s3 := Step(s2, resolve, c);
            var s4 := Step(s3, resolve, d);
            Trace(first, resolve, [a, b, c, d, e]) == [first, s1, s2, s3, s4, Step(s4, resolve, e)]
  {
    hide Step;
    hide Trace;
    TraceOfNothing(first, resolve);
    TraceStep(first, resolve, [], a);
    TraceStep(first, resolve, [a], b);
    TraceStep(first, resolve, [a, b], c);
    TraceStep(first, resolve, [a, b, c], d);
    TraceStep(first, resolve, [a, b, c, d], e);
    assert [] + [a] == [a] && [a] + [b] == [a, b] && [a, b] + [c] == [a, b, c] && [a, b, c] + [d] == [a, b, c, d]
           && [a, b, c, d] + [e] == [a, b, c, d, e];
  }

  /** An interrupted read, an update of the rules, a read just before the entry the first one left
      expires and another just before its own entry does: the answer is the old rules, which the
      store has not held for 1199998 ms. */
  lemma InterruptedReadIsStale<S, V>(resolve: Resolution<S, V>, kind: Kind, id: string, before: S, after: S)
    requires resolve(before, kind, id).Some? && resolve(after, kind, id).Some?
    requires resolve(before, kind, id) != resolve(after, kind, id)
    ensures var events := [Interrupted(kind, id), Write(kind, id, after), Tick(299999), Read(kind, id), Tick(899999)];
            var trace := Trace(State(0, before, map[]), resolve, events);
            var answer := GetEffectiveRules(Last(trace), resolve, kind, id).answer;
            && Last(trace).now == 1199998
            && answer == resolve(before, kind, id)
            && !SeenAfter(trace, resolve, kind, id, answer.value, 0)
  {
    hide EffectiveKey;
    hide InheritanceKey;
    hide DeletedKeys;
    hide Trace;
    var first: State<S, V> := State(0, before, map[]);
    var outer, inner, value := EffectiveKey(kind, id), InheritanceKey(kind, id), resolve(before, kind, id).value;
    KeysNeverMeet(kind, id, kind, id);
    DeletedKeysAreNeverRead(kind, id, kind, id);
    var interrupted, write: Event<S>, wait: Event<S> := Interrupted(kind, id), Write(kind, id, after), Tick(299999);
    var read: Event<S>, waitAgain: Event<S> := Read(kind, id), Tick(899999);
    var s1 := Step(first, resolve, interrupted);
    var s2 := Step(s1, resolve, write);
    var s3 := Step(s2, resolve, wait);
    var s4 := Step(s3, resolve, read);
    var s5 := Step(s4, resolve, waitAgain);
    assert inner in s1.cache && s1.cache[inner] == Entry(value, 0, INHERITANCE_TTL) && outer !in s1.cache;
    assert inner in s2.cache && s2.cache[inner] == s1.cache[inner] && outer !in s2.cache;
    assert outer in s4.cache && s4.cache[outer] == Entry(value, 299999, 299999 + EFFECTIVE_TTL);
    FiveSteps(first, resolve, interrupted, write, wait, read, waitAgain);
  }
}
