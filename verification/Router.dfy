/** Payment routing: the priority order, candidate selection and failover
    (integrations/router/router.go). */
module Routing {
  import opened Results

  type Provider = string

  /** A snapshot of a provider's configuration. */
  datatype Config = Config(priority: int, enabled: bool, currencies: seq<string>, maxRetries: int)

  type Configs = map<Provider, Config>

  const STRIPE: Provider := "stripe"
  const PAYPAL: Provider := "paypal"

  // ---------------------------------------------------------------------
  // The priority order
  // ---------------------------------------------------------------------

  ghost predicate Distinct(s: seq<Provider>) {
    forall i, j :: 0 <= i < j < |s| ==> s[i] != s[j]
  }

  ghost predicate Sorted(s: seq<Provider>, configs: Configs) {
    (forall i :: 0 <= i < |s| ==> s[i] in configs) &&
    forall i, j :: 0 <= i < j < |s| ==> configs[s[i]].priority <= configs[s[j]].priority
  }

  /** Every enabled provider, once, by priority. */
  ghost predicate IsOrder(s: seq<Provider>, configs: Configs) {
    Distinct(s) && Sorted(s, configs) && forall p :: p in s <==> p in configs && configs[p].enabled
  }

  lemma {:induction false} DistinctCount(s: seq<Provider>)
    requires Distinct(s)
    ensures |set p | p in s| == |s|
  {
    if |s| > 0 {
      var init := s[..|s| - 1];
      DistinctCount(init);
      assert (set p | p in s) == (set p | p in init) + {s[|s| - 1]};
    }
  }

  lemma {:induction false} SetCount(s: seq<Provider>)
    ensures |set p | p in s| <= |s|
  {
    if |s| > 0 {
      var init := s[..|s| - 1];
      SetCount(init);
      assert (set p | p in s) == (set p | p in init) + {s[|s| - 1]};
    }
  }

  lemma SubsetCount(a: set<Provider>, b: set<Provider>)
    requires a <= b
    ensures |a| <= |b|
  {
    assert b == a + (b - a);
  }

  ghost function Swapped(s: seq<Provider>, k: nat): (t: seq<Provider>)
    requires 0 < k < |s|
    ensures multiset(t) == multiset(s)
  {
    s[0 := s[k]][k := s[0]]
  }

  /** The head has the best priority among the first k. */
  ghost predicate Leads(s: seq<Provider>, configs: Configs, k: nat) {
    (forall i :: 0 <= i < |s| ==> s[i] in configs) &&
    forall i :: 0 <= i < k && i < |s| ==> configs[s[0]].priority <= configs[s[i]].priority
  }

  lemma LeadsAlone(s: seq<Provider>, configs: Configs)
    requires forall i :: 0 <= i < |s| ==> s[i] in configs
    ensures Leads(s, configs, 1)
  {
  }

  lemma KnownMultiset(s: seq<Provider>, t: seq<Provider>)
    requires multiset(s) == multiset(t)
    ensures forall p :: p in s <==> p in t
  {
    assert forall p :: p in s <==> p in multiset(s);
    assert forall p :: p in t <==> p in multiset(t);
  }

  lemma LeadsOneMore(s: seq<Provider>, configs: Configs, k: nat)
    requires 0 < k < |s| && Leads(s, configs, k)
    ensures configs[s[k]].priority < configs[s[0]].priority ==> Leads(Swapped(s, k), configs, k + 1)
    ensures configs[s[k]].priority >= configs[s[0]].priority ==> Leads(s, configs, k + 1)
  {
  }

  /** The first k are in place. */
  ghost predicate SortedUpTo(s: seq<Provider>, configs: Configs, k: nat) {
    (forall i :: 0 <= i < |s| ==> s[i] in configs) &&
    forall i, j :: 0 <= i < k && i < j < |s| ==> configs[s[i]].priority <= configs[s[j]].priority
  }

  lemma SortedOneMore(done: seq<Provider>, rest: seq<Provider>, rest': seq<Provider>, configs: Configs)
    requires SortedUpTo(done + rest, configs, |done|) && multiset(rest) == multiset(rest')
    requires |rest'| > 0 && Leads(rest', configs, |rest'|)
    ensures SortedUpTo(done + rest', configs, |done| + 1)
  {
    var s, s' := done + rest, done + rest';
    assert forall i :: 0 <= i < |done| ==> s'[i] == s[i] == done[i];
    forall j | |done| <= j < |s'|
      ensures s'[j] in configs && forall i :: 0 <= i < |done| ==> configs[s'[i]].priority <= configs[s'[j]].priority
    {
      var p := rest'[j - |done|];
      assert p in multiset(rest') && p in rest;
      var k :| 0 <= k < |rest| && rest[k] == p;
      assert s[|done| + k] == p;
    }
    forall j | |done| < j < |s'| ensures configs[s'[|done|]].priority <= configs[s'[j]].priority {
      assert s'[j] == rest'[j - |done|];
    }
  }

  /** A permutation of a duplicate-free list is one. */
  lemma DistinctMultiset(s: seq<Provider>, t: seq<Provider>)
    requires Distinct(s) && multiset(s) == multiset(t)
    ensures Distinct(t) && forall p :: p in t <==> p in s
  {
    assert forall p :: p in s <==> p in multiset(s);
    assert forall p :: p in t <==> p in multiset(t);
    assert |s| == |multiset(s)| == |multiset(t)| == |t|;
    DistinctCount(s);
    assert (set p | p in t) == (set p | p in s);
    forall i, j | 0 <= i < j < |t| ensures t[i] != t[j] {
      if t[i] == t[j] {
        var front, back := t[..j], t[j + 1..];
        assert t == front + [t[j]] + back && front[i] == t[j];
        SetCount(front + back);
        SubsetCount(set p | p in t, set p | p in front + back);
      }
    }
  }

  /** Whatever order the map was walked in, position k holds a provider of the
      same priority: only ties can come out differently. */
  lemma OrderIsUniqueUpToTies(s: seq<Provider>, t: seq<Provider>, configs: Configs, k: nat)
    requires IsOrder(s, configs) && IsOrder(t, configs) && k < |s|
    ensures |s| == |t| && configs[s[k]].priority == configs[t[k]].priority
  {
    DistinctCount(s);
    DistinctCount(t);
    assert (set p | p in s) == (set p | p in t);
    NotAhead(s, t, configs, k);
    NotAhead(t, s, configs, k);
  }

  lemma NotAhead(s: seq<Provider>, t: seq<Provider>, configs: Configs, k: nat)
    requires IsOrder(s, configs) && IsOrder(t, configs) && k < |s| && k < |t|
    ensures configs[s[k]].priority >= configs[t[k]].priority
  {
    if configs[s[k]].priority < configs[t[k]].priority {
      var front, early := s[..k + 1], t[..k];
      forall p | p in front ensures p in early {
        assert p in s && p in t && configs[p].priority <= configs[s[k]].priority;
        var j :| 0 <= j < |t| && t[j] == p;
        assert t[j] == early[j];
      }
      DistinctCount(front);
      DistinctCount(early);
      SubsetCount(set p | p in front, set p | p in early);
      assert false;
    }
  }

  /** With distinct priorities the order is a function of the configuration. */
  lemma OrderIsUnique(s: seq<Provider>, t: seq<Provider>, configs: Configs)
    requires IsOrder(s, configs) && IsOrder(t, configs)
    requires forall p, q :: p in configs && q in configs && configs[p].priority == configs[q].priority ==> p == q
    ensures s == t
  {
    if |s| > 0 {
      OrderIsUniqueUpToTies(s, t, configs, 0);
    } else if |t| > 0 {
      OrderIsUniqueUpToTies(t, s, configs, 0);
    }
    forall k | 0 <= k < |s| ensures s[k] == t[k] {
      OrderIsUniqueUpToTies(s, t, configs, k);
    }
  }

  // ---------------------------------------------------------------------
  // Candidates for a request
  // ---------------------------------------------------------------------

  predicate Supports(c: Config, currency: string) {
    |c.currencies| == 0 || currency in c.currencies
  }

  predicate Eligible(configs: Configs, p: Provider, currency: string) {
    p in configs && configs[p].enabled && Supports(configs[p], currency)
  }

  /** The other supported providers, in the given order. */
  function Others(order: seq<Provider>, configs: Configs, preferred: Provider, currency: string): seq<Provider> {
    if |order| == 0 then []
    else
      var p := order[|order| - 1];
      Others(order[..|order| - 1], configs, preferred, currency) +
      if p != preferred && p in configs && Supports(configs[p], currency) then [p] else []
  }

  function Candidates(order: seq<Provider>, configs: Configs, preferred: Provider, currency: string): seq<Provider> {
    (if preferred != "" && Eligible(configs, preferred, currency) then [preferred] else []) +
    Others(order, configs, preferred, currency)
  }

  lemma OthersStep(order: seq<Provider>, i: nat, configs: Configs, preferred: Provider, currency: string)
    requires i < |order|
    ensures Others(order[..i + 1], configs, preferred, currency) ==
      Others(order[..i], configs, preferred, currency) +
      if order[i] != preferred && order[i] in configs && Supports(configs[order[i]], currency) then [order[i]] else []
  {
    assert order[..i + 1][..i] == order[..i];
  }

  lemma {:induction false} OthersMembers(
    order: seq<Provider>, configs: Configs, preferred: Provider, currency: string, p: Provider)
    ensures p in Others(order, configs, preferred, currency) <==>
      (p in order && p != preferred && p in configs && Supports(configs[p], currency))
  {
    if |order| > 0 {
      var init := order[..|order| - 1];
      OthersMembers(init, configs, preferred, currency, p);
      assert order == init + [order[|order| - 1]];
    }
  }

  /** Prefixes of an order lead up to its last element. */
  lemma LastIsLeast(s: seq<Provider>, configs: Configs, p: Provider)
    requires |s| > 0 && Distinct(s) && Sorted(s, configs) && p in s[..|s| - 1]
    ensures p != s[|s| - 1] && configs[p].priority <= configs[s[|s| - 1]].priority
  {
  }

  lemma {:induction false} OthersOrdered(order: seq<Provider>, configs: Configs, preferred: Provider, currency: string)
    requires Distinct(order) && Sorted(order, configs)
    ensures Distinct(Others(order, configs, preferred, currency))
    ensures Sorted(Others(order, configs, preferred, currency), configs)
  {
    if |order| > 0 {
      var init := order[..|order| - 1];
      OthersOrdered(init, configs, preferred, currency);
      var r := Others(init, configs, preferred, currency);
      forall k | 0 <= k < |r|
        ensures r[k] != order[|order| - 1] && configs[r[k]].priority <= configs[order[|order| - 1]].priority
      {
        OthersMembers(init, configs, preferred, currency, r[k]);
        LastIsLeast(order, configs, r[k]);
      }
    }
  }

  /** The candidates are exactly the enabled providers that support the
      currency, each once, an eligible preferred one first and the rest by
      priority. */
  lemma CandidatesExact(order: seq<Provider>, configs: Configs, preferred: Provider, currency: string)
    requires IsOrder(order, configs) && "" !in configs
    ensures var r := Candidates(order, configs, preferred, currency);
      Distinct(r) &&
      (forall p :: p in r <==> Eligible(configs, p, currency)) &&
      (Eligible(configs, preferred, currency) ==> |r| > 0 && r[0] == preferred && Sorted(r[1..], configs)) &&
      (!Eligible(configs, preferred, currency) ==> Sorted(r, configs))
  {
    hide Others, Supports;
    OthersOrdered(order, configs, preferred, currency);
    forall p ensures p in Others(order, configs, preferred, currency) <==>
        (p in order && p != preferred && p in configs && Supports(configs[p], currency)) {
      OthersMembers(order, configs, preferred, currency, p);
    }
    var r, rest := Candidates(order, configs, preferred, currency), Others(order, configs, preferred, currency);
    if Eligible(configs, preferred, currency) {
      assert r == [preferred] + rest && r[1..] == rest;
      assert forall j :: 1 <= j < |r| ==> r[j] == rest[j - 1] && r[j] in rest;
    } else {
      assert r == rest;
    }
  }

  // ---------------------------------------------------------------------
  // Client errors
  // ---------------------------------------------------------------------

  /** One byte of a Go string, with ASCII capitals lowered. */
  function LowerChar(c: char): char {
    if 'A' <= c <= 'Z' then c + 32 as char else c
  }

  function Lower(s: string): string {
    seq(|s|, i requires 0 <= i < |s| => LowerChar(s[i]))
  }

  ghost predicate MatchesAt(s: string, sub: string, i: int) {
    0 <= i <= |s| - |sub| && Lower(s)[i..i + |sub|] == Lower(sub)
  }

  /** Case-insensitive substring. */
  ghost predicate ContainsFold(s: string, sub: string) {
    exists i :: MatchesAt(s, sub, i)
  }

  /** Two bytes are the same letter up to case, and nothing else is identified. */
  lemma LowerCharExact(a: char, b: char)
    ensures LowerChar(a) == LowerChar(b) <==>
      a == b || ('A' <= a <= 'Z' && b as int == a as int + 32) || ('A' <= b <= 'Z' && a as int == b as int + 32)
  {
  }

  /** A string contains another up to case exactly when it falls into three parts
      of which the middle one is, byte for byte, the other up to case. */
  lemma ContainsFoldExact(s: string, sub: string)
    ensures ContainsFold(s, sub) <==>
      exists pre, mid, post ::
        s == pre + mid + post && |mid| == |sub| &&
        forall k :: 0 <= k < |sub| ==> LowerChar(mid[k]) == LowerChar(sub[k])
  {
    if i :| MatchesAt(s, sub, i) {
      var pre, mid, post := s[..i], s[i..i + |sub|], s[i + |sub|..];
      assert s == pre + mid + post;
      forall k | 0 <= k < |sub| ensures LowerChar(mid[k]) == LowerChar(sub[k]) {
        assert Lower(s)[i..i + |sub|][k] == Lower(s)[i + k] == LowerChar(s[i + k]) && mid[k] == s[i + k];
      }
    }
    if pre, mid, post :|
      s == pre + mid + post && |mid| == |sub| &&
      forall k :: 0 <= k < |sub| ==> LowerChar(mid[k]) == LowerChar(sub[k])
    {
      var n := |pre|;
      forall k | 0 <= k < |sub| ensures Lower(s)[n..n + |sub|][k] == Lower(sub)[k] {
        assert Lower(s)[n..n + |sub|][k] == Lower(s)[n + k] == LowerChar(s[n + k]) && s[n + k] == mid[k];
      }
      assert MatchesAt(s, sub, n);
    }
  }

  const CLIENT_ERRORS: seq<string> :=
    ["invalid", "unauthorized", "forbidden", "not found", "bad request", "validation", "insufficient funds"]

  ghost predicate ClientError(message: string) {
    exists k :: 0 <= k < |CLIENT_ERRORS| && ContainsFold(message, CLIENT_ERRORS[k])
  }

  method MatchLower(a: string, b: string) returns (equal: bool)
    ensures equal <==> Lower(a) == Lower(b)
  {
    if |a| != |b| {
      assert |Lower(a)| != |Lower(b)|;
      return false;
    }
    for i := 0 to |a|
      invariant forall k :: 0 <= k < i ==> Lower(a)[k] == Lower(b)[k]
    {
      var ca, cb := a[i], b[i];
      if 'A' <= ca <= 'Z' {
        ca := ca + 32 as char;
      }
      if 'A' <= cb <= 'Z' {
        cb := cb + 32 as char;
      }
      if ca != cb {
        assert Lower(a)[i] != Lower(b)[i];
        return false;
      }
    }
    return true;
  }

  method ContainsLower(s: string, sub: string) returns (found: bool)
    ensures found <==> ContainsFold(s, sub)
  {
    var i := 0;
    while i <= |s| - |sub|
      invariant 0 <= i
      invariant forall k :: 0 <= k < i ==> !MatchesAt(s, sub, k)
    {
      var equal := MatchLower(s[i..i + |sub|], sub);
      assert Lower(s[i..i + |sub|]) == Lower(s)[i..i + |sub|];
      if equal {
        assert MatchesAt(s, sub, i);
        return true;
      }
      i := i + 1;
    }
    return false;
  }

  /** The guards of `contains` change nothing, not even for empty strings. */
  method Contains(s: string, sub: string) returns (found: bool)
    ensures found <==> ContainsFold(s, sub)
  {
    if |s| < |sub| {
      return false;
    }
    if s == sub {
      assert Lower(s)[0..0 + |sub|] == Lower(sub) && MatchesAt(s, sub, 0);
      return true;
    }
    if |s| == 0 {
      return false;
    }
    found := ContainsLower(s, sub);
  }

  /** The patterns of common client errors, up to case. */
  ghost predicate Permanent(m: string) {
    ContainsFold(m, "invalid") || ContainsFold(m, "unauthorized") || ContainsFold(m, "forbidden") ||
    ContainsFold(m, "not found") || ContainsFold(m, "bad request") || ContainsFold(m, "validation") ||
    ContainsFold(m, "insufficient funds")
  }

  lemma ClientErrorExact(m: string)
    ensures ClientError(m) <==> Permanent(m)
  {
    hide ContainsFold;
    var p := CLIENT_ERRORS;
    assert p[0] == "invalid" && p[1] == "unauthorized" && p[2] == "forbidden" && p[3] == "not found";
    assert p[4] == "bad request" && p[5] == "validation" && p[6] == "insufficient funds" && |p| == 7;
  }

  method IsClientError(error: Option<string>) returns (client: bool)
    ensures client <==> error.Some? && ClientError(error.value)
    ensures client <==> error.Some? && Permanent(error.value)
  {
    hide Permanent;
    if error.Some? {
      ClientErrorExact(error.value);
    }
    if error.None? {
      return false;
    }
    for k := 0 to |CLIENT_ERRORS|
      invariant forall j :: 0 <= j < k ==> !ContainsFold(error.value, CLIENT_ERRORS[j])
    {
      var found := Contains(error.value, CLIENT_ERRORS[k]);
      if found {
        return true;
      }
    }
    return false;
  }

  // ---------------------------------------------------------------------
  // Failover
  // ---------------------------------------------------------------------

  datatype Outcome = Success(reference: string) | Failure(message: string)

  datatype Error = ProviderNotFound | NoProvidersAvailable | PaymentFailed(last: string)

  datatype Payment = Payment(provider: Provider, reference: string)

  datatype Attempt = Attempt(provider: Provider, outcome: Outcome)

  /** What each provider answers at the n-th attempt overall. */
  type Oracle = (Provider, nat) -> Outcome

  function Limit(c: Config): (limit: nat)
    ensures limit >= 1 && (c.maxRetries >= 1 ==> limit == c.maxRetries) && (c.maxRetries <= 1 ==> limit == 1)
  {
    if c.maxRetries <= 0 then 1 else c.maxRetries
  }

  /** No further attempt at this provider. */
  ghost predicate Stops(o: Outcome) {
    o.Success? || ClientError(o.message)
  }

  /** The attempts at one provider, the first being number n. */
  ghost function Session(oracle: Oracle, n: nat, p: Provider, left: nat): seq<Attempt>
    decreases left
  {
    if left == 0 then []
    else
      var o := oracle(p, n);
      [Attempt(p, o)] + if Stops(o) then [] else Session(oracle, n + 1, p, left - 1)
  }

  lemma SessionStep(before: seq<Attempt>, oracle: Oracle, p: Provider, left: nat)
    requires left > 0
    ensures var n, o := |before|, oracle(p, |before|);
      before + Session(oracle, n, p, left) ==
        if Stops(o) then before + [Attempt(p, o)]
        else (before + [Attempt(p, o)]) + Session(oracle, n + 1, p, left - 1)
  {
    hide Stops;
  }

  lemma SessionOver(before: seq<Attempt>, oracle: Oracle, p: Provider)
    ensures before + Session(oracle, |before|, p, 0) == before
  {
  }

  predicate Succeeded(t: seq<Attempt>) {
    |t| > 0 && t[|t| - 1].outcome.Success?
  }

  /** All attempts of one payment. */
  ghost function Failover(oracle: Oracle, n: nat, cs: seq<Provider>, configs: Configs): seq<Attempt>
    decreases |cs|
  {
    if |cs| == 0 then []
    else
      var t := Session(oracle, n, cs[0], if cs[0] in configs then Limit(configs[cs[0]]) else 1);
      if Succeeded(t) then t else t + Failover(oracle, n + |t|, cs[1..], configs)
  }

  /** The outcomes are the oracle's, counting attempts from n. */
  ghost predicate Answered(t: seq<Attempt>, oracle: Oracle, n: nat) {
    forall i :: 0 <= i < |t| ==> t[i].outcome == oracle(t[i].provider, n + i)
  }

  lemma AnsweredConcat(s: seq<Attempt>, rest: seq<Attempt>, oracle: Oracle, n: nat)
    requires Answered(s, oracle, n) && Answered(rest, oracle, n + |s|)
    ensures Answered(s + rest, oracle, n)
  {
  }

  lemma {:induction false} SessionShape(oracle: Oracle, n: nat, p: Provider, left: nat)
    requires left >= 1
    ensures var t := Session(oracle, n, p, left);
      1 <= |t| <= left && Answered(t, oracle, n) &&
      (forall i :: 0 <= i < |t| ==> t[i].provider == p) &&
      (forall i :: 0 <= i < |t| - 1 ==> !Stops(t[i].outcome)) &&
      (Stops(t[|t| - 1].outcome) || |t| == left)
    decreases left
  {
    hide Stops, Answered;
    var t, first := Session(oracle, n, p, left), Attempt(p, oracle(p, n));
    assert Answered([first], oracle, n) by { OneAnswer(oracle, n, p); }
    if left == 1 || Stops(first.outcome) {
      assert t == [first];
    } else {
      SessionShape(oracle, n + 1, p, left - 1);
      var rest := Session(oracle, n + 1, p, left - 1);
      assert t == [first] + rest;
      AnsweredConcat([first], rest, oracle, n);
    }
  }

  lemma OneAnswer(oracle: Oracle, n: nat, p: Provider)
    ensures Answered([Attempt(p, oracle(p, n))], oracle, n)
  {
  }

  function AttemptsAt(t: seq<Attempt>, p: Provider): nat {
    if |t| == 0 then 0 else (if t[0].provider == p then 1 else 0) + AttemptsAt(t[1..], p)
  }

  lemma {:induction false} AttemptsConcat(s: seq<Attempt>, t: seq<Attempt>, p: Provider)
    ensures AttemptsAt(s + t, p) == AttemptsAt(s, p) + AttemptsAt(t, p)
  {
    if |s| == 0 {
      assert s + t == t;
    } else {
      AttemptsConcat(s[1..], t, p);
      assert (s + t)[1..] == s[1..] + t;
    }
  }

  lemma {:induction false} AttemptsUniform(t: seq<Attempt>, q: Provider, p: Provider)
    requires forall i :: 0 <= i < |t| ==> t[i].provider == q
    ensures AttemptsAt(t, p) == if p == q then |t| else 0
  {
    if |t| > 0 {
      AttemptsUniform(t[1..], q, p);
    }
  }

  lemma {:induction false} AttemptsOfStranger(t: seq<Attempt>, p: Provider)
    requires forall i :: 0 <= i < |t| ==> t[i].provider != p
    ensures AttemptsAt(t, p) == 0
  {
    if |t| > 0 {
      AttemptsOfStranger(t[1..], p);
    }
  }

  /** A provider is done with only after a success, a client error or its last
      retry. */
  ghost predicate GivenUp(t: seq<Attempt>, p: Provider, configs: Configs)
    requires p in configs
  {
    AttemptsAt(t, p) == Limit(configs[p]) ||
    (exists i :: 0 <= i < |t| && t[i].provider == p && (t[i].outcome.Success? || Permanent(t[i].outcome.message)))
  }

  /** The session with the first candidate, and what follows if it fails. */
  lemma Unfold(
    oracle: Oracle, n: nat, cs: seq<Provider>, configs: Configs)
    returns (s: seq<Attempt>, rest: seq<Attempt>)
    requires |cs| > 0 && cs[0] in configs
    ensures s == Session(oracle, n, cs[0], Limit(configs[cs[0]])) && 1 <= |s| <= Limit(configs[cs[0]])
    ensures Answered(s, oracle, n) && forall i :: 0 <= i < |s| ==> s[i].provider == cs[0]
    ensures forall i :: 0 <= i < |s| - 1 ==> !Stops(s[i].outcome)
    ensures Stops(s[|s| - 1].outcome) || |s| == Limit(configs[cs[0]])
    ensures rest == if Succeeded(s) then [] else Failover(oracle, n + |s|, cs[1..], configs)
    ensures Failover(oracle, n, cs, configs) == s + rest
  {
    hide Stops, Answered, Limit;
    SessionShape(oracle, n, cs[0], Limit(configs[cs[0]]));
    s := Session(oracle, n, cs[0], Limit(configs[cs[0]]));
    rest := if Succeeded(s) then [] else Failover(oracle, n + |s|, cs[1..], configs);
  }

  /** An attempt at cs[a] is followed only by attempts at cs[a..]. */
  ghost predicate InOrder(t: seq<Attempt>, cs: seq<Provider>) {
    (forall i :: 0 <= i < |t| ==> t[i].provider in cs) &&
    forall i, j, a :: (0 <= i < j < |t| && 0 <= a < |cs| && t[i].provider == cs[a]) ==> t[j].provider in cs[a..]
  }

  lemma InOrderConcat(s: seq<Attempt>, rest: seq<Attempt>, cs: seq<Provider>)
    requires |cs| > 0 && Distinct(cs) && (forall i :: 0 <= i < |s| ==> s[i].provider == cs[0]) && InOrder(rest, cs[1..])
    ensures InOrder(s + rest, cs)
  {
  }

  /** Only candidates are tried, in candidate order. */
  lemma {:induction false} TriedInOrder(oracle: Oracle, n: nat, cs: seq<Provider>, configs: Configs)
    requires Distinct(cs) && forall p :: p in cs ==> p in configs
    ensures Answered(Failover(oracle, n, cs, configs), oracle, n)
    ensures InOrder(Failover(oracle, n, cs, configs), cs)
    decreases |cs|
  {
    hide Session, Stops, Failover, Limit, Answered, InOrder, Distinct;
    if |cs| == 0 {
      EmptyFailover(oracle, n, cs, configs);
      NoAttempts([], oracle, n, cs);
    } else {
      var s, rest := Unfold(oracle, n, cs, configs);
      if Succeeded(s) {
        NoAttempts(rest, oracle, n + |s|, cs[1..]);
      } else {
        DistinctTail(cs);
        TriedInOrder(oracle, n + |s|, cs[1..], configs);
      }
      AnsweredConcat(s, rest, oracle, n);
      InOrderConcat(s, rest, cs);
    }
  }

  lemma DistinctTail(s: seq<Provider>)
    requires Distinct(s) && |s| > 0
    ensures Distinct(s[1..])
  {
  }

  lemma NoAttempts(t: seq<Attempt>, oracle: Oracle, n: nat, cs: seq<Provider>)
    requires t == []
    ensures Answered(t, oracle, n) && InOrder(t, cs)
  {
  }

  lemma {:induction false} SameConfigs(oracle: Oracle, n: nat, cs: seq<Provider>, c: Configs, d: Configs)
    requires forall p :: p in cs ==> p in c && p in d && c[p] == d[p]
    ensures Failover(oracle, n, cs, c) == Failover(oracle, n, cs, d)
    decreases |cs|
  {
    hide Session, Limit, Failover, Stops, Answered;
    if |cs| == 0 {
      EmptyFailover(oracle, n, cs, c);
      EmptyFailover(oracle, n, cs, d);
    } else {
      var s, rest := Unfold(oracle, n, cs, c);
      var s', rest' := Unfold(oracle, n, cs, d);
      SameConfigs(oracle, n + |s|, cs[1..], c, d);
    }
  }

  lemma EmptyFailover(oracle: Oracle, n: nat, cs: seq<Provider>, configs: Configs)
    requires |cs| == 0
    ensures Failover(oracle, n, cs, configs) == []
  {
  }

  /** Nothing is attempted after the first success, and after a client error
      not the same provider. */
  ghost predicate StopsAreFinal(t: seq<Attempt>) {
    forall i :: 0 <= i < |t| - 1 ==>
      t[i].outcome.Failure? && (Permanent(t[i].outcome.message) ==> t[i + 1].provider != t[i].provider)
  }

  lemma {:induction false} SuccessIsLast(oracle: Oracle, n: nat, cs: seq<Provider>, configs: Configs)
    requires Distinct(cs) && forall p :: p in cs ==> p in configs
    ensures StopsAreFinal(Failover(oracle, n, cs, configs))
    decreases |cs|
  {
    hide Session, Stops, Failover, Limit, Answered, InOrder, Distinct;
    if |cs| == 0 {
      EmptyFailover(oracle, n, cs, configs);
    } else {
      var s, rest := Unfold(oracle, n, cs, configs);
      DistinctTail(cs);
      if Succeeded(s) {
        assert s + rest == s;
        SessionIsFinal(s);
      } else {
        SuccessIsLast(oracle, n + |s|, cs[1..], configs);
        TriedInOrder(oracle, n + |s|, cs[1..], configs);
        FirstIsLater(rest, cs);
        FinalConcat(s, rest);
      }
    }
  }

  lemma FirstIsLater(rest: seq<Attempt>, cs: seq<Provider>)
    requires |cs| > 0 && Distinct(cs) && InOrder(rest, cs[1..])
    ensures |rest| > 0 ==> rest[0].provider != cs[0]
  {
  }

  lemma SessionIsFinal(s: seq<Attempt>)
    requires forall i :: 0 <= i < |s| - 1 ==> !Stops(s[i].outcome)
    ensures StopsAreFinal(s)
  {
    StopsExact();
    hide Stops, Permanent;
  }

  lemma FinalConcat(s: seq<Attempt>, rest: seq<Attempt>)
    requires |s| > 0 && !Succeeded(s) && (forall i :: 0 <= i < |s| - 1 ==> !Stops(s[i].outcome))
    requires StopsAreFinal(rest) && (|rest| > 0 ==> rest[0].provider != s[|s| - 1].provider)
    ensures StopsAreFinal(s + rest)
  {
    StopsExact();
    hide Stops, Permanent;
  }

  lemma StopsExact()
    ensures forall o :: Stops(o) <==> o.Success? || Permanent(o.message)
  {
    forall o ensures Stops(o) <==> o.Success? || Permanent(o.message) {
      if o.Failure? {
        ClientErrorExact(o.message);
      }
    }
  }

  /** Each candidate gets at most max(1, MaxRetries) attempts; it is given up
      only for a client error or when these are spent, unless an earlier
      candidate has already succeeded. */
  lemma {:induction false} GivenUpInTurn(oracle: Oracle, n: nat, cs: seq<Provider>, configs: Configs, a: nat)
    requires Distinct(cs) && (forall p :: p in cs ==> p in configs) && a < |cs|
    ensures var t := Failover(oracle, n, cs, configs);
      AttemptsAt(t, cs[a]) <= Limit(configs[cs[a]]) &&
      (GivenUp(t, cs[a], configs) ||
       (AttemptsAt(t, cs[a]) == 0 && Succeeded(t) && t[|t| - 1].provider in cs[..a]))
    decreases |cs|
  {
    hide Session, Stops, Failover, Limit, AttemptsAt, GivenUp;
    var s, rest := Unfold(oracle, n, cs, configs);
    var t, later := Failover(oracle, n, cs, configs), cs[1..];
    AttemptsConcat(s, rest, cs[a]);
    AttemptsUniform(s, cs[0], cs[a]);
    if a == 0 {
      if !Succeeded(s) {
        TriedInOrder(oracle, n + |s|, later, configs);
      }
      AttemptsOfStranger(rest, cs[0]);
      SessionGivesUp(s, rest, cs[0], configs);
    } else if Succeeded(s) {
      AttemptsOfStranger(rest, cs[a]);
      assert t[|t| - 1].provider == cs[..a][0];
    } else {
      GivenUpInTurn(oracle, n + |s|, later, configs, a - 1);
      assert later[a - 1] == cs[a] && later[..a - 1] == cs[1..a];
      if GivenUp(rest, cs[a], configs) {
        GivenUpLater(s, rest, cs[a], configs);
      } else {
        assert t[|t| - 1] == rest[|rest| - 1];
      }
    }
  }

  lemma SessionGivesUp(s: seq<Attempt>, rest: seq<Attempt>, p: Provider, configs: Configs)
    requires p in configs && |s| > 0 && s[|s| - 1].provider == p
    requires Stops(s[|s| - 1].outcome) || AttemptsAt(s + rest, p) == Limit(configs[p])
    ensures GivenUp(s + rest, p, configs)
  {
    StopsExact();
    hide Stops, AttemptsAt, Limit, Permanent;
    assert (s + rest)[|s| - 1] == s[|s| - 1];
  }

  lemma GivenUpLater(s: seq<Attempt>, rest: seq<Attempt>, p: Provider, configs: Configs)
    requires p in configs && GivenUp(rest, p, configs) && AttemptsAt(s + rest, p) == AttemptsAt(rest, p)
    ensures GivenUp(s + rest, p, configs)
  {
    hide AttemptsAt, Limit, Permanent;
    if i :|
      0 <= i < |rest| && rest[i].provider == p && (rest[i].outcome.Success? || Permanent(rest[i].outcome.message))
    {
      assert (s + rest)[|s| + i] == rest[i];
    }
  }

  /** A payment fails only when every candidate has been given up, and it
      succeeds exactly when some attempt did. */
  lemma FailsOnlyIfAllGaveUp(oracle: Oracle, n: nat, cs: seq<Provider>, configs: Configs)
    requires Distinct(cs) && forall p :: p in cs ==> p in configs
    ensures var t := Failover(oracle, n, cs, configs);
      (Succeeded(t) <==> exists i :: 0 <= i < |t| && t[i].outcome.Success?) &&
      (!Succeeded(t) ==> forall p :: p in cs ==> GivenUp(t, p, configs))
  {
    hide Failover, GivenUp, Distinct, Limit, AttemptsAt;
    SuccessIsLast(oracle, n, cs, configs);
    forall p | p in cs && !Succeeded(Failover(oracle, n, cs, configs))
      ensures GivenUp(Failover(oracle, n, cs, configs), p, configs)
    {
      var a :| 0 <= a < |cs| && cs[a] == p;
      GivenUpInTurn(oracle, n, cs, configs, a);
    }
  }

  // ---------------------------------------------------------------------
  // What follows each attempt
  // ---------------------------------------------------------------------

  /** One provider's attempts: the first success or client error ends them, and
      otherwise the last of max(1, maxRetries) tries. */
  ghost predicate AtOneProvider(t: seq<Attempt>, p: Provider, maxRetries: int) {
    |t| > 0 && (forall i :: 0 <= i < |t| ==> t[i].provider == p) &&
    (forall i :: 0 <= i < |t| - 1 ==> t[i].outcome.Failure? && !Permanent(t[i].outcome.message)) &&
    (|t| == 1 || |t| <= maxRetries) &&
    (t[|t| - 1].outcome.Success? || Permanent(t[|t| - 1].outcome.message) || |t| >= maxRetries)
  }

  lemma SessionAtOneProvider(oracle: Oracle, n: nat, p: Provider, c: Config)
    ensures AtOneProvider(Session(oracle, n, p, Limit(c)), p, c.maxRetries)
  {
    hide ClientError, Permanent, Answered;
    SessionShape(oracle, n, p, Limit(c));
    var t := Session(oracle, n, p, Limit(c));
    forall i | 0 <= i < |t| && t[i].outcome.Failure?
      ensures ClientError(t[i].outcome.message) <==> Permanent(t[i].outcome.message)
    {
      ClientErrorExact(t[i].outcome.message);
    }
  }

  /** What comes after attempt i: nothing after a success; the same provider after
      a failure that may pass, while it has tries left; and after any other
      failure the next candidate, or nothing when there is none. */
  ghost predicate Continues(t: seq<Attempt>, i: nat, cs: seq<Provider>, configs: Configs)
    requires i < |t| && t[i].provider in configs
  {
    var p := t[i].provider;
    match t[i].outcome
    case Success(_) => i == |t| - 1
    case Failure(message) =>
      if !Permanent(message) && AttemptsAt(t[..i + 1], p) < configs[p].maxRetries then
        i + 1 < |t| && t[i + 1].provider == p
      else
        forall a :: 0 <= a < |cs| && cs[a] == p ==> MovesOn(t, i, cs, a)
  }

  /** After attempt i comes the candidate after number a, or nothing. */
  predicate MovesOn(t: seq<Attempt>, i: nat, cs: seq<Provider>, a: nat)
    requires i < |t|
  {
    if a + 1 < |cs| then i + 1 < |t| && t[i + 1].provider == cs[a + 1] else i == |t| - 1
  }

  /** A record of attempts as the candidates, their retry limits and the answers
      demand it, from the first candidate on. */
  ghost predicate Lawful(t: seq<Attempt>, oracle: Oracle, n: nat, cs: seq<Provider>, configs: Configs) {
    Answered(t, oracle, n) &&
    (|t| == 0 <==> |cs| == 0) &&
    (|t| > 0 ==> t[0].provider == cs[0]) &&
    forall i: nat :: i < |t| ==> t[i].provider in cs && t[i].provider in configs && Continues(t, i, cs, configs)
  }

  lemma StartsContinue(s: seq<Attempt>, rest: seq<Attempt>, i: nat, cs: seq<Provider>, configs: Configs)
    requires |cs| > 0 && cs[0] in configs && Distinct(cs) && i < |s|
    requires forall k :: 0 <= k < |s| ==> s[k].provider == cs[0]
    requires forall k :: 0 <= k < |s| - 1 ==> !Stops(s[k].outcome)
    requires |s| <= Limit(configs[cs[0]]) && (Stops(s[|s| - 1].outcome) || |s| == Limit(configs[cs[0]]))
    requires if Succeeded(s) then rest == [] else (|cs| > 1 <==> |rest| > 0)
    requires |rest| > 0 ==> |cs| > 1 && rest[0].provider == cs[1]
    ensures Continues(s + rest, i, cs, configs)
  {
    hide ClientError, AttemptsAt, Permanent;
    var t := s + rest;
    assert t[i] == s[i] && t[..i + 1] == s[..i + 1];
    AttemptsUniform(s[..i + 1], cs[0], cs[0]);
    if s[i].outcome.Failure? {
      ClientErrorExact(s[i].outcome.message);
    }
    if i + 1 < |s| {
      assert t[i + 1] == s[i + 1];
    } else if |rest| > 0 {
      assert t[i + 1] == rest[0];
    }
    assert forall a :: 0 <= a < |cs| && cs[a] == cs[0] ==> a == 0;
  }

  lemma RestContinues(s: seq<Attempt>, rest: seq<Attempt>, j: nat, cs: seq<Provider>, configs: Configs)
    requires |cs| > 0 && Distinct(cs) && j < |rest| && rest[j].provider in cs[1..] && rest[j].provider in configs
    requires forall k :: 0 <= k < |s| ==> s[k].provider == cs[0]
    requires Continues(rest, j, cs[1..], configs)
    ensures Continues(s + rest, |s| + j, cs, configs)
  {
    hide AttemptsAt, Permanent;
    var t, p := s + rest, rest[j].provider;
    assert t[|s| + j] == rest[j] && t[..|s| + j + 1] == s + rest[..j + 1];
    AttemptsConcat(s, rest[..j + 1], p);
    assert p != cs[0] by { LaterDiffers(cs, p); }
    AttemptsUniform(s, cs[0], p);
    if j + 1 < |rest| {
      assert t[|s| + j + 1] == rest[j + 1];
    }
    var b :| 0 <= b < |cs[1..]| && cs[1..][b] == p;
    assert cs[b + 1] == p && forall a :: 0 <= a < |cs| && cs[a] == p ==> a == b + 1;
    assert b + 2 < |cs| ==> cs[1..][b + 1] == cs[b + 2];
    if rest[j].outcome.Failure? &&
      (Permanent(rest[j].outcome.message) || AttemptsAt(rest[..j + 1], p) >= configs[p].maxRetries)
    {
      assert MovesOn(rest, j, cs[1..], b) && MovesOn(t, |s| + j, cs, b + 1);
    }
  }

  lemma LaterDiffers(cs: seq<Provider>, p: Provider)
    requires Distinct(cs) && |cs| > 0 && p in cs[1..]
    ensures p != cs[0]
  {
  }

  lemma OnlyCandidates(t: seq<Attempt>, cs: seq<Provider>)
    requires InOrder(t, cs)
    ensures forall i :: 0 <= i < |t| ==> t[i].provider in cs
  {
  }

  /** Every payment's attempts are lawful. */
  lemma {:induction false} FailoverIsLawful(oracle: Oracle, n: nat, cs: seq<Provider>, configs: Configs)
    requires Distinct(cs) && forall p :: p in cs ==> p in configs
    ensures Lawful(Failover(oracle, n, cs, configs), oracle, n, cs, configs)
    decreases |cs|
  {
    hide Session, Stops, Failover, Limit, Answered, Distinct, Continues, InOrder;
    TriedInOrder(oracle, n, cs, configs);
    OnlyCandidates(Failover(oracle, n, cs, configs), cs);
    if |cs| == 0 {
      EmptyFailover(oracle, n, cs, configs);
    } else {
      var s, rest := Unfold(oracle, n, cs, configs);
      var t := Failover(oracle, n, cs, configs);
      DistinctTail(cs);
      FailoverIsLawful(oracle, n + |s|, cs[1..], configs);
      forall i: nat | i < |t| ensures t[i].provider in cs && t[i].provider in configs && Continues(t, i, cs, configs) {
        if i < |s| {
          StartsContinue(s, rest, i, cs, configs);
        } else {
          assert rest[i - |s|].provider in cs[1..];
          RestContinues(s, rest, i - |s|, cs, configs);
        }
      }
    }
  }

  /** And there is no other lawful record, so the law says all there is to say
      about which provider is tried, how often, and when. */
  lemma {:induction false} LawDeterminesAttempts(
    t: seq<Attempt>, u: seq<Attempt>, oracle: Oracle, n: nat, cs: seq<Provider>, configs: Configs, k: nat)
    requires Lawful(t, oracle, n, cs, configs) && Lawful(u, oracle, n, cs, configs)
    requires k <= |t|
    ensures k <= |u| && t[..k] == u[..k]
    ensures k == |t| ==> t == u
    decreases k
  {
    hide Lawful;
    if k > 0 {
      LawDeterminesAttempts(t, u, oracle, n, cs, configs, k - 1);
      SameNext(t, u, oracle, n, cs, configs, k - 1);
      assert t[..k] == t[..k - 1] + [t[k - 1]] && u[..k] == u[..k - 1] + [u[k - 1]];
    }
    if k == |t| {
      if |u| > |t| {
        SameNext(u, t, oracle, n, cs, configs, k);
      }
      assert t == t[..k] && u == u[..k];
    }
  }

  /** The next attempt, if any, is fixed by those before it. */
  lemma SameNext(
    t: seq<Attempt>, u: seq<Attempt>, oracle: Oracle, n: nat, cs: seq<Provider>, configs: Configs, k: nat)
    requires Lawful(t, oracle, n, cs, configs) && Lawful(u, oracle, n, cs, configs)
    requires k < |t| && k <= |u| && t[..k] == u[..k]
    ensures k < |u| && t[k] == u[k]
  {
    hide AttemptsAt, Permanent;
    if k > 0 {
      var i := k - 1;
      assert t[i] == t[..k][i] && u[i] == u[..k][i] && t[..i + 1] == t[..k] && u[..i + 1] == u[..k];
      assert Continues(t, i, cs, configs) && Continues(u, i, cs, configs);
      var a :| 0 <= a < |cs| && cs[a] == t[i].provider;
      if t[i].outcome.Failure? &&
        (Permanent(t[i].outcome.message) || AttemptsAt(t[..k], cs[a]) >= configs[cs[a]].maxRetries)
      {
        assert MovesOn(t, i, cs, a) && MovesOn(u, i, cs, a);
      }
    }
  }

  /** What the caller gets for a record of attempts. */
  ghost function Verdict(t: seq<Attempt>): Result<Payment, Error> {
    if |t| == 0 then Err(NoProvidersAvailable)
    else
      match t[|t| - 1].outcome
      case Success(reference) => Ok(Payment(t[|t| - 1].provider, reference))
      case Failure(message) => Err(PaymentFailed(message))
  }

  // ---------------------------------------------------------------------
  // The router
  // ---------------------------------------------------------------------

  class ProviderConfig {
    var provider: Provider
    var priority: int
    var enabled: bool
    var currencies: seq<string>
    var maxRetries: int

    constructor (priority: int, enabled: bool, currencies: seq<string>, maxRetries: int)
      ensures Value() == Config(priority, enabled, currencies, maxRetries)
    {
      provider, this.priority, this.enabled := "", priority, enabled;
      this.currencies, this.maxRetries := currencies, maxRetries;
    }

    function Value(): Config
      reads this
    {
      Config(priority, enabled, currencies, maxRetries)
    }
  }

  /** The providers' side: it answers as the oracle says and keeps the record
      of all attempts. */
  class Gateway {
    const oracle: Oracle
    var attempts: seq<Attempt>

    constructor (oracle: Oracle)
      ensures this.oracle == oracle && attempts == []
    {
      this.oracle, attempts := oracle, [];
    }

    method ExecutePayment(p: Provider) returns (o: Outcome)
      modifies this
      ensures o == oracle(p, |old(attempts)|) && attempts == old(attempts) + [Attempt(p, o)]
    {
      o := oracle(p, |attempts|);
      attempts := attempts + [Attempt(p, o)];
    }
  }

  class Router {
    const gateway: Gateway
    var providers: map<Provider, ProviderConfig>
    var order: array<Provider>

    ghost function Configs(): Configs
      reads this`providers, providers.Values
    {
      map p | p in providers :: providers[p].Value()
    }

    ghost predicate Valid()
      reads this, order, providers.Values
    {
      "" !in providers && IsOrder(order[..], Configs())
    }

    constructor (gateway: Gateway)
      ensures Valid() && this.gateway == gateway && providers == map[]
    {
      this.gateway, providers, order := gateway, map[], new Provider[0];
    }

    ghost predicate Known()
      reads this`providers, this`order, order
    {
      forall k :: 0 <= k < order.Length ==> order[k] in providers
    }

    method Exchange(i: nat, j: nat)
      requires i < j < order.Length
      modifies order
      ensures order[..i] == old(order[..i]) && order[i..] == Swapped(old(order[i..]), j - i)
    {
      ghost var rest := order[i..];
      order[i], order[j] := order[j], order[i];
      assert order[i..] == Swapped(rest, j - i);
    }

    /** The inner loop of the exchange sort: the best of the rest moves to
        position i. */
    method PullForward(i: nat)
      requires Known() && i < order.Length
      modifies order
      ensures Known() && order[..i] == old(order[..i]) && multiset(order[i..]) == multiset(old(order[i..]))
      ensures Leads(order[i..], Configs(), order.Length - i)
    {
      hide Leads, Swapped;
      ghost var configs := Configs();
      LeadsAlone(order[i..], configs);
      for j := i + 1 to order.Length
        invariant Known() && order[..i] == old(order[..i]) && multiset(order[i..]) == multiset(old(order[i..]))
        invariant Leads(order[i..], configs, j - i)
      {
        ghost var rest := order[i..];
        LeadsOneMore(rest, configs, j - i);
        KnownMultiset(rest, Swapped(rest, j - i));
        assert rest[0] == order[i] && rest[j - i] == order[j];
        if providers[order[j]].priority < providers[order[i]].priority {
          Exchange(i, j);
        }
      }
    }

    /** The exchange sort, in place. */
    method SortByPriority()
      requires Known()
      modifies order
      ensures Known() && multiset(order[..]) == multiset(old(order[..]))
      ensures Sorted(order[..], Configs())
    {
      ghost var configs := Configs();
      for i := 0 to order.Length
        invariant Known() && multiset(order[..]) == multiset(old(order[..]))
        invariant SortedUpTo(order[..], configs, i)
      {
        ghost var done, rest := order[..i], order[i..];
        assert order[..] == done + rest;
        PullForward(i);
        assert order[..] == done + order[i..];
        SortedOneMore(done, rest, order[i..], configs);
      }
      assert order[..] == order[..order.Length];
    }

    /** The map is walked in no particular order. */
    method RebuildOrder()
      requires "" !in providers
      modifies this`order
      ensures fresh(order) && Valid()
      ensures forall p :: p in order[..] <==> p in providers && providers[p].enabled
      ensures forall i, j :: 0 <= i < j < order.Length ==>
        order[i] != order[j] && providers[order[i]].priority <= providers[order[j]].priority
    {
      var names: seq<Provider>, todo := [], providers.Keys;
      while todo != {}
        invariant todo <= providers.Keys && Distinct(names)
        invariant forall p :: p in names <==> p in providers && p !in todo && providers[p].enabled
        decreases todo
      {
        var p :| p in todo;
        todo := todo - {p};
        if providers[p].enabled {
          names := names + [p];
        }
      }
      order := new Provider[|names|](i requires 0 <= i < |names| => names[i]);
      assert order[..] == names;
      SortByPriority();
      DistinctMultiset(names, order[..]);
      ghost var s := order[..];
      assert forall i :: 0 <= i < order.Length ==> order[i] == s[i] && s[i] in providers;
    }

    method RegisterStripe(config: ProviderConfig)
      requires Valid()
      modifies this, config
      ensures Valid() && providers == old(providers)[STRIPE := config]
      ensures config.provider == STRIPE && config.Value() == old(config.Value())
    {
      config.provider := STRIPE;
      providers := providers[STRIPE := config];
      RebuildOrder();
    }

    method RegisterPayPal(config: ProviderConfig)
      requires Valid()
      modifies this, config
      ensures Valid() && providers == old(providers)[PAYPAL := config]
      ensures config.provider == PAYPAL && config.Value() == old(config.Value())
    {
      config.provider := PAYPAL;
      providers := providers[PAYPAL := config];
      RebuildOrder();
    }

    /** The configuration object changes in place, for every provider it is
        registered under. */
    method EnableProvider(p: Provider) returns (error: Option<Error>)
      requires Valid()
      modifies this`order, if p in providers then {providers[p]} else {}
      ensures Valid()
      ensures error == if p in providers then None else Some(ProviderNotFound)
      ensures p in providers ==> p in order[..] && providers[p].Value() == old(providers[p].Value()).(enabled := true)
      ensures p !in providers ==> order == old(order)
    {
      if p !in providers {
        return Some(ProviderNotFound);
      }
      providers[p].enabled := true;
      RebuildOrder();
      return None;
    }

    method DisableProvider(p: Provider) returns (error: Option<Error>)
      requires Valid()
      modifies this`order, if p in providers then {providers[p]} else {}
      ensures Valid()
      ensures error == if p in providers then None else Some(ProviderNotFound)
      ensures p in providers ==> p !in order[..] && providers[p].Value() == old(providers[p].Value()).(enabled := false)
      ensures p !in providers ==> order == old(order)
    {
      if p !in providers {
        return Some(ProviderNotFound);
      }
      providers[p].enabled := false;
      RebuildOrder();
      return None;
    }

    method GetProvidersForRequest(preferred: Provider, currency: string) returns (result: seq<Provider>)
      requires Valid()
      ensures result == Candidates(order[..], Configs(), preferred, currency)
      ensures Distinct(result) && forall p :: p in result <==> Eligible(Configs(), p, currency)
      ensures forall p :: p in result <==> Offered(p, currency)
      ensures preferred in result ==> result[0] == preferred
    {
      hide Others, Supports, Sorted, Eligible, Distinct;
      CandidatesExact(order[..], Configs(), preferred, currency);
      forall p ensures Eligible(Configs(), p, currency) <==> Offered(p, currency) {
        EligibleIsOffered(p, currency);
      }
      var first := PreferredFirst(preferred, currency);
      var others := OthersInOrder(preferred, currency);
      result := first + others;
    }

    /** The provider is enabled, and its list of currencies is empty or names this
        one. */
    predicate Offered(p: Provider, currency: string)
      reads this`providers, providers.Values
    {
      p in providers && providers[p].enabled &&
      (|providers[p].currencies| == 0 || currency in providers[p].currencies)
    }

    lemma EligibleIsOffered(p: Provider, currency: string)
      ensures Eligible(Configs(), p, currency) <==> Offered(p, currency)
    {
    }

    method PreferredFirst(preferred: Provider, currency: string) returns (result: seq<Provider>)
      ensures result == if preferred != "" && Eligible(Configs(), preferred, currency) then [preferred] else []
    {
      result := [];
      if preferred != "" {
        if preferred in providers && providers[preferred].enabled {
          var supported := SupportsCurrency(providers[preferred], currency);
          if supported {
            result := result + [preferred];
          }
        }
      }
    }

    /** The loop over the other providers. */
    method OthersInOrder(preferred: Provider, currency: string) returns (result: seq<Provider>)
      requires Valid()
      ensures result == Others(order[..], Configs(), preferred, currency)
    {
      ghost var configs, s := Configs(), order[..];
      assert forall k :: 0 <= k < order.Length ==> order[k] == s[k] && s[k] in providers;
      hide Others, Supports, IsOrder;
      result := [];
      for i := 0 to order.Length
        invariant result == Others(s[..i], configs, preferred, currency)
      {
        OthersStep(s, i, configs, preferred, currency);
        if order[i] == preferred {
          continue;
        }
        var supported := SupportsCurrency(providers[order[i]], currency);
        if supported {
          result := result + [order[i]];
        }
      }
      assert s[..order.Length] == s;
    }

    method SupportsCurrency(config: ProviderConfig, currency: string) returns (supported: bool)
      ensures supported <==> Supports(config.Value(), currency)
      ensures supported <==> |config.currencies| == 0 || currency in config.currencies
    {
      if |config.currencies| == 0 {
        return true;
      }
      for k := 0 to |config.currencies|
        invariant currency !in config.currencies[..k]
      {
        if config.currencies[k] == currency {
          return true;
        }
      }
      return false;
    }

    /** Retries at one provider; the delay between attempts is not modelled. */
    method ProcessWithProvider(p: Provider, config: Config) returns (o: Outcome)
      modifies gateway
      ensures gateway.attempts ==
        old(gateway.attempts) + Session(gateway.oracle, |old(gateway.attempts)|, p, Limit(config))
      ensures |gateway.attempts| > |old(gateway.attempts)|
      ensures o == gateway.attempts[|gateway.attempts| - 1].outcome
      ensures AtOneProvider(gateway.attempts[|old(gateway.attempts)|..], p, config.maxRetries)
    {
      hide ClientError, Session, AtOneProvider;
      SessionAtOneProvider(gateway.oracle, |gateway.attempts|, p, config);
      ghost var before := gateway.attempts;
      var maxRetries := config.maxRetries;
      if maxRetries <= 0 {
        maxRetries := 1;
      }
      ghost var whole := before + Session(gateway.oracle, |before|, p, maxRetries);
      o := Failure("");
      for attempt := 0 to maxRetries
        invariant |gateway.attempts| >= |before| + attempt
        invariant attempt > 0 ==> o == gateway.attempts[|gateway.attempts| - 1].outcome
        invariant whole == gateway.attempts + Session(gateway.oracle, |gateway.attempts|, p, maxRetries - attempt)
      {
        SessionStep(gateway.attempts, gateway.oracle, p, maxRetries - attempt);
        o := gateway.ExecutePayment(p);
        if o.Success? {
          assert gateway.attempts[|before|..] == Session(gateway.oracle, |before|, p, maxRetries);
          return o;
        }
        var client := IsClientError(Some(o.message));
        if client {
          assert gateway.attempts[|before|..] == Session(gateway.oracle, |before|, p, maxRetries);
          return o;
        }
      }
      SessionOver(gateway.attempts, gateway.oracle, p);
      assert gateway.attempts[|before|..] == Session(gateway.oracle, |before|, p, maxRetries);
    }

    /** The failover loop, on the copied configurations. */
    method TryInTurn(cs: seq<Provider>, configs: map<Provider, Config>) returns (r: Result<Payment, Error>)
      requires |cs| > 0 && forall p :: p in cs ==> p in configs
      modifies gateway
      ensures var t := Failover(gateway.oracle, |old(gateway.attempts)|, cs, configs);
        gateway.attempts == old(gateway.attempts) + t && |t| > 0 && r == Verdict(t)
    {
      hide Session, Limit, Failover;
      ghost var before := gateway.attempts;
      ghost var t := Failover(gateway.oracle, |before|, cs, configs);
      var lastErr := "";
      for k := 0 to |cs|
        invariant |gateway.attempts| >= |before| + k
        invariant k > 0 ==> gateway.attempts[|gateway.attempts| - 1].outcome == Failure(lastErr)
        invariant before + t == gateway.attempts + Failover(gateway.oracle, |gateway.attempts|, cs[k..], configs)
      {
        ghost var sofar := gateway.attempts;
        ghost var s, rest := Unfold(gateway.oracle, |sofar|, cs[k..], configs);
        var o := ProcessWithProvider(cs[k], configs[cs[k]]);
        assert gateway.attempts == sofar + s && before + t == (sofar + s) + rest;
        assert cs[k..][1..] == cs[k + 1..];
        if o.Success? {
          assert s[|s| - 1] == gateway.attempts[|gateway.attempts| - 1] && rest == [];
          assert gateway.attempts == before + t;
          return Ok(Payment(cs[k], o.reference));
        }
        lastErr := o.message;
      }
      EmptyFailover(gateway.oracle, |gateway.attempts|, cs[|cs|..], configs);
      assert gateway.attempts == before + t;
      return Err(PaymentFailed(lastErr));
    }

    method ProcessPayment(preferred: Provider, currency: string) returns (r: Result<Payment, Error>)
      requires Valid()
      modifies gateway
      ensures var cs := Candidates(order[..], Configs(), preferred, currency);
        var t := Failover(gateway.oracle, |old(gateway.attempts)|, cs, Configs());
        gateway.attempts == old(gateway.attempts) + t && r == Verdict(t) &&
        (cs == [] <==> r == Err(NoProvidersAvailable))
      // the attempts are the lawful ones, and the last of them is the answer
      ensures |old(gateway.attempts)| <= |gateway.attempts|
      ensures Lawful(
        gateway.attempts[|old(gateway.attempts)|..], gateway.oracle, |old(gateway.attempts)|,
        Candidates(order[..], Configs(), preferred, currency), Configs())
      ensures r.Ok? ==>
        |gateway.attempts| > |old(gateway.attempts)| &&
        gateway.attempts[|gateway.attempts| - 1] == Attempt(r.value.provider, Success(r.value.reference))
      ensures r.Err? && r.error.PaymentFailed? ==>
        |gateway.attempts| > |old(gateway.attempts)| &&
        gateway.attempts[|gateway.attempts| - 1].outcome == Failure(r.error.last)
      ensures r.Err? && !r.error.PaymentFailed? ==> gateway.attempts == old(gateway.attempts)
    {
      hide Candidates, IsOrder, Supports, Failover, Lawful;
      ghost var before := gateway.attempts;
      var cs := GetProvidersForRequest(preferred, currency);
      assert forall p :: p in cs ==> p in Configs();
      FailoverIsLawful(gateway.oracle, |before|, cs, Configs());
      assert forall t: seq<Attempt> :: (before + t)[|before|..] == t;
      assert cs == [] ==> Failover(gateway.oracle, |gateway.attempts|, cs, Configs()) == [] by {
        EmptyFailover(gateway.oracle, |gateway.attempts|, [], Configs());
      }
      var configs: map<Provider, Config> := map[];
      for k := 0 to |cs|
        invariant forall j :: 0 <= j < k ==>
          cs[j] in configs && cs[j] in providers && configs[cs[j]] == providers[cs[j]].Value()
      {
        assert cs[k] in cs && Eligible(Configs(), cs[k], currency);
        if cs[k] in providers {
          configs := configs[cs[k] := providers[cs[k]].Value()];
        }
      }
      if |cs| == 0 {
        return Err(NoProvidersAvailable);
      }
      SameConfigs(gateway.oracle, |gateway.attempts|, cs, configs, Configs());
      r := TryInTurn(cs, configs);
    }
  }
}
