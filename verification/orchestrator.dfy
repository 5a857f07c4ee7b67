/** `try_all_services` of feez/app.py: scan the providers in priority order,
    skip those on cooldown, return the first truthy translation, and put a
    provider on cooldown when its failure reads as a rate limit. A run
    returns the outcome, the availability map it leaves behind and the trace
    of providers whose adapter was invoked. */
module Orchestrator {
  import opened Tracker
  import opened Classifier

  /** The insertion order of `translation_functions`: local LibreTranslate first. */
  const Priority: seq<Key> := ["libretranslate", "mymemory", "google", "lingva"]

  const AllServicesFailed := "All translation services failed"

  /** The adapters as seen by one request: what calling provider `k` on a
      text comes to. */
  type Adapters = (Key, string) -> AdapterResult

  /** Python's `if result:`: a returned text counts only when non-empty. */
  predicate Truthy(a: AdapterResult) {
    a.Ok? && a.text != ""
  }

  /** The failure puts the provider on cooldown. */
  predicate RateLimited(a: AdapterResult) {
    a.Err? && IsRateLimitError(a.msg)
  }

  /** The dictionary the routes return, without its HTTP status. */
  datatype Outcome = Success(translation: string, service: Key) | Failure(error: string)

  /** One call into the core: its outcome, the map after it, and the adapters invoked in order. */
  datatype Run = Run(outcome: Outcome, limits: Limits, calls: seq<Key>)

  predicate Distinct(keys: seq<Key>) {
    forall i, j :: 0 <= i < j < |keys| ==> keys[i] != keys[j]
  }

  /** The four provider keys are different. */
  lemma PriorityDistinct()
    ensures Distinct(Priority)
  {
  }

  /** The providers of `keys` that are available at `now`, in order: the ones
      the scan may invoke. */
  function Candidates(keys: seq<Key>, m: Limits, now: int): (c: seq<Key>)
    ensures forall k :: k in c <==> k in keys && IsAvailable(m, k, now)
    ensures |c| <= |keys|
    ensures Distinct(keys) ==> Distinct(c)
  {
    if |keys| == 0 then []
    else
      var rest := Candidates(keys[1..], m, now);
      assert forall k :: k in keys <==> k == keys[0] || k in keys[1..];
      if IsAvailable(m, keys[0], now) then
        assert Distinct(keys) ==> keys[0] !in rest;
        [keys[0]] + rest
      else rest
  }

  /** Candidates only depend on the records of the keys scanned. */
  lemma {:induction false} CandidatesFrame(keys: seq<Key>, m1: Limits, m2: Limits, now: int)
    requires forall k :: k in keys ==> SameOn(m1, m2, k)
    ensures Candidates(keys, m1, now) == Candidates(keys, m2, now)
  {
    if |keys| > 0 {
      assert keys[0] in keys;
      AvailableFrame(m1, m2, keys[0], now);
      CandidatesFrame(keys[1..], m1, m2, now);
    }
  }

  /** Index of the first provider of `c` whose adapter returns a truthy text,
      or `|c|` when there is none. */
  function FirstSuccess(c: seq<Key>, adapters: Adapters, text: string): (i: nat)
    ensures i <= |c|
    ensures forall j :: 0 <= j < i ==> !Truthy(adapters(c[j], text))
    ensures i < |c| ==> Truthy(adapters(c[i], text))
  {
    if |c| == 0 then 0
    else if Truthy(adapters(c[0], text)) then 0
    else 1 + FirstSuccess(c[1..], adapters, text)
  }

  /** The map after provider `k`, found available, failed with `a`: its
      expired record is gone, and a rate-limit failure marks it with `now`.
      No other record changes. */
  function AfterFailure(m: Limits, k: Key, now: int, a: AdapterResult): (m': Limits)
    requires IsAvailable(m, k, now)
    ensures k in m' <==> RateLimited(a)
    ensures k in m' ==> m'[k] == now
    ensures forall k' :: k' != k ==> SameOn(m, m', k')
  {
    var cleaned := CheckAvailable(m, k, now).limits;
    if RateLimited(a) then MarkRateLimited(cleaned, k, now) else cleaned
  }

  /** The loop of `try_all_services` over the providers `keys`: check
      availability (dropping expired records), invoke the adapter of an
      available provider, return on a truthy text, otherwise mark the
      provider when the failure is a rate limit and go on. */
  function Scan(keys: seq<Key>, m: Limits, now: int, adapters: Adapters, text: string): (r: Run)
    requires Distinct(keys)
    ensures forall k :: k in r.calls ==> k in keys
    decreases |keys|
  {
    if |keys| == 0 then Run(Failure(AllServicesFailed), m, [])
    else
      var k := keys[0];
      var chk := CheckAvailable(m, k, now);
      if !chk.available then
        Scan(keys[1..], chk.limits, now, adapters, text)
      else
        var a := adapters(k, text);
        if Truthy(a) then
          Run(Success(a.text, k), chk.limits, [k])
        else
          var rest := Scan(keys[1..], AfterFailure(m, k, now, a), now, adapters, text);
          Run(rest.outcome, rest.limits, [k] + rest.calls)
  }

  /** `r` reports on the candidates `c` as a scan should: it invoked them up
      to and including the first one whose adapter returns a truthy text and
      reports that one, or invoked all of them and reports failure. */
  predicate Reports(r: Run, c: seq<Key>, adapters: Adapters, text: string) {
    var i := FirstSuccess(c, adapters, text);
    && (i < |c| ==> r.calls == c[..i + 1] && r.outcome == Success(adapters(c[i], text).text, c[i]))
    && (i == |c| ==> r.calls == c && r.outcome == Failure(AllServicesFailed))
  }

  /** Prefixing a failed provider to both the candidates and the trace keeps
      the report right. */
  lemma ReportsCons(k: Key, c: seq<Key>, rest: Run, adapters: Adapters, text: string)
    requires !Truthy(adapters(k, text))
    requires Reports(rest, c, adapters, text)
    ensures Reports(Run(rest.outcome, rest.limits, [k] + rest.calls), [k] + c, adapters, text)
  {
    var kc := [k] + c;
    assert kc[1..] == c;
    var i := FirstSuccess(c, adapters, text);
    assert FirstSuccess(kc, adapters, text) == 1 + i;
    if i < |c| {
      assert [k] + c[..i + 1] == kc[..i + 2];
    }
  }

  /** The scan invokes exactly the available providers up to the first one
      whose adapter returns a truthy text, and reports that one; when there
      is none it invokes every available provider and reports failure. */
  lemma {:induction false} ScanCalls(keys: seq<Key>, m: Limits, now: int, adapters: Adapters, text: string)
    requires Distinct(keys)
    ensures Reports(Scan(keys, m, now, adapters, text), Candidates(keys, m, now), adapters, text)
    decreases |keys|
  {
    if |keys| > 0 {
      var k := keys[0];
      var chk := CheckAvailable(m, k, now);
      var c' := Candidates(keys[1..], m, now);
      if !chk.available {
        ScanCalls(keys[1..], m, now, adapters, text);
      } else if !Truthy(adapters(k, text)) {
        var m' := AfterFailure(m, k, now, adapters(k, text));
        assert forall k' :: k' in keys[1..] ==> k' != k;
        CandidatesFrame(keys[1..], m, m', now);
        ScanCalls(keys[1..], m', now, adapters, text);
        ReportsCons(k, c', Scan(keys[1..], m', now, adapters, text), adapters, text);
      } else {
        assert ([k] + c')[..1] == [k];
      }
    }
  }

  /** Records change only for invoked providers: a rate-limit failure marks
      the provider with `now`, and any other invoked provider is left without
      a record (it was available, so an expired record was dropped). */
  lemma {:induction false} ScanLimits(keys: seq<Key>, m: Limits, now: int, adapters: Adapters, text: string)
    requires Distinct(keys)
    ensures var r := Scan(keys, m, now, adapters, text);
            && (forall k :: k !in r.calls ==> SameOn(m, r.limits, k))
            && (forall k :: k in r.calls ==> (k in r.limits <==> RateLimited(adapters(k, text))))
            && (forall k :: k in r.calls && k in r.limits ==> r.limits[k] == now)
    decreases |keys|
  {
    if |keys| > 0 {
      var k := keys[0];
      var chk := CheckAvailable(m, k, now);
      assert forall k' :: k' in keys[1..] ==> k' != k;
      if !chk.available {
        ScanLimits(keys[1..], m, now, adapters, text);
        assert Scan(keys, m, now, adapters, text) == Scan(keys[1..], m, now, adapters, text);
      } else if !Truthy(adapters(k, text)) {
        var m' := AfterFailure(m, k, now, adapters(k, text));
        ScanLimits(keys[1..], m', now, adapters, text);
        var rest := Scan(keys[1..], m', now, adapters, text);
        assert Scan(keys, m, now, adapters, text) == Run(rest.outcome, rest.limits, [k] + rest.calls);
        assert k !in rest.calls;
      }
    }
  }

  /** What a scan over distinct `keys` guarantees: it invokes available
      providers of `keys` only, each at most once; a success names the last
      provider invoked, whose text is truthy; a failure is "All translation
      services failed"; and only the records of invoked providers change (a
      rate-limit failure marks the provider with `now`, any other outcome
      leaves it without a record). */
  lemma ScanContract(keys: seq<Key>, m: Limits, now: int, adapters: Adapters, text: string)
    requires Distinct(keys)
    ensures var r := Scan(keys, m, now, adapters, text);
            && (forall k :: k in r.calls ==> k in keys && IsAvailable(m, k, now))
            && Distinct(r.calls)
            && (r.outcome.Success? ==> |r.calls| > 0 && r.outcome.service == r.calls[|r.calls| - 1])
            && (r.outcome.Success? ==>
                  Truthy(adapters(r.outcome.service, text)) && r.outcome.translation == adapters(r.outcome.service, text).text)
            && (r.outcome.Failure? ==> r.outcome.error == AllServicesFailed)
            && (forall k :: k !in r.calls ==> SameOn(m, r.limits, k))
            && (forall k :: k in r.calls ==> (k in r.limits <==> RateLimited(adapters(k, text))))
            && (forall k :: k in r.calls && k in r.limits ==> r.limits[k] == now)
  {
    ScanCalls(keys, m, now, adapters, text);
    ScanLimits(keys, m, now, adapters, text);
    CandidatesFacts(Scan(keys, m, now, adapters, text), keys, m, now, adapters, text);
  }

  /** A run that reports on the candidates of distinct `keys` invokes
      available providers of `keys` only. */
  lemma CandidatesFacts(r: Run, keys: seq<Key>, m: Limits, now: int, adapters: Adapters, text: string)
    requires Distinct(keys) && Reports(r, Candidates(keys, m, now), adapters, text)
    ensures forall k :: k in r.calls ==> k in keys && IsAvailable(m, k, now)
    ensures Distinct(r.calls)
    ensures r.outcome.Success? ==> |r.calls| > 0 && r.outcome.service == r.calls[|r.calls| - 1]
    ensures r.outcome.Success? ==>
              Truthy(adapters(r.outcome.service, text)) && r.outcome.translation == adapters(r.outcome.service, text).text
    ensures r.outcome.Failure? ==> r.outcome.error == AllServicesFailed
  {
    ReportsFacts(r, Candidates(keys, m, now), adapters, text);
  }

  /** What a report on distinct candidates says about the run: it invokes
      candidates only, each at most once, and a success names the last
      provider invoked, whose text is truthy. */
  lemma ReportsFacts(r: Run, c: seq<Key>, adapters: Adapters, text: string)
    requires Distinct(c) && Reports(r, c, adapters, text)
    ensures forall k :: k in r.calls ==> k in c
    ensures Distinct(r.calls)
    ensures r.outcome.Success? ==> |r.calls| > 0 && r.outcome.service == r.calls[|r.calls| - 1]
    ensures r.outcome.Success? ==>
              Truthy(adapters(r.outcome.service, text)) && r.outcome.translation == adapters(r.outcome.service, text).text
    ensures r.outcome.Failure? ==> r.outcome.error == AllServicesFailed
  {
    var i := FirstSuccess(c, adapters, text);
    if i < |c| {
      assert r.calls == c[..i + 1];
      assert forall k :: k in r.calls ==> k in c;
    }
  }

  /** A scan whose first provider is available invokes it first. */
  lemma ScanFirstCall(keys: seq<Key>, m: Limits, now: int, adapters: Adapters, text: string)
    requires Distinct(keys) && |keys| > 0 && IsAvailable(m, keys[0], now)
    ensures var r := Scan(keys, m, now, adapters, text);
            |r.calls| > 0 && r.calls[0] == keys[0]
  {
  }

  /** `try_all_services(text)` at time `now` against the map `m`: it never
      invokes a provider that is on cooldown, and it changes the records of
      invoked providers only (a rate-limit failure marks the provider with
      `now`, any other outcome leaves it without a record). */
  function TryAll(m: Limits, now: int, adapters: Adapters, text: string): (r: Run)
    ensures forall k :: k in r.calls ==> k in Priority && IsAvailable(m, k, now)
    ensures Distinct(r.calls)
    ensures r.outcome.Success? ==> |r.calls| > 0 && r.outcome.service == r.calls[|r.calls| - 1]
    ensures r.outcome.Success? ==>
              Truthy(adapters(r.outcome.service, text)) && r.outcome.translation == adapters(r.outcome.service, text).text
    ensures r.outcome.Failure? ==> r.outcome.error == AllServicesFailed
    ensures forall k :: k !in r.calls ==> SameOn(m, r.limits, k)
    ensures forall k :: k in r.calls ==> (k in r.limits <==> RateLimited(adapters(k, text)))
    ensures forall k :: k in r.calls && k in r.limits ==> r.limits[k] == now
  {
    PriorityDistinct();
    ScanContract(Priority, m, now, adapters, text);
    Scan(Priority, m, now, adapters, text)
  }

  /** When LibreTranslate, first in priority, is available, the scan invokes it first. */
  lemma TryAllFirstCall(m: Limits, now: int, adapters: Adapters, text: string)
    requires IsAvailable(m, Priority[0], now)
    ensures var r := TryAll(m, now, adapters, text);
            |r.calls| > 0 && r.calls[0] == Priority[0]
  {
    PriorityDistinct();
    ScanFirstCall(Priority, m, now, adapters, text);
  }

  /** Without a rate-limit failure no record is added: the map afterwards is
      the map before, less the expired records of the invoked providers. So
      when no record has expired the map is left as it was. */
  lemma TryAllNoRateLimit(m: Limits, now: int, adapters: Adapters, text: string)
    ensures var r := TryAll(m, now, adapters, text);
            (forall k :: k in r.calls ==> !RateLimited(adapters(k, text))) ==>
              && r.limits == m - set k | k in r.calls
              && ((forall k :: k in m ==> CoolingDown(m, k, now)) ==> r.limits == m)
  {
    PriorityDistinct();
    ScanNoRateLimit(Priority, m, now, adapters, text);
  }

  /** The same for a scan over any distinct `keys`. */
  lemma ScanNoRateLimit(keys: seq<Key>, m: Limits, now: int, adapters: Adapters, text: string)
    requires Distinct(keys)
    ensures var r := Scan(keys, m, now, adapters, text);
            (forall k :: k in r.calls ==> !RateLimited(adapters(k, text))) ==>
              && r.limits == m - set k | k in r.calls
              && ((forall k :: k in m ==> CoolingDown(m, k, now)) ==> r.limits == m)
  {
    var r := Scan(keys, m, now, adapters, text);
    ScanContract(keys, m, now, adapters, text);
    if forall k :: k in r.calls ==> !RateLimited(adapters(k, text)) {
      UnmarkedRun(m, now, adapters, text, r);
    }
  }

  /** A run that invoked available providers only, none of them rate
      limited, and changed the records of invoked providers only, removed
      those records and nothing else. */
  lemma UnmarkedRun(m: Limits, now: int, adapters: Adapters, text: string, r: Run)
    requires forall k :: k in r.calls ==> IsAvailable(m, k, now) && !RateLimited(adapters(k, text))
    requires forall k :: k !in r.calls ==> SameOn(m, r.limits, k)
    requires forall k :: k in r.calls ==> (k in r.limits <==> RateLimited(adapters(k, text)))
    ensures r.limits == m - set k | k in r.calls
    ensures (forall k :: k in m ==> CoolingDown(m, k, now)) ==> r.limits == m
  {
    RemovedOnly(m, r.limits, r.calls);
  }

  /** A map that agrees with `m` off `calls` and has no key of `calls` is
      `m` without those keys; it is `m` itself when `m` has none of them. */
  lemma RemovedOnly(m: Limits, r: Limits, calls: seq<Key>)
    requires forall k :: k !in calls ==> SameOn(m, r, k)
    requires forall k :: k in calls ==> k !in r
    ensures r == m - set k | k in calls
    ensures (forall k :: k in calls ==> k !in m) ==> r == m
  {
    var gone := set k | k in calls;
    assert r.Keys == (m - gone).Keys;
    if forall k :: k in calls ==> k !in m {
      assert m - gone == m;
    }
  }

  /** Position of `k` in `keys`. */
  function IndexOf(keys: seq<Key>, k: Key): (i: nat)
    requires k in keys
    ensures i < |keys| && keys[i] == k
  {
    if keys[0] == k then 0 else 1 + IndexOf(keys[1..], k)
  }

  /** A key of the tail sits one place further on in the whole sequence. */
  lemma IndexOfTail(k0: Key, rest: seq<Key>, k: Key)
    requires k in rest && k != k0
    ensures IndexOf([k0] + rest, k) == 1 + IndexOf(rest, k)
  {
    assert ([k0] + rest)[1..] == rest;
  }

  /** Candidates keep the order of the keys they come from. */
  lemma {:induction false} CandidatesOrdered(keys: seq<Key>, m: Limits, now: int)
    requires Distinct(keys)
    ensures var c := Candidates(keys, m, now);
            forall a, b :: 0 <= a < b < |c| ==> IndexOf(keys, c[a]) < IndexOf(keys, c[b])
  {
    if |keys| > 0 {
      var rest := keys[1..];
      CandidatesOrdered(rest, m, now);
      var c' := Candidates(rest, m, now);
      assert c' == Candidates(keys[1..], m, now);
      assert keys[0] !in rest;
      assert keys == [keys[0]] + rest;
      if IsAvailable(m, keys[0], now) {
        OrderedCons(keys[0], rest, c');
      } else {
        OrderedTail(keys[0], rest, c');
      }
    }
  }

  /** Ordered members of the tail stay ordered in the whole sequence. */
  lemma OrderedTail(k0: Key, rest: seq<Key>, c: seq<Key>)
    requires k0 !in rest
    requires forall k :: k in c ==> k in rest
    requires forall a, b :: 0 <= a < b < |c| ==> IndexOf(rest, c[a]) < IndexOf(rest, c[b])
    ensures forall a, b :: 0 <= a < b < |c| ==> IndexOf([k0] + rest, c[a]) < IndexOf([k0] + rest, c[b])
  {
    forall a, b | 0 <= a < b < |c| ensures IndexOf([k0] + rest, c[a]) < IndexOf([k0] + rest, c[b]) {
      assert c[a] in c && c[b] in c;
      IndexOfTail(k0, rest, c[a]);
      IndexOfTail(k0, rest, c[b]);
    }
  }

  /** Putting the first key in front of ordered members of the tail keeps them ordered. */
  lemma OrderedCons(k0: Key, rest: seq<Key>, c: seq<Key>)
    requires k0 !in rest
    requires forall k :: k in c ==> k in rest
    requires forall a, b :: 0 <= a < b < |c| ==> IndexOf(rest, c[a]) < IndexOf(rest, c[b])
    ensures var kc := [k0] + c;
            forall a, b :: 0 <= a < b < |kc| ==> IndexOf([k0] + rest, kc[a]) < IndexOf([k0] + rest, kc[b])
  {
    var keys := [k0] + rest;
    var kc := [k0] + c;
    OrderedTail(k0, rest, c);
    forall a, b | 0 <= a < b < |kc| ensures IndexOf(keys, kc[a]) < IndexOf(keys, kc[b]) {
      assert kc[b] == c[b - 1] && c[b - 1] in c;
      IndexOfTail(k0, rest, c[b - 1]);
      if a > 0 {
        assert kc[a] == c[a - 1];
      }
    }
  }

  /** The index of the first element of a distinct sequence is its position. */
  lemma IndexOfDistinct(s: seq<Key>, t: nat)
    requires Distinct(s) && t < |s|
    ensures IndexOf(s, s[t]) == t
  {
    var i := IndexOf(s, s[t]);
  }

  /** The candidates up to position `i` are exactly the available keys that
      come no later than the `i`-th candidate. */
  lemma CandidatePrefix(keys: seq<Key>, m: Limits, now: int, i: nat)
    requires Distinct(keys)
    requires i < |Candidates(keys, m, now)|
    ensures var c := Candidates(keys, m, now);
            forall k :: k in c[..i + 1] <==>
              k in keys && IsAvailable(m, k, now) && IndexOf(keys, k) <= IndexOf(keys, c[i])
  {
    var c := Candidates(keys, m, now);
    CandidatesOrdered(keys, m, now);
    forall k | k in c[..i + 1]
      ensures k in keys && IsAvailable(m, k, now) && IndexOf(keys, k) <= IndexOf(keys, c[i])
    {
      var t :| 0 <= t < i + 1 && c[..i + 1][t] == k;
      assert c[t] == k;
      if t < i {
        assert IndexOf(keys, c[t]) < IndexOf(keys, c[i]);
      }
    }
    forall k | k in keys && IsAvailable(m, k, now) && IndexOf(keys, k) <= IndexOf(keys, c[i])
      ensures k in c[..i + 1]
    {
      var t :| 0 <= t < |c| && c[t] == k;
      assert c[..i + 1][t] == k;
    }
  }

  /** A successful report names the first candidate with a truthy text;
      every other invoked provider failed. */
  lemma ReportsSuccess(r: Run, c: seq<Key>, adapters: Adapters, text: string)
    requires Reports(r, c, adapters, text) && r.outcome.Success?
    ensures var i := FirstSuccess(c, adapters, text);
            && i < |c| && r.calls == c[..i + 1]
            && r.outcome.service == c[i]
            && Truthy(adapters(c[i], text))
            && r.outcome.translation == adapters(c[i], text).text
            && (forall k :: k in r.calls && k != c[i] ==> !Truthy(adapters(k, text)))
  {
    var i := FirstSuccess(c, adapters, text);
    forall k | k in r.calls && k != c[i] ensures !Truthy(adapters(k, text)) {
      var t :| 0 <= t < i + 1 && r.calls[t] == k;
      assert c[t] == k;
    }
  }

  /** A successful scan reports the first available provider of `keys` whose
      adapter returns a truthy text: exactly the available providers up to it
      were invoked, and all of them but it failed. */
  lemma ScanFirstSuccess(keys: seq<Key>, m: Limits, now: int, adapters: Adapters, text: string)
    requires Distinct(keys)
    ensures var r := Scan(keys, m, now, adapters, text);
            r.outcome.Success? ==>
              var s := r.outcome.service;
              && s in keys
              && Truthy(adapters(s, text))
              && r.outcome.translation == adapters(s, text).text
              && (forall k :: k in r.calls && k != s ==> !Truthy(adapters(k, text)))
              && (forall k :: k in r.calls <==>
                    k in keys && IsAvailable(m, k, now) && IndexOf(keys, k) <= IndexOf(keys, s))
  {
    var r := Scan(keys, m, now, adapters, text);
    var c := Candidates(keys, m, now);
    ScanCalls(keys, m, now, adapters, text);
    if r.outcome.Success? {
      ReportsSuccess(r, c, adapters, text);
      CandidatePrefix(keys, m, now, FirstSuccess(c, adapters, text));
    }
  }

  /** `try_all_services` reports the first available provider, in priority
      order, whose adapter returns a truthy text: exactly the available
      providers up to it were invoked, all of them but it failed, and none
      after it was invoked. */
  lemma TryAllFirstSuccess(m: Limits, now: int, adapters: Adapters, text: string)
    ensures var r := TryAll(m, now, adapters, text);
            r.outcome.Success? ==>
              var s := r.outcome.service;
              && s in Priority
              && Truthy(adapters(s, text))
              && r.outcome.translation == adapters(s, text).text
              && (forall k :: k in r.calls && k != s ==> !Truthy(adapters(k, text)))
              && (forall k :: k in r.calls <==>
                    k in Priority && IsAvailable(m, k, now) && IndexOf(Priority, k) <= IndexOf(Priority, s))
  {
    PriorityDistinct();
    ScanFirstSuccess(Priority, m, now, adapters, text);
  }

  /** In a distinct sequence every member occurs exactly once. */
  lemma {:induction false} DistinctOnce(s: seq<Key>, k: Key)
    requires Distinct(s) && k in s
    ensures multiset(s)[k] == 1
  {
    assert s == [s[0]] + s[1..];
    if s[0] == k {
      assert k !in s[1..];
    } else {
      DistinctOnce(s[1..], k);
    }
  }

  /** When every provider of a scan fails, it reports "All translation
      services failed" and invoked each available provider exactly once. */
  lemma ScanExhausted(keys: seq<Key>, m: Limits, now: int, adapters: Adapters, text: string)
    requires Distinct(keys)
    ensures var r := Scan(keys, m, now, adapters, text);
            r.outcome.Failure? ==>
              && r.outcome.error == AllServicesFailed
              && (forall k :: k in r.calls ==> !Truthy(adapters(k, text)))
              && forall k :: k in keys && IsAvailable(m, k, now) ==> multiset(r.calls)[k] == 1
  {
    var r := Scan(keys, m, now, adapters, text);
    var c := Candidates(keys, m, now);
    ScanCalls(keys, m, now, adapters, text);
    if r.outcome.Failure? {
      assert FirstSuccess(c, adapters, text) == |c|;
      assert r.calls == c;
      forall k | k in r.calls ensures !Truthy(adapters(k, text)) {
        var t :| 0 <= t < |c| && c[t] == k;
      }
      forall k | k in keys && IsAvailable(m, k, now) ensures multiset(r.calls)[k] == 1 {
        DistinctOnce(r.calls, k);
      }
    }
  }

  /** When every provider fails, the result is "All translation services
      failed" and each provider that was available was invoked exactly once. */
  lemma TryAllExhausted(m: Limits, now: int, adapters: Adapters, text: string)
    ensures var r := TryAll(m, now, adapters, text);
            r.outcome.Failure? ==>
              && r.outcome.error == AllServicesFailed
              && (forall k :: k in r.calls ==> !Truthy(adapters(k, text)))
              && forall k :: k in Priority && IsAvailable(m, k, now) ==> multiset(r.calls)[k] == 1
  {
    PriorityDistinct();
    ScanExhausted(Priority, m, now, adapters, text);
  }

  /** Three providers in a row: the first fails with an error that is not a
      rate limit, the second is rate-limited, the third answers `t`. From an
      empty map the scan answers with the third, having invoked the three in
      order, and only the second ends up on cooldown. */
  lemma {:induction false} FallbackScan(keys: seq<Key>, adapters: Adapters, text: string, now: int, t: string)
    requires Distinct(keys) && |keys| >= 3
    requires adapters(keys[0], text).Err? && !RateLimited(adapters(keys[0], text))
    requires RateLimited(adapters(keys[1], text))
    requires adapters(keys[2], text) == Ok(t) && t != ""
    ensures Scan(keys, map[], now, adapters, text) == Run(Success(t, keys[2]), map[keys[1] := now], keys[..3])
  {
    var m1 := AfterFailure(map[], keys[0], now, adapters(keys[0], text));
    assert m1 == map[];
    var m2 := AfterFailure(m1, keys[1], now, adapters(keys[1], text));
    assert m2 == map[keys[1] := now];
    assert keys[2] != keys[1];
    assert CheckAvailable(m2, keys[2], now) == Check(true, m2);
    assert keys[1..][1..] == keys[2..];
    var r2 := Scan(keys[2..], m2, now, adapters, text);
    assert r2 == Run(Success(t, keys[2]), m2, [keys[2]]);
    var r1 := Scan(keys[1..], m1, now, adapters, text);
    assert r1 == Run(Success(t, keys[2]), m2, [keys[1], keys[2]]);
    assert [keys[0]] + r1.calls == keys[..3];
  }

  /** The fallback of `test_try_all_services_fallback` in feez/test_app.py: with no records,
      LibreTranslate failing with some other error, MyMemory answering 429
      ("Rate limit exceeded") and Google answering "Hello", the answer is
      Google's, the first three providers were invoked in order, and MyMemory
      alone is now on cooldown. */
  lemma FallbackExample(adapters: Adapters, text: string, now: int, e: string)
    requires adapters(Priority[0], text) == Err(e) && !IsRateLimitError(e)
    requires adapters(Priority[1], text) == Err(RateLimitExceeded)
    requires adapters(Priority[2], text) == Ok("Hello")
    ensures TryAll(map[], now, adapters, text)
         == Run(Success("Hello", Priority[2]), map[Priority[1] := now], Priority[..3])
  {
    RateLimitExceededIsRateLimit(RateLimitExceeded);
    PriorityDistinct();
    FallbackScan(Priority, adapters, text, now, "Hello");
  }
}
