/** The two translation routes of feez/app.py: `/api/translate` for one text
    and `/api/translate-batch` for a list of lines. Both either run the
    priority scan (`service == "auto"`) or go to the provider the client
    asked for, falling back to the scan when it is on cooldown or fails. */
module Routes {
  import opened Text
  import opened Tracker
  import opened Classifier
  import opened Orchestrator

  const Auto := "auto"
  const NoTextProvided := "No text provided"
  const InvalidService := "Invalid service"

  /** The service selection both routes share, for a text that is not blank.
      "auto" runs the scan; an unknown key is refused before anything is
      invoked; a known provider on cooldown hands over to the scan; an
      available one is invoked once, its answer taken as it is (an empty text
      included), and when it raises, the failure is recorded as the scan
      would record it and the scan runs next. */
  function Dispatch(service: string, m: Limits, now: int, adapters: Adapters, text: string): (r: Run)
    ensures service != Auto && service !in Priority ==> r == Run(Failure(InvalidService), m, [])
    ensures forall k :: k in r.calls ==> k in Priority && IsAvailable(m, k, now)
    ensures service in Priority && IsAvailable(m, service, now) ==> |r.calls| > 0 && r.calls[0] == service
    ensures service in Priority && !IsAvailable(m, service, now) ==> service !in r.calls
    ensures service in Priority && IsAvailable(m, service, now) && adapters(service, text).Ok? ==>
              r == Run(Success(adapters(service, text).text, service), CheckAvailable(m, service, now).limits, [service])
    ensures r.outcome.Success? ==>
              && r.outcome.service in r.calls
              && adapters(r.outcome.service, text) == Ok(r.outcome.translation)
              && (Truthy(adapters(r.outcome.service, text)) || r.outcome.service == service)
    ensures r.outcome.Failure? ==> r.outcome.error in {InvalidService, AllServicesFailed}
    ensures r.outcome.Failure? && r.outcome.error == AllServicesFailed ==> service == Auto || service in Priority
    ensures service in Priority && !IsAvailable(m, service, now) ==> r == TryAll(m, now, adapters, text)
    ensures r.outcome.Failure? && r.outcome.error == AllServicesFailed ==>
              && (forall k :: k in Priority && IsAvailable(m, k, now) ==> k in r.calls)
              && (forall k :: k in r.calls ==> !Truthy(adapters(k, text)))
    ensures r.outcome.Success? && r.outcome.service != service ==>
              forall k :: k in Priority && IsAvailable(m, k, now) && IndexOf(Priority, k) < IndexOf(Priority, r.outcome.service) ==>
                !Truthy(adapters(k, text))
    ensures forall k :: k !in r.calls ==> SameOn(m, r.limits, k)
    ensures forall k :: k in r.calls ==> (k in r.limits <==> RateLimited(adapters(k, text)))
    ensures forall k :: k in r.calls && k in r.limits ==> r.limits[k] == now
  {
    var r := Route(service, m, now, adapters, text);
    RouteCalls(service, m, now, adapters, text);
    RouteOutcome(service, m, now, adapters, text);
    RouteLimits(service, m, now, adapters, text);
    r
  }

  /** The selection itself; `Dispatch` states what it does. */
  function Route(service: string, m: Limits, now: int, adapters: Adapters, text: string): Run {
    if service == Auto then TryAll(m, now, adapters, text)
    else if service !in Priority then Run(Failure(InvalidService), m, [])
    else Requested(service, m, now, adapters, text)
  }

  /** Which providers the selection invokes, and in what order it starts. */
  lemma RouteCalls(service: string, m: Limits, now: int, adapters: Adapters, text: string)
    ensures var r := Route(service, m, now, adapters, text);
            && (service != Auto && service !in Priority ==> r == Run(Failure(InvalidService), m, []))
            && (forall k :: k in r.calls ==> k in Priority && IsAvailable(m, k, now))
            && (service in Priority && IsAvailable(m, service, now) ==> |r.calls| > 0 && r.calls[0] == service)
            && (service in Priority && !IsAvailable(m, service, now) ==> service !in r.calls)
            && (service in Priority && IsAvailable(m, service, now) && adapters(service, text).Ok? ==>
                  r == Run(Success(adapters(service, text).text, service), CheckAvailable(m, service, now).limits, [service]))
            && (service in Priority && !IsAvailable(m, service, now) ==> r == TryAll(m, now, adapters, text))
  {
  }

  /** What the selection answers. */
  lemma RouteOutcome(service: string, m: Limits, now: int, adapters: Adapters, text: string)
    ensures var r := Route(service, m, now, adapters, text);
            && (r.outcome.Success? ==>
                  && r.outcome.service in r.calls
                  && adapters(r.outcome.service, text) == Ok(r.outcome.translation)
                  && (Truthy(adapters(r.outcome.service, text)) || r.outcome.service == service))
            && (r.outcome.Failure? ==> r.outcome.error in {InvalidService, AllServicesFailed})
            && (r.outcome.Failure? && r.outcome.error == AllServicesFailed ==> service == Auto || service in Priority)
            && (r.outcome.Failure? && r.outcome.error == AllServicesFailed ==>
                  && (forall k :: k in Priority && IsAvailable(m, k, now) ==> k in r.calls)
                  && (forall k :: k in r.calls ==> !Truthy(adapters(k, text))))
            && (r.outcome.Success? && r.outcome.service != service ==>
                  forall k :: k in Priority && IsAvailable(m, k, now) && IndexOf(Priority, k) < IndexOf(Priority, r.outcome.service) ==>
                    !Truthy(adapters(k, text)))
  {
    if service == Auto {
      TryAllSemantics(m, now, adapters, text);
    }
  }

  /** Which records the selection changes. */
  lemma RouteLimits(service: string, m: Limits, now: int, adapters: Adapters, text: string)
    ensures var r := Route(service, m, now, adapters, text);
            && (forall k :: k !in r.calls ==> SameOn(m, r.limits, k))
            && (forall k :: k in r.calls ==> (k in r.limits <==> RateLimited(adapters(k, text))))
            && (forall k :: k in r.calls && k in r.limits ==> r.limits[k] == now)
  {
  }

  /** The branch of the selection for a known provider: on cooldown it hands
      over to the scan; available, it is invoked once and its answer taken as
      it is, and when it raises, the failure is recorded and the scan runs
      next. */
  function Requested(service: Key, m: Limits, now: int, adapters: Adapters, text: string): (r: Run)
    requires service in Priority
    ensures forall k :: k in r.calls ==> k in Priority && IsAvailable(m, k, now)
    ensures IsAvailable(m, service, now) ==> |r.calls| > 0 && r.calls[0] == service
    ensures !IsAvailable(m, service, now) ==> service !in r.calls
    ensures IsAvailable(m, service, now) && adapters(service, text).Ok? ==>
              r == Run(Success(adapters(service, text).text, service), CheckAvailable(m, service, now).limits, [service])
    ensures r.outcome.Success? ==>
              && r.outcome.service in r.calls
              && adapters(r.outcome.service, text) == Ok(r.outcome.translation)
              && (Truthy(adapters(r.outcome.service, text)) || r.outcome.service == service)
    ensures !IsAvailable(m, service, now) ==> r == TryAll(m, now, adapters, text)
    ensures r.outcome.Failure? ==> r.outcome.error == AllServicesFailed
    ensures r.outcome.Failure? ==>
              && (forall k :: k in Priority && IsAvailable(m, k, now) ==> k in r.calls)
              && (forall k :: k in r.calls ==> !Truthy(adapters(k, text)))
    ensures r.outcome.Success? && r.outcome.service != service ==>
              forall k :: k in Priority && IsAvailable(m, k, now) && IndexOf(Priority, k) < IndexOf(Priority, r.outcome.service) ==>
                !Truthy(adapters(k, text))
    ensures forall k :: k !in r.calls ==> SameOn(m, r.limits, k)
    ensures forall k :: k in r.calls ==> (k in r.limits <==> RateLimited(adapters(k, text)))
    ensures forall k :: k in r.calls && k in r.limits ==> r.limits[k] == now
  {
    var chk := CheckAvailable(m, service, now);
    if !chk.available then
      TryAllSemantics(m, now, adapters, text);
      TryAll(m, now, adapters, text)
    else
      var a := adapters(service, text);
      if a.Ok? then Run(Success(a.text, service), chk.limits, [service])
      else FailedThenScan(service, a, m, now, adapters, text)
  }

  /** The scan's outcome in terms of the map it starts from: a failure has
      invoked every available provider and found no non-empty text, and the
      provider that answers is the first available one in priority with a
      non-empty text. */
  lemma TryAllSemantics(m: Limits, now: int, adapters: Adapters, text: string)
    ensures var r := TryAll(m, now, adapters, text);
            r.outcome.Failure? ==>
              && (forall k :: k in Priority && IsAvailable(m, k, now) ==> k in r.calls)
              && (forall k :: k in r.calls ==> !Truthy(adapters(k, text)))
    ensures var r := TryAll(m, now, adapters, text);
            r.outcome.Success? ==>
              && r.outcome.service in Priority
              && forall k :: k in Priority && IsAvailable(m, k, now) && IndexOf(Priority, k) < IndexOf(Priority, r.outcome.service) ==>
                   !Truthy(adapters(k, text))
  {
    var r := TryAll(m, now, adapters, text);
    if r.outcome.Failure? {
      TryAllExhausted(m, now, adapters, text);
      forall k | k in Priority && IsAvailable(m, k, now) ensures k in r.calls {
        assert multiset(r.calls)[k] == 1;
      }
    } else {
      TryAllFirstSuccess(m, now, adapters, text);
    }
  }

  /** The requested provider was available and raised: its failure is
      recorded as the scan would record it, then the scan runs. */
  function FailedThenScan(service: Key, a: AdapterResult, m: Limits, now: int, adapters: Adapters, text: string): (r: Run)
    requires service in Priority && IsAvailable(m, service, now)
    requires a == adapters(service, text) && a.Err?
    ensures forall k :: k in r.calls ==> k in Priority && IsAvailable(m, k, now)
    ensures |r.calls| > 0 && r.calls[0] == service
    ensures r.outcome.Success? ==>
              && r.outcome.service in r.calls
              && Truthy(adapters(r.outcome.service, text))
              && adapters(r.outcome.service, text) == Ok(r.outcome.translation)
    ensures r.outcome.Failure? ==> r.outcome.error == AllServicesFailed
    ensures r.outcome.Failure? ==>
              && (forall k :: k in Priority && IsAvailable(m, k, now) ==> k in r.calls)
              && (forall k :: k in r.calls ==> !Truthy(adapters(k, text)))
    ensures r.outcome.Success? ==>
              && r.outcome.service != service
              && forall k :: k in Priority && IsAvailable(m, k, now) && IndexOf(Priority, k) < IndexOf(Priority, r.outcome.service) ==>
                   !Truthy(adapters(k, text))
    ensures forall k :: k !in r.calls ==> SameOn(m, r.limits, k)
    ensures forall k :: k in r.calls ==> (k in r.limits <==> RateLimited(adapters(k, text)))
    ensures forall k :: k in r.calls && k in r.limits ==> r.limits[k] == now
  {
    var m' := AfterFailure(m, service, now, a);
    var rest := TryAll(m', now, adapters, text);
    ScanAfterFailure(service, m, now, adapters, text);
    Run(rest.outcome, rest.limits, [service] + rest.calls)
  }

  /** The scan that follows a failure of the requested provider starts from
      a map that differs from `m` only in that provider's record, so when it
      fails it has invoked every other provider available in `m`, and when it
      succeeds no provider available in `m` and earlier in priority than the
      one that answers had a non-empty text. */
  lemma ScanAfterFailure(service: Key, m: Limits, now: int, adapters: Adapters, text: string)
    requires service in Priority && IsAvailable(m, service, now) && adapters(service, text).Err?
    ensures var rest := TryAll(AfterFailure(m, service, now, adapters(service, text)), now, adapters, text);
            rest.outcome.Failure? ==>
              && (forall k :: k in Priority && IsAvailable(m, k, now) && k != service ==> k in rest.calls)
              && (forall k :: k in rest.calls ==> !Truthy(adapters(k, text)))
    ensures var rest := TryAll(AfterFailure(m, service, now, adapters(service, text)), now, adapters, text);
            rest.outcome.Success? ==>
              && rest.outcome.service != service
              && rest.outcome.service in Priority
              && forall k :: k in Priority && IsAvailable(m, k, now) && IndexOf(Priority, k) < IndexOf(Priority, rest.outcome.service) ==>
                   !Truthy(adapters(k, text))
  {
    var m' := AfterFailure(m, service, now, adapters(service, text));
    var rest := TryAll(m', now, adapters, text);
    assert forall k :: k != service && IsAvailable(m, k, now) ==> IsAvailable(m', k, now) by {
      forall k | k != service && IsAvailable(m, k, now) ensures IsAvailable(m', k, now) {
        AvailableFrame(m, m', k, now);
      }
    }
    if rest.outcome.Failure? {
      TryAllExhausted(m', now, adapters, text);
      forall k | k in Priority && IsAvailable(m, k, now) && k != service ensures k in rest.calls {
        assert multiset(rest.calls)[k] == 1;
      }
    } else {
      TryAllFirstSuccess(m', now, adapters, text);
    }
  }

  /** After the requested provider raises, the request goes on exactly as
      the scan from the map that records its failure, with that one call in
      front. */
  lemma FailureHandsOver(service: string, m: Limits, now: int, adapters: Adapters, text: string)
    requires service in Priority && IsAvailable(m, service, now) && adapters(service, text).Err?
    ensures var rest := TryAll(AfterFailure(m, service, now, adapters(service, text)), now, adapters, text);
            Dispatch(service, m, now, adapters, text) == Run(rest.outcome, rest.limits, [service] + rest.calls)
  {
    assert Dispatch(service, m, now, adapters, text) == FailedThenScan(service, adapters(service, text), m, now, adapters, text);
  }

  /** A provider on cooldown is handled exactly as "auto". */
  lemma CooldownHandsOver(service: string, m: Limits, now: int, adapters: Adapters, text: string)
    requires service in Priority && !IsAvailable(m, service, now)
    ensures Dispatch(service, m, now, adapters, text) == Dispatch(Auto, m, now, adapters, text)
  {
  }

  /** The provider asked for fails with an error that is not a rate limit:
      it is invoked, then the scan runs from a map in which it has no record,
      so it is invoked a second time exactly when the scan reaches it: always
      when it is LibreTranslate, the first in priority, always when the scan
      fails, and, when the scan succeeds, exactly when the provider that
      answers comes after it in priority. */
  lemma OtherFailureRetried(service: string, m: Limits, now: int, adapters: Adapters, text: string)
    requires service in Priority && IsAvailable(m, service, now)
    requires adapters(service, text).Err? && !RateLimited(adapters(service, text))
    ensures var r := Dispatch(service, m, now, adapters, text);
            && r.calls[0] == service
            && (r.outcome.Failure? ==> multiset(r.calls)[service] == 2)
            && (service == Priority[0] ==> |r.calls| >= 2 && r.calls[1] == service)
            && service !in r.limits
    ensures var r := Dispatch(service, m, now, adapters, text);
            r.outcome.Success? ==>
              && r.outcome.service in Priority
              && (multiset(r.calls)[service] == 2 <==> IndexOf(Priority, service) < IndexOf(Priority, r.outcome.service))
  {
    var a := adapters(service, text);
    var m' := AfterFailure(m, service, now, a);
    var rest := TryAll(m', now, adapters, text);
    var r := Dispatch(service, m, now, adapters, text);
    assert r == Run(rest.outcome, rest.limits, [service] + rest.calls) by {
      assert r == FailedThenScan(service, a, m, now, adapters, text);
    }
    assert service !in m';
    Prepended(service, rest, r);
    if rest.outcome.Failure? {
      TryAllExhausted(m', now, adapters, text);
    }
    if service == Priority[0] {
      TryAllFirstCall(m', now, adapters, text);
    }
    if rest.outcome.Success? {
      RetriedBeforeWinner(service, m', now, adapters, text);
    }
    assert SameOn(m', rest.limits, service) || service in rest.calls;
  }

  /** What putting one call in front of a run changes, and what it keeps. */
  lemma Prepended(service: Key, rest: Run, r: Run)
    requires r == Run(rest.outcome, rest.limits, [service] + rest.calls)
    ensures r.outcome == rest.outcome && r.limits == rest.limits
    ensures r.calls[0] == service
    ensures |rest.calls| > 0 ==> |r.calls| >= 2 && r.calls[1] == rest.calls[0]
    ensures multiset(r.calls)[service] == 1 + multiset(rest.calls)[service]
  {
    CountCons(service, rest.calls);
  }

  /** When the scan after a failure succeeds, the failed provider (now
      without a record) appears in it once if it comes before the winner in
      priority, and not at all otherwise. */
  lemma RetriedBeforeWinner(service: Key, m': Limits, now: int, adapters: Adapters, text: string)
    requires service in Priority && service !in m' && !Truthy(adapters(service, text))
    ensures var rest := TryAll(m', now, adapters, text);
            rest.outcome.Success? ==>
              && rest.outcome.service in Priority
              && multiset(rest.calls)[service] == (if IndexOf(Priority, service) < IndexOf(Priority, rest.outcome.service) then 1 else 0)
  {
    var rest := TryAll(m', now, adapters, text);
    if rest.outcome.Success? {
      TryAllFirstSuccess(m', now, adapters, text);
      var s := rest.outcome.service;
      assert s != service;
      assert IsAvailable(m', service, now);
      if IndexOf(Priority, service) < IndexOf(Priority, s) {
        assert service in rest.calls;
        DistinctOnce(rest.calls, service);
      } else {
        assert service !in rest.calls;
        assert service !in multiset(rest.calls);
      }
    }
  }

  /** Putting `k` in front of `s` adds one occurrence of `k`. */
  lemma CountCons(k: Key, s: seq<Key>)
    ensures multiset([k] + s)[k] == 1 + multiset(s)[k]
  {
    assert multiset([k] + s) == multiset([k]) + multiset(s);
  }

  /** The provider asked for fails with a rate limit: it is invoked once, put
      on cooldown at `now`, and the scan that follows skips it. */
  lemma RateLimitedNotRetried(service: string, m: Limits, now: int, adapters: Adapters, text: string)
    requires service in Priority && IsAvailable(m, service, now)
    requires RateLimited(adapters(service, text))
    ensures var r := Dispatch(service, m, now, adapters, text);
            && r.calls[0] == service
            && multiset(r.calls)[service] == 1
            && service in r.limits && r.limits[service] == now
  {
    var a := adapters(service, text);
    var m' := AfterFailure(m, service, now, a);
    var rest := TryAll(m', now, adapters, text);
    assert Dispatch(service, m, now, adapters, text) == Run(rest.outcome, rest.limits, [service] + rest.calls) by {
      assert Dispatch(service, m, now, adapters, text) == FailedThenScan(service, a, m, now, adapters, text);
    }
    assert !IsAvailable(m', service, now);
    assert service !in rest.calls;
    CountCons(service, rest.calls);
  }

  /** A provider asked for by name is taken at its word: an empty text from
      it is returned as a success, whereas the scan never succeeds with an
      empty text. The four adapters as normalised in `Classifier` never
      answer an empty text, so with them this difference does not show; a
      whitespace-only answer is non-empty and accepted on both paths. */
  lemma EmptyAnswerAccepted(service: string, m: Limits, now: int, adapters: Adapters, text: string)
    requires service in Priority && IsAvailable(m, service, now)
    requires adapters(service, text) == Ok("")
    ensures Dispatch(service, m, now, adapters, text).outcome == Success("", service)
    ensures var r := Dispatch(Auto, m, now, adapters, text);
            r.outcome.Success? ==> r.outcome.translation != ""
  {
  }

  /** What `/api/translate` answers: the HTTP status and the run behind the
      JSON body. */
  datatype Answer = Answer(status: int, run: Run)

  /** `/api/translate` for the request text `raw`: the text is stripped; an
      empty one is refused with 400 before any provider is invoked; otherwise
      the selection runs on the stripped text, an unknown service is refused
      with 400, a success is 200 and a failure of every provider is 503. */
  function Translate(raw: string, service: string, m: Limits, now: int, adapters: Adapters): (a: Answer)
    ensures a.run.outcome == Failure(NoTextProvided) <==> AllSpace(raw)
    ensures AllSpace(raw) ==> a.run.calls == [] && a.run.limits == m
    ensures a.status == 200 <==> a.run.outcome.Success?
    ensures a.status == 400 <==> a.run.outcome in {Failure(NoTextProvided), Failure(InvalidService)}
    ensures a.status == 503 <==> a.run.outcome == Failure(AllServicesFailed)
    ensures a.run.outcome.Success? ==> Trim(raw) != "" && adapters(a.run.outcome.service, Trim(raw)) == Ok(a.run.outcome.translation)
    ensures !AllSpace(raw) ==> a.run == Dispatch(service, m, now, adapters, Trim(raw))
    ensures !AllSpace(raw) && service != Auto && service !in Priority ==>
              a.status == 400 && a.run == Run(Failure(InvalidService), m, [])
  {
    Respond(Trim(raw), service, m, now, adapters)
  }

  /** `/api/translate` once the request text is stripped. */
  function Respond(text: string, service: string, m: Limits, now: int, adapters: Adapters): (a: Answer)
    ensures a.run.outcome == Failure(NoTextProvided) <==> text == ""
    ensures text == "" ==> a.run.calls == [] && a.run.limits == m
    ensures a.status == 200 <==> a.run.outcome.Success?
    ensures a.status == 400 <==> a.run.outcome in {Failure(NoTextProvided), Failure(InvalidService)}
    ensures a.status == 503 <==> a.run.outcome == Failure(AllServicesFailed)
    ensures a.run.outcome.Success? ==> text != "" && adapters(a.run.outcome.service, text) == Ok(a.run.outcome.translation)
    ensures text != "" ==> a.run == Dispatch(service, m, now, adapters, text)
  {
    if text == "" then Answer(400, Run(Failure(NoTextProvided), m, []))
    else
      var r := Dispatch(service, m, now, adapters, text);
      if r.outcome.Success? then Answer(200, r)
      else if r.outcome.error == InvalidService then Answer(400, r)
      else Answer(503, r)
  }

  /** Surrounding whitespace makes no difference to `/api/translate`. */
  lemma TranslateIgnoresSurroundingSpace(raw: string, service: string, m: Limits, now: int, adapters: Adapters)
    ensures Translate(raw, service, m, now, adapters) == Translate(Trim(raw), service, m, now, adapters)
  {
    TrimTrimmed(Trim(raw));
    assert Trim(Trim(raw)) == Trim(raw);
  }
}
