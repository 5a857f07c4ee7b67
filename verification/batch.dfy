/** `/api/translate-batch` of feez/app.py: the lines of one request are
    handled one after the other, each with the availability map the previous
    ones left behind. */
module Batch {
  import opened Text
  import opened Tracker
  import opened Orchestrator
  import opened Routes

  const NoLinesProvided := "No lines provided"
  const EmptyLine := "Empty line"

  /** What the batch does with one line at one instant against one map. */
  type Handler = (string, int, Limits) -> Run

  /** Applying a handler. */
  function Handle(handle: Handler, line: string, now: int, m: Limits): Run {
    handle(line, now, m)
  }

  /** What the batch does with a run of lines: one outcome per line, the map
      after the last line, and the providers invoked for each line. */
  datatype BatchRun = BatchRun(results: seq<Outcome>, limits: Limits, calls: seq<seq<Key>>)

  /** One pass of the loop of `translate_batch`: a blank line gives "Empty
      line" and invokes nothing; any other line goes, unstripped, through the
      service selection. */
  function LineRun(line: string, service: string, m: Limits, now: int, adapters: Adapters): (r: Run)
    ensures r.outcome == Failure(EmptyLine) <==> AllSpace(line)
    ensures AllSpace(line) ==> r.calls == [] && r.limits == m
    ensures forall k :: k in r.calls ==> k in Priority && IsAvailable(m, k, now)
    ensures forall k :: k !in r.calls ==> SameOn(m, r.limits, k)
  {
    if Trim(line) == "" then Run(Failure(EmptyLine), m, [])
    else
      var r := Dispatch(service, m, now, adapters, line);
      assert r.outcome != Failure(EmptyLine) by {
        assert |EmptyLine| != |InvalidService| && |EmptyLine| != |AllServicesFailed|;
      }
      r
  }

  /** The loop of `translate_batch` over `lines`, the first of which is line
      number `at` of the request: line `j` is handled at its own instant
      `clock(at + j)`, with the map the lines before it left behind. */
  function RunLines(lines: seq<string>, at: nat, m: Limits, clock: nat -> int, handle: Handler): (b: BatchRun)
    ensures |b.results| == |lines| && |b.calls| == |lines|
    ensures |lines| > 0 ==> b.results[0] == Handle(handle, lines[0], clock(at), m).outcome
    decreases |lines|
  {
    if |lines| == 0 then BatchRun([], m, [])
    else
      var r := Handle(handle, lines[0], clock(at), m);
      var rest := RunLines(lines[1..], at + 1, r.limits, clock, handle);
      BatchRun([r.outcome] + rest.results, rest.limits, [r.calls] + rest.calls)
  }

  /** Every provider in `calls` is one of the four known ones. */
  predicate AllKnown(calls: seq<Key>) {
    forall k :: k in calls ==> k in Priority
  }

  /** The handler answers "Empty line" exactly for blank lines, and a blank
      line invokes nothing and changes no record. */
  ghost predicate BlankAware(handle: Handler) {
    forall line, now, m ::
      && (Handle(handle, line, now, m).outcome == Failure(EmptyLine) <==> AllSpace(line))
      && (AllSpace(line) ==> Handle(handle, line, now, m).calls == [] && Handle(handle, line, now, m).limits == m)
  }

  /** The handler invokes known providers only and changes the records of
      invoked providers only. */
  ghost predicate Confined(handle: Handler) {
    forall line, now, m ::
      && AllKnown(Handle(handle, line, now, m).calls)
      && forall k :: k !in Handle(handle, line, now, m).calls ==> SameOn(m, Handle(handle, line, now, m).limits, k)
  }

  /** Each line's result is "Empty line" exactly when the line is blank, and
      a blank line invokes no provider. */
  lemma {:induction false} RunLinesBlank(lines: seq<string>, at: nat, m: Limits, clock: nat -> int, handle: Handler)
    requires BlankAware(handle)
    ensures var b := RunLines(lines, at, m, clock, handle);
            && (forall j :: 0 <= j < |lines| ==> (b.results[j] == Failure(EmptyLine) <==> AllSpace(lines[j])))
            && (forall j :: 0 <= j < |lines| && AllSpace(lines[j]) ==> b.calls[j] == [])
    decreases |lines|
  {
    if |lines| > 0 {
      var b := RunLines(lines, at, m, clock, handle);
      var r := Handle(handle, lines[0], clock(at), m);
      RunLinesBlank(lines[1..], at + 1, r.limits, clock, handle);
      var rest := RunLines(lines[1..], at + 1, r.limits, clock, handle);
      forall j | 1 <= j < |lines|
        ensures (b.results[j] == Failure(EmptyLine) <==> AllSpace(lines[j]))
        ensures AllSpace(lines[j]) ==> b.calls[j] == []
      {
        assert b.results[j] == rest.results[j - 1] && b.calls[j] == rest.calls[j - 1] && lines[j] == lines[1..][j - 1];
      }
    }
  }

  /** Line `j` invokes known providers only. */
  lemma {:induction false} RunLinesKnownAt(lines: seq<string>, at: nat, m: Limits, clock: nat -> int, handle: Handler, j: nat)
    requires Confined(handle) && j < |lines|
    ensures AllKnown(RunLines(lines, at, m, clock, handle).calls[j])
    decreases j
  {
    var r := Handle(handle, lines[0], clock(at), m);
    if j > 0 {
      RunLinesKnownAt(lines[1..], at + 1, r.limits, clock, handle, j - 1);
    }
  }

  /** Only the four known providers are ever invoked. */
  lemma RunLinesKnown(lines: seq<string>, at: nat, m: Limits, clock: nat -> int, handle: Handler)
    requires Confined(handle)
    ensures var b := RunLines(lines, at, m, clock, handle);
            forall j :: 0 <= j < |lines| ==> AllKnown(b.calls[j])
  {
    forall j | 0 <= j < |lines| ensures AllKnown(RunLines(lines, at, m, clock, handle).calls[j]) {
      RunLinesKnownAt(lines, at, m, clock, handle, j);
    }
  }

  /** A provider invoked for no line keeps its record through the batch. */
  lemma {:induction false} RunLinesFrame(lines: seq<string>, at: nat, m: Limits, clock: nat -> int, handle: Handler, k: Key)
    requires Confined(handle)
    requires forall j :: 0 <= j < |lines| ==> k !in RunLines(lines, at, m, clock, handle).calls[j]
    ensures SameOn(m, RunLines(lines, at, m, clock, handle).limits, k)
    decreases |lines|
  {
    if |lines| > 0 {
      var b := RunLines(lines, at, m, clock, handle);
      var r := Handle(handle, lines[0], clock(at), m);
      var rest := RunLines(lines[1..], at + 1, r.limits, clock, handle);
      assert k !in b.calls[0];
      forall j | 0 <= j < |lines| - 1 ensures k !in rest.calls[j] {
        assert rest.calls[j] == b.calls[j + 1];
      }
      RunLinesFrame(lines[1..], at + 1, r.limits, clock, handle, k);
    }
  }

  /** Running the lines in two parts, the second from the map the first left
      behind, is running them all at once. */
  lemma {:induction false} RunLinesAppend(xs: seq<string>, ys: seq<string>, at: nat, m: Limits, clock: nat -> int, handle: Handler)
    ensures var bx := RunLines(xs, at, m, clock, handle);
            var rys := RunLines(ys, at + |xs|, bx.limits, clock, handle);
            RunLines(xs + ys, at, m, clock, handle)
              == BatchRun(bx.results + rys.results, rys.limits, bx.calls + rys.calls)
    decreases |xs|
  {
    if |xs| == 0 {
      AppendNothing(xs, ys, at, m, clock, handle);
    } else {
      var r := Handle(handle, xs[0], clock(at), m);
      RunLinesAppend(xs[1..], ys, at + 1, r.limits, clock, handle);
      AppendStep(xs, ys, at, m, clock, handle);
    }
  }

  /** The batch is a left fold over its lines: one more line at the end is
      handled at its own instant with the map every earlier line left
      behind, and adds its result and calls at the end. */
  lemma RunLinesSnoc(xs: seq<string>, x: string, at: nat, m: Limits, clock: nat -> int, handle: Handler)
    ensures var before := RunLines(xs, at, m, clock, handle);
            var last := Handle(handle, x, clock(at + |xs|), before.limits);
            RunLines(xs + [x], at, m, clock, handle)
              == BatchRun(before.results + [last.outcome], last.limits, before.calls + [last.calls])
  {
    var before := RunLines(xs, at, m, clock, handle);
    RunLinesAppend(xs, [x], at, m, clock, handle);
    RunLinesSingle(x, at + |xs|, before.limits, clock, handle);
  }

  /** A batch of one line is that line's run. */
  lemma RunLinesSingle(line: string, at: nat, m: Limits, clock: nat -> int, handle: Handler)
    ensures var r := Handle(handle, line, clock(at), m);
            RunLines([line], at, m, clock, handle) == BatchRun([r.outcome], r.limits, [r.calls])
  {
    assert [line][1..] == [];
  }

  /** The inductive step of `RunLinesAppend`: the claim for the lines after
      the first, run from the map the first line left, gives the claim for all. */
  lemma AppendStep(xs: seq<string>, ys: seq<string>, at: nat, m: Limits, clock: nat -> int, handle: Handler)
    requires |xs| > 0
    requires var r := Handle(handle, xs[0], clock(at), m);
             var bx' := RunLines(xs[1..], at + 1, r.limits, clock, handle);
             var rys := RunLines(ys, at + 1 + |xs[1..]|, bx'.limits, clock, handle);
             RunLines(xs[1..] + ys, at + 1, r.limits, clock, handle)
               == BatchRun(bx'.results + rys.results, rys.limits, bx'.calls + rys.calls)
    ensures var bx := RunLines(xs, at, m, clock, handle);
            var rys := RunLines(ys, at + |xs|, bx.limits, clock, handle);
            RunLines(xs + ys, at, m, clock, handle)
              == BatchRun(bx.results + rys.results, rys.limits, bx.calls + rys.calls)
  {
    var zs := xs + ys;
    var r := Handle(handle, xs[0], clock(at), m);
    var bx := RunLines(xs, at, m, clock, handle);
    var bx' := RunLines(xs[1..], at + 1, r.limits, clock, handle);
    var rys := RunLines(ys, at + |xs|, bx.limits, clock, handle);
    var tail := RunLines(zs[1..], at + 1, r.limits, clock, handle);
    assert bx == BatchRun([r.outcome] + bx'.results, bx'.limits, [r.calls] + bx'.calls) by {
      RunLinesCons(xs, at, m, clock, handle);
    }
    assert tail == BatchRun(bx'.results + rys.results, rys.limits, bx'.calls + rys.calls) by {
      assert at + |xs| == at + 1 + |xs[1..]|;
      assert zs[1..] == xs[1..] + ys;
    }
    assert RunLines(zs, at, m, clock, handle) == BatchRun([r.outcome] + tail.results, tail.limits, [r.calls] + tail.calls) by {
      assert zs[0] == xs[0];
      RunLinesCons(zs, at, m, clock, handle);
    }
    Glue(r, bx, bx', rys, tail, RunLines(zs, at, m, clock, handle));
  }

  /** Running no lines first changes nothing. */
  lemma AppendNothing(xs: seq<string>, ys: seq<string>, at: nat, m: Limits, clock: nat -> int, handle: Handler)
    requires |xs| == 0
    ensures var bx := RunLines(xs, at, m, clock, handle);
            var rys := RunLines(ys, at + |xs|, bx.limits, clock, handle);
            RunLines(xs + ys, at, m, clock, handle)
              == BatchRun(bx.results + rys.results, rys.limits, bx.calls + rys.calls)
  {
    assert xs + ys == ys;
    var rys := RunLines(ys, at, m, clock, handle);
    assert [] + rys.results == rys.results && [] + rys.calls == rys.calls;
  }

  /** The bookkeeping step of `RunLinesAppend`: a first line `r` in front of
      `bx'` is `bx`, and in front of `bx'` followed by `rys` is `whole`, so
      `whole` is `bx` followed by `rys`. */
  lemma Glue(r: Run, bx: BatchRun, bx': BatchRun, rys: BatchRun, tail: BatchRun, whole: BatchRun)
    requires bx == BatchRun([r.outcome] + bx'.results, bx'.limits, [r.calls] + bx'.calls)
    requires tail == BatchRun(bx'.results + rys.results, rys.limits, bx'.calls + rys.calls)
    requires whole == BatchRun([r.outcome] + tail.results, tail.limits, [r.calls] + tail.calls)
    ensures whole == BatchRun(bx.results + rys.results, rys.limits, bx.calls + rys.calls)
  {
    ConcatAssoc([r.outcome], bx'.results, rys.results);
    ConcatAssoc([r.calls], bx'.calls, rys.calls);
  }

  /** A non-empty run of lines is its first line followed by the rest. */
  lemma RunLinesCons(lines: seq<string>, at: nat, m: Limits, clock: nat -> int, handle: Handler)
    requires |lines| > 0
    ensures var r := Handle(handle, lines[0], clock(at), m);
            var rest := RunLines(lines[1..], at + 1, r.limits, clock, handle);
            RunLines(lines, at, m, clock, handle) == BatchRun([r.outcome] + rest.results, rest.limits, [r.calls] + rest.calls)
  {
  }

  /** Concatenation of sequences is associative. */
  lemma ConcatAssoc<T>(a: seq<T>, b: seq<T>, c: seq<T>)
    ensures a + (b + c) == (a + b) + c
  {
  }

  /** The handler `translate_batch` uses for every line of a request. */
  function LineHandler(service: string, adapters: Adapters): (h: Handler)
    ensures BlankAware(h) && Confined(h)
  {
    (line, now, m) => LineRun(line, service, m, now, adapters)
  }

  /** What `/api/translate-batch` answers: a refusal, or 200 with one result
      per line. */
  datatype BatchAnswer = Rejected(status: int, error: string) | Accepted(status: int, batch: BatchRun)

  /** `/api/translate-batch`: an empty list is refused with 400; otherwise
      the answer is 200 whatever the lines came to, one result per line,
      "Empty line" exactly for the blank lines, which invoke nothing. */
  function TranslateBatch(lines: seq<string>, service: string, m: Limits, clock: nat -> int, adapters: Adapters): (a: BatchAnswer)
    ensures a.Rejected? <==> |lines| == 0
    ensures a.Rejected? ==> a == Rejected(400, NoLinesProvided)
    ensures a.Accepted? ==> a.status == 200 && |a.batch.results| == |lines| && |a.batch.calls| == |lines|
    ensures a.Accepted? ==> forall j :: 0 <= j < |lines| ==> (a.batch.results[j] == Failure(EmptyLine) <==> AllSpace(lines[j]))
    ensures a.Accepted? ==> forall j :: 0 <= j < |lines| && AllSpace(lines[j]) ==> a.batch.calls[j] == []
    ensures a.Accepted? ==> forall j :: 0 <= j < |lines| ==> AllKnown(a.batch.calls[j])
  {
    if |lines| == 0 then Rejected(400, NoLinesProvided)
    else
      var h := LineHandler(service, adapters);
      RunLinesBlank(lines, 0, m, clock, h);
      RunLinesKnown(lines, 0, m, clock, h);
      Accepted(200, RunLines(lines, 0, m, clock, h))
  }

  /** The batch hands a line to the service selection as it is, surrounding
      whitespace included. */
  lemma BatchPassesRawLine(line: string, service: string, m: Limits, clock: nat -> int, adapters: Adapters)
    requires !AllSpace(line)
    ensures var r := Dispatch(service, m, clock(0), adapters, line);
            TranslateBatch([line], service, m, clock, adapters) == Accepted(200, BatchRun([r.outcome], r.limits, [r.calls]))
  {
    var h := LineHandler(service, adapters);
    var r := Handle(h, line, clock(0), m);
    assert r == LineRun(line, service, m, clock(0), adapters);
    assert Trim(line) != "";
    assert r == Dispatch(service, m, clock(0), adapters, line);
    assert [line][1..] == [];
    assert RunLines([line], 0, m, clock, h) == BatchRun([r.outcome], r.limits, [r.calls]);
  }

  /** For a line with no surrounding whitespace the batch and `/api/translate`
      (with the batch's instant for that line) come to the same outcome. */
  lemma BatchAgreesWithTranslate(line: string, service: string, m: Limits, clock: nat -> int, adapters: Adapters)
    requires IsTrimmed(line) && line != ""
    ensures TranslateBatch([line], service, m, clock, adapters).batch.results
         == [Translate(line, service, m, clock(0), adapters).run.outcome]
  {
    TrimTrimmed(line);
    assert !AllSpace(line);
    BatchPassesRawLine(line, service, m, clock, adapters);
  }

  /** With an unknown service the batch still answers 200: every blank line
      is "Empty line", every other line "Invalid service", nothing is invoked
      and no record changes. */
  lemma InvalidServiceLines(lines: seq<string>, at: nat, service: string, m: Limits, clock: nat -> int, adapters: Adapters)
    requires service != Auto && service !in Priority
    ensures var b := RunLines(lines, at, m, clock, LineHandler(service, adapters));
            && b.limits == m
            && forall j :: 0 <= j < |lines| ==>
                 && b.calls[j] == []
                 && b.results[j] == (if AllSpace(lines[j]) then Failure(EmptyLine) else Failure(InvalidService))
  {
    var h := LineHandler(service, adapters);
    forall line, now ensures Handle(h, line, now, m) == Refusal(line, m) {
      InvalidServiceLine(line, service, m, now, adapters);
    }
    RunLinesRefused(lines, at, m, clock, h);
  }

  /** The answer to a line when the service is unknown. */
  function Refusal(line: string, m: Limits): Run {
    Run(if AllSpace(line) then Failure(EmptyLine) else Failure(InvalidService), m, [])
  }

  /** A handler that refuses every line against `m` refuses the whole batch,
      leaving `m` as it was. */
  lemma {:induction false} RunLinesRefused(lines: seq<string>, at: nat, m: Limits, clock: nat -> int, handle: Handler)
    requires forall line, now :: Handle(handle, line, now, m) == Refusal(line, m)
    ensures var b := RunLines(lines, at, m, clock, handle);
            && b.limits == m
            && forall j :: 0 <= j < |lines| ==> b.calls[j] == [] && b.results[j] == Refusal(lines[j], m).outcome
    decreases |lines|
  {
    if |lines| > 0 {
      var b := RunLines(lines, at, m, clock, handle);
      assert Handle(handle, lines[0], clock(at), m) == Refusal(lines[0], m);
      RunLinesRefused(lines[1..], at + 1, m, clock, handle);
      var rest := RunLines(lines[1..], at + 1, m, clock, handle);
      forall j | 1 <= j < |lines| ensures b.calls[j] == [] && b.results[j] == Refusal(lines[j], m).outcome {
        assert b.results[j] == rest.results[j - 1] && b.calls[j] == rest.calls[j - 1] && lines[j] == lines[1..][j - 1];
      }
    }
  }

  /** One line with an unknown service: "Empty line" when blank, otherwise
      "Invalid service"; nothing is invoked and no record changes. */
  lemma InvalidServiceLine(line: string, service: string, m: Limits, now: int, adapters: Adapters)
    requires service != Auto && service !in Priority
    ensures LineRun(line, service, m, now, adapters) == Refusal(line, m)
  {
  }

  /** An unknown service is refused with 400 by `/api/translate` (for any
      text that is not blank) but gets 200 from the batch, line by line. */
  lemma InvalidServiceRoutesDiffer(raw: string, lines: seq<string>, service: string, m: Limits, now: int, clock: nat -> int, adapters: Adapters)
    requires service != Auto && service !in Priority
    requires !AllSpace(raw) && |lines| > 0
    ensures Translate(raw, service, m, now, adapters) == Answer(400, Run(Failure(InvalidService), m, []))
    ensures var a := TranslateBatch(lines, service, m, clock, adapters);
            && a.Accepted? && a.status == 200 && a.batch.limits == m
            && forall j :: 0 <= j < |lines| && !AllSpace(lines[j]) ==> a.batch.results[j] == Failure(InvalidService)
  {
    InvalidServiceLines(lines, 0, service, m, clock, adapters);
  }
}
