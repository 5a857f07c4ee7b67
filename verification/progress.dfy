/** `translateToEnglish` of feez/static/script.js: the page sends the
    cleaned Finnish lines to `/api/translate` one at a time, collects one
    entry per line in `translations`, counts successes and failures, and
    can be cancelled between lines. */
module Progress {
  import opened Text
  import opened Lines
  import opened Orchestrator
  import opened Worksheet

  const TranslationFailed := "[Translation failed]"

  /** Why `translateToEnglish` stops before the loop, or the lines it goes on with. */
  datatype Start = NeedText | Busy | NoLines | Go(lines: seq<string>)

  /** The guards at the top of `translateToEnglish`: a blank Finnish area,
      a translation already running, and no line after cleaning. */
  function StartTranslation(finnishArea: string, busy: bool): (s: Start)
    ensures s == NeedText <==> AllSpace(finnishArea)
    ensures s == Busy <==> !AllSpace(finnishArea) && busy
    ensures s.Go? ==> |s.lines| >= 1 && s.lines == NonBlankLines(Trim(finnishArea))
    ensures s != NoLines
  {
    var text := Trim(finnishArea);
    if text == "" then NeedText
    else if busy then Busy
    else
      var lines := NonBlankLines(text);
      NonBlankTextHasLine(text);
      if |lines| == 0 then NoLines else Go(lines)
  }

  /** The entry a reply adds to `translations`. */
  function Entry(reply: Outcome): string {
    match reply
    case Success(t, _) => t
    case Failure(_) => TranslationFailed
  }

  /** When the user cancels: never, or just before line `at` is sent. */
  datatype Cancel = Never | Before(at: nat)

  /** Number of lines the loop sends before it sees the cancel flag. */
  function Processed(n: nat, cancel: Cancel): (k: nat)
    ensures k <= n
    ensures cancel.Never? ==> k == n
    ensures cancel.Before? ==> k == if cancel.at < n then cancel.at else n
  {
    match cancel
    case Never => n
    case Before(at) => if at < n then at else n
  }

  /** Number of successful replies among the first `k`. */
  function Successes(replies: seq<Outcome>, k: nat): (c: nat)
    requires k <= |replies|
    ensures c <= k
  {
    if k == 0 then 0
    else Successes(replies, k - 1) + (if replies[k - 1].Success? then 1 else 0)
  }

  datatype Tally = Tally(translations: seq<string>, successCount: nat, failCount: nat)

  /** The loop of `translateToEnglish`: `replies[i]` is what the page made of
      the answer for line `i` (a network or parse error being a failure).
      Each line sent adds exactly one entry, the translation or
      "[Translation failed]", and bumps exactly one of the two counters. */
  method Accumulate(lines: seq<string>, replies: seq<Outcome>, cancel: Cancel) returns (t: Tally)
    requires |replies| == |lines|
    ensures |t.translations| == Processed(|lines|, cancel)
    ensures forall i :: 0 <= i < |t.translations| ==> t.translations[i] == Entry(replies[i])
    ensures t.successCount + t.failCount == |t.translations|
    ensures t.successCount == Successes(replies, |t.translations|)
  {
    var n := Processed(|lines|, cancel);
    var translations: seq<string> := [];
    var successCount := 0;
    var failCount := 0;
    var i := 0;
    while i < |lines|
      invariant 0 <= i <= n
      invariant |translations| == i
      invariant forall j :: 0 <= j < i ==> translations[j] == Entry(replies[j])
      invariant successCount + failCount == i
      invariant successCount == Successes(replies, i)
    {
      if cancel.Before? && cancel.at <= i {
        break;
      }
      var reply := replies[i];
      PushEntry(translations, replies, i);
      if reply.Success? {
        translations := translations + [reply.translation];
        successCount := successCount + 1;
      } else {
        translations := translations + [TranslationFailed];
        failCount := failCount + 1;
      }
      i := i + 1;
    }
    t := Tally(translations, successCount, failCount);
  }

  /** Pushing the entry of reply `i` extends the entries of replies `0..i`. */
  lemma PushEntry(ts: seq<string>, replies: seq<Outcome>, i: nat)
    requires |ts| == i < |replies|
    requires forall j :: 0 <= j < i ==> ts[j] == Entry(replies[j])
    ensures forall j :: 0 <= j <= i ==> (ts + [Entry(replies[i])])[j] == Entry(replies[j])
  {
  }

  /** The closing message of `translateToEnglish`. */
  datatype Status = CancelledAfter(successes: nat) | AllTranslated(count: nat) | SomeFailed(successes: nat, failures: nat) | AllFailed

  /** The final status: a cancellation was already reported (with the number
      of successes so far); otherwise it depends on the two counters. */
  function FinalStatus(t: Tally, cancelled: bool): (s: Status)
    ensures cancelled <==> s.CancelledAfter?
    ensures s.AllTranslated? <==> !cancelled && t.failCount == 0
    ensures s.SomeFailed? <==> !cancelled && t.failCount > 0 && t.successCount > 0
    ensures s.AllFailed? <==> !cancelled && t.failCount > 0 && t.successCount == 0
    ensures s.CancelledAfter? ==> s.successes == t.successCount
    ensures s.AllTranslated? ==> s.count == t.successCount
    ensures s.SomeFailed? ==> s.successes == t.successCount && s.failures == t.failCount
  {
    if cancelled then CancelledAfter(t.successCount)
    else if t.failCount == 0 then AllTranslated(t.successCount)
    else if t.successCount > 0 then SomeFailed(t.successCount, t.failCount)
    else AllFailed
  }

  /** The first `k` replies are all successes exactly when all `k` count. */
  lemma {:induction false} SuccessesAll(replies: seq<Outcome>, k: nat)
    requires k <= |replies|
    ensures Successes(replies, k) == k <==> forall i :: 0 <= i < k ==> replies[i].Success?
  {
    if k > 0 {
      SuccessesAll(replies, k - 1);
    }
  }

  /** None of the first `k` replies counts exactly when all of them failed. */
  lemma {:induction false} SuccessesNone(replies: seq<Outcome>, k: nat)
    requires k <= |replies|
    ensures Successes(replies, k) == 0 <==> forall i :: 0 <= i < k ==> replies[i].Failure?
  {
    if k > 0 {
      SuccessesNone(replies, k - 1);
    }
  }

  /** The closing message of a run nobody cancelled, in terms of the replies:
      "all translated" with every line counted exactly when every reply is a
      success, "all failed" exactly when every reply is a failure, and
      otherwise both counts, which add up to the number of lines. */
  lemma StatusOfReplies(lines: seq<string>, replies: seq<Outcome>, t: Tally)
    requires |replies| == |lines| >= 1
    requires |t.translations| == Processed(|lines|, Never)
    requires t.successCount + t.failCount == |t.translations|
    requires t.successCount == Successes(replies, |t.translations|)
    ensures FinalStatus(t, false) == AllTranslated(|lines|) <==> forall i :: 0 <= i < |replies| ==> replies[i].Success?
    ensures FinalStatus(t, false) == AllFailed <==> forall i :: 0 <= i < |replies| ==> replies[i].Failure?
    ensures FinalStatus(t, false).SomeFailed? ==>
              && FinalStatus(t, false).successes + FinalStatus(t, false).failures == |lines|
              && (exists i :: 0 <= i < |replies| && replies[i].Success?)
              && (exists i :: 0 <= i < |replies| && replies[i].Failure?)
  {
    SuccessesAll(replies, |replies|);
    SuccessesNone(replies, |replies|);
  }

  /** Trimming every entry of a list of trimmed entries changes nothing. */
  lemma {:induction false} TrimAllFixed(ts: seq<string>)
    requires forall i :: 0 <= i < |ts| ==> IsTrimmed(ts[i])
    ensures TrimAll(ts) == ts
  {
    forall i | 0 <= i < |ts| ensures TrimAll(ts)[i] == ts[i] {
      TrimTrimmed(ts[i]);
    }
  }

  /** Dropping empty entries from a list without any changes nothing. */
  lemma {:induction false} DropEmptyFixed(ts: seq<string>)
    requires forall i :: 0 <= i < |ts| ==> ts[i] != ""
    ensures DropEmpty(ts) == ts
  {
    if |ts| > 0 {
      DropEmptyFixed(ts[1..]);
    }
  }

  /** The English area is filled with `translations.join('\n')`; read back
      the way the worksheet reads a text area, it gives the entries again, as
      long as each is a non-empty, trimmed, single line. */
  lemma EnglishAreaRoundTrip(translations: seq<string>)
    requires |translations| >= 1
    requires forall i :: 0 <= i < |translations| ==>
               translations[i] != "" && IsTrimmed(translations[i]) && '\n' !in translations[i]
    ensures ReadLines(Join(translations, '\n')) == translations
  {
    JoinTrimmed(translations, '\n');
    SplitJoin(translations, '\n');
    TrimAllFixed(translations);
    DropEmptyFixed(translations);
  }

  /** Dropping empty entries from a list that has one makes it shorter. */
  lemma {:induction false} DropEmptyShorter(ts: seq<string>)
    requires "" in ts
    ensures |DropEmpty(ts)| < |ts|
  {
    if ts[0] != "" {
      assert "" in ts[1..];
      DropEmptyShorter(ts[1..]);
    } else {
      assert |DropEmpty(ts[1..])| <= |ts[1..]| by {
        DropEmptyNoLonger(ts[1..]);
      }
    }
  }

  /** Dropping entries never makes a list longer. */
  lemma {:induction false} DropEmptyNoLonger(ts: seq<string>)
    ensures |DropEmpty(ts)| <= |ts|
  {
    if |ts| > 0 {
      DropEmptyNoLonger(ts[1..]);
    }
  }

  /** A blank translation (a provider may answer with whitespace only, which
      the server accepts as a non-empty string) is written to the English
      area as a blank line, and reading the area back line by line loses it:
      fewer English lines come back than were written. When the first and
      last entries are non-empty and trimmed, the worksheet's own reading of
      the area loses it in the same way. */
  lemma EmptyTranslationLost(translations: seq<string>)
    requires |translations| >= 1
    requires forall i :: 0 <= i < |translations| ==> '\n' !in translations[i]
    requires exists i :: 0 <= i < |translations| && AllSpace(translations[i])
    ensures |NonBlankLines(Join(translations, '\n'))| < |translations|
    ensures && translations[0] != "" && IsTrimmed(translations[0])
            && translations[|translations| - 1] != "" && IsTrimmed(translations[|translations| - 1])
            ==> |ReadLines(Join(translations, '\n'))| < |translations|
  {
    var k :| 0 <= k < |translations| && AllSpace(translations[k]);
    SplitJoin(translations, '\n');
    assert TrimAll(translations)[k] == "";
    DropEmptyShorter(TrimAll(translations));
    if && translations[0] != "" && IsTrimmed(translations[0])
       && translations[|translations| - 1] != "" && IsTrimmed(translations[|translations| - 1]) {
      JoinTrimmed(translations, '\n');
    }
  }
}
