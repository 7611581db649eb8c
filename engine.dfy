/**
 * The download engine: the chunk loop of `download`, which appends each
 * chunk to a temporary file, counts the bytes, calls the progress callback
 * and keeps the one-second speed samples, and the commit decisions taken
 * once the body has ended (final name, rename on collision, size warning,
 * MD5 verdict). The HTTP body is the sequence of values `url.read` returns,
 * the one-second timer is one "sample due" flag per iteration, and the
 * directory is its listing.
 */
module Engine {
  import opened Wrappers
  import opened Text
  import opened Names
  import opened Progress

  newtype byte = x: int | 0 <= x < 256
  type Chunk = seq<byte>

  /** The temporary file opened with mode 'wb'. */
  class TempFile {
    var data: seq<byte>
    var closed: bool

    constructor ()
      ensures data == [] && !closed
    {
      data := [];
      closed := false;
    }

    method Write(chunk: Chunk)
      requires !closed
      modifies this
      ensures data == old(data) + chunk && !closed
    {
      data := data + chunk;
    }

    method Close()
      modifies this
      ensures closed && data == old(data)
    {
      closed := true;
    }
  }

  // ------------------------------------------------------------- the body

  /** What the `i`-th `url.read(chunk_size)` returns: the given chunks, then
      the empty read of an exhausted body, for ever. */
  function Read(chunks: seq<Chunk>, i: nat): Chunk
  {
    if i < |chunks| then chunks[i] else []
  }

  /** Whether more than a second has passed since the last sample when the
      `i`-th iteration begins. */
  function Due(due: seq<bool>, i: nat): bool
  {
    i < |due| && due[i]
  }

  /** The number of reads before the first empty one, which ends the loop. */
  function StreamEnd(chunks: seq<Chunk>): (n: nat)
    ensures n <= |chunks|
    ensures forall k :: 0 <= k < n ==> |chunks[k]| > 0
    ensures |Read(chunks, n)| == 0
  {
    if |chunks| == 0 || |chunks[0]| == 0 then 0
    else
      var n := StreamEnd(chunks[1..]);
      assert forall k :: 1 <= k < n + 1 ==> chunks[k] == chunks[1..][k - 1];
      1 + n
  }

  /** The chunks that are written to the file. */
  function Body(chunks: seq<Chunk>): seq<Chunk>
  {
    chunks[..StreamEnd(chunks)]
  }

  /** The chunks laid end to end. */
  function Flatten(cs: seq<Chunk>): seq<byte>
  {
    if |cs| == 0 then [] else Flatten(cs[..|cs| - 1]) + cs[|cs| - 1]
  }

  /** `bytes_so_far` after adding `len(chunk)` for each chunk. */
  function SumLen(cs: seq<Chunk>): nat
  {
    if |cs| == 0 then 0 else SumLen(cs[..|cs| - 1]) + |cs[|cs| - 1]|
  }

  /** The counts handed to the callback, one per chunk written. */
  function RunningTotals(cs: seq<Chunk>): seq<nat>
  {
    seq(|cs|, k requires 0 <= k < |cs| => SumLen(cs[..k + 1]))
  }

  /** The number of iterations among the first `m` that take a speed sample. */
  function CountDue(due: seq<bool>, m: nat): nat
  {
    if m == 0 then 0 else CountDue(due, m - 1) + (if Due(due, m - 1) then 1 else 0)
  }

  /** The sample count is the number of iterations, among the first `m`,
      on which the one-second timer had run out. */
  lemma {:induction false} CountDueCounts(due: seq<bool>, m: nat)
    ensures CountDue(due, m) == |set k | 0 <= k < m && Due(due, k)|
  {
    if m > 0 {
      CountDueCounts(due, m - 1);
      var before := set k | 0 <= k < m - 1 && Due(due, k);
      var now := set k | 0 <= k < m && Due(due, k);
      if Due(due, m - 1) {
        assert now == before + {m - 1};
        assert m - 1 !in before;
      } else {
        assert now == before;
      }
    }
  }

  /** `reporthook` once chosen: the callback applied to `bytes_so_far`, with
      the total size and the bar width it was chosen for fixed. */
  type Hook = nat -> Result<Report, ReportError>

  /** The hook `download` chooses, bound to the total size and the bar width. */
  function ReportHook(reporter: Reporter, total: Option<int>, avail: int): (hook: Hook)
    requires reporter != Unknown ==> total.Some?
    ensures forall bytes: nat :: hook(bytes) == Call(reporter, bytes, total, avail)
  {
    (bytes: nat) => Call(reporter, bytes, total, avail)
  }

  /** The first count whose callback raises, or `|totals|` when none does. */
  function FirstFailing(hook: Hook, totals: seq<nat>): (k: nat)
    ensures k <= |totals|
    ensures forall j :: 0 <= j < k ==> hook(totals[j]).Success?
    ensures k < |totals| ==> hook(totals[k]).Failure?
  {
    if |totals| == 0 || hook(totals[0]).Failure? then 0
    else
      var k := FirstFailing(hook, totals[1..]);
      assert forall j :: 1 <= j < k + 1 ==> totals[j] == totals[1..][j - 1];
      1 + k
  }

  /** A full window of three speed samples whose sum, and so whose mean
      `sum(speed_list) / 3`, is positive. */
  predicate EtaWindow(w: seq<nat>)
  {
    |w| == 3 && w[0] + w[1] + w[2] > 0
  }

  /** The speed-sample bookkeeping after `sampleCount` samples: with a known
      size, full windows of three are taken out of `speed_list` for the ETA,
      so fewer than three wait; with an unknown size every sample stays.
      Only the very first sample can be a zero delta, so every ETA window has
      a positive mean and the ETA division never divides by zero. */
  predicate Window(known: bool, sampleCount: nat, speedList: seq<nat>, etaWindows: seq<seq<nat>>)
  {
    && (known ==> |speedList| < 3 && sampleCount == 3 * |etaWindows| + |speedList|)
    && (!known ==> |speedList| == sampleCount && |etaWindows| == 0)
    && (forall k :: 1 <= k < |speedList| ==> speedList[k] > 0)
    && (forall j :: 0 <= j < |etaWindows| ==> EtaWindow(etaWindows[j]))
  }

  /** One one-second sample: the bytes received since the previous sample
      join `speed_list`, the register moves to the current count, and with a
      known size a third sample closes the window, which then feeds the ETA. */
  method Sample(known: bool, bytesSoFar: nat, register: nat, sampleCount: nat,
                speedList: seq<nat>, etaWindows: seq<seq<nat>>)
    returns (register': nat, sampleCount': nat, speedList': seq<nat>, etaWindows': seq<seq<nat>>)
    requires Window(known, sampleCount, speedList, etaWindows)
    requires register <= bytesSoFar && (sampleCount > 0 ==> register < bytesSoFar)
    ensures register' == bytesSoFar && sampleCount' == sampleCount + 1
    ensures Window(known, sampleCount', speedList', etaWindows')
    ensures var s := speedList + [bytesSoFar - register];
      if known && |s| == 3 then |speedList'| == 0 && etaWindows' == etaWindows + [s]
      else speedList' == s && etaWindows' == etaWindows
  {
    var s := speedList + [bytesSoFar - register];
    register' := bytesSoFar;
    sampleCount' := sampleCount + 1;
    if known && |s| == 3 {
      speedList' := [];
      etaWindows' := etaWindows + [s];
      assert forall j :: 0 <= j < |etaWindows| ==> etaWindows'[j] == etaWindows[j];
    } else {
      speedList' := s;
      etaWindows' := etaWindows;
    }
  }

  /** How the loop ended: the body ran out, or the callback raised. */
  datatype Outcome = Finished | Raised(error: ReportError)

  /** The `while True` loop of `download`. `speedList` holds the byte deltas
      behind each speed sample (the speeds are these deltas over elapsed
      wall-clock time, which is not modelled) still waiting in `speed_list`,
      and `etaWindows` the full windows of three that produced an ETA. */
  method Stream(fh: TempFile, chunks: seq<Chunk>, due: seq<bool>, known: bool, hook: Hook)
    returns (outcome: Outcome, bytesSoFar: nat, reports: seq<Report>, sampleCount: nat,
             speedList: seq<nat>, etaWindows: seq<seq<nat>>)
    requires !fh.closed && fh.data == []
    modifies fh
    ensures !fh.closed
    ensures outcome.Finished? ==> Completed(chunks, hook, bytesSoFar, reports, fh.data)
    ensures outcome.Raised? ==> Aborted(chunks, hook, outcome.error, bytesSoFar, reports, fh.data)
    ensures sampleCount == CountDue(due, |reports| + 1)
    ensures Window(known, sampleCount, speedList, etaWindows)
  {
    ghost var body := Body(chunks);
    bytesSoFar := 0;
    reports := [];
    sampleCount := 0;
    speedList := [];
    etaWindows := [];
    var register: nat := 0;
    var i: nat := 0;
    while true
      invariant !fh.closed && Streamed(chunks, hook, i, bytesSoFar, reports, fh.data)
      invariant Sampling(due, known, i, bytesSoFar, register, sampleCount, speedList, etaWindows)
      decreases |body| - i
    {
      var chunk := Read(chunks, i);
      ReadWithinBody(chunks, i);
      if Due(due, i) {
        register, sampleCount, speedList, etaWindows :=
          Sample(known, bytesSoFar, register, sampleCount, speedList, etaWindows);
      }
      ghost var counted := bytesSoFar;
      bytesSoFar := bytesSoFar + |chunk|;
      if |chunk| == 0 {
        StreamedToEnd(chunks, hook, i, counted, reports, fh.data);
        outcome := Finished;
        break;
      }
      ghost var before := fh.data;
      fh.Write(chunk);
      var report := hook(bytesSoFar);
      if report.Failure? {
        StreamedToFailure(chunks, hook, i, counted, reports, before, chunk);
        outcome := Raised(report.error);
        break;
      }
      StreamedStep(chunks, hook, i, counted, reports, before, chunk, report.value);
      reports := reports + [report.value];
      i := i + 1;
    }
  }

  /** The sampling registers when the `i`-th iteration begins: one sample per
      due iteration so far, and the byte register behind the counter, strictly
      once a chunk has been counted. */
  ghost predicate Sampling(due: seq<bool>, known: bool, i: nat, bytesSoFar: nat, register: nat,
                           sampleCount: nat, speedList: seq<nat>, etaWindows: seq<seq<nat>>)
  {
    && sampleCount == CountDue(due, i)
    && register <= bytesSoFar && (i > 0 ==> register < bytesSoFar)
    && Window(known, sampleCount, speedList, etaWindows)
  }

  /** What the loop has done once `i` chunks have been written and reported. */
  ghost predicate Streamed(chunks: seq<Chunk>, hook: Hook,
                           i: nat, bytesSoFar: nat, reports: seq<Report>, data: seq<byte>)
  {
    var body := Body(chunks);
    && i <= |body|
    && bytesSoFar == SumLen(body[..i])
    && data == Flatten(body[..i])
    && |reports| == i
    && forall k :: 0 <= k < i ==> hook(RunningTotals(body)[k]) == Success(reports[k])
  }

  lemma StreamedStep(chunks: seq<Chunk>, hook: Hook, i: nat, bytesSoFar: nat, reports: seq<Report>,
                     data: seq<byte>, chunk: Chunk, report: Report)
    requires Streamed(chunks, hook, i, bytesSoFar, reports, data)
    requires i < |Body(chunks)| && chunk == Body(chunks)[i]
    requires hook(bytesSoFar + |chunk|) == Success(report)
    ensures Streamed(chunks, hook, i + 1, bytesSoFar + |chunk|, reports + [report], data + chunk)
  {
    var body := Body(chunks);
    PrefixStep(body, i);
  }

  /** The loop ran to the empty read: every chunk of the body was written
      and reported, no callback raised, and the counter and the file hold the
      whole body. */
  ghost predicate Completed(chunks: seq<Chunk>, hook: Hook,
                            bytesSoFar: nat, reports: seq<Report>, data: seq<byte>)
  {
    var body := Body(chunks);
    var totals := RunningTotals(body);
    && |reports| == |body| == FirstFailing(hook, totals)
    && (forall k :: 0 <= k < |reports| ==> hook(totals[k]) == Success(reports[k]))
    && bytesSoFar == SumLen(body)
    && data == Flatten(body)
  }

  /** The callback raised `error` on the chunk after the `|reports|` that
      were reported: that chunk is the first whose count makes the callback
      raise, and it was written and counted before the call. */
  ghost predicate Aborted(chunks: seq<Chunk>, hook: Hook,
                          error: ReportError, bytesSoFar: nat, reports: seq<Report>, data: seq<byte>)
  {
    var body := Body(chunks);
    var totals := RunningTotals(body);
    && |reports| == FirstFailing(hook, totals) < |body|
    && (forall k :: 0 <= k < |reports| ==> hook(totals[k]) == Success(reports[k]))
    && hook(totals[|reports|]) == Failure(error)
    && bytesSoFar == SumLen(body[..|reports| + 1])
    && data == Flatten(body[..|reports| + 1])
  }

  lemma StreamedToEnd(chunks: seq<Chunk>, hook: Hook,
                      i: nat, bytesSoFar: nat, reports: seq<Report>, data: seq<byte>)
    requires Streamed(chunks, hook, i, bytesSoFar, reports, data)
    requires i == |Body(chunks)|
    ensures Completed(chunks, hook, bytesSoFar, reports, data)
  {
    var body := Body(chunks);
    assert body[..i] == body;
    FirstFailingAt(hook, RunningTotals(body), i);
  }

  lemma StreamedToFailure(chunks: seq<Chunk>, hook: Hook,
                          i: nat, bytesSoFar: nat, reports: seq<Report>, before: seq<byte>, chunk: Chunk)
    requires Streamed(chunks, hook, i, bytesSoFar, reports, before)
    requires i < |Body(chunks)| && chunk == Body(chunks)[i]
    requires hook(bytesSoFar + |chunk|).Failure?
    ensures Aborted(chunks, hook, hook(bytesSoFar + |chunk|).error,
                    bytesSoFar + |chunk|, reports, before + chunk)
  {
    var body := Body(chunks);
    PrefixStep(body, i);
    FirstFailingAt(hook, RunningTotals(body), i);
  }

  /** The first failing call is at `i` when every call before it succeeds
      and the one at `i`, if any, fails. */
  lemma {:induction false} FirstFailingAt(hook: Hook, totals: seq<nat>, i: nat)
    requires i <= |totals|
    requires forall k :: 0 <= k < i ==> hook(totals[k]).Success?
    requires i < |totals| ==> hook(totals[i]).Failure?
    ensures FirstFailing(hook, totals) == i
  {
    if i > 0 {
      assert hook(totals[0]).Success?;
      assert forall k :: 0 <= k < i - 1 ==> totals[1..][k] == totals[k + 1];
      FirstFailingAt(hook, totals[1..], i - 1);
    }
  }

  /** The `i`-th read is the `i`-th chunk of the body while there is one,
      and the empty read that ends the loop right after it. */
  lemma ReadWithinBody(chunks: seq<Chunk>, i: nat)
    requires i <= |Body(chunks)|
    ensures i < |Body(chunks)| ==> Read(chunks, i) == Body(chunks)[i] && |Read(chunks, i)| > 0
    ensures i == |Body(chunks)| ==> |Read(chunks, i)| == 0
  {
  }

  /** One more chunk of the body, one more piece of the file and the count. */
  lemma PrefixStep(body: seq<Chunk>, i: nat)
    requires i < |body|
    ensures Flatten(body[..i + 1]) == Flatten(body[..i]) + body[i]
    ensures SumLen(body[..i + 1]) == SumLen(body[..i]) + |body[i]|
  {
    assert body[..i + 1] == body[..i] + [body[i]];
    FlattenAppend(body[..i], body[i]);
  }

  // ------------------------------------------------------------- the commit

  /** Why `download` ends with an exception instead of a path. */
  datatype DownloadError =
    | ReportFailed(report: ReportError)
    | HeaderFailed(header: HeaderError)
    | RenameFailed(rename: FixError)

  /** The MD5 message printed, if any. */
  datatype Md5Verdict = NotChecked | Passed | NotPassed

  /** The name the file is moved to inside the output directory, and the
      messages printed after the move. */
  datatype Saved = Saved(name: string, renamed: bool, sizeWarning: bool, md5: Md5Verdict)

  /** The provisional name: the URL's, or "." when the URL has none. */
  function ProvisionalName(urlPath: string): (name: string)
    ensures FilenameFromUrl(urlPath).Some? ==> name == FilenameFromUrl(urlPath).value
    ensures FilenameFromUrl(urlPath).None? ==> name == "."
  {
    match FilenameFromUrl(urlPath)
    case Some(n) => n
    case None => "."
  }

  /** The name chosen before collisions are looked at: a name from
      Content-Disposition overrides the provisional one. */
  function ChosenName(provisional: string, fields: map<string, string>): Result<string, HeaderError>
  {
    match FilenameFromHeaders(Mapping(fields))
    case Failure(e) => Failure(e)
    case Success(None) => Success(provisional)
    case Success(Some(n)) => Success(n)
  }

  /** The steps after the loop. `fields` are the response headers, `total`
      the Content-Length as the loop saw it, `digest` the hex MD5 of the
      moved file. */
  function Commit(provisional: string, fields: map<string, string>, listing: seq<string>,
                  total: Option<int>, bytesSoFar: nat, digest: string): (r: Result<Saved, DownloadError>)
    ensures ChosenName(provisional, fields).Failure? ==> r == Failure(HeaderFailed(ChosenName(provisional, fields).error))
    ensures ChosenName(provisional, fields).Success? ==>
      var chosen := ChosenName(provisional, fields).value;
      && (r.Failure? <==> Exists(listing, chosen) && '.' !in chosen)
      && (r.Failure? ==> r.error == RenameFailed(NoExtension))
      && (r.Success? ==> (r.value.renamed <==> Exists(listing, chosen)))
      && (r.Success? && !r.value.renamed ==> r.value.name == chosen)
    ensures r.Success? ==> !Exists(listing, r.value.name)
    ensures r.Success? ==> (r.value.sizeWarning <==> total.Some? && total.value != bytesSoFar)
    ensures r.Success? ==> (r.value.md5 == NotChecked <==> "Content-MD5" !in fields || |fields["Content-MD5"]| == 0)
    ensures r.Success? ==> (r.value.md5 == Passed <==> "Content-MD5" in fields && |fields["Content-MD5"]| > 0 && fields["Content-MD5"] == digest)
  {
    match ChosenName(provisional, fields)
    case Failure(e) => Failure(HeaderFailed(e))
    case Success(chosen) =>
      var sizeWarning := total.Some? && total.value != bytesSoFar;
      var md5 :=
        if "Content-MD5" !in fields || |fields["Content-MD5"]| == 0 then NotChecked
        else if fields["Content-MD5"] == digest then Passed
        else NotPassed;
      if Exists(listing, chosen) then
        match FixExistingCorrected(chosen, listing)
        case Failure(e) => Failure(RenameFailed(e))
        case Success(fixed) =>
          FixExistingCorrectedIsFresh(chosen, listing);
          SuffixedNameNotDot(fixed, chosen, listing);
          Success(Saved(fixed, true, sizeWarning, md5))
      else Success(Saved(chosen, false, sizeWarning, md5))
  }

  /** A name produced by the collision rule carries a '(' and so is neither
      "." nor "..". */
  lemma SuffixedNameNotDot(fixed: string, chosen: string, listing: seq<string>)
    requires FixExistingCorrected(chosen, listing) == Success(fixed)
    ensures fixed != "." && fixed != ".."
  {
    var (name, ext) := RSplitOnce(chosen, '.').value;
    var idx := IntendedNextIndex(IntendedSlots(listing, name));
    assert fixed == name + "(" + NatToString(idx) + ")." + ext;
    assert fixed[|name|] == '(';
  }

  /** An aborted stream, read in the terms of the chosen callback: the first
      raising count, its error, and the file up to and including its chunk. */
  lemma AbortedAt(chunks: seq<Chunk>, reporter: Reporter, total: Option<int>, avail: int,
                  error: ReportError, bytesSoFar: nat, reports: seq<Report>, data: seq<byte>)
    requires reporter != Unknown ==> total.Some?
    requires Aborted(chunks, ReportHook(reporter, total, avail), error, bytesSoFar, reports, data)
    ensures var body := Body(chunks);
      var totals := RunningTotals(body);
      var written := FirstFailing(ReportHook(reporter, total, avail), totals);
      && written < |body|
      && Call(reporter, totals[written], total, avail) == Failure(error)
      && data == Flatten(body[..written + 1])
  {
  }

  /** A completed stream, read in the terms of the chosen callback: no count
      raises, and the file and the counter hold the whole body. */
  lemma CompletedAll(chunks: seq<Chunk>, reporter: Reporter, total: Option<int>, avail: int,
                     bytesSoFar: nat, reports: seq<Report>, data: seq<byte>)
    requires reporter != Unknown ==> total.Some?
    requires Completed(chunks, ReportHook(reporter, total, avail), bytesSoFar, reports, data)
    ensures FirstFailing(ReportHook(reporter, total, avail), RunningTotals(Body(chunks))) == |Body(chunks)|
    ensures data == Flatten(Body(chunks)) && bytesSoFar == SumLen(Body(chunks))
  {
  }

  /** What `download` ends with, for the callback chosen: if a callback
      raises, the failure and the file up to and including the chunk it
      raised on; otherwise the commit of the whole body, with the file
      holding it. */
  ghost predicate Downloaded(urlPath: string, fields: map<string, string>, total: Option<int>,
                             chunks: seq<Chunk>, listing: seq<string>, reporter: Reporter, avail: int,
                             digest: string, r: Result<Saved, DownloadError>, data: seq<byte>)
    requires reporter != Unknown ==> total.Some?
  {
    var body := Body(chunks);
    var totals := RunningTotals(body);
    var written := FirstFailing(ReportHook(reporter, total, avail), totals);
    && (written < |body| ==>
          r == Failure(ReportFailed(Call(reporter, totals[written], total, avail).error))
          && data == Flatten(body[..written + 1]))
    && (written == |body| ==>
          r == Commit(ProvisionalName(urlPath), fields, listing, total, SumLen(body), digest)
          && data == Flatten(body))
  }

  /** `download(link, outdir)`: the reporter is chosen from the
      Content-Length and the console width, the body is streamed into a fresh
      temporary file, both handles are closed whatever happened, and on a
      normal end the file is committed. */
  method Download(urlPath: string, fields: map<string, string>, total: Option<int>,
                  chunks: seq<Chunk>, due: seq<bool>, listing: seq<string>,
                  consoleWidth: int, windows: bool, digest: string)
    returns (r: Result<Saved, DownloadError>, file: TempFile)
    ensures fresh(file) && file.closed
    ensures Downloaded(urlPath, fields, total, chunks, listing, ChooseReporter(total, consoleWidth),
                       AvailWidth(consoleWidth, windows), digest, r, file.data)
  {
    var provisional := ProvisionalName(urlPath);
    var reporter := ChooseReporter(total, consoleWidth);
    var avail := AvailWidth(consoleWidth, windows);
    var hook := ReportHook(reporter, total, avail);
    file := new TempFile();
    var outcome, bytesSoFar, reports, sampleCount, speedList, etaWindows :=
      Stream(file, chunks, due, total.Some?, hook);
    ghost var data := file.data;
    file.Close();
    assert file.data == data;
    if outcome.Raised? {
      AbortedAt(chunks, reporter, total, avail, outcome.error, bytesSoFar, reports, data);
      r := Failure(ReportFailed(outcome.error));
      assert Downloaded(urlPath, fields, total, chunks, listing, reporter, avail, digest, r, data);
      return;
    }
    CompletedAll(chunks, reporter, total, avail, bytesSoFar, reports, data);
    r := Commit(provisional, fields, listing, total, bytesSoFar, digest);
    assert Downloaded(urlPath, fields, total, chunks, listing, reporter, avail, digest, r, data);
  }

  // --------------------------------------------------------------- properties

  /** The counter is the file's length: `bytes_so_far` equals the number of
      bytes written. */
  lemma {:induction false} CounterIsFileLength(cs: seq<Chunk>)
    ensures SumLen(cs) == |Flatten(cs)|
  {
    if |cs| > 0 {
      CounterIsFileLength(cs[..|cs| - 1]);
    }
  }

  /** The callback sees strictly increasing counts, since every chunk
      written is non-empty. */
  lemma {:induction false} ReportedCountsIncrease(chunks: seq<Chunk>)
    ensures var totals := RunningTotals(Body(chunks));
      forall j, k :: 0 <= j < k < |totals| ==> totals[j] < totals[k]
  {
    var body := Body(chunks);
    var totals := RunningTotals(body);
    forall j, k | 0 <= j < k < |totals|
      ensures totals[j] < totals[k]
    {
      SumLenGrows(body, j + 1, k + 1);
    }
  }

  /** Over non-empty chunks, a longer prefix has a larger sum. */
  lemma {:induction false} SumLenGrows(cs: seq<Chunk>, m: nat, n: nat)
    requires m < n <= |cs|
    requires forall k :: 0 <= k < |cs| ==> |cs[k]| > 0
    ensures SumLen(cs[..m]) < SumLen(cs[..n])
  {
    assert cs[..n][..n - 1] == cs[..n - 1];
    if m < n - 1 {
      SumLenGrows(cs, m, n - 1);
    }
  }

  /** Appending a chunk appends its bytes to the file and its length to the count. */
  lemma {:induction false} FlattenAppend(cs: seq<Chunk>, c: Chunk)
    ensures Flatten(cs + [c]) == Flatten(cs) + c
    ensures SumLen(cs + [c]) == SumLen(cs) + |c|
  {
    assert (cs + [c])[..|cs|] == cs;
  }

  /** A header name that is not taken is used as it is, without a rename. */
  lemma HeaderNameUsedWhenFree(provisional: string, fields: map<string, string>, listing: seq<string>,
                               total: Option<int>, bytesSoFar: nat, digest: string, n: string)
    requires FilenameFromHeaders(Mapping(fields)) == Success(Some(n))
    requires !Exists(listing, n)
    ensures Commit(provisional, fields, listing, total, bytesSoFar, digest).Success?
    ensures Commit(provisional, fields, listing, total, bytesSoFar, digest).value.name == n
    ensures !Commit(provisional, fields, listing, total, bytesSoFar, digest).value.renamed
  {
  }

  /** Under the sampling invariant, a known size has turned every full
      three samples into an ETA window and keeps the remainder waiting; an
      unknown size keeps every sample and makes no window. */
  lemma WindowBound(known: bool, sampleCount: nat, speedList: seq<nat>, etaWindows: seq<seq<nat>>)
    requires Window(known, sampleCount, speedList, etaWindows)
    ensures known ==> |etaWindows| == sampleCount / 3 && |speedList| == sampleCount % 3
    ensures !known ==> |speedList| == sampleCount && |etaWindows| == 0
  {
  }
}
