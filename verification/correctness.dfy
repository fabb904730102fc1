/** The bookkeeping half of `CorrectnessTest.ServeHTTP` in `science/correctness.go`: what happens
    once both backends have been asked. A failed forward is replaced by a sentinel dump and
    status code, every request is counted, and a mismatch bumps the diff counter and one cell
    of the code matrix and appends one record to the diff log.

    The shared `Res` value and its mutex become an explicit `Stats` value: one call is one
    atomic transition from the old statistics to the new ones. */
module Correctness {
  import opened Compare
  import opened Tally

  /** The header names stripped from both backends' responses before they are dumped. */
  const ForwardCleanup: seq<string> := ["Date", "Content-Length", "Transfer-Encoding"]

  /** The dump that stands in for the control response when forwarding to it failed. */
  const ControlFailureDump: string := "Error forwarding request Control"

  /** The dump that stands in for the experiment response when forwarding to it failed. */
  const ExperimentFailureDump: string := "Error forwarding request Exp"

  /** The status code that stands in for a failed forward on either side. */
  const FailureCode: int := -1

  /** The pieces of one diff-log record. */
  const DiffOpen: string := "=== diff ===\n"
  const DiffSeparator: string := "\n---\n"
  const DiffClose: string := "\n============\n"

  /** What forwarding to one backend returned: the dump and status code of its cleaned
      response, or an error. */
  datatype Forwarded = Forwarded(dump: string, code: int) | ForwardError

  datatype Side = Control | Experiment

  /** The dump and status code one side contributes to the comparison. */
  datatype Outcome = Outcome(dump: string, code: int)

  /** The running statistics `Res`: requests seen, diffs seen, the code matrix indexed by
      experiment code and then control code, and the diff log, one record per entry. */
  datatype Stats = Stats(reqs: nat, diffs: nat, codes: map<int, map<int, nat>>, log: seq<string>)

  /** The statistics before the first request. */
  const Zero: Stats := Stats(0, 0, map[], [])

  /** One request as the handler sees it after forwarding: the request dump and what each
      backend returned. */
  datatype Exchange = Exchange(reqDump: string, control: Forwarded, experiment: Forwarded)

  /** Sentinel substitution: a failed forward becomes that side's failure dump and code -1. */
  function Settle(side: Side, f: Forwarded): Outcome {
    match f
    case Forwarded(dump, code) => Outcome(dump, code)
    case ForwardError =>
      Outcome(if side == Control then ControlFailureDump else ExperimentFailureDump, FailureCode)
  }

  /** The test that decides whether a request is recorded as a diff. */
  predicate IsMismatch(control: Outcome, experiment: Outcome) {
    control.dump != experiment.dump || control.code != experiment.code
  }

  /** The count in matrix cell `[experiment][control]`; a cell never created reads as 0. */
  function Cell(codes: map<int, map<int, nat>>, experiment: int, control: int): nat {
    if experiment in codes && control in codes[experiment] then codes[experiment][control] else 0
  }

  /** The sum of every cell of the code matrix. */
  ghost function MatrixTotal(codes: map<int, map<int, nat>>): nat {
    Total(RowTotals(codes))
  }

  /** The sum of each row of the code matrix, by experiment code. */
  ghost function RowTotals(codes: map<int, map<int, nat>>): map<int, nat> {
    map e | e in codes :: Total(codes[e])
  }

  /** The diff-log record of one mismatch: an opening line, the request dump, a separator, the
      control dump, a separator, the experiment dump and a closing line, each piece found at
      its own offset. */
  function DiffRecord(req: string, control: string, experiment: string): (r: string)
    ensures |r| == |DiffOpen| + |req| + |DiffSeparator| + |control| + |DiffSeparator| + |experiment| + |DiffClose|
    ensures r[..|DiffOpen|] == DiffOpen
    ensures var a := |DiffOpen|;
            r[a..a + |req|] == req
    ensures var b := |DiffOpen| + |req|;
            r[b..b + |DiffSeparator|] == DiffSeparator
    ensures var c := |DiffOpen| + |req| + |DiffSeparator|;
            r[c..c + |control|] == control
    ensures var d := |DiffOpen| + |req| + |DiffSeparator| + |control|;
            r[d..d + |DiffSeparator|] == DiffSeparator
    ensures var e := |DiffOpen| + |req| + |DiffSeparator| + |control| + |DiffSeparator|;
            r[e..e + |experiment|] == experiment
    ensures r[|r| - |DiffClose|..] == DiffClose
  {
    DiffOpen + req + DiffSeparator + control + DiffSeparator + experiment + DiffClose
  }

  /** The lazily created matrix cell `[experiment][control]` goes up by one (a first
      occurrence ends at 1); every other cell and every other row is unchanged. */
  function Bump(codes: map<int, map<int, nat>>, experiment: int, control: int): (r: map<int, map<int, nat>>)
    ensures Cell(r, experiment, control) == Cell(codes, experiment, control) + 1
    ensures forall e, c :: e != experiment || c != control ==> Cell(r, e, c) == Cell(codes, e, c)
    ensures r.Keys == codes.Keys + {experiment}
    ensures r[experiment].Keys == (if experiment in codes then codes[experiment].Keys else {}) + {control}
    ensures forall e :: e in codes && e != experiment ==> r[e] == codes[e]
  {
    var row: map<int, nat> := if experiment in codes then codes[experiment] else map[];
    codes[experiment := row[control := Cell(codes, experiment, control) + 1]]
  }

  /** The locked section of the handler: count the request and, on a mismatch, count the diff,
      bump cell `[experiment code][control code]` and append the record. Without a mismatch
      only the request counter moves. */
  function Record(s: Stats, req: string, control: Outcome, experiment: Outcome): (r: Stats)
    ensures r.reqs == s.reqs + 1
    ensures IsMismatch(control, experiment) ==>
              && r.diffs == s.diffs + 1
              && Cell(r.codes, experiment.code, control.code) == Cell(s.codes, experiment.code, control.code) + 1
              && (forall e, c :: e != experiment.code || c != control.code ==> Cell(r.codes, e, c) == Cell(s.codes, e, c))
              && r.log == s.log + [DiffRecord(req, control.dump, experiment.dump)]
    ensures !IsMismatch(control, experiment) ==>
              r.diffs == s.diffs && r.codes == s.codes && r.log == s.log
  {
    var counted := s.(reqs := s.reqs + 1);
    if IsMismatch(control, experiment) then
      counted.(codes := Bump(s.codes, experiment.code, control.code),
               diffs := s.diffs + 1,
               log := s.log + [DiffRecord(req, control.dump, experiment.dump)])
    else counted
  }

  /** The handler after forwarding: sentinel substitution on each side, then `Record`. A
      request is a diff exactly when the settled dumps or codes differ; a request on which both
      forwards failed is always a diff, filed under cell `[-1][-1]`; a request on which exactly
      one forward failed is a diff whenever the other side has a real status code. */
  function Serve(s: Stats, x: Exchange): (r: Stats)
    ensures r.reqs == s.reqs + 1
    ensures var c, e := Settle(Control, x.control), Settle(Experiment, x.experiment);
            r.diffs == s.diffs + 1 <==> c.dump != e.dump || c.code != e.code
    ensures x.control.ForwardError? && x.experiment.ForwardError? ==>
              && r.diffs == s.diffs + 1
              && Cell(r.codes, -1, -1) == Cell(s.codes, -1, -1) + 1
              && r.log == s.log + [DiffRecord(x.reqDump, "Error forwarding request Control", "Error forwarding request Exp")]
    ensures x.control.ForwardError? && x.experiment.Forwarded? && x.experiment.code != -1 ==>
              Cell(r.codes, x.experiment.code, -1) == Cell(s.codes, x.experiment.code, -1) + 1
    ensures x.control.Forwarded? && x.experiment.ForwardError? && x.control.code != -1 ==>
              Cell(r.codes, -1, x.control.code) == Cell(s.codes, -1, x.control.code) + 1
  {
    Record(s, x.reqDump, Settle(Control, x.control), Settle(Experiment, x.experiment))
  }

  /** True of the exchanges the handler records as diffs. */
  predicate Mismatched(x: Exchange) {
    IsMismatch(Settle(Control, x.control), Settle(Experiment, x.experiment))
  }

  /** The diff log a run of exchanges should produce: one record per mismatched exchange, in
      arrival order. */
  function DiffLog(xs: seq<Exchange>): seq<string>
    decreases |xs|
  {
    if xs == [] then []
    else
      var x := xs[0];
      (if Mismatched(x)
       then [DiffRecord(x.reqDump, Settle(Control, x.control).dump, Settle(Experiment, x.experiment).dump)]
       else [])
      + DiffLog(xs[1..])
  }

  /** Handling a run of exchanges, one after the other. */
  function Replay(s: Stats, xs: seq<Exchange>): Stats
    decreases |xs|
  {
    if xs == [] then s else Replay(Serve(s, xs[0]), xs[1..])
  }

  /** The counting invariant of the statistics: no more diffs than requests, the code matrix
      sums to the diff count, and the log holds one record per diff. */
  ghost predicate Consistent(s: Stats) {
    && s.diffs <= s.reqs
    && s.diffs == MatrixTotal(s.codes)
    && |s.log| == s.diffs
  }

  /** Bumping one cell adds one to the sum of the matrix. */
  lemma BumpAddsOne(codes: map<int, map<int, nat>>, experiment: int, control: int)
    ensures MatrixTotal(Bump(codes, experiment, control)) == MatrixTotal(codes) + 1
  {
    var row: map<int, nat> := if experiment in codes then codes[experiment] else map[];
    var row': map<int, nat> := row[control := Cell(codes, experiment, control) + 1];
    TotalUpdate(row, control, Cell(codes, experiment, control) + 1);
    assert Total(row') == Total(row) + 1;
    assert RowTotals(Bump(codes, experiment, control)) == RowTotals(codes)[experiment := Total(row')];
    TotalUpdate(RowTotals(codes), experiment, Total(row'));
    if experiment !in codes {
      assert Total(row) == 0;
    }
  }

  /** One handled request keeps the counting invariant. */
  lemma ServeKeepsConsistent(s: Stats, x: Exchange)
    requires Consistent(s)
    ensures Consistent(Serve(s, x))
  {
    var c, e := Settle(Control, x.control), Settle(Experiment, x.experiment);
    if IsMismatch(c, e) {
      BumpAddsOne(s.codes, e.code, c.code);
    }
  }

  /** A run of requests counts each request once, appends exactly the expected records in
      arrival order, and counts one diff per record. */
  lemma {:induction false} ReplayCounts(s: Stats, xs: seq<Exchange>)
    ensures Replay(s, xs).reqs == s.reqs + |xs|
    ensures Replay(s, xs).log == s.log + DiffLog(xs)
    ensures Replay(s, xs).diffs == s.diffs + |DiffLog(xs)|
    decreases |xs|
  {
    if xs != [] {
      ReplayCounts(Serve(s, xs[0]), xs[1..]);
    }
  }

  /** A run of requests keeps the counting invariant. */
  lemma {:induction false} ReplayKeepsConsistent(s: Stats, xs: seq<Exchange>)
    requires Consistent(s)
    ensures Consistent(Replay(s, xs))
    decreases |xs|
  {
    if xs != [] {
      ServeKeepsConsistent(s, xs[0]);
      ReplayKeepsConsistent(Serve(s, xs[0]), xs[1..]);
    }
  }

  /** From empty statistics, after any run: one request counted per exchange, no more diffs
      than requests, the matrix summing to the diff count, and the log holding exactly the
      expected records. */
  lemma FromZero(xs: seq<Exchange>)
    ensures var r := Replay(Zero, xs);
            && r.reqs == |xs|
            && r.diffs <= r.reqs
            && r.diffs == MatrixTotal(r.codes)
            && r.log == DiffLog(xs)
            && |r.log| == r.diffs
  {
    assert Total(RowTotals(Zero.codes)) == 0;
    ReplayCounts(Zero, xs);
    ReplayKeepsConsistent(Zero, xs);
  }

  /** The two failure dumps differ, so a request on which both forwards failed is a diff. */
  lemma SentinelsNeverMatch(x: Exchange)
    requires x.control.ForwardError? && x.experiment.ForwardError?
    ensures ControlFailureDump != ExperimentFailureDump
    ensures Mismatched(x)
    ensures Settle(Control, x.control).code == Settle(Experiment, x.experiment).code == FailureCode
  {
  }

  /** `codesAreEqual` on the failure code: -1 matches only -1, never a three-digit status. */
  lemma FailureCodeMatchesOnlyItself(code: int)
    ensures CodesAreEqual(FailureCode, code) <==> code == FailureCode
    ensures 100 <= code <= 999 ==> !CodesAreEqual(FailureCode, code)
    ensures !CodesAreEqual(FailureCode, code) ==> !CodesAreEqual(code, FailureCode)
  {
  }

  /** Cleanup with the handler's list removes the date and both framing headers, zeroes the
      content length and empties the transfer encoding, and keeps every other header. */
  lemma ForwardCleanupNormalizes(res: Response)
    ensures var r := CleanupHeaders(res, ForwardCleanup);
            && "Date" !in r.header && "Content-Length" !in r.header && "Transfer-Encoding" !in r.header
            && r.contentLength == 0 && r.transferEncoding == []
            && forall n :: n in res.header && n !in {"Date", "Content-Length", "Transfer-Encoding"} ==>
                 n in r.header && r.header[n] == res.header[n]
  {
  }

  /** Two responses that differ only in their date and framing become identical after
      cleanup. */
  lemma FramingDifferencesVanish(r1: Response, r2: Response)
    requires r1.statusCode == r2.statusCode && r1.body == r2.body
    requires r1.header - {"Date", "Content-Length", "Transfer-Encoding"} ==
             r2.header - {"Date", "Content-Length", "Transfer-Encoding"}
    ensures CleanupHeaders(r1, ForwardCleanup) == CleanupHeaders(r2, ForwardCleanup)
  {
    var strip := {"Date", "Content-Length", "Transfer-Encoding"};
    assert (set n | n in ForwardCleanup) == strip by {
      assert ForwardCleanup[0] == "Date" && ForwardCleanup[1] == "Content-Length";
      assert ForwardCleanup[2] == "Transfer-Encoding";
    }
    CleanupRemovesListed(r1, ForwardCleanup);
    CleanupRemovesListed(r2, ForwardCleanup);
  }

  /** `{X-A: 1}` against `{X-A: 1, Date: now}`: unequal as received, equal once the date is
      stripped. */
  lemma DateHeaderExample(status: int, body: seq<byte>)
    ensures var plain := Response(status, map["X-A" := ["1"]], 0, [], body);
            var dated := Response(status, map["X-A" := ["1"], "Date" := ["now"]], 0, [], body);
            && !HeadersAreEqual(plain.header, dated.header)
            && HeadersAreEqual(CleanupHeaders(plain, ForwardCleanup).header,
                               CleanupHeaders(dated, ForwardCleanup).header)
  {
    var plain := Response(status, map["X-A" := ["1"]], 0, [], body);
    var dated := Response(status, map["X-A" := ["1"], "Date" := ["now"]], 0, [], body);
    assert "Date" in dated.header;
    FramingDifferencesVanish(plain, dated);
  }

  /** Two 200 responses with different dumps are filed under cell `[200][200]`. */
  lemma SameStatusDifferentDumps(s: Stats, req: string, d1: string, d2: string)
    requires d1 != d2
    ensures var r := Serve(s, Exchange(req, Forwarded(d1, 200), Forwarded(d2, 200)));
            && r.diffs == s.diffs + 1
            && Cell(r.codes, 200, 200) == Cell(s.codes, 200, 200) + 1
  {
  }
}
