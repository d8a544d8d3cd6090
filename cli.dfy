/** gyuu/cli.py: how each result is reported, the summary counters, and the
    dispatch of `main` between a missing input, a directory and a single file.
    Argument parsing and the printed text are not modelled; the report and the
    summary are the values the text is made from. */
module Cli {
  import opened Common
  import opened Compressor

  /** What print_result shows for one record. */
  datatype Report =
    | FailureReport(input: string, error: Error)
    | SuccessReport(input: string, output: string, originalSize: nat, compressedSize: nat, reduction: real)

  /** print_result: a record with an error is reported as a failure with its
      input and message only; any other record with all five fields. */
  function ReportOf(r: CompressionResult): (rep: Report)
    ensures rep.FailureReport? <==> r.Failure?
    ensures rep.input == r.input
    ensures rep.FailureReport? ==> rep.error == r.error
    ensures rep.SuccessReport? ==>
      rep.output == r.output && rep.originalSize == r.originalSize
      && rep.compressedSize == r.compressedSize && rep.reduction == r.reduction
  {
    match r
    case Failure(input, error) => FailureReport(input, error)
    case Success(input, output, o, c, red) => SuccessReport(input, output, o, c, red)
  }

  function CountSuccess(rs: seq<CompressionResult>): nat
  {
    if rs == [] then 0 else CountSuccess(rs[..|rs| - 1]) + (if rs[|rs| - 1].Success? then 1 else 0)
  }

  function CountFailure(rs: seq<CompressionResult>): nat
  {
    if rs == [] then 0 else CountFailure(rs[..|rs| - 1]) + (if rs[|rs| - 1].Failure? then 1 else 0)
  }

  /** Sum of the original sizes of the successful records. */
  function TotalOriginal(rs: seq<CompressionResult>): nat
  {
    if rs == [] then 0
    else TotalOriginal(rs[..|rs| - 1]) + (if rs[|rs| - 1].Success? then rs[|rs| - 1].originalSize else 0)
  }

  /** Sum of the compressed sizes of the successful records. */
  function TotalCompressed(rs: seq<CompressionResult>): nat
  {
    if rs == [] then 0
    else TotalCompressed(rs[..|rs| - 1]) + (if rs[|rs| - 1].Success? then rs[|rs| - 1].compressedSize else 0)
  }

  /** Every record is counted exactly once, as a success or as a failure. */
  lemma {:induction false} CountsPartition(rs: seq<CompressionResult>)
    ensures CountSuccess(rs) + CountFailure(rs) == |rs|
  {
    if rs != [] {
      CountsPartition(rs[..|rs| - 1]);
    }
  }

  /** The successful records, in their order. */
  function Successes(rs: seq<CompressionResult>): (ss: seq<CompressionResult>)
    ensures forall i :: 0 <= i < |ss| ==> ss[i].Success?
  {
    if rs == [] then []
    else Successes(rs[..|rs| - 1]) + (if rs[|rs| - 1].Success? then [rs[|rs| - 1]] else [])
  }

  predicate AllSuccesses(ss: seq<CompressionResult>)
  {
    forall i :: 0 <= i < |ss| ==> ss[i].Success?
  }

  /** Plain sums of the sizes of a list of successful records. */
  function SumOriginal(ss: seq<CompressionResult>): nat
    requires AllSuccesses(ss)
  {
    if ss == [] then 0 else SumOriginal(ss[..|ss| - 1]) + ss[|ss| - 1].originalSize
  }

  function SumCompressed(ss: seq<CompressionResult>): nat
    requires AllSuccesses(ss)
  {
    if ss == [] then 0 else SumCompressed(ss[..|ss| - 1]) + ss[|ss| - 1].compressedSize
  }

  /** Failures contribute nothing: the counted successes are the successful
      records, and the totals are the plain sums over those records alone,
      whatever failures are mixed in. */
  lemma {:induction false} TotalsOverSuccesses(rs: seq<CompressionResult>)
    ensures CountSuccess(rs) == |Successes(rs)|
    ensures TotalOriginal(rs) == SumOriginal(Successes(rs))
    ensures TotalCompressed(rs) == SumCompressed(Successes(rs))
    ensures CountSuccess(rs) == 0 ==> TotalOriginal(rs) == 0 && TotalCompressed(rs) == 0
    ensures (forall i :: 0 <= i < |rs| ==> rs[i].Success?) ==> CountSuccess(rs) == |rs| && CountFailure(rs) == 0
  {
    if rs != [] {
      var init, last := rs[..|rs| - 1], rs[|rs| - 1];
      TotalsOverSuccesses(init);
      assert forall i :: 0 <= i < |init| ==> init[i] == rs[i];
      var ss := Successes(init);
      if last.Success? {
        assert (ss + [last])[..|ss|] == ss;
      } else {
        assert Successes(rs) == ss;
      }
    }
  }

  datatype Summary = Summary(
    successCount: nat, errorCount: nat, totalOriginal: nat, totalCompressed: nat,
    totalReduction: Option<real>)

  /** What print_summary reports for a result list: nothing for fewer than two
      records; otherwise the success and failure counts, which add up to the
      number of records, the totals over the successes, and a total reduction
      exactly when the total original size is positive. */
  predicate Summarizes(summary: Option<Summary>, results: seq<CompressionResult>)
  {
    && (summary.Some? <==> |results| > 1)
    && (summary.Some? ==>
      && summary.value.successCount == CountSuccess(results)
      && summary.value.errorCount == CountFailure(results)
      && summary.value.successCount + summary.value.errorCount == |results|
      && summary.value.totalOriginal == TotalOriginal(results)
      && summary.value.totalCompressed == TotalCompressed(results)
      && (summary.value.totalReduction.Some? <==> summary.value.totalOriginal > 0)
      && (summary.value.totalReduction.Some? ==>
            summary.value.totalReduction.value == Reduction(summary.value.totalOriginal, summary.value.totalCompressed)))
  }

  /** print_summary: one pass over the records updating the four counters. */
  method PrintSummary(results: seq<CompressionResult>) returns (summary: Option<Summary>)
    ensures Summarizes(summary, results)
  {
    var totalOriginal, totalCompressed, successCount, errorCount := 0, 0, 0, 0;
    for i := 0 to |results|
      invariant successCount == CountSuccess(results[..i])
      invariant errorCount == CountFailure(results[..i])
      invariant totalOriginal == TotalOriginal(results[..i])
      invariant totalCompressed == TotalCompressed(results[..i])
    {
      assert results[..i + 1][..i] == results[..i];
      if results[i].Failure? {
        errorCount := errorCount + 1;
      } else {
        successCount := successCount + 1;
        totalOriginal := totalOriginal + results[i].originalSize;
        totalCompressed := totalCompressed + results[i].compressedSize;
      }
    }
    assert results[..|results|] == results;
    CountsPartition(results);
    if |results| > 1 {
      var reduction := None;
      if totalOriginal > 0 {
        reduction := Some(Reduction(totalOriginal, totalCompressed));
      }
      summary := Some(Summary(successCount, errorCount, totalOriginal, totalCompressed, reduction));
    } else {
      summary := None;
    }
  }

  /** What `main` sees of the file system besides the pipeline's environment:
      whether the input is a directory, and the enumeration (flat or recursive)
      of a directory's entries, relative to it. */
  datatype CliEnv = CliEnv(env: Env, isDir: string -> bool, listDir: (string, bool) -> seq<string>)

  datatype CliArgs = CliArgs(input: string, output: Option<string>, opts: Options, recursive: bool)

  /** How a run ends: exit 1 for a missing input, an exception escaping from
      the single-file path, or the results and the summary. */
  datatype CliOutcome =
    | InputMissing
    | Crashed(error: Error)
    | Completed(results: seq<CompressionResult>, summary: Option<Summary>)

  function ExitStatus(o: CliOutcome): int
  {
    if o.Completed? then 0 else 1
  }

  /** An absent or empty output is "no output directory" for the batch. */
  function OutputDir(output: Option<string>): string
  {
    if output.Some? then output.value else ""
  }

  /** main: exit 1 if the input does not exist; a directory goes through the
      batch over its (flat or recursive) enumeration; a single file is one
      compress_image call whose exception is not caught. The results are then
      reported one by one and summarised. */
  method RunCli(cenv: CliEnv, args: CliArgs) returns (outcome: CliOutcome)
    ensures !cenv.env.pathExists(args.input) ==> outcome == InputMissing
    ensures cenv.env.pathExists(args.input) && cenv.isDir(args.input) ==>
      outcome.Completed?
      && outcome.results == Batch(cenv.env, args.input, cenv.listDir(args.input, args.recursive), OutputDir(args.output), args.opts)
    ensures cenv.env.pathExists(args.input) && !cenv.isDir(args.input) ==>
      match CompressImage(cenv.env, args.input, args.output, args.opts)
      case Ok(r) => outcome == Completed([r], None)
      case Err(e) => outcome == Crashed(e)
    ensures outcome.Completed? ==> Summarizes(outcome.summary, outcome.results)
    ensures ExitStatus(outcome) == 1 <==>
      !cenv.env.pathExists(args.input)
      || (!cenv.isDir(args.input) && CompressImage(cenv.env, args.input, args.output, args.opts).Err?)
  {
    if !cenv.env.pathExists(args.input) {
      return InputMissing;
    }
    var results: seq<CompressionResult>;
    if cenv.isDir(args.input) {
      var entries := cenv.listDir(args.input, args.recursive);
      results := ProcessDirectory(cenv.env, args.input, entries, OutputDir(args.output), args.opts);
    } else {
      var r := CompressImage(cenv.env, args.input, args.output, args.opts);
      if r.Err? {
        return Crashed(r.error);
      }
      results := [r.value];
    }
    var summary := PrintSummary(results);
    outcome := Completed(results, summary);
  }
}
