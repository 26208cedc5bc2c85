/** `DocVerifier`: the object that extracts the examples of each file,
    verifies them one by one and sorts them into `passed`, `failed` and
    `skipped`, and the summary `print_summary` draws from those lists. */
module Verifier {
  import opened Wrappers
  import opened Extraction
  import opened Strategies

  // ---------------------------------------------------------------------------
  // Where `verify_file` puts the examples of one file, as functions

  /** The examples whose verdict is a success, in order: only ones that succeeded. */
  function PassedOf(examples: seq<CodeExample>, oracles: Oracles): (ps: seq<CodeExample>)
    ensures |ps| <= |examples|
    ensures forall k :: 0 <= k < |ps| ==> VerifyExample(ps[k], oracles).success
    decreases |examples|
  {
    if examples == [] then []
    else
      var e := examples[|examples| - 1];
      PassedOf(examples[..|examples| - 1], oracles) + (if VerifyExample(e, oracles).success then [e] else [])
  }

  /** The examples whose verdict is a failure with a non-empty message, with
      that message, in order: each paired with its own verdict's message. */
  function FailedOf(examples: seq<CodeExample>, oracles: Oracles): (fs: seq<(CodeExample, string)>)
    ensures |fs| <= |examples|
    ensures forall k :: 0 <= k < |fs| ==>
      VerifyExample(fs[k].0, oracles) == Verdict(false, Some(fs[k].1)) && fs[k].1 != ""
    decreases |examples|
  {
    if examples == [] then []
    else
      var e := examples[|examples| - 1];
      var v := VerifyExample(e, oracles);
      FailedOf(examples[..|examples| - 1], oracles) + (if !v.success && HasMessage(v) then [(e, v.error.value)] else [])
  }

  /** The examples whose verdict is a failure with no or an empty message, as
      "Unknown reason": only failed examples. */
  function SkippedOf(examples: seq<CodeExample>, oracles: Oracles): (ss: seq<(CodeExample, string)>)
    ensures |ss| <= |examples|
    ensures forall k :: 0 <= k < |ss| ==>
      !VerifyExample(ss[k].0, oracles).success && ss[k].1 == "Unknown reason"
    decreases |examples|
  {
    if examples == [] then []
    else
      var e := examples[|examples| - 1];
      var v := VerifyExample(e, oracles);
      SkippedOf(examples[..|examples| - 1], oracles) + (if !v.success && !HasMessage(v) then [(e, "Unknown reason")] else [])
  }

  /** One more example extends exactly the list its verdict selects. */
  lemma BucketsStep(examples: seq<CodeExample>, i: nat, oracles: Oracles, v: Verdict)
    requires i < |examples| && v == VerifyExample(examples[i], oracles)
    ensures var e := examples[i];
      && PassedOf(examples[..i + 1], oracles) == PassedOf(examples[..i], oracles) + (if v.success then [e] else [])
      && FailedOf(examples[..i + 1], oracles) == FailedOf(examples[..i], oracles) + (if !v.success && HasMessage(v) then [(e, v.error.value)] else [])
      && SkippedOf(examples[..i + 1], oracles) == SkippedOf(examples[..i], oracles) + (if !v.success && !HasMessage(v) then [(e, "Unknown reason")] else [])
  {
    assert examples[..i + 1][..i] == examples[..i];
  }

  /** Every example lands in `passed` or in `failed`, never in `skipped`: each
      success is passed, each failure is failed with its verdict's message, and
      the two lists together are as long as the examples. */
  lemma {:induction false} Buckets(examples: seq<CodeExample>, oracles: Oracles)
    ensures |PassedOf(examples, oracles)| + |FailedOf(examples, oracles)| == |examples|
    ensures SkippedOf(examples, oracles) == []
    ensures forall i :: 0 <= i < |examples| && VerifyExample(examples[i], oracles).success ==>
      examples[i] in PassedOf(examples, oracles)
    ensures forall i :: 0 <= i < |examples| && !VerifyExample(examples[i], oracles).success ==>
      (examples[i], VerifyExample(examples[i], oracles).error.value) in FailedOf(examples, oracles)
    decreases |examples|
  {
    if examples != [] {
      Buckets(examples[..|examples| - 1], oracles);
    }
    forall i | 0 <= i < |examples| {
      LandsInBucket(examples, i, oracles);
    }
  }

  /** Nothing but the examples themselves lands in a list. */
  lemma {:induction false} BucketsFromExamples(examples: seq<CodeExample>, oracles: Oracles)
    ensures forall e :: e in PassedOf(examples, oracles) ==> e in examples
    ensures forall f :: f in FailedOf(examples, oracles) ==> f.0 in examples
    decreases |examples|
  {
    if examples != [] {
      var init := examples[..|examples| - 1];
      BucketsFromExamples(init, oracles);
      assert forall e :: e in init ==> e in examples;
    }
  }

  /** The `i`-th example is in the list its verdict selects. */
  lemma {:induction false} LandsInBucket(examples: seq<CodeExample>, i: nat, oracles: Oracles)
    requires i < |examples|
    ensures var v := VerifyExample(examples[i], oracles);
      && (v.success ==> examples[i] in PassedOf(examples, oracles))
      && (!v.success ==> (examples[i], v.error.value) in FailedOf(examples, oracles))
    decreases |examples|
  {
    var init := examples[..|examples| - 1];
    if i < |init| {
      LandsInBucket(init, i, oracles);
      assert init[i] == examples[i];
    }
  }

  // ---------------------------------------------------------------------------
  // The summary

  /** What `print_summary` shows of one failed example. */
  datatype FailureDetail = FailureDetail(
    filePath: string,
    lineNumber: nat,
    language: string,
    error: string,
    codePreview: string)

  /** The counts `print_summary` prints, the failure listing and the exit code it ends with. */
  datatype Summary = Summary(
    total: nat,
    passed: nat,
    failed: nat,
    skipped: nat,
    failures: seq<FailureDetail>,
    exitCode: int)

  /** `code[:100]`: the first hundred characters, or the whole code when it is shorter. */
  function Preview(code: string): (r: string)
    ensures |r| <= 100 && r <= code
    ensures |code| <= 100 ==> r == code
    ensures |code| > 100 ==> |r| == 100
  {
    if |code| <= 100 then code else code[..100]
  }

  function Detail(failure: (CodeExample, string)): FailureDetail {
    var (example, error) := failure;
    FailureDetail(example.filePath, example.lineNumber, example.language, error, Preview(example.code))
  }

  class DocVerifier {
    const verbose: bool
    var examples: seq<CodeExample>
    var passed: seq<CodeExample>
    var failed: seq<(CodeExample, string)>
    var skipped: seq<(CodeExample, string)>

    /** The lists together are as long as the examples found so far, and
        `skipped` is never filled. (Which list each example lands in is
        stated by `VerifyFile` and `Buckets`.) */
    ghost predicate Valid()
      reads this
    {
      |passed| + |failed| + |skipped| == |examples| && skipped == []
    }

    constructor (verbose: bool)
      ensures this.verbose == verbose
      ensures examples == [] && passed == [] && failed == [] && skipped == []
      ensures Valid()
    {
      this.verbose := verbose;
      examples, passed, failed, skipped := [], [], [], [];
    }

    /** `extract_examples`: the file's content is `None` when the file does not
        exist. The matches of the pattern are taken one by one in document order. */
    method ExtractExamples(filePath: string, content: Option<string>) returns (found: seq<CodeExample>)
      ensures found == Extracted(filePath, content)
    {
      if content.None? {
        return [];
      }
      var text := content.value;
      found := [];
      ghost var taken: seq<Match> := [];
      var p := 0;
      while p < |text|
        invariant p <= |text|
        invariant taken + Scan(text, p) == Scan(text, 0)
        invariant forall i :: 0 <= i < |taken| ==> taken[i].start <= |text|
        invariant found == ExamplesOf(filePath, text, taken)
        decreases |text| - p
      {
        var r := MatchAt(text, p);
        if r.Some? {
          var m := r.value;
          ExtractStep(filePath, text, p, taken, found);
          taken := taken + [m];
          found := found + [ToExample(filePath, text, m)];
          p := m.end;
        } else {
          p := p + 1;
        }
      }
      assert taken == Scan(text, 0);
    }

    /** `verify_file`: the file's examples are added to `examples`, then each
        is verified and appended to the list its verdict selects. */
    method VerifyFile(filePath: string, content: Option<string>, oracles: Oracles)
      requires Valid()
      modifies this
      ensures Valid()
      ensures examples == old(examples) + Extracted(filePath, content)
      ensures passed == old(passed) + PassedOf(Extracted(filePath, content), oracles)
      ensures failed == old(failed) + FailedOf(Extracted(filePath, content), oracles)
      ensures skipped == old(skipped)
    {
      var found := ExtractExamples(filePath, content);
      VerifyAll(found, oracles);
    }

    /** The body of `verify_file` once the examples are extracted: `examples`
        grows by them, then the loop sorts them one by one. */
    method VerifyAll(found: seq<CodeExample>, oracles: Oracles)
      requires Valid()
      modifies this
      ensures Valid()
      ensures examples == old(examples) + found
      ensures passed == old(passed) + PassedOf(found, oracles)
      ensures failed == old(failed) + FailedOf(found, oracles)
      ensures skipped == old(skipped)
    {
      examples := examples + found;
      var i := 0;
      while i < |found|
        invariant i <= |found|
        invariant examples == old(examples) + found
        invariant passed == old(passed) + PassedOf(found[..i], oracles)
        invariant failed == old(failed) + FailedOf(found[..i], oracles)
        invariant skipped == old(skipped) + SkippedOf(found[..i], oracles)
      {
        var example := found[i];
        var verdict := VerifyExample(example, oracles);
        BucketsStep(found, i, oracles, verdict);
        passed := passed + (if verdict.success then [example] else []);
        failed := failed + (if !verdict.success && HasMessage(verdict) then [(example, verdict.error.value)] else []);
        skipped := skipped + (if !verdict.success && !HasMessage(verdict) then [(example, "Unknown reason")] else []);
        i := i + 1;
      }
      assert found[..i] == found;
      Buckets(found, oracles);
    }

    /** `print_summary`: the counts, one detail per failure in order, and the
        exit code: 1 when some example failed, else 0. */
    method Summarize() returns (report: Summary)
      requires Valid()
      ensures report.total == |examples| && report.passed == |passed|
      ensures report.failed == |failed| && report.skipped == |skipped|
      ensures |report.failures| == |failed|
      ensures forall i :: 0 <= i < |failed| ==> report.failures[i] == Detail(failed[i])
      ensures report.exitCode == 1 <==> |failed| > 0
      ensures report.exitCode == 0 <==> |passed| == |examples|
    {
      var details: seq<FailureDetail> := [];
      var i := 0;
      while i < |failed|
        invariant i <= |failed|
        invariant |details| == i
        invariant forall k :: 0 <= k < i ==> details[k] == Detail(failed[k])
      {
        details := details + [Detail(failed[i])];
        i := i + 1;
      }
      var code := if |failed| > 0 then 1 else 0;
      report := Summary(|examples|, |passed|, |failed|, |skipped|, details, code);
    }
  }
}
