/** The per-language checks of the documentation verifier and the dispatch
    on the lower-cased language tag. Running a shell, compiling Python and
    parsing TOML happen outside this model: each strategy receives the
    outcome of that call as an oracle, a function of the example's code. */
module Strategies {
  import opened Wrappers
  import opened Text
  import opened Extraction

  /** Python's `Tuple[bool, Optional[str]]`: success, and an error message. */
  datatype Verdict = Verdict(success: bool, error: Option<string>)

  const Passed: Verdict := Verdict(true, None)

  /** Python's truth value of the message: present and non-empty. */
  predicate HasMessage(v: Verdict) {
    v.error.Some? && v.error.value != ""
  }

  /** `subprocess.run(code, shell=True, timeout=10)` inside a temporary directory:
      it finishes with some exit status, times out, or raises. */
  datatype ShellRun = Completed(exitStatus: int) | TimedOut | Raised(message: string)

  /** `python -m py_compile` on the code written to a temporary file, with a 5-second timeout. */
  datatype CompileRun = Finished(returnCode: int, stderr: string) | CompileTimedOut | CompileRaised(message: string)

  /** `tomllib.loads(code)`: accepted, or an exception with its text. */
  datatype TomlParse = Parsed | Rejected(message: string)

  /** The outside world, as far as the strategies see it. */
  datatype Oracles = Oracles(
    shell: string -> ShellRun,
    compile: string -> CompileRun,
    toml: string -> TomlParse)

  // ---------------------------------------------------------------------------
  // The placeholder pattern `\${[A-Z_]+}` and `re.search` for it

  predicate IsPlaceholderChar(c: char) {
    ('A' <= c <= 'Z') || c == '_'
  }

  /** Length of the longest run of placeholder characters from `i`: `[A-Z_]+` is greedy. */
  function NameRun(s: string, i: nat): (n: nat)
    requires i <= |s|
    ensures i + n <= |s|
    ensures forall k :: i <= k < i + n ==> IsPlaceholderChar(s[k])
    ensures i + n == |s| || !IsPlaceholderChar(s[i + n])
    decreases |s| - i
  {
    if i < |s| && IsPlaceholderChar(s[i]) then 1 + NameRun(s, i + 1) else 0
  }

  /** The pattern tried at position `i`. */
  predicate PlaceholderAt(s: string, i: nat)
    requires i <= |s|
  {
    i + 2 <= |s| && s[i] == '$' && s[i + 1] == '{' &&
    var n := NameRun(s, i + 2);
    n > 0 && i + 2 + n < |s| && s[i + 2 + n] == '}'
  }

  /** `re.search` from position `i` on. */
  predicate PlaceholderFrom(s: string, i: nat)
    requires i <= |s|
    decreases |s| - i
  {
    i < |s| && (PlaceholderAt(s, i) || PlaceholderFrom(s, i + 1))
  }

  /** `re.search(r'\${[A-Z_]+}', code)` succeeds exactly when the code holds such a span. */
  predicate HasPlaceholder(s: string)
    ensures HasPlaceholder(s) <==> exists a, b :: PlaceholderSpan(s, a, b)
  {
    PlaceholderFromIff(s, 0);
    PlaceholderFrom(s, 0)
  }

  /** Reference definition: `s[i..j + 1]` is `${`, one or more of `A`-`Z` or `_`, then `}`. */
  ghost predicate PlaceholderSpan(s: string, i: int, j: int) {
    && 0 <= i && i + 2 < j < |s|
    && s[i] == '$' && s[i + 1] == '{'
    && (forall k :: i + 2 <= k < j ==> IsPlaceholderChar(s[k]))
    && s[j] == '}'
  }

  lemma PlaceholderAtIff(s: string, i: nat)
    requires i <= |s|
    ensures PlaceholderAt(s, i) <==> exists j :: PlaceholderSpan(s, i, j)
  {
    if PlaceholderAt(s, i) {
      assert PlaceholderSpan(s, i, i + 2 + NameRun(s, i + 2));
    }
    if j :| PlaceholderSpan(s, i, j) {
      assert NameRun(s, i + 2) == j - i - 2;
    }
  }

  /** The search finds a placeholder exactly when one stands somewhere at or after `i`. */
  lemma {:induction false} PlaceholderFromIff(s: string, i: nat)
    requires i <= |s|
    ensures PlaceholderFrom(s, i) <==> exists a, b :: i <= a && PlaceholderSpan(s, a, b)
    decreases |s| - i
  {
    if i < |s| {
      PlaceholderAtIff(s, i);
      PlaceholderFromIff(s, i + 1);
      if a, b :| i <= a && PlaceholderSpan(s, a, b) {
        if a == i {
          assert PlaceholderAt(s, i);
        } else {
          assert PlaceholderFrom(s, i + 1);
        }
      }
    }
  }

  // ---------------------------------------------------------------------------
  // The skip heuristics, in the order the strategies try them

  /** A shell snippet showing a prompt, printed output or an elision. */
  predicate ShowsSession(code: string) {
    Contains(code, "$ ") || Contains(code, "# Output:") || Contains(code, "...")
  }

  /** A shell snippet that would wait for input. */
  predicate IsInteractive(code: string) {
    Contains(code, "taskx init") || Contains(code, "read ") || Contains(code, "select ")
  }

  predicate SkipsShell(code: string) {
    ShowsSession(code) || HasPlaceholder(code) || IsInteractive(code)
  }

  /** `'...' in code or '# ...' in code`. */
  predicate IsPartialPython(code: string) {
    Contains(code, "...") || Contains(code, "# ...")
  }

  predicate SkipsPython(code: string) {
    IsPartialPython(code) || HasPlaceholder(code)
  }

  // ---------------------------------------------------------------------------
  // The strategies

  /** `verify_bash_example`: a skipped snippet and a finished run both succeed,
      whatever the exit status; a timeout or an exception fails with a message. */
  function VerifyBash(code: string, shell: string -> ShellRun): (r: Verdict)
    ensures r.success <==> SkipsShell(code) || shell(code).Completed?
    ensures r.success <==> r.error.None?
    ensures !r.success ==> HasMessage(r)
  {
    if ShowsSession(code) then Passed
    else if HasPlaceholder(code) then Passed
    else if IsInteractive(code) then Passed
    else
      match shell(code)
      case Completed(_) => Passed
      case TimedOut => Verdict(false, Some("Command timed out after 10 seconds"))
      case Raised(message) => Verdict(false, Some("Execution error: " + message))
  }

  /** `verify_python_example`: skipped snippets succeed; otherwise the result is the syntax check's. */
  function VerifyPython(code: string, compile: string -> CompileRun): (r: Verdict)
    ensures r.success <==> SkipsPython(code) || (compile(code).Finished? && compile(code).returnCode == 0)
    ensures r.success <==> r.error.None?
    ensures !r.success ==> HasMessage(r)
  {
    if IsPartialPython(code) then Passed
    else if HasPlaceholder(code) then Passed
    else
      match compile(code)
      case Finished(returnCode, stderr) =>
        if returnCode != 0 then Verdict(false, Some("Syntax error: " + stderr)) else Passed
      case CompileTimedOut => Verdict(false, Some("Verification timed out after 5 seconds"))
      case CompileRaised(message) => Verdict(false, Some("Verification error: " + message))
  }

  /** `verify_toml_example`: success exactly when the parser accepts. */
  function VerifyToml(code: string, toml: string -> TomlParse): (r: Verdict)
    ensures r.success <==> toml(code).Parsed?
    ensures !r.success ==> r.error == Some("TOML parsing error: " + toml(code).message)
    ensures r.success ==> r.error.None?
  {
    match toml(code)
    case Parsed => Passed
    case Rejected(message) => Verdict(false, Some("TOML parsing error: " + message))
  }

  // ---------------------------------------------------------------------------
  // Dispatch

  /** Which branch of `verify_example` a tag takes. */
  datatype Strategy = ShellLike | Scripting | StructuredConfig | Declarative | Unrecognized

  const ShellTags: seq<string> := ["bash", "sh", "shell", "console"]
  const ScriptingTags: seq<string> := ["python", "py"]
  const DeclarativeTags: seq<string> := ["yaml", "yml", "json", "markdown", "md", "text"]

  /** Every tag goes to exactly one branch, and each branch takes exactly its
      lower-cased tags; all other tags are unrecognized. */
  function StrategyFor(language: string): (st: Strategy)
    ensures st == ShellLike <==> Lower(language) in ShellTags
    ensures st == Scripting <==> Lower(language) in ScriptingTags
    ensures st == StructuredConfig <==> Lower(language) == "toml"
    ensures st == Declarative <==> Lower(language) in DeclarativeTags
    ensures st == Unrecognized <==>
      Lower(language) !in ShellTags + ScriptingTags + ["toml"] + DeclarativeTags
  {
    var tag := Lower(language);
    if tag in ShellTags then ShellLike
    else if tag in ScriptingTags then Scripting
    else if tag == "toml" then StructuredConfig
    else if tag in DeclarativeTags then Declarative
    else Unrecognized
  }

  /** `verify_example`: the tag, lower-cased, picks the strategy, and the
      verdict is decided by that strategy's skips and its oracle alone;
      declarative and unknown tags succeed unchecked. No strategy answers
      `(False, None)`, `(False, "")` or `(True, message)`. */
  function VerifyExample(example: CodeExample, oracles: Oracles): (r: Verdict)
    ensures r.success <==> r.error.None?
    ensures !r.success ==> HasMessage(r)
    ensures StrategyFor(example.language) == ShellLike ==>
      (r.success <==> SkipsShell(example.code) || oracles.shell(example.code).Completed?)
    ensures StrategyFor(example.language) == Scripting ==>
      (r.success <==> SkipsPython(example.code)
                      || (oracles.compile(example.code).Finished? && oracles.compile(example.code).returnCode == 0))
    ensures StrategyFor(example.language) == Scripting && Contains(example.code, "...") ==> r == Passed
    ensures StrategyFor(example.language) == StructuredConfig ==>
      (r.success <==> oracles.toml(example.code).Parsed?)
    ensures StrategyFor(example.language) == StructuredConfig && !oracles.toml(example.code).Parsed? ==>
      r.error == Some("TOML parsing error: " + oracles.toml(example.code).message)
    ensures StrategyFor(example.language) in {Declarative, Unrecognized} ==> r == Passed
  {
    match StrategyFor(example.language)
    case ShellLike => VerifyBash(example.code, oracles.shell)
    case Scripting => VerifyPython(example.code, oracles.compile)
    case StructuredConfig => VerifyToml(example.code, oracles.toml)
    case Declarative => Passed
    case Unrecognized => Passed
  }

  // ---------------------------------------------------------------------------
  // Properties of the strategies

  /** The tag is compared without regard to case. */
  lemma DispatchIgnoresCase(language: string)
    ensures StrategyFor(Lower(language)) == StrategyFor(language)
  {
    LowerIdempotent(language);
  }

  /** A skipped shell snippet succeeds and runs nothing: the verdict is the same whatever the shell would do. */
  lemma ShellSkipRunsNothing(code: string, shell1: string -> ShellRun, shell2: string -> ShellRun)
    requires SkipsShell(code)
    ensures VerifyBash(code, shell1) == VerifyBash(code, shell2) == Passed
  {
  }

  /** A shell placeholder such as `${API_KEY}` makes the snippet succeed unrun. */
  lemma ShellPlaceholderSkipped(code: string, shell: string -> ShellRun, i: nat, j: nat)
    requires PlaceholderSpan(code, i, j)
    ensures VerifyBash(code, shell) == Passed
  {
    assert HasPlaceholder(code);
  }

  /** The exit status of a shell run never matters; the two failures carry fixed texts. */
  lemma ShellOutcomes(code: string, shell: string -> ShellRun)
    requires !SkipsShell(code)
    ensures shell(code).Completed? ==> VerifyBash(code, shell) == Passed
    ensures shell(code).TimedOut? ==> VerifyBash(code, shell) == Verdict(false, Some("Command timed out after 10 seconds"))
    ensures shell(code).Raised? ==> VerifyBash(code, shell) == Verdict(false, Some("Execution error: " + shell(code).message))
  {
  }

  /** `'# ...' in code` adds nothing to `'...' in code`. */
  lemma PartialPythonIsEllipsis(code: string)
    ensures IsPartialPython(code) <==> Contains(code, "...")
  {
    if Contains(code, "# ...") {
      assert Contains("# ...", "...") by {
        assert StartsWith("# ..."[2..], "...");
      }
      ContainsTransitive(code, "# ...", "...");
    }
  }

  /** A Python snippet with an elision is never compiled and never fails. */
  lemma EllipsisPythonSucceeds(code: string, compile1: string -> CompileRun, compile2: string -> CompileRun)
    requires Contains(code, "...")
    ensures VerifyPython(code, compile1) == VerifyPython(code, compile2) == Passed
  {
  }

  /** A compiled Python snippet fails exactly on a non-zero return code, and then reports the checker's text. */
  lemma PythonSyntaxOutcome(code: string, compile: string -> CompileRun)
    requires !SkipsPython(code) && compile(code).Finished?
    ensures VerifyPython(code, compile).success <==> compile(code).returnCode == 0
    ensures compile(code).returnCode != 0 ==>
      VerifyPython(code, compile).error == Some("Syntax error: " + compile(code).stderr)
  {
  }

  /** When the syntax check itself does not finish, the two failures carry fixed texts. */
  lemma PythonOutcomes(code: string, compile: string -> CompileRun)
    requires !SkipsPython(code)
    ensures compile(code).CompileTimedOut? ==>
      VerifyPython(code, compile) == Verdict(false, Some("Verification timed out after 5 seconds"))
    ensures compile(code).CompileRaised? ==>
      VerifyPython(code, compile) == Verdict(false, Some("Verification error: " + compile(code).message))
  {
  }

  /** An empty body under an unknown tag succeeds. */
  lemma UnknownEmptySucceeds(example: CodeExample, oracles: Oracles)
    requires example.code == [] && StrategyFor(example.language) == Unrecognized
    ensures VerifyExample(example, oracles) == Passed
  {
  }
}
