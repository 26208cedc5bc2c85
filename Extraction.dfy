/** The extractor of the documentation verifier: Python's
    `re.finditer(r'```(\w+)\n(.*?)\n```', content, re.DOTALL)` over a
    document, and the `CodeExample` record built from each match. */
module Extraction {
  import opened Wrappers
  import opened Text

  /** One fenced code block found in a documentation file. */
  datatype CodeExample = CodeExample(
    filePath: string,
    lineNumber: nat,
    language: string,
    code: string,
    context: string)

  /** A match of the pattern: the span `[start, end)` of the text, group 1 and group 2. */
  datatype Match = Match(start: nat, language: string, code: string, end: nat)

  const Fence: string := "```"
  /** What the lazy body `(.*?)` stops at: a newline and three backticks. */
  const Close: string := "\n```"

  /** A reference definition of "the pattern matches at `p` with groups `m`":
      three backticks, a non-empty run of word characters, a newline, a body
      without the closing sequence in it, the closing sequence. */
  ghost predicate IsMatchAt(text: string, p: nat, m: Match) {
    var q := p + |Fence| + |m.language|;
    var k := q + 1 + |m.code|;
    && m.start == p
    && m.end == k + |Close| <= |text|
    && text[p..p + |Fence|] == Fence
    && text[p + |Fence|..q] == m.language
    && text[q] == '\n'
    && text[q + 1..k] == m.code
    && text[k..m.end] == Close
    && |m.language| > 0
    && (forall i :: 0 <= i < |m.language| ==> IsWordChar(m.language[i]))
    && !Contains(m.code, Close)
  }

  /** The span of a match is the opener, the tag, a newline, the body and the closing sequence. */
  lemma {:induction false} MatchSpan(text: string, p: nat, m: Match)
    requires IsMatchAt(text, p, m)
    ensures text[m.start..m.end] == Fence + m.language + "\n" + m.code + Close
  {
    var q := p + 3 + |m.language|;
    var k := q + 1 + |m.code|;
    assert text[q..q + 1] == "\n";
    SliceConcat(text, p, p + 3, q);
    SliceConcat(text, p, q, q + 1);
    SliceConcat(text, p, q + 1, k);
    SliceConcat(text, p, k, m.end);
  }

  /** Three backticks at `p`. */
  predicate FenceAt(text: string, p: nat) {
    p + 3 <= |text| && text[p] == '`' && text[p + 1] == '`' && text[p + 2] == '`'
  }

  /** A newline and three backticks at `k`. */
  predicate CloseAt(text: string, k: nat) {
    k + 4 <= |text| && text[k] == '\n' && FenceAt(text, k + 1)
  }

  lemma FenceAtIff(text: string, p: nat)
    ensures FenceAt(text, p) <==> OccursAt(text, Fence, p)
  {
    if FenceAt(text, p) {
      assert text[p..p + 3] == Fence;
    }
  }

  lemma CloseAtIff(text: string, k: nat)
    ensures CloseAt(text, k) <==> OccursAt(text, Close, k)
  {
    if CloseAt(text, k) {
      assert text[k..k + 4] == Close;
    }
    if OccursAt(text, Close, k) {
      assert text[k..k + 4][0] == text[k];
      assert text[k..k + 4][1] == text[k + 1];
      assert text[k..k + 4][2] == text[k + 2];
      assert text[k..k + 4][3] == text[k + 3];
    }
  }

  /** Length of the longest run of word characters starting at `i`: `(\w+)` is greedy. */
  function WordRun(text: string, i: nat): (n: nat)
    requires i <= |text|
    ensures i + n <= |text|
    ensures forall k :: i <= k < i + n ==> IsWordChar(text[k])
    ensures i + n == |text| || !IsWordChar(text[i + n])
    decreases |text| - i
  {
    if i < |text| && IsWordChar(text[i]) then 1 + WordRun(text, i + 1) else 0
  }

  /** The first index at or after `k` where the closing sequence stands:
      `(.*?)` is lazy, so the body ends at the first one. */
  function FindClose(text: string, k: nat): (r: Option<nat>)
    requires k <= |text|
    ensures r.Some? ==> k <= r.value && CloseAt(text, r.value)
    ensures forall j :: k <= j && (r.None? || j < r.value) ==> !CloseAt(text, j)
    decreases |text| - k
  {
    if k + 4 > |text| then None
    else if CloseAt(text, k) then Some(k)
    else FindClose(text, k + 1)
  }

  /** The pattern tried at position `p` alone (what `re.match` would do there). */
  function MatchAt(text: string, p: nat): (r: Option<Match>)
    requires p <= |text|
    ensures r.Some? ==> r.value.start == p < r.value.end <= |text|
  {
    if FenceAt(text, p) then
      var w := WordRun(text, p + 3);
      var q := p + 3 + w;
      if w > 0 && q < |text| && text[q] == '\n' then
        match FindClose(text, q + 1)
        case Some(k) => Some(Match(p, text[p + 3..q], text[q + 1..k], k + 4))
        case None => None
      else None
    else None
  }

  /** A body cut just before the first closing sequence holds none. */
  lemma BodyWithoutClose(text: string, b: nat, k: nat)
    requires b <= k <= |text|
    requires forall j :: b <= j < k ==> !CloseAt(text, j)
    ensures !Contains(text[b..k], Close)
  {
    var code := text[b..k];
    ContainsIff(code, Close);
    forall i | OccursAt(code, Close, i) ensures false {
      SliceOfSlice(text, b, k, i, i + 4);
      assert OccursAt(text, Close, b + i);
      CloseAtIff(text, b + i);
    }
  }

  /** What `MatchAt` finds is a match in the sense of the reference definition. */
  lemma MatchAtSound(text: string, p: nat)
    requires p <= |text| && MatchAt(text, p).Some?
    ensures IsMatchAt(text, p, MatchAt(text, p).value)
  {
    var q := p + 3 + WordRun(text, p + 3);
    var k := FindClose(text, q + 1).value;
    BodyWithoutClose(text, q + 1, k);
    FenceAtIff(text, p);
    CloseAtIff(text, k);
  }

  /** A run of `n` word characters followed by a newline is the greedy run. */
  lemma WordRunExact(text: string, i: nat, n: nat)
    requires i + n < |text| && text[i + n] == '\n'
    requires forall k :: i <= k < i + n ==> IsWordChar(text[k])
    ensures WordRun(text, i) == n
  {
  }

  /** A closing sequence can stand neither inside a body free of it nor
      across the body's end, where a newline stands. */
  lemma NoCloseBefore(text: string, b: nat, k: nat)
    requires b <= k && CloseAt(text, k)
    requires !Contains(text[b..k], Close)
    ensures forall j :: b <= j < k ==> !CloseAt(text, j)
  {
    forall j | b <= j < k ensures !CloseAt(text, j) {
      if j + 4 <= k {
        SliceOfSlice(text, b, k, j - b, j - b + 4);
        ContainsIff(text[b..k], Close);
        CloseAtIff(text, j);
        assert OccursAt(text, Close, j) ==> OccursAt(text[b..k], Close, j - b);
      }
    }
  }

  /** The lazy body stops at the first closing sequence after it. */
  lemma FirstClose(text: string, b: nat, k: nat)
    requires b <= k && CloseAt(text, k)
    requires !Contains(text[b..k], Close)
    ensures FindClose(text, b) == Some(k)
  {
    NoCloseBefore(text, b, k);
  }

  /** `MatchAt` from the outcome of each of its steps. */
  lemma MatchAtSteps(text: string, p: nat, m: Match)
    requires p + 3 + |m.language| < |text| && FenceAt(text, p)
    requires |m.language| > 0 && WordRun(text, p + 3) == |m.language|
    requires text[p + 3 + |m.language|] == '\n'
    requires FindClose(text, p + 3 + |m.language| + 1) == Some(m.end - 4)
    requires m.start == p && m.language == text[p + 3..p + 3 + |m.language|]
    requires p + 3 + |m.language| + 1 <= m.end - 4 && m.code == text[p + 3 + |m.language| + 1..m.end - 4]
    ensures MatchAt(text, p) == Some(m)
  {
  }

  /** In a match, the tag is the greedy word run after the opening fence. */
  lemma {:induction false} MatchTag(text: string, p: nat, m: Match)
    requires IsMatchAt(text, p, m)
    ensures FenceAt(text, p)
    ensures WordRun(text, p + 3) == |m.language|
  {
    var q := p + 3 + |m.language|;
    forall j | p + 3 <= j < q ensures IsWordChar(text[j]) {
      assert text[j] == text[p + 3..q][j - p - 3] == m.language[j - p - 3];
    }
    WordRunExact(text, p + 3, |m.language|);
    FenceAtIff(text, p);
  }

  /** In a match, the body ends at the first closing sequence after the tag's newline. */
  lemma {:induction false} MatchBody(text: string, p: nat, m: Match)
    requires IsMatchAt(text, p, m)
    ensures FindClose(text, p + 3 + |m.language| + 1) == Some(p + 3 + |m.language| + 1 + |m.code|)
  {
    var q := p + 3 + |m.language|;
    var k := q + 1 + |m.code|;
    CloseAtIff(text, k);
    FirstClose(text, q + 1, k);
  }

  /** Every match of the reference definition is the one `MatchAt` finds:
      with `MatchAtSound`, the regex matches at `p` exactly when `MatchAt` does. */
  lemma {:induction false} MatchAtComplete(text: string, p: nat, m: Match)
    requires IsMatchAt(text, p, m)
    ensures MatchAt(text, p) == Some(m)
  {
    var q := p + 3 + |m.language|;
    var k := q + 1 + |m.code|;
    MatchTag(text, p, m);
    MatchBody(text, p, m);
    MatchAtSteps(text, p, m);
  }

  /** `re.finditer` from position `p`: try the pattern at each position;
      after a match go on from its end, otherwise from the next character.
      The matches come in document order and do not overlap. */
  function Scan(text: string, p: nat): (ms: seq<Match>)
    requires p <= |text|
    ensures forall i :: 0 <= i < |ms| ==> p <= ms[i].start < ms[i].end <= |text|
    decreases |text| - p
  {
    if p == |text| then []
    else
      match MatchAt(text, p)
      case Some(m) => [m] + Scan(text, m.end)
      case None => Scan(text, p + 1)
  }

  /** One step of the scan at a position where the pattern matches. */
  lemma ScanStep(text: string, p: nat, taken: seq<Match>)
    requires p < |text| && MatchAt(text, p).Some?
    requires taken + Scan(text, p) == Scan(text, 0)
    ensures (taken + [MatchAt(text, p).value]) + Scan(text, MatchAt(text, p).value.end) == Scan(text, 0)
  {
    var m := MatchAt(text, p).value;
    assert Scan(text, p) == [m] + Scan(text, m.end);
  }

  /** One step of the extraction loop at a position where the pattern matches:
      the match joins those taken and its example those found. */
  lemma ExtractStep(filePath: string, text: string, p: nat, taken: seq<Match>, found: seq<CodeExample>)
    requires p < |text| && MatchAt(text, p).Some?
    requires taken + Scan(text, p) == Scan(text, 0)
    requires forall i :: 0 <= i < |taken| ==> taken[i].start <= |text|
    requires found == ExamplesOf(filePath, text, taken)
    ensures var m := MatchAt(text, p).value;
      && (taken + [m]) + Scan(text, m.end) == Scan(text, 0)
      && (forall i :: 0 <= i < |taken + [m]| ==> (taken + [m])[i].start <= |text|)
      && found + [ToExample(filePath, text, m)] == ExamplesOf(filePath, text, taken + [m])
  {
    var m := MatchAt(text, p).value;
    ScanStep(text, p, taken);
    ExamplesOfSnoc(filePath, text, taken, m);
  }

  /** The matches come in document order and do not overlap. */
  lemma {:induction false} ScanOrdered(text: string, p: nat)
    requires p <= |text|
    ensures forall i, j :: 0 <= i < j < |Scan(text, p)| ==> Scan(text, p)[i].end <= Scan(text, p)[j].start
    decreases |text| - p
  {
    if p < |text| {
      var r := MatchAt(text, p);
      if r.Some? {
        var rest := Scan(text, r.value.end);
        ScanOrdered(text, r.value.end);
        assert Scan(text, p) == [r.value] + rest;
      } else {
        ScanOrdered(text, p + 1);
      }
    }
  }

  /** Every match the scan returns is a match of the pattern where it starts. */
  lemma {:induction false} ScanSound(text: string, p: nat)
    requires p <= |text|
    ensures forall i :: 0 <= i < |Scan(text, p)| ==> IsMatchAt(text, Scan(text, p)[i].start, Scan(text, p)[i])
    decreases |text| - p
  {
    if p < |text| {
      match MatchAt(text, p)
      case Some(m) =>
        MatchAtSound(text, p);
        ScanSound(text, m.end);
      case None =>
        ScanSound(text, p + 1);
    }
  }

  /** The returned match that covers position `j`, where the pattern matches. */
  lemma {:induction false} CoveringMatch(text: string, p: nat, j: nat) returns (i: nat)
    requires p <= j < |text| && MatchAt(text, j).Some?
    ensures i < |Scan(text, p)| && Scan(text, p)[i].start <= j < Scan(text, p)[i].end
    decreases |text| - p, 1
  {
    match MatchAt(text, p)
    case Some(m) =>
      if j < m.end {
        i := 0;
        ScanAfterMatch(text, p, m, 0);
      } else {
        i := CoveringAfterMatch(text, p, m, j);
      }
    case None =>
      i := CoveringAfterMiss(text, p, j);
  }

  /** `CoveringMatch` past the match `m` at `p`: a later match covers `j`. */
  lemma {:induction false} CoveringAfterMatch(text: string, p: nat, m: Match, j: nat) returns (i: nat)
    requires p < |text| && MatchAt(text, p) == Some(m)
    requires m.end <= j < |text| && MatchAt(text, j).Some?
    ensures i < |Scan(text, p)| && Scan(text, p)[i].start <= j < Scan(text, p)[i].end
    decreases |text| - p, 0
  {
    var k := CoveringMatch(text, m.end, j);
    i := k + 1;
    ScanAfterMatch(text, p, m, i);
  }

  /** `CoveringMatch` where the pattern does not match at `p`: then `j` is
      further on, and the scan from the next character covers it. */
  lemma {:induction false} CoveringAfterMiss(text: string, p: nat, j: nat) returns (i: nat)
    requires p <= j < |text| && MatchAt(text, j).Some? && MatchAt(text, p).None?
    ensures i < |Scan(text, p)| && Scan(text, p)[i].start <= j < Scan(text, p)[i].end
    decreases |text| - p, 0
  {
    ScanAfterMiss(text, p);
    i := CoveringMatch(text, p + 1, j);
  }

  /** After a match `m` at `p`, the scan from `p` is `m` followed by the
      scan from its end: its `i`-th match is `m` or the scan's `i - 1`-th. */
  lemma ScanAfterMatch(text: string, p: nat, m: Match, i: nat)
    requires p < |text| && MatchAt(text, p) == Some(m)
    requires i <= |Scan(text, m.end)|
    ensures |Scan(text, p)| == |Scan(text, m.end)| + 1
    ensures Scan(text, p)[i] == if i == 0 then m else Scan(text, m.end)[i - 1]
  {
    assert Scan(text, p) == [m] + Scan(text, m.end);
  }

  /** Where the pattern does not match, the scan goes on from the next character. */
  lemma ScanAfterMiss(text: string, p: nat)
    requires p < |text| && MatchAt(text, p).None?
    ensures Scan(text, p) == Scan(text, p + 1)
  {
  }

  /** The scan misses nothing: every position from `p` on where the pattern
      matches is the start of a returned match or lies inside one. */
  lemma ScanMissesNothing(text: string, p: nat, j: nat)
    requires p <= j < |text| && MatchAt(text, j).Some?
    ensures exists i :: 0 <= i < |Scan(text, p)| && Scan(text, p)[i].start <= j < Scan(text, p)[i].end
  {
    var i := CoveringMatch(text, p, j);
  }

  /** A text without three backticks from `p` on has no match from `p` on. */
  lemma {:induction false} ScanWithoutFence(text: string, p: nat)
    requires p <= |text|
    requires forall j :: p <= j ==> !OccursAt(text, Fence, j)
    ensures Scan(text, p) == []
    decreases |text| - p
  {
    if p < |text| {
      FenceAtIff(text, p);
      ScanWithoutFence(text, p + 1);
    }
  }

  /** `before_code.split('\n')[-5:]`, joined and stripped: the context of an example. */
  function Context(before: string): (r: string)
    ensures r == [] || (!IsSpace(r[0]) && !IsSpace(r[|r| - 1]))
  {
    Strip(Join(LastN(Split(before, '\n'), 5), '\n'))
  }

  /** The context spans at most five lines: it holds at most four newlines. */
  lemma ContextLines(before: string)
    ensures CountChar(Context(before), '\n') <= 4
  {
    var parts := Split(before, '\n');
    var last := LastN(parts, 5);
    SplitPiecesFree(before, '\n');
    assert forall k :: 0 <= k < |last| ==> last[k] in parts;
    JoinCount(last, '\n');
    var joined := Join(last, '\n');
    var i, j := StripIsSlice(joined);
    CountCharSlice(joined, i, j, '\n');
  }

  /** The record built from a match: it keeps the path and the two groups;
      `line_number` counts the newlines before the match, so it lies between
      1 and the number of lines of the text; the context spans at most five lines. */
  function ToExample(filePath: string, text: string, m: Match): (e: CodeExample)
    requires m.start <= |text|
    ensures e.filePath == filePath && e.language == m.language && e.code == m.code
    ensures 1 <= e.lineNumber <= CountChar(text, '\n') + 1
    ensures CountChar(e.context, '\n') <= 4
  {
    CountCharSlice(text, 0, m.start, '\n');
    assert text[0..m.start] == text[..m.start];
    ContextLines(text[..m.start]);
    CodeExample(filePath, CountChar(text[..m.start], '\n') + 1, m.language, m.code, Context(text[..m.start]))
  }

  /** One example per match, in the order of the matches. */
  function ExamplesOf(filePath: string, text: string, ms: seq<Match>): (es: seq<CodeExample>)
    requires forall i :: 0 <= i < |ms| ==> ms[i].start <= |text|
    ensures |es| == |ms|
    ensures forall i :: 0 <= i < |es| ==> es[i].filePath == filePath
  {
    if ms == [] then []
    else ExamplesOf(filePath, text, ms[..|ms| - 1]) + [ToExample(filePath, text, ms[|ms| - 1])]
  }

  lemma ExamplesOfSnoc(filePath: string, text: string, ms: seq<Match>, m: Match)
    requires forall i :: 0 <= i < |ms| ==> ms[i].start <= |text|
    requires m.start <= |text|
    ensures ExamplesOf(filePath, text, ms + [m]) == ExamplesOf(filePath, text, ms) + [ToExample(filePath, text, m)]
  {
    assert (ms + [m])[..|ms|] == ms;
  }

  lemma {:induction false} ExamplesOfAt(filePath: string, text: string, ms: seq<Match>, i: nat)
    requires forall k :: 0 <= k < |ms| ==> ms[k].start <= |text|
    requires i < |ms|
    ensures ExamplesOf(filePath, text, ms)[i] == ToExample(filePath, text, ms[i])
    decreases |ms|
  {
    if i < |ms| - 1 {
      ExamplesOfAt(filePath, text, ms[..|ms| - 1], i);
    }
  }

  /** What `extract_examples` returns: nothing for a missing file, otherwise one
      example per match of the pattern, in document order. */
  function Extracted(filePath: string, content: Option<string>): (es: seq<CodeExample>)
    ensures content.None? ==> es == []
    ensures content.Some? ==> |es| == |Scan(content.value, 0)|
    ensures forall i :: 0 <= i < |es| ==> es[i].filePath == filePath
  {
    match content
    case None => []
    case Some(text) => ExamplesOf(filePath, text, Scan(text, 0))
  }

  /** The `i`-th extracted example is built from the `i`-th match. */
  lemma ExtractedAt(filePath: string, text: string, i: nat)
    requires i < |Scan(text, 0)|
    ensures |Extracted(filePath, Some(text))| == |Scan(text, 0)|
    ensures Extracted(filePath, Some(text))[i] == ToExample(filePath, text, Scan(text, 0)[i])
  {
    ExamplesOfAt(filePath, text, Scan(text, 0), i);
  }

  /** Each extracted example: its line number is between 1 and the number of
      lines of the file, its tag is a non-empty run of word characters, its
      body holds no closing sequence, its context at most four newlines. */
  lemma ExtractedWellFormedAt(filePath: string, text: string, i: nat)
    requires i < |Extracted(filePath, Some(text))|
    ensures var e := Extracted(filePath, Some(text))[i];
      && 1 <= e.lineNumber <= CountChar(text, '\n') + 1
      && |e.language| > 0
      && (forall k :: 0 <= k < |e.language| ==> IsWordChar(e.language[k]))
      && !Contains(e.code, Close)
      && CountChar(e.context, '\n') <= 4
      && e.filePath == filePath
  {
    var ms := Scan(text, 0);
    ExtractedAt(filePath, text, i);
    ScanSound(text, 0);
    assert IsMatchAt(text, ms[i].start, ms[i]);
  }

  /** The same facts for every extracted example. */
  lemma ExtractedWellFormed(filePath: string, text: string)
    ensures forall e :: e in Extracted(filePath, Some(text)) ==>
      && 1 <= e.lineNumber <= CountChar(text, '\n') + 1
      && |e.language| > 0
      && (forall k :: 0 <= k < |e.language| ==> IsWordChar(e.language[k]))
      && !Contains(e.code, Close)
      && CountChar(e.context, '\n') <= 4
      && e.filePath == filePath
  {
    var es := Extracted(filePath, Some(text));
    forall i | 0 <= i < |es| {
      ExtractedWellFormedAt(filePath, text, i);
    }
  }

  /** Each extracted example is the text of its match, cut as the pattern's groups cut it. */
  lemma ExtractedSpans(filePath: string, text: string)
    ensures |Extracted(filePath, Some(text))| == |Scan(text, 0)|
    ensures forall i :: 0 <= i < |Scan(text, 0)| ==>
      var m := Scan(text, 0)[i];
      var e := Extracted(filePath, Some(text))[i];
      text[m.start..m.end] == Fence + e.language + "\n" + e.code + Close
  {
    var ms := Scan(text, 0);
    ScanSound(text, 0);
    forall i | 0 <= i < |ms|
      ensures var e := Extracted(filePath, Some(text))[i];
        text[ms[i].start..ms[i].end] == Fence + e.language + "\n" + e.code + Close
    {
      MatchSpan(text, ms[i].start, ms[i]);
      ExamplesOfAt(filePath, text, ms, i);
    }
  }

  /** The newline after the tag lies inside the match, so a match after it
      starts on a later line. */
  lemma LaterMatchLaterLine(text: string, m: Match, start: nat)
    requires IsMatchAt(text, m.start, m) && m.end <= start <= |text|
    ensures CountChar(text[..m.start], '\n') < CountChar(text[..start], '\n')
  {
    CountCharPrefixStrict(text, m.start, m.start + |Fence| + |m.language|, start, '\n');
  }

  /** Examples come in document order: each match holds the newline after
      its tag, so line numbers strictly increase. */
  lemma ExtractedInOrder(filePath: string, text: string)
    ensures forall i, j :: 0 <= i < j < |Extracted(filePath, Some(text))| ==>
      Extracted(filePath, Some(text))[i].lineNumber < Extracted(filePath, Some(text))[j].lineNumber
  {
    var ms := Scan(text, 0);
    var es := Extracted(filePath, Some(text));
    ScanOrdered(text, 0);
    ScanSound(text, 0);
    forall i, j | 0 <= i < j < |es|
      ensures es[i].lineNumber < es[j].lineNumber
    {
      ExtractedAt(filePath, text, i);
      ExtractedAt(filePath, text, j);
      LaterMatchLaterLine(text, ms[i], ms[j].start);
    }
  }

  /** A document without three backticks yields no example. */
  lemma NoFenceNoExamples(filePath: string, text: string)
    requires !Contains(text, Fence)
    ensures Extracted(filePath, Some(text)) == []
  {
    ContainsIff(text, Fence);
    ScanWithoutFence(text, 0);
  }
}
