/** The generic-prompt refiner of lib/prompt_enhancer.py: examples whose user
    prompt is one of the generic instructions get a specific instruction that a
    remote model writes for their assistant body, asked for in batches. */
module PromptEnhancer {
  import opened Text
  import opened Config
  import opened TrainingFormat

  /** Longest prefix of a body sent to the remote model. */
  const TruncateAt: nat := 1000

  /** The prompt used to pad a short reply. */
  const PadPrompt: string := "Write an email in your tone."

  /** The remote chat model. Its reply is a fixed function of the (truncated)
      bodies of the batch; every request is logged in `requests`. */
  class Client {
    const answer: seq<string> -> string
    var requests: seq<seq<string>>

    constructor (answer: seq<string> -> string)
      ensures this.answer == answer && requests == []
    {
      this.answer := answer;
      requests := [];
    }

    method Complete(batch: seq<string>) returns (reply: string)
      modifies this
      ensures requests == old(requests) + [batch]
      ensures reply == answer(batch)
    {
      requests := requests + [batch];
      reply := answer(batch);
    }
  }

  // ===========================================================================
  // generate_specific_prompts_batch: truncation and reply parsing
  // ===========================================================================

  /** `body[:1000] if len(body) > 1000 else body` */
  function Truncate(body: string): (r: string)
    ensures |r| <= |body| && |r| <= TruncateAt && r == body[..|r|]
    ensures |body| <= TruncateAt ==> r == body
    ensures |body| > TruncateAt ==> |r| == TruncateAt
  {
    if |body| > TruncateAt then body[..TruncateAt] else body
  }

  function TruncateAll(bodies: seq<string>): (r: seq<string>)
    ensures |r| == |bodies|
    ensures forall i :: 0 <= i < |bodies| ==> r[i] == Truncate(bodies[i])
  {
    seq(|bodies|, i requires 0 <= i < |bodies| => Truncate(bodies[i]))
  }

  /** Position of the first letter of `line` at or after `from`, or `|line|`. */
  function FirstAlpha(line: string, from: nat): (k: nat)
    requires from <= |line|
    ensures from <= k <= |line|
    ensures k < |line| ==> IsAlpha(line[k])
    ensures forall j :: from <= j < k ==> !IsAlpha(line[j])
    decreases |line| - from
  {
    if from == |line| then from
    else if IsAlpha(line[from]) then from
    else FirstAlpha(line, from + 1)
  }

  /** What one line of the reply contributes: nothing for a blank line, the
      stripped rest from the first letter on for a numbered line (nothing if it
      has no letter), the stripped line otherwise. */
  function ParsedLine(raw: string): Option<string>
  {
    var line := Strip(raw);
    if line == [] then None
    else if IsDigit(line[0]) then
      var k := FirstAlpha(line, 0);
      if k < |line| then Some(Strip(line[k..])) else None
    else Some(line)
  }

  /** The prompts parsed from a sequence of lines, in order. */
  function ParsedLines(lines: seq<string>): seq<string>
  {
    if lines == [] then []
    else
      ParsedLines(lines[..|lines| - 1]) + OptionToSeq(ParsedLine(lines[|lines| - 1]))
  }

  /** The prompts parsed from a reply: stripped, then split on `\n`. */
  function ParseReply(reply: string): seq<string>
  {
    ParsedLines(SplitOn(Strip(reply), '\n'))
  }

  /** The body of the parsing loop for one line: skip a blank line, keep the
      rest of a numbered line from its first letter on, keep any other line. */
  method ParseLine(raw: string) returns (p: Option<string>)
    ensures p == ParsedLine(raw)
  {
    hide Strip, IsAlpha;
    var line := Strip(raw);
    if line == [] {
      return None;
    }
    if IsDigit(line[0]) {
      var i := 0;
      while i < |line| && !IsAlpha(line[i])
        invariant 0 <= i <= |line|
        invariant FirstAlpha(line, i) == FirstAlpha(line, 0)
      {
        i := i + 1;
      }
      if i < |line| {
        p := Some(Strip(line[i..]));
      } else {
        p := None;
      }
    } else {
      p := Some(line);
    }
  }

  function OptionToSeq(p: Option<string>): seq<string>
  {
    if p.Some? then [p.value] else []
  }

  lemma ParsedLinesStep(lines: seq<string>, n: nat)
    requires n < |lines|
    ensures ParsedLines(lines[..n + 1]) == ParsedLines(lines[..n]) + OptionToSeq(ParsedLine(lines[n]))
  {
    assert lines[..n + 1][..n] == lines[..n];
  }

  /** The response-parsing loop of `generate_specific_prompts_batch`. */
  method ParseResponse(reply: string) returns (prompts: seq<string>)
    ensures prompts == ParseReply(reply)
  {
    hide ParsedLine;
    var lines := SplitOn(Strip(reply), '\n');
    prompts := [];
    for n := 0 to |lines|
      invariant prompts == ParsedLines(lines[..n])
    {
      ParsedLinesStep(lines, n);
      var p := ParseLine(lines[n]);
      if p.Some? {
        prompts := prompts + [p.value];
      }
    }
    assert lines[..|lines|] == lines;
  }

  /** The prompts one batch yields: none, and no request, for an empty batch. */
  function BatchPrompts(answer: seq<string> -> string, batch: seq<string>): seq<string>
  {
    if batch == [] then [] else ParseReply(answer(TruncateAll(batch)))
  }

  /** `generate_specific_prompts_batch`: one request per non-empty batch. */
  method GenerateSpecificPromptsBatch(client: Client, bodies: seq<string>) returns (prompts: seq<string>)
    modifies client
    ensures bodies == [] ==> client.requests == old(client.requests)
    ensures bodies != [] ==> client.requests == old(client.requests) + [TruncateAll(bodies)]
    ensures prompts == BatchPrompts(client.answer, bodies)
  {
    if bodies == [] {
      return [];
    }
    var truncated: seq<string> := [];
    for i := 0 to |bodies|
      invariant |truncated| == i
      invariant forall j :: 0 <= j < i ==> truncated[j] == Truncate(bodies[j])
    {
      truncated := truncated + [Truncate(bodies[i])];
    }
    assert truncated == TruncateAll(bodies);
    var reply := client.Complete(truncated);
    prompts := ParseResponse(reply);
  }

  // ===========================================================================
  // Properties of the parser
  // ===========================================================================

  /** Every parsed prompt is non-empty, has no surrounding whitespace and does
      not start with a digit. */
  lemma ParsedLineShape(raw: string)
    ensures ParsedLine(raw).Some? ==>
      var p := ParsedLine(raw).value; p != [] && IsTrimmed(p) && !IsDigit(p[0])
  {
    var line := Strip(raw);
    if line != [] && IsDigit(line[0]) {
      var k := FirstAlpha(line, 0);
      if k < |line| {
        var rest := line[k..];
        assert !IsSpace(rest[0]) && !AllSpace(rest);
        var p := Strip(rest);
        StripSlice(rest);
        var a := LeadingSpaces(rest);
        assert a == 0;
        assert p[0] == rest[0];
      }
    }
  }

  /** The cases of the parsing loop: a blank line gives nothing, a line not led
      by a digit gives itself stripped, and a digit-led line gives the stripped
      rest from its first letter on, or nothing when it holds no letter. */
  lemma ParsedLineCases(raw: string)
    ensures Strip(raw) == [] ==> ParsedLine(raw) == None
    ensures Strip(raw) != [] && !IsDigit(Strip(raw)[0]) ==> ParsedLine(raw) == Some(Strip(raw))
    ensures (Strip(raw) != [] && IsDigit(Strip(raw)[0])
             && forall j :: 0 <= j < |Strip(raw)| ==> !IsAlpha(Strip(raw)[j]))
            ==> ParsedLine(raw) == None
    ensures forall k :: (0 <= k < |Strip(raw)| && IsDigit(Strip(raw)[0]) && IsAlpha(Strip(raw)[k])
                         && forall j :: 0 <= j < k ==> !IsAlpha(Strip(raw)[j]))
                        ==> ParsedLine(raw) == Some(Strip(Strip(raw)[k..]))
  {
    hide Strip, IsAlpha, IsDigit;
  }

  lemma {:induction false} ParsedLinesShape(lines: seq<string>)
    ensures forall p :: p in ParsedLines(lines) ==> p != [] && IsTrimmed(p) && !IsDigit(p[0])
    ensures |ParsedLines(lines)| <= |lines|
    decreases |lines|
  {
    if lines != [] {
      ParsedLinesShape(lines[..|lines| - 1]);
      ParsedLineShape(lines[|lines| - 1]);
    }
  }

  lemma {:induction false} ParsedLinesAppend(a: seq<string>, b: seq<string>)
    ensures ParsedLines(a + b) == ParsedLines(a) + ParsedLines(b)
    decreases |b|
  {
    hide ParsedLine;
    if b == [] {
      assert a + b == a;
    } else {
      var b' := b[..|b| - 1];
      assert (a + b)[..|a + b| - 1] == a + b';
      ParsedLinesAppend(a, b');
    }
  }

  /** A prompt the parser reads back unchanged: it starts with a letter, has no
      surrounding whitespace and no `\n`. */
  predicate WellFormedPrompt(p: string)
  {
    p != [] && IsAlpha(p[0]) && IsTrimmed(p) && '\n' !in p
  }

  /** Line `n` of a numbered answer: "n. prompt". */
  function NumberedLine(n: nat, p: string): string
  {
    NatToString(n) + ". " + p
  }

  /** The numbered list of `ps`, counting from `from`. */
  function Numbered(ps: seq<string>, from: nat): (r: seq<string>)
    ensures |r| == |ps|
    decreases |ps|
  {
    if ps == [] then [] else [NumberedLine(from, ps[0])] + Numbered(ps[1..], from + 1)
  }

  /** The shape of a numbered line: a leading digit, the prompt after the
      number and ". ", no letter and no `\n` before it. */
  lemma NumberedLineShape(n: nat, p: string)
    requires WellFormedPrompt(p)
    ensures var line := NumberedLine(n, p); var k := |NatToString(n)| + 2;
      && k < |line| && line[k..] == p
      && IsDigit(line[0]) && line[|line| - 1] == p[|p| - 1]
      && (forall j :: 0 <= j < k ==> !IsAlpha(line[j]))
      && '\n' !in line
  {
    var d := NatToString(n);
    var line := NumberedLine(n, p);
    var k := |d| + 2;
    assert line[0] == d[0];
    assert line[k..] == p;
    forall j | 0 <= j < k ensures !IsAlpha(line[j]) && line[j] != '\n' {
      if j < |d| {
        assert line[j] == d[j];
      }
    }
    forall j | k <= j < |line| ensures line[j] != '\n' {
      assert line[j] == p[j - k];
    }
  }

  lemma NumberedLineParses(n: nat, p: string)
    requires WellFormedPrompt(p)
    ensures ParsedLine(NumberedLine(n, p)) == Some(p)
    ensures '\n' !in NumberedLine(n, p)
    ensures NumberedLine(n, p) != [] && IsDigit(NumberedLine(n, p)[0])
    ensures !IsSpace(NumberedLine(n, p)[|NumberedLine(n, p)| - 1])
  {
    var line := NumberedLine(n, p);
    NumberedLineShape(n, p);
    StripTrimmed(line);
    var k := |NatToString(n)| + 2;
    assert FirstAlpha(line, 0) == k;
    StripTrimmed(p);
  }

  lemma {:induction false} NumberedParses(ps: seq<string>, from: nat)
    requires forall p :: p in ps ==> WellFormedPrompt(p)
    ensures ParsedLines(Numbered(ps, from)) == ps
    ensures forall l :: l in Numbered(ps, from) ==> '\n' !in l
    decreases |ps|
  {
    hide ParsedLine, NumberedLine;
    if ps != [] {
      NumberedLineParses(from, ps[0]);
      NumberedParses(ps[1..], from + 1);
      ParsedLinesAppend([NumberedLine(from, ps[0])], Numbered(ps[1..], from + 1));
      assert [NumberedLine(from, ps[0])][..0] == [];
    }
  }

  /** The first character of a join is that of the first part, the last that of the last part. */
  lemma {:induction false} JoinEnds(parts: seq<string>, sep: string)
    requires parts != [] && forall i :: 0 <= i < |parts| ==> parts[i] != []
    ensures Join(parts, sep) != []
    ensures Join(parts, sep)[0] == parts[0][0]
    ensures Join(parts, sep)[|Join(parts, sep)| - 1] == parts[|parts| - 1][|parts[|parts| - 1]| - 1]
    decreases |parts|
  {
    if |parts| > 1 {
      JoinEnds(parts[1..], sep);
    }
  }

  /** A numbered reply starts with a digit and ends with the last prompt's
      last character, so stripping it changes nothing. */
  lemma NumberedReplyTrimmed(ps: seq<string>)
    requires ps != [] && forall p :: p in ps ==> WellFormedPrompt(p)
    ensures IsTrimmed(Join(Numbered(ps, 1), "\n"))
  {
    hide Numbered, Join;
    var lines := Numbered(ps, 1);
    var m := |ps| - 1;
    NumberedAt(ps, 1, 0);
    NumberedAt(ps, 1, m);
    NumberedLineShape(1, ps[0]);
    NumberedLineShape(1 + m, ps[m]);
    forall i | 0 <= i < |lines| ensures lines[i] != [] {
      NumberedAt(ps, 1, i);
    }
    JoinEnds(lines, "\n");
  }

  /** A reply numbered "1. ", "2. ", … one prompt per line is parsed back into
      exactly those prompts. */
  lemma ParseNumberedReply(ps: seq<string>)
    requires ps != [] && forall p :: p in ps ==> WellFormedPrompt(p)
    ensures ParseReply(Join(Numbered(ps, 1), "\n")) == ps
  {
    var lines := Numbered(ps, 1);
    NumberedParses(ps, 1);
    NumberedReplyTrimmed(ps);
    StripTrimmed(Join(lines, "\n"));
    SplitOnJoin(lines, '\n');
  }

  lemma {:induction false} NumberedAt(ps: seq<string>, from: nat, i: nat)
    requires i < |ps|
    ensures Numbered(ps, from)[i] == NumberedLine(from + i, ps[i])
    decreases i
  {
    if i > 0 {
      NumberedAt(ps[1..], from + 1, i - 1);
    }
  }

  // ===========================================================================
  // enhance_generic_prompts
  // ===========================================================================

  /** `user_msg.lower().strip() in GENERIC_PROMPTS` */
  predicate IsGenericPrompt(user: string)
  {
    Strip(Lower(user)) in GenericPrompts
  }

  /** An example with messages whose first user content is a generic prompt. */
  predicate IsGeneric(e: Example)
  {
    e.Chat? && IsGenericPrompt(FirstContent(e.messages, "user"))
  }

  /** The first assistant content of an example, "" when it has none. */
  function AssistantOf(e: Example): string
  {
    if e.Chat? then FirstContent(e.messages, "assistant") else ""
  }

  /** `generic_indices`. */
  function GenericIndices(es: seq<Example>): seq<nat>
  {
    if es == [] then []
    else GenericIndices(es[..|es| - 1]) + (if IsGeneric(es[|es| - 1]) then [|es| - 1] else [])
  }

  /** `generic_bodies`. */
  function GenericBodies(es: seq<Example>): (r: seq<string>)
    ensures |r| == |GenericIndices(es)|
  {
    if es == [] then []
    else
      var last := es[|es| - 1];
      GenericBodies(es[..|es| - 1]) + (if IsGeneric(last) then [AssistantOf(last)] else [])
  }

  /** Length of the next batch: `PROMPT_ENHANCEMENT_BATCH_SIZE` or what is left. */
  function NextBatch(bodies: seq<string>): (m: nat)
    ensures m <= |bodies| && m <= BatchSize
    ensures bodies != [] ==> m > 0
  {
    if |bodies| < BatchSize then |bodies| else BatchSize
  }

  /** `generic_bodies[i:i + B]` for `i` in `range(0, G, B)`. */
  function Batches(bodies: seq<string>): seq<seq<string>>
    decreases |bodies|
  {
    if bodies == [] then []
    else
      var m := NextBatch(bodies);
      [bodies[..m]] + Batches(bodies[m..])
  }

  /** The requests sent for the batches of `bodies`. */
  function Requests(bodies: seq<string>): seq<seq<string>>
    decreases |bodies|
  {
    if bodies == [] then []
    else
      var m := NextBatch(bodies);
      [TruncateAll(bodies[..m])] + Requests(bodies[m..])
  }

  /** The prompts a batch yields, as a function of the batch alone. */
  function Prompter(answer: seq<string> -> string): seq<string> -> seq<string>
  {
    batch => BatchPrompts(answer, batch)
  }

  /** `refined_prompts` after the batch loop, for any per-batch prompt
      function (the refiner's is `Prompter(answer)`). */
  function Refined(prompter: seq<string> -> seq<string>, bodies: seq<string>): seq<string>
    decreases |bodies|
  {
    if bodies == [] then []
    else
      var m := NextBatch(bodies);
      prompter(bodies[..m]) + Refined(prompter, bodies[m..])
  }

  /** `n` copies of the pad prompt. */
  function Padding(n: nat): (r: seq<string>)
    ensures |r| == n
    ensures forall k :: 0 <= k < n ==> r[k] == PadPrompt
  {
    if n == 0 then [] else Padding(n - 1) + [PadPrompt]
  }

  lemma PaddingSnoc(n: nat)
    ensures Padding(n + 1) == Padding(n) + [PadPrompt]
  {
  }

  /** `refined_prompts` after the padding loop: never shorter than `count`, the
      fetched prompts first and only the pad prompt after them. */
  function Padded(prompts: seq<string>, count: nat): (r: seq<string>)
    ensures |r| == if |prompts| < count then count else |prompts|
    ensures r[..|prompts|] == prompts
    ensures forall k :: |prompts| <= k < |r| ==> r[k] == PadPrompt
  {
    if |prompts| < count then prompts + Padding(count - |prompts|) else prompts
  }

  /** The examples after the first `j` replacements of the `zip` loop. */
  function Replaced(es: seq<Example>, idx: seq<nat>, prompts: seq<string>, j: nat): (r: seq<Example>)
    requires j <= |idx| && j <= |prompts|
    requires forall k :: 0 <= k < |idx| ==> idx[k] < |es|
    ensures |r| == |es|
  {
    if j == 0 then es
    else
      var t := idx[j - 1];
      Replaced(es, idx, prompts, j - 1)[t := Pair(prompts[j - 1], AssistantOf(es[t]))]
  }

  /** The examples `enhance_generic_prompts` returns. */
  function Enhanced(answer: seq<string> -> string, es: seq<Example>): seq<Example>
  {
    var idx := GenericIndices(es);
    GenericIndicesSpec(es);
    if idx == [] then es
    else Replaced(es, idx, Padded(Refined(Prompter(answer), GenericBodies(es)), |idx|), |idx|)
  }

  /** The call count `enhance_generic_prompts` returns: `num_batches`, or 0. */
  function EnhanceCalls(es: seq<Example>): nat
  {
    var g := |GenericIndices(es)|;
    if g == 0 then 0 else (g + BatchSize - 1) / BatchSize
  }

  /** The detection loop: `generic_indices` and `generic_bodies`. */
  method FindGeneric(examples: seq<Example>) returns (idx: seq<nat>, bodies: seq<string>)
    ensures idx == GenericIndices(examples)
    ensures bodies == GenericBodies(examples)
  {
    idx := [];
    bodies := [];
    for n := 0 to |examples|
      invariant idx == GenericIndices(examples[..n])
      invariant bodies == GenericBodies(examples[..n])
    {
      assert examples[..n + 1][..n] == examples[..n];
      var e := examples[n];
      if !e.Chat? {
        continue;
      }
      var user := FirstContent(e.messages, "user");
      var assistant := FirstContent(e.messages, "assistant");
      if Strip(Lower(user)) in GenericPrompts {
        idx := idx + [n];
        bodies := bodies + [assistant];
      }
    }
    assert examples[..|examples|] == examples;
  }

  /** One batch off the front of `bodies[i..]`: the prompts gathered so far
      plus this batch's and the rest's are all the prompts. */
  lemma RefinedStep(prompter: seq<string> -> seq<string>, bodies: seq<string>, i: nat, end: nat, refined: seq<string>)
    requires i < |bodies| && end == if i + BatchSize < |bodies| then i + BatchSize else |bodies|
    requires refined + Refined(prompter, bodies[i..]) == Refined(prompter, bodies)
    ensures (refined + prompter(bodies[i..end])) + Refined(prompter, bodies[end..]) == Refined(prompter, bodies)
  {
    var rest := bodies[i..];
    FrontBatch(bodies, i, end);
    RefinedUnfold(prompter, rest);
    hide Refined;
    var a := prompter(bodies[i..end]);
    var b := Refined(prompter, bodies[end..]);
    assert (refined + a) + b == refined + (a + b);
  }

  /** The first batch of `bodies[i..]` is `bodies[i..end]`, and the rest starts at `end`. */
  lemma FrontBatch(bodies: seq<string>, i: nat, end: nat)
    requires i < |bodies| && end == if i + BatchSize < |bodies| then i + BatchSize else |bodies|
    ensures bodies[i..][..NextBatch(bodies[i..])] == bodies[i..end]
    ensures bodies[i..][NextBatch(bodies[i..])..] == bodies[end..]
  {
    var m := NextBatch(bodies[i..]);
    assert m == end - i;
  }

  lemma RefinedUnfold(prompter: seq<string> -> seq<string>, bodies: seq<string>)
    requires bodies != []
    ensures Refined(prompter, bodies)
      == prompter(bodies[..NextBatch(bodies)]) + Refined(prompter, bodies[NextBatch(bodies)..])
  {
  }

  /** The same step for the requests sent. */
  lemma RequestsStep(bodies: seq<string>, i: nat, end: nat, sent: seq<seq<string>>, total: seq<seq<string>>)
    requires i < |bodies| && end == if i + BatchSize < |bodies| then i + BatchSize else |bodies|
    requires sent + Requests(bodies[i..]) == total
    ensures (sent + [TruncateAll(bodies[i..end])]) + Requests(bodies[end..]) == total
  {
    FrontBatch(bodies, i, end);
    var rest := bodies[i..];
    assert Requests(rest) == [TruncateAll(rest[..NextBatch(rest)])] + Requests(rest[NextBatch(rest)..]);
    hide Requests, TruncateAll;
    var a := [TruncateAll(bodies[i..end])];
    var b := Requests(bodies[end..]);
    assert (sent + a) + b == sent + (a + b);
  }

  /** The batch loop: one `generate_specific_prompts_batch` call per slice of
      `PROMPT_ENHANCEMENT_BATCH_SIZE` bodies (the last slice may be shorter). */
  method FetchPrompts(client: Client, bodies: seq<string>) returns (refined: seq<string>)
    modifies client
    ensures refined == Refined(Prompter(client.answer), bodies)
    ensures client.requests == old(client.requests) + Requests(bodies)
  {
    refined := [];
    var i := 0;
    while i < |bodies|
      invariant 0 <= i <= |bodies|
      invariant refined + Refined(Prompter(client.answer), bodies[i..]) == Refined(Prompter(client.answer), bodies)
      invariant client.requests + Requests(bodies[i..]) == old(client.requests) + Requests(bodies)
      decreases |bodies| - i
    {
      var end := if i + BatchSize < |bodies| then i + BatchSize else |bodies|;
      var batch := bodies[i..end];
      RefinedStep(Prompter(client.answer), bodies, i, end, refined);
      RequestsStep(bodies, i, end, client.requests, old(client.requests) + Requests(bodies));
      var batchPrompts := GenerateSpecificPromptsBatch(client, batch);
      refined := refined + batchPrompts;
      i := end;
    }
    assert bodies[|bodies|..] == [];
  }

  /** The padding loop, run only when the count is off. */
  method PadPrompts(fetched: seq<string>, count: nat) returns (refined: seq<string>)
    ensures refined == Padded(fetched, count)
  {
    refined := fetched;
    if |refined| != count {
      while |refined| < count
        invariant |fetched| <= |refined|
        invariant refined == fetched + Padding(|refined| - |fetched|)
        invariant |fetched| < count ==> |refined| <= count
        invariant count <= |fetched| ==> refined == fetched
        decreases count - |refined|
      {
        PaddingSnoc(|refined| - |fetched|);
        refined := refined + [PadPrompt];
      }
    }
  }

  /** The replacement loop, on a copy of the examples. */
  method ReplaceGeneric(examples: seq<Example>, idx: seq<nat>, prompts: seq<string>) returns (enhanced: seq<Example>)
    requires forall k :: 0 <= k < |idx| ==> idx[k] < |examples| && examples[idx[k]].Chat?
    requires forall a, b :: 0 <= a < b < |idx| ==> idx[a] < idx[b]
    requires |idx| <= |prompts|
    ensures enhanced == Replaced(examples, idx, prompts, |idx|)
  {
    var copy := new Example[|examples|](k requires 0 <= k < |examples| => examples[k]);
    assert copy[..] == examples;
    for j := 0 to |idx|
      invariant copy[..] == Replaced(examples, idx, prompts, j)
    {
      var t := idx[j];
      ReplacedBefore(examples, idx, prompts, j, t);
      var e := copy[t];
      var assistant := FirstContent(e.messages, "assistant");
      copy[t] := Pair(prompts[j], assistant);
    }
    enhanced := copy[..];
  }

  /** `enhance_generic_prompts`: detection, batched requests, padding and
      replacement on a copy of the list; the input list is not modified. */
  method EnhanceGenericPrompts(client: Client, examples: seq<Example>)
    returns (enhanced: seq<Example>, calls: nat)
    modifies client
    ensures enhanced == Enhanced(client.answer, examples)
    ensures calls == EnhanceCalls(examples)
    ensures client.requests == old(client.requests) + Requests(GenericBodies(examples))
  {
    var idx, bodies := FindGeneric(examples);
    if idx == [] {
      assert bodies == [];
      return examples, 0;
    }
    GenericIndicesSpec(examples);
    var numBatches := (|bodies| + BatchSize - 1) / BatchSize;
    var refined := FetchPrompts(client, bodies);
    refined := PadPrompts(refined, |idx|);
    enhanced := ReplaceGeneric(examples, idx, refined);
    calls := numBatches;
  }

  // ===========================================================================
  // Properties of the refiner
  // ===========================================================================

  /** The generic indices are exactly the positions of generic examples, in
      increasing order, and the bodies are their assistant contents. */
  lemma {:induction false} GenericIndicesSpec(es: seq<Example>)
    ensures forall k :: 0 <= k < |GenericIndices(es)| ==>
      GenericIndices(es)[k] < |es| && IsGeneric(es[GenericIndices(es)[k]])
    ensures forall t: nat :: t in GenericIndices(es) <==> t < |es| && IsGeneric(es[t])
    ensures forall a, b :: 0 <= a < b < |GenericIndices(es)| ==> GenericIndices(es)[a] < GenericIndices(es)[b]
    ensures forall j :: 0 <= j < |GenericIndices(es)| ==>
      GenericBodies(es)[j] == AssistantOf(es[GenericIndices(es)[j]])
    decreases |es|
  {
    hide IsGenericPrompt;
    if es != [] {
      var init := es[..|es| - 1];
      GenericIndicesSpec(init);
      forall t: nat | t < |init| ensures es[t] == init[t] { }
    }
  }

  /** Replacements so far touch no position not yet visited. */
  lemma {:induction false} ReplacedBefore(es: seq<Example>, idx: seq<nat>, prompts: seq<string>, j: nat, t: nat)
    requires j <= |idx| && j <= |prompts|
    requires forall k :: 0 <= k < |idx| ==> idx[k] < |es|
    requires t < |es| && forall k :: 0 <= k < j ==> idx[k] != t
    ensures Replaced(es, idx, prompts, j)[t] == es[t]
    decreases j
  {
    if j > 0 {
      ReplacedBefore(es, idx, prompts, j - 1, t);
    }
  }

  /** After the replacements, position `idx[k]` holds prompt `k` and its own
      assistant content. */
  lemma {:induction false} ReplacedAt(es: seq<Example>, idx: seq<nat>, prompts: seq<string>, j: nat, k: nat)
    requires j <= |idx| && j <= |prompts|
    requires forall a :: 0 <= a < |idx| ==> idx[a] < |es|
    requires forall a, b :: 0 <= a < b < |idx| ==> idx[a] < idx[b]
    requires k < j
    ensures Replaced(es, idx, prompts, j)[idx[k]] == Pair(prompts[k], AssistantOf(es[idx[k]]))
    decreases j
  {
    if k < j - 1 {
      ReplacedAt(es, idx, prompts, j - 1, k);
    }
  }

  /** The result has the input's length, and a non-generic example is returned as it is. */
  lemma EnhancedKeeps(answer: seq<string> -> string, es: seq<Example>, t: nat)
    requires t < |es| && !IsGeneric(es[t])
    ensures |Enhanced(answer, es)| == |es|
    ensures Enhanced(answer, es)[t] == es[t]
  {
    var idx := GenericIndices(es);
    GenericIndicesSpec(es);
    if idx != [] {
      var prompts := Padded(Refined(Prompter(answer), GenericBodies(es)), |idx|);
      ReplacedBefore(es, idx, prompts, |idx|, t);
    }
  }

  /** The `j`-th generic example becomes the `j`-th refined prompt, or the pad
      prompt when the replies ran short, followed by its own assistant content;
      prompts beyond the `G`-th are never used. */
  lemma EnhancedReplaces(answer: seq<string> -> string, es: seq<Example>, j: nat)
    requires j < |GenericIndices(es)|
    ensures GenericIndices(es)[j] < |es|
    ensures var t := GenericIndices(es)[j];
      var fetched := Refined(Prompter(answer), GenericBodies(es));
      Enhanced(answer, es)[t] == Pair(if j < |fetched| then fetched[j] else PadPrompt, AssistantOf(es[t]))
  {
    var idx := GenericIndices(es);
    GenericIndicesSpec(es);
    var prompts := Padded(Refined(Prompter(answer), GenericBodies(es)), |idx|);
    ReplacedAt(es, idx, prompts, |idx|, j);
  }

  /** With no generic example the input comes back as it is, with no call. */
  lemma NoGenericUnchanged(answer: seq<string> -> string, es: seq<Example>)
    requires forall t :: 0 <= t < |es| ==> !IsGeneric(es[t])
    ensures Enhanced(answer, es) == es && EnhanceCalls(es) == 0
    ensures Requests(GenericBodies(es)) == []
  {
    hide IsGeneric;
    NoGenericNoIndices(es);
  }

  lemma {:induction false} NoGenericNoIndices(es: seq<Example>)
    requires forall t :: 0 <= t < |es| ==> !IsGeneric(es[t])
    ensures GenericIndices(es) == [] && GenericBodies(es) == []
    decreases |es|
  {
    hide IsGeneric;
    if es != [] {
      var init := es[..|es| - 1];
      assert forall t :: 0 <= t < |init| ==> init[t] == es[t];
      NoGenericNoIndices(init);
    }
  }

  /** Concatenation of a sequence of batches. */
  function Flatten(bs: seq<seq<string>>): seq<string>
  {
    if bs == [] then [] else bs[0] + Flatten(bs[1..])
  }

  /** There are `ceil(G / B)` batches; they are consecutive slices that put the
      bodies back together, each holding between 1 and `B` bodies, all but the
      last exactly `B`; one request goes out per batch. */
  lemma {:induction false} BatchesSpec(bodies: seq<string>)
    ensures |Batches(bodies)| == (|bodies| + BatchSize - 1) / BatchSize
    ensures Flatten(Batches(bodies)) == bodies
    ensures forall k :: 0 <= k < |Batches(bodies)| ==> 0 < |Batches(bodies)[k]| <= BatchSize
    ensures forall k :: 0 <= k < |Batches(bodies)| - 1 ==> |Batches(bodies)[k]| == BatchSize
    ensures |Requests(bodies)| == |Batches(bodies)|
    ensures forall k :: 0 <= k < |Requests(bodies)| ==> Requests(bodies)[k] == TruncateAll(Batches(bodies)[k])
    decreases |bodies|
  {
    if bodies != [] {
      var m := NextBatch(bodies);
      BatchesSpec(bodies[m..]);
      assert bodies[..m] + bodies[m..] == bodies;
      if |bodies| >= BatchSize {
        assert (|bodies| + BatchSize - 1) / BatchSize == 1 + (|bodies| - BatchSize + BatchSize - 1) / BatchSize;
      }
    }
  }

  /** The call count returned equals the number of requests sent. */
  lemma CallsAreRequests(es: seq<Example>)
    ensures EnhanceCalls(es) == |Requests(GenericBodies(es))|
  {
    BatchesSpec(GenericBodies(es));
  }
}
