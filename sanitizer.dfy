/** The body sanitiser of lib/email_cleaner.py: three text transforms applied in
    order to every extracted body (quoted replies, signatures, leaked headers). */
module Sanitizer {
  import opened Text

  // ===========================================================================
  // strip_quoted
  // ===========================================================================

  /** A line quoted in a reply: its first non-whitespace character is `>`. */
  predicate IsQuotedLine(line: string)
  {
    StartsWith(Strip(line), ">")
  }

  /** The lines that survive the quote filter, in their original order. */
  function UnquotedLines(lines: seq<string>): (r: seq<string>)
    ensures forall l :: l in r ==> l in lines && !IsQuotedLine(l)
  {
    if lines == [] then []
    else if IsQuotedLine(lines[0]) then UnquotedLines(lines[1..])
    else [lines[0]] + UnquotedLines(lines[1..])
  }

  /** The regex `On .+?wrote:` (with DOTALL) matches at position `i`:
      "On ", at least one character, then "wrote:". */
  predicate OnWroteAt(s: string, i: int)
  {
    OccursAt(s, "On ", i) && i + 4 <= |s| && Contains(s[i + 4..], "wrote:")
  }

  /** The regex `\n\s*On\s+\w+,` matches at position `i`. Each repeated class is
      followed by a character outside it, so only the maximal runs can match. */
  predicate OnWeekdayAt(s: string, i: int)
  {
    0 <= i < |s| && s[i] == '\n' &&
    var a := SpaceRunEnd(s, i + 1);
    OccursAt(s, "On", a) &&
    var b := SpaceRunEnd(s, a + 2);
    b > a + 2 &&
    var c := WordRunEnd(s, b);
    c > b && c < |s| && s[c] == ','
  }

  /** The first position from `from` on where `On .+?wrote:` matches, or `|s|`. */
  function FirstOnWrote(s: string, from: nat): (p: nat)
    requires from <= |s|
    ensures from <= p <= |s|
    ensures p < |s| ==> OnWroteAt(s, p)
    ensures forall i :: from <= i < p ==> !OnWroteAt(s, i)
    decreases |s| - from
  {
    if from == |s| then |s|
    else if OnWroteAt(s, from) then from
    else FirstOnWrote(s, from + 1)
  }

  /** The first position from `from` on where `\n\s*On\s+\w+,` matches, or `|s|`. */
  function FirstOnWeekday(s: string, from: nat): (p: nat)
    requires from <= |s|
    ensures from <= p <= |s|
    ensures p < |s| ==> OnWeekdayAt(s, p)
    ensures forall i :: from <= i < p ==> !OnWeekdayAt(s, i)
    decreases |s| - from
  {
    if from == |s| then |s|
    else if OnWeekdayAt(s, from) then from
    else FirstOnWeekday(s, from + 1)
  }

  /** `strip_quoted`: drop quoted lines, keep the text before the first
      "On ... wrote:" and then before the first "\n On <word>,", and trim. */
  function StripQuoted(body: string): string
  {
    var unquoted := Join(UnquotedLines(SplitLines(body)), "\n");
    var beforeWrote := unquoted[..FirstOnWrote(unquoted, 0)];
    var beforeWeekday := beforeWrote[..FirstOnWeekday(beforeWrote, 0)];
    Strip(beforeWeekday)
  }

  // ---------------------------------------------------------------------------
  // Quote-freedom, stated position by position
  // ---------------------------------------------------------------------------

  /** Some non-whitespace character stands before position `i` on its line. */
  predicate TextBefore(s: string, i: nat)
    requires i <= |s|
  {
    i > 0 && !IsLineBreak(s[i - 1]) && (!IsSpace(s[i - 1]) || TextBefore(s, i - 1))
  }

  /** Every `>` in `s` has a non-whitespace character before it on its own line,
      so no line of `s` starts, after its indentation, with `>`. */
  predicate QuoteFree(s: string)
  {
    forall i :: 0 <= i < |s| && s[i] == '>' ==> TextBefore(s, i)
  }

  lemma {:induction false} TextBeforeFrom(s: string, j: nat, i: nat)
    requires j < i <= |s|
    requires !IsSpace(s[j]) && forall k :: j <= k < i ==> !IsLineBreak(s[k])
    ensures TextBefore(s, i)
    decreases i
  {
    if j < i - 1 {
      TextBeforeFrom(s, j, i - 1);
    }
  }

  lemma {:induction false} NoTextBeforeInIndent(s: string, i: nat)
    requires i <= |s| && AllSpace(s[..i])
    ensures !TextBefore(s, i)
    decreases i
  {
    if i > 0 {
      assert s[i - 1] == s[..i][i - 1];
      assert s[..i - 1] == s[..i][..i - 1];
      NoTextBeforeInIndent(s, i - 1);
    }
  }

  lemma LineQuoteFree(l: string)
    requires NoLineBreak(l) && !IsQuotedLine(l)
    ensures QuoteFree(l)
  {
    hide Strip, TextBefore, LeadingSpaces, TrailingSpaces;
    var a := LeadingSpaces(l);
    StripSlice(l);
    assert a < |l| ==> Strip(l)[0] == l[a];
    forall i | 0 <= i < |l| && l[i] == '>' ensures TextBefore(l, i) {
      assert i >= a;
      assert i != a;
      TextBeforeFrom(l, a, i);
    }
  }

  lemma {:induction false} TextBeforeLeft(a: string, b: string, i: nat)
    requires i <= |a|
    ensures TextBefore(a + "\n" + b, i) == TextBefore(a, i)
    decreases i
  {
    if i > 0 {
      TextBeforeLeft(a, b, i - 1);
    }
  }

  lemma {:induction false} TextBeforeRight(a: string, b: string, i: nat)
    requires i <= |b|
    ensures TextBefore(a + "\n" + b, |a| + 1 + i) == TextBefore(b, i)
    decreases i
  {
    if i > 0 {
      TextBeforeRight(a, b, i - 1);
    }
  }

  lemma QuoteFreeAppend(a: string, b: string)
    requires QuoteFree(a) && QuoteFree(b)
    ensures QuoteFree(a + "\n" + b)
  {
    var s := a + "\n" + b;
    forall i | 0 <= i < |s| && s[i] == '>' ensures TextBefore(s, i) {
      if i < |a| {
        assert a[i] == '>';
        TextBeforeLeft(a, b, i);
      } else {
        assert b[i - |a| - 1] == '>';
        TextBeforeRight(a, b, i - |a| - 1);
      }
    }
  }

  lemma {:induction false} QuoteFreeJoin(lines: seq<string>)
    requires forall l :: l in lines ==> NoLineBreak(l) && !IsQuotedLine(l)
    ensures QuoteFree(Join(lines, "\n"))
    decreases |lines|
  {
    if |lines| == 1 {
      LineQuoteFree(lines[0]);
    } else if |lines| > 1 {
      LineQuoteFree(lines[0]);
      QuoteFreeJoin(lines[1..]);
      QuoteFreeAppend(lines[0], Join(lines[1..], "\n"));
    }
  }

  lemma {:induction false} TextBeforePrefix(s: string, n: nat, i: nat)
    requires i <= n <= |s|
    ensures TextBefore(s[..n], i) == TextBefore(s, i)
    decreases i
  {
    if i > 0 {
      TextBeforePrefix(s, n, i - 1);
    }
  }

  lemma QuoteFreePrefix(s: string, n: nat)
    requires n <= |s| && QuoteFree(s)
    ensures QuoteFree(s[..n])
  {
    forall i | 0 <= i < n && s[..n][i] == '>' ensures TextBefore(s[..n], i) {
      TextBeforePrefix(s, n, i);
    }
  }

  lemma {:induction false} TextBeforeDropIndent(s: string, a: nat, i: nat)
    requires a + i <= |s| && AllSpace(s[..a])
    requires TextBefore(s, a + i)
    ensures TextBefore(s[a..], i)
    decreases i
  {
    if i == 0 {
      NoTextBeforeInIndent(s, a);
    } else if IsSpace(s[a + i - 1]) {
      TextBeforeDropIndent(s, a, i - 1);
    }
  }

  lemma QuoteFreeStrip(s: string)
    requires QuoteFree(s)
    ensures QuoteFree(Strip(s))
  {
    var a := LeadingSpaces(s);
    StripSlice(s);
    var t := Strip(s);
    var u := s[a..];
    assert t == u[..|t|];
    forall i | 0 <= i < |t| && t[i] == '>' ensures TextBefore(t, i) {
      assert s[a + i] == '>';
      TextBeforeDropIndent(s, a, i);
      TextBeforePrefix(u, |t|, i);
    }
  }

  lemma {:induction false} TextBeforeAfterBreak(s: string, m: nat, i: nat)
    requires 0 < m && m + i <= |s| && IsLineBreak(s[m - 1])
    ensures TextBefore(s[m..], i) == TextBefore(s, m + i)
    decreases i
  {
    if i > 0 {
      TextBeforeAfterBreak(s, m, i - 1);
    }
  }

  lemma QuoteFreeAfterBreak(s: string, m: nat)
    requires 0 < m <= |s| && IsLineBreak(s[m - 1]) && QuoteFree(s)
    ensures QuoteFree(s[m..])
  {
    forall i | 0 <= i < |s| - m && s[m..][i] == '>' ensures TextBefore(s[m..], i) {
      TextBeforeAfterBreak(s, m, i);
    }
  }

  /** A quote-free line is not a quoted line. */
  lemma QuoteFreeLine(l: string)
    requires QuoteFree(l)
    ensures !IsQuotedLine(l)
  {
    var a := LeadingSpaces(l);
    StripSlice(l);
    if IsQuotedLine(l) {
      assert l[a] == Strip(l)[0];
      NoTextBeforeInIndent(l, a);
    }
  }

  /** Position by position quote-freedom means no line is a quoted line. */
  lemma {:induction false} QuoteFreeLines(s: string)
    requires QuoteFree(s)
    ensures forall l :: l in SplitLines(s) ==> !IsQuotedLine(l)
    decreases |s|
  {
    if s != [] {
      var n := LineLength(s);
      if n == |s| {
        QuoteFreeLine(s);
      } else {
        var next := if s[n] == '\r' && n + 1 < |s| && s[n + 1] == '\n' then n + 2 else n + 1;
        assert IsLineBreak(s[next - 1]);
        QuoteFreePrefix(s, n);
        QuoteFreeLine(s[..n]);
        QuoteFreeAfterBreak(s, next);
        QuoteFreeLines(s[next..]);
      }
    }
  }

  // ---------------------------------------------------------------------------
  // The reply-header matches, seen through slices
  // ---------------------------------------------------------------------------

  lemma {:induction false} SpaceRunPrefix(s: string, d: nat, f: nat)
    requires f <= d <= |s| && SpaceRunEnd(s[..d], f) < d
    ensures SpaceRunEnd(s, f) == SpaceRunEnd(s[..d], f)
    decreases d - f
  {
    if IsSpace(s[f]) {
      SpaceRunPrefix(s, d, f + 1);
    }
  }

  lemma {:induction false} WordRunPrefix(s: string, d: nat, f: nat)
    requires f <= d <= |s| && WordRunEnd(s[..d], f) < d
    ensures WordRunEnd(s, f) == WordRunEnd(s[..d], f)
    decreases d - f
  {
    if IsWordChar(s[f]) {
      WordRunPrefix(s, d, f + 1);
    }
  }

  lemma {:induction false} SpaceRunSuffix(s: string, c: nat, f: nat)
    requires c + f <= |s|
    ensures SpaceRunEnd(s[c..], f) + c == SpaceRunEnd(s, c + f)
    decreases |s| - c - f
  {
    if c + f < |s| && IsSpace(s[c + f]) {
      SpaceRunSuffix(s, c, f + 1);
    }
  }

  lemma {:induction false} WordRunSuffix(s: string, c: nat, f: nat)
    requires c + f <= |s|
    ensures WordRunEnd(s[c..], f) + c == WordRunEnd(s, c + f)
    decreases |s| - c - f
  {
    if c + f < |s| && IsWordChar(s[c + f]) {
      WordRunSuffix(s, c, f + 1);
    }
  }

  /** A "On ... wrote:" match inside a slice is a match in the whole string. */
  lemma OnWroteSlice(u: string, c: nat, d: nat, i: int)
    requires c <= d <= |u| && OnWroteAt(u[c..d], i)
    ensures OnWroteAt(u, c + i)
  {
    OccursInSlice(u, "On ", c, d, i);
    var w := u[c + i + 4..];
    assert u[c..d][i + 4..] == w[..d - c - i - 4];
    if !Contains(w, "wrote:") {
      NotContainsSlice(w, "wrote:", 0, d - c - i - 4);
    }
  }

  lemma OnWeekdayPrefix(u: string, d: nat, i: int)
    requires d <= |u| && OnWeekdayAt(u[..d], i)
    ensures OnWeekdayAt(u, i)
  {
    var t := u[..d];
    SpaceRunPrefix(u, d, i + 1);
    var a := SpaceRunEnd(t, i + 1);
    assert t[a..a + 2] == u[a..a + 2];
    SpaceRunPrefix(u, d, a + 2);
    WordRunPrefix(u, d, SpaceRunEnd(t, a + 2));
  }

  lemma OnWeekdaySuffix(u: string, c: nat, i: int)
    requires c <= |u| && OnWeekdayAt(u[c..], i)
    ensures OnWeekdayAt(u, c + i)
  {
    hide SpaceRunEnd, WordRunEnd, IsSpace, IsWordChar;
    var t := u[c..];
    SpaceRunSuffix(u, c, i + 1);
    var a := SpaceRunEnd(t, i + 1);
    assert t[a..a + 2] == u[c + a..c + a + 2];
    SpaceRunSuffix(u, c, a + 2);
    WordRunSuffix(u, c, SpaceRunEnd(t, a + 2));
  }

  /** A "\n On <word>," match inside a slice is a match in the whole string: every
      run it uses ends at a character inside the slice. */
  lemma OnWeekdaySlice(u: string, c: nat, d: nat, i: int)
    requires c <= d <= |u| && OnWeekdayAt(u[c..d], i)
    ensures OnWeekdayAt(u, c + i)
  {
    assert u[c..d] == u[c..][..d - c];
    OnWeekdayPrefix(u[c..], d - c, i);
    OnWeekdaySuffix(u, c, i);
  }

  // ---------------------------------------------------------------------------
  // What strip_quoted promises
  // ---------------------------------------------------------------------------

  /** A string without an "On ... wrote:" match has none in any slice. */
  lemma NoOnWroteInSlice(s: string, c: nat, d: nat)
    requires c <= d <= |s| && forall i :: !OnWroteAt(s, i)
    ensures forall i :: !OnWroteAt(s[c..d], i)
  {
    forall i ensures !OnWroteAt(s[c..d], i) {
      if OnWroteAt(s[c..d], i) {
        OnWroteSlice(s, c, d, i);
      }
    }
  }

  /** A string without a "\n On <word>," match has none in any slice. */
  lemma NoOnWeekdayInSlice(s: string, c: nat, d: nat)
    requires c <= d <= |s| && forall i :: !OnWeekdayAt(s, i)
    ensures forall i :: !OnWeekdayAt(s[c..d], i)
  {
    forall i ensures !OnWeekdayAt(s[c..d], i) {
      if OnWeekdayAt(s[c..d], i) {
        OnWeekdaySlice(s, c, d, i);
      }
    }
  }

  /** The text before the first "On ... wrote:" holds no such match. */
  lemma BeforeOnWroteClean(s: string)
    ensures forall i :: !OnWroteAt(s[..FirstOnWrote(s, 0)], i)
  {
    var p := FirstOnWrote(s, 0);
    assert s[..p] == s[0..p];
    forall i ensures !OnWroteAt(s[..p], i) {
      if OnWroteAt(s[..p], i) {
        OnWroteSlice(s, 0, p, i);
      }
    }
  }

  /** The text before the first "\n On <word>," holds no such match. */
  lemma BeforeOnWeekdayClean(s: string)
    ensures forall i :: !OnWeekdayAt(s[..FirstOnWeekday(s, 0)], i)
  {
    var p := FirstOnWeekday(s, 0);
    forall i ensures !OnWeekdayAt(s[..p], i) {
      if OnWeekdayAt(s[..p], i) {
        OnWeekdayPrefix(s, p, i);
      }
    }
  }

  /** None of the result's lines is quoted. */
  lemma StripQuotedUnquoted(body: string)
    ensures forall l :: l in SplitLines(StripQuoted(body)) ==> !IsQuotedLine(l)
  {
    var lines := UnquotedLines(SplitLines(body));
    var u := Join(lines, "\n");
    var bw := u[..FirstOnWrote(u, 0)];
    var bwd := bw[..FirstOnWeekday(bw, 0)];
    QuoteFreeJoin(lines);
    QuoteFreePrefix(u, FirstOnWrote(u, 0));
    QuoteFreePrefix(bw, FirstOnWeekday(bw, 0));
    QuoteFreeStrip(bwd);
    QuoteFreeLines(Strip(bwd));
  }

  /** The result holds no "On ... wrote:" and no "\n On <word>," reply header. */
  lemma StripQuotedNoReplyHeader(body: string)
    ensures forall i :: !OnWroteAt(StripQuoted(body), i)
    ensures forall i :: !OnWeekdayAt(StripQuoted(body), i)
  {
    hide OnWroteAt, OnWeekdayAt, Strip, FirstOnWrote, FirstOnWeekday, Join, UnquotedLines, SplitLines, LeadingSpaces, TrailingSpaces, IsTrimmed;
    var u := Join(UnquotedLines(SplitLines(body)), "\n");
    var bw := u[..FirstOnWrote(u, 0)];
    var bwd := bw[..FirstOnWeekday(bw, 0)];
    BeforeOnWroteClean(u);
    NoOnWroteInSlice(bw, 0, FirstOnWeekday(bw, 0));
    assert bw[0..FirstOnWeekday(bw, 0)] == bwd;
    BeforeOnWeekdayClean(bw);
    StripSlice(bwd);
    var a := LeadingSpaces(bwd);
    NoOnWroteInSlice(bwd, a, a + |Strip(bwd)|);
    NoOnWeekdayInSlice(bwd, a, a + |Strip(bwd)|);
  }

  /** The result is trimmed and breaks lines only with `\n`. */
  lemma StripQuotedNewlines(body: string)
    ensures IsTrimmed(StripQuoted(body))
    ensures OnlyNewlineBreaks(StripQuoted(body))
  {
    hide OnWroteAt, OnWeekdayAt, Strip, FirstOnWrote, FirstOnWeekday, Join, UnquotedLines, SplitLines, LeadingSpaces, TrailingSpaces, IsTrimmed, IsLineBreak, IsSpace;
    var lines := UnquotedLines(SplitLines(body));
    var u := Join(lines, "\n");
    var bw := u[..FirstOnWrote(u, 0)];
    var bwd := bw[..FirstOnWeekday(bw, 0)];
    var r := Strip(bwd);
    JoinOnlyNewlines(lines);
    StripSlice(bwd);
    var a := LeadingSpaces(bwd);
    forall i | 0 <= i < |r| && IsLineBreak(r[i]) ensures r[i] == '\n' {
      assert r[i] == bwd[a + i] == u[a + i];
    }
  }

  /** Lines without breaks joined by `\n` break lines only with `\n`. */
  lemma {:induction false} JoinOnlyNewlines(lines: seq<string>)
    requires forall l :: l in lines ==> NoLineBreak(l)
    ensures OnlyNewlineBreaks(Join(lines, "\n"))
    decreases |lines|
  {
    if |lines| == 1 {
      assert lines[0] in lines;
    } else if |lines| > 1 {
      assert lines[0] in lines;
      JoinOnlyNewlines(lines[1..]);
      var h := lines[0];
      var s := Join(lines, "\n");
      var t := Join(lines[1..], "\n");
      assert s == h + "\n" + t;
      forall i | 0 <= i < |s| && IsLineBreak(s[i]) ensures s[i] == '\n' {
        if i > |h| {
          assert s[i] == t[i - |h| - 1];
        }
      }
    }
  }

  /** Unquoted lines stay as they are when none of them is quoted. */
  lemma {:induction false} UnquotedLinesKeep(lines: seq<string>)
    requires forall l :: l in lines ==> !IsQuotedLine(l)
    ensures UnquotedLines(lines) == lines
    decreases |lines|
  {
    if lines != [] {
      assert lines[0] in lines;
      UnquotedLinesKeep(lines[1..]);
    }
  }

  /** Clean text passes through unchanged: a trimmed body with `\n` line breaks,
      no quoted line and no reply header. */
  lemma StripQuotedKeepsClean(body: string)
    requires IsTrimmed(body) && OnlyNewlineBreaks(body)
    requires forall l :: l in SplitLines(body) ==> !IsQuotedLine(l)
    requires forall i :: !OnWroteAt(body, i)
    requires forall i :: !OnWeekdayAt(body, i)
    ensures StripQuoted(body) == body
  {
    UnquotedLinesKeep(SplitLines(body));
    assert body != [] ==> IsSpace('\n') && body[|body| - 1] != '\n';
    JoinSplitLines(body);
    assert body[..|body|] == body;
    StripTrimmed(body);
  }

  /** `strip_quoted` is idempotent. */
  lemma StripQuotedIdempotent(body: string)
    ensures StripQuoted(StripQuoted(body)) == StripQuoted(body)
  {
    StripQuotedUnquoted(body);
    StripQuotedNoReplyHeader(body);
    StripQuotedNewlines(body);
    StripQuotedKeepsClean(StripQuoted(body));
  }

  // ===========================================================================
  // strip_signature
  // ===========================================================================

  /** The text before the first "--", or all of it when there is none. */
  function BeforeDashDash(s: string): (r: string)
    ensures !Contains(r, "--")
    ensures |r| <= |s| && r == s[..|r|]
    ensures Contains(s, "--") ==> OccursAt(s, "--", |r|)
  {
    match Find(s, "--")
    case None => s
    case Some(k) =>
      NotContainsBeforeFirst(s, "--");
      s[..k]
  }

  /** The regex `Sent from my .+` matches at `i`: the phrase and at least one
      character other than a newline. */
  predicate SentFromMyAt(s: string, i: int)
  {
    OccursAt(s, "Sent from my ", i) && i + 13 < |s| && s[i + 13] != '\n'
  }

  /** The first newline at or after `from`, or `|s|`: where `.+` stops. */
  function LineEnd(s: string, from: nat): (e: nat)
    requires from <= |s|
    ensures from <= e <= |s|
    ensures e < |s| ==> s[e] == '\n'
    decreases |s| - from
  {
    if from == |s| || s[from] == '\n' then from else LineEnd(s, from + 1)
  }

  /** `re.sub(r"Sent from my .+", "", s)`: scanning left to right, each match
      is removed up to the end of its line. */
  function RemoveSentFromMy(s: string): (r: string)
    ensures |r| <= |s|
    decreases |s|
  {
    if s == [] then []
    else if SentFromMyAt(s, 0) then RemoveSentFromMy(s[LineEnd(s, 14)..])
    else [s[0]] + RemoveSentFromMy(s[1..])
  }

  /** `strip_signature`: cut at the first "--", remove the "Sent from my ..."
      lines, and trim. */
  function StripSignature(body: string): string
  {
    Strip(RemoveSentFromMy(BeforeDashDash(body)))
  }

  /** Where a match starts the string, the removal leaves nothing or a newline in front. */
  lemma RemovalAtMatch(s: string)
    requires SentFromMyAt(s, 0) && RemoveSentFromMy(s) != []
    ensures RemoveSentFromMy(s)[0] == '\n'
  {
    var t := s[LineEnd(s, 14)..];
    assert t[0] == '\n';
    assert !SentFromMyAt(t, 0);
  }

  /** Up to the first newline it produces, the removal leaves the text as it was. */
  lemma {:induction false} RemovalKeepsPrefix(s: string, k: nat)
    requires k <= |RemoveSentFromMy(s)|
    requires forall m :: 0 <= m < k ==> RemoveSentFromMy(s)[m] != '\n'
    ensures k <= |s| && RemoveSentFromMy(s)[..k] == s[..k]
    decreases |s|
  {
    if k > 0 {
      var r := RemoveSentFromMy(s);
      if SentFromMyAt(s, 0) {
        RemovalAtMatch(s);
        assert false;
      } else {
        var r' := RemoveSentFromMy(s[1..]);
        assert r == [s[0]] + r';
        forall m | 0 <= m < k - 1 ensures r'[m] != '\n' {
          assert r'[m] == r[m + 1];
        }
        RemovalKeepsPrefix(s[1..], k - 1);
      }
    }
  }

  /** A match in a string with one character in front is a match one place later. */
  lemma SentFromMyCons(c: char, s: string, i: nat)
    requires SentFromMyAt([c] + s, i + 1)
    ensures SentFromMyAt(s, i)
  {
    assert ([c] + s)[i + 1..i + 14] == s[i..i + 13];
  }

  /** No "Sent from my ..." match is left after the removal. */
  lemma {:induction false} RemovalLeavesNoMatch(s: string)
    ensures forall i :: !SentFromMyAt(RemoveSentFromMy(s), i)
    decreases |s|
  {
    if s != [] {
      var r := RemoveSentFromMy(s);
      if SentFromMyAt(s, 0) {
        RemovalLeavesNoMatch(s[LineEnd(s, 14)..]);
      } else {
        RemovalLeavesNoMatch(s[1..]);
        forall i ensures !SentFromMyAt(r, i) {
          if i == 0 && SentFromMyAt(r, 0) {
            forall m | 0 <= m < 14 ensures r[m] != '\n' {
              if m < 13 {
                assert r[m] == r[0..13][m];
              }
            }
            RemovalKeepsPrefix(s, 14);
          } else if i > 0 && SentFromMyAt(r, i) {
            SentFromMyCons(s[0], RemoveSentFromMy(s[1..]), i - 1);
          }
        }
      }
    }
  }

  /** The removal does not create a "--". */
  lemma {:induction false} RemovalAddsNoDashDash(s: string)
    requires !Contains(s, "--")
    ensures !Contains(RemoveSentFromMy(s), "--")
    decreases |s|
  {
    hide Contains, Find, SentFromMyAt, LineEnd;
    if s != [] {
      var r := RemoveSentFromMy(s);
      if SentFromMyAt(s, 0) {
        NotContainsSlice(s, "--", LineEnd(s, 14), |s|);
        assert s[LineEnd(s, 14)..|s|] == s[LineEnd(s, 14)..];
        RemovalAddsNoDashDash(s[LineEnd(s, 14)..]);
      } else {
        NotContainsSlice(s, "--", 1, |s|);
        assert s[1..|s|] == s[1..];
        RemovalAddsNoDashDash(s[1..]);
        var r' := RemoveSentFromMy(s[1..]);
        assert r == [s[0]] + r';
        ContainsIff(s, "--");
        ContainsIff(r', "--");
        forall i ensures !OccursAt(r, "--", i) {
          if i == 0 && |r| >= 2 && r[0] == '-' {
            RemovalFirst(s[1..]);
            assert s[0..2] == [s[0], s[1]];
            assert !OccursAt(s, "--", 0);
          } else if i >= 1 && i + 2 <= |r| {
            assert r[i..i + 2] == r'[i - 1..i + 1];
            assert !OccursAt(r', "--", i - 1);
          }
        }
        ContainsIff(r, "--");
      }
    }
  }

  /** The removal starts with the text's own first character or a newline. */
  lemma RemovalFirst(s: string)
    ensures RemoveSentFromMy(s) != [] ==> s != [] && RemoveSentFromMy(s)[0] in {s[0], '\n'}
  {
    if s != [] && SentFromMyAt(s, 0) && RemoveSentFromMy(s) != [] {
      RemovalAtMatch(s);
    }
  }

  /** A match inside a slice is a match in the whole string. */
  lemma SentFromMySlice(s: string, c: nat, d: nat, i: int)
    requires c <= d <= |s| && SentFromMyAt(s[c..d], i)
    ensures SentFromMyAt(s, c + i)
  {
    OccursInSlice(s, "Sent from my ", c, d, i);
    assert s[c..d][i + 13] == s[c + i + 13];
  }

  /** The result holds no "--" and no "Sent from my ..." match, and is trimmed. */
  lemma StripSignatureSound(body: string)
    ensures IsTrimmed(StripSignature(body))
    ensures !Contains(StripSignature(body), "--")
    ensures forall i :: !SentFromMyAt(StripSignature(body), i)
  {
    hide Strip, RemoveSentFromMy, BeforeDashDash, SentFromMyAt, Contains, LeadingSpaces, TrailingSpaces, IsTrimmed;
    var b := BeforeDashDash(body);
    var r := RemoveSentFromMy(b);
    RemovalAddsNoDashDash(b);
    RemovalLeavesNoMatch(b);
    StripSlice(r);
    var a := LeadingSpaces(r);
    var n := |Strip(r)|;
    NotContainsSlice(r, "--", a, a + n);
    NoSentFromMyInSlice(r, a, a + n);
  }

  lemma NoSentFromMyInSlice(s: string, c: nat, d: nat)
    requires c <= d <= |s| && forall i :: !SentFromMyAt(s, i)
    ensures forall i :: !SentFromMyAt(s[c..d], i)
  {
    forall i ensures !SentFromMyAt(s[c..d], i) {
      if SentFromMyAt(s[c..d], i) {
        SentFromMySlice(s, c, d, i);
      }
    }
  }

  /** Without a match the removal changes nothing. */
  lemma {:induction false} RemovalKeepsClean(s: string)
    requires forall i :: !SentFromMyAt(s, i)
    ensures RemoveSentFromMy(s) == s
    decreases |s|
  {
    if s != [] {
      assert !SentFromMyAt(s, 0);
      forall i ensures !SentFromMyAt(s[1..], i) {
        if SentFromMyAt(s[1..], i) {
          assert s[1..|s|] == s[1..];
          SentFromMySlice(s, 1, |s|, i);
        }
      }
      RemovalKeepsClean(s[1..]);
    }
  }

  /** Clean text passes through unchanged: trimmed, no "--", no "Sent from my ...". */
  lemma StripSignatureKeepsClean(body: string)
    requires IsTrimmed(body) && !Contains(body, "--")
    requires forall i :: !SentFromMyAt(body, i)
    ensures StripSignature(body) == body
  {
    RemovalKeepsClean(body);
    StripTrimmed(body);
  }

  /** `strip_signature` is idempotent. */
  lemma StripSignatureIdempotent(body: string)
    ensures StripSignature(StripSignature(body)) == StripSignature(body)
  {
    StripSignatureSound(body);
    StripSignatureKeepsClean(StripSignature(body));
  }

  /** Everything from the first "--" on is dropped, whatever follows it. */
  lemma SignatureDelimiterCuts(x: string, y: string)
    requires !Contains(x, "--") && (x == [] || x[|x| - 1] != '-')
    ensures StripSignature(x + "--" + y) == StripSignature(x)
  {
    var s := x + "--" + y;
    assert OccursAt(s, "--", |x|);
    forall i | 0 <= i < |x| ensures !OccursAt(s, "--", i) {
      if i + 2 <= |x| {
        assert s[i..i + 2] == x[i..i + 2];
        assert !OccursAt(x, "--", i);
      } else {
        assert s[i..i + 2][0] == s[i] == x[|x| - 1];
      }
    }
    assert Find(s, "--") == Some(|x|);
    assert s[..|x|] == x;
  }

  /** A "--" inside running text cuts the body there too, not only a delimiter line. */
  lemma DashDashInsideTextCuts(body: string)
    requires body == "Meet at 10--11 tomorrow"
    ensures StripSignature(body) == "Meet at 10"
  {
    var x := body[..10];
    assert x == "Meet at 10";
    ShortCleanText(x);
    assert body == x + "--" + body[12..];
    CleanTextCut(x, body[12..]);
  }

  lemma CleanTextCut(x: string, y: string)
    requires IsTrimmed(x) && !Contains(x, "--") && (x == [] || x[|x| - 1] != '-')
    requires forall i :: !SentFromMyAt(x, i)
    ensures StripSignature(x + "--" + y) == x
  {
    SignatureDelimiterCuts(x, y);
    StripSignatureKeepsClean(x);
  }

  lemma ShortCleanText(x: string)
    requires x == "Meet at 10"
    ensures !Contains(x, "--") && (x == [] || x[|x| - 1] != '-') && IsTrimmed(x)
    ensures forall i :: !SentFromMyAt(x, i)
  {
    forall i | 0 <= i && i + 2 <= |x| ensures !OccursAt(x, "--", i) {
      assert x[i..i + 2][0] == x[i] != '-';
    }
    assert !IsSpace(x[0]) && !IsSpace(x[9]);
  }

  // ===========================================================================
  // strip_email_metadata
  // ===========================================================================

  /** Length of the run of underscores at the front of `s`. */
  function UnderscoreRun(s: string): (n: nat)
    ensures n <= |s|
    ensures forall i :: 0 <= i < n ==> s[i] == '_'
    ensures n < |s| ==> s[n] != '_'
  {
    if s == [] || s[0] != '_' then 0 else 1 + UnderscoreRun(s[1..])
  }

  /** `re.sub(r'_{20,}', '', s)`: every run of 20 or more underscores is removed;
      shorter runs stay. */
  function RemoveSeparators(s: string): (r: string)
    ensures |r| <= |s|
    decreases |s|
  {
    if s == [] then []
    else if s[0] != '_' then [s[0]] + RemoveSeparators(s[1..])
    else
      var n := UnderscoreRun(s);
      if n >= 20 then RemoveSeparators(s[n..]) else s[..n] + RemoveSeparators(s[n..])
  }

  /** `^(From|Sent|To|Subject|Cc|Bcc):` matched case-insensitively at the line start. */
  predicate IsHeaderLine(line: string)
  {
    var l := Lower(line);
    StartsWith(l, "from:") || StartsWith(l, "sent:") || StartsWith(l, "to:")
    || StartsWith(l, "subject:") || StartsWith(l, "cc:") || StartsWith(l, "bcc:")
  }

  /** The external-sender caution banners. */
  predicate IsCautionLine(line: string)
  {
    Contains(Lower(line), "email originated from an external sender")
    || Contains(Lower(line), "do not click links")
  }

  /** The warning glyph, as it stands in the source (a mis-decoded warning sign). */
  const WarningGlyph: string := "\U{201A}\U{F6}\U{2020}"

  predicate IsWarningLine(line: string)
  {
    StartsWith(Strip(line), WarningGlyph)
  }

  predicate KeepsLine(line: string)
  {
    !IsHeaderLine(line) && !IsCautionLine(line) && !IsWarningLine(line)
  }

  /** The lines that survive the loop, in their original order. */
  function KeptLines(lines: seq<string>): (r: seq<string>)
    ensures |r| <= |lines|
  {
    if lines == [] then []
    else
      var last := lines[|lines| - 1];
      KeptLines(lines[..|lines| - 1]) + (if KeepsLine(last) then [last] else [])
  }

  /** What `strip_email_metadata` returns. */
  function MetadataStripped(body: string): string
  {
    Strip(Join(KeptLines(SplitLines(RemoveSeparators(body))), "\n"))
  }

  /** `strip_email_metadata`: the line loop, skipping header, caution and
      warning lines. */
  method StripEmailMetadata(body: string) returns (r: string)
    ensures r == MetadataStripped(body)
    ensures IsTrimmed(r)
  {
    hide Strip, Contains, Find, Lower, StartsWith, IsHeaderLine, SplitLines, RemoveSeparators, Join;
    var lines := SplitLines(RemoveSeparators(body));
    var cleaned: seq<string> := [];
    for k := 0 to |lines|
      invariant cleaned == KeptLines(lines[..k])
    {
      var line := lines[k];
      assert lines[..k + 1][..k] == lines[..k];
      if IsHeaderLine(line) {
        continue;
      }
      var lowered := Lower(line);
      if Contains(lowered, "email originated from an external sender") {
        continue;
      }
      if Contains(lowered, "do not click links") {
        continue;
      }
      if StartsWith(Strip(line), WarningGlyph) {
        continue;
      }
      cleaned := cleaned + [line];
    }
    assert lines[..|lines|] == lines;
    r := Strip(Join(cleaned, "\n"));
  }

  /** Filtering distributes over concatenation, so kept lines keep their relative order. */
  lemma {:induction false} KeptLinesAppend(a: seq<string>, b: seq<string>)
    ensures KeptLines(a + b) == KeptLines(a) + KeptLines(b)
    decreases |b|
  {
    if b != [] {
      var b' := b[..|b| - 1];
      assert (a + b)[..|a + b| - 1] == a + b';
      KeptLinesAppend(a, b');
    } else {
      assert a + b == a;
    }
  }

  /** A line is kept exactly when it is one of the input lines that is no header,
      no caution banner and no warning line. */
  lemma {:induction false} KeptLinesExactly(lines: seq<string>)
    ensures forall l :: l in KeptLines(lines) <==> l in lines && KeepsLine(l)
    decreases |lines|
  {
    if lines != [] {
      var init := lines[..|lines| - 1];
      KeptLinesExactly(init);
      assert lines == init + [lines[|lines| - 1]];
    }
  }

  /** No line that survives starts with a header name and colon, in any case, or
      carries a caution banner. */
  lemma KeptLinesHaveNoHeaders(lines: seq<string>)
    ensures forall l :: l in KeptLines(lines) ==>
      !StartsWith(Lower(l), "from:") && !StartsWith(Lower(l), "sent:") && !StartsWith(Lower(l), "to:")
      && !StartsWith(Lower(l), "subject:") && !StartsWith(Lower(l), "cc:") && !StartsWith(Lower(l), "bcc:")
      && !Contains(Lower(l), "email originated from an external sender")
      && !Contains(Lower(l), "do not click links")
  {
    KeptLinesExactly(lines);
  }

  /** A run of underscores followed by something else is exactly that long. */
  lemma {:induction false} UnderscoreRunConcat(a: string, b: string)
    requires forall i :: 0 <= i < |a| ==> a[i] == '_'
    requires b == [] || b[0] != '_'
    ensures UnderscoreRun(a + b) == |a|
    decreases |a|
  {
    if a != [] {
      assert (a + b)[1..] == a[1..] + b;
      UnderscoreRunConcat(a[1..], b);
    } else {
      assert a + b == b;
    }
  }

  /** After the removal no run of 20 underscores is left anywhere. */
  lemma {:induction false} RemoveSeparatorsShortRuns(s: string)
    ensures forall i :: 0 <= i < |RemoveSeparators(s)| ==> UnderscoreRun(RemoveSeparators(s)[i..]) < 20
    decreases |s|
  {
    if s != [] {
      var r := RemoveSeparators(s);
      if s[0] != '_' {
        var t := RemoveSeparators(s[1..]);
        RemoveSeparatorsShortRuns(s[1..]);
        forall i | 0 <= i < |r| ensures UnderscoreRun(r[i..]) < 20 {
          if i > 0 {
            assert r[i..] == t[i - 1..];
          }
        }
      } else {
        var n := UnderscoreRun(s);
        var t := RemoveSeparators(s[n..]);
        RemoveSeparatorsShortRuns(s[n..]);
        if n < 20 {
          assert r == s[..n] + t;
          assert t == [] || t[0] != '_';
          forall i | 0 <= i < |r| ensures UnderscoreRun(r[i..]) < 20 {
            if i < n {
              assert r[i..] == s[i..n] + t;
              UnderscoreRunConcat(s[i..n], t);
            } else {
              assert r[i..] == t[i - n..];
            }
          }
        }
      }
    }
  }

  /** Text without underscores has nothing to remove. */
  lemma {:induction false} RemoveSeparatorsNoUnderscore(s: string)
    requires '_' !in s
    ensures RemoveSeparators(s) == s
    decreases |s|
  {
    if s != [] {
      assert s[0] in s;
      assert forall c :: c in s[1..] ==> c in s;
      RemoveSeparatorsNoUnderscore(s[1..]);
    }
  }

  /** A one-line body without underscores is kept, trimmed, or dropped whole. */
  lemma MetadataOfOneLine(s: string)
    requires s != [] && '_' !in s && NoLineBreak(s)
    ensures MetadataStripped(s) == if KeepsLine(s) then Strip(s) else ""
  {
    RemoveSeparatorsNoUnderscore(s);
    assert LineLength(s) == |s|;
    assert SplitLines(s) == [s];
    assert [s][..0] == [];
  }

  /** The final trim can turn an indented header line, which the line filter
      lets through, into a header line: the transform is not idempotent. */
  lemma MetadataTrimExposesHeader()
    ensures MetadataStripped(" From: x") == "From: x"
    ensures MetadataStripped("From: x") == ""
  {
    var s := " From: x";
    var t := "From: x";
    assert '_' !in s && '_' !in t && NoLineBreak(s) && NoLineBreak(t) by {
      forall i | 0 <= i < |s| ensures s[i] != '_' && !IsLineBreak(s[i]) { }
      assert t == s[1..];
    }
    OneLineHeaderFacts(s, t);
    MetadataOfOneLine(s);
    MetadataOfOneLine(t);
  }

  lemma OneLineHeaderFacts(s: string, t: string)
    requires s == " From: x" && t == "From: x"
    ensures KeepsLine(s) && !KeepsLine(t) && Strip(s) == t
  {
    assert Lower(s)[0] == ' ';
    assert Lower(t)[..5] == "from:";
    var ls := Lower(s);
    FirstCharDiffers(ls, "from:");
    FirstCharDiffers(ls, "sent:");
    FirstCharDiffers(ls, "to:");
    FirstCharDiffers(ls, "subject:");
    FirstCharDiffers(ls, "cc:");
    FirstCharDiffers(ls, "bcc:");
    assert !IsCautionLine(s) by {
      assert |Lower(s)| < |"do not click links"|;
    }
    assert LeadingSpaces(s) == 1;
    assert Strip(s) == t;
    FirstCharDiffers(t, WarningGlyph);
  }
}
