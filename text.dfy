/** Python string operations used by the pipeline, over `string` (= `seq<char>`).
    Character classes follow Python's `str` methods; letters, digits and case
    folding are taken over ASCII only. */
module Text {

  datatype Option<T> = None | Some(value: T)

  // ---------------------------------------------------------------------------
  // Character classes
  // ---------------------------------------------------------------------------

  /** `str.isspace()`, which is also what the regex class `\s` and `str.split()` use. */
  predicate IsSpace(c: char)
  {
    c == ' ' || ('\t' <= c <= '\r') || ('\U{1C}' <= c <= '\U{1F}') || c == '\U{85}' || c == '\U{A0}'
    || c == '\U{1680}' || ('\U{2000}' <= c <= '\U{200A}') || c == '\U{2028}' || c == '\U{2029}'
    || c == '\U{202F}' || c == '\U{205F}' || c == '\U{3000}'
  }

  /** The characters at which `str.splitlines()` breaks a line (`\r\n` counts once). */
  predicate IsLineBreak(c: char)
  {
    c == '\n' || c == '\r' || c == '\U{0B}' || c == '\U{0C}' || ('\U{1C}' <= c <= '\U{1E}')
    || c == '\U{85}' || c == '\U{2028}' || c == '\U{2029}'
  }

  predicate IsDigit(c: char) { '0' <= c <= '9' }

  predicate IsAlpha(c: char) { ('a' <= c <= 'z') || ('A' <= c <= 'Z') }

  /** The regex class `\w`. */
  predicate IsWordChar(c: char) { IsAlpha(c) || IsDigit(c) || c == '_' }

  function LowerChar(c: char): char
  {
    if 'A' <= c <= 'Z' then (c as int - 'A' as int + 'a' as int) as char else c
  }

  /** `str.lower()` */
  function Lower(s: string): (r: string)
    ensures |r| == |s|
  {
    seq(|s|, i requires 0 <= i < |s| => LowerChar(s[i]))
  }

  lemma LowerSlice(s: string, a: nat, b: nat)
    requires a <= b <= |s|
    ensures Lower(s[a..b]) == Lower(s)[a..b]
  {
  }

  lemma LowerAppend(s: string, t: string)
    ensures Lower(s + t) == Lower(s) + Lower(t)
  {
  }

  predicate AllSpace(s: string)
  {
    forall i :: 0 <= i < |s| ==> IsSpace(s[i])
  }

  // ---------------------------------------------------------------------------
  // Prefixes and substrings
  // ---------------------------------------------------------------------------

  /** `s.startswith(p)` */
  predicate StartsWith(s: string, p: string)
  {
    |p| <= |s| && s[..|p|] == p
  }

  lemma FirstCharDiffers(s: string, p: string)
    requires p != [] && s != [] && s[0] != p[0]
    ensures !StartsWith(s, p)
  {
    if |p| <= |s| {
      assert s[..|p|][0] == s[0];
    }
  }

  /** Does `p` occur in `s` at position `i`? */
  predicate OccursAt(s: string, p: string, i: int)
  {
    0 <= i && i + |p| <= |s| && s[i..i + |p|] == p
  }

  /** `s.find(p)`: the first position at which `p` occurs in `s`. */
  function Find(s: string, p: string): (r: Option<nat>)
    ensures r.Some? ==> OccursAt(s, p, r.value)
    ensures r.Some? ==> forall i :: 0 <= i < r.value ==> !OccursAt(s, p, i)
    ensures r.None? ==> forall i :: !OccursAt(s, p, i)
    decreases |s|
  {
    if |s| < |p| then None
    else if s[..|p|] == p then Some(0)
    else
      match Find(s[1..], p)
      case None =>
        assert forall i :: 1 <= i ==> OccursAt(s, p, i) == OccursAt(s[1..], p, i - 1);
        None
      case Some(k) =>
        assert forall i :: 1 <= i ==> OccursAt(s, p, i) == OccursAt(s[1..], p, i - 1);
        Some(k + 1)
  }

  /** `p in s` */
  predicate Contains(s: string, p: string)
  {
    Find(s, p).Some?
  }

  lemma ContainsIff(s: string, p: string)
    ensures Contains(s, p) <==> exists i :: OccursAt(s, p, i)
  {
  }

  /** An occurrence inside a slice is an occurrence in the whole string. */
  lemma OccursInSlice(s: string, p: string, a: nat, b: nat, i: int)
    requires a <= b <= |s|
    requires OccursAt(s[a..b], p, i)
    ensures OccursAt(s, p, a + i)
  {
    var t := s[a..b];
    forall k | 0 <= k < |p| ensures s[a + i + k] == p[k] {
      assert t[i..i + |p|][k] == t[i + k] == s[a + i + k];
    }
    assert s[a + i..a + i + |p|] == p;
  }

  lemma NotContainsSlice(s: string, p: string, a: nat, b: nat)
    requires a <= b <= |s|
    requires !Contains(s, p)
    ensures !Contains(s[a..b], p)
  {
    if Contains(s[a..b], p) {
      var i := Find(s[a..b], p).value;
      OccursInSlice(s, p, a, b, i);
    }
  }

  /** The text before the first occurrence of `p` does not contain `p`. */
  lemma NotContainsBeforeFirst(s: string, p: string)
    requires p != [] && Contains(s, p)
    ensures !Contains(s[..Find(s, p).value], p)
  {
    var k := Find(s, p).value;
    assert s[..k] == s[0..k];
    if Contains(s[..k], p) {
      OccursInSlice(s, p, 0, k, Find(s[..k], p).value);
    }
  }

  // ---------------------------------------------------------------------------
  // Trimming
  // ---------------------------------------------------------------------------

  function LeadingSpaces(s: string): (n: nat)
    ensures n <= |s|
    ensures AllSpace(s[..n])
    ensures n < |s| ==> !IsSpace(s[n])
  {
    if s == [] || !IsSpace(s[0]) then 0
    else
      var m := LeadingSpaces(s[1..]);
      assert s[..m + 1] == [s[0]] + s[1..][..m];
      m + 1
  }

  function TrailingSpaces(s: string): (n: nat)
    ensures n <= |s|
    ensures AllSpace(s[|s| - n..])
    ensures n < |s| ==> !IsSpace(s[|s| - n - 1])
  {
    if s == [] || !IsSpace(s[|s| - 1]) then 0
    else
      var init := s[..|s| - 1];
      var m := TrailingSpaces(init);
      assert s[|s| - (m + 1)..] == init[|init| - m..] + [s[|s| - 1]];
      m + 1
  }

  /** No whitespace at either end. */
  predicate IsTrimmed(s: string)
  {
    s == [] || (!IsSpace(s[0]) && !IsSpace(s[|s| - 1]))
  }

  /** `str.strip()`: no whitespace is left at either end, and nothing but
      whitespace strips to the empty string. */
  function Strip(s: string): (r: string)
    ensures IsTrimmed(r)
    ensures |r| <= |s|
    ensures AllSpace(s) <==> r == []
  {
    var a := LeadingSpaces(s);
    var t := s[a..];
    var n := TrailingSpaces(t);
    assert s[a + |t| - n..] == t[|t| - n..];
    AllSpaceJoin(s, a);
    t[..|t| - n]
  }

  /** `Strip(s)` is the slice of `s` between its leading and trailing whitespace. */
  lemma StripSlice(s: string)
    ensures LeadingSpaces(s) + |Strip(s)| <= |s|
    ensures Strip(s) == s[LeadingSpaces(s)..LeadingSpaces(s) + |Strip(s)|]
    ensures AllSpace(s[LeadingSpaces(s) + |Strip(s)|..])
  {
    hide *;
    var a := LeadingSpaces(s);
    var t := s[a..];
    var n := TrailingSpaces(t);
    StripUnfold(s);
    assert s[a..a + |t| - n] == t[..|t| - n];
    assert s[a + |t| - n..] == t[|t| - n..];
  }

  lemma StripUnfold(s: string)
    ensures Strip(s) == s[LeadingSpaces(s)..][..|s[LeadingSpaces(s)..]| - TrailingSpaces(s[LeadingSpaces(s)..])]
  {
  }

  /** A string whose front and back (split at `a`) are all whitespace is all whitespace. */
  lemma AllSpaceJoin(s: string, a: nat)
    requires a <= |s|
    ensures AllSpace(s[..a]) && AllSpace(s[a..]) ==> AllSpace(s)
  {
    if AllSpace(s[..a]) && AllSpace(s[a..]) {
      forall i | 0 <= i < |s| ensures IsSpace(s[i]) {
        if i >= a { assert s[i] == s[a..][i - a]; } else { assert s[i] == s[..a][i]; }
      }
    }
  }

  lemma StripTrimmed(s: string)
    requires IsTrimmed(s)
    ensures Strip(s) == s
  {
  }

  // ---------------------------------------------------------------------------
  // Maximal runs, by position (what a greedy regex repetition consumes)
  // ---------------------------------------------------------------------------

  /** The end of the maximal run of whitespace starting at `from`. */
  function SpaceRunEnd(s: string, from: nat): (e: nat)
    requires from <= |s|
    ensures from <= e <= |s|
    ensures e < |s| ==> !IsSpace(s[e])
    decreases |s| - from
  {
    if from == |s| || !IsSpace(s[from]) then from else SpaceRunEnd(s, from + 1)
  }

  /** The end of the maximal run of word characters starting at `from`. */
  function WordRunEnd(s: string, from: nat): (e: nat)
    requires from <= |s|
    ensures from <= e <= |s|
    ensures e < |s| ==> !IsWordChar(s[e])
    decreases |s| - from
  {
    if from == |s| || !IsWordChar(s[from]) then from else WordRunEnd(s, from + 1)
  }

  // ---------------------------------------------------------------------------
  // Words: `len(s.split())`
  // ---------------------------------------------------------------------------

  /** Length of the maximal run of non-whitespace characters at the front of `s`. */
  function TokenLength(s: string): (n: nat)
    ensures n <= |s|
    ensures forall i :: 0 <= i < n ==> !IsSpace(s[i])
    ensures n < |s| ==> IsSpace(s[n])
  {
    if s == [] || IsSpace(s[0]) then 0 else 1 + TokenLength(s[1..])
  }

  /** `s.split()`: the maximal runs of non-whitespace characters, in order. */
  function Words(s: string): (r: seq<string>)
    ensures forall w :: w in r ==> w != [] && forall i :: 0 <= i < |w| ==> !IsSpace(w[i])
    decreases |s|
  {
    if s == [] then []
    else if IsSpace(s[0]) then Words(s[1..])
    else
      var n := TokenLength(s);
      [s[..n]] + Words(s[n..])
  }

  function WordCount(s: string): nat
  {
    |Words(s)|
  }

  lemma {:induction false} WordsOfSpace(s: string)
    requires AllSpace(s)
    ensures Words(s) == []
    decreases |s|
  {
    if s != [] {
      assert IsSpace(s[0]);
      WordsOfSpace(s[1..]);
    }
  }

  // ---------------------------------------------------------------------------
  // Lines
  // ---------------------------------------------------------------------------

  predicate NoLineBreak(s: string)
  {
    forall i :: 0 <= i < |s| ==> !IsLineBreak(s[i])
  }

  /** Length of the text before the first line break of `s`. */
  function LineLength(s: string): (n: nat)
    ensures n <= |s|
    ensures NoLineBreak(s[..n])
    ensures n < |s| ==> IsLineBreak(s[n])
  {
    if s == [] || IsLineBreak(s[0]) then 0 else 1 + LineLength(s[1..])
  }

  /** `s.splitlines()`: no trailing empty line, and `\r\n` is one break. */
  function SplitLines(s: string): (r: seq<string>)
    ensures forall l :: l in r ==> NoLineBreak(l)
    decreases |s|
  {
    if s == [] then []
    else
      var n := LineLength(s);
      if n == |s| then [s]
      else
        var next := if s[n] == '\r' && n + 1 < |s| && s[n + 1] == '\n' then n + 2 else n + 1;
        [s[..n]] + SplitLines(s[next..])
  }

  /** The only line-break character in `s` is `\n`. */
  predicate OnlyNewlineBreaks(s: string)
  {
    forall i :: 0 <= i < |s| && IsLineBreak(s[i]) ==> s[i] == '\n'
  }

  /** `sep.join(parts)` */
  function Join(parts: seq<string>, sep: string): string
  {
    if |parts| == 0 then []
    else if |parts| == 1 then parts[0]
    else parts[0] + sep + Join(parts[1..], sep)
  }

  /** Joining the lines of a text that breaks lines only with `\n`, and does not end
      with one, gives the text back. */
  lemma {:induction false} JoinSplitLines(s: string)
    requires OnlyNewlineBreaks(s)
    requires s == [] || s[|s| - 1] != '\n'
    ensures Join(SplitLines(s), "\n") == s
    decreases |s|
  {
    hide IsLineBreak, NoLineBreak, IsSpace;
    if s != [] {
      var n := LineLength(s);
      if n < |s| {
        assert s[n] == '\n';
        var t := s[n + 1..];
        assert t != [];
        assert OnlyNewlineBreaks(t) by {
          forall i | 0 <= i < |t| && IsLineBreak(t[i]) ensures t[i] == '\n' {
            assert t[i] == s[n + 1 + i];
          }
        }
        JoinSplitLines(t);
        assert s == s[..n] + "\n" + t;
      }
    }
  }

  /** `s.split(sep)` for a one-character separator: always at least one part. */
  function SplitOn(s: string, sep: char): (r: seq<string>)
    ensures |r| >= 1
    ensures forall part :: part in r ==> sep !in part
    decreases |s|
  {
    match Find(s, [sep])
    case None =>
      assert forall i :: 0 <= i < |s| ==> OccursAt(s, [sep], i) == (s[i] == sep);
      [s]
    case Some(k) =>
      assert forall i :: 0 <= i < k ==> OccursAt(s, [sep], i) == (s[i] == sep);
      [s[..k]] + SplitOn(s[k + 1..], sep)
  }

  /** Splitting a join on the separator gives the parts back. */
  lemma {:induction false} SplitOnJoin(parts: seq<string>, sep: char)
    requires |parts| >= 1
    requires forall part :: part in parts ==> sep !in part
    ensures SplitOn(Join(parts, [sep]), sep) == parts
    decreases |parts|
  {
    hide Find;
    var s := Join(parts, [sep]);
    if |parts| == 1 {
      assert s == parts[0];
      forall i | 0 <= i < |s| ensures !OccursAt(s, [sep], i) {
        assert s[i] in parts[0];
        assert s[i..i + 1] == [s[i]];
      }
    } else {
      var p := parts[0];
      var rest := Join(parts[1..], [sep]);
      assert s == p + [sep] + rest;
      assert OccursAt(s, [sep], |p|);
      forall i | 0 <= i < |p| ensures !OccursAt(s, [sep], i) {
        assert s[i] == p[i];
        assert p[i] in p;
      }
      assert Find(s, [sep]) == Some(|p|);
      assert s[..|p|] == p;
      assert s[|p| + 1..] == rest;
      SplitOnJoin(parts[1..], sep);
    }
  }

  /** Decimal representation of a natural number, as `str(n)`. */
  function NatToString(n: nat): (r: string)
    ensures r != []
    ensures forall i :: 0 <= i < |r| ==> IsDigit(r[i])
  {
    var d := ['0' + ((n % 10) as char)];
    if n < 10 then d else NatToString(n / 10) + d
  }
}
