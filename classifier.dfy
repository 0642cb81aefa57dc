/** The meaningfulness classifier of lib/email_cleaner.py: the rejection
    predicates, the cascade that combines them, and the synthetic intent
    chosen for a message that answers nothing. */
module Classifier {
  import opened Text
  import Config

  /** The three long regex lists (confirmation numbers, CSS/JavaScript, meeting
      invitations) are not spelled out; each is a predicate supplied by the caller. */
  datatype PatternLists = PatternLists(
    confirmation: string -> bool,
    codeOrCss: string -> bool,
    meetingInvite: string -> bool)

  // ===========================================================================
  // is_url_only
  // ===========================================================================

  /** `https?://\S+` matches at `i`: the scheme and at least one non-whitespace character. */
  predicate UrlAt(s: string, i: int)
  {
    (OccursAt(s, "https://", i) && i + 8 < |s| && !IsSpace(s[i + 8]))
    || (OccursAt(s, "http://", i) && i + 7 < |s| && !IsSpace(s[i + 7]))
  }

  /** `re.sub(r'https?://\S+', '', s)`: each URL is removed up to the next whitespace. */
  function RemoveUrls(s: string): (r: string)
    ensures |r| <= |s|
    decreases |s|
  {
    if s == [] then []
    else if UrlAt(s, 0) then
      assert s[0] == "http"[0];
      RemoveUrls(s[TokenLength(s)..])
    else [s[0]] + RemoveUrls(s[1..])
  }

  /** `re.match(r'^https?://\S+$', t)` on a trimmed `t`: the whole text is one URL. */
  predicate PureUrl(t: string)
  {
    (StartsWith(t, "https://") && |t| > 8 && forall i :: 8 <= i < |t| ==> !IsSpace(t[i]))
    || (StartsWith(t, "http://") && |t| > 7 && forall i :: 7 <= i < |t| ==> !IsSpace(t[i]))
  }

  /** `is_url_only`: a bare URL, or "http" somewhere with fewer than ten words left
      once the URLs are gone. */
  predicate IsUrlOnly(body: string)
  {
    PureUrl(Strip(body)) || (WordCount(RemoveUrls(body)) < 10 && Contains(body, "http"))
  }

  // ===========================================================================
  // is_auto_generated, is_test_message
  // ===========================================================================

  predicate IsAutoGenerated(body: string)
  {
    var l := Lower(body);
    Contains(l, "automatically generated") || Contains(l, "do not reply")
    || Contains(l, "this is an automated")
  }

  predicate IsTestMessage(body: string, subject: string)
  {
    var combined := Lower(body + " " + subject);
    Contains(combined, "test forward") || Contains(combined, "test redirect")
    || Contains(combined, "test email")
  }

  // ===========================================================================
  // is_signature_only
  // ===========================================================================

  predicate DigitAt(s: string, i: int)
  {
    0 <= i < |s| && IsDigit(s[i])
  }

  predicate ThreeDigits(s: string, i: int)
  {
    DigitAt(s, i) && DigitAt(s, i + 1) && DigitAt(s, i + 2)
  }

  predicate FourDigits(s: string, i: int)
  {
    ThreeDigits(s, i) && DigitAt(s, i + 3)
  }

  /** The optional separator `[-.\s]`. */
  predicate PhoneSepAt(s: string, i: int)
  {
    0 <= i < |s| && (s[i] == '-' || s[i] == '.' || IsSpace(s[i]))
  }

  /** `[-.\s]?\d{4}` at `k`. */
  predicate PhoneLastFour(s: string, k: int)
  {
    FourDigits(s, k) || (PhoneSepAt(s, k) && FourDigits(s, k + 1))
  }

  /** `\d{3}[-.\s]?\d{3}[-.\s]?\d{4}` at `i`, with each separator present or not. */
  predicate PhoneAt(s: string, i: int)
  {
    ThreeDigits(s, i) &&
    ((ThreeDigits(s, i + 3) && PhoneLastFour(s, i + 6))
     || (PhoneSepAt(s, i + 3) && ThreeDigits(s, i + 4) && PhoneLastFour(s, i + 7)))
  }

  /** `\S+@\S+` at `i`: an `@` with a non-whitespace character on each side. */
  predicate EmailAddressAt(s: string, i: int)
  {
    0 < i && i + 1 < |s| && s[i] == '@' && !IsSpace(s[i - 1]) && !IsSpace(s[i + 1])
  }

  predicate HasPhone(s: string)
  {
    exists i :: 0 <= i < |s| && PhoneAt(s, i)
  }

  predicate HasEmailAddress(s: string)
  {
    exists i :: 0 <= i < |s| && EmailAddressAt(s, i)
  }

  /** `is_signature_only`: a short body with a phone number or an address. A body
      of ten words or more is never a bare signature. */
  function IsSignatureOnly(body: string): (r: bool)
    ensures WordCount(body) >= 10 ==> !r
    ensures r ==> HasPhone(body) || HasEmailAddress(body)
  {
    WordCount(body) < 10 && (HasPhone(body) || HasEmailAddress(body))
  }

  // ===========================================================================
  // has_only_image_refs
  // ===========================================================================

  /** The first `]` or newline at or after `from`, or `|s|`: where `.*?\]` stops. */
  function BracketOrLineEnd(s: string, from: nat): (e: nat)
    requires from <= |s|
    ensures from <= e <= |s|
    ensures e < |s| ==> s[e] == ']' || s[e] == '\n'
    ensures forall k :: from <= k < e ==> s[k] != ']' && s[k] != '\n'
    decreases |s| - from
  {
    if from == |s| || s[from] == ']' || s[from] == '\n' then from
    else BracketOrLineEnd(s, from + 1)
  }

  /** `\[image:.*?\]` (case-insensitive) at `i`: the tag, then the nearest `]`
      with no newline before it. */
  predicate ImageRefAt(s: string, i: nat)
  {
    OccursAt(Lower(s), "[image:", i) &&
    var e := BracketOrLineEnd(s, i + 7);
    e < |s| && s[e] == ']'
  }

  /** `re.sub(r'\[image:.*?\]', '', s, flags=re.IGNORECASE)` */
  function RemoveImageRefs(s: string): (r: string)
    ensures |r| <= |s|
    decreases |s|
  {
    if s == [] then []
    else if ImageRefAt(s, 0) then RemoveImageRefs(s[BracketOrLineEnd(s, 7) + 1..])
    else [s[0]] + RemoveImageRefs(s[1..])
  }

  /** `has_only_image_refs`: an image reference, and fewer than five words besides. */
  predicate HasOnlyImageRefs(body: string)
  {
    (Contains(Lower(body), "[image:") || Contains(Lower(body), "image.png"))
    && WordCount(RemoveImageRefs(body)) < 5
  }

  // ===========================================================================
  // has_email_headers
  // ===========================================================================

  /** `^` under MULTILINE: the start of the text or just after a newline. */
  predicate LineStartAt(s: string, i: int)
  {
    i == 0 || (0 < i <= |s| && s[i - 1] == '\n')
  }

  /** `\s+\S+` at `j`. */
  predicate GapThenText(s: string, j: nat)
  {
    j <= |s| && var e := SpaceRunEnd(s, j); e > j && e < |s|
  }

  /** `\s+\w+,` at `j`. */
  predicate GapThenWordComma(s: string, j: nat)
  {
    j <= |s| &&
    var e := SpaceRunEnd(s, j);
    e > j && var c := WordRunEnd(s, e); c > e && c < |s| && s[c] == ','
  }

  /** `\s+.+` at `p`: some whitespace, then a character other than a newline
      (which may itself be whitespace the first `\s+` gives back). */
  predicate GapThenLineText(s: string, p: nat)
    decreases |s| - p
  {
    p + 1 < |s| && IsSpace(s[p]) && (s[p + 1] != '\n' || GapThenLineText(s, p + 1))
  }

  /** One of `^From:\s+\S+`, `^Sent:\s+\w+,`, `^To:\s+\S+`, `^Subject:\s+.+`
      (case-insensitive) at `i`. */
  predicate HeaderAt(s: string, i: nat)
  {
    LineStartAt(s, i) &&
    var l := Lower(s);
    (OccursAt(l, "from:", i) && GapThenText(s, i + 5))
    || (OccursAt(l, "sent:", i) && GapThenWordComma(s, i + 5))
    || (OccursAt(l, "to:", i) && GapThenText(s, i + 3))
    || (OccursAt(l, "subject:", i) && GapThenLineText(s, i + 8))
  }

  /** The Outlook separator: 32 underscores. */
  const OutlookSeparator: string := "________________________________"

  /** `has_email_headers` */
  predicate HasEmailHeaders(body: string)
  {
    (exists i: nat :: i <= |body| && HeaderAt(body, i))
    || Contains(Lower(body), "email originated from an external sender")
    || Contains(body, OutlookSeparator)
  }

  // ===========================================================================
  // has_form_data
  // ===========================================================================

  /** `\s*\w+` at `j`. */
  predicate GapThenWord(s: string, j: nat)
  {
    j <= |s| && var e := SpaceRunEnd(s, j); e < |s| && IsWordChar(s[e])
  }

  /** `\s*` then the characters `c` and a digit, at `j` (`\s*\$\d+`). */
  predicate GapThenSignedDigit(s: string, j: nat, c: char)
  {
    j <= |s| && var e := SpaceRunEnd(s, j); e + 1 < |s| && s[e] == c && IsDigit(s[e + 1])
  }

  /** `\s*\d+` at `j`. */
  predicate GapThenDigit(s: string, j: nat)
  {
    j <= |s| && var e := SpaceRunEnd(s, j); e < |s| && IsDigit(s[e])
  }

  /** `user\s+id:\s*\d+` (case-insensitive) at `i`. */
  predicate UserIdAt(s: string, i: nat)
  {
    OccursAt(Lower(s), "user", i) &&
    var g := SpaceRunEnd(s, i + 4);
    g > i + 4 && OccursAt(Lower(s), "id:", g) && GapThenDigit(s, g + 3)
  }

  /** The `k`-th form pattern matches at `i` (0 account, 1 username, 2 balance,
      3 user id, 4 password; all case-insensitive). */
  predicate FormPatternAt(s: string, k: nat, i: nat)
  {
    var l := Lower(s);
    if k == 0 then OccursAt(l, "account:", i) && GapThenWord(s, i + 8)
    else if k == 1 then OccursAt(l, "username:", i) && GapThenWord(s, i + 9)
    else if k == 2 then OccursAt(l, "balance:", i) && GapThenSignedDigit(s, i + 8, '$')
    else if k == 3 then UserIdAt(s, i)
    else k == 4 && OccursAt(l, "password:", i) && GapThenWord(s, i + 9)
  }

  predicate FormPatternFound(s: string, k: nat)
  {
    exists i: nat :: i < |s| && FormPatternAt(s, k, i)
  }

  /** The number of form patterns from the `k`-th on that occur in `s`. */
  function FormMatchCount(s: string, k: nat): nat
    requires k <= 5
    decreases 5 - k
  {
    if k == 5 then 0
    else (if FormPatternFound(s, k) then 1 else 0) + FormMatchCount(s, k + 1)
  }

  /** `has_form_data`: two or more of the five patterns occur. */
  predicate HasFormData(body: string)
  {
    FormMatchCount(body, 0) >= 2
  }

  // ===========================================================================
  // is_meaningful
  // ===========================================================================

  /** `re.fullmatch(r"[^\w\s]+", t)`: a reaction made only of symbols. */
  predicate IsSymbolsOnly(t: string)
  {
    t != [] && forall i :: 0 <= i < |t| ==> !IsWordChar(t[i]) && !IsSpace(t[i])
  }

  /** `is_meaningful`: the rejection cascade, in the order the source tests it. */
  predicate IsMeaningful(body: string, subject: string, lists: PatternLists)
  {
    var stripped := Strip(body);
    if stripped == [] then false
    else if IsSymbolsOnly(stripped) then false
    else if Contains(body, "reacted via Gmail") then false
    else if Lower(stripped) == "unsubscribe" then false
    else if IsUrlOnly(body) then false
    else if IsAutoGenerated(body) then false
    else if IsTestMessage(body, subject) then false
    else if IsSignatureOnly(body) then false
    else if lists.confirmation(body) then false
    else if HasOnlyImageRefs(body) then false
    else if lists.codeOrCss(body) then false
    else if lists.meetingInvite(body) then false
    else if HasEmailHeaders(body) then false
    else !HasFormData(body)
  }

  // ===========================================================================
  // intent_from_subject_or_body
  // ===========================================================================

  const UnsubscribeIntent: string := "Write an email asking to unsubscribe."
  const ReplyIntent: string := "Write an email responding to a message."
  const ForwardIntent: string := "Write a forwarded message."
  const BriefIntent: string := "Write a brief one-line email in your tone."
  const FallbackIntent: string := "Write an email in your tone."

  /** `intent_from_subject_or_body`: always one of the five fixed instructions. */
  function Intent(subject: string, body: string): (r: string)
    ensures r in {UnsubscribeIntent, ReplyIntent, ForwardIntent, BriefIntent, FallbackIntent}
  {
    var s := Strip(Lower(subject));
    var b := Strip(Lower(body));
    if Contains(s, "unsubscribe") || b == "unsubscribe" then UnsubscribeIntent
    else if StartsWith(s, "re:") then ReplyIntent
    else if StartsWith(s, "fwd:") || StartsWith(s, "fw:") then ForwardIntent
    else if WordCount(body) <= 4 then BriefIntent
    else FallbackIntent
  }

  // ===========================================================================
  // Properties
  // ===========================================================================

  /** A run of non-whitespace followed by whitespace (or nothing) is one token. */
  lemma {:induction false} TokenLengthConcat(a: string, b: string)
    requires forall i :: 0 <= i < |a| ==> !IsSpace(a[i])
    requires b == [] || IsSpace(b[0])
    ensures TokenLength(a + b) == |a|
    decreases |a|
  {
    if a == [] {
      assert a + b == b;
    } else {
      assert (a + b)[1..] == a[1..] + b;
      TokenLengthConcat(a[1..], b);
    }
  }

  lemma UrlStartsWithH(s: string, i: nat)
    requires i < |s|
    ensures UrlAt(s, i) ==> s[i] == 'h'
  {
    if UrlAt(s, i) {
      assert s[i..i + 7][0] == s[i];
    }
  }

  /** `https?://\S+` looks at no more than its first nine characters, so a match
      inside the tail is a match one place further on in the whole text. */
  lemma UrlAtTail(s: string, i: int)
    requires s != [] && i >= 1
    ensures UrlAt(s, i) <==> UrlAt(s[1..], i - 1)
  {
    if i + 7 <= |s| {
      assert s[1..][i - 1..i - 1 + 7] == s[i..i + 7];
    }
    if i + 8 <= |s| {
      assert s[1..][i - 1..i - 1 + 8] == s[i..i + 8];
    }
  }

  /** A result that starts with a non-whitespace character kept that character
      from the front of the text: a removed URL is followed by whitespace or the end. */
  lemma RemoveUrlsFrontChar(t: string)
    ensures RemoveUrls(t) != [] && !IsSpace(RemoveUrls(t)[0]) ==>
      t != [] && !UrlAt(t, 0) && RemoveUrls(t) == [t[0]] + RemoveUrls(t[1..])
  {
    if t != [] && UrlAt(t, 0) {
      var u := t[TokenLength(t)..];
      if u != [] {
        UrlStartsWithH(u, 0);
        assert RemoveUrls(u) == [u[0]] + RemoveUrls(u[1..]);
      }
    }
  }

  /** A run of non-whitespace at the front of the result is the front of the text. */
  lemma {:induction false} RemoveUrlsKeepsFront(t: string, m: nat)
    requires m <= |RemoveUrls(t)|
    requires forall j :: 0 <= j < m ==> !IsSpace(RemoveUrls(t)[j])
    ensures m <= |t| && RemoveUrls(t)[..m] == t[..m]
    decreases |t|
  {
    hide UrlAt, TokenLength;
    if m > 0 {
      RemoveUrlsFrontChar(t);
      var r' := RemoveUrls(t[1..]);
      assert forall j :: 0 <= j < m - 1 ==> r'[j] == RemoveUrls(t)[j + 1];
      RemoveUrlsKeepsFront(t[1..], m - 1);
      assert RemoveUrls(t)[..m] == [t[0]] + r'[..m - 1];
    }
  }

  /** The length of the shortest `https?://\S` match at the front. */
  function UrlHead(r: string): (h: nat)
    ensures 8 <= h <= 9
  {
    if OccursAt(r, "https://", 0) && 8 < |r| && !IsSpace(r[8]) then 9 else 8
  }

  lemma UrlHeadSolid(r: string)
    requires UrlAt(r, 0)
    ensures UrlHead(r) <= |r|
    ensures forall j :: 0 <= j < UrlHead(r) ==> !IsSpace(r[j])
  {
    assert UrlHead(r) <= |r|;
    forall j | 0 <= j < UrlHead(r) ensures !IsSpace(r[j]) {
      if UrlHead(r) == 9 {
        if j < 8 {
          assert r[..8] == "https://";
          assert r[j] == "https://"[j];
        }
      } else if j < 7 {
        assert r[..7] == "http://";
        assert r[j] == "http://"[j];
      }
    }
  }

  lemma UrlAtOfHead(r: string, s: string)
    requires UrlAt(r, 0) && UrlHead(r) <= |r| && UrlHead(r) <= |s| && r[..UrlHead(r)] == s[..UrlHead(r)]
    ensures UrlAt(s, 0)
  {
    var k := UrlHead(r);
    assert s[..k - 1] == r[..k - 1];
    assert s[k - 1] == r[k - 1];
    if k == 9 {
      assert s[..8] == r[..8];
    } else {
      assert s[..7] == r[..7];
    }
  }

  /** A URL at the front of `[s[0]] + RemoveUrls(s[1..])` was already a URL at
      the front of `s`. */
  lemma UrlAtFrontOfKept(s: string)
    requires s != []
    ensures UrlAt([s[0]] + RemoveUrls(s[1..]), 0) ==> UrlAt(s, 0)
  {
    hide RemoveUrls, UrlAt, UrlHead;
    var w := RemoveUrls(s[1..]);
    var r := [s[0]] + w;
    if UrlAt(r, 0) {
      var k := UrlHead(r);
      UrlHeadSolid(r);
      forall j | 0 <= j < k - 1 ensures !IsSpace(w[j]) {
        assert w[j] == r[j + 1];
      }
      RemoveUrlsKeepsFront(s[1..], k - 1);
      assert r[..k] == [s[0]] + w[..k - 1];
      assert s[..k] == [s[0]] + s[1..][..k - 1];
      UrlAtOfHead(r, s);
    }
  }

  /** `re.sub(r'https?://\S+', '', s)` leaves no URL behind: each removed URL is
      followed by whitespace or the end, so no new match is assembled. */
  lemma {:induction false} RemoveUrlsLeavesNoUrl(s: string)
    ensures forall i :: !UrlAt(RemoveUrls(s), i)
    decreases |s|
  {
    if s == [] {
    } else if UrlAt(s, 0) {
      RemoveUrlsLeavesNoUrl(s[TokenLength(s)..]);
    } else {
      var r' := RemoveUrls(s[1..]);
      var r := [s[0]] + r';
      assert RemoveUrls(s) == r;
      RemoveUrlsLeavesNoUrl(s[1..]);
      UrlAtFrontOfKept(s);
      forall i ensures !UrlAt(r, i) {
        if i >= 1 {
          UrlAtTail(r, i);
          assert r[1..] == r';
        }
      }
    }
  }

  /** Text without a URL is left as it is. */
  lemma {:induction false} RemoveUrlsKeepsClean(s: string)
    requires forall i :: !UrlAt(s, i)
    ensures RemoveUrls(s) == s
    decreases |s|
  {
    if s != [] {
      assert !UrlAt(s, 0);
      forall i ensures !UrlAt(s[1..], i) {
        if i >= 0 {
          UrlAtTail(s, i + 1);
        }
      }
      RemoveUrlsKeepsClean(s[1..]);
    }
  }

  lemma {:induction false} BracketOrLineEndTail(s: string, from: nat)
    requires 1 <= from <= |s|
    ensures BracketOrLineEnd(s[1..], from - 1) == BracketOrLineEnd(s, from) - 1
    decreases |s| - from
  {
    if from < |s| && s[from] != ']' && s[from] != '\n' {
      BracketOrLineEndTail(s, from + 1);
    }
  }

  lemma ImageRefAtTail(s: string, i: nat)
    requires s != [] && i >= 1
    ensures ImageRefAt(s, i) <==> ImageRefAt(s[1..], i - 1)
  {
    var l := Lower(s);
    var l' := Lower(s[1..]);
    LowerSlice(s, 1, |s|);
    assert s[1..|s|] == s[1..];
    assert l' == l[1..];
    if i + 7 <= |s| {
      assert l'[i - 1..i - 1 + 7] == l[i..i + 7];
      BracketOrLineEndTail(s, i + 7);
      var e := BracketOrLineEnd(s, i + 7);
      assert e < |s| ==> s[1..][e - 1] == s[e];
    } else {
      assert !OccursAt(l, "[image:", i) && !OccursAt(l', "[image:", i - 1);
    }
  }

  /** Text without an image reference is left as it is. */
  lemma {:induction false} RemoveImageRefsKeepsClean(s: string)
    requires forall i: nat :: !ImageRefAt(s, i)
    ensures RemoveImageRefs(s) == s
    decreases |s|
  {
    if s != [] {
      assert !ImageRefAt(s, 0);
      forall i: nat ensures !ImageRefAt(s[1..], i) {
        ImageRefAtTail(s, i + 1);
      }
      RemoveImageRefsKeepsClean(s[1..]);
    }
  }

  /** Lower-casing keeps a leading `[image:` tag. */
  lemma ImageTagLower(t: string)
    requires |t| >= 7 && t[0] == '[' && t[1] == 'i' && t[2] == 'm' && t[3] == 'a'
    requires t[4] == 'g' && t[5] == 'e' && t[6] == ':'
    ensures OccursAt(Lower(t), "[image:", 0)
  {
    var l := Lower(t);
    assert l[0] == '[' && l[1] == 'i' && l[2] == 'm' && l[3] == 'a';
    assert l[4] == 'g' && l[5] == 'e' && l[6] == ':';
    assert l[..7] == "[image:";
  }

  /** A one-character reference `[image:c]` at the front is removed whole. */
  lemma ImageRefFound(t: string)
    requires |t| >= 9 && t[0] == '[' && t[1] == 'i' && t[2] == 'm' && t[3] == 'a'
    requires t[4] == 'g' && t[5] == 'e' && t[6] == ':' && t[7] != ']' && t[7] != '\n' && t[8] == ']'
    ensures ImageRefAt(t, 0)
    ensures RemoveImageRefs(t) == RemoveImageRefs(t[9..])
  {
    hide Lower;
    ImageTagLower(t);
    assert BracketOrLineEnd(t, 8) == 8;
    assert BracketOrLineEnd(t, 7) == 8;
  }

  /** A character that cannot start `[image:` where it stands is kept. */
  lemma ImageRefSkip(c: char, r: string, j: nat)
    requires j < 7 && j <= |r| && LowerChar(([c] + r)[j]) != "[image:"[j]
    ensures RemoveImageRefs([c] + r) == [c] + RemoveImageRefs(r)
  {
    var t := [c] + r;
    assert Lower(t)[j] == LowerChar(t[j]);
    assert t[1..] == r;
  }

  lemma ImageRefsKeepTail(y: char)
    ensures RemoveImageRefs(['g'] + (['e'] + ([':'] + ([y] + [']'])))) == ['g'] + (['e'] + ([':'] + ([y] + [']'])))
  {
    hide RemoveImageRefs, ImageRefAt, Lower, BracketOrLineEnd;
    var tail := [']'];
    ImageRefSkip(']', [], 0);
    assert RemoveImageRefs([]) == [];
    assert [']'] + [] == tail;
    ImageRefSkip(y, tail, 1);
    ImageRefSkip(':', [y] + tail, 2);
    ImageRefSkip('e', [':'] + ([y] + tail), 3);
    ImageRefSkip('g', ['e'] + ([':'] + ([y] + tail)), 4);
  }

  lemma NestedImageRefRemoval(x: char, y: char, t: string, g: string)
    requires x != ']' && x != '\n'
    requires g == ['g'] + (['e'] + ([':'] + ([y] + [']'])))
    requires t == "[image:" + [x] + "]" + g
    ensures RemoveImageRefs(['['] + (['i'] + (['m'] + (['a'] + t))))
      == ['['] + (['i'] + (['m'] + (['a'] + g)))
  {
    hide RemoveImageRefs, ImageRefAt, Lower, BracketOrLineEnd;
    ImageRefsKeepTail(y);
    ImageRefFound(t);
    assert t[9..] == g;
    ImageRefSkip('a', t, 1);
    ImageRefSkip('m', ['a'] + t, 2);
    ImageRefSkip('i', ['m'] + (['a'] + t), 3);
    ImageRefSkip('[', ['i'] + (['m'] + (['a'] + t)), 4);
  }

  /** Unlike the URL removal, one pass of `\[image:.*?\]` can assemble a new
      reference from the text around the one it removes: removing `[image:x]`
      from `[ima[image:x]ge:y]` leaves the reference `[image:y]`. */
  lemma ImageRemovalCanExposeRef(x: char, y: char)
    requires x != ']' && x != '\n' && y != ']' && y != '\n'
    ensures ImageRefAt(RemoveImageRefs("[ima[image:" + [x] + "]ge:" + [y] + "]"), 0)
  {
    hide *;
    var g := ['g'] + (['e'] + ([':'] + ([y] + [']'])));
    var t := "[image:" + [x] + "]" + g;
    NestedImageRefRemoval(x, y, t, g);
    var u := ['['] + (['i'] + (['m'] + (['a'] + g)));
    ImageRefFound(u);
    assert ['['] + (['i'] + (['m'] + (['a'] + t))) == "[ima[image:" + [x] + "]ge:" + [y] + "]";
  }

  /** Leading whitespace passes through the URL removal untouched. */
  lemma {:induction false} RemoveUrlsAfterSpaces(a: string, b: string)
    requires AllSpace(a)
    ensures RemoveUrls(a + b) == a + RemoveUrls(b)
    decreases |a|
  {
    hide UrlAt, TokenLength, OccursAt;
    if a == [] {
      assert a + b == b;
    } else {
      var s := a + b;
      assert s[1..] == a[1..] + b;
      assert IsSpace(s[0]);
      UrlStartsWithH(s, 0);
      RemoveUrlsAfterSpaces(a[1..], b);
    }
  }

  lemma PureUrlHasNoSpace(t: string)
    requires PureUrl(t)
    ensures forall i :: 0 <= i < |t| ==> !IsSpace(t[i])
    ensures |t| > 7 && t[..4] == "http"
  {
    forall i | 0 <= i < |t| ensures !IsSpace(t[i]) {
      if StartsWith(t, "https://") {
        if i < 8 {
          assert t[i] == t[..8][i];
        }
      } else {
        if i < 7 {
          assert t[i] == t[..7][i];
        }
      }
    }
  }

  /** A bare URL followed by whitespace leaves only the whitespace. */
  lemma RemoveBareUrl(t: string, tail: string)
    requires PureUrl(t) && AllSpace(tail)
    ensures RemoveUrls(t + tail) == tail
  {
    PureUrlHasNoSpace(t);
    TokenLengthConcat(t, tail);
    var s := t + tail;
    assert s[..8] == t[..8] && s[..7] == t[..7];
    assert UrlAt(s, 0);
    assert s[|t|..] == tail + [];
    RemoveUrlsAfterSpaces(tail, []);
  }

  lemma BareUrlBetweenSpaces(lead: string, t: string, tail: string)
    requires AllSpace(lead) && PureUrl(t) && AllSpace(tail)
    ensures AllSpace(RemoveUrls(lead + (t + tail)))
  {
    RemoveBareUrl(t, tail);
    RemoveUrlsAfterSpaces(lead, t + tail);
    var rest := lead + tail;
    assert rest[..|lead|] == lead && rest[|lead|..] == tail;
    AllSpaceJoin(rest, |lead|);
  }

  /** A body that strips to a bare URL has nothing but whitespace left once the
      URL is removed, and it contains "http". */
  lemma BareUrlBody(body: string)
    requires PureUrl(Strip(body))
    ensures AllSpace(RemoveUrls(body))
    ensures Contains(body, "http")
  {
    hide Contains, Find, PureUrl, RemoveUrls, Strip, LeadingSpaces, TrailingSpaces, IsSpace, AllSpace;
    var t := Strip(body);
    StripSlice(body);
    var a := LeadingSpaces(body);
    assert body == body[..a] + (t + body[a + |t|..]);
    BareUrlBetweenSpaces(body[..a], t, body[a + |t|..]);
    PureUrlHasNoSpace(t);
    assert body[a..a + 4] == t[..4];
    assert OccursAt(body, "http", a);
    ContainsIff(body, "http");
  }

  /** A bare URL always passes the minimal-context test as well, so `is_url_only`
      holds exactly when "http" occurs and fewer than ten words remain once the
      URLs are removed; the first test never decides the outcome. */
  lemma UrlOnlyByContext(body: string)
    ensures IsUrlOnly(body) <==> WordCount(RemoveUrls(body)) < 10 && Contains(body, "http")
  {
    if PureUrl(Strip(body)) {
      BareUrlBody(body);
      WordsOfSpace(RemoveUrls(body));
    }
  }

  /** Counting from the `k`-th pattern on reaches two exactly when two distinct
      patterns from there on occur. */
  lemma {:induction false} FormMatchCountPairs(s: string, k: nat)
    requires k <= 5
    ensures FormMatchCount(s, k) >= 1 <==> exists j :: k <= j < 5 && FormPatternFound(s, j)
    ensures FormMatchCount(s, k) >= 2 <==>
      exists j, m :: k <= j < m < 5 && FormPatternFound(s, j) && FormPatternFound(s, m)
    decreases 5 - k
  {
    if k < 5 {
      FormMatchCountPairs(s, k + 1);
      if FormMatchCount(s, k) >= 2 && !FormPatternFound(s, k) {
        var j, m :| k + 1 <= j < m < 5 && FormPatternFound(s, j) && FormPatternFound(s, m);
      }
      if FormPatternFound(s, k) && FormMatchCount(s, k + 1) >= 1 {
        var m :| k + 1 <= m < 5 && FormPatternFound(s, m);
        assert k < m;
      }
    }
  }

  /** `has_form_data` holds exactly when two of its five distinct patterns occur. */
  lemma HasFormDataIff(body: string)
    ensures HasFormData(body) <==>
      exists j, m :: 0 <= j < m < 5 && FormPatternFound(body, j) && FormPatternFound(body, m)
  {
    FormMatchCountPairs(body, 0);
  }

  /** `is_meaningful` keeps a body exactly when no rejection test fires; in particular
      a blank body and a bare "unsubscribe" are never kept. */
  lemma MeaningfulIff(body: string, subject: string, lists: PatternLists)
    ensures IsMeaningful(body, subject, lists) <==>
      Strip(body) != [] && !IsSymbolsOnly(Strip(body)) && !Contains(body, "reacted via Gmail")
      && Lower(Strip(body)) != "unsubscribe" && !IsUrlOnly(body) && !IsAutoGenerated(body)
      && !IsTestMessage(body, subject) && !IsSignatureOnly(body) && !lists.confirmation(body)
      && !HasOnlyImageRefs(body) && !lists.codeOrCss(body) && !lists.meetingInvite(body)
      && !HasEmailHeaders(body) && !HasFormData(body)
    ensures AllSpace(body) ==> !IsMeaningful(body, subject, lists)
    ensures Lower(Strip(body)) == "unsubscribe" ==> !IsMeaningful(body, subject, lists)
  {
  }

  /** A kept body that mentions "http" has at least ten words besides its URLs. */
  lemma MeaningfulLinkHasContext(body: string, subject: string, lists: PatternLists)
    requires IsMeaningful(body, subject, lists) && Contains(body, "http")
    ensures WordCount(RemoveUrls(body)) >= 10
  {
    UrlOnlyByContext(body);
  }

  lemma LowerFallback()
    ensures Lower(FallbackIntent) == "write an email in your tone."
  {
  }

  /** Lower-casing an instruction leaves it trimmed and as long as it was. */
  lemma LowerIntentTrimmed(r: string)
    requires r != [] && r[0] == 'W' && r[|r| - 1] == '.'
    ensures Strip(Lower(r)) == Lower(r) && |Lower(r)| == |r|
  {
    var g := Lower(r);
    assert g[0] == 'w' && g[|g| - 1] == '.';
    StripTrimmed(g);
  }

  /** Of the five instructions only the fallback is one of the generic prompts
      that the prompt refiner later rewrites. */
  lemma OnlyFallbackIsGeneric(r: string)
    requires r in {UnsubscribeIntent, ReplyIntent, ForwardIntent, BriefIntent, FallbackIntent}
    ensures Strip(Lower(r)) in Config.GenericPrompts <==> r == FallbackIntent
  {
    LowerIntentTrimmed(r);
    if r == FallbackIntent {
      LowerFallback();
    } else {
      assert |r| in {26, 37, 39, 42};
      assert forall g :: g in Config.GenericPrompts ==> |g| in {27, 28, 29};
    }
  }

  /** A synthetic instruction is generic exactly when no rule but the fallback applied. */
  lemma IntentGenericIff(subject: string, body: string)
    ensures Strip(Lower(Intent(subject, body))) in Config.GenericPrompts
      <==> Intent(subject, body) == FallbackIntent
  {
    OnlyFallbackIsGeneric(Intent(subject, body));
  }

  /** With a subject that names no rule, the instruction depends on the word count only. */
  lemma IntentByLength(subject: string, body: string)
    requires !Contains(Strip(Lower(subject)), "unsubscribe") && Strip(Lower(body)) != "unsubscribe"
    requires !StartsWith(Strip(Lower(subject)), "re:")
    requires !StartsWith(Strip(Lower(subject)), "fwd:") && !StartsWith(Strip(Lower(subject)), "fw:")
    ensures Intent(subject, body) == (if WordCount(body) <= 4 then BriefIntent else FallbackIntent)
  {
  }
}
