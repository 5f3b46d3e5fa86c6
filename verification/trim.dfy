/**
  trimExtras: strips spaces, newlines and double quotes from both ends of a
  C string. The C string is a `string` without NUL characters; the
  terminating NUL is the extra slot the trailing loop starts from.
 */
module Trim {

  /** The characters the trimmer removes (the terminating NUL counts as one). */
  predicate IsTrimChar(c: char) {
    c == '\0' || c == '\n' || c == '"' || c == ' '
  }

  /** A valid C string: no NUL before the terminator. */
  predicate IsCString(s: string) {
    forall k :: 0 <= k < |s| ==> s[k] != '\0'
  }

  /** The string has something left after trimming. */
  predicate HasContent(s: string) {
    exists k :: 0 <= k < |s| && !IsTrimChar(s[k])
  }

  /** Reference definition: drop trim characters from the back. */
  function TrimTrailing(s: string): string {
    if |s| == 0 || !IsTrimChar(s[|s| - 1]) then s
    else TrimTrailing(s[..|s| - 1])
  }

  /** Reference definition: drop trim characters from the front. */
  function TrimLeading(s: string): string {
    if |s| == 0 || !IsTrimChar(s[0]) then s
    else TrimLeading(s[1..])
  }

  /** TrimTrailing keeps a prefix, drops only trim characters, and ends on content. */
  lemma {:induction false} TrimTrailingFacts(s: string)
    ensures var r := TrimTrailing(s);
            && |r| <= |s| && r == s[..|r|]
            && (forall k :: |r| <= k < |s| ==> IsTrimChar(s[k]))
            && (|r| == 0 || !IsTrimChar(r[|r| - 1]))
    decreases |s|
  {
    if |s| > 0 && IsTrimChar(s[|s| - 1]) {
      var s' := s[..|s| - 1];
      assert TrimTrailing(s) == TrimTrailing(s');
      TrimTrailingFacts(s');
      var r := TrimTrailing(s');
      assert s'[..|r|] == s[..|r|];
      forall k | |r| <= k < |s|
        ensures IsTrimChar(s[k])
      {
        if k < |s| - 1 {
          assert s'[k] == s[k];
        }
      }
    }
  }

  /** TrimLeading keeps a suffix, drops only trim characters, and starts on content. */
  lemma {:induction false} TrimLeadingFacts(s: string)
    ensures var r := TrimLeading(s);
            && |r| <= |s| && r == s[|s| - |r|..]
            && (forall k :: 0 <= k < |s| - |r| ==> IsTrimChar(s[k]))
            && (|r| == 0 || !IsTrimChar(r[0]))
    decreases |s|
  {
    if |s| > 0 && IsTrimChar(s[0]) {
      var s' := s[1..];
      assert TrimLeading(s) == TrimLeading(s');
      TrimLeadingFacts(s');
      var r := TrimLeading(s');
      var m := |s'| - |r|;
      assert r == s'[m..];
      assert s'[m..] == s[m + 1..];
      forall k | 0 <= k < |s| - |r|
        ensures IsTrimChar(s[k])
      {
        if k > 0 {
          assert s'[k - 1] == s[k];
        }
      }
    }
  }

  /** What trimExtras leaves behind. */
  function Trimmed(s: string): string {
    TrimLeading(TrimTrailing(s))
  }

  /** `s[i]` and `s[e]` are the first and last characters of `s` that are not trimmed. */
  predicate IsCore(s: string, i: int, e: int) {
    && 0 <= i <= e < |s|
    && !IsTrimChar(s[i]) && !IsTrimChar(s[e])
    && (forall k :: 0 <= k < i ==> IsTrimChar(s[k]))
    && (forall k :: e < k < |s| ==> IsTrimChar(s[k]))
  }

  /**
    The trimmed string is the stretch from the first to the last non-trim
    character, with everything in between kept as it was.
   */
  lemma {:induction false} TrimmedIsCore(s: string)
    requires HasContent(s)
    ensures exists i, e :: IsCore(s, i, e) && Trimmed(s) == s[i..e + 1]
  {
    var t := TrimTrailing(s);
    TrimTrailingFacts(s);
    TrimLeadingFacts(t);
    var k0 :| 0 <= k0 < |s| && !IsTrimChar(s[k0]);
    assert k0 < |t|;
    var e := |t| - 1;
    assert s[e] == t[e];
    var r := TrimLeading(t);
    assert t[k0] == s[k0];
    assert |r| > 0;
    var i := |t| - |r|;
    assert t[i..] == s[i..e + 1];
    assert s[i] == r[0];
    assert forall k :: 0 <= k < i ==> s[k] == t[k];
    assert Trimmed(s) == s[i..e + 1];
    assert IsCore(s, i, e);
  }

  /** Trimming twice is trimming once. */
  lemma TrimmedIdempotent(s: string)
    ensures Trimmed(Trimmed(s)) == Trimmed(s)
  {
    var t := TrimTrailing(s);
    var r := TrimLeading(t);
    TrimTrailingFacts(s);
    TrimLeadingFacts(t);
    if |r| > 0 {
      assert r[|r| - 1] == t[|t| - 1];
      assert TrimTrailing(r) == r;
    }
  }

  /**
    trimExtras (thread.c): the trailing scan starts on the terminating NUL
    and walks back to the last non-trim character; the leading scan walks
    forward to the first one; the text between them is copied back.
   */
  method TrimExtras(text: string) returns (r: string)
    requires IsCString(text) && HasContent(text)
    ensures r == Trimmed(text)
    ensures |r| > 0 && !IsTrimChar(r[0]) && !IsTrimChar(r[|r| - 1])
  {
    var tempchar := text + ['\0'];
    var length := |text|;
    ghost var j0 :| 0 <= j0 < |text| && !IsTrimChar(text[j0]);
    assert tempchar[j0] == text[j0];
    while IsTrimChar(tempchar[length])
      invariant j0 <= length <= |text|
      invariant forall k :: length < k < |tempchar| ==> IsTrimChar(tempchar[k])
      decreases length
    {
      length := length - 1;
    }
    TrailingScanStops(text, tempchar, length);
    tempchar := tempchar[length + 1 := '\0'];
    var i := 0;
    while IsTrimChar(tempchar[i])
      invariant 0 <= i <= length
      invariant forall k :: 0 <= k < i ==> IsTrimChar(text[k])
      decreases length - i
    {
      assert tempchar[i] == text[i];
      i := i + 1;
    }
    assert tempchar[i] == text[i];
    r := tempchar[i..length + 1];
    LeadingScanStops(text, tempchar, length, i);
    assert r == TrimLeading(TrimTrailing(text));
    assert r[0] == text[i] && r[|r| - 1] == text[length];
  }

  /** Where the trailing scan of trimExtras stops, TrimTrailing cuts. */
  lemma TrailingScanStops(text: string, tempchar: string, length: int)
    requires tempchar == text + ['\0'] && 0 <= length < |tempchar|
    requires !IsTrimChar(tempchar[length])
    requires forall k :: length < k < |tempchar| ==> IsTrimChar(tempchar[k])
    ensures length < |text| && !IsTrimChar(text[length])
    ensures TrimTrailing(text) == text[..length + 1]
  {
    assert tempchar[|text|] == '\0';
    assert text[length] == tempchar[length];
    forall k | length < k < |text|
      ensures IsTrimChar(text[k])
    {
      assert text[k] == tempchar[k];
    }
    TrimTrailingIsLastContent(text, length);
  }

  /** What the leading scan leaves is TrimLeading of what the trailing scan left. */
  lemma LeadingScanStops(text: string, tempchar: string, length: int, i: int)
    requires 0 <= i <= length < |text| && |tempchar| == |text| + 1
    requires forall k :: 0 <= k <= length ==> tempchar[k] == text[k]
    requires !IsTrimChar(text[length]) && !IsTrimChar(text[i])
    requires forall k :: 0 <= k < i ==> IsTrimChar(text[k])
    ensures tempchar[i..length + 1] == TrimLeading(text[..length + 1])
  {
    var t := text[..length + 1];
    forall k | 0 <= k < i
      ensures IsTrimChar(t[k])
    {
      assert t[k] == text[k];
    }
    TrimLeadingIsFirstContent(t, i);
    assert tempchar[i..length + 1] == t[i..];
  }

  /** TrimTrailing stops at the last non-trim character. */
  lemma {:induction false} TrimTrailingIsLastContent(s: string, e: int)
    requires 0 <= e < |s| && !IsTrimChar(s[e])
    requires forall k :: e < k < |s| ==> IsTrimChar(s[k])
    ensures TrimTrailing(s) == s[..e + 1]
    decreases |s|
  {
    if e < |s| - 1 {
      TrimTrailingIsLastContent(s[..|s| - 1], e);
      assert s[..|s| - 1][..e + 1] == s[..e + 1];
    }
  }

  /** TrimLeading stops at the first non-trim character. */
  lemma {:induction false} TrimLeadingIsFirstContent(s: string, i: int)
    requires 0 <= i < |s| && !IsTrimChar(s[i])
    requires forall k :: 0 <= k < i ==> IsTrimChar(s[k])
    ensures TrimLeading(s) == s[i..]
    decreases i
  {
    if i > 0 {
      TrimLeadingIsFirstContent(s[1..], i - 1);
      assert s[1..][i - 1..] == s[i..];
    }
  }
}
