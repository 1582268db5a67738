/** Text primitives used by the reply splitter: Python's whitespace test,
    `str.strip()`, and fixed-pattern search. Text is a `seq<char>`. */
module Text {
  import opened Options

  /** The ASCII characters Python 3 treats as whitespace: the six of
      `string.whitespace` and the four information separators 0x1C-0x1F. */
  const AsciiWhitespace: string :=
    " \t\n\r\U{000B}\U{000C}\U{001C}\U{001D}\U{001E}\U{001F}"

  /** Python 3's `str.isspace()` for a single character: the 29 code points
      Unicode classifies as whitespace (bidirectional class WS, B or S, or
      general category Zs). */
  predicate IsSpace(c: char)
    ensures c as int < 0x80 ==> (IsSpace(c) <==> c in AsciiWhitespace)
    ensures IsSpace(c) ==> c as int <= 0x3000
  {
    var n := c as int;
    || (0x09 <= n <= 0x0D)
    || (0x1C <= n <= 0x20)
    || n == 0x85 || n == 0xA0 || n == 0x1680
    || (0x2000 <= n <= 0x200A)
    || n == 0x2028 || n == 0x2029 || n == 0x202F || n == 0x205F || n == 0x3000
  }

  /** Neither the first nor the last character is whitespace. */
  predicate NoEdgeSpace(s: string)
  {
    |s| == 0 || (!IsSpace(s[0]) && !IsSpace(s[|s| - 1]))
  }

  predicate AllSpace(s: string)
  {
    forall i :: 0 <= i < |s| ==> IsSpace(s[i])
  }

  /** Length of the longest whitespace prefix. */
  function LeadingSpaces(s: string): (k: nat)
    ensures k <= |s|
    ensures forall i :: 0 <= i < k ==> IsSpace(s[i])
    ensures k == |s| || !IsSpace(s[k])
  {
    if |s| == 0 || !IsSpace(s[0]) then 0 else 1 + LeadingSpaces(s[1..])
  }

  /** Length of the longest whitespace suffix. */
  function TrailingSpaces(s: string): (k: nat)
    ensures k <= |s|
    ensures forall i :: |s| - k <= i < |s| ==> IsSpace(s[i])
    ensures k == |s| || !IsSpace(s[|s| - 1 - k])
  {
    if |s| == 0 || !IsSpace(s[|s| - 1]) then 0 else 1 + TrailingSpaces(s[..|s| - 1])
  }

  /** Python's `s.strip()` with no argument: `s` without its whitespace
      prefix and its whitespace suffix. The result is the one contiguous
      piece of `s` that starts after the maximal leading run, is followed
      only by whitespace, and has no whitespace at either end. */
  function Strip(s: string): (r: string)
    ensures |r| <= |s|
    ensures LeadingSpaces(s) + |r| <= |s|
    ensures r == s[LeadingSpaces(s)..LeadingSpaces(s) + |r|]
    ensures forall i :: LeadingSpaces(s) + |r| <= i < |s| ==> IsSpace(s[i])
    ensures NoEdgeSpace(r)
  {
    var rest := s[LeadingSpaces(s)..];
    rest[..|rest| - TrailingSpaces(rest)]
  }

  lemma LeadingOfPadded(pre: string, x: string)
    requires AllSpace(pre) && |x| > 0 && !IsSpace(x[0])
    ensures LeadingSpaces(pre + x) == |pre|
  {
    var s := pre + x;
    assert s[|pre|] == x[0];
  }

  lemma TrailingOfPadded(x: string, post: string)
    requires AllSpace(post) && |x| > 0 && !IsSpace(x[|x| - 1])
    ensures TrailingSpaces(x + post) == |post|
  {
    var s := x + post;
    assert s[|x| - 1] == x[|x| - 1];
  }

  /** Stripping removes exactly whitespace padding: a string without edge
      whitespace, padded on both sides by whitespace, strips back to itself. */
  lemma {:induction false} StripPadded(pre: string, c: string, post: string)
    requires AllSpace(pre) && AllSpace(post) && NoEdgeSpace(c)
    ensures Strip(pre + c + post) == c
  {
    var s := pre + c + post;
    if |c| == 0 {
      assert AllSpace(s) by {
        forall i | 0 <= i < |s| ensures IsSpace(s[i]) {
          if i < |pre| { assert s[i] == pre[i]; } else { assert s[i] == post[i - |pre|]; }
        }
      }
      assert LeadingSpaces(s) == |s|;
    } else {
      assert s == pre + (c + post);
      LeadingOfPadded(pre, c + post);
      var rest := s[|pre|..];
      assert rest == c + post;
      TrailingOfPadded(c, post);
      assert rest[..|rest| - |post|] == c;
    }
  }

  /** Stripping is idempotent. */
  lemma StripIdempotent(s: string)
    ensures Strip(Strip(s)) == Strip(s)
  {
    StripPadded([], Strip(s), []);
    assert [] + Strip(s) + [] == Strip(s);
  }

  /** `pat` occurs in `s` at index `k`. */
  predicate OccursAt(pat: string, s: string, k: int)
  {
    0 <= k && k + |pat| <= |s| && s[k..k + |pat|] == pat
  }

  /** Python's `s.find(pat, from)`: the smallest index at or after `from`
      where `pat` occurs, or `None` when there is none. */
  function FindFrom(pat: string, s: string, from: nat): (r: Option<nat>)
    ensures r.Some? ==> from <= r.value && OccursAt(pat, s, r.value)
    ensures r.Some? ==> forall k :: from <= k < r.value ==> !OccursAt(pat, s, k)
    ensures r.None? ==> forall k :: from <= k ==> !OccursAt(pat, s, k)
    decreases |s| - from
  {
    if from + |pat| > |s| then None
    else if s[from..from + |pat|] == pat then Some(from)
    else FindFrom(pat, s, from + 1)
  }

  /** An occurrence depends only on the characters it covers. */
  lemma OccursAtSamePrefix(pat: string, s: string, u: string, k: int, n: nat)
    requires n <= |s| && n <= |u| && s[..n] == u[..n]
    requires k + |pat| <= n
    ensures OccursAt(pat, s, k) <==> OccursAt(pat, u, k)
  {
    if 0 <= k {
      assert s[k..k + |pat|] == s[..n][k..k + |pat|];
      assert u[k..k + |pat|] == u[..n][k..k + |pat|];
    }
  }
}
