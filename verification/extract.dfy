/** The reply splitter of `AIWebAgent.extract_code_from_response`: it emulates
    `re.search` with the patterns "```html\n([\s\S]*?)\n```" and
    "```\n([\s\S]*?)\n```" and cuts the reply into explanation and code. */
module Extract {
  import opened Options
  import opened Text

  /** Opening fence of a block tagged as HTML (line feed only, case-sensitive). */
  const HtmlOpener: string := "```html\n"
  /** Opening fence of a block without a language tag. */
  const PlainOpener: string := "```\n"
  /** Closing fence: a line feed followed by three backticks. */
  const Closer: string := "\n```"

  /** The pattern `<opener>([\s\S]*?)\n``` ` can match with its opener at `i`
      and its closing fence at `j`. The closer may not reuse characters of the
      opener, so `j` is at or after the opener's end. */
  predicate IsFence(opener: string, s: string, i: int, j: int)
  {
    OccursAt(opener, s, i) && i + |opener| <= j && OccursAt(Closer, s, j)
  }

  /** `re.search` finds nothing. */
  ghost predicate NoFence(opener: string, s: string)
  {
    forall i, j :: !IsFence(opener, s, i, j)
  }

  /** The match `re.search` reports: the leftmost start at which the pattern
      matches at all, and there the shortest body the lazy `*?` allows. */
  ghost predicate IsLeftmostFence(opener: string, s: string, i: int, j: int)
  {
    && IsFence(opener, s, i, j)
    && (forall i', j' :: 0 <= i' < i ==> !IsFence(opener, s, i', j'))
    && (forall k :: i + |opener| <= k < j ==> !OccursAt(Closer, s, k))
  }

  /** A match: opener index and closing-fence index. */
  datatype Fence = Fence(start: nat, close: nat)

  /** The two halves of a reply: prose before the block and the block body. */
  datatype Split = Split(explanation: string, code: string)

  /** If the earliest opener has no closing fence after it, no later opener
      has one either, so the search may stop at the earliest opener. */
  lemma EarliestOpenerSuffices(opener: string, s: string, i: nat)
    requires forall k :: i + |opener| <= k ==> !OccursAt(Closer, s, k)
    ensures forall i', j :: i <= i' ==> !IsFence(opener, s, i', j)
  {
  }

  /** The match of `re.search(opener + "([\s\S]*?)\n```", s)`, found by
      locating the earliest opener and then the earliest closer after it. */
  function FirstFence(opener: string, s: string): (r: Option<Fence>)
    ensures r.Some? ==> IsLeftmostFence(opener, s, r.value.start, r.value.close)
    ensures r.None? ==> NoFence(opener, s)
  {
    match FindFrom(opener, s, 0)
    case None => None
    case Some(i) =>
      match FindFrom(Closer, s, i + |opener|)
      case None => EarliestOpenerSuffices(opener, s, i); None
      case Some(j) => Some(Fence(i, j))
  }

  /** There is only one leftmost match. */
  lemma LeftmostFenceUnique(opener: string, s: string, i: int, j: int, i2: int, j2: int)
    requires IsLeftmostFence(opener, s, i, j) && IsLeftmostFence(opener, s, i2, j2)
    ensures i == i2 && j == j2
  {
  }

  /** `FirstFence` reports exactly the leftmost match. */
  lemma FirstFenceIsLeftmost(opener: string, s: string)
    ensures forall i, j :: IsLeftmostFence(opener, s, i, j) ==> FirstFence(opener, s) == Some(Fence(i, j))
  {
    forall i, j | IsLeftmostFence(opener, s, i, j)
      ensures FirstFence(opener, s) == Some(Fence(i, j))
    {
      var r := FirstFence(opener, s);
      assert !NoFence(opener, s) by { assert IsFence(opener, s, i, j); }
      LeftmostFenceUnique(opener, s, i, j, r.value.start, r.value.close);
    }
  }

  /** An occurrence inside a slice is an occurrence in the whole text. */
  lemma OccursInSlice(pat: string, s: string, a: int, b: int, k: int)
    requires 0 <= a <= b <= |s|
    requires OccursAt(pat, s[a..b], k)
    ensures OccursAt(pat, s, a + k)
  {
    var y := s[a..b][k..k + |pat|];
    var z := s[a + k..a + k + |pat|];
    forall t | 0 <= t < |y| ensures y[t] == z[t] {
    }
    assert y == z;
  }

  /** Cut the reply at a leftmost match: trimmed prose before the opener and
      the trimmed body; nothing after the closing fence is kept. The body of a
      leftmost match, and hence the code, never contains a closing fence. */
  function Cut(opener: string, s: string, f: Fence): (r: Split)
    requires IsLeftmostFence(opener, s, f.start, f.close)
    ensures NoEdgeSpace(r.explanation) && NoEdgeSpace(r.code)
    ensures |r.explanation| <= f.start < |s|
    ensures forall k :: !OccursAt(Closer, r.code, k)
  {
    var a := f.start + |opener|;
    var code := Strip(s[a..f.close]);
    forall k | OccursAt(Closer, code, k) ensures false {
      SliceStripOccurrence(Closer, s, a, f.close, s[a..f.close], k);
    }
    Split(Strip(s[..f.start]), code)
  }

  /** `extract_code_from_response`: the tagged block if there is one, else the
      untagged block, else the whole reply, untrimmed, with empty code. In
      both fenced cases explanation and code carry no edge whitespace, the
      explanation is shorter than the reply, and the code contains no
      closing fence. */
  function ExtractCode(response: string): (r: Split)
    ensures FirstFence(HtmlOpener, response).Some? || FirstFence(PlainOpener, response).Some? ==>
      && NoEdgeSpace(r.explanation) && NoEdgeSpace(r.code)
      && |r.explanation| < |response|
      && (forall k :: !OccursAt(Closer, r.code, k))
  {
    match FirstFence(HtmlOpener, response)
    case Some(f) => Cut(HtmlOpener, response, f)
    case None =>
      match FirstFence(PlainOpener, response)
      case Some(f) => Cut(PlainOpener, response, f)
      case None => Split(response, "")
  }

  /** The leftmost tagged match wins, even over an earlier untagged block. */
  lemma TaggedMatchWins(response: string, i: int, j: int)
    requires IsLeftmostFence(HtmlOpener, response, i, j)
    ensures ExtractCode(response) == Split(Strip(response[..i]), Strip(response[i + |HtmlOpener|..j]))
  {
    FirstFenceIsLeftmost(HtmlOpener, response);
  }

  /** The untagged match is used only when no tagged match exists. */
  lemma PlainMatchFallback(response: string, i: int, j: int)
    requires NoFence(HtmlOpener, response)
    requires IsLeftmostFence(PlainOpener, response, i, j)
    ensures ExtractCode(response) == Split(Strip(response[..i]), Strip(response[i + |PlainOpener|..j]))
  {
    assert FirstFence(HtmlOpener, response) == None;
    FirstFenceIsLeftmost(PlainOpener, response);
    assert FirstFence(PlainOpener, response) == Some(Fence(i, j));
  }

  /** Without any match the reply is returned untrimmed, with empty code. */
  lemma NoMatchVerbatim(response: string)
    requires NoFence(HtmlOpener, response) && NoFence(PlainOpener, response)
    ensures ExtractCode(response) == Split(response, "")
  {
  }

  /** A fenced result trims both halves and its code holds no closing fence. */
  lemma FencedResultTrimmed(response: string)
    requires !NoFence(HtmlOpener, response) || !NoFence(PlainOpener, response)
    ensures NoEdgeSpace(ExtractCode(response).explanation) && NoEdgeSpace(ExtractCode(response).code)
    ensures forall k :: !OccursAt(Closer, ExtractCode(response).code, k)
  {
  }

  /** The reply comes back verbatim with empty code exactly when neither
      pattern matches. */
  lemma VerbatimIffNoFence(response: string)
    ensures ExtractCode(response) == Split(response, "") <==>
      NoFence(HtmlOpener, response) && NoFence(PlainOpener, response)
  {
    if NoFence(HtmlOpener, response) && NoFence(PlainOpener, response) {
      NoMatchVerbatim(response);
    }
  }

  /** A leftmost match stays the leftmost match in any text that agrees up
      to the end of its closing fence. */
  lemma LeftmostFenceSharedPrefix(opener: string, s: string, u: string, i: int, j: int)
    requires IsLeftmostFence(opener, s, i, j)
    requires j + |Closer| <= |u| && u[..j + |Closer|] == s[..j + |Closer|]
    ensures IsLeftmostFence(opener, u, i, j)
  {
    var n := j + |Closer|;
    OccursAtSamePrefix(opener, s, u, i, n);
    OccursAtSamePrefix(Closer, s, u, j, n);
    forall i', j' | 0 <= i' < i ensures !IsFence(opener, u, i', j') {
      OccursAtSamePrefix(opener, s, u, i', n);
      assert OccursAt(opener, s, i') ==> IsFence(opener, s, i', j);
    }
    forall k | i + |opener| <= k < j ensures !OccursAt(Closer, u, k) {
      OccursAtSamePrefix(Closer, s, u, k, n);
    }
  }

  lemma SharedPrefixSlice(s: string, u: string, n: int, a: int, b: int)
    requires 0 <= a <= b <= n <= |s| && n <= |u| && s[..n] == u[..n]
    ensures s[a..b] == u[a..b]
    ensures a == 0 ==> s[..b] == u[..b]
  {
    assert s[a..b] == s[..n][a..b];
    assert u[a..b] == u[..n][a..b];
  }

  /** Two replies with the same leftmost tagged match and the same text
      before and inside it split the same way. */
  lemma SameTaggedMatchSameSplit(s: string, u: string, i: int, j: int)
    requires IsLeftmostFence(HtmlOpener, s, i, j) && IsLeftmostFence(HtmlOpener, u, i, j)
    requires s[..i] == u[..i] && s[i + |HtmlOpener|..j] == u[i + |HtmlOpener|..j]
    ensures ExtractCode(u) == ExtractCode(s)
  {
    TaggedMatchWins(s, i, j);
    TaggedMatchWins(u, i, j);
  }

  /** Text after the closing fence of the tagged match appears in neither
      output: any reply that agrees up to the end of that fence splits the
      same way. */
  lemma TrailingTextIgnored(s: string, u: string, i: int, j: int)
    requires IsLeftmostFence(HtmlOpener, s, i, j)
    requires j + |Closer| <= |u| && u[..j + |Closer|] == s[..j + |Closer|]
    ensures ExtractCode(u) == ExtractCode(s)
  {
    var n := j + |Closer|;
    LeftmostFenceSharedPrefix(HtmlOpener, s, u, i, j);
    SharedPrefixSlice(s, u, n, 0, i);
    SharedPrefixSlice(s, u, n, i + |HtmlOpener|, j);
    SameTaggedMatchSameSplit(s, u, i, j);
  }

  /** A closing fence cannot start inside the last three characters of a text
      that is itself followed by a closing fence. */
  lemma NoCloserStraddles(c: string, w: string, k: int)
    requires |c| + |Closer| <= |w| && w[|c|..|c| + |Closer|] == Closer
    requires |c| - |Closer| < k < |c|
    ensures !OccursAt(Closer, w, k)
  {
    if 0 <= k {
      var d := |c| - k;
      assert w[|c|] == w[|c|..|c| + |Closer|][0] == '\n';
      assert Closer[d] == '`';
      assert w[k..k + |Closer|][d] == '\n';
    }
  }

  /** Re-wrapping a trimmed code text without a closing fence in a tagged
      fence and splitting again gives back that code and no explanation. */
  lemma TaggedRoundTrip(c: string)
    requires NoEdgeSpace(c)
    requires forall k :: !OccursAt(Closer, c, k)
    ensures ExtractCode(HtmlOpener + c + Closer) == Split("", c)
  {
    var w := HtmlOpener + c + Closer;
    WrappedLeftmost(HtmlOpener, c);
    TaggedMatchWins(w, 0, |HtmlOpener| + |c|);
    StripPadded([], c, []);
    assert [] + c + [] == c;
  }

  /** Wrapping a text without a closing fence between an opener and a closer
      gives a reply whose leftmost match for that opener is exactly the
      wrapper, with the text as its body. */
  lemma WrappedLeftmost(opener: string, c: string)
    requires 0 < |opener|
    requires forall k :: !OccursAt(Closer, c, k)
    ensures IsLeftmostFence(opener, opener + c + Closer, 0, |opener| + |c|)
    ensures (opener + c + Closer)[..0] == []
    ensures (opener + c + Closer)[|opener|..|opener| + |c|] == c
  {
    var o := |opener|;
    var w := opener + c + Closer;
    var j := o + |c|;
    assert w[..o] == opener;
    assert w[j..j + |Closer|] == Closer;
    assert w[o..j] == c;
    forall k | o <= k < j ensures !OccursAt(Closer, w, k) {
      if k + |Closer| <= j {
        if OccursAt(Closer, w, k) {
          assert w[k..k + |Closer|] == c[k - o..k - o + |Closer|];
          assert OccursAt(Closer, c, k - o);
        }
      } else {
        NoCloserStraddles(w[..j], w, k);
      }
    }
  }

  /** The usual reply: prose without backticks, one tagged block whose code
      holds no closing fence, then anything. The explanation is the trimmed
      prose, the code is the trimmed block, and the rest is dropped. */
  lemma ProseThenTaggedBlock(prose: string, c: string, rest: string)
    requires forall k :: 0 <= k < |prose| ==> prose[k] != '`'
    requires forall k :: !OccursAt(Closer, c, k)
    ensures ExtractCode(prose + HtmlOpener + c + Closer + rest) == Split(Strip(prose), Strip(c))
  {
    var s := prose + HtmlOpener + c + Closer + rest;
    var p := |prose|;
    var o := p + |HtmlOpener|;
    var j := o + |c|;
    assert s[..p] == prose;
    assert s[p..o] == HtmlOpener;
    assert s[o..j] == c;
    assert s[j..j + |Closer|] == Closer;
    forall i', j' | 0 <= i' < p ensures !IsFence(HtmlOpener, s, i', j') {
      assert s[i'] == prose[i'];
    }
    forall k | o <= k < j ensures !OccursAt(Closer, s, k) {
      if k + |Closer| <= j {
        assert s[k..k + |Closer|] == c[k - o..k - o + |Closer|];
        assert !OccursAt(Closer, c, k - o);
      } else {
        NoCloserStraddles(s[..j], s, k);
      }
    }
    assert IsLeftmostFence(HtmlOpener, s, p, j);
    TaggedMatchWins(s, p, j);
  }

  /** The code of any reply with a tagged block survives a round trip through
      a fresh tagged fence. */
  lemma TaggedCodeRoundTrip(s: string, i: int, j: int)
    requires IsFence(HtmlOpener, s, i, j)
    ensures ExtractCode(HtmlOpener + ExtractCode(s).code + Closer) == Split("", ExtractCode(s).code)
  {
    FencedResultTrimmed(s);
    TaggedRoundTrip(ExtractCode(s).code);
  }

  /** An opener tagged as HTML cannot overlap the line feed that ends an
      untagged opener. */
  lemma NoTaggedOpenerAcrossPlainOpener(w: string, p: int)
    requires |PlainOpener| <= |w| && w[..|PlainOpener|] == PlainOpener
    requires p < |PlainOpener|
    ensures !OccursAt(HtmlOpener, w, p)
  {
    if 0 <= p && p + |HtmlOpener| <= |w| {
      var d := |PlainOpener| - 1 - p;
      assert w[|PlainOpener| - 1] == w[..|PlainOpener|][|PlainOpener| - 1] == '\n';
      assert HtmlOpener[d] != '\n';
      assert w[p..p + |HtmlOpener|][d] == '\n';
    }
  }

  /** Re-wrapping a trimmed code text in an untagged fence and splitting again
      gives back that code, provided the code holds neither a closing fence
      nor an HTML-tagged opener (either would change which block matches). */
  lemma PlainRoundTrip(c: string)
    requires NoEdgeSpace(c)
    requires forall k :: !OccursAt(Closer, c, k)
    requires forall k :: !OccursAt(HtmlOpener, c, k)
    ensures ExtractCode(PlainOpener + c + Closer) == Split("", c)
  {
    var w := PlainOpener + c + Closer;
    PlainWrapNoTaggedFence(c);
    WrappedLeftmost(PlainOpener, c);
    PlainMatchFallback(w, 0, |PlainOpener| + |c|);
    StripPadded([], c, []);
    assert [] + c + [] == c;
  }

  /** A text without an HTML-tagged opener, wrapped in an untagged fence,
      gives a reply the tagged pattern does not match. */
  lemma PlainWrapNoTaggedFence(c: string)
    requires forall k :: !OccursAt(HtmlOpener, c, k)
    ensures NoFence(HtmlOpener, PlainOpener + c + Closer)
  {
    var o := |PlainOpener|;
    var w := PlainOpener + c + Closer;
    var j := o + |c|;
    assert w[..o] == PlainOpener;
    forall p, q ensures !IsFence(HtmlOpener, w, p, q) {
      if p < o {
        NoTaggedOpenerAcrossPlainOpener(w, p);
      } else if p + |HtmlOpener| <= j {
        assert w[p..p + |HtmlOpener|] == c[p - o..p - o + |HtmlOpener|];
        assert !OccursAt(HtmlOpener, c, p - o);
      }
    }
  }

  /** When only the untagged pattern matches, the split is the cut at its
      leftmost match. */
  lemma PlainCut(s: string)
    requires NoFence(HtmlOpener, s) && !NoFence(PlainOpener, s)
    ensures FirstFence(PlainOpener, s).Some?
    ensures ExtractCode(s) == Cut(PlainOpener, s, FirstFence(PlainOpener, s).value)
  {
  }

  /** An occurrence in a stripped slice is an occurrence in the whole text,
      inside the slice. */
  lemma SliceStripOccurrence(pat: string, s: string, a: int, b: int, x: string, k: int)
    requires 0 <= a <= b <= |s| && x == s[a..b]
    requires OccursAt(pat, Strip(x), k)
    ensures OccursAt(pat, s, a + LeadingSpaces(x) + k)
    ensures a + LeadingSpaces(x) + k + |pat| <= b
  {
    var lead := LeadingSpaces(x);
    var r := Strip(x);
    var p := a + lead + k;
    assert r == x[lead..lead + |r|];
    forall t | 0 <= t < |pat| ensures s[p + t] == pat[t] {
      assert pat[t] == r[k + t] == x[lead + k + t];
    }
    assert s[p..p + |pat|] == pat;
  }

  /** Code cut from an untagged block holds no HTML-tagged opener, since that
      opener and the block's closer would form a tagged match. */
  lemma PlainCodeHasNoTaggedOpener(s: string)
    requires NoFence(HtmlOpener, s) && !NoFence(PlainOpener, s)
    ensures forall k :: !OccursAt(HtmlOpener, ExtractCode(s).code, k)
  {
    PlainCut(s);
    var f := FirstFence(PlainOpener, s).value;
    var body := s[f.start + |PlainOpener|..f.close];
    assert ExtractCode(s).code == Strip(body);
    PlainBodyHasNoTaggedOpener(s, f.start, f.close, body);
  }

  /** The trimmed body of any untagged match holds no HTML-tagged opener when
      the tagged pattern does not match the reply. */
  lemma PlainBodyHasNoTaggedOpener(s: string, i: int, j: int, body: string)
    requires NoFence(HtmlOpener, s)
    requires IsFence(PlainOpener, s, i, j) && body == s[i + |PlainOpener|..j]
    ensures forall k :: !OccursAt(HtmlOpener, Strip(body), k)
  {
    var a := i + |PlainOpener|;
    forall k | OccursAt(HtmlOpener, Strip(body), k) ensures false {
      assert !IsFence(HtmlOpener, s, a + LeadingSpaces(body) + k, j);
      SliceStripOccurrence(HtmlOpener, s, a, j, body, k);
    }
  }

  /** The code of any reply split at an untagged block survives a round trip
      through a fresh untagged fence. */
  lemma PlainCodeRoundTrip(s: string, i: int, j: int)
    requires NoFence(HtmlOpener, s)
    requires IsFence(PlainOpener, s, i, j)
    ensures ExtractCode(PlainOpener + ExtractCode(s).code + Closer) == Split("", ExtractCode(s).code)
  {
    FencedResultTrimmed(s);
    PlainCodeHasNoTaggedOpener(s);
    PlainRoundTrip(ExtractCode(s).code);
  }
}
