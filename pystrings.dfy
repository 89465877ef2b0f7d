/**
 * The two Python `str` methods the bot relies on, on strings as sequences of
 * Unicode scalar values: `str.strip()` with no argument and `str.replace(sub, "")`.
 */
module PyStrings {
  import opened Subsequences

  /** The characters for which Python's `str.isspace()` holds; `str.strip()` removes exactly these. */
  predicate IsSpace(c: char) {
    || ('\t' <= c <= '\r')
    || ('\U{1C}' <= c <= '\U{1F}')
    || c == ' '
    || c == '\U{85}'
    || c == '\U{A0}'
    || c == '\U{1680}'
    || ('\U{2000}' <= c <= '\U{200A}')
    || c == '\U{2028}'
    || c == '\U{2029}'
    || c == '\U{202F}'
    || c == '\U{205F}'
    || c == '\U{3000}'
  }

  /** Python's whitespace characters listed one by one, in code point order. */
  const PythonWhitespace: string :=
    "\t\n\U{0B}\U{0C}\r\U{1C}\U{1D}\U{1E}\U{1F} \U{85}\U{A0}\U{1680}"
    + "\U{2000}\U{2001}\U{2002}\U{2003}\U{2004}\U{2005}\U{2006}\U{2007}\U{2008}\U{2009}\U{200A}"
    + "\U{2028}\U{2029}\U{202F}\U{205F}\U{3000}"

  /** IsSpace holds for exactly the 29 characters of the table. */
  lemma IsSpaceTable()
    ensures |PythonWhitespace| == 29
    ensures forall c :: IsSpace(c) <==> c in PythonWhitespace
  {
  }

  /** s neither begins nor ends with whitespace: what `str.strip()` establishes. */
  predicate IsTrimmed(s: string) {
    s == [] || (!IsSpace(s[0]) && !IsSpace(s[|s| - 1]))
  }

  predicate AllSpace(s: string) {
    forall k :: 0 <= k < |s| ==> IsSpace(s[k])
  }

  /** The index of the first non-space character at or after i, or |s|: where `lstrip` cuts. */
  function SpanStart(s: string, i: nat): (n: nat)
    requires i <= |s|
    ensures i <= n <= |s|
    ensures forall k :: i <= k < n ==> IsSpace(s[k])
    ensures n < |s| ==> !IsSpace(s[n])
    decreases |s| - i
  {
    if i < |s| && IsSpace(s[i]) then SpanStart(s, i + 1) else i
  }

  /** The index just after the last non-space character of s[lo..j], or lo: where `rstrip` cuts. */
  function SpanEnd(s: string, lo: nat, j: nat): (n: nat)
    requires lo <= j <= |s|
    ensures lo <= n <= j
    ensures forall k :: n <= k < j ==> IsSpace(s[k])
    ensures n > lo ==> !IsSpace(s[n - 1])
    decreases j
  {
    if j > lo && IsSpace(s[j - 1]) then SpanEnd(s, lo, j - 1) else j
  }

  /** r is s[i..j], and everything cut off on either side is whitespace. */
  predicate IsTrimOf(r: string, s: string, i: nat, j: nat) {
    && i <= j <= |s|
    && r == s[i..j]
    && (forall k :: 0 <= k < i ==> IsSpace(s[k]))
    && (forall k :: j <= k < |s| ==> IsSpace(s[k]))
  }

  /** Where `s.strip()` starts and ends in s. */
  function StripStart(s: string): nat {
    SpanStart(s, 0)
  }

  function StripEnd(s: string): (n: nat)
    ensures StripStart(s) <= n <= |s|
  {
    SpanEnd(s, StripStart(s), |s|)
  }

  /** `s.strip()`. */
  function Strip(s: string): (r: string)
    ensures IsTrimmed(r)
    ensures IsTrimOf(r, s, StripStart(s), StripEnd(s))
  {
    s[StripStart(s)..StripEnd(s)]
  }

  /** `s.strip()` is empty exactly when s is all whitespace. */
  lemma StripEmptyIff(s: string)
    ensures Strip(s) == [] <==> AllSpace(s)
  {
  }

  /** `str.strip()` is determined by its two defining properties: whatever has them is what it returns. */
  lemma StripUnique(s: string, r: string, i: nat, j: nat)
    requires IsTrimOf(r, s, i, j) && IsTrimmed(r)
    ensures Strip(s) == r
  {
    if r != [] {
      assert s[i] == r[0] && s[j - 1] == r[|r| - 1];
      assert StripStart(s) == i;
      assert StripEnd(s) == j;
    } else {
      assert AllSpace(s);
    }
  }

  /** Already-trimmed text is returned unchanged by `str.strip()`. */
  lemma StripTrimmed(s: string)
    requires IsTrimmed(s)
    ensures Strip(s) == s
  {
    StripUnique(s, s, 0, |s|);
  }

  /** Surrounding whitespace makes no difference to `str.strip()`. */
  lemma StripIgnoresPadding(pre: string, s: string, post: string)
    requires AllSpace(pre) && AllSpace(post)
    ensures Strip(pre + s + post) == Strip(s)
  {
    var whole := pre + s + post;
    var i, j := StripStart(s), StripEnd(s);
    forall k | 0 <= k < |pre| + i ensures IsSpace(whole[k]) {
      if k < |pre| {
        assert whole[k] == pre[k];
      } else {
        assert whole[k] == s[k - |pre|];
      }
    }
    forall k | |pre| + j <= k < |whole| ensures IsSpace(whole[k]) {
      if k < |pre| + |s| {
        assert whole[k] == s[k - |pre|];
      } else {
        assert whole[k] == post[k - |pre| - |s|];
      }
    }
    assert whole[|pre| + i..|pre| + j] == s[i..j];
    StripUnique(whole, Strip(s), |pre| + i, |pre| + j);
  }

  /** `str.strip()` deletes only whitespace: every other character survives, in order. */
  lemma StripKeeps(s: string, keep: char -> bool)
    requires forall c :: IsSpace(c) ==> !keep(c)
    ensures Filter(Strip(s), keep) == Filter(s, keep)
  {
    var i, j := StripStart(s), StripEnd(s);
    var front, back := s[..i], s[j..];
    assert s == front + s[i..j] + back;
    assert forall k :: 0 <= k < |front| ==> !keep(front[k]) by {
      forall k | 0 <= k < |front| ensures !keep(front[k]) {
        assert front[k] == s[k];
      }
    }
    assert forall k :: 0 <= k < |back| ==> !keep(back[k]) by {
      forall k | 0 <= k < |back| ensures !keep(back[k]) {
        assert back[k] == s[j + k];
      }
    }
    FilterAllRejected(front, keep);
    FilterAllRejected(back, keep);
    FilterConcat(front + s[i..j], back, keep);
    FilterConcat(front, s[i..j], keep);
  }

  /** `str.strip()` only deletes characters. */
  lemma StripIsSubsequence(s: string)
    ensures IsSubsequence(Strip(s), s)
  {
    SubsequenceSlice(s, StripStart(s), StripEnd(s));
  }

  /** sub occurs in s starting at index i. */
  predicate OccursAt(s: string, sub: string, i: nat) {
    i + |sub| <= |s| && s[i..i + |sub|] == sub
  }

  /** sub cannot occur where its first character never does. */
  lemma NotOccursWithoutFirst(s: string, sub: string)
    requires sub != []
    requires forall k :: 0 <= k < |s| ==> s[k] != sub[0]
    ensures forall i :: 0 <= i <= |s| ==> !OccursAt(s, sub, i)
  {
    forall i | 0 <= i <= |s| ensures !OccursAt(s, sub, i) {
      if i + |sub| <= |s| {
        assert s[i..i + |sub|][0] == s[i];
      }
    }
  }

  /** `s.replace(sub, "")`: one left-to-right pass deleting non-overlapping occurrences of sub. */
  function RemoveAll(s: string, sub: string): (r: string)
    requires sub != []
    ensures |r| <= |s|
    decreases |s|
  {
    if |s| < |sub| then s
    else if s[..|sub|] == sub then RemoveAll(s[|sub|..], sub)
    else [s[0]] + RemoveAll(s[1..], sub)
  }

  /** `str.replace(sub, "")` only deletes characters. */
  lemma {:induction false} RemoveAllIsSubsequence(s: string, sub: string)
    requires sub != []
    ensures IsSubsequence(RemoveAll(s, sub), s)
    decreases |s|
  {
    if |s| < |sub| {
      SubsequenceRefl(s);
    } else if s[..|sub|] == sub {
      RemoveAllIsSubsequence(s[|sub|..], sub);
      SubsequenceOfLonger(RemoveAll(s, sub), sub, s[|sub|..]);
      assert sub + s[|sub|..] == s;
    } else {
      RemoveAllIsSubsequence(s[1..], sub);
      SubsequenceRefl([s[0]]);
      SubsequenceConcat([s[0]], [s[0]], RemoveAll(s[1..], sub), s[1..]);
      assert [s[0]] + s[1..] == s;
    }
  }

  /** Where sub does not occur, `str.replace(sub, "")` changes nothing. */
  lemma {:induction false} RemoveAllAbsent(s: string, sub: string)
    requires sub != []
    requires forall i :: 0 <= i <= |s| ==> !OccursAt(s, sub, i)
    ensures RemoveAll(s, sub) == s
    decreases |s|
  {
    if |s| >= |sub| {
      assert !OccursAt(s, sub, 0);
      forall i | 0 <= i <= |s| - 1 ensures !OccursAt(s[1..], sub, i) {
        assert !OccursAt(s, sub, i + 1);
        if i + |sub| <= |s| - 1 {
          assert s[1..][i..i + |sub|] == s[i + 1..i + 1 + |sub|];
        }
      }
      RemoveAllAbsent(s[1..], sub);
      assert [s[0]] + s[1..] == s;
    }
  }

  /** How many copies of sub the left-to-right pass of `str.replace(sub, "")` deletes. */
  function RemovedCopies(s: string, sub: string): (n: nat)
    requires sub != []
    ensures n <= |s|
    decreases |s|
  {
    if |s| < |sub| then 0
    else if s[..|sub|] == sub then RemovedCopies(s[|sub|..], sub) + 1
    else RemovedCopies(s[1..], sub)
  }

  /** Arithmetic helper for RemoveAllLength. */
  lemma MulSucc(m: nat, k: nat)
    ensures (m + 1) * k == m * k + k
  {
  }

  /** `str.replace(sub, "")` deletes whole copies of sub and nothing else. */
  lemma {:induction false} RemoveAllLength(s: string, sub: string)
    requires sub != []
    ensures |s| == |RemoveAll(s, sub)| + RemovedCopies(s, sub) * |sub|
    decreases |s|
  {
    if |s| >= |sub| {
      if s[..|sub|] == sub {
        RemoveAllLength(s[|sub|..], sub);
        MulSucc(RemovedCopies(s[|sub|..], sub), |sub|);
      } else {
        RemoveAllLength(s[1..], sub);
      }
    }
  }

  /** An occurrence of sub anywhere means `str.replace(sub, "")` deletes at least one copy. */
  lemma {:induction false} RemoveAllShortens(s: string, sub: string, i: nat)
    requires sub != []
    requires OccursAt(s, sub, i)
    ensures RemovedCopies(s, sub) >= 1
    ensures |RemoveAll(s, sub)| < |s|
    decreases |s|
  {
    RemoveAllLength(s, sub);
    if s[..|sub|] != sub {
      assert s[0..|sub|] == s[..|sub|];
      assert i != 0;
      assert s[1..][i - 1..i - 1 + |sub|] == s[i..i + |sub|];
      RemoveAllShortens(s[1..], sub, i - 1);
    }
  }

  /**
   * The scan deletes the first occurrence and carries on after it: when sub first occurs
   * right after x, `(x + sub + y).replace(sub, "")` is x followed by the pass over y.
   */
  lemma {:induction false} RemoveAllAtFirst(x: string, y: string, sub: string)
    requires sub != []
    requires forall i :: 0 <= i < |x| ==> !OccursAt(x + sub, sub, i)
    ensures RemoveAll(x + sub + y, sub) == x + RemoveAll(y, sub)
    ensures RemovedCopies(x + sub + y, sub) == RemovedCopies(y, sub) + 1
    decreases |x|
  {
    var s := x + sub + y;
    if x == [] {
      assert s == sub + y;
      assert s[..|sub|] == sub;
      assert s[|sub|..] == y;
    } else {
      assert !OccursAt(x + sub, sub, 0);
      assert (x + sub)[0..|sub|] == s[..|sub|];
      assert s[..|sub|] != sub;
      NoEarlierOccurrenceTail(x, sub);
      RemoveAllAtFirst(x[1..], y, sub);
      assert s[1..] == x[1..] + sub + y;
      assert [s[0]] + (x[1..] + RemoveAll(y, sub)) == x + RemoveAll(y, sub);
    }
  }

  /** Dropping the first character of x keeps sub from occurring before the closing copy. */
  lemma NoEarlierOccurrenceTail(x: string, sub: string)
    requires x != []
    requires forall i :: 0 <= i < |x| ==> !OccursAt(x + sub, sub, i)
    ensures forall i :: 0 <= i < |x| - 1 ==> !OccursAt(x[1..] + sub, sub, i)
  {
    assert (x + sub)[1..] == x[1..] + sub;
    forall i | 0 <= i < |x| - 1 ensures !OccursAt(x[1..] + sub, sub, i) {
      assert !OccursAt(x + sub, sub, i + 1);
      assert (x[1..] + sub)[i..i + |sub|] == (x + sub)[i + 1..i + 1 + |sub|];
    }
  }

  /** `str.replace(sub, "")` returns its input exactly when sub does not occur in it. */
  lemma RemoveAllUnchangedIff(s: string, sub: string)
    requires sub != []
    ensures RemoveAll(s, sub) == s <==> forall i :: 0 <= i <= |s| ==> !OccursAt(s, sub, i)
  {
    if forall i :: 0 <= i <= |s| ==> !OccursAt(s, sub, i) {
      RemoveAllAbsent(s, sub);
    } else {
      var i :| 0 <= i <= |s| && OccursAt(s, sub, i);
      RemoveAllShortens(s, sub, i);
    }
  }
}
