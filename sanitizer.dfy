/**
 * `normalize_telegram_text`: unwrap Markdown bold, delete runs of underscores,
 * trim surrounding whitespace (bot.py, lines 116-123).
 */
module Sanitizer {
  import opened Wrappers
  import opened Subsequences
  import opened PyStrings

  // ---------------------------------------------------------------------------
  // Pass 1: re.sub(r"\*\*(.*?)\*\*", r"\1", text)
  // ---------------------------------------------------------------------------

  /** The literal `\*\*` of the pattern matches at index j of s. */
  predicate StarPairAt(s: string, j: int) {
    0 <= j && j + 2 <= |s| && s[j] == '*' && s[j + 1] == '*'
  }

  /** `.` (which does not match a newline) matches every character of s[a..b]. */
  predicate NewlineFree(s: string, a: int, b: int) {
    forall i :: a <= i < b && 0 <= i < |s| ==> s[i] != '\n'
  }

  /**
   * The lazy `(.*?)\*\*` tried from index k: the index of the closing "**" it settles on,
   * or None when the scan meets a newline or the end of s first.
   */
  function FindClose(s: string, k: nat): (r: Option<nat>)
    ensures r.Some? ==> k <= r.value && r.value + 2 <= |s|
    decreases |s| - k
  {
    if k + 2 > |s| then None
    else if StarPairAt(s, k) then Some(k)
    else if s[k] == '\n' then None
    else FindClose(s, k + 1)
  }

  /**
   * What the lazy group finds: the least k' >= k with "**" at k' and no newline in
   * s[k..k'], and None exactly when every "**" after k is behind a newline.
   */
  lemma {:induction false} FindCloseSpec(s: string, k: nat)
    ensures FindClose(s, k).Some? ==> StarPairAt(s, FindClose(s, k).value) && NewlineFree(s, k, FindClose(s, k).value)
    ensures FindClose(s, k).Some? ==> forall j :: k <= j < FindClose(s, k).value ==> !StarPairAt(s, j)
    ensures FindClose(s, k).None? ==> forall j :: k <= j && NewlineFree(s, k, j) ==> !StarPairAt(s, j)
    decreases |s| - k
  {
    if k + 2 <= |s| && !StarPairAt(s, k) && s[k] != '\n' {
      FindCloseSpec(s, k + 1);
      assert forall j :: k + 1 <= j && NewlineFree(s, k, j) ==> NewlineFree(s, k + 1, j);
    }
  }

  /**
   * The bold pass. At each position, left to right: if "**" starts here and the lazy
   * group finds its closing "**" at k, emit s[2..k] and resume after the closer;
   * otherwise emit one character and try the next position.
   */
  function UnwrapBold(s: string): (r: string)
    ensures |r| <= |s|
    ensures (|s| - |r|) % 4 == 0
    decreases |s|
  {
    if |s| < 2 then s
    else if StarPairAt(s, 0) && FindClose(s, 2).Some? then
      var k := FindClose(s, 2).value;
      s[2..k] + UnwrapBold(s[k + 2..])
    else [s[0]] + UnwrapBold(s[1..])
  }

  /** Pulls one character off the front: the shape of every non-matching step. */
  lemma ConsSubsequence(s: string, t: string)
    requires s != [] && IsSubsequence(t, s[1..])
    ensures IsSubsequence([s[0]] + t, s)
  {
    SubsequenceRefl([s[0]]);
    SubsequenceConcat([s[0]], [s[0]], t, s[1..]);
    assert [s[0]] + s[1..] == s;
  }

  /** Unfolding of UnwrapBold (a proof helper): a position without "**" is copied. */
  lemma UnwrapBoldNoOpener(s: string)
    requires |s| >= 2 && !StarPairAt(s, 0)
    ensures UnwrapBold(s) == [s[0]] + UnwrapBold(s[1..])
  {
  }

  /** Unfolding of UnwrapBold (a proof helper): one matching step, with the closer found. */
  lemma UnwrapBoldStep(s: string, k: nat)
    requires |s| >= 2 && StarPairAt(s, 0) && FindClose(s, 2) == Some(k)
    ensures 2 <= k && k + 2 <= |s| && StarPairAt(s, k)
    ensures UnwrapBold(s) == s[2..k] + UnwrapBold(s[k + 2..])
  {
    FindCloseSpec(s, 2);
  }

  /** The pieces of a match: opener, group, closer, rest. */
  lemma SplitAtMatch(s: string, k: nat)
    requires 2 <= k && k + 2 <= |s|
    ensures s == s[..2] + (s[2..k] + (s[k..k + 2] + s[k + 2..]))
    ensures s == s[..2] + s[2..k] + s[k..k + 2] + s[k + 2..]
  {
  }

  /** The bold pass only deletes characters. */
  lemma {:induction false} UnwrapBoldIsSubsequence(s: string)
    ensures IsSubsequence(UnwrapBold(s), s)
    decreases |s|
  {
    if |s| < 2 {
      SubsequenceRefl(s);
    } else if StarPairAt(s, 0) && FindClose(s, 2).Some? {
      var k := FindClose(s, 2).value;
      UnwrapBoldStep(s, k);
      SplitAtMatch(s, k);
      var rest := UnwrapBold(s[k + 2..]);
      UnwrapBoldIsSubsequence(s[k + 2..]);
      SubsequenceOfLonger(rest, s[k..k + 2], s[k + 2..]);
      SubsequenceRefl(s[2..k]);
      SubsequenceConcat(s[2..k], s[2..k], rest, s[k..k + 2] + s[k + 2..]);
      SubsequenceOfLonger(s[2..k] + rest, s[..2], s[2..k] + (s[k..k + 2] + s[k + 2..]));
    } else {
      UnwrapBoldIsSubsequence(s[1..]);
      ConsSubsequence(s, UnwrapBold(s[1..]));
    }
  }

  /** The bold pass deletes only asterisks: every other character survives, in order. */
  lemma {:induction false} UnwrapBoldKeeps(s: string, keep: char -> bool)
    requires !keep('*')
    ensures Filter(UnwrapBold(s), keep) == Filter(s, keep)
    decreases |s|
  {
    if |s| < 2 {
    } else if StarPairAt(s, 0) && FindClose(s, 2).Some? {
      var k := FindClose(s, 2).value;
      UnwrapBoldStep(s, k);
      SplitAtMatch(s, k);
      UnwrapBoldKeeps(s[k + 2..], keep);
      FilterConcat(s[..2] + s[2..k] + s[k..k + 2], s[k + 2..], keep);
      FilterConcat(s[..2] + s[2..k], s[k..k + 2], keep);
      FilterConcat(s[..2], s[2..k], keep);
      FilterAllRejected(s[..2], keep);
      FilterAllRejected(s[k..k + 2], keep);
      FilterConcat(s[2..k], UnwrapBold(s[k + 2..]), keep);
    } else {
      UnwrapBoldKeeps(s[1..], keep);
      FilterConcat([s[0]], UnwrapBold(s[1..]), keep);
    }
  }

  /** Text in which "**" never occurs passes the bold pass unchanged. */
  lemma {:induction false} UnwrapBoldNoPairs(s: string)
    requires forall j :: !StarPairAt(s, j)
    ensures UnwrapBold(s) == s
    decreases |s|
  {
    if |s| >= 2 {
      assert !StarPairAt(s, 0);
      forall j ensures !StarPairAt(s[1..], j) {
        assert !StarPairAt(s, j + 1);
      }
      UnwrapBoldNoPairs(s[1..]);
      assert [s[0]] + s[1..] == s;
    }
  }

  /** Text without asterisks in front of the rest is copied through by the bold pass. */
  lemma {:induction false} UnwrapBoldPlainPrefix(x: string, y: string)
    requires forall i :: 0 <= i < |x| ==> x[i] != '*'
    ensures UnwrapBold(x + y) == x + UnwrapBold(y)
    decreases |x|
  {
    if x == [] {
      assert x + y == y;
    } else {
      var s := x + y;
      assert s[0] == x[0];
      assert s[1..] == x[1..] + y;
      UnwrapBoldPlainPrefix(x[1..], y);
      if |s| < 2 {
        assert y == [] && s == x;
      } else {
        UnwrapBoldNoOpener(s);
        assert [x[0]] + (x[1..] + UnwrapBold(y)) == x + UnwrapBold(y);
      }
    }
  }

  /**
   * A bold span is unwrapped: "**" x "**" becomes x when x is newline-free and "**"
   * cannot be found earlier, i.e. x has no "**" and does not end in '*'.
   */
  lemma UnwrapBoldMatch(x: string, y: string)
    requires forall i :: 0 <= i < |x| ==> x[i] != '\n'
    requires forall j :: 0 <= j < |x| ==> !StarPairAt(x + "*", j)
    ensures UnwrapBold("**" + x + "**" + y) == x + UnwrapBold(y)
  {
    var s := "**" + x + "**" + y;
    var k := 2 + |x|;
    assert StarPairAt(s, 0) && StarPairAt(s, k);
    assert NewlineFree(s, 2, k) by {
      forall i | 2 <= i < k ensures s[i] != '\n' {
        assert s[i] == x[i - 2];
      }
    }
    forall j | 2 <= j < k ensures !StarPairAt(s, j) {
      assert !StarPairAt(x + "*", j - 2);
      assert s[j] == (x + "*")[j - 2];
      assert s[j + 1] == (x + "*")[j - 1];
    }
    var r := FindClose(s, 2);
    FindCloseSpec(s, 2);
    assert r == Some(k) by {
      if r.Some? {
        assert !(r.value < k);
        assert !(r.value > k);
      }
    }
    assert s[2..k] == x;
    assert s[k + 2..] == y;
  }

  /**
   * An opener whose group cannot reach any closer without crossing a newline is copied
   * as one character, and the scan resumes at the next position.
   */
  lemma UnwrapBoldUnreachableCloser(s: string)
    requires StarPairAt(s, 0)
    requires forall j :: 2 <= j && NewlineFree(s, 2, j) ==> !StarPairAt(s, j)
    ensures UnwrapBold(s) == [s[0]] + UnwrapBold(s[1..])
  {
    FindCloseSpec(s, 2);
  }

  /**
   * An opener whose lazy span runs into a newline before any closer is left alone:
   * "**" x stays, when x holds a newline and no asterisk (`.` does not match "\n").
   */
  lemma UnwrapBoldAcrossNewline(x: string, y: string)
    requires forall i :: 0 <= i < |x| ==> x[i] != '*'
    requires exists i :: 0 <= i < |x| && x[i] == '\n'
    ensures UnwrapBold("**" + x + y) == "**" + x + UnwrapBold(y)
  {
    FirstStarCopied(x, y);
    SecondStarCopied(x, y);
    StarsRegroup(x, UnwrapBold(y));
  }

  /** Regroups a concatenation only: a helper for UnwrapBoldAcrossNewline. */
  lemma StarsRegroup(x: string, u: string)
    ensures "*" + ("*" + x + u) == "**" + x + u
  {
  }

  /** The first asterisk of an opener blocked by a newline is copied. */
  lemma FirstStarCopied(x: string, y: string)
    requires forall i :: 0 <= i < |x| ==> x[i] != '*'
    requires exists i :: 0 <= i < |x| && x[i] == '\n'
    ensures UnwrapBold("**" + x + y) == "*" + UnwrapBold("*" + x + y)
  {
    var s := "**" + x + y;
    NewlineBlocksCloser(x, y);
    UnwrapBoldUnclosed(s);
    assert s[1..] == "*" + x + y;
  }

  /** After "**", a newline before any asterisk means no closer is found. */
  lemma NewlineBlocksCloser(x: string, y: string)
    requires forall i :: 0 <= i < |x| ==> x[i] != '*'
    requires exists i :: 0 <= i < |x| && x[i] == '\n'
    ensures FindClose("**" + x + y, 2) == None
  {
    var s := "**" + x + y;
    var n :| 0 <= n < |x| && x[n] == '\n';
    assert s[2 + n] == '\n';
    assert forall j :: 2 <= j < 2 + n ==> s[j] != '*' by {
      forall j | 2 <= j < 2 + n ensures s[j] != '*' {
        assert s[j] == x[j - 2];
      }
    }
    FindCloseBlocked(s, 2, 2 + n);
  }

  /** A lone asterisk followed by asterisk-free text is copied along with that text. */
  lemma SecondStarCopied(x: string, y: string)
    requires forall i :: 0 <= i < |x| ==> x[i] != '*'
    requires x != []
    ensures UnwrapBold("*" + x + y) == "*" + x + UnwrapBold(y)
  {
    var t := "*" + x + y;
    assert t == ['*'] + (x + y);
    assert t[1] == x[0];
    UnwrapBoldNoOpener(t);
    assert t[1..] == x + y;
    UnwrapBoldPlainPrefix(x, y);
    assert [t[0]] + (x + UnwrapBold(y)) == "*" + x + UnwrapBold(y);
  }

  /** Unfolding of UnwrapBold (a proof helper): an opener without a closer is copied as one character. */
  lemma UnwrapBoldUnclosed(s: string)
    requires |s| >= 2 && FindClose(s, 2) == None
    ensures UnwrapBold(s) == [s[0]] + UnwrapBold(s[1..])
  {
  }

  /** The scan for a closer stops at a newline reached before any asterisk. */
  lemma {:induction false} FindCloseBlocked(s: string, k: nat, n: nat)
    requires k <= n < |s| && s[n] == '\n'
    requires forall j :: k <= j < n ==> s[j] != '*'
    ensures FindClose(s, k) == None
    decreases n - k
  {
    if k < n {
      FindCloseBlocked(s, k + 1, n);
    }
  }

  // ---------------------------------------------------------------------------
  // Pass 2: re.sub(r"__+", "", text)
  // ---------------------------------------------------------------------------

  /** The length of the run of underscores s starts with: what greedy `__+` would consume. */
  function UnderscoreRun(s: string): (n: nat)
    ensures n <= |s|
    ensures forall i :: 0 <= i < n ==> s[i] == '_'
    ensures n < |s| ==> s[n] != '_'
    decreases |s|
  {
    if s != [] && s[0] == '_' then 1 + UnderscoreRun(s[1..]) else 0
  }

  /** No two adjacent underscores: "__" does not occur in s. */
  predicate NoDoubleUnderscore(s: string) {
    forall i :: 0 <= i < |s| - 1 ==> !(s[i] == '_' && s[i + 1] == '_')
  }

  /**
   * The underscore pass. A run of two or more underscores is the (greedy, maximal)
   * match and is deleted; a single underscore or any other character is copied.
   */
  function DropUnderscoreRuns(s: string): (r: string)
    ensures |r| <= |s|
    ensures s != [] && s[0] != '_' ==> r != [] && r[0] == s[0]
    ensures NoDoubleUnderscore(r)
    decreases |s|
  {
    if s == [] then []
    else
      var n := UnderscoreRun(s);
      if n >= 2 then DropUnderscoreRuns(s[n..])
      else [s[0]] + DropUnderscoreRuns(s[1..])
  }

  /** The underscore pass only deletes characters. */
  lemma {:induction false} DropUnderscoreRunsIsSubsequence(s: string)
    ensures IsSubsequence(DropUnderscoreRuns(s), s)
    decreases |s|
  {
    if s != [] {
      var n := UnderscoreRun(s);
      if n >= 2 {
        DropUnderscoreRunsIsSubsequence(s[n..]);
        SubsequenceOfLonger(DropUnderscoreRuns(s[n..]), s[..n], s[n..]);
        assert s[..n] + s[n..] == s;
      } else {
        DropUnderscoreRunsIsSubsequence(s[1..]);
        ConsSubsequence(s, DropUnderscoreRuns(s[1..]));
      }
    }
  }

  /** The underscore pass deletes only underscores: every other character survives, in order. */
  lemma {:induction false} DropUnderscoreRunsKeeps(s: string, keep: char -> bool)
    requires !keep('_')
    ensures Filter(DropUnderscoreRuns(s), keep) == Filter(s, keep)
    decreases |s|
  {
    if s != [] {
      var n := UnderscoreRun(s);
      if n >= 2 {
        DropUnderscoreRunsKeeps(s[n..], keep);
        assert s[..n] + s[n..] == s;
        FilterConcat(s[..n], s[n..], keep);
        FilterAllRejected(s[..n], keep);
      } else {
        DropUnderscoreRunsKeeps(s[1..], keep);
        FilterConcat([s[0]], DropUnderscoreRuns(s[1..]), keep);
      }
    }
  }

  /** Text without "__" passes the underscore pass unchanged; lone underscores are kept. */
  lemma {:induction false} DropUnderscoreRunsClean(s: string)
    requires NoDoubleUnderscore(s)
    ensures DropUnderscoreRuns(s) == s
    decreases |s|
  {
    if s != [] {
      assert UnderscoreRun(s) < 2 by {
        if |s| >= 2 && s[0] == '_' { assert !(s[0] == '_' && s[1] == '_'); }
      }
      assert NoDoubleUnderscore(s[1..]) by {
        forall i | 0 <= i < |s| - 2 ensures !(s[1..][i] == '_' && s[1..][i + 1] == '_') {
          assert !(s[i + 1] == '_' && s[i + 2] == '_');
        }
      }
      DropUnderscoreRunsClean(s[1..]);
      assert [s[0]] + s[1..] == s;
    }
  }

  /** The leading run of a + b: it extends into b only when a is all underscores. */
  lemma {:induction false} UnderscoreRunConcat(a: string, b: string)
    ensures UnderscoreRun(a + b) == if UnderscoreRun(a) < |a| then UnderscoreRun(a) else |a| + UnderscoreRun(b)
    decreases |a|
  {
    if a == [] {
      assert a + b == b;
    } else {
      assert (a + b)[1..] == a[1..] + b;
      UnderscoreRunConcat(a[1..], b);
    }
  }

  /**
   * Runs are matched independently: cutting s where the characters on either side are
   * not both underscores, the pass works on each part separately.
   */
  lemma {:induction false} DropUnderscoreRunsSplit(a: string, b: string)
    requires a == [] || b == [] || a[|a| - 1] != '_' || b[0] != '_'
    ensures DropUnderscoreRuns(a + b) == DropUnderscoreRuns(a) + DropUnderscoreRuns(b)
    decreases |a|
  {
    if a == [] {
      assert a + b == b;
    } else if b == [] {
      assert a + b == a;
    } else {
      var m := UnderscoreRun(a);
      UnderscoreRunConcat(a, b);
      if m < |a| {
        var n := if m >= 2 then m else 1;
        assert (a + b)[n..] == a[n..] + b;
        DropUnderscoreRunsSplit(a[n..], b);
      } else {
        assert b[0] != '_' by { assert a[|a| - 1] == '_'; }
        assert UnderscoreRun(b) == 0;
        assert (a + b)[|a|..] == b;
        if m == 1 {
          assert a == [a[0]] && (a + b)[1..] == b;
        }
      }
    }
  }

  /** n underscores in a row. */
  function Underscores(n: nat): (u: string)
    ensures |u| == n && forall i :: 0 <= i < n ==> u[i] == '_'
  {
    seq(n, _ => '_')
  }

  lemma {:induction false} UnderscoreRunAll(s: string)
    requires forall i :: 0 <= i < |s| ==> s[i] == '_'
    ensures UnderscoreRun(s) == |s|
    decreases |s|
  {
    if s != [] {
      UnderscoreRunAll(s[1..]);
    }
  }

  /** A run of two or more underscores vanishes; a lone underscore is kept. */
  lemma UnderscoresDropped(n: nat)
    ensures DropUnderscoreRuns(Underscores(n)) == if n >= 2 then [] else Underscores(n)
  {
    var u := Underscores(n);
    if n > 0 {
      UnderscoreRunAll(u);
      if n == 1 {
        assert u[1..] == [];
      } else {
        assert u[n..] == [];
      }
    }
  }

  /** A slice of a string without "__" has none either. */
  lemma NoDoubleUnderscoreSlice(s: string, i: nat, j: nat)
    requires i <= j <= |s| && NoDoubleUnderscore(s)
    ensures NoDoubleUnderscore(s[i..j])
  {
    forall k | 0 <= k < j - i - 1 ensures !(s[i..j][k] == '_' && s[i..j][k + 1] == '_') {
      assert !(s[i + k] == '_' && s[i + k + 1] == '_');
    }
  }

  // ---------------------------------------------------------------------------
  // normalize_telegram_text
  // ---------------------------------------------------------------------------

  /** `normalize_telegram_text(text)`: the three passes in the source's order. */
  function Normalize(text: string): (r: string)
    ensures IsTrimmed(r)
    ensures NoDoubleUnderscore(r)
    ensures |r| <= |text|
  {
    var unwrapped := UnwrapBold(text);
    var dropped := DropUnderscoreRuns(unwrapped);
    NoDoubleUnderscoreSlice(dropped, StripStart(dropped), StripEnd(dropped));
    Strip(dropped)
  }

  /** Normalizing only deletes characters: the result is a subsequence of the input. */
  lemma NormalizeIsSubsequence(text: string)
    ensures IsSubsequence(Normalize(text), text)
  {
    var unwrapped := UnwrapBold(text);
    var dropped := DropUnderscoreRuns(unwrapped);
    UnwrapBoldIsSubsequence(text);
    DropUnderscoreRunsIsSubsequence(unwrapped);
    StripIsSubsequence(dropped);
    SubsequenceTrans(Strip(dropped), dropped, unwrapped);
    SubsequenceTrans(Strip(dropped), unwrapped, text);
  }

  /** Every character other than '*', '_' and whitespace survives normalizing, in order. */
  lemma NormalizeKeeps(text: string, keep: char -> bool)
    requires !keep('*') && !keep('_')
    requires forall c :: IsSpace(c) ==> !keep(c)
    ensures Filter(Normalize(text), keep) == Filter(text, keep)
  {
    var unwrapped := UnwrapBold(text);
    UnwrapBoldKeeps(text, keep);
    DropUnderscoreRunsKeeps(unwrapped, keep);
    StripKeeps(DropUnderscoreRuns(unwrapped), keep);
  }

  /** Text with no "**", no "__" and no surrounding whitespace is returned unchanged. */
  lemma NormalizeClean(text: string)
    requires forall j :: !StarPairAt(text, j)
    requires NoDoubleUnderscore(text)
    requires IsTrimmed(text)
    ensures Normalize(text) == text
  {
    UnwrapBoldNoPairs(text);
    DropUnderscoreRunsClean(text);
    StripTrimmed(text);
  }

  // ---------------------------------------------------------------------------
  // Worked inputs
  // ---------------------------------------------------------------------------

  /** Normalizing, given what each of the first two passes produces. */
  lemma NormalizeOf(text: string, unwrapped: string, dropped: string)
    requires UnwrapBold(text) == unwrapped && DropUnderscoreRuns(unwrapped) == dropped
    requires IsTrimmed(dropped)
    ensures Normalize(text) == dropped
  {
    StripTrimmed(dropped);
  }

  /** A single bold span around plain text. */
  lemma UnwrapBoldWhole(x: string)
    requires forall i :: 0 <= i < |x| ==> x[i] != '\n' && x[i] != '*'
    ensures UnwrapBold("**" + x + "**") == x
  {
    forall j | 0 <= j < |x| ensures !StarPairAt(x + "*", j) {
      assert (x + "*")[j] == x[j];
    }
    UnwrapBoldMatch(x, []);
    assert "**" + x + "**" + [] == "**" + x + "**";
  }

  /** "**" x "**" normalizes to x for trimmed x without newlines, asterisks or underscores. */
  lemma NormalizePlainBold(x: string)
    requires forall i :: 0 <= i < |x| ==> x[i] != '\n' && x[i] != '*' && x[i] != '_'
    requires IsTrimmed(x)
    ensures Normalize("**" + x + "**") == x
  {
    UnwrapBoldWhole(x);
    DropUnderscoreRunsClean(x);
    NormalizeOf("**" + x + "**", x, x);
  }

  /** `normalize_telegram_text("**bold**") == "bold"`. */
  lemma NormalizeBold()
    ensures Normalize("**bold**") == "bold"
  {
    NormalizePlainBold("bold");
    assert "**" + "bold" + "**" == "**bold**";
  }

  /** The bold pass leaves "**a\nb**" alone: the group would have to match the newline. */
  lemma UnwrapBoldNewlineExample()
    ensures UnwrapBold("**a\nb**") == "**a\nb**"
  {
    var x := "a\nb";
    assert x[1] == '\n';
    UnwrapBoldAcrossNewline(x, "**");
    assert "**" + x + "**" == "**a\nb**";
    assert UnwrapBold("**") == "**";
  }

  /** The underscore pass turns "___c" into "c". */
  lemma DropUnderscoresTail()
    ensures DropUnderscoreRuns("___c") == "c"
  {
    DropUnderscoreRunsSplit("___", "c");
    UnderscoresDropped(3);
    assert Underscores(3) == "___";
    assert "___" + "c" == "___c";
  }

  /** The underscore pass turns "__b___c" into "bc". */
  lemma DropUnderscoresMiddle()
    ensures DropUnderscoreRuns("__b___c") == "bc"
  {
    DropUnderscoresTail();
    DropUnderscoreRunsSplit("b", "___c");
    assert "b" + "___c" == "b___c";
    DropUnderscoreRunsSplit("__", "b___c");
    UnderscoresDropped(2);
    assert Underscores(2) == "__";
    assert "__" + "b___c" == "__b___c";
  }

  /** The underscore pass turns "a__b___c" into "abc". */
  lemma DropUnderscoresExample()
    ensures DropUnderscoreRuns("a__b___c") == "abc"
  {
    DropUnderscoresMiddle();
    DropUnderscoreRunsSplit("a", "__b___c");
    assert "a" + "__b___c" == "a__b___c";
  }

  /** `normalize_telegram_text("a__b___c") == "abc"`. */
  lemma NormalizeUnderscores()
    ensures Normalize("a__b___c") == "abc"
  {
    var s := "a__b___c";
    assert forall j :: !StarPairAt(s, j);
    UnwrapBoldNoPairs(s);
    DropUnderscoresExample();
    NormalizeOf(s, s, "abc");
  }

  /** The bold pass leaves "*__*a**" alone: no "**" opens a span there. */
  lemma UnwrapBoldNoCloser()
    ensures UnwrapBold("*__*a**") == "*__*a**"
  {
    var s := "*__*a**";
    assert UnwrapBold(s) == "*" + UnwrapBold(s[1..]);
    assert s[1..] == "__" + "*a**";
    UnwrapBoldPlainPrefix("__", "*a**");
    assert UnwrapBold("*a**") == "*" + UnwrapBold("a**");
    UnwrapBoldPlainPrefix("a", "**");
    assert "a" + "**" == "a**";
    assert UnwrapBold("**") == "**";
  }

  /** A leading "__" is deleted when the rest does not continue the run. */
  lemma DropPairBefore(b: string)
    requires b == [] || b[0] != '_'
    ensures DropUnderscoreRuns("__" + b) == DropUnderscoreRuns(b)
  {
    DropUnderscoreRunsSplit("__", b);
    UnderscoresDropped(2);
    assert Underscores(2) == "__";
  }

  /** A leading non-underscore is kept and the pass goes on after it. */
  lemma DropKeepsFirst(c: char, b: string)
    requires c != '_'
    ensures DropUnderscoreRuns([c] + b) == [c] + DropUnderscoreRuns(b)
  {
    assert UnderscoreRun([c] + b) == 0;
    assert ([c] + b)[1..] == b;
  }

  /** The underscore pass leaves "*a**" alone. */
  lemma DropUnderscoresStarTail()
    ensures DropUnderscoreRuns("*a**") == "*a**"
  {
    DropUnderscoreRunsClean("*a**");
  }

  /** A character, "__" and then b lose the underscores and keep the rest. */
  lemma DropPairAfter(c: char, b: string)
    requires c != '_'
    requires b == [] || b[0] != '_'
    ensures DropUnderscoreRuns([c] + "__" + b) == [c] + DropUnderscoreRuns(b)
  {
    DropPairBefore(b);
    DropKeepsFirst(c, "__" + b);
    assert [c] + "__" + b == [c] + ("__" + b);
  }

  /** The underscore pass turns "*__*a**" into "**a**". */
  lemma DropUnderscoresJoinsStars()
    ensures DropUnderscoreRuns("*__*a**") == "**a**"
  {
    DropPairAfter('*', "*a**");
    DropUnderscoresStarTail();
    assert ['*'] + "__" + "*a**" == "*__*a**";
    assert ['*'] + "*a**" == "**a**";
  }

  /** `normalize_telegram_text("*__*a**") == "**a**"`: the underscores go, the asterisks meet. */
  lemma NormalizeJoinsStars()
    ensures Normalize("*__*a**") == "**a**"
  {
    UnwrapBoldNoCloser();
    DropUnderscoresJoinsStars();
    NormalizeOf("*__*a**", "*__*a**", "**a**");
  }

  /** `normalize_telegram_text("**a**") == "a"`. */
  lemma NormalizeSmallBold()
    ensures Normalize("**a**") == "a"
  {
    NormalizePlainBold("a");
    assert "**" + "a" + "**" == "**a**";
  }

  /**
   * Normalizing is not idempotent: deleting "__" can bring two asterisks together,
   * and the next call unwraps the bold span they open.
   */
  lemma NormalizeNotIdempotent()
    ensures Normalize("*__*a**") == "**a**"
    ensures Normalize("**a**") == "a"
    ensures Normalize(Normalize("*__*a**")) != Normalize("*__*a**")
  {
    NormalizeJoinsStars();
    NormalizeSmallBold();
  }
}
