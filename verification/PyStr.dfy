/** The Python `str` operations the scraper relies on, with Python's semantics:
    substring test (`in`), `startswith`, `find`, `split`, `join`, `replace`,
    `strip`/`rstrip`, slicing with negative and out-of-range bounds, and `str(n)`. */
module PyStr {
  import opened Wrappers

  /** `sub` occurs in `s` at index `i`. */
  predicate OccursAt(s: string, sub: string, i: int)
  {
    0 <= i && i + |sub| <= |s| && s[i..i + |sub|] == sub
  }

  /** Python's `sub in s`. */
  predicate Contains(s: string, sub: string)
  {
    exists i :: 0 <= i <= |s| - |sub| && OccursAt(s, sub, i)
  }

  /** Python's `s.startswith(p)`. */
  predicate StartsWith(s: string, p: string)
  {
    |p| <= |s| && s[..|p|] == p
  }

  /** Leftmost occurrence of `sub` at or after index `k`. */
  function FindFrom(s: string, sub: string, k: nat): (r: Option<nat>)
    requires |sub| > 0
    ensures r.Some? ==> k <= r.value && OccursAt(s, sub, r.value)
    ensures r.Some? ==> forall j :: k <= j < r.value ==> !OccursAt(s, sub, j)
    ensures r.None? ==> forall j :: k <= j ==> !OccursAt(s, sub, j)
    decreases |s| - k
  {
    if k + |sub| > |s| then None
    else if s[k..k + |sub|] == sub then Some(k)
    else FindFrom(s, sub, k + 1)
  }

  /** Python's `s.find(sub)`, with `None` for -1. */
  function Find(s: string, sub: string): (r: Option<nat>)
    requires |sub| > 0
    ensures r.Some? <==> Contains(s, sub)
    ensures r.Some? ==> OccursAt(s, sub, r.value)
    ensures r.Some? ==> forall j :: 0 <= j < r.value ==> !OccursAt(s, sub, j)
  {
    var r := FindFrom(s, sub, 0);
    assert r.None? ==> forall i :: 0 <= i <= |s| - |sub| ==> !OccursAt(s, sub, i);
    r
  }

  /** An occurrence inside a prefix is an occurrence in the whole string. */
  lemma PrefixOccurrence(s: string, sub: string, n: nat, j: int)
    requires n <= |s|
    requires OccursAt(s[..n], sub, j)
    ensures OccursAt(s, sub, j)
  {
    assert s[..n][j..j + |sub|] == s[j..j + |sub|];
  }

  /** An occurrence inside a suffix is an occurrence in the whole string, shifted. */
  lemma SuffixOccurrence(s: string, sub: string, n: nat, j: int)
    requires n <= |s|
    requires OccursAt(s[n..], sub, j)
    ensures OccursAt(s, sub, n + j)
  {
    assert s[n..][j..j + |sub|] == s[n + j..n + j + |sub|];
  }

  /** A prefix that ends before the first occurrence does not contain `sub`. */
  lemma PrefixBeforeFirst(s: string, sub: string, n: nat)
    requires |sub| > 0 && n <= |s|
    requires forall j :: 0 <= j < n ==> !OccursAt(s, sub, j)
    ensures !Contains(s[..n], sub)
  {
    forall j | 0 <= j <= n - |sub|
      ensures !OccursAt(s[..n], sub, j)
    {
      if j + |sub| <= n {
        assert s[..n][j..j + |sub|] == s[j..j + |sub|];
        assert !OccursAt(s, sub, j);
      }
    }
  }

  /** Python's `sep.join(parts)`. */
  function Join(parts: seq<string>, sep: string): string
  {
    if |parts| == 0 then ""
    else if |parts| == 1 then parts[0]
    else parts[0] + sep + Join(parts[1..], sep)
  }

  /** `parts` is a split of `s` at `sep`: joining them back gives `s`, no part
      holds the separator, and the last part is what follows the last cut. */
  predicate IsSplit(s: string, sep: string, parts: seq<string>)
  {
    && |parts| >= 1
    && Join(parts, sep) == s
    && (forall k :: 0 <= k < |parts| ==> !Contains(parts[k], sep))
    && |parts[|parts| - 1]| <= |s| && parts[|parts| - 1] == s[|s| - |parts[|parts| - 1]|..]
    && (|parts| == 1 ==> parts[0] == s)
    && (|parts| > 1 ==> OccursAt(s, sep, |s| - |parts[|parts| - 1]| - |sep|))
  }

  /** Cutting at the first occurrence and splitting the rest splits the whole. */
  lemma SplitStep(s: string, sep: string, i: nat, rest: seq<string>)
    requires |sep| > 0 && OccursAt(s, sep, i)
    requires forall j :: 0 <= j < i ==> !OccursAt(s, sep, j)
    requires IsSplit(s[i + |sep|..], sep, rest)
    ensures IsSplit(s, sep, [s[..i]] + rest)
  {
    var parts := [s[..i]] + rest;
    StepJoins(s, sep, i, rest);
    StepParts(s, sep, i, rest);
    StepLast(s, sep, i, rest);
    var last := rest[|rest| - 1];
    assert |parts| > 1 && parts[|parts| - 1] == last;
    assert |last| <= |s| && last == s[|s| - |last|..];
  }

  /** The cut-off head, the separator and the rest join back to the whole. */
  lemma StepJoins(s: string, sep: string, i: nat, rest: seq<string>)
    requires |sep| > 0 && OccursAt(s, sep, i)
    requires |rest| >= 1 && Join(rest, sep) == s[i + |sep|..]
    ensures Join([s[..i]] + rest, sep) == s
  {
    var parts := [s[..i]] + rest;
    assert parts[1..] == rest;
    assert Join(parts, sep) == s[..i] + sep + Join(rest, sep);
    assert s == s[..i] + s[i..i + |sep|] + s[i + |sep|..];
  }

  /** The head holds no separator, and the parts of the rest hold none either. */
  lemma StepParts(s: string, sep: string, i: nat, rest: seq<string>)
    requires |sep| > 0 && i <= |s|
    requires forall j :: 0 <= j < i ==> !OccursAt(s, sep, j)
    requires forall k :: 0 <= k < |rest| ==> !Contains(rest[k], sep)
    ensures forall k :: 0 <= k < |[s[..i]] + rest| ==> !Contains(([s[..i]] + rest)[k], sep)
  {
    PrefixBeforeFirst(s, sep, i);
    var parts := [s[..i]] + rest;
    assert forall k :: 1 <= k < |parts| ==> parts[k] == rest[k - 1];
  }

  /** The last part of the rest is a suffix of the whole, following a separator. */
  lemma StepLast(s: string, sep: string, i: nat, rest: seq<string>)
    requires |sep| > 0 && OccursAt(s, sep, i)
    requires IsSplit(s[i + |sep|..], sep, rest)
    ensures var last := rest[|rest| - 1];
            |last| <= |s| && last == s[|s| - |last|..] && OccursAt(s, sep, |s| - |last| - |sep|)
  {
    var tail := s[i + |sep|..];
    var last := rest[|rest| - 1];
    assert tail[|tail| - |last|..] == s[|s| - |last|..];
    if |rest| > 1 {
      SuffixOccurrence(s, sep, i + |sep|, |tail| - |last| - |sep|);
    } else {
      assert |s| - |last| - |sep| == i;
    }
  }

  /** A join of non-empty parts starts with the first part and ends with the last. */
  lemma {:induction false} JoinEnds(parts: seq<string>, sep: string)
    requires |parts| > 0
    requires forall k :: 0 <= k < |parts| ==> parts[k] != ""
    ensures var j := Join(parts, sep); var last := parts[|parts| - 1];
            |j| > 0 && j[0] == parts[0][0] && j[|j| - 1] == last[|last| - 1]
  {
    if |parts| > 1 {
      var more := parts[1..];
      JoinEnds(more, sep);
      var j, rest := Join(parts, sep), Join(more, sep);
      assert j == parts[0] + sep + rest;
      assert more[|more| - 1] == parts[|parts| - 1];
      assert j[|j| - 1] == rest[|rest| - 1];
    }
  }

  /** With a non-empty separator, only no parts or one empty part join to "". */
  lemma JoinEmpty(parts: seq<string>, sep: string)
    requires |sep| > 0
    ensures Join(parts, sep) == "" <==> |parts| == 0 || (|parts| == 1 && parts[0] == "")
  {
  }

  /** Each cut of `parts` is at the first occurrence of `sep` at or after the end
      of the previous cut, and the last part holds no occurrence at all. */
  predicate FirstCuts(s: string, sep: string, parts: seq<string>)
    decreases |parts|
  {
    && |parts| >= 1
    && if |parts| == 1 then parts[0] == s && !Contains(s, sep)
       else
         var i := |parts[0]|;
         && OccursAt(s, sep, i) && parts[0] == s[..i]
         && (forall j :: 0 <= j < i ==> !OccursAt(s, sep, j))
         && FirstCuts(s[i + |sep|..], sep, parts[1..])
  }

  /** Python's `s.split(sep)` for a non-empty separator: cut at every occurrence,
      scanning left to right and never letting two cuts overlap. */
  function Split(s: string, sep: string): (parts: seq<string>)
    requires |sep| > 0
    ensures IsSplit(s, sep, parts)
    decreases |s|
  {
    match Find(s, sep)
    case None => [s]
    case Some(i) =>
      var rest := Split(s[i + |sep|..], sep);
      SplitStep(s, sep, i, rest);
      [s[..i]] + rest
  }

  /** `split` cuts at first occurrences, each at or after the end of the previous cut. */
  lemma {:induction false} SplitCutsFirst(s: string, sep: string)
    requires |sep| > 0
    ensures FirstCuts(s, sep, Split(s, sep))
    decreases |s|
  {
    var parts := Split(s, sep);
    match Find(s, sep)
    case None =>
      assert parts == [s];
    case Some(i) =>
      var rest := s[i + |sep|..];
      SplitAtFirst(s, sep, i);
      SplitCutsFirst(rest, sep);
      assert parts[0] == s[..i] && parts[1..] == Split(rest, sep);
  }

  /** Cutting at first occurrences leaves no choice: only `split` does it. */
  lemma {:induction false} FirstCutsUnique(s: string, sep: string, parts: seq<string>)
    requires |sep| > 0 && FirstCuts(s, sep, parts)
    ensures parts == Split(s, sep)
    decreases |parts|
  {
    if |parts| == 1 {
      SplitAbsent(s, sep);
    } else {
      var i := |parts[0]|;
      SplitAtFirst(s, sep, i);
      FirstCutsUnique(s[i + |sep|..], sep, parts[1..]);
      HeadAndTail(parts);
    }
  }

  /** A non-empty sequence is its head followed by its tail. */
  lemma HeadAndTail(parts: seq<string>)
    requires |parts| > 0
    ensures parts == [parts[0]] + parts[1..]
  {
  }

  /** Python's `s.split(sep)[0]`: the text before the first separator, or all of `s`. */
  function BeforeFirst(s: string, sep: string): (r: string)
    requires |sep| > 0
    ensures |r| <= |s| && r == s[..|r|]
    ensures !Contains(r, sep)
    ensures r == s || OccursAt(s, sep, |r|)
    ensures r == Split(s, sep)[0]
  {
    match Find(s, sep)
    case None => s
    case Some(i) =>
      PrefixBeforeFirst(s, sep, i);
      s[..i]
  }

  /** The text after the first separator, up to the next cut or the end. */
  function AfterFirst(s: string, sep: string): (r: string)
    requires |sep| > 0 && Contains(s, sep)
    ensures |r| <= |s| - |sep|
    ensures !Contains(r, sep)
  {
    BeforeFirst(s[Find(s, sep).value + |sep|..], sep)
  }

  /** Without a separator, `split(sep)[0]` is the whole string. */
  lemma BeforeFirstAbsent(s: string, sep: string)
    requires |sep| > 0 && !Contains(s, sep)
    ensures BeforeFirst(s, sep) == s
  {
  }

  /** Python's `s.split(sep)[1]` is `AfterFirst` when `sep in s`. */
  lemma SplitSecond(s: string, sep: string)
    requires |sep| > 0 && Contains(s, sep)
    ensures |Split(s, sep)| >= 2 && Split(s, sep)[1] == AfterFirst(s, sep)
  {
    var i := Find(s, sep).value;
    assert Split(s, sep) == [s[..i]] + Split(s[i + |sep|..], sep);
  }

  /** Without a separator, `split` gives the whole string back as its one part. */
  lemma SplitAbsent(s: string, sep: string)
    requires |sep| > 0 && !Contains(s, sep)
    ensures Split(s, sep) == [s]
  {
  }

  /** `find` reports the first occurrence. */
  lemma FindAt(s: string, sep: string, i: nat)
    requires |sep| > 0 && OccursAt(s, sep, i)
    requires forall j :: 0 <= j < i ==> !OccursAt(s, sep, j)
    ensures Find(s, sep) == Some(i)
  {
    assert Contains(s, sep);
    var f := Find(s, sep);
    assert f.value == i by {
      assert !(f.value < i);
      assert !(i < f.value);
    }
  }

  /** When the first separator sits at `i`, `split` cuts there and splits the rest. */
  lemma SplitAtFirst(s: string, sep: string, i: nat)
    requires |sep| > 0 && OccursAt(s, sep, i)
    requires forall j :: 0 <= j < i ==> !OccursAt(s, sep, j)
    ensures Find(s, sep) == Some(i)
    ensures Split(s, sep) == [s[..i]] + Split(s[i + |sep|..], sep)
    ensures BeforeFirst(s, sep) == s[..i]
    ensures AfterFirst(s, sep) == BeforeFirst(s[i + |sep|..], sep)
  {
    FindAt(s, sep, i);
    var parts := Split(s, sep);
    assert parts == [s[..i]] + Split(s[i + |sep|..], sep);
    assert BeforeFirst(s, sep) == parts[0];
  }

  /** Whatever follows a leading separator that cannot recur is the text after the first. */
  lemma AfterLeading(sep: string, tail: string, k: nat)
    requires k < |sep| && sep[k] !in tail
    ensures Contains(sep + tail, sep)
    ensures AfterFirst(sep + tail, sep) == tail
  {
    var s := sep + tail;
    assert s[..|sep|] == sep;
    assert OccursAt(s, sep, 0);
    SplitAtFirst(s, sep, 0);
    assert s[|sep|..] == tail;
    MissingCharAbsent(tail, sep, k);
    BeforeFirstAbsent(tail, sep);
  }

  /** The same, with the text after the leading separator given in two pieces. */
  lemma AfterLeadingThen(sep: string, mid: string, end: string, k: nat)
    requires k < |sep| && sep[k] !in mid && sep[k] !in end
    ensures Contains(sep + mid + end, sep)
    ensures AfterFirst(sep + mid + end, sep) == mid + end
  {
    var tail := mid + end;
    assert sep[k] !in tail;
    AfterLeading(sep, tail, k);
    assert sep + mid + end == sep + tail;
  }

  /** A string lacking one character of `sub` cannot contain `sub`. */
  lemma MissingCharAbsent(s: string, sub: string, k: nat)
    requires k < |sub| && sub[k] !in s
    ensures !Contains(s, sub)
  {
    forall i | 0 <= i <= |s| - |sub|
      ensures !OccursAt(s, sub, i)
    {
      assert s[i..i + |sub|][k] == s[i + k];
    }
  }

  /** A prefix of a string without `sub` has no `sub` either. */
  lemma PrefixAvoids(s: string, sub: string, n: nat)
    requires n <= |s| && !Contains(s, sub)
    ensures !Contains(s[..n], sub)
  {
    forall i | 0 <= i <= n - |sub|
      ensures !OccursAt(s[..n], sub, i)
    {
      assert s[..n][i..i + |sub|] == s[i..i + |sub|];
      assert !OccursAt(s, sub, i);
    }
  }

  /** A separator beginning with a character absent from `s[..i]` does not occur before `i`. */
  lemma NoEarlierOccurrence(s: string, sub: string, i: nat)
    requires |sub| > 0 && i <= |s| && sub[0] !in s[..i]
    ensures forall j :: 0 <= j < i ==> !OccursAt(s, sub, j)
  {
    forall j | 0 <= j < i
      ensures !OccursAt(s, sub, j)
    {
      assert s[..i][j] == s[j];
    }
  }

  /** Python's `s.split(sep)[-1]`: the text after the last separator cut, or all of `s`. */
  function AfterLast(s: string, sep: string): (r: string)
    requires |sep| > 0
    ensures |r| <= |s| && r == s[|s| - |r|..]
    ensures !Contains(r, sep)
    ensures |r| < |s| ==> OccursAt(s, sep, |s| - |r| - |sep|)
  {
    var parts := Split(s, sep);
    LastPart(s, sep, parts);
    parts[|parts| - 1]
  }

  /** The last part of a split is a separator-free suffix that follows a cut, unless
      it is the whole string. */
  lemma LastPart(s: string, sep: string, parts: seq<string>)
    requires IsSplit(s, sep, parts)
    ensures var last := parts[|parts| - 1];
            && |last| <= |s| && last == s[|s| - |last|..]
            && !Contains(last, sep)
            && (|last| < |s| ==> OccursAt(s, sep, |s| - |last| - |sep|))
  {
    if |parts| == 1 {
      assert parts[|parts| - 1] == s;
    }
  }

  /** Python's `s.replace(pat, rep)` for a non-empty `pat`: every non-overlapping
      occurrence, left to right, is replaced. */
  function ReplaceAll(s: string, pat: string, rep: string): string
    requires |pat| > 0
  {
    Join(Split(s, pat), rep)
  }

  /** A string that does not contain the pattern is left alone by `replace`. */
  lemma ReplaceAbsent(s: string, pat: string, rep: string)
    requires |pat| > 0 && !Contains(s, pat)
    ensures ReplaceAll(s, pat, rep) == s
  {
    assert Find(s, pat).None?;
  }

  /** For a one-character pattern, `x in s` is membership of that character. */
  lemma ContainsChar(s: string, c: char)
    ensures Contains(s, [c]) <==> c in s
  {
    if c in s {
      var i :| 0 <= i < |s| && s[i] == c;
      assert OccursAt(s, [c], i);
    }
    if Contains(s, [c]) {
      var i :| 0 <= i <= |s| - 1 && OccursAt(s, [c], i);
      assert s[i] == c;
    }
  }

  /** Joining strings that avoid `c` with a separator that avoids `c` avoids `c`. */
  lemma {:induction false} JoinAvoids(parts: seq<string>, sep: string, c: char)
    requires forall k :: 0 <= k < |parts| ==> c !in parts[k]
    requires c !in sep
    ensures c !in Join(parts, sep)
    decreases |parts|
  {
    if |parts| > 1 {
      JoinAvoids(parts[1..], sep, c);
    }
  }

  /** After replacing every `c` by a different character, no `c` is left. */
  lemma ReplaceCharRemoves(s: string, c: char, d: char)
    requires c != d
    ensures c !in ReplaceAll(s, [c], [d])
  {
    var parts := Split(s, [c]);
    forall k | 0 <= k < |parts|
      ensures c !in parts[k]
    {
      ContainsChar(parts[k], c);
    }
    JoinAvoids(parts, [d], c);
  }

  /** Every `c` in `s` turned into `d`, character by character. */
  function SwapChar(s: string, c: char, d: char): (r: string)
    ensures |r| == |s|
    ensures forall k :: 0 <= k < |s| ==> r[k] == (if s[k] == c then d else s[k])
    decreases |s|
  {
    if |s| == 0 then "" else [if s[0] == c then d else s[0]] + SwapChar(s[1..], c, d)
  }

  /** Swapping distributes over concatenation. */
  lemma SwapConcat(a: string, b: string, c: char, d: char)
    ensures SwapChar(a + b, c, d) == SwapChar(a, c, d) + SwapChar(b, c, d)
  {
  }

  /** Swapping leaves a string without `c` alone. */
  lemma SwapAbsent(s: string, c: char, d: char)
    requires c !in s
    ensures SwapChar(s, c, d) == s
  {
  }

  /** Swapping in a join at `c` of parts without `c` is the join at `d`. */
  lemma {:induction false} SwapJoin(parts: seq<string>, c: char, d: char)
    requires forall k :: 0 <= k < |parts| ==> c !in parts[k]
    ensures SwapChar(Join(parts, [c]), c, d) == Join(parts, [d])
  {
    if |parts| == 1 {
      SwapAbsent(parts[0], c, d);
    } else if |parts| > 1 {
      var first, rest := parts[0], parts[1..];
      SwapJoin(rest, c, d);
      assert Join(parts, [c]) == first + [c] + Join(rest, [c]);
      assert Join(parts, [d]) == first + [d] + Join(rest, [d]);
      SwapSeparator(first, Join(rest, [c]), c, d);
    }
  }

  /** Swapping in `first + [c] + tail`, where `first` has no `c`, touches only the
      separator and the tail. */
  lemma SwapSeparator(first: string, tail: string, c: char, d: char)
    requires c !in first
    ensures SwapChar(first + [c] + tail, c, d) == first + [d] + SwapChar(tail, c, d)
  {
    SwapConcat(first + [c], tail, c, d);
    SwapConcat(first, [c], c, d);
    SwapAbsent(first, c, d);
  }

  /** `s.replace(c, d)` for single characters is the character-wise swap. */
  lemma ReplaceCharIsSwap(s: string, c: char, d: char)
    ensures ReplaceAll(s, [c], [d]) == SwapChar(s, c, d)
  {
    var parts := Split(s, [c]);
    forall k | 0 <= k < |parts|
      ensures c !in parts[k]
    {
      ContainsChar(parts[k], c);
    }
    SwapJoin(parts, c, d);
  }

  /** Python's `str.isspace`, the characters `strip()` removes: tab to carriage
      return, the four information separators and space, next line, no-break space,
      Ogham space mark, the typographic spaces, line and paragraph separators,
      narrow no-break space, medium mathematical space and ideographic space. */
  predicate IsSpace(c: char)
  {
    || '\t' <= c <= '\r'
    || '\U{1C}' <= c <= ' '
    || c == '\U{85}' || c == '\U{A0}' || c == '\U{1680}'
    || '\U{2000}' <= c <= '\U{200A}'
    || c == '\U{2028}' || c == '\U{2029}' || c == '\U{202F}' || c == '\U{205F}' || c == '\U{3000}'
  }

  /** Python's `s.lstrip()`: `s` without its leading whitespace. */
  function LStrip(s: string): (r: string)
    ensures |r| <= |s| && r == s[|s| - |r|..]
    ensures forall k :: 0 <= k < |s| - |r| ==> IsSpace(s[k])
    ensures r == [] || !IsSpace(r[0])
    decreases |s|
  {
    if |s| > 0 && IsSpace(s[0]) then LStrip(s[1..]) else s
  }

  /** Python's `s.rstrip()`: `s` without its trailing whitespace. */
  function RStrip(s: string): (r: string)
    ensures |r| <= |s| && r == s[..|r|]
    ensures forall k :: |r| <= k < |s| ==> IsSpace(s[k])
    ensures r == [] || !IsSpace(r[|r| - 1])
    decreases |s|
  {
    if |s| > 0 && IsSpace(s[|s| - 1]) then RStrip(s[..|s| - 1]) else s
  }

  /** Python's `s.rstrip(c)` for a single character `c`. */
  function RStripChar(s: string, c: char): (r: string)
    ensures |r| <= |s| && r == s[..|r|]
    ensures forall k :: |r| <= k < |s| ==> s[k] == c
    ensures r == [] || r[|r| - 1] != c
    decreases |s|
  {
    if |s| > 0 && s[|s| - 1] == c then RStripChar(s[..|s| - 1], c) else s
  }

  /** Neither end of `s` is whitespace. */
  predicate IsStripped(s: string)
  {
    s == [] || (!IsSpace(s[0]) && !IsSpace(s[|s| - 1]))
  }

  /** Python's `s.strip()`: the middle of `s` once the whitespace at both ends is cut. */
  function Strip(s: string): (r: string)
    ensures IsStripped(r)
    ensures |r| <= |s|
    ensures IsStripped(s) ==> r == s
  {
    var l := LStrip(s);
    var r := RStrip(l);
    assert r != [] ==> r[0] == l[0];
    assert IsStripped(s) ==> l == s;
    r
  }

  /** `strip()` only removes whitespace: `s` is the stripped text with whitespace
      before and after it. */
  lemma StripRemovesOnlySpace(s: string)
    ensures var r := Strip(s); var i := |s| - |LStrip(s)|;
            && 0 <= i <= |s| - |r| && r <= s[i..]
            && (forall k :: 0 <= k < i ==> IsSpace(s[k]))
            && (forall k :: i + |r| <= k < |s| ==> IsSpace(s[k]))
  {
    var l := LStrip(s);
    var r := RStrip(l);
    var i := |s| - |l|;
    assert l == s[i..];
    forall k | i + |r| <= k < |s|
      ensures IsSpace(s[k])
    {
      assert s[k] == l[k - i];
    }
  }

  /** `strip()` never introduces a character. */
  lemma StripKeepsAbsent(s: string, c: char)
    requires c !in s
    ensures c !in Strip(s)
  {
    StripRemovesOnlySpace(s);
  }

  /** Stripping twice is stripping once. */
  lemma StripIdempotent(s: string)
    ensures Strip(Strip(s)) == Strip(s)
  {
  }

  /** Python's clamping of a slice bound `i` against a length `n`. */
  function SliceIndex(i: int, n: nat): (r: nat)
    ensures r <= n
    ensures 0 <= i <= n ==> r == i
    ensures -(n as int) <= i < 0 ==> r == n as int + i
    ensures i > n ==> r == n
    ensures i < -(n as int) ==> r == 0
  {
    if i < 0 then (if n + i < 0 then 0 else n + i)
    else if i > n then n
    else i
  }

  /** Python's `s[start:stop]`: bounds may be negative (counted from the end) or out
      of range (clamped); an empty result when the clamped start is not before the stop. */
  function Slice(s: string, start: int, stop: int): (r: string)
    ensures SliceIndex(start, |s|) + |r| <= |s|
    ensures r == s[SliceIndex(start, |s|)..SliceIndex(start, |s|) + |r|]
    ensures SliceIndex(start, |s|) < SliceIndex(stop, |s|) ==> |r| == SliceIndex(stop, |s|) - SliceIndex(start, |s|)
    ensures SliceIndex(stop, |s|) <= SliceIndex(start, |s|) ==> r == ""
  {
    var a := SliceIndex(start, |s|);
    var b := SliceIndex(stop, |s|);
    if a < b then s[a..b] else ""
  }

  /** The decimal digit for `d`. */
  function DigitChar(d: nat): (c: char)
    requires d < 10
    ensures '0' <= c <= '9'
    ensures c as int - '0' as int == d
  {
    "0123456789"[d]
  }

  predicate IsDigits(s: string)
  {
    forall k :: 0 <= k < |s| ==> '0' <= s[k] <= '9'
  }

  /** Python's `str(n)` for a natural number. */
  function Str(n: nat): (r: string)
    ensures |r| >= 1 && IsDigits(r)
    ensures r[0] == '0' ==> n == 0
  {
    if n < 10 then [DigitChar(n)] else Str(n / 10) + [DigitChar(n % 10)]
  }

  /** The number a string of decimal digits denotes. */
  function ParseDecimal(s: string): nat
    requires IsDigits(s)
  {
    if |s| == 0 then 0
    else ParseDecimal(s[..|s| - 1]) * 10 + (s[|s| - 1] as int - '0' as int)
  }

  /** `str(n)` can be read back: decimal rendering is injective. */
  lemma {:induction false} ParseStr(n: nat)
    ensures ParseDecimal(Str(n)) == n
  {
    if n >= 10 {
      ParseStr(n / 10);
      var s := Str(n);
      assert s[..|s| - 1] == Str(n / 10);
    }
  }
}
