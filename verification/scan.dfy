/** How the tool applies its patterns: `re.finditer` (leftmost,
    non-overlapping matches, the search resuming where the last match ended),
    the left-to-right output buffer that replaces each match, and `re.sub`,
    which is the two together. */
module Scan {
  import opened Options
  import opened Patterns

  /** Matches lie in `[from, n)`, each non-empty, in increasing order and
      without overlap. */
  predicate InOrder(ms: seq<Match>, from: nat, n: nat) {
    && (forall k :: 0 <= k < |ms| ==> from <= ms[k].start < ms[k].end <= n)
    && (forall j, k :: 0 <= j < k < |ms| ==> ms[j].end <= ms[k].start)
  }

  /** Position `p` lies inside one of the matches. */
  ghost predicate Covers(ms: seq<Match>, p: int) {
    exists k :: 0 <= k < |ms| && ms[k].start <= p < ms[k].end
  }

  /** What `re.finditer(at, s[from:])` promises, stated without reference to
      how the search runs: the matches are in order, each is the match of the
      pattern at its start, and every position from which the pattern would
      match lies inside one of them (no match was skipped). */
  ghost predicate IsScan(at: Matcher, s: string, from: nat, ms: seq<Match>) {
    && InOrder(ms, from, |s|)
    && (forall k :: 0 <= k < |ms| ==> at(s, ms[k].start) == Some(ms[k]))
    && (forall p :: from <= p < |s| && at(s, p).Some? ==> Covers(ms, p))
  }

  /** `re.finditer`: try the pattern at each position from `from`; after a
      match, resume at its end. */
  function FindAll(at: Matcher, s: string, from: nat): (ms: seq<Match>)
    requires Sound(at) && from <= |s|
    ensures IsScan(at, s, from, ms)
    decreases |s| - from
  {
    if from == |s| then []
    else match at(s, from)
      case Some(m) =>
        var rest := FindAll(at, s, m.end);
        ScanCons(at, s, from, from, m, rest);
        [m] + rest
      case None =>
        var rest := FindAll(at, s, from + 1);
        ScanSkip(at, s, from, rest);
        rest
  }

  /** The first match at or after `from`, followed by a scan from its end,
      is a scan from `from`. */
  lemma ScanCons(at: Matcher, s: string, from: nat, i: nat, m: Match, rest: seq<Match>)
    requires Sound(at) && from <= i < |s| && at(s, i) == Some(m)
    requires forall p :: from <= p < i ==> at(s, p).None?
    requires IsScan(at, s, m.end, rest)
    ensures IsScan(at, s, from, [m] + rest)
  {
    var ms := [m] + rest;
    assert m.start == i < m.end <= |s|;
    ConsInOrder(m, rest, from, |s|);
    forall k | 0 <= k < |ms|
      ensures at(s, ms[k].start) == Some(ms[k])
    {
      if k > 0 {
        assert ms[k] == rest[k - 1];
      }
    }
    forall p | from <= p < |s| && at(s, p).Some?
      ensures Covers(ms, p)
    {
      if p < m.end {
        assert ms[0].start <= p < ms[0].end;
      } else {
        assert Covers(rest, p);
        var k :| 0 <= k < |rest| && rest[k].start <= p < rest[k].end;
        assert ms[k + 1] == rest[k];
      }
    }
  }

  /** A match placed before matches that follow it keeps them in order. */
  lemma ConsInOrder(m: Match, rest: seq<Match>, from: nat, n: nat)
    requires from <= m.start < m.end <= n && InOrder(rest, m.end, n)
    ensures InOrder([m] + rest, from, n)
  {
    var ms := [m] + rest;
    forall k | 0 <= k < |ms|
      ensures from <= ms[k].start < ms[k].end <= n
    {
      if k > 0 {
        assert ms[k] == rest[k - 1];
      }
    }
    forall j, k | 0 <= j < k < |ms|
      ensures ms[j].end <= ms[k].start
    {
      assert ms[k] == rest[k - 1];
      if j > 0 {
        assert ms[j] == rest[j - 1];
      }
    }
  }

  /** Skipping a position where the pattern does not match keeps a scan. */
  lemma ScanSkip(at: Matcher, s: string, from: nat, rest: seq<Match>)
    requires from < |s| && at(s, from).None?
    requires IsScan(at, s, from + 1, rest)
    ensures IsScan(at, s, from, rest)
  {
  }

  /** `FindAll` is the only sequence of matches meeting the scan contract:
      the contract determines the result of `re.finditer` completely. */
  lemma {:induction false} ScanUnique(at: Matcher, s: string, from: nat, ms: seq<Match>)
    requires Sound(at) && from <= |s|
    requires IsScan(at, s, from, ms)
    ensures ms == FindAll(at, s, from)
    decreases |s| - from
  {
    if from == |s| {
      InOrderCount(ms, from, |s|);
    } else if at(s, from).Some? {
      var m := at(s, from).value;
      ScanHead(at, s, from, ms, m);
      ScanUnique(at, s, m.end, ms[1..]);
      FindAllMatch(at, s, from, m);
      assert ms == [m] + ms[1..];
    } else {
      ScanNoHead(at, s, from, ms);
      ScanUnique(at, s, from + 1, ms);
    }
  }

  /** Where the pattern matches, `FindAll` reports that match first. */
  lemma FindAllMatch(at: Matcher, s: string, from: nat, m: Match)
    requires Sound(at) && from < |s| && at(s, from) == Some(m)
    ensures FindAll(at, s, from) == [m] + FindAll(at, s, m.end)
  {
  }

  /** A scan from a position where the pattern matches starts with that
      match, and continues as a scan from its end. */
  lemma ScanHead(at: Matcher, s: string, from: nat, ms: seq<Match>, m: Match)
    requires Sound(at) && from < |s| && at(s, from) == Some(m)
    requires IsScan(at, s, from, ms)
    ensures |ms| > 0 && ms[0] == m
    ensures IsScan(at, s, m.end, ms[1..])
  {
    ScanFirst(at, s, from, ms, m);
    ScanRest(at, s, from, ms);
  }

  /** The match at the start of a scan is its first element. */
  lemma ScanFirst(at: Matcher, s: string, from: nat, ms: seq<Match>, m: Match)
    requires from < |s| && at(s, from) == Some(m)
    requires IsScan(at, s, from, ms)
    ensures |ms| > 0 && ms[0] == m
  {
    assert Covers(ms, from);
    var k :| 0 <= k < |ms| && ms[k].start <= from < ms[k].end;
    assert from <= ms[0].start < ms[0].end;
    assert ms[0].end <= ms[k].start || k == 0;
    assert at(s, ms[0].start) == Some(ms[0]);
  }

  /** A scan without its first match is a scan from that match's end. */
  lemma ScanRest(at: Matcher, s: string, from: nat, ms: seq<Match>)
    requires |ms| > 0 && IsScan(at, s, from, ms)
    ensures IsScan(at, s, ms[0].end, ms[1..])
  {
    var rest := ms[1..];
    InOrderTail(ms, from, |s|);
    forall k | 0 <= k < |rest|
      ensures at(s, rest[k].start) == Some(rest[k])
    {
      assert rest[k] == ms[k + 1];
    }
    forall p | ms[0].end <= p < |s| && at(s, p).Some?
      ensures Covers(rest, p)
    {
      assert from <= ms[0].start < ms[0].end;
      assert Covers(ms, p);
      var j :| 0 <= j < |ms| && ms[j].start <= p < ms[j].end;
      assert j != 0;
      assert rest[j - 1] == ms[j];
    }
  }

  /** Non-empty, non-overlapping matches in `[from, n)` number at most
      `n - from`. */
  lemma {:induction false} InOrderCount(ms: seq<Match>, from: nat, n: nat)
    requires from <= n && InOrder(ms, from, n)
    ensures |ms| <= n - from
    decreases |ms|
  {
    if |ms| > 0 {
      assert from <= ms[0].start < ms[0].end;
      InOrderTail(ms, from, n);
      InOrderCount(ms[1..], ms[0].end, n);
      assert |ms| == 1 + |ms[1..]|;
    }
  }

  /** The matches after the first are in order from the end of the first. */
  lemma InOrderTail(ms: seq<Match>, from: nat, n: nat)
    requires |ms| > 0 && InOrder(ms, from, n)
    ensures InOrder(ms[1..], ms[0].end, n)
  {
    assert forall k :: 0 <= k < |ms| - 1 ==> ms[1..][k] == ms[k + 1];
  }

  /** A scan from a position where the pattern does not match is a scan from
      the next position. */
  lemma ScanNoHead(at: Matcher, s: string, from: nat, ms: seq<Match>)
    requires from < |s| && at(s, from).None?
    requires IsScan(at, s, from, ms)
    ensures IsScan(at, s, from + 1, ms)
  {
  }

  /** The scan from `from` starts with the first match at or after `from`:
      positions where the pattern does not match are passed over. */
  lemma FindAllSkipTo(at: Matcher, s: string, from: nat, i: nat, m: Match)
    requires Sound(at) && from <= i < |s| && at(s, i) == Some(m)
    requires forall p :: from <= p < i ==> at(s, p).None?
    ensures FindAll(at, s, from) == [m] + FindAll(at, s, m.end)
  {
    var rest := FindAll(at, s, m.end);
    ScanCons(at, s, from, i, m, rest);
    ScanUnique(at, s, from, [m] + rest);
  }

  /** A text in which the pattern matches nowhere yields no matches. */
  lemma ScanEmptyIff(at: Matcher, s: string, from: nat)
    requires Sound(at) && from <= |s|
    ensures FindAll(at, s, from) == [] <==>
            forall p :: from <= p < |s| ==> at(s, p).None?
  {
    var ms := FindAll(at, s, from);
    if ms != [] {
      assert at(s, ms[0].start).Some?;
    }
  }

  // ---------------------------------------------------------------------
  // Building the output

  /** The output buffer: the text between matches copied as it is, each
      match replaced by the corresponding entry of `reps`. */
  function Splice(s: string, ms: seq<Match>, reps: seq<string>, from: nat): string
    requires from <= |s| && |reps| == |ms| && InOrder(ms, from, |s|)
    decreases |ms|
  {
    if |ms| == 0 then s[from..]
    else s[from..ms[0].start] + reps[0] + Splice(s, ms[1..], reps[1..], ms[0].end)
  }

  /** `n` copies of `x`. */
  function Repeat(x: string, n: nat): (r: seq<string>)
    ensures |r| == n && forall k :: 0 <= k < n ==> r[k] == x
  {
    if n == 0 then [] else [x] + Repeat(x, n - 1)
  }

  /** `re.sub(at, repl, s)`. */
  function Sub(at: Matcher, s: string, repl: string): string
    requires Sound(at)
  {
    var ms := FindAll(at, s, 0);
    Splice(s, ms, Repeat(repl, |ms|), 0)
  }

  /** A pattern that matches at one position, and nowhere else outside the
      text of that match, is replaced there and nowhere else. */
  lemma SubSingle(at: Matcher, s: string, repl: string, m: Match)
    requires Sound(at) && m.start < |s| && at(s, m.start) == Some(m)
    requires forall p :: 0 <= p < |s| && !(m.start <= p < m.end) ==> at(s, p).None?
    ensures Sub(at, s, repl) == s[..m.start] + repl + s[m.end..]
  {
    var ms := [m];
    assert IsScan(at, s, 0, ms) by {
      forall p | 0 <= p < |s| && at(s, p).Some?
        ensures Covers(ms, p)
      {
        assert ms[0].start <= p < ms[0].end;
      }
    }
    ScanUnique(at, s, 0, ms);
    assert Repeat(repl, 1) == [repl];
    assert ms[1..] == [];
    assert Splice(s, ms, [repl], 0) == s[0..m.start] + repl + Splice(s, [], [], m.end);
  }

  /** Replacing every match by its own text gives the input back: the text
      outside the matches is copied verbatim and in its original order. */
  lemma {:induction false} SpliceOwnText(s: string, ms: seq<Match>, reps: seq<string>, from: nat)
    requires from <= |s| && |reps| == |ms| && InOrder(ms, from, |s|)
    requires forall k :: 0 <= k < |ms| ==> reps[k] == s[ms[k].start..ms[k].end]
    ensures Splice(s, ms, reps, from) == s[from..]
    decreases |ms|
  {
    if |ms| > 0 {
      SpliceOwnText(s, ms[1..], reps[1..], ms[0].end);
      assert s[from..] == s[from..ms[0].start] + s[ms[0].start..ms[0].end] + s[ms[0].end..];
    }
  }

  /** Total length of the matched text. */
  function MatchedLength(ms: seq<Match>): int {
    if |ms| == 0 then 0 else ms[0].end - ms[0].start + MatchedLength(ms[1..])
  }

  /** Total length of the replacements. */
  function TotalLength(reps: seq<string>): nat {
    if |reps| == 0 then 0 else |reps[0]| + TotalLength(reps[1..])
  }

  /** The output is the input, less the matched text, plus the replacements. */
  lemma {:induction false} SpliceLength(s: string, ms: seq<Match>, reps: seq<string>, from: nat)
    requires from <= |s| && |reps| == |ms| && InOrder(ms, from, |s|)
    ensures |Splice(s, ms, reps, from)| == |s| - from - MatchedLength(ms) + TotalLength(reps)
    decreases |ms|
  {
    if |ms| > 0 {
      SpliceLength(s, ms[1..], reps[1..], ms[0].end);
    }
  }

  /** When every match is longer than its replacement, the matched text
      outweighs the replacements as soon as there is one match. */
  lemma {:induction false} ShorterReplacements(ms: seq<Match>, reps: seq<string>)
    requires |reps| == |ms| > 0
    requires forall k :: 0 <= k < |ms| ==> ms[k].end - ms[k].start > |reps[k]|
    ensures MatchedLength(ms) > TotalLength(reps)
    decreases |ms|
  {
    if |ms| > 1 {
      ShorterReplacements(ms[1..], reps[1..]);
    }
  }

  /** A substitution whose replacement is shorter than every match leaves
      the text unchanged exactly when the pattern matches nowhere. */
  lemma SubUnchangedIff(at: Matcher, s: string, repl: string)
    requires Sound(at)
    requires forall k :: 0 <= k < |FindAll(at, s, 0)| ==>
               FindAll(at, s, 0)[k].end - FindAll(at, s, 0)[k].start > |repl|
    ensures Sub(at, s, repl) == s <==> forall p :: 0 <= p < |s| ==> at(s, p).None?
  {
    var ms := FindAll(at, s, 0);
    var reps := Repeat(repl, |ms|);
    ScanEmptyIff(at, s, 0);
    SpliceLength(s, ms, reps, 0);
    if |ms| > 0 {
      ShorterReplacements(ms, reps);
    }
  }

  // ---------------------------------------------------------------------
  // Deletion

  /** The characters of `s[from..]` that no match covers, in order. */
  ghost function Kept(s: string, ms: seq<Match>, from: nat): string
    requires from <= |s|
    decreases |s| - from
  {
    if from == |s| then []
    else (if Covers(ms, from) then [] else [s[from]]) + Kept(s, ms, from + 1)
  }

  /** Across a stretch with no covered position, `Kept` copies the text. */
  lemma {:induction false} KeptUncovered(s: string, ms: seq<Match>, a: nat, b: nat)
    requires a <= b <= |s|
    requires forall p :: a <= p < b ==> !Covers(ms, p)
    ensures Kept(s, ms, a) == s[a..b] + Kept(s, ms, b)
    decreases b - a
  {
    if a < b {
      KeptUncovered(s, ms, a + 1, b);
      assert !Covers(ms, a);
      assert Kept(s, ms, a) == [s[a]] + Kept(s, ms, a + 1);
      assert s[a..b] == [s[a]] + s[a + 1..b];
    }
  }

  /** Across a stretch of covered positions, `Kept` drops the text. */
  lemma {:induction false} KeptCovered(s: string, ms: seq<Match>, a: nat, b: nat)
    requires a <= b <= |s|
    requires forall p :: a <= p < b ==> Covers(ms, p)
    ensures Kept(s, ms, a) == Kept(s, ms, b)
    decreases b - a
  {
    if a < b {
      KeptCovered(s, ms, a + 1, b);
    }
  }

  /** Past the end of the first match, only the later matches matter. */
  lemma {:induction false} KeptTail(s: string, ms: seq<Match>, from: nat, a: nat)
    requires from <= |s| && |ms| > 0 && InOrder(ms, from, |s|)
    requires ms[0].end <= a <= |s|
    ensures Kept(s, ms, a) == Kept(s, ms[1..], a)
    decreases |s| - a
  {
    if a < |s| {
      KeptTail(s, ms, from, a + 1);
      if Covers(ms, a) {
        var k :| 0 <= k < |ms| && ms[k].start <= a < ms[k].end;
        assert k > 0 && ms[1..][k - 1] == ms[k];
      }
      if Covers(ms[1..], a) {
        var k :| 0 <= k < |ms[1..]| && ms[1..][k].start <= a < ms[1..][k].end;
        assert ms[k + 1] == ms[1..][k];
      }
    }
  }

  /** Deleting every match leaves exactly the uncovered characters, in order:
      nothing outside a match is lost, nothing inside one survives. */
  lemma {:induction false} DeleteKeepsUncovered(s: string, ms: seq<Match>, from: nat)
    requires from <= |s| && InOrder(ms, from, |s|)
    ensures Splice(s, ms, Repeat("", |ms|), from) == Kept(s, ms, from)
    decreases |ms|
  {
    if |ms| == 0 {
      KeptUncovered(s, ms, from, |s|);
    } else {
      InOrderTail(ms, from, |s|);
      DeleteKeepsUncovered(s, ms[1..], ms[0].end);
      KeptFirstMatch(s, ms, from);
      assert Repeat("", |ms|)[1..] == Repeat("", |ms| - 1);
    }
  }

  /** The uncovered characters are those before the first match, then the
      ones the later matches leave. */
  lemma KeptFirstMatch(s: string, ms: seq<Match>, from: nat)
    requires from <= |s| && |ms| > 0 && InOrder(ms, from, |s|)
    ensures Kept(s, ms, from) == s[from..ms[0].start] + Kept(s, ms[1..], ms[0].end)
  {
    var m := ms[0];
    assert forall k :: 0 < k < |ms| ==> ms[0].end <= ms[k].start;
    assert forall p :: from <= p < m.start ==> !Covers(ms, p);
    KeptUncovered(s, ms, from, m.start);
    assert forall p :: m.start <= p < m.end ==> Covers(ms, p);
    KeptCovered(s, ms, m.start, m.end);
    KeptTail(s, ms, from, m.end);
  }

  /** `a` is obtained from `b` by deleting characters. */
  ghost predicate IsSubsequence(a: string, b: string)
    decreases |b|
  {
    |a| == 0 || (|b| > 0 && ((a[0] == b[0] && IsSubsequence(a[1..], b[1..])) || IsSubsequence(a, b[1..])))
  }

  /** The uncovered characters form a subsequence of the text. */
  lemma {:induction false} KeptIsSubsequence(s: string, ms: seq<Match>, from: nat)
    requires from <= |s|
    ensures IsSubsequence(Kept(s, ms, from), s[from..])
    decreases |s| - from
  {
    if from < |s| {
      KeptIsSubsequence(s, ms, from + 1);
      assert s[from..][1..] == s[from + 1..];
      var k := Kept(s, ms, from);
      if !Covers(ms, from) {
        assert k[0] == s[from..][0];
        assert k[1..] == Kept(s, ms, from + 1);
      } else {
        assert k == Kept(s, ms, from + 1);
      }
    }
  }

  /** Deletion-only substitution: `re.sub(at, '', s)` is a subsequence of `s`. */
  lemma DeleteIsSubsequence(at: Matcher, s: string)
    requires Sound(at)
    ensures IsSubsequence(Sub(at, s, ""), s)
  {
    var ms := FindAll(at, s, 0);
    DeleteKeepsUncovered(s, ms, 0);
    KeptIsSubsequence(s, ms, 0);
    assert s[0..] == s;
  }

  /** Deleting characters twice is deleting characters. */
  lemma {:induction false} SubsequenceTrans(a: string, b: string, c: string)
    requires IsSubsequence(a, b) && IsSubsequence(b, c)
    ensures IsSubsequence(a, c)
    decreases |c|
  {
    if |a| > 0 {
      if IsSubsequence(b, c[1..]) {
        SubsequenceTrans(a, b, c[1..]);
      } else if a[0] == b[0] && IsSubsequence(a[1..], b[1..]) {
        SubsequenceTrans(a[1..], b[1..], c[1..]);
      } else {
        SubsequenceTrans(a, b[1..], c[1..]);
      }
    }
  }

  /** `b` is what `a` ends with. */
  predicate EndsWith(a: string, b: string) {
    |b| <= |a| && a[|a| - |b|..] == b
  }

  /** What is kept from `a` on ends with what is kept from a later `q` on. */
  lemma {:induction false} KeptEndsWith(s: string, ms: seq<Match>, a: nat, q: nat)
    requires a <= q <= |s|
    ensures EndsWith(Kept(s, ms, a), Kept(s, ms, q))
    decreases q - a
  {
    if a < q {
      KeptEndsWith(s, ms, a + 1, q);
      var x, y := Kept(s, ms, a + 1), Kept(s, ms, q);
      var head := if Covers(ms, a) then [] else [s[a]];
      assert Kept(s, ms, a) == head + x;
      assert (head + x)[|head + x| - |y|..] == x[|x| - |y|..];
    }
  }

  /** When no match reaches position `q` or beyond, deletion leaves the text
      from `q` on untouched at the end of its output. */
  lemma DeleteKeepsSuffix(at: Matcher, s: string, q: nat)
    requires Sound(at) && q <= |s|
    requires forall k :: 0 <= k < |FindAll(at, s, 0)| ==> FindAll(at, s, 0)[k].end <= q
    ensures EndsWith(Sub(at, s, ""), s[q..])
  {
    var ms := FindAll(at, s, 0);
    DeleteKeepsUncovered(s, ms, 0);
    KeptEndsWith(s, ms, 0, q);
    KeptUncovered(s, ms, q, |s|);
    assert s[q..|s|] == s[q..];
  }
}
