/** Character classes and small string operations the tool relies on:
    Python's `\s` / `str.isspace`, `str.strip`, literal and case-insensitive
    literal matching, and the path helpers `os.path.basename` and
    `os.path.splitext` on POSIX paths. */
module Text {
  import opened Options

  /** Python's notion of whitespace for `str` patterns (`\s`) and for
      `str.strip()`: the characters for which `str.isspace()` holds. */
  predicate IsSpace(c: char) {
    || c == ' '
    || ('\t' <= c <= '\r')            // \t \n \v \f \r
    || ('\U{1C}' <= c <= '\U{1F}')    // file, group, record and unit separators
    || c == '\U{85}' || c == '\U{A0}' || c == '\U{1680}'
    || ('\U{2000}' <= c <= '\U{200A}')
    || c == '\U{2028}' || c == '\U{2029}' || c == '\U{202F}'
    || c == '\U{205F}' || c == '\U{3000}'
  }

  /** The character class `[ \t]`: what counts as blank inside a blank line. */
  predicate IsBlank(c: char) {
    c == ' ' || c == '\t'
  }

  /** ASCII lower-casing, the case folding used for IGNORECASE matching. */
  function Lower(c: char): (r: char)
    ensures 'A' <= c <= 'Z' ==> 'a' <= r <= 'z'
    ensures !('A' <= c <= 'Z') ==> r == c
  {
    if 'A' <= c <= 'Z' then (c as int + 32) as char else c
  }

  /** `lit` occurs in `s` starting at index `i` (case-sensitive). */
  predicate LitAt(s: string, i: nat, lit: string) {
    i + |lit| <= |s| && s[i..i + |lit|] == lit
  }

  /** An occurrence of `lit` agrees with it character by character. */
  lemma LitAtChars(s: string, i: nat, lit: string)
    ensures LitAt(s, i, lit) <==> i + |lit| <= |s| && forall k :: 0 <= k < |lit| ==> s[i + k] == lit[k]
    ensures LitAt(s, i, lit) && |lit| > 0 ==> s[i] == lit[0]
    ensures LitAt(s, i, lit) && |lit| > 1 ==> s[i + 1] == lit[1]
  {
    if i + |lit| <= |s| {
      forall k | 0 <= k < |lit|
        ensures s[i + k] == lit[k] <== s[i..i + |lit|] == lit
      {
        assert s[i..i + |lit|][k] == s[i + k];
      }
    }
  }

  /** `lit` occurs in `s` starting at index `i`, ignoring ASCII case. */
  predicate LitAtIgnoreCase(s: string, i: nat, lit: string) {
    && i + |lit| <= |s|
    && forall k :: 0 <= k < |lit| ==> Lower(s[i + k]) == Lower(lit[k])
  }

  /** The end of the longest run of `\s` characters starting at `i`:
      what a greedy `\s*` consumes. */
  function SkipSpaces(s: string, i: nat): (r: nat)
    requires i <= |s|
    ensures i <= r <= |s|
    ensures forall k :: i <= k < r ==> IsSpace(s[k])
    ensures r == |s| || !IsSpace(s[r])
    decreases |s| - i
  {
    if i < |s| && IsSpace(s[i]) then SkipSpaces(s, i + 1) else i
  }

  /** The end of the longest run of spaces and tabs starting at `i`:
      what a greedy `[ \t]*` consumes. */
  function SkipBlanks(s: string, i: nat): (r: nat)
    requires i <= |s|
    ensures i <= r <= |s|
    ensures forall k :: i <= k < r ==> IsBlank(s[k])
    ensures r == |s| || !IsBlank(s[r])
    decreases |s| - i
  {
    if i < |s| && IsBlank(s[i]) then SkipBlanks(s, i + 1) else i
  }

  /** The first position at or after `i` where a MULTILINE `$` holds: the
      next newline, or the end of the text. */
  function LineEnd(s: string, i: nat): (r: nat)
    requires i <= |s|
    ensures i <= r <= |s|
    ensures forall k :: i <= k < r ==> s[k] != '\n'
    ensures r == |s| || s[r] == '\n'
    decreases |s| - i
  {
    if i < |s| && s[i] != '\n' then LineEnd(s, i + 1) else i
  }

  /** The first index at or after `i` holding `c`, if any. */
  function IndexFrom(s: string, i: nat, c: char): (r: Option<nat>)
    requires i <= |s|
    ensures r.Some? ==> i <= r.value < |s| && s[r.value] == c
    ensures r.Some? ==> forall k :: i <= k < r.value ==> s[k] != c
    ensures r.None? ==> forall k :: i <= k < |s| ==> s[k] != c
    decreases |s| - i
  {
    if i == |s| then None
    else if s[i] == c then Some(i)
    else IndexFrom(s, i + 1, c)
  }

  /** Any index satisfying `IndexFrom`'s contract is the one it finds. */
  lemma IndexFromUnique(s: string, i: nat, c: char, r: Option<nat>)
    requires i <= |s|
    requires r.Some? ==> i <= r.value < |s| && s[r.value] == c
    requires r.Some? ==> forall k :: i <= k < r.value ==> s[k] != c
    requires r.None? ==> forall k :: i <= k < |s| ==> s[k] != c
    ensures IndexFrom(s, i, c) == r
  {
  }

  /** No character of `s` in `[a, b)` is a newline. */
  predicate NoNewline(s: string, a: nat, b: nat)
    requires a <= b <= |s|
  {
    forall k :: a <= k < b ==> s[k] != '\n'
  }

  /** Python's `str.strip()`: leading and trailing whitespace removed. */
  function Strip(s: string): (r: string)
    ensures exists i, j :: 0 <= i <= j <= |s| && r == s[i..j]
                           && (forall k :: 0 <= k < i ==> IsSpace(s[k]))
                           && (forall k :: j <= k < |s| ==> IsSpace(s[k]))
    ensures r == [] || (!IsSpace(r[0]) && !IsSpace(r[|r| - 1]))
  {
    var i := SkipSpaces(s, 0);
    var j := TrimEnd(s, i, |s|);
    s[i..j]
  }

  /** A name already stripped of surrounding whitespace strips to itself. */
  lemma StripTrimmed(s: string)
    requires s == [] || (!IsSpace(s[0]) && !IsSpace(s[|s| - 1]))
    ensures Strip(s) == s
  {
    if s != [] {
      assert SkipSpaces(s, 0) == 0;
      assert TrimEnd(s, 0, |s|) == |s|;
      assert s[0..|s|] == s;
    }
  }

  /** `s[i..j]` is `s` with whitespace cut from both ends, and no more. */
  predicate TrimmedAt(s: string, i: nat, j: nat) {
    && i <= j <= |s|
    && (forall k :: 0 <= k < i ==> IsSpace(s[k]))
    && (forall k :: j <= k < |s| ==> IsSpace(s[k]))
    && (i == j || (!IsSpace(s[i]) && !IsSpace(s[j - 1])))
  }

  /** The slice `Strip` cuts out. */
  lemma StripBounds(s: string) returns (i: nat, j: nat)
    ensures TrimmedAt(s, i, j) && Strip(s) == s[i..j]
  {
    i := SkipSpaces(s, 0);
    j := TrimEnd(s, i, |s|);
  }

  /** Only one slice can be `s` stripped, so `Strip` is determined by its
      contract. */
  lemma StripUnique(s: string, i: nat, j: nat)
    requires TrimmedAt(s, i, j)
    ensures Strip(s) == s[i..j]
  {
    var i', j' := StripBounds(s);
    TrimmedSame(s, i, j, i', j');
  }

  /** Two trimmings of the same text cut out the same slice. */
  lemma TrimmedSame(s: string, i: nat, j: nat, i': nat, j': nat)
    requires TrimmedAt(s, i, j) && TrimmedAt(s, i', j')
    ensures s[i..j] == s[i'..j']
  {
    if i < j && i' < j' {
      assert i == i' && j == j';
    }
  }

  /** Leading whitespace does not change what `strip` returns. */
  lemma StripDropsLeading(s: string, k: nat)
    requires k <= |s| && forall q :: 0 <= q < k ==> IsSpace(s[q])
    ensures Strip(s[k..]) == Strip(s)
  {
    var a, b := StripBounds(s);
    if a == b {
      StripShiftEmpty(s, k, a);
    } else {
      StripShiftTrimmed(s, k, a, b);
    }
  }

  /** A suffix of a text that strips to nothing strips to nothing. */
  lemma StripShiftEmpty(s: string, k: nat, a: nat)
    requires k <= |s| && TrimmedAt(s, a, a)
    ensures Strip(s[k..]) == s[a..a]
  {
    AllSpaceSuffix(s, k, a);
    StripAllSpace(s[k..]);
  }

  /** Past a whitespace prefix, the suffix strips to the same slice. */
  lemma StripShiftTrimmed(s: string, k: nat, a: nat, b: nat)
    requires k <= |s| && forall q :: 0 <= q < k ==> IsSpace(s[q])
    requires TrimmedAt(s, a, b) && a < b
    ensures Strip(s[k..]) == s[a..b]
  {
    TrimmedShift(s, k, a, b);
    StripUnique(s[k..], a - k, b - k);
  }

  /** Skipping leading whitespace, but keeping at least the last
      character, does not change what `strip` returns. */
  lemma StripSkippingSpaces(x: string, k: nat)
    requires 0 < |x| && k <= |x| && forall q :: 0 <= q < k ==> IsSpace(x[q])
    ensures Strip(x[if k < |x| then k else |x| - 1..]) == Strip(x)
  {
    if k < |x| {
      StripDropsLeading(x, k);
    } else {
      StripAllSpace(x);
      StripAllSpace(x[|x| - 1..]);
    }
  }

  /** A text stripped to nothing is whitespace throughout, and so is every
      suffix of it. */
  lemma AllSpaceSuffix(s: string, k: nat, a: nat)
    requires k <= |s| && TrimmedAt(s, a, a)
    ensures forall q :: 0 <= q < |s[k..]| ==> IsSpace(s[k..][q])
  {
    forall q | 0 <= q < |s[k..]|
      ensures IsSpace(s[k..][q])
    {
      assert s[k..][q] == s[k + q];
    }
  }

  /** A trimming of `s` past a whitespace prefix is a trimming of the
      suffix after that prefix. */
  lemma TrimmedShift(s: string, k: nat, a: nat, b: nat)
    requires k <= |s| && forall q :: 0 <= q < k ==> IsSpace(s[q])
    requires TrimmedAt(s, a, b) && a < b
    ensures k <= a && TrimmedAt(s[k..], a - k, b - k) && s[k..][a - k..b - k] == s[a..b]
  {
    assert !IsSpace(s[a]);
    var t := s[k..];
    assert t[a - k] == s[a] && t[b - k - 1] == s[b - 1];
    forall q | 0 <= q < a - k
      ensures IsSpace(t[q])
    {
      assert t[q] == s[k + q];
    }
    forall q | b - k <= q < |t|
      ensures IsSpace(t[q])
    {
      assert t[q] == s[k + q];
    }
  }

  /** Text made only of whitespace strips to nothing. */
  lemma StripAllSpace(s: string)
    requires forall q :: 0 <= q < |s| ==> IsSpace(s[q])
    ensures Strip(s) == []
  {
    StripUnique(s, 0, 0);
  }

  /** The largest `j` in `[lo, hi]` such that `s[j..hi]` is all whitespace. */
  function TrimEnd(s: string, lo: nat, hi: nat): (j: nat)
    requires lo <= hi <= |s|
    ensures lo <= j <= hi
    ensures forall k :: j <= k < hi ==> IsSpace(s[k])
    ensures j == lo || !IsSpace(s[j - 1])
    decreases hi - lo
  {
    if lo < hi && IsSpace(s[hi - 1]) then TrimEnd(s, lo, hi - 1) else hi
  }

  /** The index of the last `c` in `s`, or -1 (Python's `str.rfind`). */
  function LastIndex(s: string, c: char): (r: int)
    ensures -1 <= r < |s|
    ensures r >= 0 ==> s[r] == c
    ensures forall k :: r < k < |s| ==> s[k] != c
  {
    if |s| == 0 then -1
    else if s[|s| - 1] == c then |s| - 1
    else LastIndex(s[..|s| - 1], c)
  }

  /** `os.path.basename` on a POSIX path: everything after the last `/`. */
  function Basename(p: string): (r: string)
    ensures forall k :: 0 <= k < |r| ==> r[k] != '/'
    ensures exists d :: 0 <= d <= |p| && r == p[d..] && (d == 0 || p[d - 1] == '/')
  {
    var k := LastIndex(p, '/');
    p[k + 1..]
  }

  /** `os.path.splitext` on a POSIX path: the extension is the text from the
      last dot of the last path component, unless every character before
      that dot in the component is itself a dot (`.bashrc` has none). */
  function SplitExt(p: string): (r: (string, string))
    ensures r.0 + r.1 == p
    ensures r.1 != [] ==> r.1[0] == '.'
    ensures forall k :: 0 <= k < |r.1| ==> r.1[k] != '/'
    ensures forall k :: 1 <= k < |r.1| ==> r.1[k] != '.'
  {
    var sep := LastIndex(p, '/');
    var dot := LastIndex(p, '.');
    if dot > sep && exists k :: sep + 1 <= k < dot && p[k] != '.' then
      assert p[..dot] + p[dot..] == p;
      (p[..dot], p[dot..])
    else
      (p, [])
  }

  /** `splitext` finds an extension exactly when the last component holds
      a dot with some character other than a dot before it; the extension
      then starts at the last dot. */
  lemma SplitExtFinds(p: string)
    ensures SplitExt(p).1 != [] <==>
              exists a, b :: LastIndex(p, '/') < a < b < |p| && p[a] != '.' && p[b] == '.'
    ensures SplitExt(p).1 != [] ==> SplitExt(p) == (p[..LastIndex(p, '.')], p[LastIndex(p, '.')..])
  {
    var sep := LastIndex(p, '/');
    var dot := LastIndex(p, '.');
    if exists a, b :: sep < a < b < |p| && p[a] != '.' && p[b] == '.' {
      var a, b :| sep < a < b < |p| && p[a] != '.' && p[b] == '.';
      assert b <= dot;
      assert sep + 1 <= a < dot && p[a] != '.';
    }
    if SplitExt(p).1 != [] {
      var k :| sep + 1 <= k < dot && p[k] != '.';
      assert sep < k < dot < |p| && p[k] != '.' && p[dot] == '.';
    }
  }

  /** `os.path.splitext(p)[1]` is non-empty. */
  predicate HasExtension(p: string) {
    SplitExt(p).1 != []
  }

  /** `p.lower().endswith('.pdf')`. Only the last four characters matter,
      and no character outside ASCII lower-cases onto `.`, `p`, `d` or `f`. */
  predicate EndsWithPdf(p: string) {
    |p| >= 4 && LitAtIgnoreCase(p, |p| - 4, ".pdf")
  }

  /** Any index satisfying `LastIndex`'s contract is the one it returns. */
  lemma LastIndexUnique(s: string, c: char, r: int)
    requires -1 <= r < |s|
    requires r >= 0 ==> s[r] == c
    requires forall k :: r < k < |s| ==> s[k] != c
    ensures LastIndex(s, c) == r
  {
  }

  /** Taking the basename first does not change the extension that
      `splitext` finds, since the extension never reaches past a `/`. */
  lemma BasenameKeepsExtension(p: string)
    ensures SplitExt(Basename(p)).1 == SplitExt(p).1
  {
    var k, dot, x := ExtensionAt(p);
    var b := Basename(p);
    var d := BasenameIndices(p, k, dot);
    var sep, dot', y := ExtensionAt(b);
    KeepsExtensionStep(p, k, dot, b, x, y);
  }

  /** `BasenameKeepsExtension` with the two extensions given by the last `/`
      and the last `.` of the path. */
  lemma KeepsExtensionStep(p: string, k: int, dot: int, b: string, x: string, y: string)
    requires -1 <= k < |p| && -1 <= dot < |p| && b == p[k + 1..]
    requires x == if dot > k && exists j :: k + 1 <= j < dot && p[j] != '.' then p[dot..] else []
    requires y == var d := if dot > k then dot - k - 1 else -1;
                  if d > -1 && exists j :: 0 <= j < d && b[j] != '.' then b[d..] else []
    ensures x == y
  {
    if dot > k {
      StemShift(p, k + 1, dot);
      assert b[dot - k - 1..] == p[dot..];
    }
  }

  /** The extension in terms of the last `/` and the last `.`. */
  lemma ExtensionAt(p: string) returns (sep: int, dot: int, x: string)
    ensures sep == LastIndex(p, '/') && dot == LastIndex(p, '.') && x == SplitExt(p).1
    ensures x == if dot > sep && exists j :: sep + 1 <= j < dot && p[j] != '.' then p[dot..] else []
  {
    sep := LastIndex(p, '/');
    dot := LastIndex(p, '.');
    x := SplitExt(p).1;
  }

  /** Where the last `/` and the last `.` of a path's basename lie. */
  lemma BasenameIndices(p: string, k: int, dot: int) returns (d: int)
    requires k == LastIndex(p, '/') && dot == LastIndex(p, '.')
    ensures d == (if dot > k then dot - k - 1 else -1)
    ensures Basename(p) == p[k + 1..]
    ensures LastIndex(p[k + 1..], '/') == -1 && LastIndex(p[k + 1..], '.') == d
  {
    d := if dot > k then dot - k - 1 else -1;
    assert LastIndex(p[k + 1..], '/') == -1 by {
      SuffixLastIndex(p, k + 1, '/');
    }
    assert LastIndex(p[k + 1..], '.') == d by {
      SuffixLastIndex(p, k + 1, '.');
    }
  }

  /** The last `c` of a suffix is the last `c` of the whole text, shifted,
      or none when the whole text has its last `c` before the suffix. */
  lemma SuffixLastIndex(p: string, from: nat, c: char)
    requires from <= |p|
    ensures LastIndex(p[from..], c) == if LastIndex(p, c) >= from then LastIndex(p, c) - from else -1
  {
    var t := p[from..];
    var r := LastIndex(p, c);
    forall j | 0 <= j < |t|
      ensures t[j] == p[from + j]
    {
    }
    if r >= from {
      LastIndexUnique(t, c, r - from);
    } else {
      LastIndexUnique(t, c, -1);
    }
  }

  /** A character other than `.` in `p[lo..hi]` is one in the same text
      taken from `lo`. */
  lemma StemShift(p: string, lo: nat, hi: nat)
    requires lo <= hi <= |p|
    ensures (exists j :: lo <= j < hi && p[j] != '.') <==>
            (exists j :: 0 <= j < hi - lo && p[lo..][j] != '.')
  {
    if exists j :: lo <= j < hi && p[j] != '.' {
      var j :| lo <= j < hi && p[j] != '.';
      assert p[lo..][j - lo] == p[j];
    }
    if exists j :: 0 <= j < hi - lo && p[lo..][j] != '.' {
      var j :| 0 <= j < hi - lo && p[lo..][j] != '.';
      assert p[j + lo] == p[lo..][j];
    }
  }
}
