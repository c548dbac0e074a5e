/** POSIX path handling as the tool uses it: `os.path.join`, `os.path.abspath`
    and `os.path.dirname`. Absolute paths are kept in normal form, as the list
    of their components below the root. */
module Paths {
  import opened Options
  import opened Text

  /** An absolute, normalised path: `Path(["home", "u", "a.tex"])` is
      `/home/u/a.tex`, and `Path([])` is the root `/`. */
  datatype Path = Path(segs: seq<string>)

  /** A component that survives normalisation: not empty, not `.` or `..`,
      and free of separators. */
  predicate ProperSegment(x: string) {
    x != "" && x != "." && x != ".." && forall k :: 0 <= k < |x| ==> x[k] != '/'
  }

  /** The form `os.path.abspath` produces: every component is proper. */
  predicate Normal(p: Path) {
    forall k :: 0 <= k < |p.segs| ==> ProperSegment(p.segs[k])
  }

  /** `s.split('/')`. */
  function SplitSlash(s: string): (r: seq<string>)
    ensures |r| >= 1
    ensures forall k, j :: 0 <= k < |r| && 0 <= j < |r[k]| ==> r[k][j] != '/'
    ensures JoinSlash(r) == s
    decreases |s|
  {
    match IndexFrom(s, 0, '/')
    case None => [s]
    case Some(k) =>
      var rest := SplitSlash(s[k + 1..]);
      assert ([s[..k]] + rest)[1..] == rest;
      assert s == s[..k] + "/" + s[k + 1..];
      [s[..k]] + rest
  }

  /** `'/'.join(parts)`. */
  function JoinSlash(parts: seq<string>): string
    requires |parts| >= 1
  {
    if |parts| == 1 then parts[0] else parts[0] + "/" + JoinSlash(parts[1..])
  }

  /** Folds path components into an absolute component list the way
      `os.path.normpath` does for an absolute path: empty and `.` components
      vanish, `..` drops the last component (and stays at the root). */
  function Normalize(acc: seq<string>, parts: seq<string>): (r: seq<string>)
    requires forall k :: 0 <= k < |acc| ==> ProperSegment(acc[k])
    requires forall k, j :: 0 <= k < |parts| && 0 <= j < |parts[k]| ==> parts[k][j] != '/'
    ensures forall k :: 0 <= k < |r| ==> ProperSegment(r[k])
    ensures |r| <= |acc| + |parts|
    ensures (forall k :: 0 <= k < |parts| ==> ProperSegment(parts[k])) ==> r == acc + parts
    decreases |parts|
  {
    if |parts| == 0 then acc
    else if parts[0] == "" || parts[0] == "." then Normalize(acc, parts[1..])
    else if parts[0] == ".." then Normalize(if |acc| == 0 then acc else acc[..|acc| - 1], parts[1..])
    else
      assert acc + [parts[0]] + parts[1..] == acc + parts;
      Normalize(acc + [parts[0]], parts[1..])
  }

  /** `os.path.abspath(os.path.join(base, name))`: a name starting with `/`
      ignores the base directory. */
  function Resolve(base: Path, name: string): (r: Path)
    requires Normal(base)
    ensures Normal(r)
  {
    Path(Normalize(if |name| > 0 && name[0] == '/' then [] else base.segs, SplitSlash(name)))
  }

  /** `os.path.dirname` of an absolute normalised path: the path without its
      last component; the root is its own directory. */
  function Dirname(p: Path): (r: Path)
    requires Normal(p)
    ensures Normal(r)
    ensures |p.segs| > 0 ==> r.segs + [p.segs[|p.segs| - 1]] == p.segs
    ensures |p.segs| == 0 ==> r == p
  {
    if |p.segs| == 0 then p else Path(p.segs[..|p.segs| - 1])
  }

  /** `os.path.join(dir, name)` on two POSIX path strings. */
  function JoinName(dir: string, name: string): (r: string)
    ensures |name| > 0 && name[0] == '/' ==> r == name
    ensures !(|name| > 0 && name[0] == '/') && dir != [] && dir[|dir| - 1] != '/' ==> r == dir + "/" + name
  {
    if |name| > 0 && name[0] == '/' then name
    else if dir == [] || dir[|dir| - 1] == '/' then dir + name
    else dir + "/" + name
  }

  /** Normalising a concatenation of component lists is normalising the
      second list on top of the result of the first. */
  lemma {:induction false} NormalizeAppend(acc: seq<string>, a: seq<string>, b: seq<string>)
    requires forall k :: 0 <= k < |acc| ==> ProperSegment(acc[k])
    requires forall k, j :: 0 <= k < |a| && 0 <= j < |a[k]| ==> a[k][j] != '/'
    requires forall k, j :: 0 <= k < |b| && 0 <= j < |b[k]| ==> b[k][j] != '/'
    ensures Normalize(acc, a + b) == Normalize(Normalize(acc, a), b)
    decreases |a|
  {
    if |a| == 0 {
      assert a + b == b;
    } else {
      assert (a + b)[0] == a[0];
      assert (a + b)[1..] == a[1..] + b;
      var next := if a[0] == "" || a[0] == "." then acc
                  else if a[0] == ".." then (if |acc| == 0 then acc else acc[..|acc| - 1])
                  else acc + [a[0]];
      NormalizeAppend(next, a[1..], b);
    }
  }

  /** Splitting `x + "/" + y` splits `x` and `y` separately. */
  lemma {:induction false} SplitSlashAppend(x: string, y: string)
    ensures SplitSlash(x + "/" + y) == SplitSlash(x) + SplitSlash(y)
    decreases |x|
  {
    match IndexFrom(x, 0, '/')
    case None =>
      SplitFirstSlash(x, y);
    case Some(k) =>
      assert SplitSlash(x[k + 1..] + "/" + y) == SplitSlash(x[k + 1..]) + SplitSlash(y) by {
        SplitSlashAppend(x[k + 1..], y);
      }
      SplitLaterSlash(x, y, k);
  }

  /** `SplitSlashAppend` when `x` holds no `/`. */
  lemma SplitFirstSlash(x: string, y: string)
    requires IndexFrom(x, 0, '/').None?
    ensures SplitSlash(x + "/" + y) == SplitSlash(x) + SplitSlash(y)
  {
    var s := x + "/" + y;
    IndexFromUnique(s, 0, '/', Some(|x|));
    SplitSlashAt(s, |x|);
    assert s[..|x|] == x;
    assert s[|x| + 1..] == y;
  }

  /** `SplitSlashAppend` from the first `/` of `x`, at `k`, given the
      split of what follows it. */
  lemma SplitLaterSlash(x: string, y: string, k: nat)
    requires IndexFrom(x, 0, '/') == Some(k)
    requires SplitSlash(x[k + 1..] + "/" + y) == SplitSlash(x[k + 1..]) + SplitSlash(y)
    ensures SplitSlash(x + "/" + y) == SplitSlash(x) + SplitSlash(y)
  {
    var s := x + "/" + y;
    var b, c := SplitSlash(x[k + 1..]), SplitSlash(y);
    assert SplitSlash(s) == [x[..k]] + (b + c) by {
      IndexFromUnique(s, 0, '/', Some(k));
      SplitSlashAt(s, k);
      JoinSlices(x, y, k);
    }
    assert SplitSlash(x) == [x[..k]] + b by {
      SplitSlashAt(x, k);
    }
    ConsAssoc(x[..k], b, c);
  }

  /** Regrouping a component list with one component in front. */
  lemma ConsAssoc(a: string, b: seq<string>, c: seq<string>)
    ensures [a] + (b + c) == ([a] + b) + c
  {
  }

  /** The pieces of `x + "/" + y` around an index `k` of `x`. */
  lemma JoinSlices(x: string, y: string, k: nat)
    requires k < |x|
    ensures (x + "/" + y)[..k] == x[..k]
    ensures (x + "/" + y)[k + 1..] == x[k + 1..] + "/" + y
  {
  }

  /** Splitting at the first `/`. */
  lemma SplitSlashAt(s: string, k: nat)
    requires IndexFrom(s, 0, '/') == Some(k)
    ensures k < |s| && SplitSlash(s) == [s[..k]] + SplitSlash(s[k + 1..])
  {
  }

  /** A single proper component is appended to the base directory. */
  lemma ResolveComponent(base: Path, x: string)
    requires Normal(base)
    requires ProperSegment(x)
    ensures Resolve(base, x) == Path(base.segs + [x])
  {
    IndexFromUnique(x, 0, '/', None);
    assert SplitSlash(x) == [x];
    assert [x][1..] == [];
    assert x[0] != '/';
    assert Normalize(base.segs, [x]) == Normalize(base.segs + [x], []);
  }

  /** The directory of a file named by a single component is the directory
      it was resolved against: nested includes of a file in the base
      directory resolve against that same directory. */
  lemma DirnameOfComponent(base: Path, x: string)
    requires Normal(base)
    requires ProperSegment(x)
    ensures Dirname(Resolve(base, x)) == base
  {
    ResolveComponent(base, x);
  }

  /** `os.path.join(d, name)` resolved against `base` is `name` resolved
      against `d`, itself resolved against `base`. */
  lemma {:induction false} ResolveJoin(base: Path, d: string, name: string)
    requires Normal(base)
    requires d != [] && d[|d| - 1] != '/'
    ensures Resolve(base, JoinName(d, name)) == Resolve(Resolve(base, d), name)
  {
    if !(|name| > 0 && name[0] == '/') {
      var j := d + "/" + name;
      assert JoinName(d, name) == j;
      assert |j| > 0 && j[0] == d[0];
      SplitSlashAppend(d, name);
      var acc: seq<string> := if d[0] == '/' then [] else base.segs;
      NormalizeAppend(acc, SplitSlash(d), SplitSlash(name));
    }
  }

  /** `../x` names `x` in the parent of the base directory; at the root,
      `..` stays at the root. */
  lemma ResolveParent(base: Path, x: string)
    requires Normal(base)
    requires ProperSegment(x)
    ensures Resolve(base, "../" + x) == Path(Dirname(base).segs + [x])
  {
    SplitParent(x);
    var d := Dirname(base).segs;
    assert Normalize(base.segs, ["..", x]) == Normalize(d, [x]);
    assert [x][1..] == [];
    assert Normalize(d, [x]) == d + [x];
  }

  /** `../x` splits into `..` and `x`. */
  lemma SplitParent(x: string)
    requires forall k :: 0 <= k < |x| ==> x[k] != '/'
    ensures SplitSlash("../" + x) == ["..", x]
  {
    var up := "..";
    assert forall k :: 0 <= k < |up| ==> up[k] != '/';
    assert SplitSlash(up + "/" + x) == [up, x] by {
      SplitTwo(up, x);
    }
    assert "../" + x == up + "/" + x by {
      ParentPrefix(x);
    }
  }

  /** `../` is `..` and a separator. */
  lemma ParentPrefix(x: string)
    ensures "../" + x == ".." + "/" + x
  {
  }

  /** A two-component name splits into its two components. */
  lemma SplitTwo(a: string, b: string)
    requires forall k :: 0 <= k < |a| ==> a[k] != '/'
    requires forall k :: 0 <= k < |b| ==> b[k] != '/'
    ensures SplitSlash(a + "/" + b) == [a, b]
  {
    SplitSlashAppend(a, b);
    SingleComponent(a);
    SingleComponent(b);
  }

  /** A component followed by `..` cancels: `x/../y` resolves like `y`. */
  lemma ResolveCancel(base: Path, x: string, y: string)
    requires Normal(base)
    requires ProperSegment(x)
    requires !(|y| > 0 && y[0] == '/')
    ensures Resolve(base, x + "/../" + y) == Resolve(base, y)
  {
    var ys := SplitSlash(y);
    SplitCancel(x, y);
    NormalizeAppend(base.segs, [x, ".."], ys);
    NormalizeCancel(base.segs, [x, ".."]);
  }

  /** `x/../y` splits into `x`, `..` and the components of `y`. */
  lemma SplitCancel(x: string, y: string)
    requires forall k :: 0 <= k < |x| ==> x[k] != '/'
    ensures SplitSlash(x + "/../" + y) == [x, ".."] + SplitSlash(y)
    ensures |x + "/../" + y| > 0 && (x + "/../" + y)[0] == (if |x| > 0 then x[0] else '/')
  {
    CancelInfix(x, y);
    SplitThree(x, "..", y);
  }

  /** The components of `a/b/y`, for `a` and `b` without separators. */
  lemma SplitThree(a: string, b: string, y: string)
    requires forall k :: 0 <= k < |a| ==> a[k] != '/'
    requires forall k :: 0 <= k < |b| ==> b[k] != '/'
    ensures SplitSlash(a + "/" + (b + "/" + y)) == [a, b] + SplitSlash(y)
  {
    var tail := b + "/" + y;
    assert SplitSlash(a + "/" + tail) == SplitSlash(a) + SplitSlash(tail) by {
      SplitSlashAppend(a, tail);
    }
    assert SplitSlash(tail) == SplitSlash(b) + SplitSlash(y) by {
      SplitSlashAppend(b, y);
    }
    SingleComponent(a);
    SingleComponent(b);
  }

  /** `/../` is a separator, `..` and a separator. */
  lemma CancelInfix(x: string, y: string)
    ensures x + "/../" + y == x + "/" + (".." + "/" + y)
    ensures |x + "/../" + y| > 0 && (x + "/../" + y)[0] == (if |x| > 0 then x[0] else '/')
  {
  }

  /** A proper component followed by `..` gives back the list. */
  lemma NormalizeCancel(acc: seq<string>, parts: seq<string>)
    requires forall k :: 0 <= k < |acc| ==> ProperSegment(acc[k])
    requires forall k, j :: 0 <= k < |parts| && 0 <= j < |parts[k]| ==> parts[k][j] != '/'
    requires |parts| == 2 && ProperSegment(parts[0]) && parts[1] == ".."
    ensures Normalize(acc, parts) == acc
  {
    NormalizeKeep(acc, parts);
    NormalizeParent(acc + [parts[0]], parts[1..]);
    assert parts[1..][1..] == [];
    assert (acc + [parts[0]])[..|acc|] == acc;
  }

  /** One step of `Normalize` over a proper component: it is kept. */
  lemma NormalizeKeep(acc: seq<string>, parts: seq<string>)
    requires forall k :: 0 <= k < |acc| ==> ProperSegment(acc[k])
    requires forall k, j :: 0 <= k < |parts| && 0 <= j < |parts[k]| ==> parts[k][j] != '/'
    requires |parts| > 0 && ProperSegment(parts[0])
    ensures Normalize(acc, parts) == Normalize(acc + [parts[0]], parts[1..])
  {
  }

  /** One step of `Normalize` over `..`: the last kept component goes. */
  lemma NormalizeParent(acc: seq<string>, parts: seq<string>)
    requires forall k :: 0 <= k < |acc| ==> ProperSegment(acc[k])
    requires forall k, j :: 0 <= k < |parts| && 0 <= j < |parts[k]| ==> parts[k][j] != '/'
    requires |parts| > 0 && parts[0] == ".."
    ensures Normalize(acc, parts) == Normalize(if |acc| == 0 then acc else acc[..|acc| - 1], parts[1..])
  {
  }

  /** An absolute name ignores the base directory. */
  lemma ResolveAbsolute(base: Path, x: string)
    requires Normal(base)
    requires ProperSegment(x)
    ensures Resolve(base, "/" + x) == Path([x])
  {
    var name := "/" + x;
    assert name == "" + "/" + x;
    SplitSlashAppend("", x);
    SingleComponent("");
    SingleComponent(x);
    assert SplitSlash(name) == ["", x];
  }

  /** A string without `/` splits into itself. */
  lemma SingleComponent(x: string)
    requires forall k :: 0 <= k < |x| ==> x[k] != '/'
    ensures SplitSlash(x) == [x]
  {
    IndexFromUnique(x, 0, '/', None);
  }

  /** Looking a name up under `.` is looking it up directly. */
  lemma ResolveDot(base: Path, name: string)
    requires Normal(base)
    ensures Resolve(base, JoinName(".", name)) == Resolve(base, name)
  {
    ResolveJoin(base, ".", name);
    IndexFromUnique(".", 0, '/', None);
    assert SplitSlash(".") == ["."];
    assert ["."][1..] == [];
    assert Resolve(base, ".") == base;
  }
}
