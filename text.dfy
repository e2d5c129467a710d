/**
  The string helpers of Python's standard library that the pipeline and the
  upload validator rely on: `str.lower`, `os.path.splitext`,
  `os.path.basename` (POSIX flavour, `/` as the only separator) and
  `str.join`.
 */
module Text {

  predicate IsUpper(c: char) { 'A' <= c <= 'Z' }

  /** `str.lower` on one character, for the ASCII letters. */
  function LowerChar(c: char): (r: char)
    ensures !IsUpper(r)
    ensures IsUpper(c) ==> r as int == c as int + 32
    ensures !IsUpper(c) ==> r == c
  {
    if IsUpper(c) then (c as int + 32) as char else c
  }

  /** `str.lower`: every upper-case ASCII letter replaced by its lower-case form. */
  function Lower(s: string): (r: string)
    ensures |r| == |s|
    ensures forall i :: 0 <= i < |s| ==> r[i] == LowerChar(s[i])
  {
    seq(|s|, i requires 0 <= i < |s| => LowerChar(s[i]))
  }

  /** Lower-casing twice is lower-casing once. */
  lemma LowerIdempotent(s: string)
    ensures Lower(Lower(s)) == Lower(s)
  {
  }

  /** Lower-casing commutes with slicing. */
  lemma LowerSlice(s: string, i: int, j: int)
    requires 0 <= i <= j <= |s|
    ensures Lower(s)[i..j] == Lower(s[i..j])
  {
  }

  /** `str.rfind` for one character: the last index holding `c`, or -1. */
  function LastIndex(s: string, c: char): (k: int)
    ensures -1 <= k < |s|
    ensures k >= 0 ==> s[k] == c
    ensures forall j :: k < j < |s| ==> s[j] != c
    decreases |s|
  {
    if |s| == 0 then -1
    else if s[|s| - 1] == c then |s| - 1
    else LastIndex(s[..|s| - 1], c)
  }

  /** The last index of `c` is the only index satisfying the two conditions of its contract. */
  lemma LastIndexIs(s: string, c: char, k: int)
    requires -1 <= k < |s|
    requires k >= 0 ==> s[k] == c
    requires forall j :: k < j < |s| ==> s[j] != c
    ensures LastIndex(s, c) == k
  {
  }

  /** Lower-casing moves no character that is not a letter. */
  lemma {:induction false} LastIndexLower(s: string, c: char)
    requires !IsUpper(c) && !('a' <= c <= 'z')
    ensures LastIndex(Lower(s), c) == LastIndex(s, c)
  {
    var k := LastIndex(s, c);
    forall j | k < j < |s| ensures Lower(s)[j] != c {
      assert s[j] != c;
    }
    LastIndexIs(Lower(s), c, k);
  }

  /** Some character of `s[lo..hi]` is not a dot. */
  predicate HasNonDot(s: string, lo: int, hi: int) {
    exists k :: lo <= k < hi && 0 <= k < |s| && s[k] != '.'
  }

  /**
    Where `os.path.splitext(path)[1]` starts: the last dot of the last path
    component, or `|path|` when that component has no dot or only leading
    dots before it (".bashrc" has no extension).
   */
  function ExtensionStart(path: string): (i: int)
    ensures 0 <= i <= |path|
    ensures i < |path| ==> path[i] == '.' && LastIndex(path, '/') < i && HasNonDot(path, LastIndex(path, '/') + 1, i)
    ensures forall k :: i < k < |path| ==> path[k] != '.' && path[k] != '/'
    ensures i == |path| ==> forall d :: LastIndex(path, '/') < d < |path| && path[d] == '.' ==>
      !HasNonDot(path, LastIndex(path, '/') + 1, d)
  {
    var sep := LastIndex(path, '/');
    var dot := LastIndex(path, '.');
    if dot > sep && HasNonDot(path, sep + 1, dot) then dot
    else
      NoExtensionDot(path, sep, dot);
      |path|
  }

  /** A non-dot before some position is also before every later position. */
  lemma HasNonDotWiden(s: string, lo: int, hi: int, hi': int)
    requires hi <= hi'
    ensures HasNonDot(s, lo, hi) ==> HasNonDot(s, lo, hi')
  {
  }

  /** When the last dot of the last component has only dots before it, so has every dot of that component. */
  lemma NoExtensionDot(path: string, sep: int, dot: int)
    requires sep == LastIndex(path, '/') && dot == LastIndex(path, '.')
    requires !(dot > sep && HasNonDot(path, sep + 1, dot))
    ensures forall d :: sep < d < |path| && path[d] == '.' ==> !HasNonDot(path, sep + 1, d)
  {
    forall d | sep < d < |path| && path[d] == '.' ensures !HasNonDot(path, sep + 1, d) {
      assert d <= dot;
      HasNonDotWiden(path, sep + 1, d, dot);
    }
  }

  /** `os.path.splitext(path)[1]`: the suffix of `path` from `ExtensionStart(path)`. */
  function Extension(path: string): (ext: string)
    ensures |ext| <= |path| && ext == path[|path| - |ext|..]
    ensures ext != [] ==> ext[0] == '.'
    ensures forall k :: 0 < k < |ext| ==> ext[k] != '.' && ext[k] != '/'
  {
    path[ExtensionStart(path)..]
  }

  /** A dot followed by characters that are neither dots nor separators: the shape of every non-empty extension. */
  predicate Dotted(e: string) {
    |e| >= 1 && e[0] == '.' && forall k :: 0 < k < |e| ==> e[k] != '.' && e[k] != '/'
  }

  /** A string whose lower-cased form is dotted is dotted itself. */
  lemma DottedLower(e: string)
    requires Dotted(Lower(e))
    ensures Dotted(e)
  {
    forall k | 0 < k < |e| ensures e[k] != '.' && e[k] != '/' {
      assert Lower(e)[k] == LowerChar(e[k]);
    }
  }

  /** Appending a dotted suffix to a name that has a non-dot character in its last component makes that suffix the extension. */
  lemma ExtensionOfName(stem: string, ext: string)
    requires |ext| >= 1 && ext[0] == '.'
    requires forall k :: 0 < k < |ext| ==> ext[k] != '.' && ext[k] != '/'
    requires HasNonDot(stem, LastIndex(stem, '/') + 1, |stem|)
    ensures Extension(stem + ext) == ext
  {
    ExtensionStartOfName(stem, ext);
    assert (stem + ext)[|stem|..] == ext;
  }

  /** The extension of such a name starts where the suffix does. */
  lemma ExtensionStartOfName(stem: string, ext: string)
    requires |ext| >= 1 && ext[0] == '.'
    requires forall k :: 0 < k < |ext| ==> ext[k] != '.' && ext[k] != '/'
    requires HasNonDot(stem, LastIndex(stem, '/') + 1, |stem|)
    ensures ExtensionStart(stem + ext) == |stem|
  {
    var p := stem + ext;
    var sep := LastIndex(stem, '/');
    assert LastIndex(p, '/') == sep by {
      LastIndexAppendWithout(stem, ext, '/');
    }
    assert LastIndex(p, '.') == |stem| by {
      LastIndexAppendAt(stem, ext, '.');
    }
    assert HasNonDot(p, sep + 1, |stem|) by {
      var k :| sep + 1 <= k < |stem| && 0 <= k < |stem| && stem[k] != '.';
      assert p[k] == stem[k];
    }
    assert ExtensionStart(p) == |stem| by {
      ExtensionStartAt(p, sep, |stem|);
    }
  }

  /** With its last separator at `sep` and its last dot at `dot` after a non-dot, the extension of `path` starts at `dot`. */
  lemma ExtensionStartAt(path: string, sep: int, dot: int)
    requires sep == LastIndex(path, '/') && dot == LastIndex(path, '.')
    requires sep < dot && HasNonDot(path, sep + 1, dot)
    ensures ExtensionStart(path) == dot
  {
  }

  /** Appending a string without `c` does not move the last `c`. */
  lemma LastIndexAppendWithout(a: string, b: string, c: char)
    requires forall k :: 0 <= k < |b| ==> b[k] != c
    ensures LastIndex(a + b, c) == LastIndex(a, c)
  {
    var p := a + b;
    var i := LastIndex(a, c);
    forall j | i < j < |p| ensures p[j] != c {
      if j < |a| { assert p[j] == a[j]; } else { assert p[j] == b[j - |a|]; }
    }
    LastIndexIs(p, c, i);
  }

  /** Appending a string that starts with its only `c` puts the last `c` at the join. */
  lemma LastIndexAppendAt(a: string, b: string, c: char)
    requires |b| >= 1 && b[0] == c
    requires forall k :: 0 < k < |b| ==> b[k] != c
    ensures LastIndex(a + b, c) == |a|
  {
    var p := a + b;
    forall j | |a| < j < |p| ensures p[j] != c {
      assert p[j] == b[j - |a|];
    }
    LastIndexIs(p, c, |a|);
  }

  /** Lower-casing turns no dot into a non-dot and no non-dot into a dot. */
  lemma HasNonDotLower(s: string, lo: int, hi: int)
    ensures HasNonDot(Lower(s), lo, hi) == HasNonDot(s, lo, hi)
  {
    if HasNonDot(s, lo, hi) {
      var k :| lo <= k < hi && 0 <= k < |s| && s[k] != '.';
      assert Lower(s)[k] != '.';
    }
  }

  /** Lower-casing moves neither the last separator nor the last dot, so the extension starts at the same place. */
  lemma ExtensionStartLower(path: string)
    ensures ExtensionStart(Lower(path)) == ExtensionStart(path)
  {
    LastIndexLower(path, '/');
    LastIndexLower(path, '.');
    var sep := LastIndex(path, '/');
    var dot := LastIndex(path, '.');
    HasNonDotLower(path, sep + 1, dot);
  }

  /** Taking the extension commutes with lower-casing, so a case-insensitive extension test may lower-case either the name or the extension. */
  lemma ExtensionLower(path: string)
    ensures Extension(Lower(path)) == Lower(Extension(path))
  {
    ExtensionStartLower(path);
    LowerSlice(path, ExtensionStart(path), |path|);
  }

  /** A last component with no dot has no extension. */
  lemma ExtensionNoDot(path: string)
    requires forall k :: LastIndex(path, '/') < k < |path| ==> path[k] != '.'
    ensures Extension(path) == ""
  {
  }

  /** A last component whose dots before its last dot are all leading dots has no extension: `.bashrc`, `..x`. */
  lemma ExtensionOnlyLeadingDots(path: string)
    requires forall k :: LastIndex(path, '/') < k < LastIndex(path, '.') ==> path[k] == '.'
    ensures Extension(path) == ""
  {
    var i := ExtensionStart(path);
    assert i < |path| ==> i <= LastIndex(path, '.');
    assert i < |path| ==> !HasNonDot(path, LastIndex(path, '/') + 1, i);
    assert Extension(path) == path[|path|..];
  }

  /** A name that is nothing but a dotted suffix, such as `.pdf`, has no extension: its dot is a leading one. */
  lemma DottedHasNoExtension(e: string)
    requires Dotted(e)
    ensures Extension(e) == ""
  {
    LastIndexIs(e, '/', -1);
    LastIndexIs(e, '.', 0);
    ExtensionOnlyLeadingDots(e);
  }

  /** A hidden file such as `.bashrc` has no extension, in the current directory or below another one. */
  lemma DotfileHasNoExtension(dir: string)
    ensures Extension(".bashrc") == ""
    ensures Extension(dir + "/.bashrc") == ""
  {
    LastIndexIs(".bashrc", '/', -1);
    LastIndexIs(".bashrc", '.', 0);
    ExtensionOnlyLeadingDots(".bashrc");
    var p := dir + "/.bashrc";
    assert p == dir + ("/" + ".bashrc");
    LastIndexAppendAt(dir, "/" + ".bashrc", '/');
    assert p == (dir + "/") + ".bashrc";
    LastIndexAppendAt(dir + "/", ".bashrc", '.');
    ExtensionOnlyLeadingDots(p);
  }

  /** `os.path.basename`: everything after the last `/`. */
  function Basename(path: string): (name: string)
    ensures |name| <= |path| && name == path[|path| - |name|..]
    ensures forall k :: 0 <= k < |name| ==> name[k] != '/'
  {
    path[LastIndex(path, '/') + 1..]
  }

  /** The base name is the whole path, or it follows a `/`: no longer suffix free of `/` exists. */
  lemma BasenameFollowsSlash(path: string)
    ensures |Basename(path)| < |path| ==> path[|path| - |Basename(path)| - 1] == '/'
  {
  }

  /** A path with no `/` is its own base name. */
  lemma BasenameNoSlash(path: string)
    requires forall k :: 0 <= k < |path| ==> path[k] != '/'
    ensures Basename(path) == path
  {
    LastIndexIs(path, '/', -1);
  }

  /** The base name of `dir/name` is `name`. */
  lemma BasenameOfJoin(dir: string, name: string)
    requires forall k :: 0 <= k < |name| ==> name[k] != '/'
    ensures Basename(dir + "/" + name) == name
  {
    var p := dir + "/" + name;
    assert p == dir + ("/" + name);
    LastIndexAppendAt(dir, "/" + name, '/');
    assert p[|dir| + 1..] == name;
  }

  /** `sep.join(parts)`. */
  function Join(parts: seq<string>, sep: string): string
    decreases |parts|
  {
    if |parts| == 0 then ""
    else if |parts| == 1 then parts[0]
    else parts[0] + sep + Join(parts[1..], sep)
  }

  /** Where the `k`-th part starts in `Join(parts, sep)`: the lengths of the earlier parts, each followed by a separator. */
  function Offset(parts: seq<string>, sep: string, k: nat): nat
    requires k <= |parts|
    decreases k
  {
    if k == 0 then 0 else |parts[0]| + |sep| + Offset(parts[1..], sep, k - 1)
  }

  /** A slice of the right operand of a concatenation, addressed in the concatenation. */
  lemma SliceOfAppend(a: string, b: string, i: int, j: int)
    requires 0 <= i <= j <= |b|
    ensures (a + b)[|a| + i..|a| + j] == b[i..j]
  {
  }

  /** Joining at least two parts puts the first part and a separator before the join of the rest. */
  lemma JoinCons(parts: seq<string>, sep: string)
    requires |parts| >= 2
    ensures Join(parts, sep) == (parts[0] + sep) + Join(parts[1..], sep)
  {
  }

  /** The joined string holds part `k` at `Offset(parts, sep, k)`, in the order of `parts`. */
  lemma {:induction false} JoinAt(parts: seq<string>, sep: string, k: nat)
    requires k < |parts|
    ensures Offset(parts, sep, k) + |parts[k]| <= |Join(parts, sep)|
    ensures Join(parts, sep)[Offset(parts, sep, k)..Offset(parts, sep, k) + |parts[k]|] == parts[k]
  {
    if |parts| == 1 {
    } else {
      JoinCons(parts, sep);
      if k == 0 {
        assert Join(parts, sep)[..|parts[0]|] == parts[0];
      } else {
        var rest := parts[1..];
        JoinAt(rest, sep, k - 1);
        var o := Offset(rest, sep, k - 1);
        assert rest[k - 1] == parts[k];
        SliceOfAppend(parts[0] + sep, Join(rest, sep), o, o + |parts[k]|);
      }
    }
  }

  /** A separator follows every part but the last. */
  lemma {:induction false} JoinSeparatorAfter(parts: seq<string>, sep: string, k: nat)
    requires k + 1 < |parts|
    ensures var e := Offset(parts, sep, k) + |parts[k]|;
      e + |sep| == Offset(parts, sep, k + 1) <= |Join(parts, sep)| && Join(parts, sep)[e..e + |sep|] == sep
  {
    JoinCons(parts, sep);
    var rest := parts[1..];
    var h := |parts[0]| + |sep|;
    assert |Join(parts, sep)| == h + |Join(rest, sep)|;
    assert Offset(parts, sep, k + 1) == h + Offset(rest, sep, k);
    if k == 0 {
      assert Join(parts, sep)[|parts[0]|..h] == sep;
      assert Offset(rest, sep, 0) == 0;
    } else {
      JoinSeparatorAfter(rest, sep, k - 1);
      var e := Offset(rest, sep, k - 1) + |rest[k - 1]|;
      assert rest[k - 1] == parts[k];
      assert Offset(parts, sep, k) == h + Offset(rest, sep, k - 1);
      SliceOfAppend(parts[0] + sep, Join(rest, sep), e, e + |sep|);
    }
  }

  /** The last part ends the joined string. */
  lemma {:induction false} JoinLastEnds(parts: seq<string>, sep: string)
    requires |parts| >= 1
    ensures Offset(parts, sep, |parts| - 1) + |parts[|parts| - 1]| == |Join(parts, sep)|
    decreases |parts|
  {
    if |parts| >= 2 {
      var rest := parts[1..];
      JoinCons(parts, sep);
      JoinLastEnds(rest, sep);
      assert rest[|rest| - 1] == parts[|parts| - 1];
    }
  }
}
