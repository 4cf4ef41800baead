/** The name of a test type (sdcm/microbenchmarking.py, lines 148-149): the
    result directory, an underscore, and the result file's name with its
    spaces removed and its extension split off the way Python's
    `os.path.splitext` does. */
module Naming {

  /** `s` with every space removed, the other characters kept in order. */
  function RemoveSpaces(s: string): (r: string)
    ensures |r| <= |s|
    ensures forall i :: 0 <= i < |r| ==> r[i] != ' '
    ensures forall c :: multiset(r)[c] == if c == ' ' then 0 else multiset(s)[c]
  {
    if s == [] then []
    else
      var rest := RemoveSpaces(s[..|s| - 1]);
      assert s == s[..|s| - 1] + [s[|s| - 1]];
      if s[|s| - 1] == ' ' then rest else rest + [s[|s| - 1]]
  }

  /** Removing spaces works character by character: it distributes over
      concatenation. */
  lemma {:induction false} RemoveSpacesConcat(x: string, y: string)
    ensures RemoveSpaces(x + y) == RemoveSpaces(x) + RemoveSpaces(y)
    decreases |y|
  {
    if y == [] {
      assert x + y == x;
    } else {
      var y' := y[..|y| - 1];
      assert (x + y)[..|x + y| - 1] == x + y';
      RemoveSpacesConcat(x, y');
    }
  }

  /** A name without spaces is left as it is. */
  lemma {:induction false} RemoveSpacesNoSpaces(s: string)
    requires forall i :: 0 <= i < |s| ==> s[i] != ' '
    ensures RemoveSpaces(s) == s
  {
    if s != [] {
      RemoveSpacesNoSpaces(s[..|s| - 1]);
    }
  }

  /** The position of the last `c` in `s`, or -1 when there is none. */
  function LastIndexOf(s: string, c: char): (k: int)
    ensures -1 <= k < |s|
    ensures k >= 0 ==> s[k] == c
    ensures forall j :: k < j < |s| ==> s[j] != c
  {
    if s == [] then -1
    else if s[|s| - 1] == c then |s| - 1
    else LastIndexOf(s[..|s| - 1], c)
  }

  /** Some character of `p` strictly between `lo` and `hi` is not a dot. */
  predicate HasNonDot(p: string, lo: int, hi: int)
    requires -1 <= lo && hi <= |p|
  {
    exists i :: lo < i < hi && p[i] != '.'
  }

  /** The first half of `os.path.splitext`: `p` cut at its last dot, unless
      that dot is part of the directory part or every character of the file
      name before it is a dot (a hidden file such as `.bashrc` keeps its
      whole name). */
  function SplitExtRoot(p: string): (root: string)
    ensures root <= p
    ensures root != p ==> p[|root|] == '.' && HasNonDot(p, LastIndexOf(p, '/'), |root|)
    ensures root != p ==> forall j :: |root| < j < |p| ==> p[j] != '.' && p[j] != '/'
  {
    var sep := LastIndexOf(p, '/');
    var dot := LastIndexOf(p, '.');
    if dot > sep && HasNonDot(p, sep, dot) then p[..dot] else p
  }

  /** The partner of `SplitExtRoot`: a file name that has a non-dot
      character and an extension without dots gets that extension split
      off, and nothing else. */
  lemma SplitExtRootOfExtension(base: string, ext: string)
    requires forall i :: 0 <= i < |base| ==> base[i] != '/'
    requires exists i :: 0 <= i < |base| && base[i] != '.'
    requires forall i :: 0 <= i < |ext| ==> ext[i] != '.' && ext[i] != '/'
    ensures SplitExtRoot(base + "." + ext) == base
  {
    var p := base + "." + ext;
    assert forall j :: 0 <= j < |p| ==> p[j] != '/';
    var sep := LastIndexOf(p, '/');
    assert sep == -1;
    assert p[|base|] == '.';
    assert LastIndexOf(p, '.') == |base|;
    var i :| 0 <= i < |base| && base[i] != '.';
    assert p[i] == base[i];
    assert HasNonDot(p, sep, |base|);
    assert p[..|base|] == base;
  }

  /** A name without any dot after its last `/` has no extension. */
  lemma SplitExtRootNoDot(p: string)
    requires forall i :: LastIndexOf(p, '/') < i < |p| ==> p[i] != '.'
    ensures SplitExtRoot(p) == p
  {
  }

  /** A name made of dots alone, such as `..`, is its own root. */
  lemma SplitExtRootOnlyDots(p: string)
    requires forall i :: 0 <= i < |p| ==> p[i] == '.'
    ensures SplitExtRoot(p) == p
  {
  }

  /** The test type of the result file `filename` in directory `dirname`. */
  function TestTypeName(dirname: string, filename: string): (t: string)
    ensures dirname + "_" <= t
    ensures |t| <= |dirname| + 1 + |filename|
    ensures forall i :: |dirname| < i < |t| ==> t[i] != ' '
  {
    dirname + "_" + SplitExtRoot(RemoveSpaces(filename))
  }

  /** A result file named `base.ext`, with an extension free of dots and
      slashes, belongs to the test type `dirname_base'`, where `base'` is
      `base` with its spaces removed. Spaces go before the split, so they may
      appear anywhere, the extension included. */
  lemma TestTypeNameOf(dirname: string, base: string, ext: string)
    requires forall i :: 0 <= i < |base| ==> base[i] != '/'
    requires exists i :: 0 <= i < |base| && base[i] != '.' && base[i] != ' '
    requires forall i :: 0 <= i < |ext| ==> ext[i] != '.' && ext[i] != '/'
    ensures TestTypeName(dirname, base + "." + ext) == dirname + "_" + RemoveSpaces(base)
  {
    RemoveSpacesConcat(base + ".", ext);
    RemoveSpacesConcat(base, ".");
    RemoveSpacesNoSpaces(".");
    var e := RemoveSpaces(ext);
    assert '.' !in multiset(ext) && '/' !in multiset(ext);
    forall j | 0 <= j < |e|
      ensures e[j] != '.' && e[j] != '/'
    {
      assert e[j] in multiset(e);
    }
    var b := RemoveSpaces(base);
    var i :| 0 <= i < |base| && base[i] != '.' && base[i] != ' ';
    assert multiset(b)[base[i]] == multiset(base)[base[i]] > 0 by {
      assert base[i] in multiset(base);
    }
    assert base[i] in b;
    var k :| 0 <= k < |b| && b[k] == base[i];
    assert '/' !in multiset(base);
    forall j | 0 <= j < |b|
      ensures b[j] != '/'
    {
      assert b[j] in multiset(b);
    }
    SplitExtRootOfExtension(b, e);
  }
}
