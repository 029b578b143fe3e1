/**
 * The three `os.path` functions the scanner relies on, for POSIX paths
 * (separator '/', extension separator '.'): `splitext`, `basename` and `join`.
 */
module PosixPath {
  import opened TextOps

  /**
   * `os.path.splitext(p)[1]`: from the last '.' of the last path component to
   * the end, provided that component has a character other than '.' before
   * that dot (leading dots, as in ".mkv", do not start an extension); "" when
   * there is no such dot.
   */
  function Ext(p: string): (e: string)
    ensures |e| <= |p| && e == p[|p| - |e|..]
    ensures e == "" || e[0] == '.'
    ensures forall k :: 0 <= k < |e| ==> e[k] != '/'
    ensures forall k :: 0 < k < |e| ==> e[k] != '.'
  {
    var sep := LastIndex(p, '/');
    var dot := LastIndex(p, '.');
    if sep < dot && NonDotBetween(p, sep, dot) then p[dot..] else ""
  }

  /**
   * What `splitext` promises: the extension is non-empty exactly when the
   * last component has a '.' with some character other than '.' before it in
   * that component, and it then runs from the last dot to the end of the path.
   */
  lemma ExtStartsAtLastDot(p: string)
    ensures Ext(p) != "" <==>
            exists j, k :: 0 <= j < k < |p| && p[k] == '.' && p[j] != '.' && HasNoSeparator(p[j..])
    ensures Ext(p) != "" ==> Ext(p) == p[LastIndex(p, '.')..]
  {
    if Ext(p) != "" {
      ExtHasDotAfterNonDot(p);
    }
    forall j, k | 0 <= j < k < |p| && p[k] == '.' && p[j] != '.' && HasNoSeparator(p[j..])
      ensures Ext(p) != ""
    {
      DotAfterNonDotGivesExt(p, j, k);
    }
  }

  /** A non-empty extension starts at a dot with a non-dot before it in the last component. */
  lemma ExtHasDotAfterNonDot(p: string)
    requires Ext(p) != ""
    ensures exists j, k :: 0 <= j < k < |p| && p[k] == '.' && p[j] != '.' && HasNoSeparator(p[j..])
  {
    var sep, dot := LastIndex(p, '/'), LastIndex(p, '.');
    var j :| sep < j < dot && p[j] != '.';
    assert HasNoSeparator(p[j..]) by {
      forall m | 0 <= m < |p[j..]| ensures p[j..][m] != '/' {
        assert p[j..][m] == p[j + m];
      }
    }
    assert 0 <= j < dot < |p| && p[dot] == '.';
  }

  /** A dot with a non-dot before it in the last component starts an extension. */
  lemma DotAfterNonDotGivesExt(p: string, j: int, k: int)
    requires 0 <= j < k < |p| && p[k] == '.' && p[j] != '.' && HasNoSeparator(p[j..])
    ensures Ext(p) != ""
  {
    var sep, dot := LastIndex(p, '/'), LastIndex(p, '.');
    assert k <= dot;
    assert sep < j < dot && NonDotBetween(p, sep, dot);
  }

  /** `splitext` keeps the letter case of the extension: "a.MKV" gives ".MKV". */
  lemma ExtKeepsCase()
    ensures Ext("a.MKV") == ".MKV"
  {
    var p := "a.MKV";
    assert p[0] == 'a' && p[1] == '.' && p[2] == 'M' && p[3] == 'K' && p[4] == 'V';
    assert LastIndex(p, '.') == 1;
    assert LastIndex(p, '/') == -1;
    assert NonDotBetween(p, -1, 1);
    assert p[1..] == ".MKV";
  }

  /** Only the last dot starts the extension: "a.b.mkv" gives ".mkv". */
  lemma ExtFromLastDot()
    ensures Ext("a.b.mkv") == ".mkv"
  {
    var p := "a.b.mkv";
    assert p[0] == 'a' && p[1] == '.' && p[2] == 'b' && p[3] == '.';
    assert p[4] == 'm' && p[5] == 'k' && p[6] == 'v';
    assert LastIndex(p, '.') == 3;
    assert LastIndex(p, '/') == -1;
    assert NonDotBetween(p, -1, 3);
    assert p[3..] == ".mkv";
  }

  /** Leading dots start no extension: ".mkv" and "..mkv" have none. */
  lemma ExtOfLeadingDots()
    ensures Ext(".mkv") == ""
    ensures Ext("..mkv") == ""
  {
    var p, q := ".mkv", "..mkv";
    assert p[0] == '.' && p[1] == 'm' && p[2] == 'k' && p[3] == 'v';
    assert LastIndex(p, '.') == 0;
    assert !NonDotBetween(p, LastIndex(p, '/'), 0);
    assert q[0] == '.' && q[1] == '.' && q[2] == 'm' && q[3] == 'k' && q[4] == 'v';
    assert LastIndex(q, '.') == 1;
    assert LastIndex(q, '/') == -1;
    assert !NonDotBetween(q, -1, 1);
  }

  /** A dot in a directory name is no extension: "a.b/c" has none. */
  lemma ExtNotInDirectory()
    ensures Ext("a.b/c") == ""
  {
    var p := "a.b/c";
    assert p[0] == 'a' && p[1] == '.' && p[2] == 'b' && p[3] == '/' && p[4] == 'c';
    assert LastIndex(p, '.') == 1;
    assert LastIndex(p, '/') == 3;
  }

  /** A trailing dot is an extension of its own: "a." gives ".". */
  lemma ExtOfTrailingDot()
    ensures Ext("a.") == "."
  {
    var p := "a.";
    assert p[0] == 'a' && p[1] == '.';
    assert LastIndex(p, '.') == 1;
    assert LastIndex(p, '/') == -1;
    assert NonDotBetween(p, -1, 1);
    assert p[1..] == ".";
  }

  /** Some character strictly between indices `lo` and `hi` of `p` is not '.'. */
  predicate NonDotBetween(p: string, lo: int, hi: int)
    requires -1 <= lo && hi <= |p|
  {
    exists k | lo < k < hi :: p[k] != '.'
  }

  lemma NonDotBetweenShift(pre: string, name: string, lo: int, hi: int)
    requires -1 <= lo && hi <= |name|
    ensures NonDotBetween(pre + name, |pre| + lo, |pre| + hi) == NonDotBetween(name, lo, hi)
  {
    var p := pre + name;
    if NonDotBetween(p, |pre| + lo, |pre| + hi) {
      var k :| |pre| + lo < k < |pre| + hi && p[k] != '.';
      assert name[k - |pre|] != '.';
    }
    if NonDotBetween(name, lo, hi) {
      var k :| lo < k < hi && name[k] != '.';
      assert p[|pre| + k] != '.';
    }
  }

  /**
   * `b` is the last component of `p`: it has no '/', and `p` ends with it,
   * right after a '/' or as the whole of `p`.
   */
  predicate LastComponent(p: string, b: string) {
    && HasNoSeparator(b)
    && |b| <= |p| && b == p[|p| - |b|..]
    && (|b| < |p| ==> p[|p| - |b| - 1] == '/')
  }

  /** `os.path.basename(p)`: everything after the last '/'. */
  function Basename(p: string): (b: string)
    ensures LastComponent(p, b)
  {
    p[LastIndex(p, '/') + 1..]
  }

  /** `os.path.join(a, b)` for two components. */
  function Join(a: string, b: string): (r: string)
    ensures |b| <= |r| && r[|r| - |b|..] == b
    ensures (b == [] || b[0] != '/') ==> |a| <= |r| && r[..|a|] == a
  {
    if |b| > 0 && b[0] == '/' then b
    else if a == [] || a[|a| - 1] == '/' then a + b
    else a + "/" + b
  }

  predicate HasNoSeparator(name: string) {
    forall k :: 0 <= k < |name| ==> name[k] != '/'
  }

  /** The last `c` of `a + b` is the last one of `b`, or else the last one of `a`. */
  lemma LastIndexAppend(a: string, b: string, c: char)
    ensures LastIndex(a + b, c) ==
            if LastIndex(b, c) >= 0 then |a| + LastIndex(b, c) else LastIndex(a, c)
  {
    var k, kb, ka := LastIndex(a + b, c), LastIndex(b, c), LastIndex(a, c);
    if kb >= 0 {
      assert (a + b)[|a| + kb] == c;
    } else {
      if ka >= 0 {
        assert (a + b)[ka] == c;
      }
      if k >= 0 {
        assert (a + b)[k] == c;
      }
    }
  }

  /** A name joined under a directory is found again by `basename`. */
  lemma BasenameOfJoin(root: string, name: string)
    requires HasNoSeparator(name)
    ensures Basename(Join(root, name)) == name
  {
    var pre := if root == [] || root[|root| - 1] == '/' then root else root + "/";
    assert Join(root, name) == pre + name;
    assert LastIndex(name, '/') == -1;
    assert LastIndex(pre, '/') == |pre| - 1;
    LastIndexAppend(pre, name, '/');
    assert (pre + name)[|pre|..] == name;
  }

  /** Joining a name under a directory does not change its extension. */
  lemma ExtOfJoin(root: string, name: string)
    requires HasNoSeparator(name)
    ensures Ext(Join(root, name)) == Ext(name)
  {
    var pre := if root == [] || root[|root| - 1] == '/' then root else root + "/";
    assert Join(root, name) == pre + name;
    ExtAfterSeparator(pre, name);
  }

  /** The extension of a path whose last component is `name` is that of `name`. */
  lemma ExtAfterSeparator(pre: string, name: string)
    requires pre == [] || pre[|pre| - 1] == '/'
    requires HasNoSeparator(name)
    ensures Ext(pre + name) == Ext(name)
  {
    assert LastIndex(name, '/') == -1;
    assert LastIndex(pre + name, '/') == |pre| - 1 by {
      LastIndexAppend(pre, name, '/');
    }
    if LastIndex(name, '.') >= 0 {
      ExtAfterSeparatorDot(pre, name);
    } else {
      assert LastIndex(pre + name, '.') < |pre| by {
        LastIndexAppend(pre, name, '.');
      }
      assert Ext(pre + name) == "";
    }
  }

  /** `ExtAfterSeparator` when `name` has a '.': both extensions start at that dot. */
  lemma ExtAfterSeparatorDot(pre: string, name: string)
    requires LastIndex(pre + name, '/') == |pre| - 1
    requires LastIndex(name, '/') == -1 && LastIndex(name, '.') >= 0
    ensures Ext(pre + name) == Ext(name)
  {
    var p, d := pre + name, LastIndex(name, '.');
    assert LastIndex(p, '.') == |pre| + d by {
      LastIndexAppend(pre, name, '.');
    }
    assert NonDotBetween(p, |pre| - 1, |pre| + d) == NonDotBetween(name, -1, d) by {
      NonDotBetweenShift(pre, name, -1, d);
    }
    assert p[|pre| + d..] == name[d..];
    assert Ext(p) == if NonDotBetween(name, -1, d) then name[d..] else "";
  }

  /** Lower-casing a path lower-cases its extension and nothing else about it. */
  lemma ExtOfLower(p: string)
    ensures Ext(Lower(p)) == Lower(Ext(p))
  {
    var q := Lower(p);
    var sep, dot := LastIndex(p, '/'), LastIndex(p, '.');
    assert LastIndex(q, '/') == sep by {
      LastIndexOfLower(p, '/');
    }
    assert LastIndex(q, '.') == dot by {
      LastIndexOfLower(p, '.');
    }
    if sep < dot {
      assert NonDotBetween(q, sep, dot) == NonDotBetween(p, sep, dot) by {
        NonDotBetweenLower(p, sep, dot);
      }
      assert q[dot..] == Lower(p[dot..]) by {
        LowerSuffix(p, dot);
      }
    }
  }

  /** Lower-casing turns no character into '.' and no '.' into anything else. */
  lemma NonDotBetweenLower(p: string, lo: int, hi: int)
    requires -1 <= lo && hi <= |p|
    ensures NonDotBetween(Lower(p), lo, hi) == NonDotBetween(p, lo, hi)
  {
    var q := Lower(p);
    if NonDotBetween(q, lo, hi) {
      var k :| lo < k < hi && q[k] != '.';
      assert p[k] != '.';
    }
    if NonDotBetween(p, lo, hi) {
      var k :| lo < k < hi && p[k] != '.';
      assert q[k] == LowerChar(p[k]);
    }
  }

  /** Lower-casing keeps the position of '/' and '.'. */
  lemma LastIndexOfLower(p: string, c: char)
    requires c == '/' || c == '.'
    ensures LastIndex(Lower(p), c) == LastIndex(p, c)
  {
    var q := Lower(p);
    var kq, kp := LastIndex(q, c), LastIndex(p, c);
    if kp >= 0 {
      assert q[kp] == c;
    }
    if kq >= 0 {
      assert LowerChar(p[kq]) == c;
      assert p[kq] == c;
    }
  }
}
