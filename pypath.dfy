/** The parts of Python's `os.path` (POSIX flavour) that the core relies on:
    `splitext`, `join` with two arguments and `basename`. */
module PyPath {
  import opened PyStr

  /** `s.rfind(c)`: the index of the last occurrence of `c` in `s`, or -1. */
  function RFind(s: string, c: char): (r: int)
    ensures -1 <= r < |s|
    ensures r >= 0 ==> s[r] == c
    ensures forall k :: r < k < |s| ==> s[k] != c
  {
    if s == [] then -1
    else if s[|s| - 1] == c then |s| - 1
    else RFind(s[..|s| - 1], c)
  }

  /** The last occurrence in `a + b` lies in `b` when `b` holds one. */
  lemma RFindConcat(a: string, b: string, c: char)
    ensures RFind(a + b, c) == if RFind(b, c) >= 0 then |a| + RFind(b, c) else RFind(a, c)
  {
    var r := RFind(a + b, c);
    if RFind(b, c) >= 0 {
      assert (a + b)[|a| + RFind(b, c)] == c;
    } else {
      if RFind(a, c) >= 0 {
        assert (a + b)[RFind(a, c)] == c;
      }
      assert r >= 0 ==> a[r] == c;
    }
  }

  /** Every character of `s` is a dot. */
  predicate OnlyDots(s: string) {
    forall k :: 0 <= k < |s| ==> s[k] == '.'
  }

  /** Every character of `s` differs from `c`. */
  predicate Free(s: string, c: char) {
    forall k :: 0 <= k < |s| ==> s[k] != c
  }

  /** A string without `c` has no last `c`. */
  lemma RFindFree(s: string, c: char)
    requires Free(s, c)
    ensures RFind(s, c) == -1
  {
  }

  /** `os.path.basename(p)`: what follows the last `/`. */
  function Basename(p: string): (r: string)
    ensures |r| <= |p| && r == p[|p| - |r|..]
    ensures |r| == |p| - RFind(p, '/') - 1
    ensures Free(r, '/')
  {
    p[RFind(p, '/') + 1..]
  }

  /** The extension of a final path component `n`: the text from its last
      `.`, unless every character before that `.` is itself a `.` (a leading
      dot, as in `.bashrc`, starts no extension). */
  function NameExt(n: string): (r: string)
    ensures |r| <= |n| && r == n[|n| - |r|..]
    ensures r == [] || (r[0] == '.' && Free(r[1..], '.'))
  {
    var dot := RFind(n, '.');
    if dot >= 0 && !OnlyDots(n[..dot]) then n[dot..] else []
  }

  /** `os.path.splitext(p)[1]`: the extension of the final component of `p`;
      a dot in a directory name never starts one. */
  function Ext(p: string): (r: string)
    ensures |r| <= |p|
    ensures r == [] || r[0] == '.'
  {
    NameExt(Basename(p))
  }

  /** An extension is empty, or a suffix of the path that starts with its
      only dot and holds no `/`; a path with no dot has none. */
  lemma ExtShape(p: string)
    ensures var r := Ext(p);
      (r == [] || (r[0] == '.' && Free(r[1..], '.') && Free(r, '/')))
      && |r| <= |p| && r == p[|p| - |r|..]
    ensures Free(p, '.') ==> Ext(p) == []
  {
    var n := Basename(p);
    var dot := RFind(n, '.');
    if dot >= 0 && !OnlyDots(n[..dot]) {
      var r := n[dot..];
      assert forall k :: 0 <= k < |r| ==> r[k] == n[dot + k];
      assert r == p[|p| - |r|..];
    }
    if Free(p, '.') {
      assert Free(n, '.') by {
        assert forall k :: 0 <= k < |n| ==> n[k] == p[|p| - |n| + k];
      }
      RFindFree(n, '.');
    }
  }

  /** A file named `stem.e` has extension `.e` when `stem` is not made of
      dots alone (`v1.` and `notes.` qualify, `..` does not) and neither
      `stem` nor `e` holds a `/`, nor `e` a dot. */
  lemma ExtOfNamedFile(stem: string, e: string)
    requires !OnlyDots(stem) && Free(stem, '/')
    requires Free(e, '.') && Free(e, '/')
    ensures Ext(stem + "." + e) == "." + e
  {
    var p := stem + "." + e;
    var n := |stem|;
    assert Free(p, '/') by {
      assert forall k :: 0 <= k < |p| ==> p[k] == if k < n then stem[k] else if k == n then '.' else e[k - n - 1];
    }
    RFindFree(p, '/');
    assert Basename(p) == p;
    assert p == (stem + ".") + e;
    RFindFree(e, '.');
    RFindConcat(stem + ".", e, '.');
    assert RFind(stem + ".", '.') == n;
    assert p[..n] == stem;
    assert p[n..] == "." + e;
  }

  /** The extension of a name inside a directory is the extension of the name
      alone: the directory part never contributes one. */
  lemma ExtInDirectory(dir: string, name: string)
    requires Free(name, '/')
    ensures Ext(dir + "/" + name) == Ext(name)
  {
    var p := dir + "/" + name;
    assert p == (dir + "/") + name;
    RFindFree(name, '/');
    RFindConcat(dir + "/", name, '/');
    assert RFind(dir + "/", '/') == |dir|;
    assert Basename(p) == name;
    assert Basename(name) == name;
  }

  /** Leading dots followed by a name free of dots and slashes start no
      extension. */
  lemma NoExtension(dots: string, rest: string)
    requires OnlyDots(dots)
    requires Free(rest, '.') && Free(rest, '/')
    ensures Ext(dots + rest) == []
    ensures Free(dots + rest, '/')
  {
    var name := dots + rest;
    forall k | 0 <= k < |name|
      ensures name[k] != '/'
      ensures k >= |dots| ==> name[k] != '.'
    {
      if k < |dots| { assert name[k] == dots[k]; } else { assert name[k] == rest[k - |dots|]; }
    }
    RFindFree(name, '/');
    assert Basename(name) == name;
    var dot := RFind(name, '.');
    if dot >= 0 {
      assert name[..dot] == dots[..dot];
    }
  }

  /** `RFind` sees through lower-casing for the two separators. */
  lemma RFindLower(s: string, c: char)
    requires c == '.' || c == '/'
    ensures RFind(Lower(s), c) == RFind(s, c)
  {
    if s != [] {
      assert Lower(s)[..|s| - 1] == Lower(s[..|s| - 1]);
      RFindLower(s[..|s| - 1], c);
    }
  }

  /** Lower-casing neither creates nor removes a dot. */
  lemma OnlyDotsLower(s: string)
    ensures OnlyDots(Lower(s)) <==> OnlyDots(s)
  {
    if !OnlyDots(s) {
      var k :| 0 <= k < |s| && s[k] != '.';
      assert Lower(s)[k] != '.';
    }
  }

  /** Taking the final component commutes with lower-casing. */
  lemma BasenameLower(p: string)
    ensures Basename(Lower(p)) == Lower(Basename(p))
  {
    var i := RFind(p, '/') + 1;
    RFindLower(p, '/');
    LowerSlice(p, i, |p|);
    assert p[i..|p|] == p[i..];
    assert Lower(p)[i..|p|] == Lower(p)[i..];
  }

  /** Taking a component's extension commutes with lower-casing. */
  lemma NameExtLower(n: string)
    ensures NameExt(Lower(n)) == Lower(NameExt(n))
  {
    RFindLower(n, '.');
    var dot := RFind(n, '.');
    if dot >= 0 {
      LowerSlice(n, 0, dot);
      OnlyDotsLower(n[..dot]);
      LowerSlice(n, dot, |n|);
      assert n[..dot] == n[0..dot] && n[dot..] == n[dot..|n|];
    }
  }

  /** Taking the extension commutes with lower-casing, so `ext.lower()` is
      the extension of the lower-cased path. */
  lemma ExtLower(p: string)
    ensures Ext(Lower(p)) == Lower(Ext(p))
  {
    BasenameLower(p);
    NameExtLower(Basename(p));
  }

  /** `os.path.join(a, b)` for two arguments: an absolute `b` replaces `a`;
      otherwise `b` is appended, with a `/` in between unless `a` is empty or
      already ends in one. */
  function Join(a: string, b: string): (r: string)
    ensures b != [] && b[0] == '/' ==> r == b
    ensures (b == [] || b[0] != '/') ==> |r| >= |a| + |b| && r[..|a|] == a && r[|r| - |b|..] == b
    ensures (b == [] || b[0] != '/') ==> |r| <= |a| + |b| + 1
  {
    if b != [] && b[0] == '/' then b
    else if a == [] || a[|a| - 1] == '/' then a + b
    else a + "/" + b
  }
}
