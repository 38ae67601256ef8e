/** A text file read line by line, as Python's `for line in f` and
    `f.readlines()` return it (every line keeps its `\n`; the last one may lack
    it), and written back with `f.writelines(lines)`. */
module TextFile {

  /** The content ends with a line break, or is empty: appending to it starts
      a new line. */
  predicate Terminated(s: string) {
    s == [] || s[|s| - 1] == '\n'
  }

  /** The length of the first line of a non-empty `s`, its `\n` included. */
  function LineEnd(s: string): (k: nat)
    requires s != []
    ensures 0 < k <= |s|
    ensures forall j :: 0 <= j < k - 1 ==> s[j] != '\n'
    ensures s[k - 1] == '\n' || k == |s|
  {
    if s[0] == '\n' || |s| == 1 then 1 else 1 + LineEnd(s[1..])
  }

  /** `l` is a line as `readlines` returns it: non-empty, with no `\n` but
      possibly its last character, which must be `\n` unless `l` is the last
      line of the file. */
  ghost predicate IsLine(l: string, last: bool) {
    l != []
    && (forall j :: 0 <= j < |l| - 1 ==> l[j] != '\n')
    && (last || l[|l| - 1] == '\n')
  }

  /** The shape of what `readlines` returns. */
  ghost predicate WellFormed(ls: seq<string>) {
    forall k :: 0 <= k < |ls| ==> IsLine(ls[k], k == |ls| - 1)
  }

  /** `s` holds neither `'\n'` nor `'\r'`: no character at which Python's
      text-mode reading (universal newlines) would end a line. */
  predicate NoLineBreak(s: string) {
    forall j :: 0 <= j < |s| ==> s[j] != '\n' && s[j] != '\r'
  }

  /** `f.writelines(ls)`: the file content the lines make up. */
  function Concat(ls: seq<string>): (r: string)
    ensures ls == [] ==> r == []
    ensures ls != [] ==> |ls[0]| <= |r| && r[..|ls[0]|] == ls[0]
  {
    if ls == [] then [] else ls[0] + Concat(ls[1..])
  }

  /** `f.readlines()` on a file holding `s`. */
  function Lines(s: string): (r: seq<string>)
    ensures r == [] <==> s == []
    ensures |r| <= |s|
    decreases |s|
  {
    if s == [] then [] else [s[..LineEnd(s)]] + Lines(s[LineEnd(s)..])
  }

  /** The first line of a non-empty file is a line, and it ends with `\n`
      unless it is all of the file. */
  lemma FirstLine(s: string)
    requires s != []
    ensures IsLine(s[..LineEnd(s)], LineEnd(s) == |s|)
    ensures Terminated(s) ==> IsLine(s[..LineEnd(s)], false)
  {
    var k := LineEnd(s);
    var l := s[..k];
    assert forall j :: 0 <= j < |l| ==> l[j] == s[j];
  }

  /** Reading a file gives back its content. */
  lemma {:induction false} LinesConcat(s: string)
    ensures Concat(Lines(s)) == s
    decreases |s|
  {
    if s != [] {
      var k := LineEnd(s);
      var rest := Lines(s[k..]);
      var ls := [s[..k]] + rest;
      LinesConcat(s[k..]);
      assert Lines(s) == ls;
      assert ls[0] == s[..k] && ls[1..] == rest;
      assert Concat(ls) == s[..k] + s[k..];
      assert s[..k] + s[k..] == s;
    }
  }

  /** Reading a file gives well-formed lines; in a terminated file every line,
      the last included, ends with `\n`. */
  lemma {:induction false} LinesWellFormed(s: string)
    ensures WellFormed(Lines(s))
    ensures Terminated(s) ==> forall k :: 0 <= k < |Lines(s)| ==> IsLine(Lines(s)[k], false)
    decreases |s|
  {
    if s != [] {
      var k := LineEnd(s);
      var rest := Lines(s[k..]);
      LinesWellFormed(s[k..]);
      FirstLine(s);
      var ls := Lines(s);
      assert ls == [s[..k]] + rest;
      assert k == |s| ==> rest == [];
      assert Terminated(s) && k < |s| ==> Terminated(s[k..]);
      forall i | 0 <= i < |ls|
        ensures IsLine(ls[i], i == |ls| - 1)
        ensures Terminated(s) ==> IsLine(ls[i], false)
      {
        if i > 0 {
          assert ls[i] == rest[i - 1];
        }
      }
    }
  }

  /** Writing the lines of `a` and then those of `b` writes the same text as
      writing `a + b` in one call. */
  lemma {:induction false} ConcatAppend(a: seq<string>, b: seq<string>)
    ensures Concat(a + b) == Concat(a) + Concat(b)
  {
    if a != [] {
      assert (a + b)[0] == a[0];
      assert (a + b)[1..] == a[1..] + b;
      ConcatAppend(a[1..], b);
    } else {
      assert a + b == b;
    }
  }

  /** Writing well-formed lines and reading them back gives the same lines:
      the rewrite in `delete_url_by_url` loses no line boundary. */
  lemma {:induction false} LinesOfConcat(ls: seq<string>)
    requires WellFormed(ls)
    ensures Lines(Concat(ls)) == ls
  {
    if ls != [] {
      var l, rest := ls[0], Concat(ls[1..]);
      assert WellFormed(ls[1..]) by {
        forall k | 0 <= k < |ls[1..]|
          ensures ls[1..][k] == ls[k + 1]
        {
        }
      }
      LinesOfConcat(ls[1..]);
      var s := l + rest;
      assert |ls| == 1 ==> rest == [];
      LineEndOf(l, rest);
      assert s[..|l|] == l && s[|l|..] == rest;
    }
  }

  /** The first line of `l + rest` is `l` when `l` is a complete line. */
  lemma {:induction false} LineEndOf(l: string, rest: string)
    requires l != []
    requires forall j :: 0 <= j < |l| - 1 ==> l[j] != '\n'
    requires l[|l| - 1] == '\n' || rest == []
    ensures LineEnd(l + rest) == |l|
  {
    var s := l + rest;
    if |l| > 1 {
      assert s[0] == l[0] != '\n';
      assert s[1..] == l[1..] + rest;
      LineEndOf(l[1..], rest);
    }
  }

  /** Lines that all end in `\n`, followed by well-formed lines, are
      well-formed. */
  lemma WellFormedAppend(a: seq<string>, b: seq<string>)
    requires forall k :: 0 <= k < |a| ==> IsLine(a[k], false)
    requires WellFormed(b)
    ensures WellFormed(a + b)
  {
    forall k | 0 <= k < |a + b|
      ensures IsLine((a + b)[k], k == |a + b| - 1)
    {
      if k < |a| {
        assert (a + b)[k] == a[k];
      } else {
        assert (a + b)[k] == b[k - |a|];
      }
    }
  }

  /** Appending to a terminated file appends its lines after the old ones. */
  lemma LinesAppend(s: string, t: string)
    requires Terminated(s)
    ensures Lines(s + t) == Lines(s) + Lines(t)
  {
    var a, b := Lines(s), Lines(t);
    LinesConcat(s);
    LinesConcat(t);
    ConcatAppend(a, b);
    LinesWellFormed(s);
    LinesWellFormed(t);
    WellFormedAppend(a, b);
    LinesOfConcat(a + b);
  }

  /** A string without a line break, followed by `\n`, reads back as one line. */
  lemma LinesOfOneLine(u: string)
    requires forall j :: 0 <= j < |u| ==> u[j] != '\n'
    ensures Lines(u + "\n") == [u + "\n"]
  {
    var l := u + "\n";
    assert l + [] == l;
    LineEndOf(l, []);
    assert l[..|l|] == l && l[|l|..] == [];
  }
}
