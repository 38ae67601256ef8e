/** The ingested-URL log (`./ingested_urls.txt` in app.py) as what it holds:
    the lines of a text file. These functions say what the app's operations
    mean for the listing the user sees and for the line a deletion removes. */
module UrlLog {
  import opened Wrappers
  import opened PyStr
  import opened TextFile

  /** What one line contributes to the listing: its stripped form, unless
      that is empty. */
  function Entry(line: string): (e: seq<string>)
    ensures |e| <= 1
  {
    if Strip(line) != [] then [Strip(line)] else []
  }

  /** The loop of `get_saved_urls_list` over the lines `ls`: every line
      stripped, the empty ones dropped, file order kept. */
  function Listed(ls: seq<string>): (urls: seq<string>)
    ensures |urls| <= |ls|
  {
    if ls == [] then [] else Entry(ls[0]) + Listed(ls[1..])
  }

  /** Every listed URL is non-empty and has no whitespace at either end. */
  lemma {:induction false} ListedEntries(ls: seq<string>)
    ensures forall k :: 0 <= k < |Listed(ls)| ==> Listed(ls)[k] != [] && IsStripped(Listed(ls)[k])
  {
    if ls != [] {
      ListedEntries(ls[1..]);
      var e, rest := Entry(ls[0]), Listed(ls[1..]);
      assert Listed(ls) == e + rest;
      forall k | 0 <= k < |e + rest|
        ensures (e + rest)[k] != [] && IsStripped((e + rest)[k])
      {
        if k >= |e| {
          assert (e + rest)[k] == rest[k - |e|];
        }
      }
    }
  }

  /** The log is missing, or its last line is complete: what `save_url`
      appends then starts a line of its own. */
  predicate Tidy(log: Option<string>) {
    log.None? || Terminated(log.value)
  }

  /** The listing of a log that may not exist: a missing file lists nothing. */
  function SavedUrls(log: Option<string>): (urls: seq<string>)
    ensures log.None? ==> urls == []
  {
    match log
    case None => []
    case Some(content) => Listed(Lines(content))
  }

  /** Listing is done line by line, so it distributes over a split of the
      lines. */
  lemma {:induction false} ListedAppend(a: seq<string>, b: seq<string>)
    ensures Listed(a + b) == Listed(a) + Listed(b)
  {
    if a == [] {
      assert a + b == b;
    } else {
      assert (a + b)[0] == a[0];
      assert (a + b)[1..] == a[1..] + b;
      ListedAppend(a[1..], b);
    }
  }

  /** Listing one more line adds that line's entry at the end. */
  lemma ListedSnoc(ls: seq<string>, line: string)
    ensures Listed(ls + [line]) == Listed(ls) + Entry(line)
  {
    ListedAppend(ls, [line]);
    ListedSingle(line);
  }

  /** The index of the first line whose stripped form is `url`: where the
      scan of `delete_url_by_url` stops. */
  function FirstMatch(ls: seq<string>, url: string): (r: Option<nat>)
    ensures r.Some? ==> r.value < |ls| && Strip(ls[r.value]) == url
    ensures r.Some? ==> forall k :: 0 <= k < r.value ==> Strip(ls[k]) != url
    ensures r.None? ==> forall k :: 0 <= k < |ls| ==> Strip(ls[k]) != url
  {
    if ls == [] then None
    else if Strip(ls[0]) == url then Some(0)
    else
      var rest := FirstMatch(ls[1..], url);
      if rest.None? then None else Some(rest.value + 1)
  }

  /** A scan that stops at line `i`, having passed over lines that do not
      match, has found the first match. */
  lemma {:induction false} FirstMatchAt(ls: seq<string>, url: string, i: nat)
    requires i < |ls| && Strip(ls[i]) == url
    requires forall k :: 0 <= k < i ==> Strip(ls[k]) != url
    ensures FirstMatch(ls, url) == Some(i)
  {
    if i > 0 {
      assert Strip(ls[0]) != url;
      assert ls[1..][i - 1] == ls[i];
      FirstMatchAt(ls[1..], url, i - 1);
    }
  }

  /** `urls.pop(i)`. */
  function RemoveAt(ls: seq<string>, i: nat): (r: seq<string>)
    requires i < |ls|
    ensures |r| == |ls| - 1
    ensures r[..i] == ls[..i] && r[i..] == ls[i + 1..]
    ensures multiset(r) == multiset(ls) - multiset{ls[i]}
  {
    assert ls == ls[..i] + [ls[i]] + ls[i + 1..];
    ls[..i] + ls[i + 1..]
  }

  /** A list with the first occurrence of `u` taken out, if there is one: the
      order of the rest is kept and exactly one copy of `u` goes. */
  function RemoveFirst(us: seq<string>, u: string): (r: seq<string>)
    ensures u in us ==> |r| == |us| - 1 && multiset(r) == multiset(us) - multiset{u}
    ensures u !in us ==> r == us
  {
    if us == [] then []
    else
      assert us == [us[0]] + us[1..];
      if us[0] == u then us[1..]
      else [us[0]] + RemoveFirst(us[1..], u)
  }

  /** Where `u` first occurs at `i`, removal takes out exactly position `i`
      and keeps everything before and after it in order. */
  lemma {:induction false} RemoveFirstAt(us: seq<string>, u: string, i: nat)
    requires i < |us| && us[i] == u && u !in us[..i]
    ensures RemoveFirst(us, u) == us[..i] + us[i + 1..]
  {
    if i > 0 {
      var t := us[1..];
      assert us[..i][0] == us[0];
      assert t[..i - 1] == us[1..i] && us[..i] == [us[0]] + t[..i - 1];
      RemoveFirstAt(t, u, i - 1);
      assert us[i + 1..] == t[i..];
      assert RemoveFirst(us, u) == [us[0]] + RemoveFirst(t, u);
    }
  }

  /** A URL is listed exactly when it is non-empty and some line strips to
      it: every URL the dropdown offers is one the deletion scan finds, and
      a scan that finds nothing means the URL is not listed. */
  lemma {:induction false} ListedIffMatch(ls: seq<string>, url: string)
    ensures url in Listed(ls) <==> url != [] && FirstMatch(ls, url).Some?
  {
    if ls != [] {
      ListedIffMatch(ls[1..], url);
      assert Listed(ls) == Entry(ls[0]) + Listed(ls[1..]);
    }
  }

  /** Taking out the first `u` skips the entry of a line that does not
      strip to `u`. */
  lemma RemoveFirstSkip(line: string, rest: seq<string>, u: string)
    requires Strip(line) != u
    ensures RemoveFirst(Entry(line) + rest, u) == Entry(line) + RemoveFirst(rest, u)
  {
    var e := Entry(line);
    if e == [] {
      assert e + rest == rest;
    } else {
      assert (e + rest)[0] == e[0] && (e + rest)[1..] == rest;
    }
  }

  /** Removing the first line that strips to `url` removes the first
      occurrence of `url` from the listing and nothing else: later duplicates
      stay, and so does the order of every other entry. For an empty `url`
      the removed line is blank and the listing does not change. */
  lemma {:induction false} ListedAfterRemoval(ls: seq<string>, url: string, i: nat)
    requires FirstMatch(ls, url) == Some(i)
    ensures Listed(RemoveAt(ls, i)) == RemoveFirst(Listed(ls), url)
  {
    if i == 0 {
      RemovedHead(ls, url);
    } else {
      assert FirstMatch(ls[1..], url) == Some(i - 1);
      ListedAfterRemoval(ls[1..], url, i - 1);
      RemovedLater(ls, url, i);
    }
  }

  /** The base case: the first line matches, and its entry is the one
      that goes. */
  lemma RemovedHead(ls: seq<string>, url: string)
    requires ls != [] && Strip(ls[0]) == url
    ensures Listed(RemoveAt(ls, 0)) == RemoveFirst(Listed(ls), url)
  {
    ListedCons(ls);
    assert RemoveAt(ls, 0) == ls[1..];
    if url == [] {
      assert Entry(ls[0]) == [];
      ListedEntries(ls);
      assert url !in Listed(ls);
    } else {
      assert Entry(ls[0]) == [url];
      RemoveFirstHead(url, Listed(ls[1..]));
    }
  }

  /** The step: a first line that does not match keeps its entry in front. */
  lemma RemovedLater(ls: seq<string>, url: string, i: nat)
    requires 0 < i < |ls| && Strip(ls[0]) != url
    requires Listed(RemoveAt(ls[1..], i - 1)) == RemoveFirst(Listed(ls[1..]), url)
    ensures Listed(RemoveAt(ls, i)) == RemoveFirst(Listed(ls), url)
  {
    var tail := RemoveAt(ls[1..], i - 1);
    var rest := Listed(ls[1..]);
    RemoveAtCons(ls, i);
    calc {
      Listed(RemoveAt(ls, i));
      { ListedCons([ls[0]] + tail); assert ([ls[0]] + tail)[1..] == tail; }
      Entry(ls[0]) + Listed(tail);
      Entry(ls[0]) + RemoveFirst(rest, url);
      { RemoveFirstSkip(ls[0], rest, url); }
      RemoveFirst(Entry(ls[0]) + rest, url);
      { ListedCons(ls); }
      RemoveFirst(Listed(ls), url);
    }
  }

  /** Taking out a line after the first keeps the first in front. */
  lemma RemoveAtCons(ls: seq<string>, i: nat)
    requires 0 < i < |ls|
    ensures RemoveAt(ls, i) == [ls[0]] + RemoveAt(ls[1..], i - 1)
  {
    var r, t := RemoveAt(ls, i), RemoveAt(ls[1..], i - 1);
    assert |r| == |t| + 1;
    forall k | 0 <= k < |r|
      ensures r[k] == ([ls[0]] + t)[k]
    {
      if 0 < k < i {
        assert r[k] == ls[k] && t[k - 1] == ls[1..][k - 1];
      } else if k >= i {
        assert r[k] == ls[k + 1] && t[k - 1] == ls[1..][k];
      }
    }
  }

  /** One line lists as its entry. */
  lemma ListedSingle(line: string)
    ensures Listed([line]) == Entry(line)
  {
    assert [line][1..] == [];
  }

  /** The listing of non-empty lines starts with the first line's entry. */
  lemma ListedCons(ls: seq<string>)
    requires ls != []
    ensures Listed(ls) == Entry(ls[0]) + Listed(ls[1..])
  {
  }

  /** Taking out the first `u` of a list that starts with `u` drops the head. */
  lemma RemoveFirstHead(u: string, rest: seq<string>)
    ensures RemoveFirst([u] + rest, u) == rest
  {
    assert ([u] + rest)[0] == u && ([u] + rest)[1..] == rest;
  }

  /** Taking out one line keeps the shape of what `readlines` returned. */
  lemma RemoveAtWellFormed(ls: seq<string>, i: nat)
    requires i < |ls|
    requires WellFormed(ls)
    ensures WellFormed(RemoveAt(ls, i))
    ensures (forall k :: 0 <= k < |ls| ==> IsLine(ls[k], false))
            ==> forall k :: 0 <= k < |RemoveAt(ls, i)| ==> IsLine(RemoveAt(ls, i)[k], false)
  {
    var r := RemoveAt(ls, i);
    forall k | 0 <= k < |r|
      ensures r[k] == if k < i then ls[k] else ls[k + 1]
    {
    }
  }

  /** Lines that all end in `\n` make up a terminated file. */
  lemma {:induction false} ConcatTerminated(ls: seq<string>)
    requires forall k :: 0 <= k < |ls| ==> IsLine(ls[k], false)
    ensures Terminated(Concat(ls))
  {
    if ls != [] {
      assert IsLine(ls[0], false);
      assert forall k :: 0 <= k < |ls[1..]| ==> ls[1..][k] == ls[k + 1];
      ConcatTerminated(ls[1..]);
      if ls[1..] == [] {
        assert Concat(ls) == ls[0];
      }
    }
  }

  /** The file `delete_url_by_url` writes back when line `i` matched: its
      listing is the old one without the first occurrence of `url`, and a
      terminated log stays terminated. */
  lemma RewrittenLog(content: string, url: string, i: nat)
    requires FirstMatch(Lines(content), url) == Some(i)
    ensures Listed(Lines(Concat(RemoveAt(Lines(content), i)))) == RemoveFirst(Listed(Lines(content)), url)
    ensures Terminated(content) ==> Terminated(Concat(RemoveAt(Lines(content), i)))
  {
    var ls := Lines(content);
    LinesWellFormed(content);
    RemoveAtWellFormed(ls, i);
    LinesOfConcat(RemoveAt(ls, i));
    ListedAfterRemoval(ls, url, i);
    if Terminated(content) {
      ConcatTerminated(RemoveAt(ls, i));
    }
  }

  /** What `save_url` appends, `u + "\n"` with `u` stripped and without a
      line break (`'\n'` or `'\r'`), adds one entry `u` at the end of a
      terminated log's listing (none when `u` is empty); every earlier entry
      stays, duplicates included. */
  lemma AppendedLine(content: string, u: string)
    requires Terminated(content)
    requires IsStripped(u) && NoLineBreak(u)
    ensures Lines(content + u + "\n") == Lines(content) + [u + "\n"]
    ensures Listed(Lines(content + u + "\n")) == Listed(Lines(content)) + (if u != [] then [u] else [])
    ensures Terminated(content + u + "\n")
  {
    var line := u + "\n";
    assert content + u + "\n" == content + line;
    LinesAppend(content, line);
    LinesOfOneLine(u);
    ListedAppend(Lines(content), [line]);
    ListedOneLine(u);
  }

  /** The line `u + "\n"` alone lists as `u`, or as nothing when `u` is empty. */
  lemma ListedOneLine(u: string)
    requires IsStripped(u)
    ensures Listed([u + "\n"]) == if u != [] then [u] else []
  {
    StripTrailingSpace(u, '\n');
    assert u + "\n" == u + ['\n'];
    assert [u + "\n"][1..] == [];
  }

  /** A URL saved into a terminated log is found again by the deletion scan
      run with that same string. */
  lemma SavedUrlIsFound(content: string, u: string)
    requires Terminated(content)
    requires u != [] && IsStripped(u) && NoLineBreak(u)
    ensures FirstMatch(Lines(content + u + "\n"), u).Some?
  {
    AppendedLine(content, u);
    var ls := Lines(content + u + "\n");
    assert Listed(ls)[|Listed(ls)| - 1] == u;
    ListedIffMatch(ls, u);
  }

  /** A URL with one inner `'\n'` between two tidy parts `a` and `b` is
      saved as two lines: it lists as `a` and `b`, and the deletion scan for
      the whole string finds nothing. */
  lemma LineBreakSplitsAny(a: string, b: string)
    requires a != [] && b != [] && IsStripped(a) && IsStripped(b)
    requires NoLineBreak(a) && NoLineBreak(b)
    ensures Lines(a + "\n" + b + "\n") == [a + "\n", b + "\n"]
    ensures Listed(Lines(a + "\n" + b + "\n")) == [a, b]
    ensures FirstMatch(Lines(a + "\n" + b + "\n"), a + "\n" + b).None?
  {
    var first := a + "\n";
    AppendedLine([], a);
    assert [] + a + "\n" == first;
    AppendedLine(first, b);
    assert first + b + "\n" == a + "\n" + b + "\n";
    var ls := Lines(a + "\n" + b + "\n");
    assert ls == [first, b + "\n"];
    var u := a + "\n" + b;
    assert Listed(ls) == [a, b];
    assert u != a && u != b by { assert |u| > |a| && |u| > |b|; }
    ListedIffMatch(ls, u);
  }

  /** The instance `"a\nb"`: it lists as `"a"` and `"b"`, and the deletion
      scan for `"a\nb"` finds nothing. */
  lemma LineBreakSplitsUrl()
    ensures Lines("a\nb" + "\n") == ["a\n", "b\n"]
    ensures Listed(Lines("a\nb" + "\n")) == ["a", "b"]
    ensures FirstMatch(Lines("a\nb" + "\n"), "a\nb").None?
  {
    var a, b := "a", "b";
    assert a + "\n" + b == "a\nb" && a + "\n" == "a\n" && b + "\n" == "b\n";
    LineBreakSplitsAny(a, b);
  }

  /** The log after `delete_url_by_url(url)`: unchanged when it is missing
      or no line strips to `url`; otherwise the lines without the first
      match, written back. */
  function LogAfterDelete(log: Option<string>, url: string): (r: Option<string>)
    ensures r.Some? <==> log.Some?
    ensures log.Some? && FirstMatch(Lines(log.value), url).None? ==> r == log
  {
    if log.None? then None
    else match FirstMatch(Lines(log.value), url)
      case None => log
      case Some(i) => Some(Concat(RemoveAt(Lines(log.value), i)))
  }

  /** Deleting `url` takes its first occurrence out of the listing and
      leaves every other entry, in order; the log stays tidy. */
  lemma DeleteFromListing(log: Option<string>, url: string)
    ensures SavedUrls(LogAfterDelete(log, url)) == RemoveFirst(SavedUrls(log), url)
    ensures Tidy(log) ==> Tidy(LogAfterDelete(log, url))
  {
    if log.Some? {
      var ls := Lines(log.value);
      match FirstMatch(ls, url)
      case None =>
        ListedIffMatch(ls, url);
      case Some(i) =>
        RewrittenLog(log.value, url, i);
    }
  }
}
