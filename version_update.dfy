/**
 * `update_version`: the lines of the package's `__init__.py` are copied to a temporary
 * file, with every `__version__ = '...'` assignment whose version differs from the
 * package version rewritten and every up-to-date one dropped; the original is replaced
 * by the temporary file only when some assignment was stale or none was found.
 *
 * Files are their contents; the lines are what `readlines()` gives (each keeps its
 * line ending).
 */
module VersionUpdate {
  import opened Common

  /** The package version the file is brought in line with. */
  const PackageVersion: string := "2.0.0.dev2"

  // ---------------------------------------------------------------------------
  // The matcher ^\s*__version__\s*=\s*['"]([^'"]*)['"]
  // ---------------------------------------------------------------------------

  /** `\s`, on ASCII: space, tab, line feed, vertical tab, form feed, carriage return. */
  predicate IsSpace(c: char)
  {
    c == ' ' || (9 <= c as int <= 13)
  }

  predicate IsQuote(c: char)
  {
    c == '\'' || c == '"'
  }

  predicate AllSpace(s: string)
  {
    forall k :: 0 <= k < |s| ==> IsSpace(s[k])
  }

  predicate NoQuote(s: string)
  {
    forall k :: 0 <= k < |s| ==> !IsQuote(s[k])
  }

  /** The length of the longest quote-free prefix of `s` (what a greedy `[^'"]*` consumes). */
  function NonQuoteRun(s: string): (n: nat)
    ensures n <= |s| && NoQuote(s[..n])
    ensures n < |s| ==> IsQuote(s[n])
    decreases |s|
  {
    if s != [] && !IsQuote(s[0]) then 1 + NonQuoteRun(s[1..]) else 0
  }

  /** `version_re.search(line)`, giving `match.group(1)` on success. The pattern starts
      with `^`, so only a match at the start of the line counts. The match proceeds in
      stages, one per piece of the pattern; each `\s*` skips space one character at a
      time, and no greedy run ever needs to back off, because what follows it in the
      pattern cannot be part of the run. This stage is `^\s*`. The captured version holds
      no quote, and the line holds at least the fourteen fixed characters of the pattern
      besides it. */
  function MatchVersion(line: string): (r: Option<string>)
    ensures r.Some? ==> NoQuote(r.value) && |r.value| + 14 <= |line|
    decreases |line|
  {
    if line != [] && IsSpace(line[0]) then MatchVersion(line[1..]) else MatchName(line)
  }

  /** `__version__`, then the rest. */
  function MatchName(s: string): (r: Option<string>)
    ensures r.Some? ==> NoQuote(r.value) && |r.value| + 14 <= |s|
  {
    if |s| >= 11 && s[..11] == "__version__" then MatchEquals(s[11..]) else None
  }

  /** `\s*=`, then the rest. */
  function MatchEquals(s: string): (r: Option<string>)
    ensures r.Some? ==> NoQuote(r.value) && |r.value| + 3 <= |s|
    decreases |s|
  {
    if s == [] then None
    else if IsSpace(s[0]) then MatchEquals(s[1..])
    else if s[0] == '=' then MatchQuoted(s[1..])
    else None
  }

  /** `\s*['"]`, then the value. */
  function MatchQuoted(s: string): (r: Option<string>)
    ensures r.Some? ==> NoQuote(r.value) && |r.value| + 2 <= |s|
    decreases |s|
  {
    if s == [] then None
    else if IsSpace(s[0]) then MatchQuoted(s[1..])
    else if IsQuote(s[0]) then MatchValue(s[1..])
    else None
  }

  /** `([^'"]*)['"]`: the captured group, if a closing quote follows it. The group is the
      quote-free start of `s`, and a quote comes right after it. */
  function MatchValue(s: string): (r: Option<string>)
    ensures r.Some? ==> |r.value| < |s| && r.value == s[..|r.value|] && NoQuote(r.value) && IsQuote(s[|r.value|])
    ensures r.None? ==> NoQuote(s)
  {
    var n := NonQuoteRun(s);
    if n < |s| then Some(s[..n]) else None
  }

  /** The pieces of a line the matcher accepts: leading space, `__version__`, space, `=`,
      space, a quote, the version, a quote, and anything after. */
  datatype Assignment = Assignment(lead: string, beforeEq: string, afterEq: string, open: char,
                                   version: string, close: char, rest: string)

  predicate WellFormed(a: Assignment)
  {
    AllSpace(a.lead) && AllSpace(a.beforeEq) && AllSpace(a.afterEq) &&
    IsQuote(a.open) && NoQuote(a.version) && IsQuote(a.close)
  }

  function Render(a: Assignment): string
  {
    a.lead + ("__version__" + (a.beforeEq + ("=" + (a.afterEq + ([a.open] + (a.version + ([a.close] + a.rest)))))))
  }

  lemma {:induction false} NonQuoteRunOver(v: string, t: string)
    requires NoQuote(v) && t != [] && IsQuote(t[0])
    ensures NonQuoteRun(v + t) == |v|
    decreases |v|
  {
    if v == [] {
      assert v + t == t;
    } else {
      assert (v + t)[0] == v[0] && !IsQuote(v[0]);
      assert (v + t)[1..] == v[1..] + t;
      assert NoQuote(v[1..]) by {
        forall k | 0 <= k < |v[1..]|
          ensures !IsQuote(v[1..][k])
        {
          assert v[1..][k] == v[k + 1];
        }
      }
      NonQuoteRunOver(v[1..], t);
    }
  }

  lemma {:induction false} NonQuoteRunAll(s: string)
    requires NoQuote(s)
    ensures NonQuoteRun(s) == |s|
    decreases |s|
  {
    if s != [] {
      NonQuoteRunAll(s[1..]);
    }
  }

  lemma AllSpaceCons(c: char, ws: string)
    requires IsSpace(c) && AllSpace(ws)
    ensures AllSpace([c] + ws)
  {
    var s := [c] + ws;
    forall k | 0 <= k < |s|
      ensures IsSpace(s[k])
    {
      if k > 0 {
        assert s[k] == ws[k - 1];
      }
    }
  }

  /** Leading space is skipped up to the name. */
  lemma {:induction false} MatchVersionSkips(ws: string, t: string)
    requires AllSpace(ws) && (t != [] ==> !IsSpace(t[0]))
    ensures MatchVersion(ws + t) == MatchName(t)
    decreases |ws|
  {
    if ws == [] {
      assert ws + t == t;
    } else {
      assert (ws + t)[1..] == ws[1..] + t;
      MatchVersionSkips(ws[1..], t);
    }
  }

  lemma MatchNameAccepts(t: string)
    ensures MatchName("__version__" + t) == MatchEquals(t)
  {
    assert ("__version__" + t)[..11] == "__version__";
    assert ("__version__" + t)[11..] == t;
  }

  /** Space is skipped up to the `=`. */
  lemma {:induction false} MatchEqualsSkips(ws: string, t: string)
    requires AllSpace(ws)
    ensures MatchEquals(ws + ("=" + t)) == MatchQuoted(t)
    decreases |ws|
  {
    if ws == [] {
      assert ws + ("=" + t) == "=" + t;
      assert ("=" + t)[1..] == t;
    } else {
      assert (ws + ("=" + t))[1..] == ws[1..] + ("=" + t);
      MatchEqualsSkips(ws[1..], t);
    }
  }

  /** Space is skipped up to the opening quote. */
  lemma {:induction false} MatchQuotedSkips(ws: string, open: char, t: string)
    requires AllSpace(ws) && IsQuote(open)
    ensures MatchQuoted(ws + ([open] + t)) == MatchValue(t)
    decreases |ws|
  {
    if ws == [] {
      assert ws + ([open] + t) == [open] + t;
      assert ([open] + t)[1..] == t;
    } else {
      assert (ws + ([open] + t))[1..] == ws[1..] + ([open] + t);
      MatchQuotedSkips(ws[1..], open, t);
    }
  }

  lemma MatchValueAccepts(v: string, close: char, rest: string)
    requires NoQuote(v) && IsQuote(close)
    ensures MatchValue(v + ([close] + rest)) == Some(v)
  {
    NonQuoteRunOver(v, [close] + rest);
    assert (v + ([close] + rest))[..|v|] == v;
  }

  /** Every well-formed assignment line is matched, and `group(1)` is its version. */
  lemma MatchVersionAccepts(a: Assignment)
    requires WellFormed(a)
    ensures MatchVersion(Render(a)) == Some(a.version)
  {
    var t3 := a.version + ([a.close] + a.rest);
    var t1 := a.afterEq + ([a.open] + t3);
    var t0 := a.beforeEq + ("=" + t1);
    MatchValueAccepts(a.version, a.close, a.rest);
    MatchQuotedSkips(a.afterEq, a.open, t3);
    MatchEqualsSkips(a.beforeEq, t1);
    MatchNameAccepts(t0);
    MatchVersionSkips(a.lead, "__version__" + t0);
  }

  /** The value stage accepts only a quote-free group followed by a quote. */
  lemma MatchValueOnlyAccepts(s: string)
    requires MatchValue(s).Some?
    ensures var v := MatchValue(s).value;
            |v| < |s| && NoQuote(v) && IsQuote(s[|v|]) && s == v + ([s[|v|]] + s[|v| + 1..])
  {
    var n := NonQuoteRun(s);
    assert s == s[..n] + ([s[n]] + s[n + 1..]);
  }

  lemma {:induction false} MatchQuotedOnlyAccepts(s: string) returns (ws: string, open: char, t: string)
    requires MatchQuoted(s).Some?
    ensures AllSpace(ws) && IsQuote(open) && s == ws + ([open] + t) && MatchQuoted(s) == MatchValue(t)
    decreases |s|
  {
    if IsSpace(s[0]) {
      var ws', t';
      ws', open, t' := MatchQuotedOnlyAccepts(s[1..]);
      ws, t := [s[0]] + ws', t';
      assert s == [s[0]] + s[1..];
      AppendAssoc([s[0]], ws', [open] + t);
      AllSpaceCons(s[0], ws');
    } else {
      ws, open, t := [], s[0], s[1..];
      assert s == [] + ([s[0]] + s[1..]);
    }
  }

  lemma {:induction false} MatchEqualsOnlyAccepts(s: string) returns (ws: string, t: string)
    requires MatchEquals(s).Some?
    ensures AllSpace(ws) && s == ws + ("=" + t) && MatchEquals(s) == MatchQuoted(t)
    decreases |s|
  {
    if IsSpace(s[0]) {
      var ws';
      ws', t := MatchEqualsOnlyAccepts(s[1..]);
      ws := [s[0]] + ws';
      assert s == [s[0]] + s[1..];
      AppendAssoc([s[0]], ws', "=" + t);
      AllSpaceCons(s[0], ws');
    } else {
      ws, t := [], s[1..];
      assert s == [] + ("=" + s[1..]);
    }
  }

  lemma MatchNameOnlyAccepts(s: string)
    requires MatchName(s).Some?
    ensures |s| >= 11 && s == "__version__" + s[11..] && MatchName(s) == MatchEquals(s[11..])
  {
    assert s == s[..11] + s[11..];
  }

  lemma {:induction false} MatchVersionOnlyAcceptsLead(line: string) returns (lead: string, t: string)
    requires MatchVersion(line).Some?
    ensures AllSpace(lead) && line == lead + t && MatchVersion(line) == MatchName(t)
    decreases |line|
  {
    if line != [] && IsSpace(line[0]) {
      var lead';
      lead', t := MatchVersionOnlyAcceptsLead(line[1..]);
      lead := [line[0]] + lead';
      assert line == [line[0]] + line[1..];
      AppendAssoc([line[0]], lead', t);
      AllSpaceCons(line[0], lead');
    } else {
      lead, t := [], line;
      assert line == [] + line;
    }
  }

  /** Every line the matcher accepts is a well-formed assignment line of that version. */
  lemma MatchVersionOnlyAccepts(line: string) returns (a: Assignment)
    requires MatchVersion(line).Some?
    ensures WellFormed(a) && Render(a) == line && a.version == MatchVersion(line).value
  {
    var lead, s1 := MatchVersionOnlyAcceptsLead(line);
    MatchNameOnlyAccepts(s1);
    var beforeEq, r2 := MatchEqualsOnlyAccepts(s1[11..]);
    var afterEq, open, s4 := MatchQuotedOnlyAccepts(r2);
    MatchValueOnlyAccepts(s4);
    var v := MatchValue(s4).value;
    a := Assignment(lead, beforeEq, afterEq, open, v, s4[|v|], s4[|v| + 1..]);
    assert s4 == v + ([a.close] + a.rest);
    assert r2 == afterEq + ([open] + s4);
    assert s1[11..] == beforeEq + ("=" + r2);
    assert s1 == "__version__" + s1[11..];
    assert line == lead + s1;
  }

  // ---------------------------------------------------------------------------
  // The rewrite
  // ---------------------------------------------------------------------------

  /** The text written, at setup.py:84, in place of an assignment whose version differs:
      no closing quote and no line ending. */
  function StaleLineAsWritten(version: string): string
  {
    "__version__ = '" + version
  }

  /** The line setup.py:84 evidently means to write: a complete assignment, on a line of
      its own. The rest of the model can use either; `UpdateVersion` takes it as `stale`. */
  function StaleLineCorrected(version: string): string
  {
    "__version__ = '" + version + "'\n"
  }

  /** The assignment appended when the file has none (setup.py:89): closing quote, no line ending. */
  function AppendedLine(version: string): string
  {
    "__version__ = '" + version + "'"
  }

  /** What the loop writes for one line: a non-matching line as is, nothing for an
      up-to-date assignment, `stale` for an outdated one. */
  function LineOutput(line: string, version: string, stale: string): string
  {
    match MatchVersion(line)
    case None => line
    case Some(v) => if v != version then stale else ""
  }

  /** `LineOutput` of every line, in order. */
  function Outputs(lines: seq<string>, version: string, stale: string): seq<string>
  {
    seq(|lines|, i requires 0 <= i < |lines| => LineOutput(lines[i], version, stale))
  }

  /** The concatenation of a sequence of texts: what writing them one after another gives. */
  function Joined(texts: seq<string>): string
    decreases |texts|
  {
    if texts == [] then "" else texts[0] + Joined(texts[1..])
  }

  lemma {:induction false} JoinedSnoc(texts: seq<string>, t: string)
    ensures Joined(texts + [t]) == Joined(texts) + t
    decreases |texts|
  {
    if texts == [] {
      assert texts + [t] == [t];
    } else {
      assert (texts + [t])[0] == texts[0] && (texts + [t])[1..] == texts[1..] + [t];
      JoinedSnoc(texts[1..], t);
    }
  }

  /** Some line holds a version assignment (`version_found`). */
  predicate HasVersionLine(lines: seq<string>)
  {
    exists i :: 0 <= i < |lines| && MatchVersion(lines[i]).Some?
  }

  /** Some assignment names a version other than `version`. */
  predicate HasStaleVersionLine(lines: seq<string>, version: string)
  {
    exists i :: 0 <= i < |lines| && MatchVersion(lines[i]).Some? && MatchVersion(lines[i]).value != version
  }

  /** `need_to_update`: no assignment at all, or a stale one. */
  predicate NeedsUpdate(lines: seq<string>, version: string)
  {
    !HasVersionLine(lines) || HasStaleVersionLine(lines, version)
  }

  /** The temporary file's content: the line outputs, then the appended assignment if the
      file had none. */
  function TempContent(lines: seq<string>, version: string, stale: string): string
  {
    Joined(Outputs(lines, version, stale)) + (if HasVersionLine(lines) then "" else AppendedLine(version))
  }

  /** `update_version`, with the file given as its lines and `stale` the text written for
      an outdated assignment. Returns the temporary file's content, `need_to_update`, and
      the version file's content afterwards: the temporary content if it was renamed over
      the original, the original otherwise. */
  method UpdateVersion(lines: seq<string>, version: string, stale: string)
    returns (temp: string, needToUpdate: bool, file: string)
    ensures needToUpdate <==> NeedsUpdate(lines, version)
    ensures temp == TempContent(lines, version, stale)
    ensures file == if needToUpdate then temp else Joined(lines)
  {
    needToUpdate := false;
    var versionFound := false;
    temp := "";
    var k := 0;
    while k < |lines|
      invariant 0 <= k <= |lines|
      invariant temp == Joined(Outputs(lines[..k], version, stale))
      invariant versionFound <==> HasVersionLine(lines[..k])
      invariant needToUpdate <==> HasStaleVersionLine(lines[..k], version)
    {
      PrefixStep(lines, k, version, stale);
      var out, matched, outdated := RewriteLine(lines[k], version, stale);
      if matched {
        versionFound := true;
      }
      if outdated {
        needToUpdate := true;
      }
      temp := temp + out;
      k := k + 1;
    }
    assert lines[..k] == lines;
    if !versionFound {
      needToUpdate := true;
      temp := temp + AppendedLine(version);
    }
    if needToUpdate {
      file := temp;
    } else {
      file := Joined(lines);
    }
  }

  /** `update_version()` as the program runs it: the module's `version` and the text of
      setup.py:84 for an outdated assignment. The file ends up as `FileAfter` says. */
  method UpdatePackageVersion(lines: seq<string>) returns (temp: string, needToUpdate: bool, file: string)
    ensures needToUpdate <==> NeedsUpdate(lines, PackageVersion)
    ensures temp == TempContent(lines, PackageVersion, StaleLineAsWritten(PackageVersion))
    ensures file == FileAfter(lines, PackageVersion, StaleLineAsWritten(PackageVersion))
  {
    temp, needToUpdate, file := UpdateVersion(lines, PackageVersion, StaleLineAsWritten(PackageVersion));
  }

  /** One turn of the loop over the lines: whether the line is an assignment, whether its
      version is outdated, and what is written for it. */
  method RewriteLine(line: string, version: string, stale: string)
    returns (out: string, matched: bool, outdated: bool)
    ensures matched <==> MatchVersion(line).Some?
    ensures outdated <==> MatchVersion(line).Some? && MatchVersion(line).value != version
    ensures out == LineOutput(line, version, stale)
  {
    var m := MatchVersion(line);
    out := line;
    matched := false;
    outdated := false;
    if m.Some? {
      matched := true;
      out := "";
      var fileVersion := m.value;
      if fileVersion != version {
        outdated := true;
        out := stale;
      }
    }
  }

  /** What one more line adds to the loop's state. */
  lemma PrefixStep(lines: seq<string>, k: nat, version: string, stale: string)
    requires k < |lines|
    ensures Joined(Outputs(lines[..k + 1], version, stale)) ==
            Joined(Outputs(lines[..k], version, stale)) + LineOutput(lines[k], version, stale)
    ensures HasVersionLine(lines[..k + 1]) <==> HasVersionLine(lines[..k]) || MatchVersion(lines[k]).Some?
    ensures HasStaleVersionLine(lines[..k + 1], version) <==>
            HasStaleVersionLine(lines[..k], version) ||
            (MatchVersion(lines[k]).Some? && MatchVersion(lines[k]).value != version)
  {
    var pre := lines[..k];
    var next := lines[..k + 1];
    assert next == pre + [lines[k]];
    assert Outputs(next, version, stale) == Outputs(pre, version, stale) + [LineOutput(lines[k], version, stale)];
    JoinedSnoc(Outputs(pre, version, stale), LineOutput(lines[k], version, stale));
    if HasVersionLine(next) {
      var i :| 0 <= i < |next| && MatchVersion(next[i]).Some?;
      if i < k {
        assert pre[i] == next[i];
      }
    }
    if HasVersionLine(pre) {
      var i :| 0 <= i < |pre| && MatchVersion(pre[i]).Some?;
      assert next[i] == pre[i];
    }
    if MatchVersion(lines[k]).Some? {
      assert next[k] == lines[k];
    }
    if HasStaleVersionLine(next, version) {
      var i :| 0 <= i < |next| && MatchVersion(next[i]).Some? && MatchVersion(next[i]).value != version;
      if i < k {
        assert pre[i] == next[i];
      }
    }
    if HasStaleVersionLine(pre, version) {
      var i :| 0 <= i < |pre| && MatchVersion(pre[i]).Some? && MatchVersion(pre[i]).value != version;
      assert next[i] == pre[i];
    }
  }

  /** With no assignment in the file, every line is copied verbatim and in order, and the
      assignment is appended after them. */
  lemma {:induction false} NoVersionLineCopiesAll(lines: seq<string>, version: string, stale: string)
    requires !HasVersionLine(lines)
    ensures TempContent(lines, version, stale) == Joined(lines) + AppendedLine(version)
  {
    assert Outputs(lines, version, stale) == lines;
  }

  /** With every assignment up to date the file is left alone, however many there are. */
  lemma CurrentVersionNeedsNoUpdate(lines: seq<string>, version: string)
    requires HasVersionLine(lines)
    requires forall i :: 0 <= i < |lines| && MatchVersion(lines[i]).Some? ==> MatchVersion(lines[i]).value == version
    ensures !NeedsUpdate(lines, version)
  {
  }

  // ---------------------------------------------------------------------------
  // Reading the result back: readlines()
  // ---------------------------------------------------------------------------

  /** The length of the first line of `s`: up to and including the first line feed. */
  function FirstLineLength(s: string): (n: nat)
    ensures s != [] ==> 0 < n <= |s|
    ensures n <= |s|
    ensures forall k :: 0 <= k < n - 1 ==> s[k] != '\n'
    ensures n < |s| ==> 0 < n && s[n - 1] == '\n'
    decreases |s|
  {
    if s == [] then 0 else if s[0] == '\n' then 1 else 1 + FirstLineLength(s[1..])
  }

  /** `readlines()` on text without carriage returns: the text cut after every line feed,
      the last piece possibly without one. Text mode's handling of `'\r'` belongs to `open`
      and is not modelled. The pieces are non-empty, hold a line feed only as their last character, every piece
      but the last ends in one, and together they are the whole text. */
  function SplitLines(s: string): (r: seq<string>)
    ensures Joined(r) == s
    ensures forall i :: 0 <= i < |r| ==> r[i] != [] && forall k :: 0 <= k < |r[i]| - 1 ==> r[i][k] != '\n'
    ensures forall i :: 0 <= i < |r| - 1 ==> IsLine(r[i])
    decreases |s|
  {
    if s == [] then [] else [s[..FirstLineLength(s)]] + SplitLines(s[FirstLineLength(s)..])
  }

  /** A complete line: non-empty, with its only line feed at the end. */
  predicate IsLine(l: string)
  {
    |l| > 0 && l[|l| - 1] == '\n' && forall k :: 0 <= k < |l| - 1 ==> l[k] != '\n'
  }

  lemma {:induction false} FirstLineLengthOfLine(l: string, s: string)
    requires |l| > 0 && l[|l| - 1] == '\n' && forall k :: 0 <= k < |l| - 1 ==> l[k] != '\n'
    ensures FirstLineLength(l + s) == |l|
    decreases |l|
  {
    if |l| > 1 {
      assert (l + s)[1..] == l[1..] + s;
      FirstLineLengthOfLine(l[1..], s);
    }
  }

  lemma {:induction false} FirstLineLengthNoFeed(t: string)
    requires forall k :: 0 <= k < |t| ==> t[k] != '\n'
    ensures FirstLineLength(t) == |t|
    decreases |t|
  {
    if t != [] {
      FirstLineLengthNoFeed(t[1..]);
    }
  }

  /** `readlines()` on a complete line followed by more text gives that line first. */
  lemma SplitLinesAfterLine(l: string, s: string)
    requires IsLine(l)
    ensures SplitLines(l + s) == [l] + SplitLines(s)
  {
    FirstLineLengthOfLine(l, s);
    assert (l + s)[..|l|] == l && (l + s)[|l|..] == s;
  }

  /** The non-empty texts of a sequence, in order. */
  function NonEmpty(texts: seq<string>): (r: seq<string>)
    ensures forall x :: x in r <==> x in texts && x != ""
    decreases |texts|
  {
    if texts == [] then []
    else (if texts[0] == "" then [] else [texts[0]]) + NonEmpty(texts[1..])
  }

  /** Reading back texts that are each empty or a complete line, followed by a last piece
      without line feed, gives the non-empty texts and then that piece. */
  lemma {:induction false} SplitJoined(texts: seq<string>, tail: string)
    requires forall i :: 0 <= i < |texts| ==> texts[i] == "" || IsLine(texts[i])
    requires forall k :: 0 <= k < |tail| ==> tail[k] != '\n'
    ensures SplitLines(Joined(texts) + tail) == NonEmpty(texts) + (if tail == "" then [] else [tail])
    decreases |texts|
  {
    if texts == [] {
      assert Joined(texts) + tail == tail;
      SplitLinesNoFeed(tail);
    } else {
      var t := texts[0];
      var more := texts[1..];
      assert Joined(texts) + tail == t + (Joined(more) + tail);
      assert forall i :: 0 <= i < |more| ==> more[i] == texts[i + 1];
      SplitJoined(more, tail);
      SplitLinesPiece(t, Joined(more) + tail);
      var lines := if tail == "" then [] else [tail];
      assert NonEmpty(texts) == (if t == "" then [] else [t]) + NonEmpty(more);
      AppendAssoc(if t == "" then [] else [t], NonEmpty(more), lines);
    }
  }

  /** A text without line feeds is read back as itself, or as nothing when empty. */
  lemma SplitLinesNoFeed(tail: string)
    requires forall k :: 0 <= k < |tail| ==> tail[k] != '\n'
    ensures SplitLines(tail) == if tail == "" then [] else [tail]
  {
    if tail != "" {
      FirstLineLengthNoFeed(tail);
      assert tail[..|tail|] == tail && tail[|tail|..] == [];
    }
  }

  /** An empty text before `s` adds nothing, a complete line before it comes first. */
  lemma SplitLinesPiece(t: string, s: string)
    requires t == "" || IsLine(t)
    ensures SplitLines(t + s) == (if t == "" then [] else [t]) + SplitLines(s)
  {
    if t == "" {
      assert t + s == s;
    } else {
      SplitLinesAfterLine(t, s);
    }
  }

  /** Reading back the lines of a file gives those lines. */
  lemma SplitJoinedLines(lines: seq<string>)
    requires forall i :: 0 <= i < |lines| ==> IsLine(lines[i])
    ensures SplitLines(Joined(lines)) == lines
  {
    SplitJoined(lines, "");
    NonEmptyOfLines(lines);
    assert Joined(lines) + "" == Joined(lines);
  }

  lemma {:induction false} NonEmptyOfLines(lines: seq<string>)
    requires forall i :: 0 <= i < |lines| ==> IsLine(lines[i])
    ensures NonEmpty(lines) == lines
    decreases |lines|
  {
    if lines != [] {
      NonEmptyOfLines(lines[1..]);
    }
  }

  // ---------------------------------------------------------------------------
  // Running the update twice
  // ---------------------------------------------------------------------------

  /** The version file after one run with `stale` written for outdated assignments. */
  function FileAfter(lines: seq<string>, version: string, stale: string): string
  {
    if NeedsUpdate(lines, version) then TempContent(lines, version, stale) else Joined(lines)
  }

  /** A version that fits between quotes on one line. */
  predicate PlainVersion(version: string)
  {
    forall k :: 0 <= k < |version| ==> !IsQuote(version[k]) && version[k] != '\n'
  }

  /** The program's own version fits between quotes on one line, so the results about
      running the update twice apply to it. */
  lemma PackageVersionIsPlain()
    ensures PlainVersion(PackageVersion)
  {
  }

  /** The corrected assignment line is matched, with the version it was written with. */
  lemma CorrectedLineMatches(version: string)
    requires PlainVersion(version)
    ensures MatchVersion(StaleLineCorrected(version)) == Some(version)
  {
    var a := Assignment("", " ", " ", '\'', version, '\'', "\n");
    assert Render(a) == StaleLineCorrected(version);
    MatchVersionAccepts(a);
  }

  /** The corrected assignment is one complete line. */
  lemma CorrectedLineIsLine(version: string)
    requires PlainVersion(version)
    ensures IsLine(StaleLineCorrected(version))
  {
    var l := StaleLineCorrected(version);
    var head := "__version__ = '";
    assert l == head + version + "'\n";
    forall k | 0 <= k < |l| - 1
      ensures l[k] != '\n'
    {
      if k < |head| {
        assert l[k] == head[k];
      } else if k < |head| + |version| {
        assert l[k] == version[k - |head|];
      } else {
        assert l[k] == '\'';
      }
    }
  }

  /** The appended assignment is matched, with its version. */
  lemma AppendedLineMatches(version: string)
    requires PlainVersion(version)
    ensures MatchVersion(AppendedLine(version)) == Some(version)
  {
    var a := Assignment("", " ", " ", '\'', version, '\'', "");
    assert Render(a) == AppendedLine(version);
    MatchVersionAccepts(a);
  }

  /** Every text is either no assignment or an up-to-date one. */
  predicate Settled(texts: seq<string>, version: string)
  {
    forall x :: x in texts ==> MatchVersion(x).None? || MatchVersion(x) == Some(version)
  }

  /** Settled lines with at least one assignment need no update. */
  lemma SettledNeedsNoUpdate(texts: seq<string>, version: string, k: nat)
    requires Settled(texts, version)
    requires k < |texts| && MatchVersion(texts[k]) == Some(version)
    ensures !NeedsUpdate(texts, version)
  {
    assert HasVersionLine(texts);
    forall i | 0 <= i < |texts| && MatchVersion(texts[i]).Some?
      ensures MatchVersion(texts[i]).value == version
    {
      assert texts[i] in texts;
    }
  }

  /** With the corrected line, every output is empty or a complete line. */
  lemma CorrectedOutputsAreLines(lines: seq<string>, version: string)
    requires forall i :: 0 <= i < |lines| ==> IsLine(lines[i])
    requires PlainVersion(version)
    ensures forall i :: 0 <= i < |lines| ==>
              Outputs(lines, version, StaleLineCorrected(version))[i] == "" ||
              IsLine(Outputs(lines, version, StaleLineCorrected(version))[i])
  {
    CorrectedLineIsLine(version);
  }

  /** With the corrected line, every output is untouched text or an up-to-date assignment. */
  lemma CorrectedOutputsSettled(lines: seq<string>, version: string)
    requires PlainVersion(version)
    ensures Settled(Outputs(lines, version, StaleLineCorrected(version)), version)
  {
    CorrectedLineMatches(version);
    var outs := Outputs(lines, version, StaleLineCorrected(version));
    forall x | x in outs
      ensures MatchVersion(x).None? || MatchVersion(x) == Some(version)
    {
      var i :| 0 <= i < |outs| && outs[i] == x;
      assert x == LineOutput(lines[i], version, StaleLineCorrected(version));
      assert MatchVersion("") == None;
    }
  }

  /** The appended assignment holds no line feed. */
  lemma AppendedLineHasNoFeed(version: string)
    requires PlainVersion(version)
    ensures forall k :: 0 <= k < |AppendedLine(version)| ==> AppendedLine(version)[k] != '\n'
  {
    var l := AppendedLine(version);
    var head := "__version__ = '";
    assert l == head + version + "'";
    forall k | 0 <= k < |l|
      ensures l[k] != '\n'
    {
      if k < |head| {
        assert l[k] == head[k];
      } else if k < |head| + |version| {
        assert l[k] == version[k - |head|];
      } else {
        assert l[k] == '\'';
      }
    }
  }

  /** The texts a second run reads after an update with the corrected line: the non-empty
      outputs, then the appended assignment if there was none. */
  function ReadBack(lines: seq<string>, version: string): seq<string>
  {
    NonEmpty(Outputs(lines, version, StaleLineCorrected(version))) +
    (if HasVersionLine(lines) then [] else [AppendedLine(version)])
  }

  lemma CorrectedReadBack(lines: seq<string>, version: string)
    requires forall i :: 0 <= i < |lines| ==> IsLine(lines[i])
    requires PlainVersion(version)
    ensures SplitLines(TempContent(lines, version, StaleLineCorrected(version))) == ReadBack(lines, version)
  {
    var outs := Outputs(lines, version, StaleLineCorrected(version));
    var tail := if HasVersionLine(lines) then "" else AppendedLine(version);
    CorrectedOutputsAreLines(lines, version);
    AppendedLineHasNoFeed(version);
    SplitJoined(outs, tail);
    assert AppendedLine(version) != "";
  }

  lemma ReadBackSettled(lines: seq<string>, version: string)
    requires PlainVersion(version)
    ensures Settled(ReadBack(lines, version), version)
  {
    CorrectedOutputsSettled(lines, version);
    AppendedLineMatches(version);
  }

  /** After an update, the read-back texts hold an up-to-date assignment: a rewritten
      one, or the appended one. */
  lemma ReadBackHasCurrent(lines: seq<string>, version: string) returns (k: nat)
    requires PlainVersion(version)
    requires NeedsUpdate(lines, version)
    ensures k < |ReadBack(lines, version)| && MatchVersion(ReadBack(lines, version)[k]) == Some(version)
  {
    var stale := StaleLineCorrected(version);
    var outs := Outputs(lines, version, stale);
    var again := ReadBack(lines, version);
    if HasVersionLine(lines) {
      var i :| 0 <= i < |lines| && MatchVersion(lines[i]).Some? && MatchVersion(lines[i]).value != version;
      assert outs[i] == stale;
      assert stale in NonEmpty(outs);
      CorrectedLineMatches(version);
      k := IndexIn(again, stale);
    } else {
      AppendedLineMatches(version);
      k := |again| - 1;
    }
  }

  /** With the corrected line, the update is stable: on a file of complete lines, a second
      run finds every assignment up to date and leaves the file alone. */
  lemma CorrectedUpdateIsStable(lines: seq<string>, version: string)
    requires forall i :: 0 <= i < |lines| ==> IsLine(lines[i])
    requires PlainVersion(version)
    ensures !NeedsUpdate(SplitLines(FileAfter(lines, version, StaleLineCorrected(version))), version)
  {
    if !NeedsUpdate(lines, version) {
      SplitJoinedLines(lines);
    } else {
      CorrectedReadBack(lines, version);
      ReadBackSettled(lines, version);
      var k := ReadBackHasCurrent(lines, version);
      SettledNeedsNoUpdate(ReadBack(lines, version), version, k);
    }
  }

  /** A position of `x` in `s`. */
  function IndexIn(s: seq<string>, x: string): (k: nat)
    requires x in s
    ensures k < |s| && s[k] == x
  {
    if s[0] == x then 0 else 1 + IndexIn(s[1..], x)
  }

  /** A text without line feed followed by a complete line is one complete line. */
  lemma GluedIsLine(t: string, l: string)
    requires forall k :: 0 <= k < |t| ==> t[k] != '\n'
    requires IsLine(l)
    ensures IsLine(t + l)
  {
    var g := t + l;
    forall k | 0 <= k < |g| - 1
      ensures g[k] != '\n'
    {
      if k < |t| {
        assert g[k] == t[k];
      } else {
        assert g[k] == l[k - |t|];
      }
    }
    assert g[|g| - 1] == l[|l| - 1];
  }

  /** The as-written text for an outdated assignment, followed by a quote-free line, opens a
      quote that is never closed, so the matcher rejects the glued line. */
  lemma GluedLineUnmatched(version: string, next: string)
    requires NoQuote(version) && NoQuote(next)
    ensures MatchVersion(StaleLineAsWritten(version) + next) == None
  {
    var v := version + next;
    var t1 := " " + ("'" + v);
    var t0 := " " + ("=" + t1);
    var glued := StaleLineAsWritten(version) + next;
    StaleLineAsWrittenPieces(version, next);
    MatchVersionSkips("", "__version__" + t0);
    MatchNameAccepts(t0);
    MatchEqualsSkips(" ", t1);
    MatchQuotedSkips(" ", '\'', v);
    NoQuoteConcat(version, next);
    NonQuoteRunAll(v);
  }

  lemma StaleLineAsWrittenPieces(version: string, next: string)
    ensures StaleLineAsWritten(version) + next == "" + ("__version__" + (" " + ("=" + (" " + ("'" + (version + next))))))
  {
  }

  lemma NoQuoteConcat(s: string, t: string)
    requires NoQuote(s) && NoQuote(t)
    ensures NoQuote(s + t)
  {
    var v := s + t;
    forall k | 0 <= k < |v|
      ensures !IsQuote(v[k])
    {
      if k < |s| {
        assert v[k] == s[k];
      } else {
        assert v[k] == t[k - |s|];
      }
    }
  }

  /** The as-written text for an outdated assignment holds no line feed. */
  lemma StaleLineAsWrittenHasNoFeed(version: string)
    requires PlainVersion(version)
    ensures forall k :: 0 <= k < |StaleLineAsWritten(version)| ==> StaleLineAsWritten(version)[k] != '\n'
  {
    var l := StaleLineAsWritten(version);
    var head := "__version__ = '";
    assert l == head + version;
    forall k | 0 <= k < |l|
      ensures l[k] != '\n'
    {
      if k < |head| {
        assert l[k] == head[k];
      } else {
        assert l[k] == version[k - |head|];
      }
    }
  }

  /** As written, rewriting an outdated assignment leaves an unterminated string literal
      that swallows the next line. When that line holds no quote, the glued line is not
      recognised as an assignment, so a second run finds none and appends another one: the
      file is not settled after one run. */
  lemma AsWrittenUpdateBreaksTheFile(previous: string, version: string, next: string)
    requires PlainVersion(previous) && PlainVersion(version) && previous != version
    requires IsLine(next) && NoQuote(next) && MatchVersion(next) == None
    ensures NeedsUpdate([StaleLineCorrected(previous), next], version)
    ensures FileAfter([StaleLineCorrected(previous), next], version, StaleLineAsWritten(version))
            == StaleLineAsWritten(version) + next
    ensures SplitLines(StaleLineAsWritten(version) + next) == [StaleLineAsWritten(version) + next]
    ensures NeedsUpdate(SplitLines(StaleLineAsWritten(version) + next), version)
  {
    var lines := [StaleLineCorrected(previous), next];
    var stale := StaleLineAsWritten(version);
    CorrectedLineMatches(previous);
    assert MatchVersion(lines[0]) == Some(previous);
    assert HasStaleVersionLine(lines, version);
    assert HasVersionLine(lines);
    assert Outputs(lines, version, stale) == [stale, next];
    assert Joined([stale, next]) == stale + next by {
      assert Joined([next]) == next + Joined([]);
    }
    var glued := stale + next;
    StaleLineAsWrittenHasNoFeed(version);
    GluedIsLine(stale, next);
    SplitLinesAfterLine(glued, "");
    assert glued + "" == glued;
    GluedLineUnmatched(version, next);
    assert SplitLines(glued) == [glued];
    assert !HasVersionLine([glued]);
  }

  /** The discrepancy on a two-line file: `__version__ = '1.0'` then `import os`, brought
      to version 2.0. */
  lemma AsWrittenExample()
    ensures FileAfter(["__version__ = '1.0'\n", "import os\n"], "2.0", StaleLineAsWritten("2.0"))
            == "__version__ = '2.0import os\n"
    ensures NeedsUpdate(SplitLines("__version__ = '2.0import os\n"), "2.0")
  {
    var next := "import os\n";
    assert MatchVersion(next) == None by {
      assert next[0] != "__version__"[0];
    }
    assert StaleLineCorrected("1.0") == "__version__ = '1.0'\n";
    assert StaleLineAsWritten("2.0") + next == "__version__ = '2.0import os\n";
    AsWrittenUpdateBreaksTheFile("1.0", "2.0", next);
  }

  /** As written, a file whose only line is an outdated assignment never settles. The
      first run leaves `__version__ = '<version>` with no closing quote. The next run does not
      recognise it as an assignment and appends one, giving a line whose captured version
      runs up to the appended quote. That version is outdated, so the run after rewrites
      the line back to what the first run left, and the file alternates between the two. */
  lemma AsWrittenLastLineAlternates(previous: string, version: string)
    requires PlainVersion(previous) && PlainVersion(version) && previous != version
    ensures FileAfter([StaleLineCorrected(previous)], version, StaleLineAsWritten(version))
            == StaleLineAsWritten(version)
    ensures SplitLines(StaleLineAsWritten(version)) == [StaleLineAsWritten(version)]
    ensures NeedsUpdate([StaleLineAsWritten(version)], version)
    ensures FileAfter([StaleLineAsWritten(version)], version, StaleLineAsWritten(version))
            == StaleLineAsWritten(version) + AppendedLine(version)
    ensures SplitLines(StaleLineAsWritten(version) + AppendedLine(version))
            == [StaleLineAsWritten(version) + AppendedLine(version)]
    ensures MatchVersion(StaleLineAsWritten(version) + AppendedLine(version)) == Some(version + "__version__ = ")
    ensures NeedsUpdate([StaleLineAsWritten(version) + AppendedLine(version)], version)
    ensures FileAfter([StaleLineAsWritten(version) + AppendedLine(version)], version, StaleLineAsWritten(version))
            == StaleLineAsWritten(version)
  {
    var w := StaleLineAsWritten(version);
    var g := w + AppendedLine(version);
    var captured := version + "__version__ = ";
    CorrectedLineMatches(previous);
    OnlyLineOutdated(StaleLineCorrected(previous), version, previous, w);
    StaleLineAsWrittenHasNoFeed(version);
    SplitLinesNoFeed(w);
    UnterminatedLineIsNotAnAssignment(version);
    GluedAssignmentMatches(version);
    SplitLinesNoFeed(g);
    assert |captured| != |version|;
    OnlyLineOutdated(g, version, captured, w);
  }

  /** Run on a file whose one line assigns the outdated `v`, an update writes `stale`. */
  lemma OnlyLineOutdated(line: string, version: string, v: string, stale: string)
    requires MatchVersion(line) == Some(v) && v != version
    ensures NeedsUpdate([line], version)
    ensures FileAfter([line], version, stale) == stale
  {
    assert MatchVersion([line][0]) == Some(v);
    assert Outputs([line], version, stale) == [stale];
    assert Joined([stale]) == stale + Joined([]);
  }

  /** The text the first run leaves is not an assignment, so the next run appends one. */
  lemma UnterminatedLineIsNotAnAssignment(version: string)
    requires PlainVersion(version)
    ensures NeedsUpdate([StaleLineAsWritten(version)], version)
    ensures FileAfter([StaleLineAsWritten(version)], version, StaleLineAsWritten(version))
            == StaleLineAsWritten(version) + AppendedLine(version)
  {
    var w := StaleLineAsWritten(version);
    GluedLineUnmatched(version, "");
    assert w + "" == w;
    assert MatchVersion([w][0]) == None;
    assert !HasVersionLine([w]);
    assert Outputs([w], version, w) == [w];
    assert Joined([w]) == w + Joined([]);
  }

  /** The unterminated text followed by the appended assignment is one line, and it
      matches with the outdated version that runs up to the appended quote. */
  lemma GluedAssignmentMatches(version: string)
    requires PlainVersion(version)
    ensures MatchVersion(StaleLineAsWritten(version) + AppendedLine(version)) == Some(version + "__version__ = ")
    ensures forall k :: 0 <= k < |StaleLineAsWritten(version) + AppendedLine(version)| ==>
              (StaleLineAsWritten(version) + AppendedLine(version))[k] != '\n'
  {
    var w := StaleLineAsWritten(version);
    var g := w + AppendedLine(version);
    StaleLineAsWrittenHasNoFeed(version);
    AppendedLineHasNoFeed(version);
    forall k | 0 <= k < |g|
      ensures g[k] != '\n'
    {
      if k >= |w| {
        assert g[k] == AppendedLine(version)[k - |w|];
      } else {
        assert g[k] == w[k];
      }
    }
    NoQuoteConcat(version, "__version__ = ");
    var a := Assignment("", " ", " ", '\'', version + "__version__ = ", '\'', version + "'");
    assert Render(a) == g;
    MatchVersionAccepts(a);
  }
}
