/** Reading the output of `git diff -U0` as removed and added lines per file. */
module DiffReader {
  import opened PyText
  import opened Wrappers

  datatype FileDiff = FileDiff(path: string, removed: seq<string>, added: seq<string>)

  /** The state of the reading loop. */
  datatype Reader = Reader(current: Option<string>, removed: seq<string>, added: seq<string>, seenHunk: bool)

  const START := Reader(None, [], [], false)
  const DIFF_GIT := "diff --git "
  const SEPARATOR := " b/"

  predicate Contains(s: string) {
    SEPARATOR <= s || (s != "" && Contains(s[1..]))
  }

  /** line.split(" b/", 1)[1]; None where Python raises IndexError. */
  function AfterSeparator(s: string): Option<string> {
    if SEPARATOR <= s then Some(s[3..])
    else if s == "" then None
    else AfterSeparator(s[1..])
  }

  function Emit(st: Reader): seq<FileDiff> {
    if st.current.Some? then [FileDiff(st.current.value, st.removed, st.added)] else []
  }

  /** The effect of a line that does not start a new file. */
  function Step(st: Reader, line: string): Reader {
    if st.current.None? then st
    else if "@@" <= line then st.(seenHunk := true)
    else if !st.seenHunk && ("--- " <= line || "+++ " <= line) then st
    else if "-" <= line then st.(removed := st.removed + [line[1..]])
    else if "+" <= line then st.(added := st.added + [line[1..]])
    else st
  }

  function Prepend(done: seq<FileDiff>, files: Option<seq<FileDiff>>): Option<seq<FileDiff>> {
    if files.None? then None else Some(done + files.value)
  }

  lemma PrependTwice(a: seq<FileDiff>, b: seq<FileDiff>, files: Option<seq<FileDiff>>)
    ensures Prepend(a, Prepend(b, files)) == Prepend(a + b, files)
    ensures Prepend([], files) == files
  {
    if files.Some? {
      assert a + (b + files.value) == a + b + files.value;
      assert [] + files.value == files.value;
    }
  }

  function Read(st: Reader, lines: seq<string>): Option<seq<FileDiff>>
    decreases |lines|
  {
    if lines == [] then Some(Emit(st))
    else if DIFF_GIT <= lines[0] then
      match AfterSeparator(lines[0])
      case None => None
      case Some(path) => Prepend(Emit(st), Read(Reader(Some(path), [], [], false), lines[1..]))
    else Read(Step(st, lines[0]), lines[1..])
  }

  /** The reading loop over the raw output. */
  method IterDiffFiles(raw: string) returns (files: Option<seq<FileDiff>>)
    ensures files == Read(START, SplitLines(raw))
  {
    var lines := SplitLines(raw);
    var done: seq<FileDiff> := [];
    var current: Option<string> := None;
    var removed, added: seq<string> := [], [];
    var seenHunk := false;
    PrependTwice([], [], Read(START, lines));
    for k := 0 to |lines|
      invariant Read(START, lines) == Prepend(done, Read(Reader(current, removed, added, seenHunk), lines[k..]))
    {
      ghost var st := Reader(current, removed, added, seenHunk);
      var line := lines[k];
      assert lines[k..][0] == line && lines[k..][1..] == lines[k + 1..];
      if DIFF_GIT <= line {
        ghost var done0 := done;
        if current.Some? {
          done := done + [FileDiff(current.value, removed, added)];
        }
        assert done == done0 + Emit(st);
        current := AfterSeparator(line);
        if current.None? {
          return None;
        }
        removed, added, seenHunk := [], [], false;
        PrependTwice(done0, Emit(st), Read(Reader(current, [], [], false), lines[k + 1..]));
        continue;
      }
      if current.None? {
        continue;
      }
      if "@@" <= line {
        seenHunk := true;
        continue;
      }
      if !seenHunk && ("--- " <= line || "+++ " <= line) {
        continue;
      }
      if "-" <= line {
        removed := removed + [line[1..]];
      } else if "+" <= line {
        added := added + [line[1..]];
      }
    }
    assert lines[|lines|..] == [];
    ghost var last := Emit(Reader(current, removed, added, seenHunk));
    assert Read(START, lines) == Some(done + last);
    if current.Some? {
      done := done + [FileDiff(current.value, removed, added)];
    } else {
      assert done + last == done;
    }
    files := Some(done);
  }

  // ----- what git prints -----

  datatype Hunk = Hunk(range: string, removed: seq<string>, removedNoEol: bool, added: seq<string>, addedNoEol: bool)

  /** `extended` are the lines between the header and the first hunk other than the names. */
  datatype FilePatch = FilePatch(path: string, extended: seq<string>, oldName: string, newName: string,
                                 hunks: seq<Hunk>)

  function Prefixed(mark: char, lines: seq<string>): seq<string> {
    if lines == [] then [] else [[mark] + lines[0]] + Prefixed(mark, lines[1..])
  }

  function NoEol(flag: bool): seq<string> {
    if flag then ["\\ No newline at end of file"] else []
  }

  function PrintHunk(h: Hunk): seq<string> {
    ["@@ " + h.range] + (Prefixed('-', h.removed) + (NoEol(h.removedNoEol)
      + (Prefixed('+', h.added) + NoEol(h.addedNoEol))))
  }

  function PrintHunks(hs: seq<Hunk>): seq<string> {
    if hs == [] then [] else PrintHunk(hs[0]) + PrintHunks(hs[1..])
  }

  function Header(path: string): string {
    "diff --git " + "a/" + path + " b/" + path
  }

  function Names(f: FilePatch): seq<string> {
    if f.hunks == [] then [] else ["--- " + f.oldName, "+++ " + f.newName]
  }

  function PrintFile(f: FilePatch): seq<string> {
    [Header(f.path)] + (f.extended + (Names(f) + PrintHunks(f.hunks)))
  }

  function PrintDiff(fs: seq<FilePatch>): seq<string> {
    if fs == [] then [] else PrintFile(fs[0]) + PrintDiff(fs[1..])
  }

  function AllRemoved(hs: seq<Hunk>): seq<string> {
    if hs == [] then [] else hs[0].removed + AllRemoved(hs[1..])
  }

  function AllAdded(hs: seq<Hunk>): seq<string> {
    if hs == [] then [] else hs[0].added + AllAdded(hs[1..])
  }

  function Changes(fs: seq<FilePatch>): seq<FileDiff> {
    if fs == [] then []
    else [FileDiff(fs[0].path, AllRemoved(fs[0].hunks), AllAdded(fs[0].hunks))] + Changes(fs[1..])
  }

  /** An extended header line: modes, index, "Binary files ... differ". */
  predicate Inert(line: string) {
    line != "" && line[0] !in "@-+" && !(DIFF_GIT <= line)
  }

  ghost predicate Printable(f: FilePatch) {
    !Contains(f.path) && forall i :: 0 <= i < |f.extended| ==> Inert(f.extended[i])
  }

  // ----- the header -----

  /** The separator stands somewhere in the text. */
  lemma {:induction false} ContainsExact(s: string)
    ensures Contains(s) <==> exists p, q :: s == p + (" b/" + q)
  {
    if s == "" {
    } else if SEPARATOR <= s {
      assert s == "" + (" b/" + s[3..]);
    } else {
      ContainsExact(s[1..]);
      if Contains(s[1..]) {
        var p, q :| s[1..] == p + (" b/" + q);
        assert s == ([s[0]] + p) + (" b/" + q);
      }
      if exists p, q :: s == p + (" b/" + q) {
        var p, q :| s == p + (" b/" + q);
        assert s[1..] == p[1..] + (" b/" + q);
      }
    }
  }

  lemma {:induction false} AfterFirst(x: string, p: string)
    requires !Contains(x)
    ensures AfterSeparator(x + SEPARATOR + p) == Some(p)
  {
    var s := x + SEPARATOR + p;
    if x == "" {
      assert s[3..] == p && s[..3] == SEPARATOR;
    } else {
      assert s[1..] == x[1..] + SEPARATOR + p;
      AfterFirst(x[1..], p);
      assert |x| >= 3 ==> s[..3] == x[..3];
      assert |x| < 3 ==> s[|x|] == ' ';
    }
  }

  lemma {:induction false} ContainsLong(x: string)
    requires Contains(x)
    ensures |x| >= 3
  {
    if !(SEPARATOR <= x) {
      ContainsLong(x[1..]);
    }
  }

  lemma {:induction false} AfterEarlier(x: string, y: string)
    requires Contains(x)
    ensures AfterSeparator(x + y).Some? && |AfterSeparator(x + y).value| >= |y|
  {
    ContainsLong(x);
    assert (x + y)[3..] == x[3..] + y;
    if !(SEPARATOR <= x + y) {
      assert (x + y)[1..] == x[1..] + y;
      AfterEarlier(x[1..], y);
    }
  }

  lemma {:induction false} ContainsSkip(w: string, p: string)
    requires forall i :: 0 <= i < |w| - 1 ==> w[i] != ' ' || w[i + 1] != 'b'
    requires w != "" ==> w[|w| - 1] != ' '
    ensures Contains(w + p) == Contains(p)
  {
    if w == "" {
      assert w + p == p;
    } else {
      assert (w + p)[1..] == w[1..] + p;
      ContainsSkip(w[1..], p);
      assert !(SEPARATOR <= w + p) by {
        assert (w + p)[0] == w[0] && (|w| > 1 ==> (w + p)[1] == w[1]);
      }
    }
  }

  /** The path is read back from the header exactly when it does not contain " b/". */
  lemma HeaderPath(path: string)
    ensures AfterSeparator(Header(path)) == Some(path) <==> !Contains(path)
    ensures DIFF_GIT <= Header(path)
  {
    var w := DIFF_GIT + "a/";
    ContainsSkip(w, path);
    assert Header(path) == (w + path) + SEPARATOR + path;
    assert Header(path) == (w + path) + (SEPARATOR + path);
    assert Header(path)[..|DIFF_GIT|] == DIFF_GIT;
    if Contains(path) {
      AfterEarlier(w + path, SEPARATOR + path);
    } else {
      AfterFirst(w + path, path);
    }
  }

  // ----- the body -----

  lemma ReadCons(st: Reader, line: string, rest: seq<string>)
    requires !(DIFF_GIT <= line)
    ensures Read(st, [line] + rest) == Read(Step(st, line), rest)
  {
    assert ([line] + rest)[1..] == rest;
  }

  lemma {:induction false} ReadInert(st: Reader, lines: seq<string>, rest: seq<string>)
    requires forall i :: 0 <= i < |lines| ==> Inert(lines[i])
    ensures Read(st, lines + rest) == Read(st, rest)
    decreases |lines|
  {
    if lines == [] {
      assert lines + rest == rest;
    } else {
      assert lines + rest == [lines[0]] + (lines[1..] + rest);
      ReadCons(st, lines[0], lines[1..] + rest);
      assert Step(st, lines[0]) == st;
      ReadInert(st, lines[1..], rest);
    }
  }

  function WithLines(st: Reader, mark: char, lines: seq<string>): Reader {
    if mark == '-' then st.(removed := st.removed + lines) else st.(added := st.added + lines)
  }

  lemma StepContent(st: Reader, mark: char, content: string)
    requires st.current.Some? && st.seenHunk && (mark == '-' || mark == '+')
    ensures !(DIFF_GIT <= [mark] + content)
    ensures Step(st, [mark] + content) == WithLines(st, mark, [content])
  {
    var line := [mark] + content;
    assert line[0] == mark && line[1..] == content;
    assert DIFF_GIT[0] == 'd' && "@@"[0] == '@';
    assert line[..1] == [mark];
  }

  lemma WithLinesTwice(st: Reader, mark: char, line: string, lines: seq<string>)
    ensures WithLines(WithLines(st, mark, [line]), mark, lines) == WithLines(st, mark, [line] + lines)
    ensures WithLines(st, mark, []) == st
  {
    assert st.removed + [line] + lines == st.removed + ([line] + lines);
    assert st.added + [line] + lines == st.added + ([line] + lines);
    assert st.removed + [] == st.removed && st.added + [] == st.added;
  }

  lemma {:induction false} ReadPrefixed(st: Reader, mark: char, lines: seq<string>, rest: seq<string>)
    requires st.current.Some? && st.seenHunk && (mark == '-' || mark == '+')
    ensures Read(st, Prefixed(mark, lines) + rest) == Read(WithLines(st, mark, lines), rest)
    decreases |lines|
  {
    if lines == [] {
      assert Prefixed(mark, lines) + rest == rest;
      WithLinesTwice(st, mark, "", []);
    } else {
      var line, tail := [mark] + lines[0], Prefixed(mark, lines[1..]) + rest;
      assert Prefixed(mark, lines) + rest == [line] + tail;
      StepContent(st, mark, lines[0]);
      ReadCons(st, line, tail);
      ReadPrefixed(WithLines(st, mark, [lines[0]]), mark, lines[1..], rest);
      WithLinesTwice(st, mark, lines[0], lines[1..]);
      assert [lines[0]] + lines[1..] == lines;
    }
  }

  lemma ReadNoEol(st: Reader, flag: bool, rest: seq<string>)
    ensures Read(st, NoEol(flag) + rest) == Read(st, rest)
  {
    assert "\\ No newline at end of file"[0] == '\\' && DIFF_GIT[0] == 'd';
    ReadInert(st, NoEol(flag), rest);
  }

  lemma {:induction false} ReadHunk(st: Reader, h: Hunk, rest: seq<string>)
    requires st.current.Some?
    ensures Read(st, PrintHunk(h) + rest)
         == Read(Reader(st.current, st.removed + h.removed, st.added + h.added, true), rest)
  {
    var l5 := NoEol(h.addedNoEol) + rest;
    var l4 := Prefixed('+', h.added) + l5;
    var l3 := NoEol(h.removedNoEol) + l4;
    var l2 := Prefixed('-', h.removed) + l3;
    var line := "@@ " + h.range;
    assert PrintHunk(h) + rest == [line] + l2;
    assert line[..2] == "@@" && line[0] == '@';
    ReadCons(st, line, l2);
    var st2 := st.(seenHunk := true);
    ReadPrefixed(st2, '-', h.removed, l3);
    var st3 := WithLines(st2, '-', h.removed);
    ReadNoEol(st3, h.removedNoEol, l4);
    ReadPrefixed(st3, '+', h.added, l5);
    ReadNoEol(WithLines(st3, '+', h.added), h.addedNoEol, rest);
  }

  function AfterHunks(st: Reader, hs: seq<Hunk>): Reader
    decreases |hs|
  {
    if hs == [] then st
    else AfterHunks(Reader(st.current, st.removed + hs[0].removed, st.added + hs[0].added, true), hs[1..])
  }

  lemma {:induction false} ReadHunks(st: Reader, hs: seq<Hunk>, rest: seq<string>)
    requires st.current.Some?
    ensures Read(st, PrintHunks(hs) + rest) == Read(AfterHunks(st, hs), rest)
    decreases |hs|
  {
    if hs == [] {
      assert PrintHunks(hs) + rest == rest;
    } else {
      var tail := PrintHunks(hs[1..]) + rest;
      assert PrintHunks(hs) + rest == PrintHunk(hs[0]) + tail;
      ReadHunk(st, hs[0], tail);
      ReadHunks(Reader(st.current, st.removed + hs[0].removed, st.added + hs[0].added, true), hs[1..], rest);
    }
  }

  /** The hunks of a file add up in order. */
  lemma {:induction false} HunksAddUp(st: Reader, hs: seq<Hunk>)
    ensures AfterHunks(st, hs)
        == Reader(st.current, st.removed + AllRemoved(hs), st.added + AllAdded(hs), st.seenHunk || hs != [])
    decreases |hs|
  {
    if hs == [] {
      assert st.removed + [] == st.removed && st.added + [] == st.added;
    } else {
      var st' := Reader(st.current, st.removed + hs[0].removed, st.added + hs[0].added, true);
      HunksAddUp(st', hs[1..]);
      assert st'.removed + AllRemoved(hs[1..]) == st.removed + AllRemoved(hs);
      assert st'.added + AllAdded(hs[1..]) == st.added + AllAdded(hs);
    }
  }

  lemma ReadNames(st: Reader, f: FilePatch, rest: seq<string>)
    requires !st.seenHunk
    ensures Read(st, Names(f) + rest) == Read(st, rest)
  {
    if f.hunks != [] {
      var a, b := "--- " + f.oldName, "+++ " + f.newName;
      assert a[0] == '-' && b[0] == '+' && a[..4] == "--- " && b[..4] == "+++ ";
      assert Names(f) + rest == [a] + ([b] + rest);
      ReadCons(st, a, [b] + rest);
      assert Step(st, a) == st;
      ReadCons(st, b, rest);
      assert Step(st, b) == st;
    } else {
      assert Names(f) + rest == rest;
    }
  }

  lemma ReadHeader(st: Reader, path: string, rest: seq<string>)
    requires !Contains(path)
    ensures Read(st, [Header(path)] + rest) == Prepend(Emit(st), Read(Reader(Some(path), [], [], false), rest))
  {
    HeaderPath(path);
    assert ([Header(path)] + rest)[1..] == rest;
  }

  lemma ReadFile(st: Reader, f: FilePatch, rest: seq<string>)
    requires Printable(f)
    ensures Read(st, PrintFile(f) + rest)
         == Prepend(Emit(st), Read(Reader(Some(f.path), AllRemoved(f.hunks), AllAdded(f.hunks), f.hunks != []), rest))
  {
    var l3 := PrintHunks(f.hunks) + rest;
    var l2 := Names(f) + l3;
    var blank := Reader(Some(f.path), [], [], false);
    assert PrintFile(f) + rest == [Header(f.path)] + (f.extended + l2);
    ReadHeader(st, f.path, f.extended + l2);
    ReadInert(blank, f.extended, l2);
    ReadNames(blank, f, l3);
    ReadHunks(blank, f.hunks, rest);
    HunksAddUp(blank, f.hunks);
    assert [] + AllRemoved(f.hunks) == AllRemoved(f.hunks) && [] + AllAdded(f.hunks) == AllAdded(f.hunks);
  }

  /** Reading a printed diff gives back each path with its lines, in order over all hunks,
      whatever the lines start with. */
  lemma {:induction false} ReadPrinted(st: Reader, fs: seq<FilePatch>)
    requires forall i :: 0 <= i < |fs| ==> Printable(fs[i])
    ensures Read(st, PrintDiff(fs)) == Prepend(Emit(st), Some(Changes(fs)))
    decreases |fs|
  {
    if fs == [] {
      assert Emit(st) + [] == Emit(st);
    } else {
      var f, rest := fs[0], PrintDiff(fs[1..]);
      ReadFile(st, f, rest);
      var full := Reader(Some(f.path), AllRemoved(f.hunks), AllAdded(f.hunks), f.hunks != []);
      ReadPrinted(full, fs[1..]);
    }
  }

  // ----- the lines of a read diff are lines -----

  ghost predicate AllNoBreak(lines: seq<string>) {
    forall i :: 0 <= i < |lines| ==> NoBreak(lines[i])
  }

  lemma {:induction false} ReadNoBreak(st: Reader, lines: seq<string>)
    requires AllNoBreak(lines) && AllNoBreak(st.removed) && AllNoBreak(st.added)
    ensures var files := Read(st, lines);
            files.Some? ==> forall f :: f in files.value ==> AllNoBreak(f.removed) && AllNoBreak(f.added)
    decreases |lines|
  {
    if lines == [] {
    } else {
      var line := lines[0];
      if DIFF_GIT <= line {
        var path := AfterSeparator(line);
        if path.Some? {
          ReadNoBreak(Reader(path, [], [], false), lines[1..]);
        }
      } else {
        assert line != "" ==> NoBreak(line[1..]);
        ReadNoBreak(Step(st, line), lines[1..]);
      }
    }
  }

  lemma SplitLinesNoBreak(t: string)
    ensures AllNoBreak(SplitLines(t))
  {
    forall i | 0 <= i < |SplitLines(t)|
      ensures NoBreak(SplitLines(t)[i])
    {
      ContentNoBreak(SplitKeep(t)[i]);
    }
  }

  // ----- the text git prints -----

  /** The lines around the contents hold no line break. */
  ghost predicate FramedHunks(hs: seq<Hunk>) {
    forall i :: 0 <= i < |hs| ==> NoBreak(hs[i].range)
  }

  ghost predicate Framed(f: FilePatch) {
    NoBreak(f.path) && AllNoBreak(f.extended) && NoBreak(f.oldName) && NoBreak(f.newName) && FramedHunks(f.hunks)
  }

  lemma NoBreakAppend(a: seq<string>, b: seq<string>)
    ensures AllNoBreak(a + b) <==> AllNoBreak(a) && AllNoBreak(b)
  {
    if AllNoBreak(a + b) {
      forall i | 0 <= i < |a|
        ensures NoBreak(a[i])
      {
        assert (a + b)[i] == a[i];
      }
      forall i | 0 <= i < |b|
        ensures NoBreak(b[i])
      {
        assert (a + b)[|a| + i] == b[i];
      }
    }
  }

  lemma {:induction false} PrefixedNoBreak(mark: char, lines: seq<string>)
    requires AllNoBreak(lines) && !IsBreak(mark)
    ensures AllNoBreak(Prefixed(mark, lines))
  {
    if lines == [] {
    } else {
      PrefixedNoBreak(mark, lines[1..]);
      NoBreakAppend([[mark] + lines[0]], Prefixed(mark, lines[1..]));
    }
  }

  lemma NoEolNoBreak(flag: bool)
    ensures AllNoBreak(NoEol(flag))
  {
  }

  lemma SideNoBreak(mark: char, lines: seq<string>, flag: bool, rest: seq<string>)
    requires AllNoBreak(lines) && !IsBreak(mark) && AllNoBreak(rest)
    ensures AllNoBreak(Prefixed(mark, lines) + (NoEol(flag) + rest))
  {
    PrefixedNoBreak(mark, lines);
    NoEolNoBreak(flag);
    NoBreakAppend(NoEol(flag), rest);
    NoBreakAppend(Prefixed(mark, lines), NoEol(flag) + rest);
  }

  lemma RangeNoBreak(range: string)
    requires NoBreak(range)
    ensures AllNoBreak(["@@ " + range])
  {
    var line := "@@ " + range;
    assert forall i :: 3 <= i < |line| ==> line[i] == range[i - 3];
  }

  lemma HunkNoBreak(h: Hunk)
    requires NoBreak(h.range) && AllNoBreak(h.removed) && AllNoBreak(h.added)
    ensures AllNoBreak(PrintHunk(h))
  {
    var added := Prefixed('+', h.added) + NoEol(h.addedNoEol);
    SideNoBreak('+', h.added, h.addedNoEol, []);
    assert NoEol(h.addedNoEol) + [] == NoEol(h.addedNoEol);
    SideNoBreak('-', h.removed, h.removedNoEol, added);
    RangeNoBreak(h.range);
    NoBreakAppend(["@@ " + h.range], Prefixed('-', h.removed) + (NoEol(h.removedNoEol) + added));
  }

  lemma {:induction false} HunksNoBreak(hs: seq<Hunk>)
    requires FramedHunks(hs) && AllNoBreak(AllRemoved(hs)) && AllNoBreak(AllAdded(hs))
    ensures AllNoBreak(PrintHunks(hs))
  {
    if hs == [] {
    } else {
      NoBreakAppend(hs[0].removed, AllRemoved(hs[1..]));
      NoBreakAppend(hs[0].added, AllAdded(hs[1..]));
      HunkNoBreak(hs[0]);
      HunksNoBreak(hs[1..]);
      NoBreakAppend(PrintHunk(hs[0]), PrintHunks(hs[1..]));
    }
  }

  lemma FileNoBreak(f: FilePatch)
    requires Framed(f) && AllNoBreak(AllRemoved(f.hunks)) && AllNoBreak(AllAdded(f.hunks))
    ensures AllNoBreak(PrintFile(f))
  {
    HunksNoBreak(f.hunks);
    NoBreakAppend(Names(f), PrintHunks(f.hunks));
    NoBreakAppend(f.extended, Names(f) + PrintHunks(f.hunks));
    NoBreakAppend([Header(f.path)], f.extended + (Names(f) + PrintHunks(f.hunks)));
  }

  ghost predicate ContentsNoBreak(files: seq<FileDiff>) {
    forall i :: 0 <= i < |files| ==> AllNoBreak(files[i].removed) && AllNoBreak(files[i].added)
  }

  lemma {:induction false} DiffNoBreak(fs: seq<FilePatch>)
    requires forall i :: 0 <= i < |fs| ==> Framed(fs[i])
    requires ContentsNoBreak(Changes(fs))
    ensures AllNoBreak(PrintDiff(fs))
  {
    if fs == [] {
    } else {
      assert Changes(fs)[0] == FileDiff(fs[0].path, AllRemoved(fs[0].hunks), AllAdded(fs[0].hunks));
      assert Changes(fs)[1..] == Changes(fs[1..]);
      FileNoBreak(fs[0]);
      DiffNoBreak(fs[1..]);
      NoBreakAppend(PrintFile(fs[0]), PrintDiff(fs[1..]));
    }
  }

  /** The text git prints reads back exactly when no content line holds a character at which
      splitlines breaks. */
  lemma {:induction false} ReadRaw(fs: seq<FilePatch>)
    requires forall i :: 0 <= i < |fs| ==> Printable(fs[i]) && Framed(fs[i])
    ensures Read(START, SplitLines(Unlines(PrintDiff(fs)))) == Some(Changes(fs)) <==> ContentsNoBreak(Changes(fs))
  {
    var lines := PrintDiff(fs);
    SplitLinesNoBreak(Unlines(lines));
    ReadNoBreak(START, SplitLines(Unlines(lines)));
    if ContentsNoBreak(Changes(fs)) {
      DiffNoBreak(fs);
      SplitPrinted(lines);
      ReadPrinted(START, fs);
      PrependTwice([], [], Some(Changes(fs)));
    }
  }

  lemma SplitPrinted(lines: seq<string>)
    requires AllNoBreak(lines)
    ensures Read(START, SplitLines(Unlines(lines))) == Read(START, lines)
  {
    SplitUnlines(lines);
  }
}
