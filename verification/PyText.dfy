/** The Python text operations the gates are built on: splitting a text into lines,
    joining lines back, stripping line ends and blanks, and reading a file in text mode. */
module PyText {

  /** The characters at which str.splitlines ends a line. */
  predicate IsBreak(c: char) {
    || '\n' <= c <= '\r'
    || '\U{1C}' <= c <= '\U{1E}'
    || c == '\U{85}' || c == '\U{2028}' || c == '\U{2029}'
  }

  lemma BreakTable(c: char)
    ensures IsBreak(c) <==> c in "\n\r\U{0B}\U{0C}\U{1C}\U{1D}\U{1E}\U{85}\U{2028}\U{2029}"
  {
  }

  predicate NoBreak(s: string) {
    forall i :: 0 <= i < |s| ==> !IsBreak(s[i])
  }

  /** Length of the first line of `t`, its terminator included; "\r\n" is one terminator. */
  function LineEnd(t: string): (n: nat)
    requires t != ""
    ensures 1 <= n <= |t|
  {
    if IsBreak(t[0]) then
      if t[0] == '\r' && |t| > 1 && t[1] == '\n' then 2 else 1
    else if |t| == 1 then 1
    else 1 + LineEnd(t[1..])
  }

  /** splitlines(keepends=True) */
  function SplitKeep(t: string): (lines: seq<string>)
    ensures t == "" <==> lines == []
  {
    if t == "" then [] else [t[..LineEnd(t)]] + SplitKeep(t[LineEnd(t)..])
  }

  /** "".join(lines) */
  function Concat(lines: seq<string>): string {
    if lines == [] then "" else lines[0] + Concat(lines[1..])
  }

  /** The part of a line before its terminator. */
  function Content(line: string): string {
    if line == "" || IsBreak(line[0]) then "" else [line[0]] + Content(line[1..])
  }

  /** splitlines() */
  function SplitLines(t: string): seq<string> {
    var lines := SplitKeep(t);
    seq(|lines|, i requires 0 <= i < |lines| => Content(lines[i]))
  }

  /** Every line followed by a newline, as a command prints them. */
  function Unlines(lines: seq<string>): string {
    if lines == [] then "" else lines[0] + "\n" + Unlines(lines[1..])
  }

  /** line.rstrip("\n") */
  function Body(line: string): (b: string)
    ensures b <= line
    ensures b == "" || b[|b| - 1] != '\n'
  {
    if line != "" && line[|line| - 1] == '\n' then Body(line[..|line| - 1]) else line
  }

  /** What `rstrip` of a line with at most one newline takes away. */
  function Ending(line: string): string {
    if line != "" && line[|line| - 1] == '\n' then "\n" else ""
  }

  predicate AtMostOneNewline(line: string) {
    line == Body(line) + Ending(line)
  }

  /** Text-mode reading: every "\r\n" and every other "\r" becomes "\n". */
  function ReadText(disk: string): string {
    if disk == "" then ""
    else if disk[0] == '\r' then
      "\n" + ReadText(if |disk| > 1 && disk[1] == '\n' then disk[2..] else disk[1..])
    else [disk[0]] + ReadText(disk[1..])
  }

  /** The characters str.strip() removes. */
  predicate IsSpace(c: char) {
    || '\t' <= c <= '\r' || '\U{1C}' <= c <= ' '
    || c == '\U{85}' || c == '\U{A0}' || c == '\U{1680}'
    || '\U{2000}' <= c <= '\U{200A}'
    || c == '\U{2028}' || c == '\U{2029}' || c == '\U{202F}'
    || c == '\U{205F}' || c == '\U{3000}'
  }

  function LStrip(s: string): string {
    if s != "" && IsSpace(s[0]) then LStrip(s[1..]) else s
  }

  function RStrip(s: string): string {
    if s != "" && IsSpace(s[|s| - 1]) then RStrip(s[..|s| - 1]) else s
  }

  /** str.strip() */
  function Strip(s: string): string {
    RStrip(LStrip(s))
  }

  // ----- splitting and joining are inverse -----

  lemma {:induction false} ConcatSplitKeep(t: string)
    ensures Concat(SplitKeep(t)) == t
  {
    if t == "" {
    } else {
      var n := LineEnd(t);
      ConcatSplitKeep(t[n..]);
      ConcatCons(t[..n], SplitKeep(t[n..]));
      assert t[..n] + t[n..] == t;
    }
  }

  lemma {:induction false} ConcatCons(line: string, rest: seq<string>)
    ensures Concat([line] + rest) == line + Concat(rest)
  {
    assert ([line] + rest)[1..] == rest;
  }

  /** A line break only ends a line: what precedes it is free of breaks. */
  lemma {:induction false} LineEndShape(t: string)
    requires t != ""
    ensures var n := LineEnd(t);
            || NoBreak(t[..n])
            || NoBreak(t[..n - 1])
            || (n >= 2 && NoBreak(t[..n - 2]) && t[n - 2] == '\r' && t[n - 1] == '\n')
    ensures NoBreak(t[..LineEnd(t)]) ==> LineEnd(t) == |t|
  {
    if !IsBreak(t[0]) && |t| > 1 {
      LineEndShape(t[1..]);
      var n := LineEnd(t);
      assert t[..n] == [t[0]] + t[1..][..n - 1];
    }
  }

  lemma BodyOf(line: string)
    requires forall i :: 0 <= i < |line| - 1 ==> line[i] != '\n'
    ensures AtMostOneNewline(line)
  {
    if line != "" && line[|line| - 1] == '\n' {
      assert Body(line[..|line| - 1]) == line[..|line| - 1];
      assert line == line[..|line| - 1] + "\n";
    }
  }

  lemma {:induction false} SplitKeepOneNewline(t: string)
    ensures forall line :: line in SplitKeep(t) ==> AtMostOneNewline(line)
  {
    if t == "" {
    } else {
      LineEndShape(t);
      BodyOf(t[..LineEnd(t)]);
      SplitKeepOneNewline(t[LineEnd(t)..]);
    }
  }

  /** What follows a line matters to its end only through a leading newline. */
  lemma {:induction false} LineEndSwap(l: string, r: string, r': string)
    requires l != "" && r != "" && LineEnd(l + r) == |l|
    requires r' != "" ==> r'[0] == r[0] || r'[0] != '\n'
    ensures LineEnd(l + r') == |l|
  {
    if |l| > 1 && !IsBreak(l[0]) {
      assert (l + r)[1..] == l[1..] + r && (l + r')[1..] == l[1..] + r';
      LineEndSwap(l[1..], r, r');
    }
  }

  lemma {:induction false} LineEndNewline(s: string, r: string)
    requires NoBreak(s)
    ensures LineEnd(s + "\n" + r) == |s| + 1
    ensures s != "" ==> LineEnd(s) == |s|
  {
    if s == "" {
    } else {
      assert (s + "\n" + r)[1..] == s[1..] + "\n" + r;
      LineEndNewline(s[1..], r);
    }
  }

  lemma SplitKeepHead(l: string, r: string)
    requires l != "" && LineEnd(l + r) == |l|
    ensures SplitKeep(l + r) == [l] + SplitKeep(r)
  {
    assert (l + r)[..|l|] == l && (l + r)[|l|..] == r;
  }

  /** A list of lines that splitting would give back. */
  predicate IsSplit(lines: seq<string>) {
    SplitKeep(Concat(lines)) == lines
  }

  lemma IsSplitTail(lines: seq<string>)
    requires IsSplit(lines) && lines != []
    ensures lines[0] != "" && LineEnd(Concat(lines)) == |lines[0]| && IsSplit(lines[1..])
  {
    var t := Concat(lines);
    assert lines[0] == t[..LineEnd(t)];
    assert lines[1..] == SplitKeep(t[LineEnd(t)..]);
    assert t[LineEnd(t)..] == Concat(lines[1..]);
  }

  lemma IsSplitCons(l: string, rest: seq<string>)
    requires l != "" && LineEnd(l + Concat(rest)) == |l| && IsSplit(rest)
    ensures IsSplit([l] + rest)
  {
    SplitKeepHead(l, Concat(rest));
    assert ([l] + rest)[1..] == rest;
  }

  lemma ReplaceFirst(lines: seq<string>, src: string, dst: string)
    requires IsSplit(lines) && lines != []
    requires src != "" && dst != "" && NoBreak(src) && NoBreak(dst)
    requires lines[0] == src + Ending(lines[0])
    ensures IsSplit([dst + Ending(lines[0])] + lines[1..])
  {
    var line', rest := dst + Ending(lines[0]), lines[1..];
    IsSplitTail(lines);
    if Ending(lines[0]) == "\n" {
      LineEndNewline(dst, Concat(rest));
      assert dst + "\n" + Concat(rest) == line' + Concat(rest);
    } else {
      LineEndShape(Concat(lines));
      assert Concat(lines)[..|src|] == src;
      assert Concat(rest) == "";
      LineEndNewline(dst, "");
      assert line' + Concat(rest) == dst;
    }
    IsSplitCons(line', rest);
  }

  lemma ReplaceLater(line: string, rest: seq<string>, rest': seq<string>)
    requires IsSplit([line] + rest) && IsSplit(rest') && rest != [] && rest' != []
    requires rest'[0] == rest[0] || (rest'[0] != "" && rest'[0][0] != '\n')
    ensures IsSplit([line] + rest')
  {
    IsSplitTail([line] + rest);
    assert ([line] + rest)[1..] == rest;
    IsSplitTail(rest);
    IsSplitTail(rest');
    LineEndSwap(line, Concat(rest), Concat(rest'));
    IsSplitCons(line, rest');
  }

  /** Replacing one break-free text by another, line end kept, keeps the line structure. */
  lemma {:induction false} ReplaceKeepsSplit(lines: seq<string>, i: nat, src: string, dst: string)
    requires IsSplit(lines) && i < |lines|
    requires src != "" && dst != "" && NoBreak(src) && NoBreak(dst)
    requires lines[i] == src + Ending(lines[i])
    ensures IsSplit(lines[i := dst + Ending(lines[i])])
  {
    var line' := dst + Ending(lines[i]);
    var rest := lines[1..];
    if i == 0 {
      ReplaceFirst(lines, src, dst);
      assert lines[0 := line'] == [line'] + rest;
    } else {
      IsSplitTail(lines);
      ReplaceKeepsSplit(rest, i - 1, src, dst);
      var rest' := rest[i - 1 := line'];
      assert lines == [lines[0]] + rest && lines[i := line'] == [lines[0]] + rest';
      assert line'[0] == dst[0];
      ReplaceLater(lines[0], rest, rest');
    }
  }

  /** Reading back printed lines returns them, when none holds a line break. */
  lemma {:induction false} SplitUnlines(lines: seq<string>)
    requires forall l :: l in lines ==> NoBreak(l)
    ensures SplitLines(Unlines(lines)) == lines
  {
    if lines == [] {
    } else {
      var l, rest := lines[0], Unlines(lines[1..]);
      SplitUnlines(lines[1..]);
      LineEndNewline(l, rest);
      SplitKeepHead(l + "\n", rest);
      ContentOfLine(l);
      assert l + "\n" + rest == (l + "\n") + rest;
      var kept := SplitKeep(Unlines(lines));
      assert kept == [l + "\n"] + SplitKeep(rest);
      assert forall i :: 0 <= i < |lines| ==> SplitLines(Unlines(lines))[i] == lines[i] by {
        forall i | 0 < i < |lines|
          ensures SplitLines(Unlines(lines))[i] == lines[i]
        {
          assert kept[i] == SplitKeep(rest)[i - 1];
          assert SplitLines(rest)[i - 1] == lines[1..][i - 1];
        }
      }
    }
  }

  lemma {:induction false} ContentOfLine(l: string)
    requires NoBreak(l)
    ensures Content(l + "\n") == l
  {
    if l == "" {
    } else {
      assert (l + "\n")[1..] == l[1..] + "\n";
      ContentOfLine(l[1..]);
    }
  }

  lemma {:induction false} ContentNoBreak(l: string)
    ensures NoBreak(Content(l))
  {
    if l != "" && !IsBreak(l[0]) {
      ContentNoBreak(l[1..]);
    }
  }

  /** Printed lines read back as they are exactly when none holds a line break. */
  lemma {:induction false} SplitUnlinesExact(lines: seq<string>)
    ensures SplitLines(Unlines(lines)) == lines <==> forall l :: l in lines ==> NoBreak(l)
  {
    if forall l :: l in lines ==> NoBreak(l) {
      SplitUnlines(lines);
    } else if SplitLines(Unlines(lines)) == lines {
      forall i | 0 <= i < |lines|
        ensures NoBreak(lines[i])
      {
        ContentNoBreak(SplitKeep(Unlines(lines))[i]);
      }
    }
  }

  lemma {:induction false} LineEndAt(l: string, ending: string, rest: string)
    requires NoBreak(l) && ending != "" && IsBreak(ending[0])
    requires ending == "\r\n" || (|ending| == 1 && !(ending == "\r" && "\n" <= rest))
    ensures l + (ending + rest) != "" && LineEnd(l + (ending + rest)) == |l| + |ending|
  {
    var t := l + (ending + rest);
    if l == "" {
      assert t == ending + rest;
    } else {
      assert t[1..] == l[1..] + (ending + rest);
      LineEndAt(l[1..], ending, rest);
    }
  }

  lemma {:induction false} ContentAt(l: string, ending: string)
    requires NoBreak(l) && ending != "" && IsBreak(ending[0])
    ensures Content(l + ending) == l
  {
    if l == "" {
      assert l + ending == ending;
    } else {
      assert (l + ending)[1..] == l[1..] + ending;
      ContentAt(l[1..], ending);
    }
  }

  /** A line ends at each of the break characters, and at "\r\n" only once. */
  lemma {:induction false} SplitAtBreak(l: string, ending: string, rest: string)
    requires NoBreak(l) && ending != "" && IsBreak(ending[0])
    requires ending == "\r\n" || (|ending| == 1 && !(ending == "\r" && "\n" <= rest))
    ensures SplitKeep(l + (ending + rest)) == [l + ending] + SplitKeep(rest)
    ensures SplitLines(l + (ending + rest)) == [l] + SplitLines(rest)
  {
    LineEndAt(l, ending, rest);
    ContentAt(l, ending);
    SplitAt(l + (ending + rest), |l| + |ending|);
    Assoc(l, ending, rest);
    Halves(l + ending, rest);
  }

  lemma Assoc(a: string, b: string, c: string)
    ensures (a + b) + c == a + (b + c)
  {
  }

  lemma Halves(a: string, b: string)
    ensures (a + b)[..|a|] == a && (a + b)[|a|..] == b
  {
  }

  lemma SplitAt(t: string, n: nat)
    requires t != "" && LineEnd(t) == n
    ensures SplitKeep(t) == [t[..n]] + SplitKeep(t[n..])
    ensures SplitLines(t) == [Content(t[..n])] + SplitLines(t[n..])
  {
    var rest := SplitKeep(t[n..]);
    assert SplitKeep(t) == [t[..n]] + rest;
    assert forall i :: 0 < i <= |rest| ==> SplitKeep(t)[i] == rest[i - 1];
  }

  // ----- text-mode reading -----

  /** Text without carriage returns is read as it is, and "\r\n", like any other "\r", as one
      newline. */
  lemma {:induction false} ReadTextAt(s: string, rest: string)
    requires '\r' !in s
    ensures ReadText(s + rest) == s + ReadText(rest)
    ensures ReadText("\r\n" + rest) == "\n" + ReadText(rest)
    ensures !("\n" <= rest) ==> ReadText("\r" + rest) == "\n" + ReadText(rest)
  {
    assert ("\r\n" + rest)[2..] == rest && ("\r" + rest)[1..] == rest;
    if s == "" {
      assert s + rest == rest;
    } else {
      assert (s + rest)[1..] == s[1..] + rest;
      ReadTextAt(s[1..], rest);
    }
  }

  /** Reading in text mode changes a file exactly when it holds a carriage return. */
  lemma {:induction false} ReadTextExact(disk: string)
    ensures '\r' !in ReadText(disk)
    ensures ReadText(disk) == disk <==> '\r' !in disk
  {
    if disk == "" {
    } else {
      if disk[0] == '\r' {
        assert ReadText(disk)[0] == '\n';
        ReadTextExact(if |disk| > 1 && disk[1] == '\n' then disk[2..] else disk[1..]);
      } else {
        ReadTextExact(disk[1..]);
        assert ReadText(disk)[1..] == ReadText(disk[1..]);
        assert disk == [disk[0]] + disk[1..];
      }
    }
  }

  // ----- stripping -----

  /** `strip` cuts blanks off both ends and nothing else. */
  lemma {:induction false} StripExact(s: string)
    ensures exists l, r :: (forall c :: c in l + r ==> IsSpace(c)) && s == l + Strip(s) + r
    ensures Strip(s) != "" ==> !IsSpace(Strip(s)[0]) && !IsSpace(Strip(s)[|Strip(s)| - 1])
  {
    var l := LStripExact(s);
    var r := RStripExact(LStrip(s));
    assert s == l + Strip(s) + r;
    assert Strip(s) != "" ==> Strip(s)[0] == LStrip(s)[0];
  }

  lemma {:induction false} LStripExact(s: string) returns (l: string)
    ensures s == l + LStrip(s) && forall c :: c in l ==> IsSpace(c)
    ensures LStrip(s) != "" ==> !IsSpace(LStrip(s)[0])
  {
    l := "";
    if s != "" && IsSpace(s[0]) {
      var l' := LStripExact(s[1..]);
      l := [s[0]] + l';
    }
  }

  lemma {:induction false} RStripExact(s: string) returns (r: string)
    ensures s == RStrip(s) + r && forall c :: c in r ==> IsSpace(c)
    ensures RStrip(s) != "" ==> !IsSpace(RStrip(s)[|RStrip(s)| - 1])
  {
    r := "";
    if s != "" && IsSpace(s[|s| - 1]) {
      var r' := RStripExact(s[..|s| - 1]);
      r := r' + [s[|s| - 1]];
    }
  }
}
