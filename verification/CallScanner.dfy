/** Finding the end of a `t(` call and its first argument in TypeScript text. */
module CallScanner {
  import opened Wrappers
  import opened PyText

  predicate IsQuote(c: char) {
    c == '"' || c == '\'' || c == '`'
  }

  predicate IsOpen(c: char) {
    c == '(' || c == '[' || c == '{'
  }

  predicate IsClose(c: char) {
    c == ')' || c == ']' || c == '}'
  }

  function Skip(n: nat, r: Option<nat>): Option<nat> {
    if r.None? then None else Some(n + r.value)
  }

  /** Offset in `s` of the parenthesis that closes `depth` open ones; `quote` is the quote the
      scan is inside of. */
  function MatchIn(s: string, depth: nat, quote: Option<char>): (r: Option<nat>)
    requires depth >= 1
    ensures r.Some? ==> r.value < |s|
  {
    if s == "" then None
    else if quote.Some? then
      if s[0] == '\\' then (if |s| < 2 then None else Skip(2, MatchIn(s[2..], depth, quote)))
      else Skip(1, MatchIn(s[1..], depth, if s[0] == quote.value then None else quote))
    else if IsQuote(s[0]) then Skip(1, MatchIn(s[1..], depth, Some(s[0])))
    else if s[0] == '(' then Skip(1, MatchIn(s[1..], depth + 1, None))
    else if s[0] == ')' then (if depth == 1 then Some(0) else Skip(1, MatchIn(s[1..], depth - 1, None)))
    else Skip(1, MatchIn(s[1..], depth, None))
  }

  /** Offset in `s` of the first comma outside quotes and brackets, or the length. */
  function ArgEnd(s: string, depth: int, quote: Option<char>): (n: nat)
    ensures n <= |s|
  {
    if s == "" then 0
    else if quote.Some? then
      if s[0] == '\\' then (if |s| < 2 then |s| else 2 + ArgEnd(s[2..], depth, quote))
      else 1 + ArgEnd(s[1..], depth, if s[0] == quote.value then None else quote)
    else if IsQuote(s[0]) then 1 + ArgEnd(s[1..], depth, Some(s[0]))
    else if IsOpen(s[0]) then 1 + ArgEnd(s[1..], depth + 1, None)
    else if IsClose(s[0]) then 1 + ArgEnd(s[1..], depth - 1, None)
    else if s[0] == ',' && depth == 0 then 0
    else 1 + ArgEnd(s[1..], depth, None)
  }

  /** The result of the scan from `index` on; past the end there is none. */
  ghost function MatchFrom(text: string, index: nat, depth: nat, quote: Option<char>): Option<nat>
    requires depth >= 1
  {
    if index <= |text| then Skip(index, MatchIn(text[index..], depth, quote)) else None
  }

  lemma MatchFromStep(text: string, index: nat, depth: nat, quote: Option<char>)
    requires index < |text| && depth >= 1
    ensures var c := text[index];
            MatchFrom(text, index, depth, quote) ==
            if quote.Some? then
              (if c == '\\' then MatchFrom(text, index + 2, depth, quote)
               else MatchFrom(text, index + 1, depth, if c == quote.value then None else quote))
            else if IsQuote(c) then MatchFrom(text, index + 1, depth, Some(c))
            else if c == '(' then MatchFrom(text, index + 1, depth + 1, None)
            else if c == ')' then (if depth == 1 then Some(index) else MatchFrom(text, index + 1, depth - 1, None))
            else MatchFrom(text, index + 1, depth, None)
  {
    var s := text[index..];
    assert s[1..] == text[index + 1..];
    assert index + 2 <= |text| ==> s[2..] == text[index + 2..];
  }

  /** The loop of `_matching_paren`. */
  method MatchingParen(text: string, openIndex: nat) returns (r: Option<nat>)
    requires openIndex <= |text|
    ensures r == Skip(openIndex, MatchIn(text[openIndex..], 1, None))
  {
    var depth, index: nat, quote: Option<char> := 1, openIndex, None;
    while index < |text|
      invariant index <= |text| + 1 && depth >= 1
      invariant MatchFrom(text, openIndex, 1, None) == MatchFrom(text, index, depth, quote)
      decreases |text| + 1 - index
    {
      var c := text[index];
      MatchFromStep(text, index, depth, quote);
      if quote.Some? {
        if c == '\\' {
          index := index + 2;
          continue;
        }
        if c == quote.value {
          quote := None;
        }
      } else if IsQuote(c) {
        quote := Some(c);
      } else if c == '(' {
        depth := depth + 1;
      } else if c == ')' {
        depth := depth - 1;
        if depth == 0 {
          return Some(index);
        }
      }
      index := index + 1;
    }
    r := None;
  }

  /** Where the scan from `index` on stops; past the end is the end. */
  ghost function ArgFrom(s: string, index: nat, depth: int, quote: Option<char>): nat {
    if index <= |s| then index + ArgEnd(s[index..], depth, quote) else |s|
  }

  lemma ArgFromStep(s: string, index: nat, depth: int, quote: Option<char>)
    requires index < |s|
    ensures var c := s[index];
            ArgFrom(s, index, depth, quote) ==
            if quote.Some? then
              (if c == '\\' then ArgFrom(s, index + 2, depth, quote)
               else ArgFrom(s, index + 1, depth, if c == quote.value then None else quote))
            else if IsQuote(c) then ArgFrom(s, index + 1, depth, Some(c))
            else if IsOpen(c) then ArgFrom(s, index + 1, depth + 1, None)
            else if IsClose(c) then ArgFrom(s, index + 1, depth - 1, None)
            else if c == ',' && depth == 0 then index
            else ArgFrom(s, index + 1, depth, None)
  {
    var t := s[index..];
    assert t[1..] == s[index + 1..];
    assert index + 2 <= |s| ==> t[2..] == s[index + 2..];
  }


  /** The loop of `_first_argument`. */
  method FirstArgument(argumentText: string) returns (r: string)
    ensures r == Strip(argumentText[..ArgEnd(argumentText, 0, None)])
  {
    var s := argumentText;
    var depth, index: nat, quote: Option<char> := 0, 0, None;
    while index < |s|
      invariant index <= |s| + 1
      invariant ArgFrom(s, index, depth, quote) == ArgFrom(s, 0, 0, None)
      decreases |s| + 1 - index
    {
      var c := s[index];
      ArgFromStep(s, index, depth, quote);
      if quote.Some? {
        if c == '\\' {
          index := index + 2;
          continue;
        }
        if c == quote.value {
          quote := None;
        }
      } else if IsQuote(c) {
        quote := Some(c);
      } else if IsOpen(c) {
        depth := depth + 1;
      } else if IsClose(c) {
        depth := depth - 1;
      } else if c == ',' && depth == 0 {
        break;
      }
      index := index + 1;
    }
    assert s[0..] == s;
    r := Strip(s[..if index <= |s| then index else |s|]);
  }

  /** The first argument of the call whose `t(` ends at `openIndex`; None when it never closes. */
  method CallFirstArgument(text: string, openIndex: nat) returns (r: Option<string>)
    requires openIndex <= |text|
    ensures r == FirstOf(text[openIndex..])
  {
    var end := MatchingParen(text, openIndex);
    if end.None? {
      return None;
    }
    assert text[openIndex..end.value] == text[openIndex..][..end.value - openIndex];
    var first := FirstArgument(text[openIndex..end.value]);
    r := Some(first);
  }

  function FirstOf(s: string): Option<string> {
    var end := MatchIn(s, 1, None);
    if end.None? then None
    else
      var arguments := s[..end.value];
      Some(Strip(arguments[..ArgEnd(arguments, 0, None)]))
  }

  // ----- token trees and their text -----

  datatype QuotedChar = Raw(c: char) | Escaped(c: char)

  datatype Tok =
    | Plain(c: char)
    | Quoted(quote: char, chars: seq<QuotedChar>)
    | Group(open: char, kids: seq<Tok>)

  function Closer(open: char): char {
    if open == '(' then ')' else if open == '[' then ']' else '}'
  }

  function CharText(c: QuotedChar): string {
    match c case Raw(x) => [x] case Escaped(x) => ['\\', x]
  }

  function PrintChars(cs: seq<QuotedChar>): string {
    if cs == [] then "" else CharText(cs[0]) + PrintChars(cs[1..])
  }

  function PrintTok(t: Tok): string
    decreases t, 0
  {
    match t
    case Plain(c) => [c]
    case Quoted(q, cs) => [q] + PrintChars(cs) + [q]
    case Group(o, kids) => [o] + Print(kids) + [Closer(o)]
  }

  function Print(ts: seq<Tok>): string
    decreases ts, 1
  {
    if ts == [] then "" else PrintTok(ts[0]) + Print(ts[1..])
  }

  predicate CharsOk(q: char, cs: seq<QuotedChar>) {
    forall i :: 0 <= i < |cs| && cs[i].Raw? ==> cs[i].c != q && cs[i].c != '\\'
  }

  /** Tokens for which groups are the given brackets: all three kinds, or parentheses only. */
  predicate TokOk(t: Tok, parensOnly: bool)
    decreases t, 0
  {
    match t
    case Plain(c) => c !in "\"'`()" && (parensOnly || c !in "[]{}")
    case Quoted(q, cs) => q in "\"'`" && CharsOk(q, cs)
    case Group(o, kids) => o in (if parensOnly then "(" else "([{") && ToksOk(kids, parensOnly)
  }

  predicate ToksOk(ts: seq<Tok>, parensOnly: bool)
    decreases ts, 1
  {
    ts == [] || (TokOk(ts[0], parensOnly) && ToksOk(ts[1..], parensOnly))
  }

  predicate NoComma(ts: seq<Tok>) {
    forall i :: 0 <= i < |ts| ==> ts[i] != Plain(',')
  }

  // ----- the scans walk over printed tokens -----

  lemma MatchRaw(q: char, c: char, s: string, depth: nat)
    requires c != '\\' && c != q && depth >= 1
    ensures MatchIn([c] + s, depth, Some(q)) == Skip(1, MatchIn(s, depth, Some(q)))
  {
    assert ([c] + s)[1..] == s;
  }

  lemma MatchEscaped(q: char, c: char, s: string, depth: nat)
    requires depth >= 1
    ensures MatchIn(['\\', c] + s, depth, Some(q)) == Skip(2, MatchIn(s, depth, Some(q)))
  {
    assert (['\\', c] + s)[2..] == s;
  }

  lemma MatchClosing(q: char, s: string, depth: nat)
    requires q != '\\' && depth >= 1
    ensures MatchIn([q] + s, depth, Some(q)) == Skip(1, MatchIn(s, depth, None))
  {
    assert ([q] + s)[1..] == s;
  }

  lemma {:induction false} MatchChars(q: char, cs: seq<QuotedChar>, rest: string, depth: nat)
    requires CharsOk(q, cs) && q != '\\' && depth >= 1
    ensures MatchIn(PrintChars(cs) + ([q] + rest), depth, Some(q))
        == Skip(|PrintChars(cs)| + 1, MatchIn(rest, depth, None))
  {
    if cs == [] {
      assert PrintChars(cs) + ([q] + rest) == [q] + rest;
      MatchClosing(q, rest, depth);
    } else {
      var inner := PrintChars(cs[1..]) + ([q] + rest);
      MatchChars(q, cs[1..], rest, depth);
      MatchChar(q, cs[0], inner, depth);
      Assoc(CharText(cs[0]), PrintChars(cs[1..]), [q] + rest);
      SkipTwice(MatchIn(CharText(cs[0]) + inner, depth, Some(q)), MatchIn(inner, depth, Some(q)),
                MatchIn(rest, depth, None), |CharText(cs[0])|, |PrintChars(cs[1..])| + 1);
    }
  }

  lemma MatchChar(q: char, c: QuotedChar, s: string, depth: nat)
    requires (c.Raw? ==> c.c != q && c.c != '\\') && depth >= 1
    ensures MatchIn(CharText(c) + s, depth, Some(q)) == Skip(|CharText(c)|, MatchIn(s, depth, Some(q)))
  {
    match c
    case Raw(x) => MatchRaw(q, x, s, depth);
    case Escaped(x) => MatchEscaped(q, x, s, depth);
  }

  lemma MatchOne(c: char, rest: string, depth: nat)
    requires depth >= 1
    ensures IsQuote(c) ==> MatchIn([c] + rest, depth, None) == Skip(1, MatchIn(rest, depth, Some(c)))
    ensures c == '(' ==> MatchIn([c] + rest, depth, None) == Skip(1, MatchIn(rest, depth + 1, None))
    ensures c == ')' && depth > 1 ==> MatchIn([c] + rest, depth, None) == Skip(1, MatchIn(rest, depth - 1, None))
    ensures !IsQuote(c) && c != '(' && c != ')' ==>
        MatchIn([c] + rest, depth, None) == Skip(1, MatchIn(rest, depth, None))
  {
    assert ([c] + rest)[1..] == rest;
  }

  lemma QuotedThen(q: char, cs: seq<QuotedChar>, tail: string)
    ensures PrintTok(Quoted(q, cs)) + tail == [q] + (PrintChars(cs) + [q] + tail)
    ensures |PrintTok(Quoted(q, cs))| == |PrintChars(cs)| + 2
  {
  }

  lemma GroupThen(o: char, kids: seq<Tok>, tail: string)
    ensures PrintTok(Group(o, kids)) + tail == [o] + (Print(kids) + ([Closer(o)] + tail))
    ensures |PrintTok(Group(o, kids))| == |Print(kids)| + 2
  {
  }

  lemma MatchQuoted(q: char, cs: seq<QuotedChar>, tail: string, depth: nat)
    requires IsQuote(q) && CharsOk(q, cs) && depth >= 1
    ensures MatchIn(PrintTok(Quoted(q, cs)) + tail, depth, None)
        == Skip(|PrintChars(cs)| + 2, MatchIn(tail, depth, None))
  {
    var inner := PrintChars(cs) + ([q] + tail);
    QuotedThen(q, cs, tail);
    assert PrintChars(cs) + [q] + tail == inner;
    MatchOne(q, inner, depth);
    MatchChars(q, cs, tail, depth);
  }

  lemma MatchAround(kids: seq<Tok>, tail: string, depth: nat)
    requires depth >= 1
    requires MatchIn(Print(kids) + ([')'] + tail), depth + 1, None)
        == Skip(|Print(kids)|, MatchIn([')'] + tail, depth + 1, None))
    ensures MatchIn(PrintTok(Group('(', kids)) + tail, depth, None)
        == Skip(|Print(kids)| + 2, MatchIn(tail, depth, None))
  {
    var closing := [')'] + tail;
    GroupThen('(', kids, tail);
    MatchOne('(', Print(kids) + closing, depth);
    MatchOne(')', tail, depth + 1);
    SkipTwice(MatchIn(Print(kids) + closing, depth + 1, None), MatchIn(closing, depth + 1, None),
              MatchIn(tail, depth, None), |Print(kids)|, 1);
  }

  lemma {:induction false} MatchTok(t: Tok, tail: string, depth: nat)
    requires TokOk(t, true) && depth >= 1
    ensures MatchIn(PrintTok(t) + tail, depth, None) == Skip(|PrintTok(t)|, MatchIn(tail, depth, None))
    decreases t, 0
  {
    match t
    case Plain(c) =>
      MatchOne(c, tail, depth);
    case Quoted(q, cs) =>
      MatchQuoted(q, cs, tail, depth);
      QuotedThen(q, cs, tail);
    case Group(o, kids) =>
      MatchToks(kids, [')'] + tail, depth + 1);
      MatchAround(kids, tail, depth);
      GroupThen(o, kids, tail);
  }

  /** Scanning for a closing parenthesis passes over balanced tokens. */
  lemma {:induction false} MatchToks(ts: seq<Tok>, rest: string, depth: nat)
    requires ToksOk(ts, true) && depth >= 1
    ensures MatchIn(Print(ts) + rest, depth, None) == Skip(|Print(ts)|, MatchIn(rest, depth, None))
    decreases ts, 1
  {
    if ts == [] {
      assert Print(ts) + rest == rest;
    } else {
      var tail := Print(ts[1..]) + rest;
      assert Print(ts) + rest == PrintTok(ts[0]) + tail;
      MatchTok(ts[0], tail, depth);
      MatchToks(ts[1..], rest, depth);
    }
  }

  lemma {:induction false} ArgChars(q: char, cs: seq<QuotedChar>, rest: string, depth: int)
    requires CharsOk(q, cs) && q != '\\'
    ensures ArgEnd(PrintChars(cs) + [q] + rest, depth, Some(q)) == |PrintChars(cs)| + 1 + ArgEnd(rest, depth, None)
  {
    var s := PrintChars(cs) + [q] + rest;
    if cs == [] {
      assert s[1..] == rest;
    } else {
      ArgChars(q, cs[1..], rest, depth);
      var n := if cs[0].Raw? then 1 else 2;
      assert s[n..] == PrintChars(cs[1..]) + [q] + rest;
      assert cs[0].Escaped? ==> s[0] == '\\' && |s| >= 2;
      assert cs[0].Raw? ==> s[0] == cs[0].c;
    }
  }

  lemma ArgOne(c: char, rest: string, depth: int)
    ensures IsQuote(c) ==> ArgEnd([c] + rest, depth, None) == 1 + ArgEnd(rest, depth, Some(c))
    ensures IsOpen(c) ==> ArgEnd([c] + rest, depth, None) == 1 + ArgEnd(rest, depth + 1, None)
    ensures IsClose(c) ==> ArgEnd([c] + rest, depth, None) == 1 + ArgEnd(rest, depth - 1, None)
    ensures !IsQuote(c) && !IsOpen(c) && !IsClose(c) && (c != ',' || depth != 0) ==>
              ArgEnd([c] + rest, depth, None) == 1 + ArgEnd(rest, depth, None)
  {
    assert ([c] + rest)[1..] == rest;
  }

  lemma {:induction false} ArgTok(t: Tok, tail: string, depth: nat)
    requires TokOk(t, false) && (depth > 0 || t != Plain(','))
    ensures ArgEnd(PrintTok(t) + tail, depth, None) == |PrintTok(t)| + ArgEnd(tail, depth, None)
    decreases t, 0
  {
    match t
    case Plain(c) =>
      ArgOne(c, tail, depth);
    case Quoted(q, cs) =>
      QuotedThen(q, cs, tail);
      ArgOne(q, PrintChars(cs) + [q] + tail, depth);
      ArgChars(q, cs, tail, depth);
    case Group(o, kids) =>
      var closing := [Closer(o)] + tail;
      GroupThen(o, kids, tail);
      ArgOne(o, Print(kids) + closing, depth);
      ArgToks(kids, closing, depth + 1);
      ArgOne(Closer(o), tail, depth + 1);
  }

  /** Scanning for a comma passes over balanced tokens, commas inside groups included. */
  lemma {:induction false} ArgToks(ts: seq<Tok>, rest: string, depth: nat)
    requires ToksOk(ts, false) && (depth > 0 || NoComma(ts))
    ensures ArgEnd(Print(ts) + rest, depth, None) == |Print(ts)| + ArgEnd(rest, depth, None)
    decreases ts, 1
  {
    if ts == [] {
      assert Print(ts) + rest == rest;
    } else {
      var tail := Print(ts[1..]) + rest;
      assert Print(ts) + rest == PrintTok(ts[0]) + tail;
      ArgTok(ts[0], tail, depth);
      ArgToks(ts[1..], rest, depth);
    }
  }

  // ----- `_matching_paren` accepts exactly the balanced texts -----

  lemma MatchInside(s: string, depth: nat, q: char)
    requires depth >= 1 && s != ""
    ensures s[0] == '\\' && |s| >= 2 ==> MatchIn(s, depth, Some(q)) == Skip(2, MatchIn(s[2..], depth, Some(q)))
    ensures s[0] == '\\' && |s| < 2 ==> MatchIn(s, depth, Some(q)) == None
    ensures s[0] != '\\' && s[0] != q ==> MatchIn(s, depth, Some(q)) == Skip(1, MatchIn(s[1..], depth, Some(q)))
    ensures s[0] != '\\' && s[0] == q ==> MatchIn(s, depth, Some(q)) == Skip(1, MatchIn(s[1..], depth, None))
  {
  }

  /** A quoted text read up to its closing quote. */
  ghost predicate CharsParsed(s: string, q: char, cs: seq<QuotedChar>) {
    var n := |PrintChars(cs)| + 1;
    CharsOk(q, cs) && n <= |s| && s[..n] == PrintChars(cs) + [q]
  }

  lemma Slices(s: string, m: nat, n: nat)
    requires m + n <= |s|
    ensures s[..m + n] == s[..m] + s[m..][..n] && s[m + n..] == s[m..][n..]
  {
  }

  lemma CharsParsedCons(s: string, q: char, head: QuotedChar, cs: seq<QuotedChar>, m: nat)
    requires head.Raw? ==> head.c != q && head.c != '\\'
    requires m <= |s| && s[..m] == PrintChars([head]) && CharsParsed(s[m..], q, cs)
    ensures CharsParsed(s, q, [head] + cs) && |PrintChars([head] + cs)| == m + |PrintChars(cs)|
  {
    Slices(s, m, |PrintChars(cs)| + 1);
    assert ([head] + cs)[1..] == cs && [head][1..] == [];
    assert PrintChars([head] + cs) == PrintChars([head]) + PrintChars(cs);
  }

  /** One quoted character is read and skipped. */
  lemma ParseChar(s: string, depth: nat, q: char) returns (head: QuotedChar, m: nat)
    requires depth >= 1 && MatchIn(s, depth, Some(q)).Some? && s[0] != q
    ensures head.Raw? ==> head.c != q && head.c != '\\'
    ensures 0 < m <= |s| && s[..m] == PrintChars([head])
    ensures MatchIn(s, depth, Some(q)) == Skip(m, MatchIn(s[m..], depth, Some(q)))
  {
    MatchInside(s, depth, q);
    m, head := if s[0] == '\\' then 2 else 1, if s[0] == '\\' then Escaped(s[1]) else Raw(s[0]);
    PrintOneChar(head);
  }

  lemma ParseClosing(s: string, depth: nat, q: char)
    requires depth >= 1 && q != '\\' && s != "" && s[0] == q
    ensures CharsParsed(s, q, [])
    ensures MatchIn(s, depth, Some(q)) == Skip(1, MatchIn(s[1..], depth, None))
  {
    MatchInside(s, depth, q);
    assert s[..1] == [q];
  }

  lemma SkipTwice(all: Option<nat>, mid: Option<nat>, last: Option<nat>, m: nat, n: nat)
    requires all == Skip(m, mid) && mid == Skip(n, last)
    ensures all == Skip(m + n, last)
  {
  }

  /** The scan leaves a quoted text right after its closing quote. */
  lemma {:induction false} ParseChars(s: string, depth: nat, q: char) returns (cs: seq<QuotedChar>)
    requires depth >= 1 && q != '\\' && MatchIn(s, depth, Some(q)).Some?
    ensures CharsParsed(s, q, cs)
    ensures var n := |PrintChars(cs)| + 1; MatchIn(s, depth, Some(q)) == Skip(n, MatchIn(s[n..], depth, None))
  {
    if s[0] == q {
      ParseClosing(s, depth, q);
      cs := [];
    } else {
      var head, m := ParseChar(s, depth, q);
      var rest := ParseChars(s[m..], depth, q);
      CharsParsedCons(s, q, head, rest, m);
      var n := |PrintChars(rest)| + 1;
      Slices(s, m, n);
      SkipTwice(MatchIn(s, depth, Some(q)), MatchIn(s[m..], depth, Some(q)), MatchIn(s[m + n..], depth, None), m, n);
      cs := [head] + rest;
    }
  }

  lemma PrintOneChar(c: QuotedChar)
    ensures PrintChars([c]) == match c case Raw(x) => [x] case Escaped(x) => ['\\', x]
  {
    assert [c][1..] == [];
  }

  /** Lists of tokens separated by the parentheses that close the open ones. */
  function JoinClosed(tss: seq<seq<Tok>>): string
    requires tss != []
  {
    if |tss| == 1 then Print(tss[0]) else Print(tss[0]) + ")" + JoinClosed(tss[1..])
  }

  ghost predicate AllOk(tss: seq<seq<Tok>>) {
    forall i :: 0 <= i < |tss| ==> ToksOk(tss[i], true)
  }

  function AddFirst(t: Tok, tss: seq<seq<Tok>>): seq<seq<Tok>>
    requires tss != []
  {
    [[t] + tss[0]] + tss[1..]
  }

  lemma AddFirstOk(t: Tok, tss: seq<seq<Tok>>)
    requires tss != [] && TokOk(t, true) && AllOk(tss)
    ensures AllOk(AddFirst(t, tss)) && JoinClosed(AddFirst(t, tss)) == PrintTok(t) + JoinClosed(tss)
  {
    var r := AddFirst(t, tss);
    assert ([t] + tss[0])[1..] == tss[0];
    assert r[1..] == tss[1..];
    assert Print(r[0]) == PrintTok(t) + Print(tss[0]);
  }

  /** What parsing finds: `depth` token lists, separated by parentheses, up to the match. */
  ghost predicate Parsed(s: string, depth: nat, tss: seq<seq<Tok>>)
    requires depth >= 1 && MatchIn(s, depth, None).Some?
  {
    var k := MatchIn(s, depth, None).value;
    |tss| == depth && AllOk(tss) && s[..k] == JoinClosed(tss) && s[k] == ')'
  }

  /** A token read off the front goes to the front of the first list. */
  lemma ParsedBehind(s: string, depth: nat, t: Tok, tss: seq<seq<Tok>>)
    requires depth >= 1 && TokOk(t, true) && PrintTok(t) <= s
    requires var rest := s[|PrintTok(t)|..];
             && MatchIn(s, depth, None) == Skip(|PrintTok(t)|, MatchIn(rest, depth, None))
             && MatchIn(rest, depth, None).Some? && Parsed(rest, depth, tss)
    ensures Parsed(s, depth, AddFirst(t, tss))
  {
    var rest := s[|PrintTok(t)|..];
    AddFirstOk(t, tss);
    assert s == PrintTok(t) + rest;
    PrefixBehind(PrintTok(t), rest, MatchIn(rest, depth, None).value);
  }

  lemma PrefixBehind(head: string, rest: string, k: nat)
    requires k < |rest|
    ensures (head + rest)[..|head| + k] == head + rest[..k] && (head + rest)[|head| + k] == rest[k]
  {
  }

  lemma QuoteStep(s: string, depth: nat, n: nat)
    requires depth >= 1 && s != "" && IsQuote(s[0]) && n < |s|
    requires MatchIn(s[1..], depth, Some(s[0])) == Skip(n, MatchIn(s[1..][n..], depth, None))
    ensures MatchIn(s, depth, None) == Skip(n + 1, MatchIn(s[n + 1..], depth, None))
    ensures s[n + 1..] == s[1..][n..]
  {
    assert s[n + 1..] == s[1..][n..];
  }

  lemma ParsedQuote(s: string, depth: nat, cs: seq<QuotedChar>, tss: seq<seq<Tok>>)
    requires depth >= 1 && s != "" && IsQuote(s[0]) && CharsParsed(s[1..], s[0], cs)
    requires var n := |PrintChars(cs)| + 1;
             var rest := s[1..][n..];
             && MatchIn(s[1..], depth, Some(s[0])) == Skip(n, MatchIn(rest, depth, None))
             && MatchIn(rest, depth, None).Some? && Parsed(rest, depth, tss)
    ensures MatchIn(s, depth, None).Some? && Parsed(s, depth, AddFirst(Quoted(s[0], cs), tss))
  {
    var n, t := |PrintChars(cs)| + 1, Quoted(s[0], cs);
    QuoteStep(s, depth, n);
    assert PrintTok(t) == [s[0]] + s[1..][..n];
    assert s == PrintTok(t) + s[n + 1..];
    ParsedBehind(s, depth, t, tss);
  }

  lemma ParsedOpen(s: string, depth: nat, tss: seq<seq<Tok>>)
    requires depth >= 1 && s != "" && s[0] == '('
    requires MatchIn(s[1..], depth + 1, None).Some? && Parsed(s[1..], depth + 1, tss)
    ensures MatchIn(s, depth, None).Some? && Parsed(s, depth, AddFirst(Group('(', tss[0]), tss[1..]))
  {
    var t, inner := Group('(', tss[0]), tss[1..];
    var k := MatchIn(s[1..], depth + 1, None).value;
    AddFirstOk(t, inner);
    assert s[..k + 1] == "(" + s[1..][..k];
    assert "(" + (Print(tss[0]) + ")" + JoinClosed(inner)) == PrintTok(t) + JoinClosed(inner);
  }

  lemma ParsedClose(s: string, depth: nat, tss: seq<seq<Tok>>)
    requires depth >= 2 && s != "" && s[0] == ')'
    requires MatchIn(s[1..], depth - 1, None).Some? && Parsed(s[1..], depth - 1, tss)
    ensures MatchIn(s, depth, None).Some? && Parsed(s, depth, [[]] + tss)
  {
    var k := MatchIn(s[1..], depth - 1, None).value;
    assert ([[]] + tss)[1..] == tss;
    assert s[..k + 1] == ")" + s[1..][..k];
    assert "" + ")" + JoinClosed(tss) == ")" + JoinClosed(tss);
  }

  lemma ParsedPlain(s: string, depth: nat, tss: seq<seq<Tok>>)
    requires depth >= 1 && s != "" && TokOk(Plain(s[0]), true)
    requires MatchIn(s[1..], depth, None).Some? && Parsed(s[1..], depth, tss)
    ensures MatchIn(s, depth, None).Some? && Parsed(s, depth, AddFirst(Plain(s[0]), tss))
  {
    var k := MatchIn(s[1..], depth, None).value;
    AddFirstOk(Plain(s[0]), tss);
    assert s[..k + 1] == [s[0]] + s[1..][..k];
  }

  lemma {:induction false} Parse(s: string, depth: nat) returns (tss: seq<seq<Tok>>)
    requires depth >= 1 && MatchIn(s, depth, None).Some?
    ensures Parsed(s, depth, tss)
    decreases |s|
  {
    if IsQuote(s[0]) {
      var cs := ParseChars(s[1..], depth, s[0]);
      var rest := Parse(s[1..][|PrintChars(cs)| + 1..], depth);
      ParsedQuote(s, depth, cs, rest);
      tss := AddFirst(Quoted(s[0], cs), rest);
    } else if s[0] == '(' {
      var rest := Parse(s[1..], depth + 1);
      ParsedOpen(s, depth, rest);
      tss := AddFirst(Group('(', rest[0]), rest[1..]);
    } else if s[0] == ')' && depth == 1 {
      tss := [[]];
    } else if s[0] == ')' {
      var rest := Parse(s[1..], depth - 1);
      ParsedClose(s, depth, rest);
      tss := [[]] + rest;
    } else {
      var rest := Parse(s[1..], depth);
      ParsedPlain(s, depth, rest);
      tss := AddFirst(Plain(s[0]), rest);
    }
  }

  lemma MatchBalanced(ts: seq<Tok>, rest: string)
    requires ToksOk(ts, true)
    ensures MatchIn(Print(ts) + (")" + rest), 1, None) == Some(|Print(ts)|)
  {
    MatchToks(ts, ")" + rest, 1);
  }

  ghost predicate Balanced(s: string) {
    exists ts :: ToksOk(ts, true) && Print(ts) == s
  }

  lemma {:induction false} MatchSound(s: string, k: nat)
    requires MatchIn(s, 1, None) == Some(k)
    ensures k < |s| && s[k] == ')' && Balanced(s[..k])
  {
    var tss := Parse(s, 1);
    var ts := tss[0];
    assert JoinClosed(tss) == Print(ts);
    assert ToksOk(ts, true);
  }

  lemma MatchComplete(s: string, k: nat)
    requires k < |s| && s[k] == ')' && Balanced(s[..k])
    ensures MatchIn(s, 1, None) == Some(k)
  {
    var ts :| ToksOk(ts, true) && Print(ts) == s[..k];
    MatchBalanced(ts, s[k + 1..]);
    assert s == Print(ts) + (")" + s[k + 1..]);
  }

  /** The closing parenthesis is at offset k exactly when the text before it is made of
      balanced tokens. */
  lemma MatchExact(s: string, k: nat)
    ensures MatchIn(s, 1, None) == Some(k) <==> k < |s| && s[k] == ')' && Balanced(s[..k])
  {
    if MatchIn(s, 1, None) == Some(k) {
      MatchSound(s, k);
    } else if k < |s| && s[k] == ')' && Balanced(s[..k]) {
      MatchComplete(s, k);
    }
  }

  // ----- the first argument of a printed call -----

  /** Brackets and braces are plain characters to the parenthesis scan. */
  function TokParens(t: Tok): seq<Tok>
    decreases t, 0
  {
    match t
    case Plain(_) => [t]
    case Quoted(_, _) => [t]
    case Group(o, kids) =>
      if o == '(' then [Group(o, ToParens(kids))] else [Plain(o)] + ToParens(kids) + [Plain(Closer(o))]
  }

  function ToParens(ts: seq<Tok>): seq<Tok>
    decreases ts, 1
  {
    if ts == [] then [] else TokParens(ts[0]) + ToParens(ts[1..])
  }

  lemma {:induction false} PrintAppend(a: seq<Tok>, b: seq<Tok>)
    ensures Print(a + b) == Print(a) + Print(b)
    ensures forall f :: ToksOk(a, f) && ToksOk(b, f) ==> ToksOk(a + b, f)
  {
    if a == [] {
      assert a + b == b;
    } else {
      assert (a + b)[1..] == a[1..] + b;
      PrintAppend(a[1..], b);
    }
  }

  lemma PrintSingle(t: Tok)
    ensures Print([t]) == PrintTok(t)
    ensures forall f :: TokOk(t, f) ==> ToksOk([t], f)
  {
    assert [t][1..] == [];
  }

  lemma Bracketed(o: char, inner: seq<Tok>)
    requires IsOpen(o) && o != '(' && ToksOk(inner, true)
    ensures var r := [Plain(o)] + inner + [Plain(Closer(o))];
            ToksOk(r, true) && Print(r) == [o] + Print(inner) + [Closer(o)]
  {
    PrintSingle(Plain(o));
    PrintSingle(Plain(Closer(o)));
    PrintAppend([Plain(o)], inner);
    PrintAppend([Plain(o)] + inner, [Plain(Closer(o))]);
  }

  lemma {:induction false} TokToParens(t: Tok)
    requires TokOk(t, false)
    ensures ToksOk(TokParens(t), true) && Print(TokParens(t)) == PrintTok(t)
    decreases t, 0
  {
    match t
    case Plain(c) =>
      PrintSingle(t);
    case Quoted(q, cs) =>
      PrintSingle(t);
    case Group(o, kids) =>
      ToParensOk(kids);
      if o == '(' {
        PrintSingle(Group(o, ToParens(kids)));
      } else {
        Bracketed(o, ToParens(kids));
      }
  }

  lemma {:induction false} ToParensOk(ts: seq<Tok>)
    requires ToksOk(ts, false)
    ensures ToksOk(ToParens(ts), true) && Print(ToParens(ts)) == Print(ts)
    decreases ts, 1
  {
    if ts == [] {
    } else {
      TokToParens(ts[0]);
      ToParensOk(ts[1..]);
      PrintAppend(TokParens(ts[0]), ToParens(ts[1..]));
    }
  }

  /** The arguments with the commas between them. */
  function JoinArgs(args: seq<seq<Tok>>): seq<Tok>
    requires args != []
  {
    if |args| == 1 then args[0] else args[0] + [Plain(',')] + JoinArgs(args[1..])
  }

  lemma {:induction false} JoinArgsOk(args: seq<seq<Tok>>)
    requires args != [] && forall i :: 0 <= i < |args| ==> ToksOk(args[i], false)
    ensures ToksOk(JoinArgs(args), false)
  {
    if |args| > 1 {
      JoinArgsOk(args[1..]);
      PrintAppend(args[0], [Plain(',')]);
      PrintAppend(args[0] + [Plain(',')], JoinArgs(args[1..]));
    }
  }

  lemma FirstThenRest(args: seq<seq<Tok>>) returns (after: string)
    requires args != []
    ensures Print(JoinArgs(args)) == Print(args[0]) + after
    ensures after == "" || after[0] == ','
  {
    if |args| == 1 {
      after := "";
    } else {
      after := "," + Print(JoinArgs(args[1..]));
      PrintAppend(args[0], [Plain(',')]);
      PrintAppend(args[0] + [Plain(',')], JoinArgs(args[1..]));
      PrintSingle(Plain(','));
      Assoc(Print(args[0]), ",", Print(JoinArgs(args[1..])));
    }
  }

  lemma FirstOfJoined(args: seq<seq<Tok>>)
    requires args != [] && NoComma(args[0]) && ToksOk(args[0], false)
    ensures var call := Print(JoinArgs(args));
            call[..ArgEnd(call, 0, None)] == Print(args[0])
  {
    var after := FirstThenRest(args);
    ArgToks(args[0], after, 0);
    assert ArgEnd(after, 0, None) == 0;
    assert (Print(args[0]) + after)[..|Print(args[0])|] == Print(args[0]);
  }

  /** Scanning a printed call gives back its first argument, stripped, whatever follows. */
  lemma {:induction false} FirstArgumentOfPrinted(args: seq<seq<Tok>>, suffix: string)
    requires args != [] && NoComma(args[0])
    requires forall i :: 0 <= i < |args| ==> ToksOk(args[i], false)
    ensures var call := Print(JoinArgs(args));
            && MatchIn(call + (")" + suffix), 1, None) == Some(|call|)
            && FirstOf(call + (")" + suffix)) == Some(Strip(Print(args[0])))
  {
    var call := Print(JoinArgs(args));
    JoinArgsOk(args);
    ToParensOk(JoinArgs(args));
    MatchBalanced(ToParens(JoinArgs(args)), suffix);
    FirstOfJoined(args);
    assert (call + (")" + suffix))[..|call|] == call;
  }
}
