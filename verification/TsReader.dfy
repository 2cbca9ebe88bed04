/** A reader of the generated TypeScript module, written apart from the renderer. */
module TsReader {
  import opened JsonText
  import opened JsonReader

  /** A letter, a digit, an underscore or a dollar sign. */
  predicate IdentChar(c: char) {
    'a' <= c <= 'z' || 'A' <= c <= 'Z' || '0' <= c <= '9' || c == '_' || c == '$'
  }

  predicate IsIdent(key: string) {
    key != "" && forall i :: 0 <= i < |key| ==> IdentChar(key[i])
  }

  /** The text starts with at least `n` blanks. */
  predicate Blanks(text: string, n: nat) {
    n <= |text| && forall i :: 0 <= i < n ==> text[i] == ' '
  }

  function ReadIdent(text: string): (key: string)
    ensures |key| <= |text|
  {
    if text == "" || !IdentChar(text[0]) then "" else [text[0]] + ReadIdent(text[1..])
  }

  /** What is left behind `n` blanks and `word`. */
  function Skip(text: string, n: nat, word: string): (g: Got<()>)
    ensures g.Got? ==> |g.rest| <= |text| && (n > 0 || word != "" ==> |g.rest| < |text|)
  {
    if Blanks(text, n) && word <= text[n..] then Got((), text[n + |word|..]) else Bad
  }

  /** A name behind `n` blanks, `: `, and a value. */
  function ReadEntry(text: string, n: nat): (g: Got<Field>)
    requires n <= |text|
    ensures g.Got? ==> |g.rest| < |text|
    decreases |text|, 1
  {
    var key := ReadIdent(text[n..]);
    var colon := Skip(text[n + |key|..], 0, ": ");
    if colon.Bad? then Bad
    else
      var value := ReadTail(colon.rest, n);
      if value.Bad? then Bad else Got(Field(key, value.value), value.rest)
  }

  /** The entries at one level. */
  function ReadEntries(text: string, n: nat): (g: Got<seq<Field>>)
    ensures g.Got? ==> |g.rest| <= |text|
    decreases |text|, 2
  {
    if !(Blanks(text, n) && |text| > n && IdentChar(text[n])) then Got([], text)
    else
      var first := ReadEntry(text, n);
      if first.Bad? then Bad
      else
        var more := ReadEntries(first.rest, n);
        if more.Bad? then Bad else Got([first.value] + more.value, more.rest)
  }

  /** A value behind its name, up to the end of its last line. */
  function ReadTail(text: string, n: nat): (g: Got<Value>)
    ensures g.Got? ==> |g.rest| < |text|
    decreases |text|, 0
  {
    if "{\n" <= text then
      var fields := ReadEntries(text[2..], n + 2);
      if fields.Bad? then Bad
      else
        var end := Skip(fields.rest, n, "},\n");
        if end.Bad? then Bad else Got(Dict(fields.value), end.rest)
    else if "[\n" <= text then
      var items := ReadItemLines(text[2..], n + 2);
      if items.Bad? then Bad
      else
        var end := Skip(items.rest, n, "],\n");
        if end.Bad? then Bad else Got(List(items.value), end.rest)
    else
      var v := ReadValue(text);
      if v.Bad? || v.value.Dict? then Bad
      else
        var end := Skip(v.rest, 0, ",\n");
        if end.Bad? then Bad else Got(v.value, end.rest)
  }

  /** Items on lines of their own. */
  function ReadItemLines(text: string, n: nat): (g: Got<seq<Value>>)
    ensures g.Got? ==> |g.rest| <= |text|
    decreases |text|
  {
    if !Blanks(text, n) then Got([], text)
    else
      var v := ReadValue(text[n..]);
      if v.Bad? then Bad
      else
        var end := Skip(v.rest, 0, ",\n");
        if end.Bad? then Bad
        else
          var more := ReadItemLines(end.rest, n);
          if more.Bad? then Bad else Got([v.value] + more.value, more.rest)
  }

  const HEADER_LINES :=
    "// GENERATED by scripts/release_channel.py --write-ts. Do not edit by hand.\n// Fact source: src/copaw/release_channel.json"
  const OPENING_LINE := "export const RELEASE_CHANNEL = {"
  const CLOSING_LINE := "} as const;"
  const FOOTER_LINES :=
    "\nexport const githubUrl = `https://github.com/${RELEASE_CHANNEL.github_repository}`;\nexport const releasesUrl = `${githubUrl}/releases`;\n"

  /** The data of a module, when it is one. */
  function ReadModule(text: string): Got<seq<Field>> {
    var start := Skip(text, 0, HEADER_LINES + ("\n" + (OPENING_LINE + "\n")));
    if start.Bad? then Bad
    else
      var fields := ReadEntries(start.rest, 2);
      if fields.Bad? || fields.rest != CLOSING_LINE + FOOTER_LINES then Bad else fields
  }
}
