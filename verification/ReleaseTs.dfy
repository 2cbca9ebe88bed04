/** Rendering the release data as a TypeScript module that a gate compares byte for byte. */
module ReleaseTs {
  import opened Wrappers
  import opened JsonText
  import opened JsonBalance
  import opened JsonReader
  import opened TsReader

  const TS_HEADER := "// GENERATED by scripts/release_channel.py --write-ts. Do not edit by hand.\n// Fact source: src/copaw/release_channel.json"
  const TS_FOOTER := "\nexport const githubUrl = `https://github.com/${RELEASE_CHANNEL.github_repository}`;\nexport const releasesUrl = `${githubUrl}/releases`;\n"
  const OPENING := "export const RELEASE_CHANNEL = {"
  const CLOSING := "} as const;"

  function Pad(n: nat): (s: string)
    ensures |s| == n && forall i :: 0 <= i < n ==> s[i] == ' '
  {
    seq(n, _ => ' ')
  }

  /** `pad key: tail` */
  function Line(indent: nat, key: string, tail: string): string {
    Pad(indent) + (key + (": " + tail))
  }

  function InlineTail(items: seq<Value>): string {
    "[" + DumpsItems(items) + "],"
  }

  function ItemLines(items: seq<Value>, indent: nat): seq<string> {
    if items == [] then []
    else [Pad(indent) + ("  " + (Dumps(items[0]) + ","))] + ItemLines(items[1..], indent)
  }

  /** A list stays on one line when the line has at most 80 characters. */
  function TsLines(value: Value, key: string, indent: nat): seq<string>
    decreases value, 1
  {
    match value
    case Dict(fields) =>
      [Line(indent, key, "{")] + (TsFields(fields, indent + 2) + [Pad(indent) + "},"])
    case List(items) =>
      if |Line(indent, key, InlineTail(items))| <= 80 then [Line(indent, key, InlineTail(items))]
      else [Line(indent, key, "[")] + (ItemLines(items, indent) + [Pad(indent) + "],"])
    case _ => [Line(indent, key, Dumps(value) + ",")]
  }

  function TsFields(fields: seq<Field>, indent: nat): seq<string>
    decreases fields, 0
  {
    if fields == [] then [] else TsLines(fields[0].value, fields[0].key, indent) + TsFields(fields[1..], indent)
  }

  /** "\n".join(lines) */
  function JoinLines(lines: seq<string>): string {
    if lines == [] then "" else if |lines| == 1 then lines[0] else lines[0] + "\n" + JoinLines(lines[1..])
  }

  function RenderTs(data: seq<Field>): string {
    JoinLines([TS_HEADER, OPENING] + TsFields(data, 2) + [CLOSING]) + TS_FOOTER
  }

  /** The characters of the dumped items with `, ` between them. */
  ghost function ItemsWidth(items: seq<Value>): nat {
    if items == [] then 0
    else if |items| == 1 then |Dumps(items[0])|
    else |Dumps(items[0])| + 2 + ItemsWidth(items[1..])
  }

  lemma {:induction false} ItemsWidthExact(items: seq<Value>)
    ensures |DumpsItems(items)| == ItemsWidth(items)
  {
    if |items| > 1 {
      ItemsWidthExact(items[1..]);
    }
  }

  lemma {:induction false} ItemLinesCount(items: seq<Value>, indent: nat)
    ensures |ItemLines(items, indent)| == |items|
  {
    if items != [] {
      ItemLinesCount(items[1..], indent);
    }
  }

  /** A list takes one line if the blanks, the name, `: [`, the items with `, ` between them, and
      `],` take at most 80 characters, and otherwise one line for each item and two more. */
  lemma ListLines(items: seq<Value>, key: string, indent: nat)
    ensures |TsLines(List(items), key, indent)| ==
            if indent + |key| + 3 + ItemsWidth(items) + 2 <= 80 then 1 else |items| + 2
  {
    ItemsWidthExact(items);
    ItemLinesCount(items, indent);
    FirstLine(List(items), key, indent);
  }

  /** The recursion with the list it grows. */
  method RenderLines(value: Value, key: string, indent: nat) returns (lines: seq<string>)
    ensures lines == TsLines(value, key, indent)
    ensures value.List? ==>
              |lines| == if indent + |key| + 3 + ItemsWidth(value.items) + 2 <= 80 then 1 else |value.items| + 2
    decreases value
  {
    if value.List? {
      ListLines(value.items, key, indent);
    }
    if value.Dict? {
      var fields := value.fields;
      lines := [Line(indent, key, "{")];
      for k := 0 to |fields|
        invariant lines + TsFields(fields[k..], indent + 2) == [Line(indent, key, "{")] + TsFields(fields, indent + 2)
      {
        assert fields[k..][0] == fields[k] && fields[k..][1..] == fields[k + 1..];
        var inner := RenderLines(fields[k].value, fields[k].key, indent + 2);
        lines := lines + inner;
      }
      assert lines == [Line(indent, key, "{")] + TsFields(fields, indent + 2);
      lines := lines + [Pad(indent) + "},"];
    } else if value.List? {
      var items := value.items;
      var inline := Line(indent, key, InlineTail(items));
      if |inline| <= 80 {
        return [inline];
      }
      lines := [Line(indent, key, "[")];
      for k := 0 to |items|
        invariant lines + ItemLines(items[k..], indent) == [Line(indent, key, "[")] + ItemLines(items, indent)
      {
        assert items[k..][0] == items[k] && items[k..][1..] == items[k + 1..];
        lines := lines + [Pad(indent) + ("  " + (Dumps(items[k]) + ","))];
      }
      assert lines == [Line(indent, key, "[")] + ItemLines(items, indent);
      lines := lines + [Pad(indent) + "],"];
    } else {
      lines := [Line(indent, key, Dumps(value) + ",")];
    }
  }

  /** The whole module; with identifiers for keys a reader of modules gets the data back. */
  method Render(data: seq<Field>) returns (text: string)
    ensures text == RenderTs(data)
    ensures IdentKeys(data) ==> ReadModule(text) == Got(data, CLOSING_LINE + FOOTER_LINES)
  {
    if IdentKeys(data) {
      ModuleRead(data);
    }
    var lines := [TS_HEADER, OPENING];
    for k := 0 to |data|
      invariant lines + TsFields(data[k..], 2) == [TS_HEADER, OPENING] + TsFields(data, 2)
    {
      assert data[k..][0] == data[k] && data[k..][1..] == data[k + 1..];
      var inner := RenderLines(data[k].value, data[k].key, 2);
      lines := lines + inner;
    }
    assert lines == [TS_HEADER, OPENING] + TsFields(data, 2);
    lines := lines + [CLOSING];
    text := JoinLines(lines) + TS_FOOTER;
  }

  // ----- keys -----

  predicate Free(s: string, c: char) {
    forall i :: 0 <= i < |s| ==> s[i] != c
  }

  /** A key printed unquoted, on one line; identifiers are of this kind. */
  predicate PlainKey(key: string) {
    Free(key, '\n')
  }

  /** Keys of the nested dictionaries; inside a list keys are quoted and may be anything. */
  ghost predicate PlainValue(value: Value)
    decreases value, 1
  {
    value.Dict? ==> PlainKeys(value.fields)
  }

  ghost predicate PlainKeys(fields: seq<Field>)
    decreases fields, 0
  {
    fields == [] || (PlainKey(fields[0].key) && PlainValue(fields[0].value) && PlainKeys(fields[1..]))
  }

  // ----- a line determines its key and its tail -----

  lemma NotLonger(a: string, x: string, b: string, y: string, c: char)
    requires Free(b, c) && a + ([c] + x) == b + y
    ensures |b| <= |a|
  {
    assert (a + ([c] + x))[|a|] == c;
  }

  lemma UpTo(a: string, x: string, b: string, y: string, c: char)
    requires Free(a, c) && Free(b, c) && a + ([c] + x) == b + ([c] + y)
    ensures a == b && x == y
  {
    NotLonger(a, x, b, [c] + y, c);
    NotLonger(b, y, a, [c] + x, c);
    Cut(a, [c] + x, b, [c] + y);
    Behind([c], x, y);
  }

  /** What can stand behind the colon on the first line of a value. */
  ghost predicate TailOk(x: string) {
    x == "{" || x == "[" || exists v :: x == Dumps(v) + ","
  }

  /** No tail ends in another tail behind a colon and a blank, so the colons of a key do no harm. */
  lemma NoTailInTail(x: string, m: string, y: string)
    requires TailOk(x) && TailOk(y)
    ensures x != m + ": " + y
  {
    if x == m + ": " + y {
      assert |x| > 1 && x[|x| - 1] == y[|y| - 1];
      var v :| x == Dumps(v) + ",";
      var w :| y == Dumps(w) + ",";
      assert Dumps(v) + "," == (m + ": " + Dumps(w)) + ",";
      Ahead(Dumps(v), m + ": " + Dumps(w), ",");
      NoValueBehindColon(v, m, w);
    }
  }

  lemma NotShorter(k: string, l: string, x: string, y: string)
    requires TailOk(x) && TailOk(y) && k + (": " + x) == l + (": " + y)
    ensures |k| >= |l|
  {
    var s := k + (": " + x);
    assert s[|k| + 1] == ' ' && s[|l|] == ':';
    if |k| + 2 <= |l| {
      var m := l[|k| + 2..];
      assert x == s[|k| + 2..] == m + ": " + y;
      NoTailInTail(x, m, y);
    }
  }

  lemma LineParts(indent: nat, k: string, l: string, x: string, y: string)
    requires TailOk(x) && TailOk(y) && Line(indent, k, x) == Line(indent, l, y)
    ensures k == l && x == y
  {
    Behind(Pad(indent), k + (": " + x), l + (": " + y));
    NotShorter(k, l, x, y);
    NotShorter(l, k, y, x);
    Cut(k, ": " + x, l, ": " + y);
    Behind(": ", x, y);
  }

  /** How the first line of a value ends. */
  datatype Tail = Opens | Inline | OpensList | Scalar

  function TailOf(value: Value, key: string, indent: nat): Tail {
    match value
    case Dict(_) => Opens
    case List(items) => if |Line(indent, key, InlineTail(items))| <= 80 then Inline else OpensList
    case _ => Scalar
  }

  function TailText(value: Value, key: string, indent: nat): string {
    match TailOf(value, key, indent)
    case Opens => "{"
    case Inline => InlineTail(value.items)
    case OpensList => "["
    case Scalar => Dumps(value) + ","
  }

  /** The lines after the first one. */
  function MoreLines(value: Value, key: string, indent: nat): seq<string> {
    match TailOf(value, key, indent)
    case Opens => TsFields(value.fields, indent + 2) + [Pad(indent) + "},"]
    case OpensList => ItemLines(value.items, indent) + [Pad(indent) + "],"]
    case _ => []
  }

  lemma TailTextOk(value: Value, key: string, indent: nat)
    ensures TailOk(TailText(value, key, indent))
  {
    if TailOf(value, key, indent) == Inline {
      assert TailText(value, key, indent) == Dumps(value) + ",";
    }
  }

  lemma FirstLine(value: Value, key: string, indent: nat)
    ensures TsLines(value, key, indent)
        == [Line(indent, key, TailText(value, key, indent))] + MoreLines(value, key, indent)
  {
  }

  lemma TailShape(value: Value, key: string, indent: nat)
    ensures TailText(value, key, indent) != ""
    ensures value.Dict? <==> TailText(value, key, indent)[0] == '{'
    ensures value.List? <==> TailText(value, key, indent)[0] == '['
    ensures value.List? ==> (TailOf(value, key, indent) == OpensList <==> |TailText(value, key, indent)| == 1)
  {
    if !value.Dict? && !value.List? {
      KindHead(value);
      assert (Dumps(value) + ",")[0] == Dumps(value)[0];
    }
  }

  lemma SameTail(v: Value, w: Value, key: string, indent: nat)
    requires TailText(v, key, indent) == TailText(w, key, indent)
    ensures TailOf(v, key, indent) == TailOf(w, key, indent)
  {
    TailShape(v, key, indent);
    TailShape(w, key, indent);
  }

  lemma InlineItems(a: seq<Value>, b: seq<Value>)
    requires InlineTail(a) == InlineTail(b)
    ensures a == b
  {
    assert InlineTail(a) == "[" + DumpsItems(a) + "]" + ",";
    assert InlineTail(b) == "[" + DumpsItems(b) + "]" + ",";
    Inside("[", DumpsItems(a), DumpsItems(b), "]", ",", ",");
    ItemsPrefix(a, b, ",", ",");
  }

  // ----- lines determine values -----

  lemma ConsSplit(a: string, x: seq<string>, b: string, y: seq<string>)
    requires [a] + x == [b] + y
    ensures a == b && x == y
  {
    assert a == ([a] + x)[0] && b == ([b] + y)[0];
    assert x == ([a] + x)[1..] && y == ([b] + y)[1..];
  }

  /** Items are read off the front of the lines, up to a line that is not indented further. */
  lemma {:induction false} ItemLinesPrefix(a: seq<Value>, b: seq<Value>, indent: nat, x: seq<string>, y: seq<string>)
    requires ItemLines(a, indent) + ([Pad(indent) + "],"] + x) == ItemLines(b, indent) + ([Pad(indent) + "],"] + y)
    ensures a == b && x == y
  {
    var closing := Pad(indent) + "],";
    var la, lb := [closing] + x, [closing] + y;
    ItemLinesSplit(a, indent, la);
    ItemLinesSplit(b, indent, lb);
    assert closing[indent] == ']';
    if a == [] || b == [] {
      assert (ItemLines(a, indent) + la)[0] == (ItemLines(b, indent) + lb)[0];
      ConsSplit(closing, x, closing, y);
    } else {
      var p, q := Dumps(a[0]) + ",", Dumps(b[0]) + ",";
      ConsSplit(Pad(indent) + ("  " + p), ItemLines(a[1..], indent) + la, Pad(indent) + ("  " + q),
          ItemLines(b[1..], indent) + lb);
      Behind(Pad(indent), "  " + p, "  " + q);
      Behind("  ", p, q);
      DumpsPrefix(a[0], b[0], ",", ",");
      ItemLinesPrefix(a[1..], b[1..], indent, x, y);
      assert a == [a[0]] + a[1..] && b == [b[0]] + b[1..];
    }
  }

  lemma ItemLinesSplit(a: seq<Value>, indent: nat, rest: seq<string>)
    ensures a == [] ==> ItemLines(a, indent) + rest == rest
    ensures a != [] ==>
              var line := Pad(indent) + ("  " + (Dumps(a[0]) + ","));
              && ItemLines(a, indent) + rest == [line] + (ItemLines(a[1..], indent) + rest)
              && |line| > indent && line[indent] == ' '
  {
  }

  lemma Framed(first: string, body: seq<string>, last: string, x: seq<string>)
    ensures ([first] + body) + x == [first] + (body + x)
    ensures (body + [last]) + x == body + ([last] + x)
    ensures [] + x == x
  {
  }

  /** The lines of a value and what follows them, by the kind of its first line. */
  lemma {:induction false} LinesThen(value: Value, key: string, indent: nat, x: seq<string>)
    ensures TsLines(value, key, indent) + x
         == [Line(indent, key, TailText(value, key, indent))] + (MoreLines(value, key, indent) + x)
    ensures TailOf(value, key, indent) == Opens ==>
              MoreLines(value, key, indent) + x == TsFields(value.fields, indent + 2) + ([Pad(indent) + "},"] + x)
    ensures TailOf(value, key, indent) == OpensList ==>
              MoreLines(value, key, indent) + x == ItemLines(value.items, indent) + ([Pad(indent) + "],"] + x)
    ensures TailOf(value, key, indent) == Inline || TailOf(value, key, indent) == Scalar ==>
              MoreLines(value, key, indent) + x == x
  {
    var tail, more := TailText(value, key, indent), MoreLines(value, key, indent);
    FirstLine(value, key, indent);
    Framed(Line(indent, key, tail), more, "", x);
    match TailOf(value, key, indent)
    case Opens => Framed("", TsFields(value.fields, indent + 2), Pad(indent) + "},", x);
    case OpensList => Framed("", ItemLines(value.items, indent), Pad(indent) + "],", x);
    case _ =>
  }

  lemma SameFirstLine(v: Value, w: Value, k: string, l: string, indent: nat, x: seq<string>, y: seq<string>)
    requires TsLines(v, k, indent) + x == TsLines(w, l, indent) + y
    ensures k == l && TailOf(v, k, indent) == TailOf(w, k, indent)
    ensures TailText(v, k, indent) == TailText(w, k, indent)
    ensures MoreLines(v, k, indent) + x == MoreLines(w, k, indent) + y
  {
    LinesThen(v, k, indent, x);
    LinesThen(w, l, indent, y);
    var s, t := TailText(v, k, indent), TailText(w, l, indent);
    ConsSplit(Line(indent, k, s), MoreLines(v, k, indent) + x, Line(indent, l, t), MoreLines(w, l, indent) + y);
    TailTextOk(v, k, indent);
    TailTextOk(w, l, indent);
    LineParts(indent, k, l, s, t);
    SameTail(v, w, k, indent);
  }

  /** A value is read off the front of the lines, whichever list form its width picked. */
  lemma {:induction false} TsLinesPrefix(v: Value, w: Value, k: string, l: string, indent: nat, x: seq<string>,
                                         y: seq<string>)
    requires TsLines(v, k, indent) + x == TsLines(w, l, indent) + y
    ensures v == w && k == l && x == y
    decreases v, 1
  {
    SameFirstLine(v, w, k, l, indent, x, y);
    LinesThen(v, k, indent, x);
    LinesThen(w, k, indent, y);
    match TailOf(v, k, indent)
    case Opens =>
      var closing := Pad(indent) + "},";
      assert closing[indent] == '}';
      TsFieldsPrefix(v.fields, w.fields, indent + 2, closing, x, y);
    case Inline =>
      InlineItems(v.items, w.items);
    case OpensList =>
      ItemLinesPrefix(v.items, w.items, indent, x, y);
    case Scalar =>
      DumpsPrefix(v, w, ",", ",");
  }

  /** A line that cannot start an entry at this indentation. */
  predicate Closes(line: string, indent: nat) {
    exists i :: 0 <= i < indent && i < |line| && line[i] != ' '
  }

  lemma EntryOpens(f: Field, indent: nat)
    ensures TsLines(f.value, f.key, indent) != []
    ensures !Closes(TsLines(f.value, f.key, indent)[0], indent)
  {
    FirstLine(f.value, f.key, indent);
    var line := TsLines(f.value, f.key, indent)[0];
    assert forall i :: 0 <= i < indent ==> line[i] == Pad(indent)[i];
  }

  lemma {:induction false} TsFieldsPrefix(a: seq<Field>, b: seq<Field>, indent: nat, closing: string, x: seq<string>,
                                          y: seq<string>)
    requires TsFields(a, indent) + ([closing] + x) == TsFields(b, indent) + ([closing] + y)
    requires Closes(closing, indent)
    ensures a == b && x == y
    decreases a, 0
  {
    var la, lb := [closing] + x, [closing] + y;
    TsFieldsSplit(a, indent, la);
    TsFieldsSplit(b, indent, lb);
    if a == [] || b == [] {
      assert (TsFields(a, indent) + la)[0] == (TsFields(b, indent) + lb)[0];
      ConsSplit(closing, x, closing, y);
    } else {
      var ra, rb := TsFields(a[1..], indent) + la, TsFields(b[1..], indent) + lb;
      TsLinesPrefix(a[0].value, b[0].value, a[0].key, b[0].key, indent, ra, rb);
      TsFieldsPrefix(a[1..], b[1..], indent, closing, x, y);
      assert a == [a[0]] + a[1..] && b == [b[0]] + b[1..];
    }
  }

  lemma TsFieldsSplit(a: seq<Field>, indent: nat, rest: seq<string>)
    ensures a == [] ==> TsFields(a, indent) + rest == rest
    ensures a != [] ==>
              && TsFields(a, indent) + rest == TsLines(a[0].value, a[0].key, indent) + (TsFields(a[1..], indent) + rest)
              && !Closes((TsFields(a, indent) + rest)[0], indent)
  {
    if a != [] {
      EntryOpens(a[0], indent);
    }
  }

  // ----- the text determines the lines -----

  ghost predicate OneLineEach(lines: seq<string>) {
    forall i :: 0 <= i < |lines| ==> Free(lines[i], '\n')
  }

  lemma {:induction false} JoinHasNewline(lines: seq<string>)
    requires |lines| >= 2
    ensures !Free(JoinLines(lines), '\n')
  {
    assert JoinLines(lines)[|lines[0]|] == '\n';
  }

  lemma {:induction false} JoinInjective(a: seq<string>, b: seq<string>)
    requires OneLineEach(a) && OneLineEach(b) && a != [] && b != [] && JoinLines(a) == JoinLines(b)
    ensures a == b
  {
    if |a| == 1 && |b| == 1 {
    } else if |a| == 1 {
      JoinHasNewline(b);
    } else if |b| == 1 {
      JoinHasNewline(a);
    } else {
      assert JoinLines(a) == a[0] + (['\n'] + JoinLines(a[1..]));
      assert JoinLines(b) == b[0] + (['\n'] + JoinLines(b[1..]));
      UpTo(a[0], JoinLines(a[1..]), b[0], JoinLines(b[1..]), '\n');
      JoinInjective(a[1..], b[1..]);
      assert a == [a[0]] + a[1..] && b == [b[0]] + b[1..];
    }
  }

  lemma LineFree(indent: nat, key: string, tail: string)
    requires Free(key, '\n') && Free(tail, '\n')
    ensures Free(Line(indent, key, tail), '\n')
  {
  }

  lemma {:induction false} ItemLinesFree(items: seq<Value>, indent: nat)
    ensures OneLineEach(ItemLines(items, indent))
  {
    if items == [] {
    } else {
      DumpsPrintable(items[0]);
      ItemLinesFree(items[1..], indent);
    }
  }

  lemma {:induction false} TsLinesFree(v: Value, key: string, indent: nat)
    requires PlainKey(key) && PlainValue(v)
    ensures OneLineEach(TsLines(v, key, indent))
    decreases v, 1
  {
    FirstLine(v, key, indent);
    match TailOf(v, key, indent)
    case Opens =>
      LineFree(indent, key, "{");
      TsFieldsFree(v.fields, indent + 2);
    case Inline =>
      ItemsPrintable(v.items);
      LineFree(indent, key, InlineTail(v.items));
    case OpensList =>
      LineFree(indent, key, "[");
      ItemLinesFree(v.items, indent);
    case Scalar =>
      DumpsPrintable(v);
      LineFree(indent, key, Dumps(v) + ",");
  }

  lemma {:induction false} TsFieldsFree(fields: seq<Field>, indent: nat)
    requires PlainKeys(fields)
    ensures OneLineEach(TsFields(fields, indent))
    decreases fields, 0
  {
    if fields == [] {
    } else {
      TsLinesFree(fields[0].value, fields[0].key, indent);
      TsFieldsFree(fields[1..], indent);
    }
  }

  /** The lines after the header. */
  function BodyLines(data: seq<Field>): seq<string> {
    [OPENING] + (TsFields(data, 2) + [CLOSING])
  }

  lemma RenderSplit(data: seq<Field>)
    ensures RenderTs(data) == (TS_HEADER + "\n") + (JoinLines(BodyLines(data)) + TS_FOOTER)
  {
    var lines := [TS_HEADER, OPENING] + TsFields(data, 2) + [CLOSING];
    assert lines == [TS_HEADER] + BodyLines(data);
    assert lines[1..] == BodyLines(data);
  }

  lemma {:induction false} BodyFree(data: seq<Field>)
    requires PlainKeys(data)
    ensures OneLineEach(BodyLines(data))
  {
    TsFieldsFree(data, 2);
    assert Free(OPENING, '\n') && Free(CLOSING, '\n');
  }

  lemma Ahead(x: string, y: string, b: string)
    requires x + b == y + b
    ensures x == y
  {
    assert |x| == |y|;
    Cut(x, b, y, b);
  }

  /** Two data sets whose keys hold no line break render to the same text only when they are
      equal. */
  lemma RenderInjective(d: seq<Field>, e: seq<Field>)
    requires PlainKeys(d) && PlainKeys(e)
    ensures RenderTs(d) == RenderTs(e) <==> d == e
  {
    if RenderTs(d) == RenderTs(e) {
      RenderSplit(d);
      RenderSplit(e);
      var jd, je := JoinLines(BodyLines(d)), JoinLines(BodyLines(e));
      Behind(TS_HEADER + "\n", jd + TS_FOOTER, je + TS_FOOTER);
      Ahead(jd, je, TS_FOOTER);
      BodyFree(d);
      BodyFree(e);
      JoinInjective(BodyLines(d), BodyLines(e));
      ConsSplit(OPENING, TsFields(d, 2) + [CLOSING], OPENING, TsFields(e, 2) + [CLOSING]);
      assert TsFields(d, 2) + [CLOSING] == TsFields(d, 2) + ([CLOSING] + []);
      assert TsFields(e, 2) + [CLOSING] == TsFields(e, 2) + ([CLOSING] + []);
      assert CLOSING[0] != ' ';
      TsFieldsPrefix(d, e, 2, CLOSING, [], []);
    }
  }

  /** A key holding a colon and a line break can imitate two entries. */
  lemma PlainKeysNeeded(a: string, b: string)
    ensures RenderTs([Field(a + ": null,\n  " + b, Null)]) == RenderTs([Field(a, Null), Field(b, Null)])
  {
    var forged := a + ": null,\n  " + b;
    var d, e := [Field(forged, Null)], [Field(a, Null), Field(b, Null)];
    RenderSplit(d);
    RenderSplit(e);
    NullEntry(forged, []);
    NullEntry(a, [Field(b, Null)]);
    NullEntry(b, []);
    assert d == [Field(forged, Null)] + [] && e == [Field(a, Null)] + [Field(b, Null)];
    assert [Field(b, Null)] == [Field(b, Null)] + [];
    assert TsFields([], 2) == [];
    assert TsFields(d, 2) == [Line(2, forged, "null,")];
    assert TsFields(e, 2) == [Line(2, a, "null,")] + [Line(2, b, "null,")];
    JoinSame(a, b);
  }

  lemma JoinSame(a: string, b: string)
    ensures JoinLines([OPENING] + ([Line(2, a + ": null,\n  " + b, "null,")] + [CLOSING]))
         == JoinLines([OPENING] + (([Line(2, a, "null,")] + [Line(2, b, "null,")]) + [CLOSING]))
  {
    var lf, la, lb := Line(2, a + ": null,\n  " + b, "null,"), Line(2, a, "null,"), Line(2, b, "null,");
    ForgedLine(a, b);
    JoinTwo(lf, CLOSING);
    JoinTwo(lb, CLOSING);
    JoinMore(la, [lb, CLOSING]);
    assert [la] + [lb, CLOSING] == ([la] + [lb]) + [CLOSING] && [lf, CLOSING] == [lf] + [CLOSING];
    JoinMore(OPENING, [lf] + [CLOSING]);
    JoinMore(OPENING, ([la] + [lb]) + [CLOSING]);
  }

  lemma ForgedLine(a: string, b: string)
    ensures Line(2, a + ": null,\n  " + b, "null,") == Line(2, a, "null,") + "\n" + Line(2, b, "null,")
  {
    assert Pad(2) == "  ";
  }

  lemma JoinMore(line: string, lines: seq<string>)
    requires lines != []
    ensures JoinLines([line] + lines) == line + "\n" + JoinLines(lines)
  {
    assert ([line] + lines)[1..] == lines;
  }

  lemma NullEntry(key: string, rest: seq<Field>)
    ensures TsFields([Field(key, Null)] + rest, 2) == [Line(2, key, "null,")] + TsFields(rest, 2)
  {
    assert ([Field(key, Null)] + rest)[1..] == rest;
    assert Dumps(Null) + "," == "null,";
  }

  lemma JoinTwo(a: string, b: string)
    ensures JoinLines([a, b]) == a + "\n" + b
  {
    assert [a, b][1..] == [b];
  }

  // ----- the module is read back -----

  ghost predicate IdentValue(value: Value)
    decreases value, 1
  {
    value.Dict? ==> IdentKeys(value.fields)
  }

  ghost predicate IdentKeys(fields: seq<Field>)
    decreases fields, 0
  {
    fields == [] || (IsIdent(fields[0].key) && IdentValue(fields[0].value) && IdentKeys(fields[1..]))
  }

  /** Every line with its line end. */
  function Ended(lines: seq<string>): string {
    if lines == [] then "" else lines[0] + ("\n" + Ended(lines[1..]))
  }

  lemma {:induction false} EndedAppend(a: seq<string>, b: seq<string>)
    ensures Ended(a + b) == Ended(a) + Ended(b)
  {
    if a == [] {
      assert a + b == b;
    } else {
      assert (a + b)[1..] == a[1..] + b;
      EndedAppend(a[1..], b);
    }
  }

  lemma EndedOne(line: string)
    ensures Ended([line]) == line + "\n"
  {
    assert [line][1..] == [];
  }

  lemma EndedCons(line: string, rest: seq<string>)
    ensures Ended([line] + rest) == line + ("\n" + Ended(rest))
  {
    assert ([line] + rest)[1..] == rest;
  }

  lemma {:induction false} JoinEnded(lines: seq<string>, last: string)
    ensures JoinLines(lines + [last]) == Ended(lines) + last
  {
    if lines == [] {
    } else {
      assert (lines + [last])[1..] == lines[1..] + [last];
      JoinEnded(lines[1..], last);
    }
  }

  lemma {:induction false} IdentRead(key: string, x: string)
    requires (forall i :: 0 <= i < |key| ==> IdentChar(key[i])) && (x == "" || !IdentChar(x[0]))
    ensures ReadIdent(key + x) == key
  {
    if key == "" {
      assert key + x == x;
    } else {
      assert (key + x)[1..] == key[1..] + x;
      IdentRead(key[1..], x);
    }
  }

  lemma SkipRead(n: nat, word: string, x: string)
    ensures TsReader.Skip(Pad(n) + (word + x), n, word) == Got((), x)
    ensures TsReader.Skip(word + x, 0, word) == Got((), x)
  {
    var text := Pad(n) + (word + x);
    assert text[n..] == word + x;
    Begins(word, x);
    assert text[n + |word|..] == x;
  }

  /** No entry starts here at this level. */
  ghost predicate NoEntry(y: string, n: nat) {
    !(Blanks(y, n) && |y| > n && IdentChar(y[n]))
  }

  lemma BracketEnds(n: nat, end: string)
    requires end != "" && end[0] != ' ' && !IdentChar(end[0])
    ensures NoEntry(Pad(n) + end, n + 2) && !Blanks(Pad(n) + end, n + 2)
  {
    assert (Pad(n) + end)[n] == end[0];
  }

  /** The text of an entry behind its name. */
  function TailThen(v: Value, key: string, n: nat, rest: string): string {
    TailText(v, key, n) + ("\n" + (Ended(MoreLines(v, key, n)) + rest))
  }

  lemma Regroup(a: string, b: string, c: string, d: string)
    ensures (a + b) + (c + d) == a + (b + (c + d))
    ensures (a + (b + c)) + d == a + (b + (c + d))
  {
  }

  lemma EntryText(v: Value, key: string, n: nat, rest: string)
    ensures Ended(TsLines(v, key, n)) + rest == Pad(n) + (key + (": " + TailThen(v, key, n, rest)))
  {
    var tail, more := TailText(v, key, n), Ended(MoreLines(v, key, n));
    FirstLine(v, key, n);
    EndedCons(Line(n, key, tail), MoreLines(v, key, n));
    Regroup(Line(n, key, tail), "\n", more, rest);
    assert (Line(n, key, tail) + ("\n" + more)) + rest == Line(n, key, tail) + ("\n" + (more + rest));
    LineThen(n, key, tail, "\n" + (more + rest));
  }

  lemma LineThen(n: nat, key: string, tail: string, x: string)
    ensures Line(n, key, tail) + x == Pad(n) + (key + (": " + (tail + x)))
  {
    assert (key + (": " + tail)) + x == key + (": " + (tail + x));
  }

  lemma EntryStep(text: string, key: string, v: Value, n: nat, tail: string, rest: string)
    requires n <= |text| && ReadIdent(text[n..]) == key
    requires n + |key| <= |text| && TsReader.Skip(text[n + |key|..], 0, ": ") == Got((), tail)
    requires ReadTail(tail, n) == Got(v, rest)
    ensures ReadEntry(text, n) == Got(Field(key, v), rest)
  {
  }

  lemma EntryParts(key: string, n: nat, tail: string)
    requires IsIdent(key)
    ensures var text := Pad(n) + (key + (": " + tail));
            && Blanks(text, n) && n + |key| < |text| && IdentChar(text[n])
            && text[n..] == key + (": " + tail) && text[n + |key|..] == ": " + tail
  {
    var text := Pad(n) + (key + (": " + tail));
    Begins(Pad(n), key + (": " + tail));
    assert text[n] == key[0];
    assert text == (Pad(n) + key) + (": " + tail);
  }

  lemma EntryGoOn(key: string, v: Value, n: nat, tail: string, rest: string, more: seq<Field>, y: string)
    requires IsIdent(key) && ReadTail(tail, n) == Got(v, rest) && ReadEntries(rest, n) == Got(more, y)
    ensures ReadEntries(Pad(n) + (key + (": " + tail)), n) == Got([Field(key, v)] + more, y)
  {
    EntryParts(key, n, tail);
    IdentRead(key, ": " + tail);
    SkipRead(0, ": ", tail);
    EntryStep(Pad(n) + (key + (": " + tail)), key, v, n, tail, rest);
  }

  lemma {:induction false} EntriesRead(fields: seq<Field>, n: nat, y: string)
    requires IdentKeys(fields) && NoEntry(y, n)
    ensures ReadEntries(Ended(TsFields(fields, n)) + y, n) == Got(fields, y)
    decreases fields, 0
  {
    if fields == [] {
      assert Ended(TsFields(fields, n)) + y == y;
    } else {
      var key, v := fields[0].key, fields[0].value;
      var rest := Ended(TsFields(fields[1..], n)) + y;
      EntriesRead(fields[1..], n, y);
      TailRead(v, key, n, rest);
      EntryGoOn(key, v, n, TailThen(v, key, n, rest), rest, fields[1..], y);
      EntriesText(fields, n, y);
      assert [Field(key, v)] + fields[1..] == fields;
    }
  }

  lemma AppendThen(a: seq<string>, b: seq<string>, y: string)
    ensures Ended(a + b) + y == Ended(a) + (Ended(b) + y)
  {
    EndedAppend(a, b);
  }

  lemma {:induction false} EntriesText(fields: seq<Field>, n: nat, y: string)
    requires fields != []
    ensures var key, v, rest := fields[0].key, fields[0].value, Ended(TsFields(fields[1..], n)) + y;
            Ended(TsFields(fields, n)) + y == Pad(n) + (key + (": " + TailThen(v, key, n, rest)))
  {
    AppendThen(TsLines(fields[0].value, fields[0].key, n), TsFields(fields[1..], n), y);
    EntryText(fields[0].value, fields[0].key, n, Ended(TsFields(fields[1..], n)) + y);
  }

  lemma {:induction false} TailRead(v: Value, key: string, n: nat, rest: string)
    requires IdentValue(v)
    ensures ReadTail(TailThen(v, key, n, rest), n) == Got(v, rest)
    decreases v, 1
  {
    match TailOf(v, key, n)
    case Opens =>
      BracketEnds(n, "},\n" + rest);
      EntriesRead(v.fields, n + 2, Pad(n) + ("},\n" + rest));
      DictTail(v, key, n, rest);
    case OpensList =>
      BracketEnds(n, "],\n" + rest);
      ItemLinesRead(v.items, n, Pad(n) + ("],\n" + rest));
      ListTail(v, key, n, rest);
    case _ =>
      OneLineTail(v, key, n, rest);
  }

  lemma {:induction false} ItemLinesRead(items: seq<Value>, n: nat, y: string)
    requires !Blanks(y, n + 2)
    ensures ReadItemLines(Ended(ItemLines(items, n)) + y, n + 2) == Got(items, y)
  {
    if items == [] {
      assert Ended(ItemLines(items, n)) + y == y;
    } else {
      var rest := Ended(ItemLines(items[1..], n)) + y;
      ItemLinesRead(items[1..], n, y);
      ItemLineText(items, n, y);
      ItemLineGoOn(items[0], n, rest, items[1..], y);
      assert [items[0]] + items[1..] == items;
    }
  }

  lemma {:induction false} ItemLineText(items: seq<Value>, n: nat, y: string)
    requires items != []
    ensures Ended(ItemLines(items, n)) + y
         == Pad(n + 2) + (Dumps(items[0]) + (",\n" + (Ended(ItemLines(items[1..], n)) + y)))
  {
    var d, more := Dumps(items[0]), Ended(ItemLines(items[1..], n));
    EndedCons(Pad(n) + ("  " + (d + ",")), ItemLines(items[1..], n));
    assert Pad(n) + ("  " + (d + ",")) == Pad(n + 2) + (d + ",");
    Regroup(Pad(n + 2) + (d + ","), "\n", more, y);
    ItemThen(n + 2, d, more + y);
  }

  lemma ItemThen(n: nat, d: string, x: string)
    ensures (Pad(n) + (d + ",")) + ("\n" + x) == Pad(n) + (d + (",\n" + x))
  {
    assert (d + ",") + ("\n" + x) == d + (",\n" + x);
  }

  lemma ItemLineGoOn(v: Value, n: nat, rest: string, more: seq<Value>, y: string)
    requires ReadItemLines(rest, n + 2) == Got(more, y)
    ensures ReadItemLines(Pad(n + 2) + (Dumps(v) + (",\n" + rest)), n + 2) == Got([v] + more, y)
  {
    var text := Pad(n + 2) + (Dumps(v) + (",\n" + rest));
    assert text[n + 2..] == Dumps(v) + (",\n" + rest);
    DumpsRead(v, ",\n" + rest);
    SkipRead(0, ",\n", rest);
  }

  lemma ClosingThen(open: string, begun: string, lines: seq<string>, closing: string, ending: string, rest: string)
    requires begun == open + "\n" && ending == closing + "\n"
    ensures open + ("\n" + (Ended(lines + [closing]) + rest)) == begun + (Ended(lines) + (ending + rest))
  {
    AppendThen(lines, [closing], rest);
    EndedOne(closing);
    var inner := Ended(lines) + (ending + rest);
    assert open + ("\n" + inner) == begun + inner;
  }

  lemma PadThen(n: nat, word: string, line: string, rest: string)
    requires line == word + "\n"
    ensures Pad(n) + line == (Pad(n) + word) + "\n" && (Pad(n) + line) + rest == Pad(n) + (line + rest)
  {
  }

  lemma DictText(v: Value, key: string, n: nat, rest: string)
    requires TailOf(v, key, n) == Opens
    ensures TailThen(v, key, n, rest) == "{\n" + (Ended(TsFields(v.fields, n + 2)) + (Pad(n) + ("},\n" + rest)))
  {
    PadThen(n, "},", "},\n", rest);
    ClosingThen("{", "{\n", TsFields(v.fields, n + 2), Pad(n) + "},", Pad(n) + "},\n", rest);
  }

  lemma ListText(v: Value, key: string, n: nat, rest: string)
    requires TailOf(v, key, n) == OpensList
    ensures TailThen(v, key, n, rest) == "[\n" + (Ended(ItemLines(v.items, n)) + (Pad(n) + ("],\n" + rest)))
  {
    PadThen(n, "],", "],\n", rest);
    ClosingThen("[", "[\n", ItemLines(v.items, n), Pad(n) + "],", Pad(n) + "],\n", rest);
  }

  lemma DictStep(inner: string, n: nat, fields: seq<Field>, end: string, rest: string)
    requires ReadEntries(inner, n + 2) == Got(fields, end) && TsReader.Skip(end, n, "},\n") == Got((), rest)
    ensures ReadTail("{\n" + inner, n) == Got(Dict(fields), rest)
  {
    Begins("{\n", inner);
  }

  lemma {:induction false} DictTail(v: Value, key: string, n: nat, rest: string)
    requires TailOf(v, key, n) == Opens
    requires ReadEntries(Ended(TsFields(v.fields, n + 2)) + (Pad(n) + ("},\n" + rest)), n + 2)
          == Got(v.fields, Pad(n) + ("},\n" + rest))
    ensures ReadTail(TailThen(v, key, n, rest), n) == Got(v, rest)
  {
    DictText(v, key, n, rest);
    SkipRead(n, "},\n", rest);
    var end := Pad(n) + ("},\n" + rest);
    DictStep(Ended(TsFields(v.fields, n + 2)) + end, n, v.fields, end, rest);
  }

  lemma ListStep(inner: string, n: nat, items: seq<Value>, end: string, rest: string)
    requires ReadItemLines(inner, n + 2) == Got(items, end) && TsReader.Skip(end, n, "],\n") == Got((), rest)
    ensures ReadTail("[\n" + inner, n) == Got(List(items), rest)
  {
    Begins("[\n", inner);
    assert ("[\n" + inner)[0] == '[';
  }

  lemma {:induction false} ListTail(v: Value, key: string, n: nat, rest: string)
    requires TailOf(v, key, n) == OpensList
    requires ReadItemLines(Ended(ItemLines(v.items, n)) + (Pad(n) + ("],\n" + rest)), n + 2)
          == Got(v.items, Pad(n) + ("],\n" + rest))
    ensures ReadTail(TailThen(v, key, n, rest), n) == Got(v, rest)
  {
    ListText(v, key, n, rest);
    SkipRead(n, "],\n", rest);
    ListStep(Ended(ItemLines(v.items, n)) + (Pad(n) + ("],\n" + rest)), n, v.items, Pad(n) + ("],\n" + rest), rest);
  }

  lemma OneLineStep(text: string, n: nat, v: Value, rest: string)
    requires ReadValue(text) == Got(v, ",\n" + rest) && !v.Dict? && !("{\n" <= text) && !("[\n" <= text)
    ensures ReadTail(text, n) == Got(v, rest)
  {
    Begins(",\n", rest);
  }

  lemma NoOpening(v: Value, x: string)
    requires !v.Dict?
    ensures !("{\n" <= Dumps(v) + x) && !("[\n" <= Dumps(v) + x)
  {
    KindHead(v);
    DumpsPrintable(v);
    var text := Dumps(v) + x;
    assert text[0] == Dumps(v)[0] && (|Dumps(v)| > 1 ==> text[1] == Dumps(v)[1]);
  }

  lemma OneLineText(v: Value, key: string, n: nat, rest: string)
    requires TailOf(v, key, n) == Inline || TailOf(v, key, n) == Scalar
    ensures TailThen(v, key, n, rest) == Dumps(v) + (",\n" + rest)
  {
    assert TailText(v, key, n) == Dumps(v) + ",";
    CommaThen(Dumps(v), rest);
  }

  lemma CommaThen(dumped: string, rest: string)
    ensures (dumped + ",") + ("\n" + (Ended([]) + rest)) == dumped + (",\n" + rest)
  {
    assert Ended([]) + rest == rest;
  }

  lemma {:induction false} OneLineTail(v: Value, key: string, n: nat, rest: string)
    requires TailOf(v, key, n) == Inline || TailOf(v, key, n) == Scalar
    ensures ReadTail(TailThen(v, key, n, rest), n) == Got(v, rest)
  {
    var end := ",\n" + rest;
    OneLineText(v, key, n, rest);
    NoOpening(v, end);
    assert end[0] == ',';
    DumpsRead(v, end);
    OneLineStep(Dumps(v) + end, n, v, rest);
  }

  lemma JoinParts(header: string, opening: string, body: seq<string>, closing: string, footer: string)
    ensures JoinLines([header, opening] + body + [closing]) + footer
         == (header + ("\n" + (opening + "\n"))) + (Ended(body) + (closing + footer))
  {
    JoinEnded([header, opening] + body, closing);
    assert [header, opening] + body == [header] + ([opening] + body);
    EndedCons(header, [opening] + body);
    EndedCons(opening, body);
    var e := Ended(body);
    assert header + ("\n" + (opening + ("\n" + e))) == (header + ("\n" + (opening + "\n"))) + e;
  }

  lemma {:induction false} ModuleText(data: seq<Field>)
    ensures RenderTs(data) ==
            (HEADER_LINES + ("\n" + (OPENING_LINE + "\n"))) + (Ended(TsFields(data, 2)) + (CLOSING_LINE + FOOTER_LINES))
  {
    JoinParts(TS_HEADER, OPENING, TsFields(data, 2), CLOSING, TS_FOOTER);
  }

  /** A module rendered from data whose keys are identifiers is read back as that data. */
  lemma {:induction false} ModuleRead(data: seq<Field>)
    requires IdentKeys(data)
    ensures ReadModule(RenderTs(data)) == Got(data, CLOSING_LINE + FOOTER_LINES)
  {
    var start, end := HEADER_LINES + ("\n" + (OPENING_LINE + "\n")), CLOSING_LINE + FOOTER_LINES;
    ModuleText(data);
    SkipRead(0, start, Ended(TsFields(data, 2)) + end);
    assert end[0] == '}';
    EntriesRead(data, 2, end);
  }

  // ----- the gate -----

  datatype ModuleError = ModuleMissing | ModuleStale

  lemma RenderedFrom(d: seq<Field>, data: seq<Field>, committed: Option<string>)
    requires PlainKeys(d) && PlainKeys(data) && committed == Some(RenderTs(d))
    ensures committed == Some(RenderTs(data)) <==> d == data
  {
    RenderInjective(d, data);
  }

  /** The code-generation rule on the committed module: it accepts a module generated from
      plain data exactly when that data is the current data. */
  method RuleCodegen(committed: Option<string>, data: seq<Field>) returns (errors: seq<ModuleError>)
    ensures errors == [] <==> committed == Some(RenderTs(data))
    ensures PlainKeys(data) ==>
              forall d :: PlainKeys(d) && committed == Some(RenderTs(d)) ==> (errors == [] <==> d == data)
  {
    errors := CompareModule(committed, data);
    forall d | PlainKeys(d) && PlainKeys(data) && committed == Some(RenderTs(d))
      ensures committed == Some(RenderTs(data)) <==> d == data
    {
      RenderedFrom(d, data, committed);
    }
  }

  /** Missing, stale, or byte for byte the rendered module. */
  method CompareModule(committed: Option<string>, data: seq<Field>) returns (errors: seq<ModuleError>)
    ensures errors == [] <==> committed == Some(RenderTs(data))
  {
    if committed.None? {
      return [ModuleMissing];
    }
    var rendered := Render(data);
    if committed.value != rendered {
      return [ModuleStale];
    }
    errors := [];
  }
}
