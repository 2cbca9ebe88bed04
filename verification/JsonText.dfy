/** json.dumps with its default separators and ASCII escapes, and the reading of its output. */
module JsonText {
  import opened Decimal

  datatype Value =
    | Null
    | Bool(b: bool)
    | Int(n: int)
    | Str(s: string)
    | List(items: seq<Value>)
    | Dict(fields: seq<Field>)

  /** An item of a dictionary, in insertion order. */
  datatype Field = Field(key: string, value: Value)

  // ----- strings -----

  function Unit(n: nat): string
    requires n < 0x10000
  {
    "\\u" + Hex4(n)
  }

  /** Written as itself: printable ASCII other than the quote and the backslash. */
  predicate Verbatim(c: char) {
    ' ' <= c <= '~' && c != '"' && c != '\\'
  }

  /** The letter of a two-character escape; `u` for the numeric ones. */
  function EscapeLetter(c: char): char {
    if c == '"' then '"'
    else if c == '\\' then '\\'
    else if c == '\n' then 'n'
    else if c == '\r' then 'r'
    else if c == '\t' then 't'
    else if c == '\U{0C}' then 'f'
    else if c == '\U{08}' then 'b'
    else 'u'
  }

  /** Above the basic plane, a pair of surrogates. */
  function NumericEscape(c: char): string {
    var n := c as int;
    if n < 0x10000 then Unit(n)
    else Unit(0xD800 + (n - 0x10000) / 0x400) + Unit(0xDC00 + (n - 0x10000) % 0x400)
  }

  function EscapeChar(c: char): string {
    if Verbatim(c) then [c]
    else if EscapeLetter(c) != 'u' then ['\\', EscapeLetter(c)]
    else NumericEscape(c)
  }

  function Escape(s: string): string {
    if s == "" then "" else EscapeChar(s[0]) + Escape(s[1..])
  }

  function IntText(n: int): string {
    if n < 0 then "-" + Digits(-n) else Digits(n)
  }

  /** Printable ASCII is written as it is, and five control characters by a letter. */
  lemma {:induction false} EscapeAscii(s: string)
    requires forall i :: 0 <= i < |s| ==> ' ' <= s[i] <= '~' && s[i] != '"' && s[i] != '\\'
    ensures Escape(s) == s
    ensures EscapeChar('\n') == "\\n" && EscapeChar('\r') == "\\r" && EscapeChar('\t') == "\\t"
    ensures EscapeChar('"') == "\\\"" && EscapeChar('\\') == "\\\\"
    ensures EscapeChar('\U{0C}') == "\\f" && EscapeChar('\U{08}') == "\\b"
  {
    if s == "" {
    } else {
      EscapeAscii(s[1..]);
      assert s == [s[0]] + s[1..];
    }
  }

  // ----- values -----

  function Dumps(v: Value): string
    decreases v, 2
  {
    match v
    case Null => "null"
    case Bool(b) => if b then "true" else "false"
    case Int(n) => IntText(n)
    case Str(s) => "\"" + Escape(s) + "\""
    case List(items) => "[" + DumpsItems(items) + "]"
    case Dict(fields) => "{" + DumpsFields(fields) + "}"
  }

  function DumpsItems(items: seq<Value>): string
    decreases items, 1
  {
    if items == [] then ""
    else if |items| == 1 then Dumps(items[0])
    else Dumps(items[0]) + ", " + DumpsItems(items[1..])
  }

  function DumpsField(f: Field): string
    decreases f, 3
  {
    "\"" + Escape(f.key) + "\"" + ": " + Dumps(f.value)
  }

  function DumpsFields(fields: seq<Field>): string
    decreases fields, 1
  {
    if fields == [] then ""
    else if |fields| == 1 then DumpsField(fields[0])
    else DumpsField(fields[0]) + ", " + DumpsFields(fields[1..])
  }

  // ----- reading back -----

  /** What may follow a value: the end, a comma or a closing bracket. */
  predicate Ends(x: string) {
    x == "" || x[0] == ',' || x[0] == ']' || x[0] == '}'
  }

  lemma Cut(a: string, x: string, b: string, y: string)
    requires a + x == b + y && |a| == |b|
    ensures a == b && x == y
  {
    assert a == (a + x)[..|a|] && b == (b + y)[..|a|];
    assert x == (a + x)[|a|..] && y == (b + y)[|a|..];
  }

  lemma Behind(a: string, x: string, y: string)
    requires a + x == a + y
    ensures x == y
  {
    Cut(a, x, a, y);
  }

  /** The numbers written with `\u` for a character outside printable ASCII. */
  ghost function Units(c: char): seq<nat> {
    var n := c as int;
    if n < 0x10000 then [n] else [0xD800 + (n - 0x10000) / 0x400, 0xDC00 + (n - 0x10000) % 0x400]
  }

  lemma UnitsSame(c: char, d: char)
    requires Units(c)[0] == Units(d)[0]
    ensures |Units(c)| == |Units(d)|
    ensures |Units(c)| == 2 && Units(c)[1] == Units(d)[1] ==> c == d
    ensures |Units(c)| == 1 ==> c == d
  {
  }

  lemma NumericText(c: char)
    ensures forall i :: 0 <= i < |Units(c)| ==> Units(c)[i] < 0x10000
    ensures NumericEscape(c) == Unit(Units(c)[0]) + if |Units(c)| == 2 then Unit(Units(c)[1]) else ""
  {
    assert Unit(Units(c)[0]) + "" == Unit(Units(c)[0]);
  }

  lemma UnitPrefix(m: nat, n: nat, x: string, y: string)
    requires m < 0x10000 && n < 0x10000 && Unit(m) + x == Unit(n) + y
    ensures m == n && x == y
  {
    Cut(Unit(m), x, Unit(n), y);
    assert Hex4(m) == Unit(m)[2..] && Hex4(n) == Unit(n)[2..];
    Hex4Injective(m, n);
  }

  lemma NumericPrefix(c: char, d: char, x: string, y: string)
    requires NumericEscape(c) + x == NumericEscape(d) + y
    ensures c == d && x == y
  {
    NumericText(c);
    NumericText(d);
    var c2 := if |Units(c)| == 2 then Unit(Units(c)[1]) else "";
    var d2 := if |Units(d)| == 2 then Unit(Units(d)[1]) else "";
    assert NumericEscape(c) + x == Unit(Units(c)[0]) + (c2 + x);
    assert NumericEscape(d) + y == Unit(Units(d)[0]) + (d2 + y);
    UnitPrefix(Units(c)[0], Units(d)[0], c2 + x, d2 + y);
    UnitsSame(c, d);
    if |Units(c)| == 2 {
      UnitPrefix(Units(c)[1], Units(d)[1], x, y);
    } else {
      assert c2 + x == x && d2 + y == y;
    }
  }

  lemma NumericHead(c: char)
    ensures |NumericEscape(c)| >= 2 && NumericEscape(c)[0] == '\\' && NumericEscape(c)[1] == 'u'
  {
    NumericText(c);
  }

  lemma LetterInjective(c: char, d: char)
    requires EscapeLetter(c) == EscapeLetter(d) != 'u'
    ensures c == d
  {
  }

  /** One escaped character is read off the front. */
  lemma EscapeCharPrefix(c: char, d: char, x: string, y: string)
    requires EscapeChar(c) + x == EscapeChar(d) + y
    ensures c == d && x == y
  {
    var e, f := EscapeChar(c), EscapeChar(d);
    NumericHead(c);
    NumericHead(d);
    assert e[0] == (e + x)[0] && f[0] == (f + y)[0];
    assert |e| >= 2 ==> e[1] == (e + x)[1];
    assert |f| >= 2 ==> f[1] == (f + y)[1];
    if Verbatim(c) {
      Cut(e, x, f, y);
    } else if EscapeLetter(c) != 'u' {
      assert e[1] == f[1];
      Cut(e, x, f, y);
      LetterInjective(c, d);
    } else {
      assert e[1] == f[1];
      NumericPrefix(c, d, x, y);
    }
  }

  lemma EscapeHead(c: char)
    ensures EscapeChar(c) != "" && EscapeChar(c)[0] != '"'
  {
    NumericHead(c);
  }

  /** The rest of a literal after `s`: its closing quote and what follows. */
  function Closed(s: string, x: string): string {
    Escape(s) + ("\"" + x)
  }

  lemma Enclosed(quote: string, body: string, x: string)
    requires |quote| == 1
    ensures var t := quote + body + quote + x; t[0] == quote[0] && t[1..] == body + (quote + x)
  {
    assert quote + body + quote + x == quote + (body + (quote + x));
  }

  /** A literal: its opening quote, then its characters up to the closing quote. */
  lemma QuotedText(s: string, x: string)
    ensures var t := "\"" + Escape(s) + "\"" + x; t[0] == '"' && t[1..] == Closed(s, x)
  {
    Enclosed("\"", Escape(s), x);
  }

  lemma ClosedStep(s: string, x: string)
    ensures s == "" ==> Closed(s, x) == "\"" + x
    ensures s != "" ==> Closed(s, x) == EscapeChar(s[0]) + Closed(s[1..], x)
    ensures Closed(s, x) != "" && (Closed(s, x)[0] == '"' <==> s == "")
  {
    if s != "" {
      EscapeHead(s[0]);
      assert Escape(s) == EscapeChar(s[0]) + Escape(s[1..]);
      assert Closed(s, x)[0] == EscapeChar(s[0])[0];
    }
  }

  /** A string literal is read off the front. */
  lemma {:induction false} EscapePrefix(s: string, t: string, x: string, y: string)
    requires Closed(s, x) == Closed(t, y)
    ensures s == t && x == y
  {
    ClosedStep(s, x);
    ClosedStep(t, y);
    if s == "" {
      Behind("\"", x, y);
    } else {
      EscapeCharPrefix(s[0], t[0], Closed(s[1..], x), Closed(t[1..], y));
      EscapePrefix(s[1..], t[1..], x, y);
      assert s == [s[0]] + s[1..] && t == [t[0]] + t[1..];
    }
  }

  /** `open` and `close` around `body`, then `x`. */
  lemma Inside(open: string, a: string, b: string, close: string, x: string, y: string)
    requires open + a + close + x == open + b + close + y
    ensures a + (close + x) == b + (close + y)
  {
    assert open + a + close + x == open + (a + (close + x));
    assert open + b + close + y == open + (b + (close + y));
    Behind(open, a + (close + x), b + (close + y));
  }

  lemma {:induction false} StrPrefix(s: string, t: string, x: string, y: string)
    requires "\"" + Escape(s) + "\"" + x == "\"" + Escape(t) + "\"" + y
    ensures s == t && x == y
  {
    Inside("\"", Escape(s), Escape(t), "\"", x, y);
    EscapePrefix(s, t, x, y);
  }

  /** The first character tells the kind of a value. */
  function Kind(v: Value): char {
    match v
    case Null => 'n'
    case Bool(b) => if b then 't' else 'f'
    case Int(_) => '0'
    case Str(_) => '"'
    case List(_) => '['
    case Dict(_) => '{'
  }

  lemma KindHead(v: Value)
    ensures Dumps(v) != ""
    ensures v.Int? ==> Dumps(v)[0] == '-' || IsDigit(Dumps(v)[0])
    ensures !v.Int? ==> Dumps(v)[0] == Kind(v)
  {
  }

  lemma SameKind(v: Value, w: Value, x: string, y: string)
    requires Dumps(v) + x == Dumps(w) + y
    ensures Kind(v) == Kind(w)
  {
    KindHead(v);
    KindHead(w);
    assert (Dumps(v) + x)[0] == Dumps(v)[0] && (Dumps(w) + y)[0] == Dumps(w)[0];
  }

  lemma IntSign(n: int, x: string)
    ensures (IntText(n) + x)[0] == '-' <==> n < 0
    ensures n < 0 ==> IntText(n) + x == "-" + (Digits(-n) + x)
  {
    assert (IntText(n) + x)[0] == IntText(n)[0];
    if n < 0 {
      assert ("-" + Digits(-n)) + x == "-" + (Digits(-n) + x);
    }
  }

  lemma NegativePrefix(m: nat, n: nat, x: string, y: string)
    requires "-" + (Digits(m) + x) == "-" + (Digits(n) + y) && Ends(x) && Ends(y)
    ensures m == n && x == y
  {
    Behind("-", Digits(m) + x, Digits(n) + y);
    DigitsPrefix(m, n, x, y);
  }

  lemma IntPrefix(m: int, n: int, x: string, y: string)
    requires IntText(m) + x == IntText(n) + y && Ends(x) && Ends(y)
    ensures m == n && x == y
  {
    IntSign(m, x);
    IntSign(n, y);
    if m < 0 {
      NegativePrefix(-m, -n, x, y);
    } else {
      DigitsPrefix(m, n, x, y);
    }
  }

  /** A value is read off the front of a text. */
  lemma {:induction false} DumpsPrefix(v: Value, w: Value, x: string, y: string)
    requires Dumps(v) + x == Dumps(w) + y && Ends(x) && Ends(y)
    ensures v == w && x == y
    decreases v, 2
  {
    SameKind(v, w, x, y);
    match v
    case Null =>
      Behind(Dumps(v), x, y);
    case Bool(_) =>
      Behind(Dumps(v), x, y);
    case Int(m) =>
      IntPrefix(m, w.n, x, y);
    case Str(s) =>
      StrPrefix(s, w.s, x, y);
    case List(items) =>
      Inside("[", DumpsItems(items), DumpsItems(w.items), "]", x, y);
      ItemsPrefix(items, w.items, x, y);
    case Dict(fields) =>
      Inside("{", DumpsFields(fields), DumpsFields(w.fields), "}", x, y);
      FieldsPrefix(fields, w.fields, x, y);
  }

  lemma Comma(first: string, rest: string, after: string)
    ensures (first + ", " + rest) + after == first + (", " + (rest + after))
  {
  }

  /** What follows the first item: the closing bracket, or a comma and the other items. */
  function ItemsTail(items: seq<Value>, x: string): string
    requires items != []
  {
    if |items| == 1 then "]" + x else ", " + (DumpsItems(items[1..]) + ("]" + x))
  }

  lemma ItemsSplit(items: seq<Value>, x: string)
    requires items != []
    ensures DumpsItems(items) + ("]" + x) == Dumps(items[0]) + ItemsTail(items, x)
    ensures Ends(ItemsTail(items, x))
  {
    if |items| > 1 {
      Comma(Dumps(items[0]), DumpsItems(items[1..]), "]" + x);
    }
  }

  lemma ItemsHead(items: seq<Value>, x: string)
    ensures (DumpsItems(items) + ("]" + x))[0] == ']' <==> items == []
  {
    if items != [] {
      ItemsSplit(items, x);
      KindHead(items[0]);
      assert (Dumps(items[0]) + ItemsTail(items, x))[0] == Dumps(items[0])[0];
    } else {
      assert DumpsItems(items) + ("]" + x) == "]" + x;
    }
  }

  lemma {:induction false} ItemsPrefix(a: seq<Value>, b: seq<Value>, x: string, y: string)
    requires DumpsItems(a) + ("]" + x) == DumpsItems(b) + ("]" + y)
    ensures a == b && x == y
    decreases a, 1
  {
    ItemsHead(a, x);
    ItemsHead(b, y);
    if a == [] {
      Cut("", "]" + x, "", "]" + y);
      Behind("]", x, y);
    } else {
      ItemsSplit(a, x);
      ItemsSplit(b, y);
      DumpsPrefix(a[0], b[0], ItemsTail(a, x), ItemsTail(b, y));
      assert ItemsTail(a, x)[0] == ItemsTail(b, y)[0];
      if |a| == 1 {
        Behind("]", x, y);
        assert a == [a[0]] && b == [b[0]];
      } else {
        Behind(", ", DumpsItems(a[1..]) + ("]" + x), DumpsItems(b[1..]) + ("]" + y));
        ItemsPrefix(a[1..], b[1..], x, y);
        assert a == [a[0]] + a[1..] && b == [b[0]] + b[1..];
      }
    }
  }

  function FieldsTail(fields: seq<Field>, x: string): string
    requires fields != []
  {
    if |fields| == 1 then "}" + x else ", " + (DumpsFields(fields[1..]) + ("}" + x))
  }

  lemma FieldsSplit(fields: seq<Field>, x: string)
    requires fields != []
    ensures DumpsFields(fields) + ("}" + x) == DumpsField(fields[0]) + FieldsTail(fields, x)
    ensures Ends(FieldsTail(fields, x))
  {
    if |fields| > 1 {
      Comma(DumpsField(fields[0]), DumpsFields(fields[1..]), "}" + x);
    }
  }

  lemma FieldsHead(fields: seq<Field>, x: string)
    ensures (DumpsFields(fields) + ("}" + x))[0] == '}' <==> fields == []
  {
    if fields != [] {
      FieldsSplit(fields, x);
      assert DumpsField(fields[0])[0] == '"';
      assert (DumpsField(fields[0]) + FieldsTail(fields, x))[0] == DumpsField(fields[0])[0];
    } else {
      assert DumpsFields(fields) + ("}" + x) == "}" + x;
    }
  }

  lemma FieldSplit(f: Field, x: string)
    ensures DumpsField(f) + x == "\"" + Escape(f.key) + "\"" + (": " + (Dumps(f.value) + x))
  {
  }

  lemma {:induction false} FieldPrefix(f: Field, g: Field, x: string, y: string)
    requires DumpsField(f) + x == DumpsField(g) + y && Ends(x) && Ends(y)
    ensures f == g && x == y
    decreases f, 3
  {
    FieldSplit(f, x);
    FieldSplit(g, y);
    StrPrefix(f.key, g.key, ": " + (Dumps(f.value) + x), ": " + (Dumps(g.value) + y));
    Behind(": ", Dumps(f.value) + x, Dumps(g.value) + y);
    DumpsPrefix(f.value, g.value, x, y);
  }

  lemma {:induction false} FieldsPrefix(a: seq<Field>, b: seq<Field>, x: string, y: string)
    requires DumpsFields(a) + ("}" + x) == DumpsFields(b) + ("}" + y)
    ensures a == b && x == y
    decreases a, 1
  {
    FieldsHead(a, x);
    FieldsHead(b, y);
    if a == [] {
      Cut("", "}" + x, "", "}" + y);
      Behind("}", x, y);
    } else {
      FieldsSplit(a, x);
      FieldsSplit(b, y);
      FieldPrefix(a[0], b[0], FieldsTail(a, x), FieldsTail(b, y));
      assert FieldsTail(a, x)[0] == FieldsTail(b, y)[0];
      if |a| == 1 {
        Behind("}", x, y);
        assert a == [a[0]] && b == [b[0]];
      } else {
        Behind(", ", DumpsFields(a[1..]) + ("}" + x), DumpsFields(b[1..]) + ("}" + y));
        FieldsPrefix(a[1..], b[1..], x, y);
        assert a == [a[0]] + a[1..] && b == [b[0]] + b[1..];
      }
    }
  }

  /** Different values have different texts. */
  lemma DumpsInjective(v: Value, w: Value)
    ensures Dumps(v) == Dumps(w) <==> v == w
  {
    if Dumps(v) == Dumps(w) {
      assert Dumps(v) + "" == Dumps(w) + "";
      DumpsPrefix(v, w, "", "");
    }
  }

  // ----- the text is printable ASCII -----

  predicate Printable(s: string) {
    forall i :: 0 <= i < |s| ==> ' ' <= s[i] <= '~'
  }

  lemma UnitPrintable(n: nat)
    requires n < 0x10000
    ensures Printable(Unit(n))
  {
  }

  lemma {:induction false} EscapePrintable(s: string)
    ensures Printable(Escape(s))
  {
    if s == "" {
    } else {
      EscapePrintable(s[1..]);
      NumericText(s[0]);
      UnitPrintable(Units(s[0])[0]);
      if |Units(s[0])| == 2 {
        UnitPrintable(Units(s[0])[1]);
      }
    }
  }

  lemma {:induction false} DumpsPrintable(v: Value)
    ensures Printable(Dumps(v))
    decreases v, 2
  {
    match v
    case Null =>
    case Bool(_) =>
    case Int(_) =>
    case Str(s) => EscapePrintable(s);
    case List(items) => ItemsPrintable(items);
    case Dict(fields) => FieldsPrintable(fields);
  }

  lemma {:induction false} ItemsPrintable(items: seq<Value>)
    ensures Printable(DumpsItems(items))
    decreases items, 1
  {
    if items == [] {
    } else {
      DumpsPrintable(items[0]);
      ItemsPrintable(items[1..]);
    }
  }

  lemma {:induction false} QuotedPrintable(s: string, rest: string)
    requires Printable(rest)
    ensures Printable("\"" + Escape(s) + "\"" + rest)
  {
    EscapePrintable(s);
  }

  lemma {:induction false} FieldPrintable(f: Field)
    ensures Printable(DumpsField(f))
    decreases f, 3
  {
    DumpsPrintable(f.value);
    QuotedPrintable(f.key, ": " + Dumps(f.value));
    assert DumpsField(f) == "\"" + Escape(f.key) + "\"" + (": " + Dumps(f.value));
  }

  lemma {:induction false} FieldsPrintable(fields: seq<Field>)
    ensures Printable(DumpsFields(fields))
    decreases fields, 1
  {
    if fields == [] {
    } else {
      FieldPrintable(fields[0]);
      FieldsPrintable(fields[1..]);
    }
  }
}
