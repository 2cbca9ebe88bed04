/** A reader of JSON texts, written apart from the printer, and the proof that it reads back what
    was dumped. */
module JsonReader {
  import opened Decimal
  import opened JsonText

  /** What is read off the front of a text, and the rest of it. */
  datatype Got<T> = Got(value: T, rest: string) | Bad

  // ----- numbers -----

  function ReadDigits(text: string, acc: nat): (nat, string) {
    if text != "" && '0' <= text[0] <= '9' then ReadDigits(text[1..], 10 * acc + (text[0] as int - '0' as int))
    else (acc, text)
  }

  function ReadInt(text: string): Got<int> {
    var negative := "-" <= text;
    var digits := if negative then text[1..] else text;
    if digits == "" || !('0' <= digits[0] <= '9') then Bad
    else
      var (n, rest) := ReadDigits(digits, 0);
      var m: int := n;
      Got(if negative then -m else m, rest)
  }

  lemma {:induction false} ReadDigitsShorter(text: string, acc: nat)
    ensures |ReadDigits(text, acc).1| <= |text|
    ensures text != "" && '0' <= text[0] <= '9' ==> |ReadDigits(text, acc).1| < |text|
    decreases |text|
  {
    if text != "" && '0' <= text[0] <= '9' {
      ReadDigitsShorter(text[1..], 10 * acc + (text[0] as int - '0' as int));
    }
  }

  // ----- strings -----

  function HexValue(c: char): Got<nat> {
    if '0' <= c <= '9' then Got(c as int - '0' as int, "")
    else if 'a' <= c <= 'f' then Got(c as int - 'a' as int + 10, "")
    else Bad
  }

  function ReadHex4(text: string): (g: Got<nat>)
    ensures g.Got? ==> |g.rest| < |text|
  {
    if |text| < 4 then Bad
    else
      var a, b, c, d := HexValue(text[0]), HexValue(text[1]), HexValue(text[2]), HexValue(text[3]);
      if a.Bad? || b.Bad? || c.Bad? || d.Bad? then Bad
      else Got(4096 * a.value + 256 * b.value + 16 * c.value + d.value, text[4..])
  }

  /** Behind `\u`: four digits, or a high surrogate and the escape of a low one. */
  function ReadUnicode(text: string): (g: Got<char>)
    ensures g.Got? ==> |g.rest| < |text|
  {
    var high := ReadHex4(text);
    if high.Bad? then Bad
    else if high.value < 0xD800 || 0xE000 <= high.value < 0x10000 then Got(high.value as char, high.rest)
    else if 0xD800 <= high.value < 0xDC00 && "\\u" <= high.rest then
      var low := ReadHex4(high.rest[2..]);
      if low.Bad? || !(0xDC00 <= low.value < 0xE000) then Bad
      else Got((0x10000 + 0x400 * (high.value - 0xD800) + (low.value - 0xDC00)) as char, low.rest)
    else Bad
  }

  /** The character a two-character escape stands for. */
  function Unescaped(letter: char): Got<char> {
    match letter
    case '"' => Got('"', "")
    case '\\' => Got('\\', "")
    case 'n' => Got('\n', "")
    case 'r' => Got('\r', "")
    case 't' => Got('\t', "")
    case 'f' => Got('\U{0C}', "")
    case 'b' => Got('\U{08}', "")
    case _ => Bad
  }

  /** One character of a literal. */
  function ReadChar(text: string): (g: Got<char>)
    requires text != ""
    ensures g.Got? ==> |g.rest| < |text|
  {
    if text[0] != '\\' then Got(text[0], text[1..])
    else if |text| < 2 then Bad
    else if text[1] == 'u' then ReadUnicode(text[2..])
    else
      var c := Unescaped(text[1]);
      if c.Bad? then Bad else Got(c.value, text[2..])
  }

  /** The rest of a literal, up to its closing quote. */
  function ReadLiteral(text: string): (g: Got<string>)
    ensures g.Got? ==> |g.rest| < |text|
    decreases |text|
  {
    if text == "" then Bad
    else if text[0] == '"' then Got("", text[1..])
    else
      var first := ReadChar(text);
      if first.Bad? then Bad
      else
        var more := ReadLiteral(first.rest);
        if more.Bad? then Bad else Got([first.value] + more.value, more.rest)
  }

  // ----- values -----

  function ReadWord(text: string, word: string, v: Value): Got<Value> {
    if word <= text then Got(v, text[|word|..]) else Bad
  }

  function ReadNumber(text: string): (g: Got<Value>)
    ensures g.Got? ==> |g.rest| < |text|
  {
    var n := ReadInt(text);
    if n.Bad? || |n.rest| >= |text| then Bad else Got(Int(n.value), n.rest)
  }

  function ReadString(text: string): (g: Got<Value>)
    ensures g.Got? ==> |g.rest| < |text|
  {
    var s := ReadLiteral(text);
    if s.Bad? then Bad else Got(Str(s.value), s.rest)
  }

  function ReadValue(text: string): (g: Got<Value>)
    ensures g.Got? ==> |g.rest| < |text|
    decreases |text|, 0
  {
    if text == "" then Bad
    else
      match text[0]
      case 'n' => ReadWord(text, "null", Null)
      case 't' => ReadWord(text, "true", Bool(true))
      case 'f' => ReadWord(text, "false", Bool(false))
      case '"' => ReadString(text[1..])
      case '[' => ReadList(text[1..])
      case '{' => ReadDict(text[1..])
      case _ => ReadNumber(text)
  }

  function ReadList(text: string): (g: Got<Value>)
    ensures g.Got? ==> |g.rest| < |text|
    decreases |text|, 3
  {
    if "]" <= text then Got(List([]), text[1..])
    else
      var items := ReadItems(text);
      if items.Bad? then Bad else Got(List(items.value), items.rest)
  }

  function ReadDict(text: string): (g: Got<Value>)
    ensures g.Got? ==> |g.rest| < |text|
    decreases |text|, 3
  {
    if "}" <= text then Got(Dict([]), text[1..])
    else
      var fields := ReadFields(text);
      if fields.Bad? then Bad else Got(Dict(fields.value), fields.rest)
  }

  /** One item or more, and the closing bracket. */
  function ReadItems(text: string): (g: Got<seq<Value>>)
    ensures g.Got? ==> |g.rest| < |text|
    decreases |text|, 1
  {
    var first := ReadValue(text);
    if first.Bad? then Bad
    else if "]" <= first.rest then Got([first.value], first.rest[1..])
    else if ", " <= first.rest then
      var more := ReadItems(first.rest[2..]);
      if more.Bad? then Bad else Got([first.value] + more.value, more.rest)
    else Bad
  }

  function ReadField(text: string): (g: Got<Field>)
    ensures g.Got? ==> |g.rest| < |text|
    decreases |text|, 1
  {
    if !("\"" <= text) then Bad
    else
      var key := ReadLiteral(text[1..]);
      if key.Bad? || !(": " <= key.rest) then Bad
      else
        var value := ReadValue(key.rest[2..]);
        if value.Bad? then Bad else Got(Field(key.value, value.value), value.rest)
  }

  function ReadFields(text: string): (g: Got<seq<Field>>)
    ensures g.Got? ==> |g.rest| < |text|
    decreases |text|, 2
  {
    var first := ReadField(text);
    if first.Bad? then Bad
    else if "}" <= first.rest then Got([first.value], first.rest[1..])
    else if ", " <= first.rest then
      var more := ReadFields(first.rest[2..]);
      if more.Bad? then Bad else Got([first.value] + more.value, more.rest)
    else Bad
  }

  // ----- numbers come back -----

  lemma {:induction false} DigitsRead(n: nat, x: string)
    ensures ReadDigits(Digits(n) + x, 0) == ReadDigits(x, n)
  {
    var d := Digit(n % 10);
    assert ([d] + x)[1..] == x;
    if n < 10 {
      assert Digits(n) == [d];
    } else {
      DigitsRead(n / 10, [d] + x);
      assert Digits(n) + x == Digits(n / 10) + ([d] + x);
      assert 10 * (n / 10) + n % 10 == n;
    }
  }

  lemma DigitsHead(n: nat, x: string)
    ensures Digits(n) + x != "" && IsDigit((Digits(n) + x)[0])
  {
    assert (Digits(n) + x)[0] == Digits(n)[0];
  }

  predicate NoDigit(x: string) {
    x == "" || !IsDigit(x[0])
  }

  lemma {:induction false} NatRead(n: int, x: string)
    requires n >= 0 && NoDigit(x)
    ensures ReadInt(Digits(n) + x) == Got(n, x)
    ensures ReadInt("-" + (Digits(n) + x)) == Got(-n, x)
  {
    DigitsRead(n, x);
    DigitsHead(n, x);
    assert ("-" + (Digits(n) + x))[1..] == Digits(n) + x;
  }

  lemma {:induction false} IntRead(n: int, x: string)
    requires NoDigit(x)
    ensures ReadInt(IntText(n) + x) == Got(n, x) && |x| < |IntText(n) + x|
  {
    if n < 0 {
      NatRead(-n, x);
      IntSign(n, x);
    } else {
      NatRead(n, x);
    }
  }

  // ----- strings come back -----

  lemma HexDigitRead(d: nat)
    requires d < 16
    ensures HexValue(HexDigit(d)) == Got(d, "")
  {
  }

  lemma {:induction false} Hex4Read(n: nat, x: string)
    requires n < 0x10000
    ensures ReadHex4(Hex4(n) + x) == Got(n, x)
  {
    HexParts(n);
    HexDigitRead(n / 4096);
    HexDigitRead(n / 256 % 16);
    HexDigitRead(n / 16 % 16);
    HexDigitRead(n % 16);
    var t := Hex4(n) + x;
    assert t[0] == Hex4(n)[0] && t[1] == Hex4(n)[1] && t[2] == Hex4(n)[2] && t[3] == Hex4(n)[3];
    assert t[4..] == x;
  }

  lemma {:induction false} UnitRead(n: nat, x: string)
    requires n < 0x10000
    ensures "\\u" <= Unit(n) + x && ReadHex4((Unit(n) + x)[2..]) == Got(n, x)
  {
    assert (Unit(n) + x)[2..] == Hex4(n) + x;
    Hex4Read(n, x);
  }

  lemma {:induction false} PairRead(high: nat, low: nat, x: string)
    requires 0xD800 <= high < 0xDC00 <= low < 0xE000
    ensures ReadUnicode((Unit(high) + (Unit(low) + x))[2..]) ==
            Got((0x10000 + 0x400 * (high - 0xD800) + (low - 0xDC00)) as char, x)
  {
    UnitRead(high, Unit(low) + x);
    UnitRead(low, x);
  }

  lemma {:induction false} EscapedRead(t: string)
    requires |t| >= 2 && t[0] == '\\' && t[1] == 'u'
    ensures ReadChar(t) == ReadUnicode(t[2..])
  {
  }

  lemma {:induction false} SplitPair(c: char)
    requires c as int >= 0x10000
    ensures var n := c as int;
            var high, low := 0xD800 + (n - 0x10000) / 0x400, 0xDC00 + (n - 0x10000) % 0x400;
            && 0xD800 <= high < 0xDC00 <= low < 0xE000
            && 0x10000 + 0x400 * (high - 0xD800) + (low - 0xDC00) == n
  {
  }

  lemma {:induction false} AstralRead(c: char, x: string)
    requires c as int >= 0x10000
    ensures ReadUnicode((NumericEscape(c) + x)[2..]) == Got(c, x)
  {
    var n := c as int;
    var high, low := 0xD800 + (n - 0x10000) / 0x400, 0xDC00 + (n - 0x10000) % 0x400;
    SplitPair(c);
    assert NumericEscape(c) + x == Unit(high) + (Unit(low) + x);
    PairRead(high, low, x);
  }

  lemma {:induction false} NumericRead(c: char, x: string)
    ensures ReadChar(NumericEscape(c) + x) == Got(c, x)
  {
    var t := NumericEscape(c) + x;
    NumericHead(c);
    assert t[0] == NumericEscape(c)[0] && t[1] == NumericEscape(c)[1];
    EscapedRead(t);
    if c as int < 0x10000 {
      UnitRead(c as int, x);
    } else {
      AstralRead(c, x);
    }
  }

  lemma {:induction false} CharRead(c: char, x: string)
    ensures ReadChar(EscapeChar(c) + x) == Got(c, x)
  {
    if Verbatim(c) {
      assert ([c] + x)[1..] == x;
    } else if EscapeLetter(c) != 'u' {
      assert (['\\', EscapeLetter(c)] + x)[2..] == x;
    } else {
      NumericRead(c, x);
    }
  }

  lemma {:induction false} LiteralRead(s: string, x: string)
    ensures ReadLiteral(Closed(s, x)) == Got(s, x)
  {
    ClosedStep(s, x);
    if s == "" {
      assert ("\"" + x)[1..] == x;
    } else {
      CharRead(s[0], Closed(s[1..], x));
      LiteralRead(s[1..], x);
      assert s == [s[0]] + s[1..];
    }
  }

  // ----- values come back -----

  lemma Begins(head: string, x: string)
    ensures head <= head + x && (head + x)[|head|..] == x
  {
  }

  lemma {:induction false} StrRead(s: string, x: string)
    ensures ReadValue("\"" + Escape(s) + "\"" + x) == Got(Str(s), x)
  {
    QuotedText(s, x);
    LiteralRead(s, x);
  }

  lemma {:induction false} ConstantRead(v: Value, x: string)
    requires v.Null? || v.Bool?
    ensures ReadValue(Dumps(v) + x) == Got(v, x)
  {
    Begins(Dumps(v), x);
    assert (Dumps(v) + x)[0] == Dumps(v)[0];
  }

  lemma {:induction false} NumberRead(n: int, x: string)
    requires NoDigit(x)
    ensures ReadValue(IntText(n) + x) == Got(Int(n), x)
  {
    IntRead(n, x);
    var m: nat := if n < 0 then -n else n;
    DigitsHead(m, x);
    var t := IntText(n) + x;
    assert t[0] == '-' || IsDigit(t[0]);
  }

  /** Dumped values are read back. */
  lemma {:induction false} DumpsRead(v: Value, x: string)
    requires NoDigit(x)
    ensures ReadValue(Dumps(v) + x) == Got(v, x)
    decreases v, 2
  {
    match v
    case Null => ConstantRead(v, x);
    case Bool(_) => ConstantRead(v, x);
    case Int(n) => NumberRead(n, x);
    case Str(s) => StrRead(s, x);
    case List(items) =>
      if items != [] {
        ItemsRead(items, x);
      }
      ListRead(items, x);
    case Dict(fields) =>
      if fields != [] {
        FieldsRead(fields, x);
      }
      DictRead(fields, x);
  }

  lemma OpensList(t: string)
    requires t != "" && t[0] == '['
    ensures ReadValue(t) == ReadList(t[1..])
  {
  }

  lemma OpensDict(t: string)
    requires t != "" && t[0] == '{'
    ensures ReadValue(t) == ReadDict(t[1..])
  {
  }

  lemma {:induction false} ListRead(items: seq<Value>, x: string)
    requires items != [] ==> ReadItems(DumpsItems(items) + ("]" + x)) == Got(items, x)
    ensures ReadValue(Dumps(List(items)) + x) == Got(List(items), x)
  {
    Bracketed("[", DumpsItems(items), "]", x);
    OpensList(Dumps(List(items)) + x);
    ItemsHead(items, x);
    if items == [] {
      Begins("]", x);
      assert "" + ("]" + x) == "]" + x;
    }
  }

  lemma {:induction false} DictRead(fields: seq<Field>, x: string)
    requires fields != [] ==> ReadFields(DumpsFields(fields) + ("}" + x)) == Got(fields, x)
    ensures ReadValue(Dumps(Dict(fields)) + x) == Got(Dict(fields), x)
  {
    Bracketed("{", DumpsFields(fields), "}", x);
    OpensDict(Dumps(Dict(fields)) + x);
    FieldsHead(fields, x);
    if fields == [] {
      Begins("}", x);
      assert "" + ("}" + x) == "}" + x;
    }
  }

  lemma Bracketed(open: string, body: string, close: string, x: string)
    requires |open| == 1
    ensures (open + body + close + x)[0] == open[0] && (open + body + close + x)[1..] == body + (close + x)
  {
    assert open + body + close + x == open + (body + (close + x));
  }

  lemma {:induction false} ItemsRead(items: seq<Value>, x: string)
    requires items != []
    ensures ReadItems(DumpsItems(items) + ("]" + x)) == Got(items, x)
    decreases items, 1
  {
    ItemsSplit(items, x);
    DumpsRead(items[0], ItemsTail(items, x));
    if |items| > 1 {
      ItemsRead(items[1..], x);
    }
    ItemsStep(DumpsItems(items) + ("]" + x), items, x);
  }

  lemma ItemsStep(text: string, items: seq<Value>, x: string)
    requires items != [] && ReadValue(text) == Got(items[0], ItemsTail(items, x))
    requires |items| > 1 ==> ReadItems(DumpsItems(items[1..]) + ("]" + x)) == Got(items[1..], x)
    ensures ReadItems(text) == Got(items, x)
  {
    if |items| == 1 {
      ItemsEnd(text, items[0], x);
      assert items == [items[0]];
    } else {
      ItemsGoOn(text, items[0], DumpsItems(items[1..]) + ("]" + x), items[1..], x);
      assert items == [items[0]] + items[1..];
    }
  }

  lemma ItemsEnd(text: string, v: Value, x: string)
    requires ReadValue(text) == Got(v, "]" + x)
    ensures ReadItems(text) == Got([v], x)
  {
    Begins("]", x);
  }

  lemma ItemsGoOn(text: string, v: Value, rest: string, more: seq<Value>, x: string)
    requires ReadValue(text) == Got(v, ", " + rest) && ReadItems(rest) == Got(more, x)
    ensures ReadItems(text) == Got([v] + more, x)
  {
    Begins(", ", rest);
    assert (", " + rest)[0] == ',';
  }

  lemma {:induction false} FieldRead(f: Field, x: string)
    requires NoDigit(x)
    ensures ReadField(DumpsField(f) + x) == Got(f, x)
    decreases f, 3
  {
    var rest := ": " + (Dumps(f.value) + x);
    FieldSplit(f, x);
    QuotedText(f.key, rest);
    LiteralRead(f.key, rest);
    DumpsRead(f.value, x);
    FieldOf("\"" + Escape(f.key) + "\"" + rest, f, Dumps(f.value) + x, x);
  }

  lemma FieldOf(text: string, f: Field, tail: string, x: string)
    requires text != "" && text[0] == '"' && ReadLiteral(text[1..]) == Got(f.key, ": " + tail)
    requires ReadValue(tail) == Got(f.value, x)
    ensures ReadField(text) == Got(f, x)
  {
    Begins(": ", tail);
  }

  lemma {:induction false} FieldsRead(fields: seq<Field>, x: string)
    requires fields != []
    ensures ReadFields(DumpsFields(fields) + ("}" + x)) == Got(fields, x)
    decreases fields, 1
  {
    FieldsSplit(fields, x);
    FieldRead(fields[0], FieldsTail(fields, x));
    if |fields| > 1 {
      FieldsRead(fields[1..], x);
    }
    FieldsStep(DumpsFields(fields) + ("}" + x), fields, x);
  }

  lemma FieldsStep(text: string, fields: seq<Field>, x: string)
    requires fields != [] && ReadField(text) == Got(fields[0], FieldsTail(fields, x))
    requires |fields| > 1 ==> ReadFields(DumpsFields(fields[1..]) + ("}" + x)) == Got(fields[1..], x)
    ensures ReadFields(text) == Got(fields, x)
  {
    if |fields| == 1 {
      FieldsEnd(text, fields[0], x);
      assert fields == [fields[0]];
    } else {
      FieldsGoOn(text, fields[0], DumpsFields(fields[1..]) + ("}" + x), fields[1..], x);
      assert fields == [fields[0]] + fields[1..];
    }
  }

  lemma FieldsEnd(text: string, f: Field, x: string)
    requires ReadField(text) == Got(f, "}" + x)
    ensures ReadFields(text) == Got([f], x)
  {
    Begins("}", x);
  }

  lemma {:induction false} FieldsGoOn(text: string, f: Field, rest: string, more: seq<Field>, x: string)
    requires ReadField(text) == Got(f, ", " + rest) && ReadFields(rest) == Got(more, x)
    ensures ReadFields(text) == Got([f] + more, x)
  {
    Begins(", ", rest);
    assert (", " + rest)[0] == ',';
  }
}
