/** A dumped value holds no other dumped value at its end, behind a colon and a blank: quotes and
    brackets would not balance. */
module JsonBalance {
  import opened Decimal
  import opened JsonText

  /** Reading `t` inside or outside a string literal, `depth` brackets deep, ends outside both;
      a text ends where its outermost bracket or literal closes. */
  predicate Balanced(t: string, inside: bool, depth: nat) {
    if t == "" then !inside && depth == 0
    else if inside then
      if t[0] == '\\' then |t| >= 2 && Balanced(t[2..], true, depth)
      else if t[0] == '"' then (depth == 0 ==> |t| == 1) && Balanced(t[1..], false, depth)
      else Balanced(t[1..], true, depth)
    else
      match t[0]
      case '\\' => false
      case '"' => Balanced(t[1..], true, depth)
      case '[' => Balanced(t[1..], false, depth + 1)
      case '{' => Balanced(t[1..], false, depth + 1)
      case ']' => depth > 0 && (depth == 1 ==> |t| == 1) && Balanced(t[1..], false, depth - 1)
      case '}' => depth > 0 && (depth == 1 ==> |t| == 1) && Balanced(t[1..], false, depth - 1)
      case _ => Balanced(t[1..], false, depth)
  }

  /** No text balances both from inside and from outside a literal. */
  lemma {:induction false} Opposite(t: string, d: nat, e: nat)
    ensures !(Balanced(t, false, d) && Balanced(t, true, e))
  {
    if t != "" && Balanced(t, false, d) && Balanced(t, true, e) {
      match t[0]
      case '"' => Opposite(t[1..], e, d);
      case '[' => Opposite(t[1..], d + 1, e);
      case '{' => Opposite(t[1..], d + 1, e);
      case ']' => Opposite(t[1..], d - 1, e);
      case '}' => Opposite(t[1..], d - 1, e);
      case _ => Opposite(t[1..], d, e);
    }
  }

  predicate Neutral(s: string) {
    forall i :: 0 <= i < |s| ==> s[i] !in "\\\"[]{}"
  }

  lemma {:induction false} NeutralThen(s: string, x: string, inside: bool, d: nat)
    requires Neutral(s)
    ensures Balanced(s + x, inside, d) == Balanced(x, inside, d)
  {
    if s == "" {
      assert s + x == x;
    } else {
      assert (s + x)[0] == s[0] && (s + x)[1..] == s[1..] + x;
      NeutralThen(s[1..], x, inside, d);
    }
  }

  // ----- literals -----

  lemma UnitThen(n: nat, x: string, d: nat)
    requires n < 0x10000
    ensures Balanced(Unit(n) + x, true, d) == Balanced(x, true, d)
  {
    assert Unit(n)[0] == '\\';
    assert (Unit(n) + x)[2..] == Hex4(n) + x;
    NeutralThen(Hex4(n), x, true, d);
  }

  lemma NumericThen(c: char, x: string, d: nat)
    ensures Balanced(NumericEscape(c) + x, true, d) == Balanced(x, true, d)
  {
    NumericText(c);
    var first, second := Unit(Units(c)[0]), if |Units(c)| == 2 then Unit(Units(c)[1]) else "";
    assert NumericEscape(c) + x == first + (second + x);
    UnitThen(Units(c)[0], second + x, d);
    if |Units(c)| == 2 {
      UnitThen(Units(c)[1], x, d);
    } else {
      assert second + x == x;
    }
  }

  lemma EscapeCharThen(c: char, x: string, d: nat)
    ensures Balanced(EscapeChar(c) + x, true, d) == Balanced(x, true, d)
  {
    if Verbatim(c) {
      assert ([c] + x)[1..] == x;
    } else if EscapeLetter(c) != 'u' {
      assert (['\\', EscapeLetter(c)] + x)[2..] == x;
    } else {
      NumericThen(c, x, d);
    }
  }

  /** Behind its opening quote a literal leads back outside. */
  lemma {:induction false} LiteralThen(s: string, x: string, d: nat)
    requires d > 0 || x == ""
    ensures Balanced(Closed(s, x), true, d) == Balanced(x, false, d)
  {
    ClosedStep(s, x);
    if s == "" {
      assert ("\"" + x)[1..] == x;
    } else {
      EscapeCharThen(s[0], Closed(s[1..], x), d);
      LiteralThen(s[1..], x, d);
    }
  }

  lemma {:induction false} QuotedThen(s: string, x: string, d: nat)
    requires d > 0 || x == ""
    ensures Balanced("\"" + Escape(s) + "\"" + x, false, d) == Balanced(x, false, d)
  {
    QuotedText(s, x);
    LiteralThen(s, x, d);
  }

  // ----- values -----

  lemma {:induction false} ScalarNeutral(v: Value)
    requires v.Null? || v.Bool? || v.Int?
    ensures Neutral(Dumps(v))
  {
    if v.Int? {
      assert forall c :: IsDigit(c) ==> c !in "\\\"[]{}";
    }
  }

  lemma OpenThen(open: char, body: string, close: char, x: string, d: nat)
    requires open == '[' || open == '{'
    ensures Balanced([open] + body + [close] + x, false, d) == Balanced(body + ([close] + x), false, d + 1)
  {
    var t := [open] + body + [close] + x;
    assert t[0] == open && t[1..] == body + ([close] + x);
  }

  lemma CloseThen(close: char, x: string, d: nat)
    requires close == ']' || close == '}'
    requires d > 0 || x == ""
    ensures Balanced([close] + x, false, d + 1) == Balanced(x, false, d)
  {
    assert ([close] + x)[1..] == x;
  }

  /** Below an open bracket a value leaves the reader where it was. */
  lemma {:induction false} DumpsThen(v: Value, x: string, d: nat)
    requires d > 0
    ensures Balanced(Dumps(v) + x, false, d) == Balanced(x, false, d)
    decreases v, 2
  {
    match v
    case Str(s) =>
      QuotedThen(s, x, d);
    case List(items) =>
      OpenThen('[', DumpsItems(items), ']', x, d);
      ItemsThen(items, "]" + x, d + 1);
      CloseThen(']', x, d);
    case Dict(fields) =>
      OpenThen('{', DumpsFields(fields), '}', x, d);
      FieldsThen(fields, "}" + x, d + 1);
      CloseThen('}', x, d);
    case _ =>
      ScalarNeutral(v);
      NeutralThen(Dumps(v), x, false, d);
  }

  lemma {:induction false} ItemsThen(items: seq<Value>, x: string, d: nat)
    requires d > 0
    ensures Balanced(DumpsItems(items) + x, false, d) == Balanced(x, false, d)
    decreases items, 1
  {
    if items == [] {
      assert DumpsItems(items) + x == x;
    } else if |items| == 1 {
      DumpsThen(items[0], x, d);
    } else {
      var rest := DumpsItems(items[1..]) + x;
      Comma(Dumps(items[0]), DumpsItems(items[1..]), x);
      DumpsThen(items[0], ", " + rest, d);
      NeutralThen(", ", rest, false, d);
      ItemsThen(items[1..], x, d);
    }
  }

  lemma {:induction false} FieldThen(f: Field, x: string, d: nat)
    requires d > 0
    ensures Balanced(DumpsField(f) + x, false, d) == Balanced(x, false, d)
    decreases f, 3
  {
    FieldSplit(f, x);
    QuotedThen(f.key, ": " + (Dumps(f.value) + x), d);
    NeutralThen(": ", Dumps(f.value) + x, false, d);
    DumpsThen(f.value, x, d);
  }

  lemma {:induction false} FieldsThen(fields: seq<Field>, x: string, d: nat)
    requires d > 0
    ensures Balanced(DumpsFields(fields) + x, false, d) == Balanced(x, false, d)
    decreases fields, 1
  {
    if fields == [] {
      assert DumpsFields(fields) + x == x;
    } else if |fields| == 1 {
      FieldThen(fields[0], x, d);
    } else {
      var rest := DumpsFields(fields[1..]) + x;
      Comma(DumpsField(fields[0]), DumpsFields(fields[1..]), x);
      FieldThen(fields[0], ", " + rest, d);
      NeutralThen(", ", rest, false, d);
      FieldsThen(fields[1..], x, d);
    }
  }

  lemma ListBalanced(items: seq<Value>)
    ensures Balanced(Dumps(List(items)) + "", false, 0)
  {
    OpenThen('[', DumpsItems(items), ']', "", 0);
    ItemsThen(items, "]" + "", 1);
    CloseThen(']', "", 0);
  }

  lemma DictBalanced(fields: seq<Field>)
    ensures Balanced(Dumps(Dict(fields)) + "", false, 0)
  {
    OpenThen('{', DumpsFields(fields), '}', "", 0);
    FieldsThen(fields, "}" + "", 1);
    CloseThen('}', "", 0);
  }

  lemma DumpsBalanced(v: Value)
    ensures Balanced(Dumps(v), false, 0)
  {
    assert Dumps(v) + "" == Dumps(v);
    match v
    case Str(s) =>
      QuotedThen(s, "", 0);
    case List(items) =>
      ListBalanced(items);
    case Dict(fields) =>
      DictBalanced(fields);
    case _ =>
      ScalarNeutral(v);
      NeutralThen(Dumps(v), "", false, 0);
  }

  /** A value cannot end a text that is inside a literal or below a bracket. */
  lemma {:induction false} NotAtEnd(p: string, w: Value, inside: bool, d: nat)
    requires inside || d > 0
    requires p == "" || p[|p| - 1] == ' '
    ensures !Balanced(p + Dumps(w), inside, d)
    decreases |p|
  {
    var t := p + Dumps(w);
    KindHead(w);
    if p == "" {
      assert t == Dumps(w) == Dumps(w) + "";
      if inside {
        DumpsBalanced(w);
        Opposite(t, 0, d);
      } else {
        DumpsThen(w, "", d);
      }
    } else {
      assert t[0] == p[0] && t[1..] == p[1..] + Dumps(w);
      if inside {
        if p[0] == '\\' {
          assert t[2..] == p[2..] + Dumps(w);
          NotAtEnd(p[2..], w, true, d);
        } else {
          if p[0] != '"' || d > 0 {
            NotAtEnd(p[1..], w, p[0] != '"', d);
          }
        }
      } else {
        match p[0]
        case '\\' =>
        case '"' => NotAtEnd(p[1..], w, true, d);
        case '[' => NotAtEnd(p[1..], w, false, d + 1);
        case '{' => NotAtEnd(p[1..], w, false, d + 1);
        case ']' => if d > 1 { NotAtEnd(p[1..], w, false, d - 1); }
        case '}' => if d > 1 { NotAtEnd(p[1..], w, false, d - 1); }
        case _ => NotAtEnd(p[1..], w, false, d);
      }
    }
  }

  /** One step into a balanced text from outside. */
  lemma StepsIn(t: string)
    requires t != "" && Balanced(t, false, 0)
    ensures t[0] == '"' ==> Balanced(t[1..], true, 0)
    ensures t[0] == '[' || t[0] == '{' ==> Balanced(t[1..], false, 1)
  {
  }

  lemma ColonInside(t: string, p: string, w: Value)
    requires t != "" && t[0] in "\"[{" && Balanced(t, false, 0)
    requires |p| >= 2 && p[|p| - 1] == ' '
    ensures t != p + Dumps(w)
  {
    if t == p + Dumps(w) {
      StepsIn(t);
      assert t[1..] == p[1..] + Dumps(w);
      NotAtEnd(p[1..], w, t[0] == '"', if t[0] == '"' then 0 else 1);
    }
  }

  /** Behind a colon and a blank in a dumped value, the rest is not a dumped value. */
  lemma NoValueBehindColon(v: Value, m: string, w: Value)
    ensures Dumps(v) != m + ": " + Dumps(w)
  {
    var p := m + ": ";
    if v.Str? || v.List? || v.Dict? {
      KindHead(v);
      DumpsBalanced(v);
      ColonInside(Dumps(v), p, w);
    } else {
      NoColon(v);
      assert (p + Dumps(w))[|m|] == ':';
    }
  }

  lemma NoColon(v: Value)
    requires v.Null? || v.Bool? || v.Int?
    ensures forall i :: 0 <= i < |Dumps(v)| ==> Dumps(v)[i] != ':'
  {
  }
}
