// The text of a JSON value parses back to it exactly when its strings hold no other control characters.
module JsonRoundTrip {
  import opened Prelude
  import opened Json

  // ----- white space -----

  lemma {:induction false} SkipIndent(depth: nat, s: string)
    ensures SkipWs(Indent(depth) + s) == SkipWs(s)
  {
    if depth == 0 {
      assert Indent(depth) + s == s;
    } else {
      var rest := Indent(depth - 1) + s;
      assert Indent(depth) + s == "    " + rest;
      SkipBlanks(rest);
      SkipIndent(depth - 1, s);
    }
  }

  lemma SkipBlanks(s: string)
    ensures SkipWs("    " + s) == SkipWs(s)
  {
    SkipOne(' ', "   " + s);
    SkipOne(' ', "  " + s);
    SkipOne(' ', " " + s);
    SkipOne(' ', s);
    assert "    " + s == [' '] + ("   " + s);
    assert "   " + s == [' '] + ("  " + s);
    assert "  " + s == [' '] + (" " + s);
    assert " " + s == [' '] + s;
  }

  lemma SkipOne(c: char, s: string)
    requires IsWs(c)
    ensures SkipWs([c] + s) == SkipWs(s)
  {
  }

  lemma SkipEol(depth: nat, pretty: bool, s: string)
    ensures SkipWs(Eol(depth, pretty) + s) == SkipWs(s)
  {
    if pretty {
      SkipIndent(depth, s);
      SkipOne('\n', Indent(depth) + s);
      assert Eol(depth, pretty) + s == ['\n'] + (Indent(depth) + s);
    } else {
      assert Eol(depth, pretty) + s == s;
    }
  }

  // ----- strings -----

  lemma EscapeParses(c: char, t: string)
    ensures ParseString(Escape(c) + t) ==
      if !CharOk(c) then None
      else match ParseString(t)
        case None => None
        case Some((s, rest)) => Some(([c] + s, rest))
  {
    var e := Escape(c) + t;
    if |Escape(c)| == 1 {
      assert e[1..] == t;
    } else {
      assert e[2..] == t && e[0] == '\\' && e[1] == Escape(c)[1];
    }
  }

  /** A written string reads back, unless it holds an unescaped control character. */
  lemma {:induction false} EscapedParses(s: string, rest: string)
    ensures ParseString(Escaped(s) + "\"" + rest) == if StringOk(s) then Some((s, rest)) else None
  {
    if s == [] {
      assert (Escaped(s) + "\"" + rest)[1..] == rest;
    } else {
      EscapedParses(s[1..], rest);
      EscapeParses(s[0], Escaped(s[1..]) + "\"" + rest);
      assert Escaped(s) + "\"" + rest == Escape(s[0]) + (Escaped(s[1..]) + "\"" + rest);
      assert StringOk(s) <==> CharOk(s[0]) && StringOk(s[1..]) by { StringOkSplit(s); }
      assert [s[0]] + s[1..] == s;
    }
  }

  lemma StringOkSplit(s: string)
    requires s != []
    ensures StringOk(s) <==> CharOk(s[0]) && StringOk(s[1..])
  {
  }

  // ----- numbers -----

  ghost predicate AllDigits(s: string) { forall k :: 0 <= k < |s| ==> IsDigit(s[k]) }

  /** The text after a value does not continue a number. */
  ghost predicate Delimited(rest: string) { rest == [] || !IsDigit(rest[0]) }

  lemma {:induction false} RunAll(a: string, rest: string)
    requires AllDigits(a) && Delimited(rest)
    ensures DigitRun(a + rest) == |a|
  {
    if a == [] {
      assert a + rest == rest;
    } else {
      assert (a + rest)[1..] == a[1..] + rest;
      RunAll(a[1..], rest);
    }
  }

  lemma DigitIs(d: nat)
    requires d < 10
    ensures IsDigit(Digit(d)) && DigitValue(Digit(d)) == d && (Digit(d) == '0' <==> d == 0)
  {
  }

  lemma {:induction false} DigitsAre(n: nat)
    ensures |Digits(n)| > 0 && AllDigits(Digits(n)) && DigitsValue(Digits(n)) == n
    ensures Digits(n)[0] == '0' <==> n == 0
  {
    if n < 10 {
      assert [Digit(n)][..0] == [];
      DigitIs(n);
    } else {
      var a := Digits(n / 10);
      DigitsAre(n / 10);
      DigitIs(n % 10);
      assert (a + [Digit(n % 10)])[..|a|] == a;
    }
  }

  lemma NatParses(n: nat, rest: string)
    requires Delimited(rest)
    ensures ParseNat(Digits(n) + rest) == Some((n, rest))
  {
    DigitsAre(n);
    RunAll(Digits(n), rest);
    var s := Digits(n) + rest;
    assert s[..|Digits(n)|] == Digits(n) && s[|Digits(n)|..] == rest;
    if n == 0 {
      assert s[1..] == rest;
    }
  }

  lemma IntParses(n: int, rest: string)
    requires Delimited(rest)
    ensures ParseValue(Decimal(n) + rest) == Some((Int(n), rest))
  {
    var m: nat := if n < 0 then -n else n;
    var s := Digits(m) + rest;
    DigitsStart(m, rest);
    NatParses(m, rest);
    if n < 0 {
      assert Decimal(n) + rest == "-" + s;
      MinusAt(s);
    } else {
      NumberAt(s);
    }
  }

  lemma DigitsStart(n: nat, rest: string)
    ensures Digits(n) + rest != [] && IsDigit((Digits(n) + rest)[0])
  {
    DigitsAre(n);
  }

  // ----- one step of the parser -----

  lemma MinusAt(s: string)
    ensures ParseValue("-" + s) == match ParseNat(s)
      case None => None
      case Some((n, rest)) => Some((Int(0 - (n as int)), rest))
  {
  }

  lemma NumberAt(s: string)
    requires s != [] && IsDigit(s[0])
    ensures ParseValue(s) == match ParseNat(s)
      case None => None
      case Some((n, rest)) => Some((Int(n), rest))
  {
  }

  lemma StringAt(s: string)
    ensures ParseValue("\"" + s) == match ParseString(s)
      case None => None
      case Some((str, rest)) => Some((String(str), rest))
  {
  }

  lemma ArrayAt(s: string)
    ensures var u := SkipWs(s);
      ParseValue("[" + s) ==
        if u != [] && u[0] == ']' then Some((Array([]), u[1..]))
        else match ParseItems(s)
          case None => None
          case Some((xs, rest)) => Some((Array(xs), rest))
  {
  }

  lemma ObjectAt(s: string)
    ensures var u := SkipWs(s);
      ParseValue("{" + s) ==
        if u != [] && u[0] == '}' then Some((Object([]), u[1..]))
        else match ParseFields(s)
          case None => None
          case Some((fs, rest)) => Some((Object(fs), rest))
  {
  }

  /** The list goes on after a comma. */
  lemma MoreItems(s: string, v: Value, t: string)
    requires ParseValue(s) == Some((v, "," + t))
    ensures ParseItems(s) == match ParseItems(t)
      case None => None
      case Some((vs, rest)) => Some(([v] + vs, rest))
  {
  }

  lemma LastItem(s: string, v: Value, r: string, after: string)
    requires ParseValue(s) == Some((v, r)) && SkipWs(r) == "]" + after
    ensures ParseItems(s) == Some(([v], after))
  {
  }

  lemma MoreFields(s: string, f: Field, t: string)
    requires ParseField(s) == Some((f, "," + t))
    ensures ParseFields(s) == match ParseFields(t)
      case None => None
      case Some((fs, rest)) => Some(([f] + fs, rest))
  {
    assert ("," + t)[1..] == t;
  }

  lemma LastField(s: string, f: Field, r: string, after: string)
    requires ParseField(s) == Some((f, r)) && SkipWs(r) == "}" + after
    ensures ParseFields(s) == Some(([f], after))
  {
  }

  lemma FieldAt(s: string, t: string)
    requires SkipWs(s) == "\"" + t
    ensures ParseField(s) == match ParseString(t)
      case None => None
      case Some((name, r)) =>
        var u := SkipWs(r);
        if u == [] || u[0] != ':' then None
        else match ParseValue(u[1..])
          case None => None
          case Some((v, rest)) => Some((Field(name, v), rest))
  {
  }

  // ----- values -----

  /** No value's text starts with white space or a closing bracket. */
  lemma TextStart(v: Value, depth: nat, pretty: bool)
    ensures Text(v, depth, pretty) != []
    ensures var c := Text(v, depth, pretty)[0]; !IsWs(c) && c != ']' && c != '}'
  {
    match v
    case Int(n) => DigitsAre(if n < 0 then -n else n);
    case _ =>
  }

  lemma WordParses(word: string, v: Value, rest: string)
    requires (word == "null" && v == Null) || (word == "true" && v == Bool(true)) || (word == "false" && v == Bool(false))
    ensures ParseValue(word + rest) == Some((v, rest))
  {
  }

  /** The closing bracket after the last element, with its line break. */
  lemma CloseSkipped(empty: bool, depth: nat, pretty: bool, bracket: char, rest: string)
    requires bracket == ']' || bracket == '}'
    ensures var tail := Close(empty, depth, pretty) + [bracket] + rest;
      SkipWs(tail) == [bracket] + rest && Delimited(tail)
  {
    var end := [bracket] + rest;
    assert Close(empty, depth, pretty) + [bracket] + rest == Close(empty, depth, pretty) + end;
    if empty || !pretty {
      assert Close(empty, depth, pretty) + end == end;
    } else {
      SkipEol(depth, pretty, end);
    }
  }

  /** The text of a value, followed by anything that cannot continue a number, reads back. */
  lemma {:induction false} ParseText(v: Value, depth: nat, pretty: bool, rest: string)
    requires Delimited(rest)
    ensures ParseValue(Text(v, depth, pretty) + rest) == if Ok(v) then Some((v, rest)) else None
    decreases v, 0
  {
    match v
    case Null => WordParses("null", v, rest);
    case Bool(b) => WordParses(if b then "true" else "false", v, rest);
    case Int(n) => IntParses(n, rest);
    case String(s) =>
      var t := Escaped(s) + "\"" + rest;
      EscapedParses(s, rest);
      assert Quoted(s) + rest == "\"" + t;
      StringAt(t);
    case Array(xs) => ParseArrayText(xs, depth, pretty, rest);
    case Object(fs) => ParseObjectText(fs, depth, pretty, rest);
  }

  lemma {:induction false} ParseArrayText(xs: seq<Value>, depth: nat, pretty: bool, rest: string)
    ensures ParseValue(Text(Array(xs), depth, pretty) + rest) ==
      if ItemsOk(xs) then Some((Array(xs), rest)) else None
    decreases xs, 2
  {
    var tail := Close(xs == [], depth, pretty) + "]" + rest;
    var t := Items(xs, depth + 1, pretty, true) + tail;
    BracketText(xs, depth, pretty, rest);
    CloseSkipped(xs == [], depth, pretty, ']', rest);
    if xs == [] {
      EmptyArrayAt(rest);
    } else {
      ParseItemsText(xs, depth + 1, pretty, tail, rest);
      ItemsStart(xs, depth + 1, pretty, tail);
      ArrayAt(t);
    }
  }

  lemma BracketText(xs: seq<Value>, depth: nat, pretty: bool, rest: string)
    ensures Text(Array(xs), depth, pretty) + rest ==
      "[" + (Items(xs, depth + 1, pretty, true) + (Close(xs == [], depth, pretty) + "]" + rest))
    ensures xs == [] ==> Text(Array(xs), depth, pretty) + rest == "[" + ("]" + rest)
  {
    Bracketed("[", Items(xs, depth + 1, pretty, true), Close(xs == [], depth, pretty), "]", rest);
  }

  lemma BraceText(fs: seq<Field>, depth: nat, pretty: bool, rest: string)
    ensures Text(Object(fs), depth, pretty) + rest ==
      "{" + (Fields(fs, depth + 1, pretty, true) + (Close(fs == [], depth, pretty) + "}" + rest))
    ensures fs == [] ==> Text(Object(fs), depth, pretty) + rest == "{" + ("}" + rest)
  {
    Bracketed("{", Fields(fs, depth + 1, pretty, true), Close(fs == [], depth, pretty), "}", rest);
  }

  lemma Bracketed(open: string, elements: string, close: string, shut: string, rest: string)
    ensures (open + elements + close + shut) + rest == open + (elements + (close + shut + rest))
    ensures elements == [] && close == [] ==> elements + (close + shut + rest) == shut + rest
  {
  }

  lemma EmptyArrayAt(rest: string)
    ensures ParseValue("[" + ("]" + rest)) == Some((Array([]), rest))
  {
  }

  lemma EmptyObjectAt(rest: string)
    ensures ParseValue("{" + ("}" + rest)) == Some((Object([]), rest))
  {
  }

  lemma {:induction false} ParseObjectText(fs: seq<Field>, depth: nat, pretty: bool, rest: string)
    ensures ParseValue(Text(Object(fs), depth, pretty) + rest) ==
      if FieldsOk(fs) then Some((Object(fs), rest)) else None
    decreases fs, 2
  {
    var tail := Close(fs == [], depth, pretty) + "}" + rest;
    var t := Fields(fs, depth + 1, pretty, true) + tail;
    BraceText(fs, depth, pretty, rest);
    CloseSkipped(fs == [], depth, pretty, '}', rest);
    if fs == [] {
      EmptyObjectAt(rest);
    } else {
      ParseFieldsText(fs, depth + 1, pretty, tail, rest);
      FieldsStart(fs, depth + 1, pretty, tail);
      ObjectAt(t);
    }
  }

  lemma ItemsStart(xs: seq<Value>, depth: nat, pretty: bool, tail: string)
    requires xs != []
    ensures var u := SkipWs(Items(xs, depth, pretty, true) + tail); u != [] && u[0] != ']'
  {
    TextStart(xs[0], depth, pretty);
    assert (Items(xs, depth, pretty, true) + tail)[0] == Text(xs[0], depth, pretty)[0];
  }

  lemma FieldsStart(fs: seq<Field>, depth: nat, pretty: bool, tail: string)
    requires fs != []
    ensures var u := SkipWs(Fields(fs, depth, pretty, true) + tail); u != [] && u[0] != '}'
  {
    var rest := Fields(fs[1..], depth, pretty, false) + tail;
    ItemSplit(FieldText(fs[0], depth, pretty), Fields(fs[1..], depth, pretty, false), tail);
    FieldSkipped(fs[0], depth, pretty, rest);
  }

  lemma ItemSplit(a: string, b: string, c: string)
    ensures (a + b) + c == a + (b + c)
    ensures ([] + a + b) + c == a + (b + c)
    ensures ("," + a + b) + c == "," + ((a + b) + c)
  {
  }

  /** The text of the value in a field, after the colon. */
  function FieldValue(f: Field, depth: nat, pretty: bool, rest: string): string {
    (if pretty then " " else []) + (Text(f.value, depth, pretty) + rest)
  }

  lemma FieldSkipped(f: Field, depth: nat, pretty: bool, rest: string)
    ensures SkipWs(FieldText(f, depth, pretty) + rest) ==
      "\"" + (Escaped(f.name) + "\"" + (":" + FieldValue(f, depth, pretty, rest)))
  {
    var s := "\"" + (Escaped(f.name) + "\"" + (":" + FieldValue(f, depth, pretty, rest)));
    FieldParts(Eol(depth, pretty), Escaped(f.name), if pretty then " " else [], Text(f.value, depth, pretty), rest);
    SkipEol(depth, pretty, s);
    SkipNone(s);
  }

  lemma FieldParts(e: string, name: string, blank: string, text: string, rest: string)
    ensures (e + ("\"" + name + "\"") + ":" + blank + text) + rest ==
      e + ("\"" + (name + "\"" + (":" + (blank + (text + rest)))))
  {
  }

  lemma SkipNone(s: string)
    requires s != [] && !IsWs(s[0])
    ensures SkipWs(s) == s
  {
  }

  lemma ItemsOkSplit(xs: seq<Value>)
    requires xs != []
    ensures xs == [xs[0]] + xs[1..]
    ensures ItemsOk(xs) <==> Ok(xs[0]) && ItemsOk(xs[1..])
  {
  }

  lemma FieldsOkSplit(fs: seq<Field>)
    requires fs != []
    ensures fs == [fs[0]] + fs[1..]
    ensures FieldsOk(fs) <==> StringOk(fs[0].name) && Ok(fs[0].value) && FieldsOk(fs[1..])
  {
  }

  lemma {:induction false} ParseItemsText(xs: seq<Value>, depth: nat, pretty: bool, tail: string, after: string)
    requires xs != [] && SkipWs(tail) == "]" + after && Delimited(tail)
    ensures ParseItems(Items(xs, depth, pretty, true) + tail) ==
      if ItemsOk(xs) then Some((xs, after)) else None
    decreases xs, 1
  {
    var more := xs[1..];
    var text := Text(xs[0], depth, pretty);
    var rest := Items(more, depth, pretty, false) + tail;
    var s := Items(xs, depth, pretty, true) + tail;
    ItemSplit(text, Items(more, depth, pretty, false), tail);
    assert s == text + rest;
    ItemsOkSplit(xs);
    if more == [] {
      assert xs == [xs[0]];
      assert rest == tail;
      ParseText(xs[0], depth, pretty, tail);
      if Ok(xs[0]) {
        LastItem(s, xs[0], tail, after);
      }
    } else {
      var t := Items(more, depth, pretty, true) + tail;
      CommaItems(more, depth, pretty, tail);
      ParseText(xs[0], depth, pretty, rest);
      if Ok(xs[0]) {
        MoreItems(s, xs[0], t);
        ParseItemsText(more, depth, pretty, tail, after);
      }
    }
  }

  lemma CommaItems(xs: seq<Value>, depth: nat, pretty: bool, tail: string)
    requires xs != []
    ensures Items(xs, depth, pretty, false) + tail == "," + (Items(xs, depth, pretty, true) + tail)
  {
    var text, more := Text(xs[0], depth, pretty), Items(xs[1..], depth, pretty, false);
    assert Items(xs, depth, pretty, true) == [] + text + more == text + more;
    assert Items(xs, depth, pretty, false) == "," + text + more;
  }

  lemma CommaFields(fs: seq<Field>, depth: nat, pretty: bool, tail: string)
    requires fs != []
    ensures Fields(fs, depth, pretty, false) + tail == "," + (Fields(fs, depth, pretty, true) + tail)
  {
    var text, more := FieldText(fs[0], depth, pretty), Fields(fs[1..], depth, pretty, false);
    assert Fields(fs, depth, pretty, true) == [] + text + more == text + more;
    assert Fields(fs, depth, pretty, false) == "," + text + more;
  }

  lemma {:induction false} ParseFieldText(f: Field, depth: nat, pretty: bool, rest: string)
    requires Delimited(rest)
    ensures ParseField(FieldText(f, depth, pretty) + rest) ==
      if StringOk(f.name) && Ok(f.value) then Some((f, rest)) else None
    decreases f, 1
  {
    var value := FieldValue(f, depth, pretty, rest);
    FieldSkipped(f, depth, pretty, rest);
    FieldAt(FieldText(f, depth, pretty) + rest, Escaped(f.name) + "\"" + (":" + value));
    EscapedParses(f.name, ":" + value);
    ParseText(f.value, depth, pretty, rest);
    if StringOk(f.name) {
      SkipNone(":" + value);
      assert (":" + value)[1..] == value;
      BlankSkipped(pretty, Text(f.value, depth, pretty) + rest);
    }
  }

  lemma BlankSkipped(pretty: bool, s: string)
    ensures ParseValue((if pretty then " " else []) + s) == ParseValue(s)
  {
    if pretty {
      SkipOne(' ', s);
      ParseSkips(" " + s, s);
    } else {
      assert [] + s == s;
    }
  }

  lemma ParseSkips(s: string, t: string)
    requires SkipWs(s) == SkipWs(t)
    ensures ParseValue(s) == ParseValue(t)
  {
  }

  lemma {:induction false} ParseFieldsText(fs: seq<Field>, depth: nat, pretty: bool, tail: string, after: string)
    requires fs != [] && SkipWs(tail) == "}" + after && Delimited(tail)
    ensures ParseFields(Fields(fs, depth, pretty, true) + tail) ==
      if FieldsOk(fs) then Some((fs, after)) else None
    decreases fs, 1
  {
    var more := fs[1..];
    var text := FieldText(fs[0], depth, pretty);
    var rest := Fields(more, depth, pretty, false) + tail;
    var s := Fields(fs, depth, pretty, true) + tail;
    ItemSplit(text, Fields(more, depth, pretty, false), tail);
    assert s == text + rest;
    FieldsOkSplit(fs);
    var ok := StringOk(fs[0].name) && Ok(fs[0].value);
    if more == [] {
      assert fs == [fs[0]];
      assert rest == tail;
      ParseFieldText(fs[0], depth, pretty, tail);
      if ok {
        LastField(s, fs[0], tail, after);
      }
    } else {
      var t := Fields(more, depth, pretty, true) + tail;
      CommaFields(more, depth, pretty, tail);
      ParseFieldText(fs[0], depth, pretty, rest);
      if ok {
        MoreFields(s, fs[0], t);
        ParseFieldsText(more, depth, pretty, tail, after);
      }
    }
  }

  // ----- the round trip -----

  /** A written document reads back as the value it was written from, exactly when the value is Ok. */
  lemma DocumentParses(v: Value, depth: nat, pretty: bool, end: string)
    requires end == [] || end == "\n"
    ensures Parse(Text(v, depth, pretty) + end) == if Ok(v) then Some(v) else None
  {
    ParseText(v, depth, pretty, end);
    if end == "\n" {
      SkipOne('\n', []);
      assert ['\n'] + [] == end;
    }
  }

  /** Different values never share a text, whatever the mode and the depth they are written in. */
  lemma TextInjective(v: Value, w: Value, depth: nat, depth': nat, pretty: bool, pretty': bool)
    requires Ok(v) && Text(v, depth, pretty) == Text(w, depth', pretty')
    ensures v == w
  {
    ParseText(v, depth, pretty, []);
    ParseText(w, depth', pretty', []);
    assert Text(v, depth, pretty) + [] == Text(v, depth, pretty);
    assert Text(w, depth', pretty') + [] == Text(w, depth', pretty');
  }

  // ----- the text itself -----

  /** Four blanks for every level. */
  lemma {:induction false} IndentIs(depth: nat)
    ensures |Indent(depth)| == 4 * depth && forall k :: 0 <= k < 4 * depth ==> Indent(depth)[k] == ' '
  {
    if depth > 0 {
      IndentIs(depth - 1);
    }
  }

  /** A line break and the indentation, in pretty mode only. */
  lemma EolIs(depth: nat)
    ensures Eol(depth, false) == "" && |Eol(depth, true)| == 1 + 4 * depth && Eol(depth, true)[0] == '\n'
    ensures forall k :: 1 <= k < 1 + 4 * depth ==> Eol(depth, true)[k] == ' '
  {
    IndentIs(depth);
  }

  /** An array in pretty mode: elements on one line, the closing bracket on its own, under the line that opened it. */
  lemma ArrayText()
    ensures Text(Array([Null]), 1, true) == "[null\n    ]" && Text(Array([Null]), 1, false) == "[null]"
    ensures Text(Array([]), 1, true) == "[]"
  {
    assert Items([Null], 2, true, true) == [] + "null" + Items([], 2, true, false) == "null";
    assert Items([Null], 2, false, true) == [] + "null" + Items([], 2, false, false) == "null";
    assert Indent(1) == "    " + Indent(0) == "    ";
  }

  /** A field in pretty mode: its own line, indented, and a blank behind the colon. */
  lemma FieldLine()
    ensures FieldText(Field("a", Null), 1, true) == "\n    \"a\": null"
    ensures FieldText(Field("a", Null), 1, false) == "\"a\":null"
  {
    assert Escaped("a") == Escape('a') + Escaped([]) == "a";
    assert Quoted("a") == "\"a\"";
    assert Indent(1) == "    " + Indent(0) == "    ";
    assert Eol(1, true) == "\n    ";
  }

  /** Two elements are separated by a comma. */
  lemma TwoItems(pretty: bool)
    ensures Items([Null, Null], 1, pretty, true) == "null,null"
  {
    assert [Null, Null][1..] == [Null];
    assert Items([Null], 1, pretty, false) == "," + "null" + Items([], 1, pretty, false) == ",null";
  }
}
