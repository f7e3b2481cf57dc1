// JSON values, the text bpftool/src/json_writer.c gives them, and a parser for RFC 8259.
module Json {
  import opened Prelude

  datatype Value =
    | Null
    | Bool(b: bool)
    | Int(n: int)
    | String(s: string)
    | Array(items: seq<Value>)
    | Object(fields: seq<Field>)

  datatype Field = Field(name: string, value: Value)

  const NUL: char := '\0'
  const BACKSPACE: char := '\U{0008}'
  const FORMFEED: char := '\U{000C}'

  // ----- text -----

  /** The escape jsonw_puts writes for one character. */
  function Escape(c: char): string {
    if c == '\t' then "\\t"
    else if c == '\n' then "\\n"
    else if c == '\r' then "\\r"
    else if c == FORMFEED then "\\f"
    else if c == BACKSPACE then "\\b"
    else if c == '\\' then "\\\\"
    else if c == '"' then "\\\""
    else [c]
  }

  function Escaped(s: string): string {
    if s == [] then [] else Escape(s[0]) + Escaped(s[1..])
  }

  function Quoted(s: string): string { "\"" + Escaped(s) + "\"" }

  function Digit(d: nat): char
    requires d < 10
  {
    ['0', '1', '2', '3', '4', '5', '6', '7', '8', '9'][d]
  }

  function Digits(n: nat): string {
    if n < 10 then [Digit(n)] else Digits(n / 10) + [Digit(n % 10)]
  }

  function Decimal(n: int): string { if n < 0 then "-" + Digits(-n) else Digits(n) }

  function Indent(depth: nat): string { if depth == 0 then [] else "    " + Indent(depth - 1) }

  /** What jsonw_eol writes. */
  function Eol(depth: nat, pretty: bool): string { if pretty then "\n" + Indent(depth) else [] }

  /** The text of a value at a nesting depth. */
  function Text(v: Value, depth: nat, pretty: bool): string
    decreases v, 0
  {
    match v
    case Null => "null"
    case Bool(b) => if b then "true" else "false"
    case Int(n) => Decimal(n)
    case String(s) => Quoted(s)
    case Array(xs) => "[" + Items(xs, depth + 1, pretty, true) + Close(xs == [], depth, pretty) + "]"
    case Object(fs) => "{" + Fields(fs, depth + 1, pretty, true) + Close(fs == [], depth, pretty) + "}"
  }

  /** The line break before the closing bracket of a container that is not empty. */
  function Close(empty: bool, depth: nat, pretty: bool): string { if empty then [] else Eol(depth, pretty) }

  function Items(xs: seq<Value>, depth: nat, pretty: bool, first: bool): string
    decreases xs
  {
    if xs == [] then []
    else (if first then [] else ",") + Text(xs[0], depth, pretty) + Items(xs[1..], depth, pretty, false)
  }

  function Fields(fs: seq<Field>, depth: nat, pretty: bool, first: bool): string
    decreases fs
  {
    if fs == [] then []
    else
      (if first then [] else ",") + FieldText(fs[0], depth, pretty) + Fields(fs[1..], depth, pretty, false)
  }

  function FieldText(f: Field, depth: nat, pretty: bool): string
    decreases f
  {
    Eol(depth, pretty) + Quoted(f.name) + ":" + (if pretty then " " else []) + Text(f.value, depth, pretty)
  }

  // ----- which values have valid text -----

  /** The control characters jsonw_puts escapes. */
  predicate EscapedControl(c: char) { c == '\t' || c == '\n' || c == '\r' || c == FORMFEED || c == BACKSPACE }

  /** Section 7 of RFC 8259: control characters must be escaped. */
  predicate CharOk(c: char) { c >= ' ' || EscapedControl(c) }

  predicate StringOk(s: string) { forall k :: 0 <= k < |s| ==> CharOk(s[k]) }

  predicate Ok(v: Value)
    decreases v
  {
    match v
    case String(s) => StringOk(s)
    case Array(xs) => ItemsOk(xs)
    case Object(fs) => FieldsOk(fs)
    case _ => true
  }

  predicate ItemsOk(xs: seq<Value>) { forall x :: x in xs ==> Ok(x) }

  predicate FieldsOk(fs: seq<Field>) { forall f :: f in fs ==> StringOk(f.name) && Ok(f.value) }

  // ----- the parser -----

  /** Section 2 of RFC 8259. */
  predicate IsWs(c: char) { c == ' ' || c == '\t' || c == '\n' || c == '\r' }

  function SkipWs(s: string): (r: string)
    ensures |r| <= |s|
    ensures r == [] || !IsWs(r[0])
  {
    if s != [] && IsWs(s[0]) then SkipWs(s[1..]) else s
  }

  predicate IsDigit(c: char) { '0' <= c <= '9' }

  function DigitValue(c: char): nat
    requires IsDigit(c)
  {
    (c as int) - ('0' as int)
  }

  function DigitRun(s: string): (n: nat)
    ensures n <= |s|
    ensures forall k :: 0 <= k < n ==> IsDigit(s[k])
  {
    if s != [] && IsDigit(s[0]) then
      var n := DigitRun(s[1..]);
      assert forall k :: 1 <= k < n + 1 ==> s[k] == s[1..][k - 1];
      n + 1
    else 0
  }

  function DigitsValue(s: string): nat
    requires forall k :: 0 <= k < |s| ==> IsDigit(s[k])
  {
    if s == [] then 0 else DigitsValue(s[..|s| - 1]) * 10 + DigitValue(s[|s| - 1])
  }

  /** Section 6 of RFC 8259, integers only: no leading zeros. */
  function ParseNat(s: string): (r: Option<(nat, string)>)
    ensures r.Some? ==> |r.value.1| < |s|
  {
    var n := DigitRun(s);
    if n == 0 then None
    else if s[0] == '0' then Some((0, s[1..]))
    else Some((DigitsValue(s[..n]), s[n..]))
  }

  function Unescape(c: char): Option<char> {
    if c == 't' then Some('\t')
    else if c == 'n' then Some('\n')
    else if c == 'r' then Some('\r')
    else if c == 'f' then Some(FORMFEED)
    else if c == 'b' then Some(BACKSPACE)
    else if c == '\\' || c == '"' || c == '/' then Some(c)
    else None
  }

  /** The rest of a string after its opening quote (section 7 of RFC 8259, two-character escapes). */
  function ParseString(s: string): (r: Option<(string, string)>)
    ensures r.Some? ==> |r.value.1| < |s|
  {
    if s == [] then None
    else if s[0] == '"' then Some(([], s[1..]))
    else if s[0] == '\\' then
      if |s| < 2 then None
      else
        (match Unescape(s[1])
         case None => None
         case Some(c) =>
           match ParseString(s[2..])
           case None => None
           case Some((t, rest)) => Some(([c] + t, rest)))
    else if s[0] < ' ' then None
    else
      (match ParseString(s[1..])
       case None => None
       case Some((t, rest)) => Some(([s[0]] + t, rest)))
  }

  function ParseWord(s: string, word: string, v: Value): (r: Option<(Value, string)>)
    requires word != []
    ensures r.Some? ==> |r.value.1| < |s|
  {
    if word <= s then Some((v, s[|word|..])) else None
  }

  function ParseValue(s: string): (r: Option<(Value, string)>)
    ensures r.Some? ==> |r.value.1| < |s|
    decreases |s|, 0
  {
    var t := SkipWs(s);
    if t == [] then None
    else if t[0] == '"' then
      (match ParseString(t[1..])
       case None => None
       case Some((str, rest)) => Some((String(str), rest)))
    else if t[0] == '[' then
      var u := SkipWs(t[1..]);
      if u != [] && u[0] == ']' then Some((Array([]), u[1..]))
      else
        (match ParseItems(t[1..])
         case None => None
         case Some((xs, rest)) => Some((Array(xs), rest)))
    else if t[0] == '{' then
      var u := SkipWs(t[1..]);
      if u != [] && u[0] == '}' then Some((Object([]), u[1..]))
      else
        (match ParseFields(t[1..])
         case None => None
         case Some((fs, rest)) => Some((Object(fs), rest)))
    else if t[0] == 'n' then ParseWord(t, "null", Null)
    else if t[0] == 't' then ParseWord(t, "true", Bool(true))
    else if t[0] == 'f' then ParseWord(t, "false", Bool(false))
    else if t[0] == '-' then
      (match ParseNat(t[1..])
       case None => None
       case Some((n, rest)) => Some((Int(0 - (n as int)), rest)))
    else
      match ParseNat(t)
      case None => None
      case Some((n, rest)) => Some((Int(n), rest))
  }

  function ParseItems(s: string): (r: Option<(seq<Value>, string)>)
    ensures r.Some? ==> |r.value.1| < |s|
    decreases |s|, 1
  {
    match ParseValue(s)
    case None => None
    case Some((v, r)) =>
      var u := SkipWs(r);
      if u == [] then None
      else if u[0] == ']' then Some(([v], u[1..]))
      else if u[0] == ',' then
        (match ParseItems(u[1..])
         case None => None
         case Some((vs, rest)) => Some(([v] + vs, rest)))
      else None
  }

  function ParseFields(s: string): (r: Option<(seq<Field>, string)>)
    ensures r.Some? ==> |r.value.1| < |s|
    decreases |s|, 1
  {
    match ParseField(s)
    case None => None
    case Some((f, r)) =>
      var u := SkipWs(r);
      if u == [] then None
      else if u[0] == '}' then Some(([f], u[1..]))
      else if u[0] == ',' then
        (match ParseFields(u[1..])
         case None => None
         case Some((fs, rest)) => Some(([f] + fs, rest)))
      else None
  }

  function ParseField(s: string): (r: Option<(Field, string)>)
    ensures r.Some? ==> |r.value.1| < |s|
    decreases |s|, 0
  {
    var t := SkipWs(s);
    if t == [] || t[0] != '"' then None
    else
      match ParseString(t[1..])
      case None => None
      case Some((name, r)) =>
        var u := SkipWs(r);
        if u == [] || u[0] != ':' then None
        else
          match ParseValue(u[1..])
          case None => None
          case Some((v, rest)) => Some((Field(name, v), rest))
  }

  /** A whole JSON text: one value between white space. */
  function Parse(s: string): Option<Value> {
    match ParseValue(s)
    case None => None
    case Some((v, rest)) => if SkipWs(rest) == [] then Some(v) else None
  }
}
