// The streaming writer of bpftool/src/json_writer.c: an output stream, a depth and a pending separator.
module JsonWriter {
  import opened Prelude
  import opened Json
  import JsonRoundTrip

  /** The strings of a value end at their first NUL in C, so they hold none. */
  predicate NoNul(v: Value)
    decreases v
  {
    match v
    case String(s) => NUL !in s
    case Array(xs) => forall x :: x in xs ==> NoNul(x)
    case Object(fs) => forall f :: f in fs ==> NUL !in f.name && NoNul(f.value)
    case _ => true
  }

  /** What jsonw_eor puts before the next element. */
  function Pending(sep: char): string { if sep != NUL then [sep] else [] }

  // ----- joining pieces of output -----

  lemma Joined(a: string, b: string, c: string)
    ensures (a + b) + c == a + (b + c)
  {
  }

  lemma JoinedName(a: string, p: string, e: string, q: string, b: string)
    ensures a + p + e + q + ":" + b == a + (p + e + q + ":" + b)
    ensures a + p + e + q + ":" == a + p + e + q + ":" + []
  {
  }

  /** An opening bracket, the elements and the closing bracket make one container. */
  lemma JoinedContainer(a: string, p: string, open: char, elements: string, close: string, shut: char)
    ensures a + (p + [open]) + elements + (close + [shut]) == a + (p + ([open] + elements + close + [shut]))
  {
  }

  lemma ItemsStep(xs: seq<Value>, i: nat, depth: nat, pretty: bool)
    requires i < |xs|
    ensures Items(xs[i..], depth, pretty, i == 0) ==
      Pending(if i == 0 then NUL else ',') + Text(xs[i], depth, pretty) + Items(xs[i + 1..], depth, pretty, false)
  {
  }

  lemma FieldsStep(fs: seq<Field>, i: nat, depth: nat, pretty: bool)
    requires i < |fs|
    ensures Fields(fs[i..], depth, pretty, i == 0) ==
      Pending(if i == 0 then NUL else ',') + FieldText(fs[i], depth, pretty) + Fields(fs[i + 1..], depth, pretty, false)
  {
  }

  /** A name and its value make one field. */
  lemma NamedValue(a: string, p: string, f: Field, depth: nat, pretty: bool)
    ensures a + (p + Eol(depth, pretty) + Quoted(f.name) + ":" + (if pretty then " " else [])) +
      (Pending(NUL) + Text(f.value, depth, pretty)) == a + (p + FieldText(f, depth, pretty))
  {
    FieldJoin(a, p, Eol(depth, pretty), Quoted(f.name), if pretty then " " else [], Text(f.value, depth, pretty));
  }

  lemma FieldJoin(a: string, p: string, e: string, q: string, b: string, t: string)
    ensures a + (p + e + q + ":" + b) + ([] + t) == a + (p + (e + q + ":" + b + t))
  {
  }

  class JsonWriter {
    var out: string
    var depth: nat
    var pretty: bool
    var sep: char

    constructor ()
      ensures out == [] && depth == 0 && !pretty && sep == NUL
    {
      out, depth, pretty, sep := [], 0, false, NUL;
    }

    /** Only the fields a call may change do, and the stream only grows. */
    twostate predicate Wrote(text: string, levels: int, after: char)
      reads this
    {
      out == old(out) + text && depth == old(depth) + levels && pretty == old(pretty) && sep == after
    }

    method SetPretty(on: bool)
      modifies this`pretty
      ensures pretty == on
    {
      pretty := on;
    }

    method Reset()
      requires depth == 0
      modifies this`sep
      ensures sep == NUL
    {
      sep := NUL;
    }

    /** The text of jsonw_destroy. */
    method Finish()
      requires depth == 0
      modifies this`out
      ensures out == old(out) + "\n"
    {
      out := out + "\n";
    }

    method WriteIndent()
      modifies this`out
      ensures out == old(out) + Indent(depth)
    {
      var i := 0;
      while i < depth
        invariant i <= depth
        invariant out + Indent(depth - i) == old(out) + Indent(depth)
      {
        out := out + "    ";
        i := i + 1;
      }
    }

    method WriteEol()
      modifies this`out
      ensures out == old(out) + Eol(depth, pretty)
    {
      if !pretty {
        return;
      }
      out := out + "\n";
      WriteIndent();
    }

    method Eor()
      modifies this`out, this`sep
      ensures out == old(out) + Pending(old(sep)) && sep == ','
    {
      if sep != NUL {
        out := out + [sep];
      }
      sep := ',';
    }

    /** One turn of the loop of jsonw_puts. */
    method PutEscaped(c: char)
      modifies this`out
      ensures out == old(out) + Escape(c)
    {
      if c == '\t' {
        out := out + "\\t";
      } else if c == '\n' {
        out := out + "\\n";
      } else if c == '\r' {
        out := out + "\\r";
      } else if c == FORMFEED {
        out := out + "\\f";
      } else if c == BACKSPACE {
        out := out + "\\b";
      } else if c == '\\' {
        out := out + "\\\\";
      } else if c == '"' {
        out := out + "\\\"";
      } else {
        out := out + [c];
      }
    }

    method Puts(s: string)
      requires NUL !in s
      modifies this`out
      ensures out == old(out) + Quoted(s)
    {
      out := out + "\"";
      var i := 0;
      while i < |s|
        invariant i <= |s|
        invariant out + Escaped(s[i..]) == old(out) + "\"" + Escaped(s)
      {
        assert s[i..][1..] == s[i + 1..];
        var c := s[i];
        ghost var before := out;
        PutEscaped(c);
        Joined(before, Escape(c), Escaped(s[i + 1..]));
        i := i + 1;
      }
      assert out + [] == out;
      out := out + "\"";
    }

    method Begin(c: char)
      modifies this
      ensures Wrote(Pending(old(sep)) + [c], 1, NUL)
    {
      Eor();
      out := out + [c];
      depth := depth + 1;
      sep := NUL;
    }

    method End(c: char)
      requires depth > 0
      modifies this
      ensures Wrote(Close(old(sep) == NUL, depth, pretty) + [c], -1, ',')
    {
      depth := depth - 1;
      if sep != NUL {
        WriteEol();
      }
      out := out + [c];
      sep := ',';
    }

    method Name(name: string)
      requires NUL !in name
      modifies this
      ensures Wrote(
                Pending(old(sep)) + Eol(depth, pretty) + Quoted(name) + ":" + (if pretty then " " else []), 0, NUL)
    {
      Eor();
      WriteEol();
      sep := NUL;
      Puts(name);
      out := out + ":";
      if pretty {
        out := out + " ";
      }
      JoinedName(old(out), Pending(old(sep)), Eol(depth, pretty), Quoted(name), if pretty then " " else []);
    }

    /** The value writers that format one word: jsonw_bool, jsonw_null, jsonw_int and jsonw_uint. */
    method Printf(word: string)
      modifies this
      ensures Wrote(Pending(old(sep)) + word, 0, ',')
    {
      Eor();
      out := out + word;
    }

    method WriteString(s: string)
      requires NUL !in s
      modifies this
      ensures Wrote(Pending(old(sep)) + Quoted(s), 0, ',')
    {
      Eor();
      Puts(s);
    }

    /** The calls a program makes to write a whole value. */
    method WriteValue(v: Value)
      requires NoNul(v)
      modifies this
      ensures Wrote(Pending(old(sep)) + Text(v, depth, pretty), 0, ',')
      decreases v, 1
    {
      match v
      case Null => Printf("null");
      case Bool(b) => Printf(if b then "true" else "false");
      case Int(n) => Printf(Decimal(n));
      case String(s) => WriteString(s);
      case Array(xs) =>
        Begin('[');
        WriteItems(xs);
        End(']');
        JoinedContainer(old(out), Pending(old(sep)), '[', Items(xs, depth + 1, pretty, true),
                        Close(xs == [], depth, pretty), ']');
      case Object(fs) =>
        Begin('{');
        WriteFields(fs);
        End('}');
        JoinedContainer(old(out), Pending(old(sep)), '{', Fields(fs, depth + 1, pretty, true),
                        Close(fs == [], depth, pretty), '}');
    }

    method WriteItems(xs: seq<Value>)
      requires NoNul(Array(xs)) && sep == NUL
      modifies this
      ensures Wrote(Items(xs, depth, pretty, true), 0, if xs == [] then NUL else ',')
      decreases xs, 0
    {
      for i := 0 to |xs|
        invariant depth == old(depth) && pretty == old(pretty)
        invariant sep == if i == 0 then NUL else ','
        invariant out + Items(xs[i..], depth, pretty, i == 0) == old(out) + Items(xs, depth, pretty, true)
      {
        ghost var before, element := out, Pending(sep) + Text(xs[i], depth, pretty);
        ItemsStep(xs, i, depth, pretty);
        WriteValue(xs[i]);
        Joined(before, element, Items(xs[i + 1..], depth, pretty, false));
      }
    }

    method WriteFields(fs: seq<Field>)
      requires NoNul(Object(fs)) && sep == NUL
      modifies this
      ensures Wrote(Fields(fs, depth, pretty, true), 0, if fs == [] then NUL else ',')
      decreases fs, 0
    {
      for i := 0 to |fs|
        invariant depth == old(depth) && pretty == old(pretty)
        invariant sep == if i == 0 then NUL else ','
        invariant out + Fields(fs[i..], depth, pretty, i == 0) == old(out) + Fields(fs, depth, pretty, true)
      {
        ghost var before, pending := out, Pending(sep);
        FieldsStep(fs, i, depth, pretty);
        assert fs[i] in fs;
        Name(fs[i].name);
        WriteValue(fs[i].value);
        NamedValue(before, pending, fs[i], depth, pretty);
        Joined(before, pending + FieldText(fs[i], depth, pretty), Fields(fs[i + 1..], depth, pretty, false));
      }
    }

    /** After a reset at depth 0, in either mode, the text added for a value reads back as that value. */
    method WriteNext(v: Value) returns (text: string)
      requires NoNul(v) && depth == 0
      modifies this
      ensures Wrote(text, 0, ',')
      ensures Parse(text) == if Ok(v) then Some(v) else None
    {
      var start := |out|;
      Reset();
      WriteValue(v);
      text := out[start..];
      assert text == Text(v, depth, pretty);
      JsonRoundTrip.DocumentParses(v, 0, pretty, []);
      assert text + [] == text;
    }
  }

  /** One document from a fresh writer to its end. */
  method WriteDocument(v: Value, pretty: bool) returns (text: string)
    requires NoNul(v)
    ensures Parse(text) == if Ok(v) then Some(v) else None
    ensures text == Text(v, 0, pretty) + "\n"
  {
    var w := new JsonWriter();
    w.SetPretty(pretty);
    w.WriteValue(v);
    w.Finish();
    text := w.out;
    assert text == Text(v, 0, pretty) + "\n";
    JsonRoundTrip.DocumentParses(v, 0, pretty, "\n");
  }
}
