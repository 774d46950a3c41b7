/** The annotation a tag receives: the six `data-component-*` attributes,
    how they are written, and how a consumer reads them back. */
module Annotation {
  import opened Wrappers
  import opened Strings

  /** What one fragment says about one tag: the element's start and end
      offsets, the file's relative path and base name, the resolved component
      name, and the opening tag's line and column. */
  datatype Record = Record(
    start: nat, end: nat,
    path: string, file: string, name: string,
    line: nat, column: nat)

  /** An attribute as written in markup: `key="value"`. */
  type Attr = (string, string)

  /** The element span token `"<start>:<end>"`. */
  function IndexToken(start: nat, end: nat): string {
    NatToString(start) + ":" + NatToString(end)
  }

  /** The six attributes of a record, in the order they are written. */
  function Attrs(r: Record): seq<Attr> {
    [ ("data-component-index", IndexToken(r.start, r.end)),
      ("data-component-path", r.path),
      ("data-component-file", r.file),
      ("data-component-name", r.name),
      ("data-component-line", NatToString(r.line)),
      ("data-component-column", NatToString(r.column)) ]
  }

  /** Attributes written one after another, each preceded by one space and
      its value between double quotes, with no escaping. */
  function Serialize(attrs: seq<Attr>): string {
    if attrs == [] then ""
    else " " + attrs[0].0 + "=\"" + attrs[0].1 + "\"" + Serialize(attrs[1..])
  }

  /** The text inserted after a tag's name. */
  function Fragment(r: Record): (f: string)
    ensures f == " data-component-index=\"" + NatToString(r.start) + ":" + NatToString(r.end)
               + "\" data-component-path=\"" + r.path
               + "\" data-component-file=\"" + r.file
               + "\" data-component-name=\"" + r.name
               + "\" data-component-line=\"" + NatToString(r.line)
               + "\" data-component-column=\"" + NatToString(r.column) + "\""
  {
    FragmentText(r);
    Serialize(Attrs(r))
  }

  lemma Flatten(x0: string, x1: string, x2: string, x3: string, x4: string, x5: string,
                x6: string, x7: string, x8: string, x9: string, x10: string, x11: string,
                x12: string, x13: string, x14: string)
    ensures x0 + (x1 + x2 + x3) + (x4 + x5 + (x6 + x7 + (x8 + x9 + (x10 + x11 + (x12 + x13 + x14)))))
         == x0 + x1 + x2 + x3 + x4 + x5 + x6 + x7 + x8 + x9 + x10 + x11 + x12 + x13 + x14
  {
  }

  /** The closing quote of the value before an attribute, grouped with the
      attribute's own text. */
  lemma SerializeStep(lit: string, key: string, value: string, rest: seq<Attr>)
    requires lit == "\"" + " " + key + "=\""
    ensures "\"" + Serialize([(key, value)] + rest) == lit + value + ("\"" + Serialize(rest))
  {
    assert ([(key, value)] + rest)[1..] == rest;
  }

  lemma TailColumn(col: string)
    ensures "\"" + Serialize([("data-component-column", col)]) == "\" data-component-column=\"" + col + "\""
  {
    assert "\" data-component-column=\"" == "\"" + " " + "data-component-column" + "=\"";
    assert [("data-component-column", col)] == [("data-component-column", col)] + [];
    SerializeStep("\" data-component-column=\"", "data-component-column", col, []);
  }

  lemma TailLine(line: string, col: string)
    ensures "\"" + Serialize([("data-component-line", line), ("data-component-column", col)]) == "\" data-component-line=\"" + line + ("\" data-component-column=\"" + col + "\"")
  {
    assert "\" data-component-line=\"" == "\"" + " " + "data-component-line" + "=\"";
    assert [("data-component-line", line), ("data-component-column", col)] == [("data-component-line", line)] + [("data-component-column", col)];
    SerializeStep("\" data-component-line=\"", "data-component-line", line, [("data-component-column", col)]);
    TailColumn(col);
  }

  lemma TailName(name: string, line: string, col: string)
    ensures "\"" + Serialize([("data-component-name", name), ("data-component-line", line), ("data-component-column", col)]) == "\" data-component-name=\"" + name + ("\" data-component-line=\"" + line + ("\" data-component-column=\"" + col + "\""))
  {
    assert "\" data-component-name=\"" == "\"" + " " + "data-component-name" + "=\"";
    assert [("data-component-name", name), ("data-component-line", line), ("data-component-column", col)] == [("data-component-name", name)] + [("data-component-line", line), ("data-component-column", col)];
    SerializeStep("\" data-component-name=\"", "data-component-name", name, [("data-component-line", line), ("data-component-column", col)]);
    TailLine(line, col);
  }

  lemma TailFile(file: string, name: string, line: string, col: string)
    ensures "\"" + Serialize([("data-component-file", file), ("data-component-name", name), ("data-component-line", line), ("data-component-column", col)]) == "\" data-component-file=\"" + file + ("\" data-component-name=\"" + name + ("\" data-component-line=\"" + line + ("\" data-component-column=\"" + col + "\"")))
  {
    assert "\" data-component-file=\"" == "\"" + " " + "data-component-file" + "=\"";
    assert [("data-component-file", file), ("data-component-name", name), ("data-component-line", line), ("data-component-column", col)] == [("data-component-file", file)] + [("data-component-name", name), ("data-component-line", line), ("data-component-column", col)];
    SerializeStep("\" data-component-file=\"", "data-component-file", file, [("data-component-name", name), ("data-component-line", line), ("data-component-column", col)]);
    TailName(name, line, col);
  }

  lemma TailPath(path: string, file: string, name: string, line: string, col: string)
    ensures "\"" + Serialize([("data-component-path", path), ("data-component-file", file), ("data-component-name", name), ("data-component-line", line), ("data-component-column", col)]) == "\" data-component-path=\"" + path + ("\" data-component-file=\"" + file + ("\" data-component-name=\"" + name + ("\" data-component-line=\"" + line + ("\" data-component-column=\"" + col + "\""))))
  {
    assert "\" data-component-path=\"" == "\"" + " " + "data-component-path" + "=\"";
    assert [("data-component-path", path), ("data-component-file", file), ("data-component-name", name), ("data-component-line", line), ("data-component-column", col)] == [("data-component-path", path)] + [("data-component-file", file), ("data-component-name", name), ("data-component-line", line), ("data-component-column", col)];
    SerializeStep("\" data-component-path=\"", "data-component-path", path, [("data-component-file", file), ("data-component-name", name), ("data-component-line", line), ("data-component-column", col)]);
    TailFile(file, name, line, col);
  }

  lemma FragmentText(r: Record)
    ensures Serialize(Attrs(r))
         == " data-component-index=\"" + NatToString(r.start) + ":" + NatToString(r.end)
            + "\" data-component-path=\"" + r.path
            + "\" data-component-file=\"" + r.file
            + "\" data-component-name=\"" + r.name
            + "\" data-component-line=\"" + NatToString(r.line)
            + "\" data-component-column=\"" + NatToString(r.column) + "\""
  {
    var idx, line, col := IndexToken(r.start, r.end), NatToString(r.line), NatToString(r.column);
    var path, file, name := r.path, r.file, r.name;
    var rest := [("data-component-path", path), ("data-component-file", file), ("data-component-name", name), ("data-component-line", line), ("data-component-column", col)];
    assert Attrs(r) == [("data-component-index", idx)] + rest;
    assert Serialize(Attrs(r)) == " data-component-index=\"" + idx + ("\"" + Serialize(rest)) by {
      assert " data-component-index=\"" == " " + "data-component-index" + "=\"";
    }
    TailPath(path, file, name, line, col);
    Flatten(" data-component-index=\"", NatToString(r.start), ":", NatToString(r.end),
            "\" data-component-path=\"", path, "\" data-component-file=\"", file,
            "\" data-component-name=\"", name, "\" data-component-line=\"", line,
            "\" data-component-column=\"", col, "\"");
  }

  /** Reads one ` key="value"` attribute off the front of `s`: a key ends
      at the first `=` and a value at the first `"`; gives the attribute and
      what follows it. */
  function ParseAttr(s: string): (r: Option<(Attr, string)>)
    ensures r.Some? ==> |r.value.1| < |s|
  {
    if s == [] || s[0] != ' ' then None
    else
      var body := s[1..];
      match IndexOf(body, '=')
      case None => None
      case Some(i) =>
        var after := body[i + 1..];
        if after == [] || after[0] != '"' then None
        else
          var quoted := after[1..];
          match IndexOf(quoted, '"')
          case None => None
          case Some(j) => Some(((body[..i], quoted[..j]), quoted[j + 1..]))
  }

  /** Reads a run of attributes to the end of `s`. */
  function ParseAttrs(s: string): Option<seq<Attr>>
    decreases |s|
  {
    if s == [] then Some([])
    else
      match ParseAttr(s)
      case None => None
      case Some((a, rest)) =>
        match ParseAttrs(rest)
        case None => None
        case Some(more) => Some([a] + more)
  }

  /** Reads an element span token back into its two offsets. */
  function ParseIndex(s: string): Option<(nat, nat)> {
    match IndexOf(s, ':')
    case None => None
    case Some(i) =>
      if IsDigits(s[..i]) && IsDigits(s[i + 1..])
      then Some((ParseNat(s[..i]), ParseNat(s[i + 1..])))
      else None
  }

  /** What a consumer of the markup (an element inspector) recovers from a
      fragment: the six attributes, in order, with well-formed values. */
  function Decode(f: string): Option<Record> {
    match ParseAttrs(f)
    case None => None
    case Some(a) =>
      if |a| == 6
         && a[0].0 == "data-component-index" && a[1].0 == "data-component-path"
         && a[2].0 == "data-component-file" && a[3].0 == "data-component-name"
         && a[4].0 == "data-component-line" && a[5].0 == "data-component-column"
         && ParseIndex(a[0].1).Some? && IsDigits(a[4].1) && IsDigits(a[5].1)
      then
        var span := ParseIndex(a[0].1).value;
        Some(Record(span.0, span.1, a[1].1, a[2].1, a[3].1, ParseNat(a[4].1), ParseNat(a[5].1)))
      else None
  }

  lemma Reassociate(sp: string, key: string, eq: string, q: string, value: string, rest: string)
    ensures sp + key + (eq + q) + value + q + rest == sp + (key + eq + (q + (value + q + rest)))
  {
  }

  lemma WrittenShape(key: string, value: string, rest: string)
    ensures var s := " " + key + "=\"" + value + "\"" + rest;
            s[0] == ' ' && s[1..] == key + ['='] + (['"'] + (value + ['"'] + rest))
  {
    assert "=\"" == "=" + "\"";
    Reassociate(" ", key, "=", "\"", value, rest);
  }

  /** An attribute written in front of `rest` is read back, leaving `rest`. */
  lemma ParseAttrWritten(key: string, value: string, rest: string)
    requires '=' !in key && '"' !in value
    ensures ParseAttr(" " + key + "=\"" + value + "\"" + rest) == Some(((key, value), rest))
  {
    WrittenShape(key, value, rest);
    IndexOfAfter(key, '=', ['"'] + (value + ['"'] + rest));
    IndexOfAfter(value, '"', rest);
  }

  /** Keys without `=` and values without `"` are read back as written. */
  lemma {:induction false} ParseSerialize(attrs: seq<Attr>)
    requires forall k :: 0 <= k < |attrs| ==> '=' !in attrs[k].0 && '"' !in attrs[k].1
    ensures ParseAttrs(Serialize(attrs)) == Some(attrs)
    decreases |attrs|
  {
    if attrs != [] {
      ParseSerialize(attrs[1..]);
      ParseAttrWritten(attrs[0].0, attrs[0].1, Serialize(attrs[1..]));
      assert attrs == [attrs[0]] + attrs[1..];
    }
  }

  /** A span token reads back as the two offsets it was made from. */
  lemma ParseIndexToken(start: nat, end: nat)
    ensures ParseIndex(IndexToken(start, end)) == Some((start, end))
  {
    var a, b := NatToString(start), NatToString(end);
    assert ':' !in a;
    IndexOfAfter(a, ':', b);
    var s := a + ":" + b;
    assert s[..|a|] == a;
    assert s[|a| + 1..] == b;
    ParseNatToString(start);
    ParseNatToString(end);
  }

  /** Digits are never a double quote. */
  lemma DigitsHaveNoQuote(s: string)
    requires IsDigits(s)
    ensures '"' !in s
  {
  }

  /** A consumer reads back from a fragment exactly the record it was written
      from, provided the path, file name and component name hold no double
      quote (nothing is escaped). */
  lemma DecodeFragment(r: Record)
    requires '"' !in r.path && '"' !in r.file && '"' !in r.name
    ensures Decode(Fragment(r)) == Some(r)
  {
    var a := Attrs(r);
    DigitsHaveNoQuote(NatToString(r.start));
    DigitsHaveNoQuote(NatToString(r.end));
    DigitsHaveNoQuote(NatToString(r.line));
    DigitsHaveNoQuote(NatToString(r.column));
    assert '"' !in IndexToken(r.start, r.end);
    assert forall k :: 0 <= k < 6 ==> '=' !in a[k].0;
    ParseSerialize(a);
    ParseIndexToken(r.start, r.end);
    ParseNatToString(r.line);
    ParseNatToString(r.column);
    assert Fragment(r) == Serialize(a);
    assert ParseAttrs(Fragment(r)) == Some(a);
  }
}
