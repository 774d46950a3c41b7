/** The name resolver: the display string of a JSX tag's name
    (`getComponentName`). */
module JsxNames {
  import opened Wrappers
  import opened Strings

  /** The three shapes a JSX tag name takes: `<Foo>`, `<Foo.Bar>` (an object
      name and a property identifier) and `<ns:tag>`. */
  datatype JsxName =
    | Ident(id: string)
    | Member(obj: JsxName, prop: string)
    | Namespaced(ns: string, local: string)

  /** The resolved component name: an identifier is its own text, a member
      name is the object's resolved name, a dot and the property, and a
      namespaced name (any other shape) is the empty string. */
  function ComponentName(n: JsxName): string {
    match n
    case Ident(s) => s
    case Member(o, p) => ComponentName(o) + "." + p
    case Namespaced(_, _) => ""
  }

  /** The identifiers of a dotted name, outermost object first; `None` when
      the chain does not bottom out in an identifier. */
  function Parts(n: JsxName): (r: Option<seq<string>>)
    ensures r.Some? ==> |r.value| > 0
  {
    match n
    case Ident(s) => Some([s])
    case Member(o, p) =>
      (match Parts(o)
       case Some(ps) => Some(ps + [p])
       case None => None)
    case Namespaced(_, _) => None
  }

  /** The dotted name `p0.p1. ... .pk`, as the parser nests it: each member
      expression's object is the name to its left. */
  function Dotted(parts: seq<string>): JsxName
    requires |parts| > 0
  {
    if |parts| == 1 then Ident(parts[0])
    else Member(Dotted(parts[..|parts| - 1]), parts[|parts| - 1])
  }

  /** A simple identifier resolves to its own text. */
  lemma IdentResolvesToText(s: string)
    ensures ComponentName(Ident(s)) == s
  {
  }

  /** A namespaced name resolves to the empty string. */
  lemma NamespacedResolvesToEmpty(ns: string, local: string)
    ensures ComponentName(Namespaced(ns, local)) == ""
  {
  }

  /** `<Foo.Bar.Baz />` resolves to "Foo.Bar.Baz". */
  lemma ThreePartName()
    ensures ComponentName(Member(Member(Ident("Foo"), "Bar"), "Baz")) == "Foo.Bar.Baz"
  {
  }

  /** Building a dotted name and taking it apart again are inverse. */
  lemma {:induction false} PartsOfDotted(parts: seq<string>)
    requires |parts| > 0
    ensures Parts(Dotted(parts)) == Some(parts)
    decreases |parts|
  {
    if |parts| == 1 {
      assert parts == [parts[0]];
    } else {
      PartsOfDotted(parts[..|parts| - 1]);
      assert parts[..|parts| - 1] + [parts[|parts| - 1]] == parts;
    }
  }

  /** Every name made only of identifiers is the dotted name of its parts. */
  lemma {:induction false} DottedOfParts(n: JsxName)
    requires Parts(n).Some?
    ensures Dotted(Parts(n).value) == n
  {
    match n
    case Ident(_) =>
    case Member(o, p) =>
      DottedOfParts(o);
      var ps := Parts(o).value + [p];
      assert ps[..|ps| - 1] == Parts(o).value;
  }

  /** A dotted name resolves to its identifiers joined with dots, recursing
      on the object side. */
  lemma {:induction false} ComponentNameJoinsParts(n: JsxName)
    requires Parts(n).Some?
    ensures ComponentName(n) == Join(Parts(n).value, '.')
  {
    match n
    case Ident(_) =>
    case Member(o, p) =>
      ComponentNameJoinsParts(o);
      JoinSnoc(Parts(o).value, p, '.');
  }

  /** Since JSX identifiers hold no dot, the resolved name of a dotted name
      determines the name: splitting it on dots gives back its identifiers. */
  lemma SplitComponentName(n: JsxName)
    requires Parts(n).Some?
    requires forall k :: 0 <= k < |Parts(n).value| ==> '.' !in Parts(n).value[k]
    ensures Split(ComponentName(n), '.') == Parts(n).value
  {
    ComponentNameJoinsParts(n);
    SplitJoin(Parts(n).value, '.');
  }

  /** A name whose innermost object is not an identifier degrades without
      failing: it resolves to "" or to a string that starts with a dot. */
  lemma {:induction false} UnresolvableRoot(n: JsxName)
    requires Parts(n).None?
    ensures ComponentName(n) == "" || ComponentName(n)[0] == '.'
  {
    match n
    case Namespaced(_, _) =>
    case Member(o, p) =>
      UnresolvableRoot(o);
  }
}
