/** The plugin's `transform` hook: the file gate, the `JSXOpeningElement`
    visitor and the rewrite of one module's code. */
module Tagger {
  import opened Wrappers
  import opened Strings
  import opened JsxNames
  import opened Annotation
  import opened Rewrite

  /** `reactComponentTagger({ exclude, extensions })`. */
  datatype Options = Options(exclude: seq<string>, extensions: seq<string>)

  /** The options when none are given. */
  const DefaultOptions := Options([], [".jsx", ".tsx"])

  /** A JSX opening tag as the traversal meets it, in document order: its
      name, the start and end offsets of its parent node (the whole element),
      the line and column where the tag starts, and the end offset of its
      name. The parser may leave any location unset. */
  datatype Tag = Tag(
    name: JsxName,
    parentStart: Option<nat>, parentEnd: Option<nat>,
    line: Option<nat>, column: Option<nat>,
    nameEnd: Option<nat>)

  /** What parsing the module's code gives: a syntax error, or its opening
      tags in document order. */
  datatype Parsed = SyntaxError | Tree(tags: seq<Tag>)

  /** What `transform` returns: `undefined` for a file it does not handle,
      `null` when parsing fails, or the rewritten code. */
  datatype TransformResult = Skipped | Failed | Transformed(code: string)

  /** JavaScript's `x ?? 0` on an optional location. */
  function OrZero(o: Option<nat>): nat {
    match o
    case Some(v) => v
    case None => 0
  }

  /** `id` without the `/` characters at its end. */
  function TrimTrailingSlashes(id: string): (r: string)
    ensures |r| <= |id| && r == id[..|r|]
    ensures r == [] || r[|r| - 1] != '/'
    ensures forall k :: |r| <= k < |id| ==> id[k] == '/'
    decreases |id|
  {
    if id != [] && id[|id| - 1] == '/' then TrimTrailingSlashes(id[..|id| - 1]) else id
  }

  /** POSIX `path.basename(id)`: the last path segment, trailing slashes
      ignored. */
  function Basename(id: string): (b: string)
    ensures forall k :: 0 <= k < |b| ==> b[k] != '/'
  {
    var p := TrimTrailingSlashes(id);
    match LastIndexOf(p, '/')
    case None => p
    case Some(i) => p[i + 1..]
  }

  /** POSIX `path.extname(id)`: the base name from its last dot on; empty
      when the base name has no dot, when its only leading dot is that dot,
      and for `..`. */
  function ExtName(id: string): (e: string)
    ensures e != "" ==> e[0] == '.'
    ensures forall k :: 0 <= k < |e| ==> e[k] != '/'
    ensures forall k :: 1 <= k < |e| ==> e[k] != '.'
  {
    var b := Basename(id);
    match LastIndexOf(b, '.')
    case None => ""
    case Some(i) => if i == 0 || b == ".." then "" else b[i..]
  }

  /** The gate at the top of `transform`: the file is handled iff its id does
      not contain `node_modules` and its extension is one of `extensions`. */
  predicate Eligible(id: string, opts: Options) {
    !Contains(id, "node_modules") && ExtName(id) in opts.extensions
  }

  /** Every tag's name ends inside the code (the parser's offsets always do). */
  predicate AnchorsInside(code: string, tags: seq<Tag>) {
    forall t :: t in tags ==> OrZero(t.nameEnd) <= |code|
  }

  /** `exclude.includes(name)` on the tag's resolved name. */
  predicate Excluded(t: Tag, exclude: seq<string>) {
    ComponentName(t.name) in exclude
  }

  /** The record a tag is annotated with; each missing location is 0. */
  function RecordOf(t: Tag, filepath: string, filename: string): Record {
    Record(OrZero(t.parentStart), OrZero(t.parentEnd), filepath, filename,
           ComponentName(t.name), OrZero(t.line), OrZero(t.column))
  }

  /** The insertion the visitor records for a tag it does not skip: its
      fragment, at the end of the tag's name (0 when that is unknown). */
  function InsertionFor(t: Tag, filepath: string, filename: string): Insertion {
    (OrZero(t.nameEnd), Fragment(RecordOf(t, filepath, filename)))
  }

  /** The insertions the traversal records, in visiting order. */
  function Insertions(tags: seq<Tag>, filepath: string, filename: string, exclude: seq<string>)
    : seq<Insertion>
  {
    if tags == [] then []
    else
      var t := tags[|tags| - 1];
      Insertions(tags[..|tags| - 1], filepath, filename, exclude)
        + (if Excluded(t, exclude) then [] else [InsertionFor(t, filepath, filename)])
  }

  /** The tags whose resolved name is not excluded, in document order. */
  function Included(tags: seq<Tag>, exclude: seq<string>): seq<Tag> {
    if tags == [] then []
    else (if Excluded(tags[0], exclude) then [] else [tags[0]]) + Included(tags[1..], exclude)
  }

  /** The body of the `JSXOpeningElement` visitor for one tag. */
  method Visit(magic: MagicString, t: Tag, filepath: string, filename: string, exclude: seq<string>)
    requires magic.Valid() && OrZero(t.nameEnd) <= |magic.original|
    modifies magic
    ensures magic.Valid()
    ensures Excluded(t, exclude) ==> magic.inserts == old(magic.inserts)
    ensures !Excluded(t, exclude)
            ==> magic.inserts == old(magic.inserts) + [InsertionFor(t, filepath, filename)]
  {
    var start := OrZero(t.parentStart);
    var end := OrZero(t.parentEnd);
    var line := OrZero(t.line);
    var column := OrZero(t.column);
    var name := ComponentName(t.name);
    if name in exclude {
      return;
    }
    magic.AppendLeft(OrZero(t.nameEnd), Fragment(Record(start, end, filepath, filename, name, line, column)));
  }

  /** The `try` block of `transform` once parsing succeeded: a fresh
      `MagicString` over the code, the visitor run on every opening tag in
      document order, then `toString()`. */
  method Annotate(code: string, tags: seq<Tag>, filepath: string, filename: string, exclude: seq<string>)
    returns (out: string)
    requires AnchorsInside(code, tags)
    ensures out == Apply(code, Insertions(tags, filepath, filename, exclude))
  {
    var magic := new MagicString(code);
    var i := 0;
    while i < |tags|
      invariant 0 <= i <= |tags|
      invariant magic.original == code && magic.Valid()
      invariant magic.inserts == Insertions(tags[..i], filepath, filename, exclude)
    {
      assert tags[..i + 1][..i] == tags[..i];
      Visit(magic, tags[i], filepath, filename, exclude);
      i := i + 1;
    }
    assert tags[..|tags|] == tags;
    out := magic.ToString();
  }

  /** `transform(code, id)`. The parse of `code` and `path.relative(cwd, id)`
      (`filepath`) come from outside. */
  method Transform(code: string, id: string, filepath: string, opts: Options, parsed: Parsed)
    returns (r: TransformResult)
    requires parsed.Tree? ==> AnchorsInside(code, parsed.tags)
    ensures r == Skipped <==> !Eligible(id, opts)
    ensures r == Failed <==> Eligible(id, opts) && parsed == SyntaxError
    ensures r.Transformed? ==>
              parsed.Tree?
              && r.code == Apply(code, Insertions(parsed.tags, filepath, Basename(id), opts.exclude))
  {
    if Contains(id, "node_modules") || ExtName(id) !in opts.extensions {
      return Skipped;
    }
    var filename := Basename(id);
    match parsed {
      case SyntaxError =>
        return Failed;
      case Tree(tags) =>
        var out := Annotate(code, tags, filepath, filename, opts.exclude);
        return Transformed(out);
    }
  }

  // ----- The traversal's insertions -----

  lemma ConcatAssoc<T>(x: seq<T>, y: seq<T>, z: seq<T>)
    ensures (x + y) + z == x + (y + z)
  {
  }

  lemma {:induction false} InsertionsAppend(a: seq<Tag>, b: seq<Tag>, filepath: string, filename: string, exclude: seq<string>)
    ensures Insertions(a + b, filepath, filename, exclude)
         == Insertions(a, filepath, filename, exclude) + Insertions(b, filepath, filename, exclude)
    decreases |b|
  {
    if b == [] {
      assert a + b == a;
    } else {
      var b', t := b[..|b| - 1], b[|b| - 1];
      var mine := if Excluded(t, exclude) then [] else [InsertionFor(t, filepath, filename)];
      var ia, ib' := Insertions(a, filepath, filename, exclude), Insertions(b', filepath, filename, exclude);
      assert (a + b)[..|a + b| - 1] == a + b' && (a + b)[|a + b| - 1] == t;
      assert Insertions(a + b, filepath, filename, exclude)
          == Insertions(a + b', filepath, filename, exclude) + mine;
      assert Insertions(b, filepath, filename, exclude) == ib' + mine;
      InsertionsAppend(a, b', filepath, filename, exclude);
      ConcatAssoc(ia, ib', mine);
    }
  }

  /** Peeling the first tag off the traversal. */
  lemma InsertionsFirst(tags: seq<Tag>, filepath: string, filename: string, exclude: seq<string>)
    requires tags != []
    ensures Insertions(tags, filepath, filename, exclude)
         == (if Excluded(tags[0], exclude) then [] else [InsertionFor(tags[0], filepath, filename)])
            + Insertions(tags[1..], filepath, filename, exclude)
  {
    var head := [tags[0]];
    assert head + tags[1..] == tags;
    assert Insertions(head, filepath, filename, exclude)
        == (if Excluded(tags[0], exclude) then [] else [InsertionFor(tags[0], filepath, filename)]) by {
      assert head[..0] == [];
    }
    InsertionsAppend(head, tags[1..], filepath, filename, exclude);
  }

  /** The traversal records exactly one insertion per tag that is not
      excluded, in document order: the k-th insertion belongs to the k-th
      such tag. */
  lemma {:induction false} InsertionsFollowIncluded(tags: seq<Tag>, filepath: string, filename: string, exclude: seq<string>)
    ensures |Insertions(tags, filepath, filename, exclude)| == |Included(tags, exclude)|
    ensures forall k :: 0 <= k < |Included(tags, exclude)| ==>
              Insertions(tags, filepath, filename, exclude)[k]
              == InsertionFor(Included(tags, exclude)[k], filepath, filename)
    decreases |tags|
  {
    if tags != [] {
      var ins, insRest := Insertions(tags, filepath, filename, exclude), Insertions(tags[1..], filepath, filename, exclude);
      var inc, incRest := Included(tags, exclude), Included(tags[1..], exclude);
      InsertionsFirst(tags, filepath, filename, exclude);
      InsertionsFollowIncluded(tags[1..], filepath, filename, exclude);
      if !Excluded(tags[0], exclude) {
        assert ins == [InsertionFor(tags[0], filepath, filename)] + insRest;
        assert inc == [tags[0]] + incRest;
        forall k | 0 <= k < |inc| ensures ins[k] == InsertionFor(inc[k], filepath, filename) {
          if k > 0 {
            assert ins[k] == insRest[k - 1] && inc[k] == incRest[k - 1];
          }
        }
      } else {
        assert ins == insRest && inc == incRest;
      }
    }
  }

  /** An excluded tag records nothing and leaves every other tag's insertion
      as it was. */
  lemma ExcludedTagIgnored(a: seq<Tag>, t: Tag, b: seq<Tag>, filepath: string, filename: string, exclude: seq<string>)
    requires Excluded(t, exclude)
    ensures Insertions(a + [t] + b, filepath, filename, exclude)
         == Insertions(a + b, filepath, filename, exclude)
  {
    InsertionsAppend(a + [t], b, filepath, filename, exclude);
    InsertionsAppend(a, b, filepath, filename, exclude);
    assert (a + [t])[..|a + [t]| - 1] == a;
    assert Insertions(a + [t], filepath, filename, exclude) == Insertions(a, filepath, filename, exclude);
  }

  /** Every insertion is anchored at the end of a tag's name, and, when the
      path, file name and tag names hold no double quote, its fragment reads
      back as that tag's record. */
  lemma InsertionsDecode(tags: seq<Tag>, filepath: string, filename: string, exclude: seq<string>, k: nat)
    requires k < |Included(tags, exclude)|
    requires '"' !in filepath && '"' !in filename
    requires forall t :: t in tags ==> '"' !in ComponentName(t.name)
    ensures k < |Insertions(tags, filepath, filename, exclude)|
    ensures Insertions(tags, filepath, filename, exclude)[k].0
         == OrZero(Included(tags, exclude)[k].nameEnd)
    ensures Decode(Insertions(tags, filepath, filename, exclude)[k].1)
         == Some(RecordOf(Included(tags, exclude)[k], filepath, filename))
  {
    InsertionsFollowIncluded(tags, filepath, filename, exclude);
    IncludedSubset(tags, exclude);
    DecodeFragment(RecordOf(Included(tags, exclude)[k], filepath, filename));
  }

  lemma {:induction false} IncludedSubset(tags: seq<Tag>, exclude: seq<string>)
    ensures forall t :: t in Included(tags, exclude) ==> t in tags && !Excluded(t, exclude)
    decreases |tags|
  {
    if tags != [] {
      IncludedSubset(tags[1..], exclude);
    }
  }

  // ----- The rewritten code -----

  /** The rewritten code is the original with the fragments in place: as
      long as the code plus every fragment, and deleting the fragments gives
      back the code. */
  lemma OutputPreservesCode(code: string, tags: seq<Tag>, filepath: string, filename: string, exclude: seq<string>)
    requires AnchorsInside(code, tags)
    ensures var ins := Insertions(tags, filepath, filename, exclude);
            |Apply(code, ins)| == |code| + TotalLength(ins)
            && Strip(Apply(code, ins), ins, 0, |code|) == code
  {
    var ins := Insertions(tags, filepath, filename, exclude);
    IncludedSubset(tags, exclude);
    InsertionsFollowIncluded(tags, filepath, filename, exclude);
    assert AnchorsWithin(code, ins) by {
      forall k | 0 <= k < |ins| ensures ins[k].0 <= |code| {
        assert Included(tags, exclude)[k] in tags;
      }
    }
    ApplyLength(code, ins);
    StripApply(code, ins);
  }

  /** With every tag excluded (or none at all) the code comes out unchanged. */
  lemma NothingIncludedUnchanged(code: string, tags: seq<Tag>, filepath: string, filename: string, exclude: seq<string>)
    requires forall t :: t in tags ==> Excluded(t, exclude)
    ensures Apply(code, Insertions(tags, filepath, filename, exclude)) == code
  {
    assert Included(tags, exclude) == [] by {
      IncludedSubset(tags, exclude);
      if Included(tags, exclude) != [] {
        assert Included(tags, exclude)[0] in Included(tags, exclude);
      }
    }
    InsertionsFollowIncluded(tags, filepath, filename, exclude);
    ApplyNoInsertions(code);
  }

  // ----- The file gate -----

  /** A file name `stem + ext` after a directory part has extension `ext`
      when the stem is not empty and `ext` is a dot and at least one more
      character, none of them a dot or a slash. */
  lemma ExtNameOfFile(dir: string, stem: string, ext: string)
    requires dir == [] || dir[|dir| - 1] == '/'
    requires |stem| > 0 && forall k :: 0 <= k < |stem| ==> stem[k] != '/'
    requires |ext| >= 2 && ext[0] == '.'
    requires forall k :: 0 <= k < |ext| ==> ext[k] != '/'
    requires forall k :: 1 <= k < |ext| ==> ext[k] != '.'
    ensures Basename(dir + stem + ext) == stem + ext
    ensures ExtName(dir + stem + ext) == ext
  {
    var name := stem + ext;
    assert dir + stem + ext == dir + name;
    BasenameAfterDir(dir, name);
    assert name[|stem|] == '.';
    assert forall k :: |stem| < k < |name| ==> name[k] == ext[k - |stem|];
    var i := LastIndexOf(name, '.').value;
    assert i == |stem|;
    assert name[i..] == ext;
    assert name != "..";
  }

  lemma BasenameAfterDir(dir: string, name: string)
    requires dir == [] || dir[|dir| - 1] == '/'
    requires |name| > 0 && forall k :: 0 <= k < |name| ==> name[k] != '/'
    ensures Basename(dir + name) == name
  {
    var s := dir + name;
    assert s[|s| - 1] == name[|name| - 1];
    assert TrimTrailingSlashes(s) == s;
    assert forall k :: |dir| <= k < |s| ==> s[k] == name[k - |dir|];
    if dir == [] {
      assert s == name;
    } else {
      var i := LastIndexOf(s, '/').value;
      assert s[|dir| - 1] == '/';
      assert i == |dir| - 1;
      assert s[i + 1..] == name;
    }
  }

  /** A file name that starts with its only dot (`.eslintrc`) has no
      extension. */
  lemma DotFileHasNoExtension(dir: string, name: string)
    requires dir == [] || dir[|dir| - 1] == '/'
    requires |name| > 0 && forall k :: 0 <= k < |name| ==> name[k] != '/'
    requires name[0] == '.' && forall k :: 1 <= k < |name| ==> name[k] != '.'
    ensures ExtName(dir + name) == ""
  {
    BasenameAfterDir(dir, name);
  }

  /** Such a file is never handled unless the caller allows the empty
      extension. */
  lemma DotFileSkipped(dir: string, name: string, opts: Options)
    requires dir == [] || dir[|dir| - 1] == '/'
    requires |name| > 0 && forall k :: 0 <= k < |name| ==> name[k] != '/'
    requires name[0] == '.' && forall k :: 1 <= k < |name| ==> name[k] != '.'
    requires "" !in opts.extensions
    ensures !Eligible(dir + name, opts)
  {
    DotFileHasNoExtension(dir, name);
  }

  /** With the default options a `.jsx` or `.tsx` file is handled exactly
      when its id does not contain `node_modules`, and a file with any other
      extension is never handled. */
  lemma DefaultGate(dir: string, stem: string, ext: string)
    requires dir == [] || dir[|dir| - 1] == '/'
    requires |stem| > 0 && forall k :: 0 <= k < |stem| ==> stem[k] != '/'
    requires |ext| >= 2 && ext[0] == '.'
    requires forall k :: 0 <= k < |ext| ==> ext[k] != '/'
    requires forall k :: 1 <= k < |ext| ==> ext[k] != '.'
    ensures Eligible(dir + stem + ext, DefaultOptions)
        <==> !Contains(dir + stem + ext, "node_modules") && (ext == ".jsx" || ext == ".tsx")
  {
    ExtNameOfFile(dir, stem, ext);
  }
}
