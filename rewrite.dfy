/** The rewrite buffer (the part of `magic-string` the annotator uses): a
    fixed original text plus insertions recorded with `appendLeft`, each
    anchored at an offset of the ORIGINAL text, and `toString`, which
    produces the text with every insertion in place. */
module Rewrite {

  /** One recorded `appendLeft`: an offset in the original text and the text
      inserted there. */
  type Insertion = (nat, string)

  /** Every insertion is anchored inside the original text (offset `|s|` is
      the end of the text). */
  predicate AnchorsWithin(s: string, ins: seq<Insertion>) {
    forall k :: 0 <= k < |ins| ==> ins[k].0 <= |s|
  }

  /** The texts recorded at offset `p`, concatenated in the order they were
      recorded. */
  function TextsAt(ins: seq<Insertion>, p: nat): string {
    if ins == [] then ""
    else
      var last := ins[|ins| - 1];
      TextsAt(ins[..|ins| - 1], p) + (if last.0 == p then last.1 else "")
  }

  /** Total length of all inserted texts. */
  function TotalLength(ins: seq<Insertion>): nat {
    if ins == [] then 0 else TotalLength(ins[..|ins| - 1]) + |ins[|ins| - 1].1|
  }

  /** Total length of the texts anchored strictly before offset `p`. */
  function LengthBelow(ins: seq<Insertion>, p: nat): nat {
    if ins == [] then 0
    else
      var last := ins[|ins| - 1];
      LengthBelow(ins[..|ins| - 1], p) + (if last.0 < p then |last.1| else 0)
  }

  /** The output for the first `n` characters of `s`: before each original
      character come the texts anchored at its offset. */
  function Prefix(s: string, ins: seq<Insertion>, n: nat): string
    requires n <= |s|
  {
    if n == 0 then "" else Prefix(s, ins, n - 1) + TextsAt(ins, n - 1) + [s[n - 1]]
  }

  /** The text `toString` produces: the original with every insertion in
      place, texts at the end offset last. */
  function Apply(s: string, ins: seq<Insertion>): string {
    Prefix(s, ins, |s|) + TextsAt(ins, |s|)
  }

  /** The output from original offset `p` on, built from the right. */
  function Suffix(s: string, ins: seq<Insertion>, p: nat): string
    requires p <= |s|
    decreases |s| - p
  {
    if p == |s| then TextsAt(ins, p) else TextsAt(ins, p) + [s[p]] + Suffix(s, ins, p + 1)
  }

  /** Deletes from `out` the texts anchored at offsets `p` to `n - 1`,
      keeping the character after each: knows only the insertion list and
      the length of the original, never the original itself. */
  function Strip(out: string, ins: seq<Insertion>, p: nat, n: nat): string
    decreases n - p
  {
    if p >= n then ""
    else
      var k := |TextsAt(ins, p)|;
      if |out| <= k then "" else [out[k]] + Strip(out[k + 1..], ins, p + 1, n)
  }

  /** `u` inserted into `t` at index `k`. */
  function InsertAt(t: string, k: nat, u: string): string
    requires k <= |t|
  {
    t[..k] + u + t[k..]
  }

  lemma {:induction false} LengthBelowStep(ins: seq<Insertion>, p: nat)
    ensures LengthBelow(ins, p + 1) == LengthBelow(ins, p) + |TextsAt(ins, p)|
    decreases |ins|
  {
    if ins != [] {
      LengthBelowStep(ins[..|ins| - 1], p);
    }
  }

  lemma {:induction false} LengthBelowAll(ins: seq<Insertion>, p: nat)
    requires forall k :: 0 <= k < |ins| ==> ins[k].0 < p
    ensures LengthBelow(ins, p) == TotalLength(ins)
    decreases |ins|
  {
    if ins != [] {
      LengthBelowAll(ins[..|ins| - 1], p);
    }
  }

  lemma {:induction false} LengthBelowZero(ins: seq<Insertion>)
    ensures LengthBelow(ins, 0) == 0
    decreases |ins|
  {
    if ins != [] {
      LengthBelowZero(ins[..|ins| - 1]);
    }
  }

  lemma {:induction false} PrefixLength(s: string, ins: seq<Insertion>, n: nat)
    requires n <= |s|
    ensures |Prefix(s, ins, n)| == n + LengthBelow(ins, n)
  {
    if n == 0 {
      LengthBelowZero(ins);
    } else {
      PrefixLength(s, ins, n - 1);
      LengthBelowStep(ins, n - 1);
      assert Prefix(s, ins, n) == Prefix(s, ins, n - 1) + TextsAt(ins, n - 1) + [s[n - 1]];
    }
  }

  /** The output is as long as the original plus every inserted text. */
  lemma ApplyLength(s: string, ins: seq<Insertion>)
    requires AnchorsWithin(s, ins)
    ensures |Apply(s, ins)| == |s| + TotalLength(ins)
  {
    PrefixLength(s, ins, |s|);
    LengthBelowStep(ins, |s|);
    LengthBelowAll(ins, |s| + 1);
  }

  lemma {:induction false} PrefixNoInsertions(s: string, n: nat)
    requires n <= |s|
    ensures Prefix(s, [], n) == s[..n]
  {
    if n > 0 {
      PrefixNoInsertions(s, n - 1);
      assert s[..n] == s[..n - 1] + [s[n - 1]];
    }
  }

  /** With nothing recorded, the output is the original. */
  lemma ApplyNoInsertions(s: string)
    ensures Apply(s, []) == s
  {
    PrefixNoInsertions(s, |s|);
  }

  /** Building the output from the left and from the right agree at every
      original offset. */
  lemma {:induction false} PrefixSuffix(s: string, ins: seq<Insertion>, p: nat)
    requires p <= |s|
    ensures Prefix(s, ins, p) + Suffix(s, ins, p) == Apply(s, ins)
    decreases |s| - p
  {
    if p < |s| {
      PrefixSuffix(s, ins, p + 1);
    }
  }

  lemma {:induction false} StripSuffix(s: string, ins: seq<Insertion>, p: nat)
    requires p <= |s|
    ensures Strip(Suffix(s, ins, p), ins, p, |s|) == s[p..]
    decreases |s| - p
  {
    if p < |s| {
      var out := Suffix(s, ins, p);
      var k := |TextsAt(ins, p)|;
      assert out[k] == s[p];
      assert out[k + 1..] == Suffix(s, ins, p + 1);
      StripSuffix(s, ins, p + 1);
      assert s[p..] == [s[p]] + s[p + 1..];
    }
  }

  /** Deleting the inserted texts from the output recovers the original. */
  lemma StripApply(s: string, ins: seq<Insertion>)
    ensures Strip(Apply(s, ins), ins, 0, |s|) == s
  {
    PrefixSuffix(s, ins, 0);
    assert Prefix(s, ins, 0) == "";
    assert Suffix(s, ins, 0) == Apply(s, ins);
    StripSuffix(s, ins, 0);
  }

  /** Character `p` of the original appears unchanged in the output, shifted
      by the texts anchored at offsets up to and including `p`. */
  lemma OriginalCharPlacement(s: string, ins: seq<Insertion>, p: nat)
    requires p < |s|
    ensures p + LengthBelow(ins, p + 1) < |Apply(s, ins)|
    ensures Apply(s, ins)[p + LengthBelow(ins, p + 1)] == s[p]
  {
    PrefixSuffix(s, ins, p + 1);
    PrefixLength(s, ins, p + 1);
    var pre := Prefix(s, ins, p + 1);
    assert Apply(s, ins)[..|pre|] == pre;
  }

  /** Just before original offset `p` the output holds exactly the texts
      anchored at `p`, in the order they were recorded. */
  lemma TextsPlacement(s: string, ins: seq<Insertion>, p: nat)
    requires p <= |s|
    ensures LengthBelow(ins, p) + |TextsAt(ins, p)| == LengthBelow(ins, p + 1)
    ensures p + LengthBelow(ins, p + 1) <= |Apply(s, ins)|
    ensures Apply(s, ins)[p + LengthBelow(ins, p) .. p + LengthBelow(ins, p + 1)] == TextsAt(ins, p)
  {
    PrefixSuffix(s, ins, p);
    PrefixLength(s, ins, p);
    LengthBelowStep(ins, p);
    var pre := Prefix(s, ins, p);
    var out := Apply(s, ins);
    assert out == pre + TextsAt(ins, p) + Suffix(s, ins, p)[|TextsAt(ins, p)|..];
  }

  lemma InsertAtConcat(a: string, k: nat, u: string, b: string)
    requires k <= |a|
    ensures InsertAt(a, k, u) + b == InsertAt(a + b, k, u)
  {
    assert (a + b)[..k] == a[..k];
    assert (a + b)[k..] == a[k..] + b;
  }

  lemma TextsAtAppend(ins: seq<Insertion>, o: nat, t: string, p: nat)
    ensures TextsAt(ins + [(o, t)], p) == TextsAt(ins, p) + (if p == o then t else "")
  {
    assert (ins + [(o, t)])[..|ins|] == ins;
  }

  lemma {:induction false} PrefixAppendBelow(s: string, ins: seq<Insertion>, o: nat, t: string, n: nat)
    requires n <= o && n <= |s|
    ensures Prefix(s, ins + [(o, t)], n) == Prefix(s, ins, n)
  {
    if n > 0 {
      PrefixAppendBelow(s, ins, o, t, n - 1);
      TextsAtAppend(ins, o, t, n - 1);
    }
  }

  lemma {:induction false} PrefixAppendAt(s: string, ins: seq<Insertion>, o: nat, t: string)
    requires o < |s|
    ensures Prefix(s, ins + [(o, t)], o + 1)
         == InsertAt(Prefix(s, ins, o + 1), |Prefix(s, ins, o)| + |TextsAt(ins, o)|, t)
  {
    var ins' := ins + [(o, t)];
    PrefixAppendBelow(s, ins, o, t, o);
    TextsAtAppend(ins, o, t, o);
    var a := Prefix(s, ins, o) + TextsAt(ins, o);
    assert Prefix(s, ins, o + 1) == a + [s[o]];
    assert Prefix(s, ins', o + 1) == a + t + [s[o]];
    var b := a + [s[o]];
    assert b[..|a|] == a;
    assert b[|a|..] == [s[o]];
    assert InsertAt(b, |a|, t) == a + t + [s[o]];
  }

  lemma PrefixGrows(s: string, ins: seq<Insertion>, n: nat)
    requires 0 < n <= |s|
    ensures Prefix(s, ins, n) == Prefix(s, ins, n - 1) + (TextsAt(ins, n - 1) + [s[n - 1]])
  {
  }

  lemma {:induction false} PrefixAppendAbove(s: string, ins: seq<Insertion>, o: nat, t: string, n: nat)
    requires o < n <= |s|
    ensures |Prefix(s, ins, o)| + |TextsAt(ins, o)| <= |Prefix(s, ins, n)|
    ensures Prefix(s, ins + [(o, t)], n)
         == InsertAt(Prefix(s, ins, n), |Prefix(s, ins, o)| + |TextsAt(ins, o)|, t)
  {
    var k := |Prefix(s, ins, o)| + |TextsAt(ins, o)|;
    if n == o + 1 {
      PrefixAppendAt(s, ins, o, t);
    } else {
      PrefixAppendAbove(s, ins, o, t, n - 1);
      TextsAtAppend(ins, o, t, n - 1);
      var rest := TextsAt(ins, n - 1) + [s[n - 1]];
      PrefixGrows(s, ins, n);
      PrefixGrows(s, ins + [(o, t)], n);
      InsertAtConcat(Prefix(s, ins, n - 1), k, t, rest);
    }
  }

  /** Appending at the end offset adds the text after everything else. */
  lemma ApplyAppendEnd(s: string, ins: seq<Insertion>, t: string)
    ensures Apply(s, ins + [(|s|, t)]) == Apply(s, ins) + t
  {
    var ins' := ins + [(|s|, t)];
    PrefixAppendBelow(s, ins, |s|, t, |s|);
    TextsAtAppend(ins, |s|, t, |s|);
    assert Apply(s, ins') == Prefix(s, ins', |s|) + TextsAt(ins', |s|);
    assert Apply(s, ins) == Prefix(s, ins, |s|) + TextsAt(ins, |s|);
  }

  /** Appending at an offset inside the text changes only the original part. */
  lemma ApplyAppendInside(s: string, ins: seq<Insertion>, o: nat, t: string)
    requires o < |s|
    ensures |Prefix(s, ins, o)| + |TextsAt(ins, o)| <= |Prefix(s, ins, |s|)|
    ensures Apply(s, ins + [(o, t)])
         == InsertAt(Prefix(s, ins, |s|), |Prefix(s, ins, o)| + |TextsAt(ins, o)|, t)
            + TextsAt(ins, |s|)
  {
    var ins' := ins + [(o, t)];
    PrefixAppendAbove(s, ins, o, t, |s|);
    TextsAtAppend(ins, o, t, |s|);
    assert Apply(s, ins') == Prefix(s, ins', |s|) + TextsAt(ins', |s|);
  }

  lemma ApplyAppendAt(s: string, ins: seq<Insertion>, o: nat, t: string)
    requires o <= |s|
    ensures |Prefix(s, ins, o)| + |TextsAt(ins, o)| <= |Apply(s, ins)|
    ensures Apply(s, ins + [(o, t)])
         == InsertAt(Apply(s, ins), |Prefix(s, ins, o)| + |TextsAt(ins, o)|, t)
  {
    var k := |Prefix(s, ins, o)| + |TextsAt(ins, o)|;
    var out := Apply(s, ins);
    assert out == Prefix(s, ins, |s|) + TextsAt(ins, |s|);
    if o == |s| {
      ApplyAppendEnd(s, ins, t);
      assert out[..k] == out && out[k..] == [];
    } else {
      ApplyAppendInside(s, ins, o, t);
      InsertAtConcat(Prefix(s, ins, |s|), k, t, TextsAt(ins, |s|));
    }
  }

  /** `appendLeft(o, t)` inserts `t` into the current output right after the
      first `o` original characters and every text recorded so far at an
      offset up to `o`: offsets refer to the original text, never to the
      text produced so far, and a later insertion at the same offset follows
      the earlier ones. */
  lemma ApplyAppend(s: string, ins: seq<Insertion>, o: nat, t: string)
    requires o <= |s|
    ensures o + LengthBelow(ins, o + 1) <= |Apply(s, ins)|
    ensures Apply(s, ins + [(o, t)]) == InsertAt(Apply(s, ins), o + LengthBelow(ins, o + 1), t)
  {
    ApplyAppendAt(s, ins, o, t);
    PrefixLength(s, ins, o);
    LengthBelowStep(ins, o);
  }

  /** The `MagicString` object of one transform: the original code and the
      insertions recorded on it so far. */
  class MagicString {
    const original: string
    var inserts: seq<Insertion>

    ghost predicate Valid()
      reads this
    {
      AnchorsWithin(original, inserts)
    }

    /** `new MagicString(code)`. */
    constructor (code: string)
      ensures Valid()
      ensures original == code && inserts == []
    {
      original := code;
      inserts := [];
    }

    /** `appendLeft(index, content)`: records `content` at original offset
        `index`; the output gains `content` after everything already
        anchored at or before `index`. */
    method AppendLeft(index: nat, content: string)
      requires Valid() && index <= |original|
      modifies this
      ensures Valid()
      ensures inserts == old(inserts) + [(index, content)]
      ensures index + LengthBelow(old(inserts), index + 1) <= |old(ToString())|
      ensures ToString()
           == InsertAt(old(ToString()), index + LengthBelow(old(inserts), index + 1), content)
    {
      ApplyAppend(original, inserts, index, content);
      inserts := inserts + [(index, content)];
    }

    /** `toString()`: the original with the recorded insertions in place. */
    function ToString(): (r: string)
      reads this
      requires Valid()
      ensures |r| == |original| + TotalLength(inserts)
      ensures Strip(r, inserts, 0, |original|) == original
    {
      ApplyLength(original, inserts);
      StripApply(original, inserts);
      Apply(original, inserts)
    }
  }
}
