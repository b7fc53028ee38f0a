/** The two appends in sequence, and what happens when they meet their own output. */
module PolicyPipeline {
  import opened Wrappers
  import opened Sequences
  import opened Text
  import opened LineKeys
  import opened PolicyMerge

  // ---------------------------------------------------------------- nothing is appended twice

  lemma KeptLine(ln: string)
    ensures Norm(RStrip(ln)) == Norm(ln) && Strip(RStrip(ln)) == Strip(ln)
  {
    hide Norm, Strip, RStrip;
    StripOfRStrip(ln);
    SameKey(ln, RStrip(ln));
  }

  /** Whatever a file holds, held against it again, is not wanted. */
  lemma KnownLine(ln: string, ls: seq<string>, known: Known)
    requires known.tgtKeys == Keys(ls) && (ln in ls || RStrip(ln) in ls)
    ensures !Wanted(ln, known)
  {
    hide Norm, Strip, RStrip, TypeName;
    KeptLine(ln);
    var l := if ln in ls then ln else RStrip(ln);
    assert Norm(l) == "" || Norm(l) in Keys(ls);
  }

  /** A text that holds the target's lines and the delta leaves nothing of the donor to append. */
  lemma NothingLeft(name: string, base: string, donor: string, tgt: string, t: string)
    requires forall l <- Lines(tgt) :: l in Lines(t)
    requires forall d <- Delta(Lines(donor), KnownOf(name, base, tgt)) :: d in Lines(t)
    ensures Delta(Lines(donor), KnownOf(name, base, t)) == []
  {
    hide Lines, Norm, Strip, RStrip, TypeName, Delta;
    var known, known' := KnownOf(name, base, tgt), KnownOf(name, base, t);
    assert known.tgtKeys <= known'.tgtKeys && known.tgtTypes <= known'.tgtTypes;
    forall ln | ln in Lines(donor)
      ensures !Wanted(ln, known')
    {
      if Wanted(ln, known) {
        DeltaMembers(Lines(donor), known, RStrip(ln));
        KnownLine(ln, Lines(t), known');
      }
    }
    DeltaEmpty(Lines(donor), known');
  }

  /** A text that holds every donor line leaves nothing of it to append. */
  lemma NothingLeftOfGraft(name: string, base: string, donor: string, t: string)
    requires forall l <- Lines(donor) :: l in Lines(t)
    ensures Delta(Lines(donor), KnownOf(name, base, t)) == []
  {
    hide Lines, Delta, Wanted;
    forall ln | ln in Lines(donor)
      ensures !Wanted(ln, KnownOf(name, base, t))
    {
      KnownLine(ln, Lines(t), KnownOf(name, base, t));
    }
    DeltaEmpty(Lines(donor), KnownOf(name, base, t));
  }

  /** Text that starts with `t` and goes on after a newline still has the lines of `t`. */
  lemma LinesKept(t: string, more: string)
    ensures forall l <- Lines(t) :: l in Lines(t + "\n" + more)
  {
    hide Lines;
    LinesEnded(t);
    LinesConcat(t + "\n", more);
  }

  /** The merged file holds the target's lines and the delta. */
  lemma MergedHolds(name: string, base: string, donor: string, tgt: string)
    requires BreakFree(name) && donor != "" && tgt != "" && !AlreadyMerged(name, tgt)
    ensures var out := Merge(name, Some(base), donor, tgt).value;
      && out != ""
      && (forall l <- Lines(tgt) :: l in Lines(out))
      && (forall d <- Delta(Lines(donor), KnownOf(name, base, tgt)) :: d in Lines(out))
      && (Delta(Lines(donor), KnownOf(name, base, tgt)) != [] ==> Marker(name) in Lines(out))
  {
    hide Lines, Delta, KnownOf, Marker, AlreadyMerged, Ended;
    MergeKeepsTarget(name, base, donor, tgt);
    EndedLines(tgt);
    assert tgt <= Merge(name, Some(base), donor, tgt).value;
  }

  // ---------------------------------------------------------------- the second append

  /** The grants to append: one text, in which the tag tells that they are there already. */
  datatype Block = Block(lead: string, tag: string, rest: string) {
    function Text(): string {
      lead + tag + rest
    }
  }

  /** The block goes behind whatever there is, unless its tag is already there. */
  function AppendCil(t: string, b: Block): string {
    if Contains(t, b.tag) then t else t + "\n" + b.Text()
  }

  lemma AppendCilTwice(t: string, b: Block)
    ensures AppendCil(AppendCil(t, b), b) == AppendCil(t, b)
  {
    hide Contains;
    if !Contains(t, b.tag) {
      ContainsMiddle(t + "\n" + b.lead, b.tag, b.rest);
      assert AppendCil(t, b) == (t + "\n" + b.lead) + b.tag + b.rest;
    }
  }

  /**
   What appending means: the tag is there afterwards; a text that has it is left alone; any other keeps
   every character in front, and gains one newline and the whole block.
   */
  lemma AppendCilExact(t: string, b: Block)
    ensures var out := AppendCil(t, b);
      && Contains(out, b.tag)
      && (Contains(t, b.tag) ==> out == t)
      && (!Contains(t, b.tag) ==>
            && |out| == |t| + 1 + |b.lead| + |b.tag| + |b.rest| && t <= out && out[|t|] == '\n'
            && out[|t| + 1..] == b.lead + b.tag + b.rest
            && (forall l <- Lines(b.lead + b.tag + b.rest) :: l in Lines(out))
            && (forall l <- Lines(out) :: l in Lines(t) || l in Lines(b.lead + b.tag + b.rest) || l == ""))
  {
    hide Contains, Lines;
    if !Contains(t, b.tag) {
      ContainsMiddle(t + "\n" + b.lead, b.tag, b.rest);
      assert AppendCil(t, b) == (t + "\n" + b.lead) + b.tag + b.rest;
      LinesEnded(t);
      LinesConcat(t + "\n", b.Text());
    }
  }

  /** The step on the file, which reads it first and writes nothing when the tag is there. */
  method AppendGrants(data: string, b: Block) returns (after: string)
    ensures after == AppendCil(data, b)
  {
    hide Contains;
    if Contains(data, b.tag) {
      return data;
    }
    after := data + "\n" + b.lead + b.tag + b.rest;
    assert after == data + "\n" + (b.lead + b.tag + b.rest);
  }

  /** Both steps: the policy file ends up with the grants exactly once appended, every other file without. */
  lemma PipelineExact(name: string, base: Option<string>, donor: string, tgt: string, b: Block)
    requires Merge(name, base, donor, tgt).Ok?
    ensures Pipeline(name, base, donor, tgt, b).Ok?
    ensures var m, p := Merge(name, base, donor, tgt).value, Pipeline(name, base, donor, tgt, b).value;
      && m <= p
      && (EndsWith(name, ".cil") ==>
            && Contains(p, b.tag) && (Contains(m, b.tag) ==> p == m)
            && (!Contains(m, b.tag) ==>
                  p[|m|..] == "\n" + b.lead + b.tag + b.rest
                  && forall l <- Lines(b.lead + b.tag + b.rest) :: l in Lines(p)))
      && (!EndsWith(name, ".cil") ==> p == m)
  {
    hide Contains, Lines, EndsWith, AppendCil, Merge;
    var m := Merge(name, base, donor, tgt).value;
    AppendCilExact(m, b);
    if EndsWith(name, ".cil") && !Contains(m, b.tag) {
      var p := AppendCil(m, b);
      assert p[|m|..] == [p[|m|]] + p[|m| + 1..];
      assert "\n" + b.lead + b.tag + b.rest == "\n" + (b.lead + b.tag + b.rest);
    }
  }

  lemma AppendCilKeeps(t: string, b: Block)
    ensures forall l <- Lines(t) :: l in Lines(AppendCil(t, b))
    ensures t != "" ==> AppendCil(t, b) != ""
  {
    hide Lines, Contains;
    LinesKept(t, b.Text());
  }

  /** Both steps for one policy file. */
  function Pipeline(name: string, base: Option<string>, donor: string, tgt: string, b: Block)
    : Result<string, MergeError>
  {
    var m := Merge(name, base, donor, tgt);
    if m.Err? then m else Ok(if IsCil(name) then AppendCil(m.value, b) else m.value)
  }

  // ---------------------------------------------------------------- running it again

  /**
   Merging into any later version of its own output changes nothing. And not because of the marker: the
   delta recomputed against that output is empty, whether the donor was merged or grafted whole.
   */
  lemma RemergeIsEmpty(name: string, base: string, donor: string, tgt: string, t: string)
    requires BreakFree(name) && donor != "" && (tgt != "" ==> !AlreadyMerged(name, tgt))
    requires forall l <- Lines(Merge(name, Some(base), donor, tgt).value) :: l in Lines(t)
    ensures Delta(Lines(donor), KnownOf(name, base, t)) == []
  {
    hide Lines, Delta, KnownOf, Marker, AlreadyMerged, Merged;
    if tgt == "" {
      NothingLeftOfGraft(name, base, donor, t);
    } else {
      MergedHolds(name, base, donor, tgt);
      NothingLeft(name, base, donor, tgt, t);
    }
  }

  lemma RemergeUnchanged(name: string, base: string, donor: string, tgt: string, t: string)
    requires BreakFree(name) && donor != "" && t != ""
    requires forall l <- Lines(Merge(name, Some(base), donor, tgt).value) :: l in Lines(t)
    ensures Merge(name, Some(base), donor, t) == Ok(t)
  {
    hide Lines, Delta, KnownOf, Marker, Contains, Merged;
    if tgt != "" && AlreadyMerged(name, tgt) {
      assert Merge(name, Some(base), donor, tgt) == Ok(tgt);
      var ln :| ln in Lines(tgt) && Contains(ln, Marker(name));
      assert ln in Lines(t);
      assert AlreadyMerged(name, t);
    } else {
      RemergeIsEmpty(name, base, donor, tgt, t);
    }
  }

  /** The whole policy step is idempotent, for every file kind, target, donor, baseline and block. */
  lemma PipelineIdempotent(name: string, base: Option<string>, donor: string, tgt: string, b: Block)
    requires BreakFree(name) && Pipeline(name, base, donor, tgt, b).Ok?
    ensures var p := Pipeline(name, base, donor, tgt, b); Pipeline(name, base, donor, p.value, b) == p
  {
    hide Lines, Delta, KnownOf, Marker, Contains, AppendCil, AlreadyMerged;
    var m := Merge(name, base, donor, tgt).value;
    var p := Pipeline(name, base, donor, tgt, b).value;
    assert m != "" by {
      MergeNonEmpty(name, base, donor, tgt);
    }
    AppendCilKeeps(m, b);
    AppendCilTwice(m, b);
    RemergeUnchanged(name, base.value, donor, tgt, p);
  }

  lemma MergeNonEmpty(name: string, base: Option<string>, donor: string, tgt: string)
    requires Merge(name, base, donor, tgt).Ok?
    ensures base.Some? && donor != "" && Merge(name, base, donor, tgt).value != ""
  {
    hide Lines, Delta, KnownOf, Marker, AlreadyMerged;
  }

  // ---------------------------------------------------------------- type declarations

  /** The types a file declares, in order. */
  function Declared(ls: seq<string>): seq<string> {
    if ls == [] then []
    else
      var t := TypeName(Strip(ls[0]));
      (if t.Some? then [t.value] else []) + Declared(ls[1..])
  }

  predicate Distinct(s: seq<string>) {
    forall i, j :: 0 <= i < j < |s| ==> s[i] != s[j]
  }

  lemma {:induction false} DeclaredConcat(a: seq<string>, b: seq<string>)
    ensures Declared(a + b) == Declared(a) + Declared(b)
  {
    hide TypeName, Strip;
    if a == [] {
      assert a + b == b;
    } else {
      ConcatRest(a, b);
      DeclaredConcat(a[1..], b);
    }
  }

  lemma {:induction false} DeclaredAreTypes(ls: seq<string>)
    ensures forall t :: t in Declared(ls) <==> t in Types(ls)
  {
    hide TypeName, Strip;
    if ls != [] {
      DeclaredAreTypes(ls[1..]);
      assert ls == [ls[0]] + ls[1..];
    }
  }

  /** The delta declares a selection of what the donor declares, and nothing the target declares. */
  lemma {:induction false} DeltaDeclares(ls: seq<string>, known: Known)
    requires known.isCil && Distinct(Declared(ls))
    ensures var d := Declared(Delta(ls, known));
      && Distinct(d) && (forall t <- d :: t in Declared(ls) && t !in known.tgtTypes)
  {
    hide TypeName, Strip, RStrip, Norm;
    if ls != [] {
      var ln, rest := ls[0], ls[1..];
      var mine := if TypeName(Strip(ln)).Some? then [TypeName(Strip(ln)).value] else [];
      assert Declared(ls) == mine + Declared(rest);
      TailDistinct(mine, Declared(rest));
      DeltaDeclares(rest, known);
      KeptLine(ln);
      if Wanted(ln, known) {
        var kept, later := [RStrip(ln)], Delta(rest, known);
        FirstRest(RStrip(ln), later);
        assert Declared(kept + later) == mine + Declared(later);
      } else {
        assert [] + Delta(rest, known) == Delta(rest, known);
      }
    }
  }

  lemma TailDistinct(a: seq<string>, b: seq<string>)
    requires |a| <= 1 && Distinct(a + b)
    ensures Distinct(b) && forall x <- a :: x !in b
  {
    forall i, j | 0 <= i < j < |b|
      ensures b[i] != b[j]
    {
      assert (a + b)[|a| + i] == b[i] && (a + b)[|a| + j] == b[j];
    }
    forall k | 0 <= k < |b| && a != []
      ensures b[k] != a[0]
    {
      assert (a + b)[0] == a[0] && (a + b)[|a| + k] == b[k];
    }
  }

  lemma NoDeclaration(name: string)
    requires BreakFree(name)
    ensures Declared([""]) == [] && Declared(["", Marker(name)]) == []
  {
    hide Strip;
    MarkerLine(name);
    assert Strip("") == "" by {
      StripUnique("", "", "");
      assert "" + "" + "" == "";
    }
    var m := Marker(name);
    assert m[0] != '(';
    assert TypeName(m) == None && TypeName("") == None;
    NothingDeclared("", []);
    NothingDeclared(m, []);
    NothingDeclared("", [m]);
  }

  lemma NothingDeclared(l: string, rest: seq<string>)
    requires TypeName(Strip(l)) == None
    ensures Declared([l] + rest) == Declared(rest)
    ensures Declared([]) == []
  {
    hide Strip, TypeName;
    FirstRest(l, rest);
  }

  /** If target and donor each declare every type once, so does the result. */
  lemma TypesDeclaredOnce(name: string, base: string, donor: string, tgt: string)
    requires BreakFree(name) && IsCil(name) && donor != ""
    requires Distinct(Declared(Lines(tgt))) && Distinct(Declared(Lines(donor)))
    ensures Distinct(Declared(Lines(Merge(name, Some(base), donor, tgt).value)))
  {
    hide Lines, Delta, Marker, AlreadyMerged, Declared, Types, Keys, Ended, Merged;
    var known := KnownOf(name, base, tgt);
    var delta := Delta(Lines(donor), known);
    if tgt != "" && !AlreadyMerged(name, tgt) && delta != [] {
      MergeKeepsTarget(name, base, donor, tgt);
      EndedLines(tgt);
      NoDeclaration(name);
      DeltaDeclares(Lines(donor), known);
      DeclaredAreTypes(Lines(tgt));
      DeclaredConcat(Lines(tgt), [""]);
      assert Declared(Lines(tgt)) + [] == Declared(Lines(tgt));
      assert Declared(Lines(Ended(tgt))) == Declared(Lines(tgt));
      DeclaredConcat(Lines(Ended(tgt)), ["", Marker(name)]);
      DeclaredConcat(Lines(Ended(tgt)) + ["", Marker(name)], delta);
      ConcatDistinct(Declared(Lines(tgt)), Declared(delta));
    }
  }

  /** Comments, rules and blank lines declare nothing. */
  lemma {:induction false} RulesDeclareNothing(ls: seq<string>)
    requires forall l <- ls :: TypeName(Strip(l)).None?
    ensures Declared(ls) == []
  {
    hide Strip, TypeName;
    if ls != [] {
      RulesDeclareNothing(ls[1..]);
    }
  }

  /** An appended block of rules adds no declaration. */
  lemma AppendCilDeclares(t: string, b: Block)
    requires forall l <- Lines(b.Text()) :: TypeName(Strip(l)).None?
    ensures Declared(Lines(AppendCil(t, b))) == Declared(Lines(t))
  {
    hide Lines, Declared, Contains, TypeName, Strip;
    NoDeclaration("");
    LinesEnded(t);
    LinesConcat(t + "\n", b.Text());
    RulesDeclareNothing(Lines(b.Text()));
    DeclaredConcat(Lines(t), [""]);
    DeclaredConcat(Lines(t + "\n"), Lines(b.Text()));
    assert Declared(Lines(t)) + [] == Declared(Lines(t));
  }

  /** The same for both steps: the block only holds rules. */
  lemma PipelineDeclaresOnce(name: string, base: string, donor: string, tgt: string, b: Block)
    requires BreakFree(name) && IsCil(name) && donor != ""
    requires Distinct(Declared(Lines(tgt))) && Distinct(Declared(Lines(donor)))
    requires forall l <- Lines(b.Text()) :: TypeName(Strip(l)).None?
    ensures Distinct(Declared(Lines(Pipeline(name, Some(base), donor, tgt, b).value)))
  {
    hide Lines, Declared, AppendCil, TypeName, Strip, IsCil, Distinct, AlreadyMerged, Delta, KnownOf, Merged;
    TypesDeclaredOnce(name, base, donor, tgt);
    AppendCilDeclares(Merge(name, Some(base), donor, tgt).value, b);
  }

  lemma ConcatDistinct(a: seq<string>, b: seq<string>)
    requires Distinct(a) && Distinct(b) && forall x <- b :: x !in a
    ensures Distinct(a + b)
  {
    forall i, j | 0 <= i < j < |a + b|
      ensures (a + b)[i] != (a + b)[j]
    {
      if i < |a| <= j {
        assert b[j - |a|] in b && a[i] in a;
      }
    }
  }
}
