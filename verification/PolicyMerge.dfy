/**
 Merging a policy file: the donor's lines that neither the baseline nor the target has are appended to
 the target, which is otherwise kept verbatim. File contents are text; the empty text is a missing file.
 */
module PolicyMerge {
  import opened Wrappers
  import opened Sequences
  import opened Text
  import opened LineKeys

  datatype MergeError = MissingBaseline | DonorMissing

  predicate IsCil(name: string) {
    EndsWith(name, ".cil")
  }

  /** The marker is a comment in the syntax of the file it goes into. */
  function Marker(name: string): string {
    (if IsCil(name) then ";" else "#") + " --- lg-substrate: " + name + " delta (append) ---"
  }

  /** Position of the last `)`, or -1. */
  function LastClose(s: string): (k: int)
    ensures -1 <= k < |s| && (k >= 0 ==> s[k] == ')')
  {
    if s == "" then -1 else if s[|s| - 1] == ')' then |s| - 1 else LastClose(s[..|s| - 1])
  }

  /** `type` or `typealias` and what separates it from the name. */
  function DeclarationHead(s: string): (h: string)
    ensures h <= s
  {
    if "(type " <= s then "(type " else if "(typealias " <= s then "(typealias " else ""
  }

  /** `(\S+)\)` at the start of `rest`: the word it begins with, up to its last `)`. */
  function NameIn(rest: string): Option<string> {
    var run := rest[..WordLength(rest)];
    var k := LastClose(run);
    if k > 0 then Some(run[..k]) else None
  }

  /** What `\((?:type|typealias) (\S+)\)` captures at the start of a line. */
  function TypeName(s: string): Option<string> {
    var h := DeclarationHead(s);
    if h == "" then None else NameIn(s[|h|..])
  }

  /** `rest` begins with the name `n` and a `)` that is the last one of its word. */
  ghost predicate Closes(rest: string, n: string, more: string, after: string) {
    && rest == n + (")" + more) + after
    && IsWord(n) && ')' !in more && (forall i :: 0 <= i < |more| ==> !IsSpace(more[i]))
    && (after == "" || IsSpace(after[0]))
  }

  lemma {:induction false} LastCloseAt(a: string, more: string)
    requires ')' !in more
    ensures LastClose(a + (")" + more)) == |a|
  {
    var s := a + (")" + more);
    if more == "" {
      assert s[|s| - 1] == ')';
    } else {
      var f := more[..|more| - 1];
      assert s[|s| - 1] == more[|more| - 1] && s[..|s| - 1] == a + (")" + f);
      LastCloseAt(a, f);
    }
  }

  lemma {:induction false} LastCloseIsLast(s: string)
    ensures LastClose(s) >= 0 ==> ')' !in s[LastClose(s) + 1..]
  {
    if s != "" && s[|s| - 1] != ')' {
      var f := s[..|s| - 1];
      LastCloseIsLast(f);
      var k := LastClose(f);
      assert k >= 0 ==> s[k + 1..] == f[k + 1..] + [s[|s| - 1]];
    }
  }

  lemma CloseIsNoSpace()
    ensures !IsSpace(')')
  {
  }

  lemma ClosesName(rest: string, n: string, more: string, after: string)
    requires Closes(rest, n, more, after)
    ensures NameIn(rest) == Some(n)
  {
    hide IsSpace;
    var run := n + (")" + more);
    CloseIsNoSpace();
    WordEnds(run, after);
    LastCloseAt(n, more);
    assert (run + after)[..|run|] == run;
  }

  lemma NameCloses(rest: string) returns (more: string, after: string)
    requires NameIn(rest).Some?
    ensures Closes(rest, NameIn(rest).value, more, after)
  {
    hide IsSpace, WordLength, LastClose;
    var run := rest[..WordLength(rest)];
    var k := LastClose(run);
    LastCloseIsLast(run);
    more, after := run[k + 1..], rest[WordLength(rest)..];
    assert run == run[..k] + (")" + more);
  }

  /** The captured name, as the regular expression defines it, greedy and all. */
  lemma TypeNameExact(s: string, n: string)
    ensures TypeName(s) == Some(n) <==>
      && DeclarationHead(s) != ""
      && exists more: string, after: string :: Closes(s[|DeclarationHead(s)|..], n, more, after)
  {
    hide NameIn, Closes, DeclarationHead;
    var rest := s[|DeclarationHead(s)|..];
    if NameIn(rest) == Some(n) {
      var more, after := NameCloses(rest);
    }
    forall more: string, after: string | Closes(rest, n, more, after)
      ensures NameIn(rest) == Some(n)
    {
      ClosesName(rest, n, more, after);
    }
  }

  /** The same with the two heads spelled out: `(type ` or `(typealias `, a word, and a `)`. */
  lemma DeclarationExact(s: string, n: string)
    ensures TypeName(s) == Some(n) <==>
      exists more: string, after: string, rest: string ::
        (s == "(type " + rest || s == "(typealias " + rest) && Closes(rest, n, more, after)
  {
    hide NameIn, Closes, TypeName;
    TypeNameExact(s, n);
    HeadsExact(s);
    if TypeName(s) == Some(n) {
      var rest := s[|DeclarationHead(s)|..];
      var more: string, after: string :| Closes(rest, n, more, after);
      assert s == DeclarationHead(s) + rest;
    }
    forall more: string, after: string, rest: string
      | (s == "(type " + rest || s == "(typealias " + rest) && Closes(rest, n, more, after)
      ensures TypeName(s) == Some(n)
    {
      HeadOf(s, rest);
    }
  }

  lemma HeadsExact(s: string)
    ensures DeclarationHead(s) == "(type " || DeclarationHead(s) == "(typealias " || DeclarationHead(s) == ""
  {
  }

  lemma HeadOf(s: string, rest: string)
    requires s == "(type " + rest || s == "(typealias " + rest
    ensures DeclarationHead(s) != "" && s[|DeclarationHead(s)|..] == rest
  {
    assert "(typealias "[5] == 'a' && "(type "[5] == ' ';
    if s == "(typealias " + rest {
      assert s[5] == 'a';
    }
  }

  // ---------------------------------------------------------------- the delta

  function Keys(ls: seq<string>): set<string> {
    set ln | ln in ls && Norm(ln) != "" :: Norm(ln)
  }

  function Types(ls: seq<string>): set<string> {
    set ln | ln in ls && TypeName(Strip(ln)).Some? :: TypeName(Strip(ln)).value
  }

  /** What a donor line is held against. */
  datatype Known = Known(isCil: bool, baseKeys: set<string>, tgtKeys: set<string>, tgtTypes: set<string>)

  function KnownOf(name: string, base: string, tgt: string): Known {
    Known(IsCil(name), Keys(Lines(base)), Keys(Lines(tgt)), if IsCil(name) then Types(Lines(tgt)) else {})
  }

  /** A donor line is appended unless it is blank, a `;` line, already known, or redeclares a type. */
  predicate Wanted(ln: string, known: Known) {
    && Norm(ln) != "" && !(";" <= Strip(ln))
    && Norm(ln) !in known.baseKeys && Norm(ln) !in known.tgtKeys
    && !(known.isCil && TypeName(Strip(ln)).Some? && TypeName(Strip(ln)).value in known.tgtTypes)
  }

  function Delta(ls: seq<string>, known: Known): seq<string> {
    if ls == [] then []
    else (if Wanted(ls[0], known) then [RStrip(ls[0])] else []) + Delta(ls[1..], known)
  }

  /** The target with its last line ended. */
  function Ended(tgt: string): string {
    if tgt != "" && tgt[|tgt| - 1] == '\n' then tgt else tgt + "\n"
  }

  function Merged(tgt: string, marker: string, delta: seq<string>): string {
    Ended(tgt) + ("\n" + marker + "\n" + JoinLines(delta) + "\n")
  }

  predicate AlreadyMerged(name: string, tgt: string) {
    exists ln | ln in Lines(tgt) :: Contains(ln, Marker(name))
  }

  /** The merged file, from the baseline, the donor's file and the target's. */
  function Merge(name: string, base: Option<string>, donor: string, tgt: string): Result<string, MergeError> {
    if base.None? then Err(MissingBaseline)
    else if donor == "" then Err(DonorMissing)
    else if tgt == "" then Ok(donor)
    else if AlreadyMerged(name, tgt) then Ok(tgt)
    else
      var delta := Delta(Lines(donor), KnownOf(name, base.value, tgt));
      if delta == [] then Ok(tgt) else Ok(Merged(tgt, Marker(name), delta))
  }

  method MergePolicy(name: string, base: Option<string>, donor: string, tgt: string)
      returns (r: Result<string, MergeError>)
    ensures r == Merge(name, base, donor, tgt)
    ensures r.Err? <==> base.None? || donor == ""
    ensures r.Ok? && tgt == "" ==> r.value == donor
    ensures r.Ok? && tgt != "" ==> tgt <= r.value
  {
    hide Lines, Norm, Strip, TypeName, Contains, JoinLines, Keys;
    if base.None? {
      return Err(MissingBaseline);
    }
    if donor == "" {
      return Err(DonorMissing);
    }
    if tgt == "" {
      return Ok(donor);
    }
    var isCil, marker, tgtLines := IsCil(name), Marker(name), Lines(tgt);
    if exists ln | ln in tgtLines :: Contains(ln, marker) {
      return Ok(tgt);
    }
    var baseKeys, tgtKeys, tgtTypes: set<string> := Keys(Lines(base.value)), Keys(tgtLines), {};
    if isCil {
      for i := 0 to |tgtLines|
        invariant tgtTypes == Types(tgtLines[..i])
      {
        assert tgtLines[..i + 1] == tgtLines[..i] + [tgtLines[i]];
        var m := TypeName(Strip(tgtLines[i]));
        if m.Some? {
          tgtTypes := tgtTypes + {m.value};
        }
      }
      assert tgtLines[..|tgtLines|] == tgtLines;
    }
    ghost var known := KnownOf(name, base.value, tgt);
    var delta, donorLines := [], Lines(donor);
    var i := 0;
    while i < |donorLines|
      invariant 0 <= i <= |donorLines|
      invariant delta + Delta(donorLines[i..], known) == Delta(donorLines, known)
    {
      var ln := donorLines[i];
      var s, key := Strip(ln), Norm(ln);
      ghost var rest := donorLines[i..];
      assert rest[0] == ln && rest[1..] == donorLines[i + 1..];
      assert [] + Delta(rest[1..], known) == Delta(rest[1..], known);
      i := i + 1;
      if key == "" || ";" <= s {
        continue;
      }
      if key in baseKeys || key in tgtKeys {
        continue;
      }
      if isCil {
        var m := TypeName(s);
        if m.Some? && m.value in tgtTypes {
          continue;
        }
      }
      delta := delta + [RStrip(ln)];
    }
    assert delta + [] == delta;
    if delta == [] {
      return Ok(tgt);
    }
    var body := tgt;
    if body[|body| - 1] != '\n' {
      body := body + "\n";
    }
    body := body + ("\n" + marker + "\n" + JoinLines(delta) + "\n");
    return Ok(body);
  }

  // ---------------------------------------------------------------- what is in the delta

  /** Nothing invented, nothing lost: the appended lines are the wanted donor lines, right-stripped. */
  lemma {:induction false} DeltaMembers(ls: seq<string>, known: Known, d: string)
    ensures d in Delta(ls, known) <==> exists ln :: ln in ls && Wanted(ln, known) && d == RStrip(ln)
  {
    hide Wanted, RStrip;
    if ls != [] {
      DeltaMembers(ls[1..], known, d);
      assert ls == [ls[0]] + ls[1..];
    }
  }

  lemma {:induction false} DeltaConcat(a: seq<string>, b: seq<string>, known: Known)
    ensures Delta(a + b, known) == Delta(a, known) + Delta(b, known)
  {
    hide Wanted, RStrip;
    if a == [] {
      assert a + b == b;
    } else {
      ConcatRest(a, b);
      DeltaConcat(a[1..], b, known);
    }
  }

  lemma {:induction false} DeltaEmpty(ls: seq<string>, known: Known)
    requires forall ln <- ls :: !Wanted(ln, known)
    ensures Delta(ls, known) == []
  {
    hide Wanted;
    if ls != [] {
      DeltaEmpty(ls[1..], known);
    }
  }

  /** An appended line is one line, has the donor line's key, and is not blank. */
  lemma DeltaLine(t: string, known: Known, d: string)
    requires d in Delta(Lines(t), known)
    ensures BreakFree(d)
    ensures exists ln :: ln in Lines(t) && Wanted(ln, known) && d == RStrip(ln)
  {
    hide Wanted, Lines, RStrip;
    DeltaMembers(Lines(t), known, d);
    var ln :| ln in Lines(t) && Wanted(ln, known) && d == RStrip(ln);
    LinesBreakFree(t);
    RStripCuts(ln);
  }

  // ---------------------------------------------------------------- the shape of the output

  lemma EndedLines(tgt: string)
    ensures Ended(tgt) != "" && Ended(tgt)[|Ended(tgt)| - 1] == '\n'
    ensures Ended(tgt) == tgt || Ended(tgt) == tgt + "\n"
    ensures Lines(Ended(tgt)) == Lines(tgt) || Lines(Ended(tgt)) == Lines(tgt) + [""]
  {
    hide Lines;
    LinesEnded(tgt);
  }

  lemma MarkerLine(name: string)
    requires BreakFree(name)
    ensures BreakFree(Marker(name)) && Strip(Marker(name)) == Marker(name)
  {
    hide Strip;
    var head, tail := if IsCil(name) then ";" else "#", " delta (append) ---";
    var m := Marker(name);
    assert BreakFree(" --- lg-substrate: ") && BreakFree(tail) && BreakFree(head);
    assert m[|m| - 1] == '-';
    StripUnique("", m, "");
    assert "" + m + "" == m;
  }

  /** Line by line: the target's lines, an empty one, the marker, and the delta. */
  lemma MergedLines(tgt: string, marker: string, delta: seq<string>)
    requires delta != [] && BreakFree(marker) && forall d <- delta :: BreakFree(d)
    ensures Lines(Merged(tgt, marker, delta)) == Lines(Ended(tgt)) + ["", marker] + delta
  {
    hide Lines, JoinLines, BreakFree, Ended;
    EndedLines(tgt);
    var body := JoinLines(delta) + "\n";
    LinesOfJoin(delta);
    OneLine(marker);
    LinesConcat(marker + "\n", body);
    NewlineAlone();
    LinesConcat("\n", marker + "\n" + body);
    LinesConcat(Ended(tgt), "\n" + (marker + "\n" + body));
    assert "\n" + (marker + "\n" + body) == "\n" + marker + "\n" + JoinLines(delta) + "\n";
    assert Lines(Ended(tgt)) + ([""] + ([marker] + delta)) == Lines(Ended(tgt)) + ["", marker] + delta;
  }

  // ---------------------------------------------------------------- the merge, from its inputs

  /** The line declares the type `n`. */
  ghost predicate Declares(ln: string, n: string) {
    TypeName(Strip(ln)) == Some(n)
  }

  /** What a donor line must be to be appended: not blank, no `;` line, and new against both files. */
  ghost predicate Appended(name: string, base: string, tgt: string, ln: string) {
    && Norm(ln) != "" && (Strip(ln) == "" || Strip(ln)[0] != ';')
    && (forall l <- Lines(base) :: Norm(l) != Norm(ln))
    && (forall l <- Lines(tgt) :: Norm(l) != Norm(ln))
    && (EndsWith(name, ".cil") ==> forall l <- Lines(tgt), n | Declares(l, n) :: !Declares(ln, n))
  }

  /** The line test of the merge, from the three files. */
  lemma WantedExact(name: string, base: string, tgt: string, ln: string)
    ensures Wanted(ln, KnownOf(name, base, tgt)) <==> Appended(name, base, tgt, ln)
  {
    hide Norm, Strip, TypeName, Lines, EndsWith;
    var known := KnownOf(name, base, tgt);
    if Norm(ln) != "" {
      KeysExact(Lines(base), Norm(ln));
      KeysExact(Lines(tgt), Norm(ln));
    }
    forall n
      ensures n in Types(Lines(tgt)) <==> exists l :: l in Lines(tgt) && Declares(l, n)
    {
    }
  }

  lemma KeysExact(ls: seq<string>, k: string)
    requires k != ""
    ensures k in Keys(ls) <==> exists l :: l in ls && Norm(l) == k
  {
    hide Norm;
  }

  lemma MarkerExact(name: string)
    ensures Marker(name) != ""
    ensures Marker(name)[1..] == " --- lg-substrate: " + name + " delta (append) ---"
    ensures Marker(name)[0] == if EndsWith(name, ".cil") then ';' else '#'
  {
    hide EndsWith;
  }

  /** A last line that is ended by a newline, or by nothing, stays the last line. */
  lemma EndedExact(tgt: string)
    ensures tgt != "" && CleanEnd(tgt) ==> Lines(Ended(tgt)) == Lines(tgt)
  {
    hide Lines;
    LinesEnded(tgt);
  }

  /**
   The merge keeps the target verbatim in front, adds at most one newline to it, and adds no line other
   than an empty one, the marker and the wanted donor lines.
   */
  lemma MergeKeepsTarget(name: string, base: string, donor: string, tgt: string)
    requires BreakFree(name) && donor != "" && tgt != "" && !AlreadyMerged(name, tgt)
    ensures var delta := Delta(Lines(donor), KnownOf(name, base, tgt));
      var out := Merge(name, Some(base), donor, tgt).value;
      && tgt <= out
      && (delta == [] ==> out == tgt)
      && (delta != [] ==> Lines(out) == Lines(Ended(tgt)) + ["", Marker(name)] + delta)
  {
    hide Lines, Delta, JoinLines, Marker, AlreadyMerged, KnownOf, BreakFree;
    var known := KnownOf(name, base, tgt);
    var delta := Delta(Lines(donor), known);
    if delta != [] {
      forall d | d in delta
        ensures BreakFree(d)
      {
        DeltaLine(donor, known, d);
      }
      MarkerLine(name);
      MergedLines(tgt, Marker(name), delta);
    }
  }

  /** The new donor lines, right-stripped, in the donor's order. */
  ghost function NewLines(ls: seq<string>, name: string, base: string, tgt: string): seq<string> {
    if ls == [] then []
    else (if Appended(name, base, tgt, ls[0]) then [RStrip(ls[0])] else []) + NewLines(ls[1..], name, base, tgt)
  }

  lemma {:induction false} DeltaIsNew(ls: seq<string>, name: string, base: string, tgt: string)
    ensures Delta(ls, KnownOf(name, base, tgt)) == NewLines(ls, name, base, tgt)
  {
    hide Wanted, Appended, RStrip, KnownOf;
    if ls != [] {
      WantedExact(name, base, tgt, ls[0]);
      DeltaIsNew(ls[1..], name, base, tgt);
    }
  }

  lemma {:induction false} NewLinesMembers(ls: seq<string>, name: string, base: string, tgt: string, l: string)
    ensures l in NewLines(ls, name, base, tgt) <==>
      exists ln :: ln in ls && Appended(name, base, tgt, ln) && l == RStrip(ln)
  {
    hide Appended, RStrip;
    if ls != [] {
      NewLinesMembers(ls[1..], name, base, tgt, l);
      assert ls == [ls[0]] + ls[1..];
    }
  }

  /** The text ends in a newline or in no line break at all. */
  ghost predicate CleanEnd(t: string) {
    t == "" || t[|t| - 1] == '\n' || !IsBreak(t[|t| - 1])
  }

  /**
   The merge, from its inputs alone. Without a target file the donor's is taken whole; a target that has
   the marker stays as it is; otherwise the lines are the target's and, if any donor line is new, an empty
   line, the marker and exactly the new donor lines, right-stripped.
   */
  lemma MergedExact(name: string, base: string, donor: string, tgt: string)
    requires BreakFree(name) && donor != ""
    ensures var r := Merge(name, Some(base), donor, tgt); var new' := NewLines(Lines(donor), name, base, tgt);
      && r.Ok? && var out := r.value;
      && (tgt == "" ==> out == donor)
      && ((exists l :: l in Lines(tgt) && Contains(l, Marker(name))) ==> out == tgt)
      && (tgt != "" && (forall l <- Lines(tgt) :: !Contains(l, Marker(name))) ==>
            && (new' == [] ==> out == tgt)
            && (new' != [] ==>
                  && tgt <= out && out[|out| - 1] == '\n'
                  && (Lines(out) == Lines(tgt) + ["", Marker(name)] + new'
                      || (!CleanEnd(tgt) && Lines(out) == Lines(tgt) + ["", "", Marker(name)] + new'))))
  {
    hide Lines, Delta, JoinLines, Marker, KnownOf, BreakFree, Contains, NewLines, CleanEnd;
    EmptyLines();
    DeltaIsNew(Lines(donor), name, base, tgt);
    if tgt != "" && (forall l <- Lines(tgt) :: !Contains(l, Marker(name))) {
      MergeKeepsTarget(name, base, donor, tgt);
      EndedLines(tgt);
      EndedExact(tgt);
      var added := ["", Marker(name)] + NewLines(Lines(donor), name, base, tgt);
      assert Lines(tgt) + [""] + ["", Marker(name)] == Lines(tgt) + ["", "", Marker(name)];
    }
  }

  lemma EmptyLines()
    ensures Lines("") == []
  {
  }
}
