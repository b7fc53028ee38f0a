/** The merge against its independent checker: what the validator says about a merged contexts file. */
module Substrate {
  import opened Wrappers
  import opened Sequences
  import opened Text
  import opened LineKeys
  import opened PolicyMerge
  import opened Validator

  /** A line the syntax check has no objection to. */
  predicate Fine(name: string, ln: string) {
    IsEntry(ln) ==> BadContextLine(name, Strip(ln)).None?
  }

  /** The stock file of a target without one does not exist. */
  function Stock(tgt: string): Option<string> {
    if tgt == "" then None else Some(tgt)
  }

  /** What the validator reports about the merged file, with the target as stock. */
  function Verdict(name: string, base: string, donor: string, tgt: string): seq<Failure>
    requires donor != ""
  {
    ContextFailures(name, Stock(tgt), Some(Merge(name, Some(base), donor, tgt).value))
  }

  // ---------------------------------------------------------------- entries and failures, piece by piece

  lemma {:induction false} EntriesConcat(a: seq<string>, b: seq<string>, n: nat)
    ensures EntriesFrom(a + b, n) == EntriesFrom(a, n) + EntriesFrom(b, n + |a|)
  {
    hide IsEntry, Strip;
    if a == [] {
      assert a + b == b;
    } else {
      ConcatRest(a, b);
      EntriesConcat(a[1..], b, n + 1);
    }
  }

  lemma {:induction false} BadLinesConcat(name: string, stock: set<string>, a: seq<Entry>, b: seq<Entry>)
    ensures BadLines(name, stock, a + b) == BadLines(name, stock, a) + BadLines(name, stock, b)
  {
    hide BadContextLine;
    if a == [] {
      assert a + b == b;
    } else {
      ConcatRest(a, b);
      BadLinesConcat(name, stock, a[1..], b);
    }
  }

  /** Entries of the stock file are never reported. */
  lemma {:induction false} KnownNotReported(name: string, stock: set<string>, es: seq<Entry>)
    requires forall e <- es :: e.text in stock
    ensures BadLines(name, stock, es) == []
  {
    hide BadContextLine;
    if es != [] {
      KnownNotReported(name, stock, es[1..]);
    }
  }

  /** Entries that the stock file does not have are judged as if there were none. */
  lemma {:induction false} NewJudged(name: string, stock: set<string>, es: seq<Entry>)
    requires forall e <- es :: e.text !in stock
    ensures BadLines(name, stock, es) == BadLines(name, {}, es)
  {
    hide BadContextLine;
    if es != [] {
      NewJudged(name, stock, es[1..]);
    }
  }

  lemma {:induction false} EntryOrigin(ls: seq<string>, n: nat, e: Entry)
    requires e in EntriesFrom(ls, n)
    ensures exists l :: l in ls && IsEntry(l) && e.text == Strip(l)
  {
    hide IsEntry, Strip;
    if IsEntry(ls[0]) && e == Entry(n, Strip(ls[0])) {
      assert ls[0] in ls;
    } else {
      EntryOrigin(ls[1..], n + 1, e);
      var l :| l in ls[1..] && IsEntry(l) && e.text == Strip(l);
      assert l in ls;
    }
  }

  lemma NoEntry(ln: string, n: nat)
    requires !IsEntry(ln)
    ensures EntriesFrom([ln], n) == []
  {
    hide IsEntry, Strip;
    assert EntriesFrom([ln][1..], n + 1) == [];
  }

  lemma CommentsAreNoEntries(name: string, n: nat)
    requires BreakFree(name) && !IsCil(name)
    ensures EntriesFrom([""], n) == [] && EntriesFrom(["", Marker(name)], n) == []
  {
    hide IsCil, Strip;
    MarkerLine(name);
    assert Marker(name)[0] == '#';
    StripUnique("", "", "");
    assert "" + "" + "" == "";
    NoEntry("", n);
    NoEntry(Marker(name), n + 1);
    EntriesConcat([""], [Marker(name)], n);
    assert [""] + [Marker(name)] == ["", Marker(name)];
  }

  /** Ending the target's last line adds no entry. */
  lemma EndedEntries(name: string, tgt: string)
    requires BreakFree(name) && !IsCil(name)
    ensures EntriesFrom(Lines(Ended(tgt)), 1) == Entries(tgt)
  {
    hide Lines, Ended, EntriesFrom, IsCil;
    EndedLines(tgt);
    CommentsAreNoEntries(name, 1 + |Lines(tgt)|);
    EntriesConcat(Lines(tgt), [""], 1);
    assert Entries(tgt) + [] == Entries(tgt);
  }

  /** A delta entry never has the text of a stock entry. */
  lemma DeltaIsNew(name: string, base: string, donor: string, tgt: string, n: nat, e: Entry)
    requires tgt != "" && e in EntriesFrom(Delta(Lines(donor), KnownOf(name, base, tgt)), n)
    ensures e.text !in StockTexts(Some(tgt))
  {
    hide Lines, Norm, Strip, RStrip, Delta, EntriesFrom, TypeName;
    var known := KnownOf(name, base, tgt);
    EntryOrigin(Delta(Lines(donor), known), n, e);
    var d :| d in Delta(Lines(donor), known) && IsEntry(d) && e.text == Strip(d);
    DeltaMembers(Lines(donor), known, d);
    var ln :| ln in Lines(donor) && Wanted(ln, known) && d == RStrip(ln);
    StripOfRStrip(ln);
    SameKey(d, ln);
    forall x | x in Entries(tgt)
      ensures x.text != e.text
    {
      EntryOrigin(Lines(tgt), 1, x);
      var l :| l in Lines(tgt) && IsEntry(l) && x.text == Strip(l);
      assert Norm(l) == "" || Norm(l) in Keys(Lines(tgt));
      if Strip(l) == Strip(d) {
        SameKey(l, d);
      }
    }
  }

  // ---------------------------------------------------------------- the verdict

  /**
   The validator reports the malformed lines of the delta, each once and at its line in the merged file,
   and nothing else: no line of the target, not the marker, no `;` line of the donor.
   */
  lemma VerdictOfMerge(name: string, base: string, donor: string, tgt: string)
    requires BreakFree(name) && !IsCil(name) && donor != "" && tgt != "" && !AlreadyMerged(name, tgt)
    ensures var delta := Delta(Lines(donor), KnownOf(name, base, tgt));
      && Verdict(name, base, donor, tgt)
         == BadLines(name, {}, EntriesFrom(delta, |Lines(Ended(tgt))| + 3))
      && forall d <- delta :: !(";" <= Strip(d))
  {
    hide Lines, Delta, EntriesFrom, BadLines, Marker, AlreadyMerged, Ended, KnownOf, Entries, Wanted, Strip;
    hide IsCil, Merged, StockTexts;
    var known := KnownOf(name, base, tgt);
    var delta, stock := Delta(Lines(donor), known), StockTexts(Some(tgt));
    NoSemicolons(donor, known);
    MergeKeepsTarget(name, base, donor, tgt);
    StockKnown(name, tgt);
    var old', n := Lines(Ended(tgt)), |Lines(Ended(tgt))|;
    forall e | e in EntriesFrom(delta, n + 3)
      ensures e.text !in stock
    {
      DeltaIsNew(name, base, donor, tgt, n + 3, e);
    }
    NewJudged(name, stock, EntriesFrom(delta, n + 3));
    if delta == [] {
      NoLines(name, n + 3);
      EntriesDef(tgt);
    } else {
      EndedEntries(name, tgt);
      CommentsAreNoEntries(name, 1 + n);
      EntriesConcat(old', ["", Marker(name)], 1);
      EntriesConcat(old' + ["", Marker(name)], delta, 1);
      assert Entries(tgt) + [] == Entries(tgt);
      BadLinesConcat(name, stock, Entries(tgt), EntriesFrom(delta, n + 3));
      EntriesDef(Merge(name, Some(base), donor, tgt).value);
      assert [] + BadLines(name, stock, EntriesFrom(delta, n + 3)) == BadLines(name, stock, EntriesFrom(delta, n + 3));
    }
  }

  lemma EntriesDef(t: string)
    ensures Entries(t) == EntriesFrom(Lines(t), 1)
  {
  }

  lemma NoLines(name: string, n: nat)
    ensures BadLines(name, {}, EntriesFrom([], n)) == []
  {
  }

  lemma StockKnown(name: string, tgt: string)
    ensures BadLines(name, StockTexts(Some(tgt)), Entries(tgt)) == []
  {
    hide Entries, BadLines;
    KnownNotReported(name, StockTexts(Some(tgt)), Entries(tgt));
  }

  lemma NoSemicolons(donor: string, known: Known)
    ensures forall d <- Delta(Lines(donor), known) :: !(";" <= Strip(d))
  {
    hide Lines, Delta, Norm, Strip, RStrip, TypeName;
    forall d | d in Delta(Lines(donor), known)
      ensures !(";" <= Strip(d))
    {
      DeltaMembers(Lines(donor), known, d);
      var ln :| ln in Lines(donor) && Wanted(ln, known) && d == RStrip(ln);
      StripOfRStrip(ln);
    }
  }

  lemma {:induction false} CleanIff(name: string, ls: seq<string>, n: nat)
    ensures BadLines(name, {}, EntriesFrom(ls, n)) == [] <==> forall l <- ls :: Fine(name, l)
  {
    hide BadContextLine, Strip;
    if ls != [] {
      CleanIff(name, ls[1..], n + 1);
      assert ls == [ls[0]] + ls[1..];
      BadLinesConcat(name, {}, EntriesFrom([ls[0]], n), EntriesFrom(ls[1..], n + 1));
      EntriesConcat([ls[0]], ls[1..], n);
      OneVerdict(name, ls[0], n);
    }
  }

  lemma OneVerdict(name: string, l: string, n: nat)
    ensures BadLines(name, {}, EntriesFrom([l], n)) == [] <==> Fine(name, l)
  {
    hide BadContextLine, Strip;
    assert [l][1..] == [];
    if IsEntry(l) {
      var e := Entry(n, Strip(l));
      assert EntriesFrom([l], n) == [e] + EntriesFrom([], n + 1);
      assert [e][1..] == [];
    }
  }

  /** When the merged file passes, exactly. */
  lemma VerdictExact(name: string, base: string, donor: string, tgt: string)
    requires BreakFree(name) && !IsCil(name) && donor != ""
    ensures Verdict(name, base, donor, tgt) == [] <==>
      if tgt == "" then forall l <- Lines(donor) :: Fine(name, l)
      else AlreadyMerged(name, tgt) || forall d <- Delta(Lines(donor), KnownOf(name, base, tgt)) :: Fine(name, d)
  {
    hide Lines, Delta, EntriesFrom, BadLines, Marker, AlreadyMerged, Ended, KnownOf, Fine, IsCil, Entries;
    if tgt == "" {
      EntriesDef(donor);
      CleanIff(name, Lines(donor), 1);
      NoStock(name, donor);
    } else if AlreadyMerged(name, tgt) {
      StockKnown(name, tgt);
    } else {
      VerdictOfMerge(name, base, donor, tgt);
      CleanIff(name, Delta(Lines(donor), KnownOf(name, base, tgt)), |Lines(Ended(tgt))| + 3);
    }
  }

  lemma NoStock(name: string, donor: string)
    ensures ContextFailures(name, None, Some(donor)) == BadLines(name, {}, Entries(donor))
  {
  }

  /**
   A donor whose entries other than `;` lines are well formed passes, unless the target has no such file
   and the donor has a `;` line: a file grafted whole keeps the lines the merge would have dropped.
   */
  lemma WellFormedDonorExact(name: string, base: string, donor: string, tgt: string)
    requires BreakFree(name) && !IsCil(name) && donor != ""
    requires forall l <- Lines(donor) :: !(";" <= Strip(l)) ==> Fine(name, l)
    ensures Verdict(name, base, donor, tgt) == [] <==>
      tgt != "" || forall l <- Lines(donor) :: !(";" <= Strip(l))
  {
    hide Lines, Delta, Norm, RStrip, Strip, TypeName, AlreadyMerged, KnownOf, Verdict, BreakFree, IsCil;
    VerdictExact(name, base, donor, tgt);
    if tgt == "" {
      forall l | l in Lines(donor) && ";" <= Strip(l)
        ensures !Fine(name, l)
      {
        assert Strip(l)[0] == ';';
      }
    } else {
      var known := KnownOf(name, base, tgt);
      forall d | d in Delta(Lines(donor), known)
        ensures Fine(name, d)
      {
        DeltaMembers(Lines(donor), known, d);
        var ln :| ln in Lines(donor) && Wanted(ln, known) && d == RStrip(ln);
        StripOfRStrip(ln);
        assert Fine(name, ln);
      }
    }
  }

  /** The smallest such donor: one comment in the policy language's syntax. */
  lemma GraftedCommentFails()
    ensures Verdict("system_ext_file_contexts", "", ";", "")
         == [BadLine("system_ext_file_contexts", 1, SemicolonLine, ";")]
  {
    hide EndsWith;
    StripUnique("", ";", "");
    assert "" + ";" + "" == ";";
    assert Lines(";") == [";"];
    var e := Entry(1, ";");
    assert [";"][1..] == [] && [e][1..] == [];
    assert EntriesFrom([";"], 1) == [e] + EntriesFrom([], 2);
    NoStock("system_ext_file_contexts", ";");
    EntriesDef(";");
  }
}
