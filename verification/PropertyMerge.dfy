/**
 The merge against the property check: which keys a merged property file defines, and when the partitions
 of the image still define every key once.
 */
module PropertyMerge {
  import opened Wrappers
  import opened Sequences
  import opened Text
  import opened LineKeys
  import opened PolicyMerge
  import opened Validator
  import opened Substrate

  /** The keys that the entries among `ls` define, in order. */
  function Defined(ls: seq<string>): seq<Key> {
    if ls == [] then []
    else
      var k := if IsEntry(ls[0]) then PropertyKey(Strip(ls[0])) else None;
      (if k.Some? then [k.value] else []) + Defined(ls[1..])
  }

  function DeltaKeys(name: string, base: string, donor: string, tgt: string): seq<Key> {
    Defined(Delta(Lines(donor), KnownOf(name, base, tgt)))
  }

  // ---------------------------------------------------------------- the keys of the merged file

  lemma {:induction false} DefinedEntries(ls: seq<string>, n: nat)
    ensures KeysOf(EntriesFrom(ls, n)) == Defined(ls)
  {
    hide IsEntry, Strip, PropertyKey;
    if ls != [] {
      DefinedEntries(ls[1..], n + 1);
      var rest := EntriesFrom(ls[1..], n + 1);
      if IsEntry(ls[0]) {
        FirstRest(Entry(n, Strip(ls[0])), rest);
      } else {
        assert [] + rest == rest;
      }
    }
  }

  lemma {:induction false} DefinedConcat(a: seq<string>, b: seq<string>)
    ensures Defined(a + b) == Defined(a) + Defined(b)
  {
    hide IsEntry, Strip, PropertyKey;
    if a == [] {
      assert a + b == b;
    } else {
      ConcatRest(a, b);
      DefinedConcat(a[1..], b);
    }
  }

  /** The keys of the target, then those of the delta. */
  lemma MergedKeys(name: string, base: string, donor: string, tgt: string)
    requires BreakFree(name) && !IsCil(name) && donor != "" && tgt != "" && !AlreadyMerged(name, tgt)
    ensures PropertyKeys(Merge(name, Some(base), donor, tgt).value)
         == PropertyKeys(tgt) + DeltaKeys(name, base, donor, tgt)
  {
    hide Lines, Delta, Defined, EntriesFrom, KeysOf, Marker, AlreadyMerged, Ended, KnownOf, IsCil, BreakFree, Merged;
    var delta := Delta(Lines(donor), KnownOf(name, base, tgt));
    var out := Merge(name, Some(base), donor, tgt).value;
    MergeKeepsTarget(name, base, donor, tgt);
    DefinedEntries(Lines(tgt), 1);
    DefinedEntries(Lines(out), 1);
    if delta == [] {
      NothingDefinedHere();
    } else {
      EndedEntries(name, tgt);
      DefinedEntries(Lines(Ended(tgt)), 1);
      CommentsAreNoEntries(name, 1);
      DefinedEntries(["", Marker(name)], 1);
      DefinedConcat(Lines(Ended(tgt)), ["", Marker(name)]);
      DefinedConcat(Lines(Ended(tgt)) + ["", Marker(name)], delta);
      NoKeys();
      assert Defined(Lines(tgt)) + [] == Defined(Lines(tgt));
    }
  }

  lemma NoKeys()
    ensures KeysOf([]) == []
  {
  }

  lemma NothingDefinedHere()
    ensures Defined([]) == []
  {
  }

  /** The delta's keys are those of the wanted donor entries. */
  lemma {:induction false} DeltaKeysExact(ls: seq<string>, known: Known, k: Key)
    ensures k in Defined(Delta(ls, known)) <==>
      exists ln :: ln in ls && Wanted(ln, known) && IsEntry(ln) && PropertyKey(Strip(ln)) == Some(k)
  {
    hide Wanted, Strip, RStrip, PropertyKey;
    if ls != [] {
      var ln, rest := ls[0], ls[1..];
      DeltaKeysExact(rest, known, k);
      assert ls == [ln] + rest;
      StripOfRStrip(ln);
      if Wanted(ln, known) {
        FirstRest(RStrip(ln), Delta(rest, known));
      } else {
        assert [] + Delta(rest, known) == Delta(rest, known);
      }
    }
  }

  predicate Once(keys: seq<Key>) {
    forall i, j :: 0 <= i < j < |keys| ==> keys[i] != keys[j]
  }

  /** A donor that defines every key once has a delta that does. */
  lemma {:induction false} DeltaKeysOnce(ls: seq<string>, known: Known)
    requires Once(Defined(ls))
    ensures Once(Defined(Delta(ls, known))) && forall k <- Defined(Delta(ls, known)) :: k in Defined(ls)
  {
    hide Wanted, Strip, RStrip, PropertyKey, IsEntry;
    if ls != [] {
      var ln, rest := ls[0], ls[1..];
      var first := if IsEntry(ln) && PropertyKey(Strip(ln)).Some? then [PropertyKey(Strip(ln)).value] else [];
      assert Defined(ls) == first + Defined(rest);
      OnceTail(first, Defined(rest));
      DeltaKeysOnce(rest, known);
      KeptEntry(ln);
      if Wanted(ln, known) {
        var later := Delta(rest, known);
        FirstRest(RStrip(ln), later);
        assert Defined([RStrip(ln)] + later) == first + Defined(later);
        OnceCons(first, Defined(later));
      } else {
        assert [] + Delta(rest, known) == Delta(rest, known);
      }
    }
  }

  lemma KeptEntry(ln: string)
    ensures Strip(RStrip(ln)) == Strip(ln) && (IsEntry(RStrip(ln)) <==> IsEntry(ln))
  {
    hide Strip, RStrip;
    StripOfRStrip(ln);
  }

  lemma OnceTail(a: seq<Key>, b: seq<Key>)
    requires |a| <= 1 && Once(a + b)
    ensures Once(b) && forall x <- a :: x !in b
  {
    forall i, j | 0 <= i < j < |b|
      ensures b[i] != b[j]
    {
      assert (a + b)[|a| + i] == b[i] && (a + b)[|a| + j] == b[j];
    }
    forall k | 0 <= k < |b| && a != []
      ensures b[k] != a[0]
    {
      assert (a + b)[0] == a[0] && (a + b)[|a| + k] == b[k];
    }
  }

  lemma OnceCons(a: seq<Key>, b: seq<Key>)
    requires |a| <= 1 && Once(b) && forall x <- a :: x !in b
    ensures Once(a + b)
  {
    forall i, j | 0 <= i < j < |a + b|
      ensures (a + b)[i] != (a + b)[j]
    {
      assert (a + b)[j] == b[j - |a|] && b[j - |a|] in b;
      assert i < |a| ==> (a + b)[i] == a[i] && a[i] in a;
    }
  }

  // ---------------------------------------------------------------- the reports, one partition

  /** One report for each delta key that the target defines, in order. */
  function Clashes(part: string, keys: seq<Key>, known: set<Key>): seq<Failure> {
    if keys == [] then []
    else (if keys[0] in known then [Redefined(keys[0], part, part)] else []) + Clashes(part, keys[1..], known)
  }

  function AllIn(keys: seq<Key>, part: string): map<Key, string> {
    map k | k in keys :: part
  }

  /** The first definition of each key is only remembered. */
  lemma {:induction false} FirstOnes(part: string, keys: seq<Key>, later: seq<Definition>, seen: map<Key, string>)
    requires Once(keys) && forall k <- keys :: k !in seen
    ensures Redefinitions(Labelled(part, keys) + later, seen) == Redefinitions(later, seen + AllIn(keys, part))
  {
    hide Redefinitions, AllIn, Once;
    if keys == [] {
      NoneSeen(keys, part, seen);
      NoneLeft(part, keys, later);
    } else {
      var k, rest := keys[0], keys[1..];
      assert keys == [k] + rest;
      OnceTail([k], rest);
      NextDefinition(part, keys, later, seen);
      assert k in [k];
      FirstOnes(part, rest, later, seen[k := part]);
      OneMoreSeen(keys, part, seen);
    }
  }

  lemma NoneSeen(keys: seq<Key>, part: string, seen: map<Key, string>)
    requires keys == []
    ensures seen + AllIn(keys, part) == seen
  {
    assert AllIn(keys, part) == map[];
  }

  lemma OneMoreSeen(keys: seq<Key>, part: string, seen: map<Key, string>)
    requires keys != []
    ensures seen[keys[0] := part] + AllIn(keys[1..], part) == seen + AllIn(keys, part)
  {
    assert keys == [keys[0]] + keys[1..];
  }

  /** Of keys defined once, exactly those already seen are reported. */
  lemma {:induction false} SecondOnes(part: string, keys: seq<Key>, seen: map<Key, string>, known: set<Key>)
    requires Once(keys) && (forall k :: k in seen ==> seen[k] == part)
    requires forall k <- keys :: k in seen <==> k in known
    ensures Redefinitions(Labelled(part, keys), seen) == Clashes(part, keys, known)
  {
    if keys != [] {
      var k, rest := keys[0], keys[1..];
      assert keys == [k] + rest;
      OnceTail([k], rest);
      var defs := Labelled(part, keys);
      FirstRest(Definition(k, part), Labelled(part, rest));
      SecondOnes(part, rest, if k in seen then seen else seen[k := part], known);
    }
  }

  /**
   When target and donor each define every key once, the check reports exactly the delta's keys that the
   target defines too, in the delta's order: the merge compares whole lines, not keys.
   */
  lemma MergedPropertyReports(name: string, base: string, donor: string, tgt: string, part: string)
    requires BreakFree(name) && !IsCil(name) && donor != "" && tgt != "" && !AlreadyMerged(name, tgt)
    requires Once(PropertyKeys(tgt)) && Once(PropertyKeys(donor))
    ensures var out := Merge(name, Some(base), donor, tgt).value;
      Redefinitions(Definitions([Partition(part, Some(out))]), map[])
      == Clashes(part, DeltaKeys(name, base, donor, tgt), set k | k in PropertyKeys(tgt))
  {
    hide Lines, Delta, Defined, EntriesFrom, KeysOf, AlreadyMerged, KnownOf, IsCil, BreakFree, Merged, Once;
    hide Redefinitions, Clashes, Labelled, Marker;
    var tk, dk := PropertyKeys(tgt), DeltaKeys(name, base, donor, tgt);
    var out := Merge(name, Some(base), donor, tgt).value;
    MergedKeys(name, base, donor, tgt);
    DefinedEntries(Lines(donor), 1);
    DeltaKeysOnce(Lines(donor), KnownOf(name, base, tgt));
    OnePartition(part, out);
    LabelledConcat(part, tk, dk);
    var none: map<Key, string> := map[];
    FirstOnes(part, tk, Labelled(part, dk), none);
    SecondOnes(part, dk, none + AllIn(tk, part), set k | k in tk);
  }

  lemma OnePartition(part: string, t: string)
    ensures Definitions([Partition(part, Some(t))]) == Labelled(part, PropertyKeys(t))
  {
    hide PropertyKeys;
    var p := Partition(part, Some(t));
    assert [p][1..] == [] && Definitions([p]) == Labelled(part, PropertyKeys(t)) + [];
  }

  lemma {:induction false} LabelledConcat(part: string, a: seq<Key>, b: seq<Key>)
    ensures Labelled(part, a + b) == Labelled(part, a) + Labelled(part, b)
  {
    if a == [] {
      assert a + b == b;
    } else {
      ConcatRest(a, b);
      LabelledConcat(part, a[1..], b);
    }
  }

  // ---------------------------------------------------------------- the verdict, all partitions

  predicate Passes(ps: seq<Partition>) {
    Redefinitions(Definitions(ps), map[]) == []
  }

  /** Whether keys are distinct does not depend on their order. */
  lemma DistinctPermuted(a: seq<Definition>, b: seq<Definition>)
    requires multiset(a) == multiset(b)
    ensures DistinctKeys(a) <==> DistinctKeys(b)
  {
    hide DistinctKeys;
    KeyCount(a);
    KeyCount(b);
    assert |multiset(a)| == |a| && |multiset(b)| == |b|;
    assert forall d :: d in a <==> d in multiset(a);
    assert forall d :: d in b <==> d in multiset(b);
    assert DefinedKeys(a) == DefinedKeys(b);
  }

  lemma {:induction false} LabelledAt(part: string, keys: seq<Key>)
    ensures |Labelled(part, keys)| == |keys|
    ensures forall i :: 0 <= i < |keys| ==> Labelled(part, keys)[i] == Definition(keys[i], part)
  {
    if keys != [] {
      LabelledAt(part, keys[1..]);
    }
  }

  lemma DistinctExtended(defs: seq<Definition>, part: string, keys: seq<Key>)
    ensures DistinctKeys(defs + Labelled(part, keys)) <==>
      DistinctKeys(defs) && Once(keys) && forall k <- keys :: k !in DefinedKeys(defs)
  {
    hide DefinedKeys;
    LabelledAt(part, keys);
    var all, n := defs + Labelled(part, keys), |defs|;
    assert forall i :: 0 <= i < n ==> all[i] == defs[i];
    assert forall i :: 0 <= i < |keys| ==> all[n + i] == Definition(keys[i], part);
    if DistinctKeys(all) {
      forall i, j | 0 <= i < j < |keys|
        ensures keys[i] != keys[j]
      {
        assert all[n + i].key != all[n + j].key;
      }
      forall k | k in keys
        ensures k !in DefinedKeys(defs)
      {
        KeyAt(defs, k);
        var j :| 0 <= j < |keys| && keys[j] == k;
        assert all[n + j].key == k;
      }
    }
    if DistinctKeys(defs) && Once(keys) && forall k <- keys :: k !in DefinedKeys(defs) {
      forall i, j | 0 <= i < j < |all|
        ensures all[i].key != all[j].key
      {
        if i < n <= j {
          KeyAt(defs, defs[i].key);
          assert keys[j - n] in keys;
        } else if n <= i {
          assert keys[i - n] != keys[j - n];
        }
      }
    }
  }

  /** The keys the policy step adds: the donor's when its file is grafted whole, otherwise the delta's. */
  function AddedKeys(name: string, base: string, donor: string, tgt: string): seq<Key> {
    if tgt == "" then PropertyKeys(donor)
    else if AlreadyMerged(name, tgt) then []
    else DeltaKeys(name, base, donor, tgt)
  }

  /** One partition of the image before and after the policy step. */
  lemma AddedToPartition(name: string, base: string, donor: string, tgt: string, part: string)
    requires BreakFree(name) && !IsCil(name) && donor != ""
    ensures var out := Merge(name, Some(base), donor, tgt).value;
      KeysIn(Partition(part, Some(out))) == KeysIn(Partition(part, Stock(tgt))) + AddedKeys(name, base, donor, tgt)
  {
    hide Lines, PropertyKeys, DeltaKeys, Merged, AlreadyMerged, IsCil, BreakFree, Delta, KnownOf, Marker;
    if tgt != "" && !AlreadyMerged(name, tgt) {
      MergedKeys(name, base, donor, tgt);
    } else if tgt != "" {
      assert PropertyKeys(tgt) + [] == PropertyKeys(tgt);
    } else {
      assert [] + PropertyKeys(donor) == PropertyKeys(donor);
    }
  }

  /**
   The image with the new file passes exactly when the stock image does, the added keys are distinct, and
   no partition of the stock image defines one of them. For any donor, target and other partitions: the
   file may be merged, merged before, or grafted where there was none.
   */
  lemma MergedImageExact(
      name: string, base: string, donor: string, tgt: string, part: string, a: seq<Partition>, b: seq<Partition>)
    requires BreakFree(name) && !IsCil(name) && donor != ""
    ensures var out, added := Merge(name, Some(base), donor, tgt).value, AddedKeys(name, base, donor, tgt);
      var stock := a + ([Partition(part, Stock(tgt))] + b);
      Passes(a + ([Partition(part, Some(out))] + b)) <==>
        Passes(stock) && Once(added) && forall k <- added :: k !in DefinedKeys(Definitions(stock))
  {
    hide KeysIn, AddedKeys, Definitions, Labelled, Merged, DistinctKeys, Once, Redefinitions, DefinedKeys;
    hide AlreadyMerged, IsCil, BreakFree, Delta, KnownOf, Marker, Stock, Lines;
    var out, added := Merge(name, Some(base), donor, tgt).value, AddedKeys(name, base, donor, tgt);
    var p, p' := Partition(part, Stock(tgt)), Partition(part, Some(out));
    var stock, merged := a + ([p] + b), a + ([p'] + b);
    AddedToPartition(name, base, donor, tgt, part);
    LabelledConcat(part, KeysIn(p), added);
    DefinitionsAround(a, p, b);
    DefinitionsAround(a, p', b);
    assert multiset(Definitions(merged)) == multiset(Definitions(stock) + Labelled(part, added));
    DistinctPermuted(Definitions(merged), Definitions(stock) + Labelled(part, added));
    DistinctExtended(Definitions(stock), part, added);
    PropertyFailuresExact(stock);
    PropertyFailuresExact(merged);
  }

  /** A donor line that reaches the target's partition as an entry. */
  ghost predicate Contributes(name: string, base: string, donor: string, tgt: string, ln: string) {
    && ln in Lines(donor) && IsEntry(ln)
    && (tgt == "" || (!AlreadyMerged(name, tgt) && Wanted(ln, KnownOf(name, base, tgt))))
  }

  lemma {:induction false} DefinedExact(ls: seq<string>, k: Key)
    ensures k in Defined(ls) <==> exists ln :: ln in ls && IsEntry(ln) && PropertyKey(Strip(ln)) == Some(k)
  {
    hide IsEntry, Strip, PropertyKey;
    if ls != [] {
      DefinedExact(ls[1..], k);
      assert ls == [ls[0]] + ls[1..];
    }
  }

  lemma AddedKeysExact(name: string, base: string, donor: string, tgt: string, k: Key)
    ensures k in AddedKeys(name, base, donor, tgt) <==>
      exists ln :: Contributes(name, base, donor, tgt, ln) && PropertyKey(Strip(ln)) == Some(k)
  {
    hide Lines, IsEntry, Strip, PropertyKey, Wanted, KnownOf, AlreadyMerged, Defined, Delta, KeysOf, EntriesFrom;
    DefinedEntries(Lines(donor), 1);
    DefinedExact(Lines(donor), k);
    DeltaKeysExact(Lines(donor), KnownOf(name, base, tgt), k);
  }

  /** A line that contributes a key some partition already defines makes the image fail, whatever else there is. */
  lemma RelabelledProperty(
      name: string, base: string, donor: string, tgt: string, part: string, a: seq<Partition>, b: seq<Partition>,
      ln: string, k: Key)
    requires BreakFree(name) && !IsCil(name) && donor != ""
    requires Contributes(name, base, donor, tgt, ln) && PropertyKey(Strip(ln)) == Some(k)
    requires k in DefinedKeys(Definitions(a + ([Partition(part, Stock(tgt))] + b)))
    ensures !Passes(a + ([Partition(part, Some(Merge(name, Some(base), donor, tgt).value))] + b))
  {
    hide Contributes, PropertyKey, Strip, AddedKeys, Definitions, DefinedKeys, Passes, Once, Merged, Stock;
    hide AlreadyMerged, IsCil, BreakFree, Delta, KnownOf, Marker, Lines;
    AddedKeysExact(name, base, donor, tgt, k);
    MergedImageExact(name, base, donor, tgt, part, a, b);
  }

  /** Over a passing image, a donor that defines every key once fails it in this way and in no other. */
  lemma PassesUnlessRelabelled(
      name: string, base: string, donor: string, tgt: string, part: string, a: seq<Partition>, b: seq<Partition>)
    requires BreakFree(name) && !IsCil(name) && donor != "" && Once(PropertyKeys(donor))
    requires Passes(a + ([Partition(part, Stock(tgt))] + b))
    ensures Passes(a + ([Partition(part, Some(Merge(name, Some(base), donor, tgt).value))] + b)) <==>
      forall ln, k :: Contributes(name, base, donor, tgt, ln) && PropertyKey(Strip(ln)) == Some(k) ==>
        k !in DefinedKeys(Definitions(a + ([Partition(part, Stock(tgt))] + b)))
  {
    hide Contributes, PropertyKey, Strip, Definitions, DefinedKeys, Passes, Once, Merged, Stock, Defined;
    hide AlreadyMerged, IsCil, BreakFree, Delta, KnownOf, Marker, Lines, KeysOf, EntriesFrom;
    var added := AddedKeys(name, base, donor, tgt);
    forall k: Key
      ensures k in added <==> exists ln :: Contributes(name, base, donor, tgt, ln) && PropertyKey(Strip(ln)) == Some(k)
    {
      AddedKeysExact(name, base, donor, tgt, k);
    }
    DefinedEntries(Lines(donor), 1);
    DeltaKeysOnce(Lines(donor), KnownOf(name, base, tgt));
    NoneOnce();
    MergedImageExact(name, base, donor, tgt, part, a, b);
  }

  lemma NoneOnce()
    ensures Once([])
  {
  }

  // ---------------------------------------------------------------- a merge that breaks the build

  lemma {:induction false} NotContained(s: string, part: string)
    requires |s| < |part|
    ensures !Contains(s, part)
  {
    if s != "" {
      NotContained(s[1..], part);
    }
  }

  /** Two lines for one key, and neither is the other after normalisation. */
  lemma SameKeyOtherLine(name: string, part: string, l: string, l': string, k: Key)
    requires BreakFree(name) && !IsCil(name) && BreakFree(l) && BreakFree(l') && !Contains(l, Marker(name))
    requires IsEntry(l) && IsEntry(l') && !(";" <= Strip(l'))
    requires PropertyKey(Strip(l)) == Some(k) && PropertyKey(Strip(l')) == Some(k) && Norm(l') != Norm(l)
    ensures var out := Merge(name, Some(""), l' + "\n", l + "\n").value;
      Redefinitions(Definitions([Partition(part, Some(out))]), map[]) == [Redefined(k, part, part)]
  {
    hide Lines, Norm, Strip, PropertyKey, Marker, Contains, IsCil, BreakFree, Merge, Redefinitions, Definitions;
    OneLine(l);
    OneLine(l');
    var tgt, donor := l + "\n", l' + "\n";
    var known := KnownOf(name, "", tgt);
    BlankKey(l');
    NoLinesAtAll();
    assert Lines(tgt) == [l] && [l'][1..] == [] && [l][1..] == [];
    assert Keys([]) == {};
    assert Wanted(l', known);
    assert Delta([l'], known) == [RStrip(l')] + Delta([], known);
    StripOfRStrip(l');
    OneDefined(RStrip(l'), k);
    OneDefined(l, k);
    OneDefined(l', k);
    DefinedEntries(Lines(tgt), 1);
    DefinedEntries(Lines(donor), 1);
    MergedPropertyReports(name, "", donor, tgt, part);
    assert [k][1..] == [];
  }

  /** A property whose label the donor changes: both lines stay, and the check rejects the file. */
  lemma RelabelledLine(name: string, part: string, p: string, c: string, c': string)
    requires BreakFree(name) && !IsCil(name) && IsWord(p) && IsWord(c) && IsWord(c') && c != c'
    requires p[0] != '#' && p[0] != ';' && IsContext(c) && IsContext(c')
    requires !Contains(p + " " + c, Marker(name))
    ensures var out := Merge(name, Some(""), p + " " + c' + "\n", p + " " + c + "\n").value;
      Redefinitions(Definitions([Partition(part, Some(out))]), map[]) == [Redefined((p, false), part, part)]
  {
    hide Fields, Strip, Norm, IsContext, Contains, Marker, IsCil, Merge, Redefinitions, Definitions;
    TwoFields(p, c);
    TwoFields(p, c');
    var l, l' := p + " " + c, p + " " + c';
    assert l[0] == p[0] && l'[0] == p[0];
    SameKeyIffSameFields(l, l');
    assert [p, c][1] != [p, c'][1];
    SameKeyOtherLine(name, part, l, l', (p, false));
  }

  lemma TwoFields(p: string, c: string)
    requires IsWord(p) && IsWord(c)
    ensures var l := p + " " + c; BreakFree(l) && Strip(l) == l && Fields(l) == [p, c]
  {
    hide Fields, Strip;
    var l := p + " " + c;
    assert JoinFields([p, c]) == l by {
      assert [p, c][1..] == [c] && [c][1..] == [];
    }
    FieldsOfJoin([p, c]);
    StripUnique("", l, "");
    assert "" + l + "" == l && l[|l| - 1] == c[|c| - 1];
  }

  /** One such pair of lines. */
  lemma MergeRedefines()
    ensures var out := Merge("system_ext_property_contexts", Some(""), "p u:r:y:s\n", "p u:r:x:s\n").value;
      Redefinitions(Definitions([Partition("system_ext", Some(out))]), map[])
      == [Redefined(("p", false), "system_ext", "system_ext")]
  {
    hide Contains, Merge, Redefinitions, Definitions, Parts, Marker, IsCil;
    var name, l := "system_ext_property_contexts", "p" + " " + "u:r:x:s";
    SplitParts("u:r:x:s", "u", "r", "x", "s");
    SplitParts("u:r:y:s", "u", "r", "y", "s");
    assert "u:r:x:s"[4] != "u:r:y:s"[4];
    LongMarker(name);
    NotContained(l, Marker(name));
    RelabelledLine(name, "system_ext", "p", "u:r:x:s", "u:r:y:s");
    assert l + "\n" == "p u:r:x:s\n" && "p" + " " + "u:r:y:s" + "\n" == "p u:r:y:s\n";
  }

  lemma LongMarker(name: string)
    requires name == "system_ext_property_contexts"
    ensures |Marker(name)| > 20 && !IsCil(name) && BreakFree(name)
  {
  }

  lemma NoLinesAtAll()
    ensures Lines("") == []
  {
  }

  lemma OneDefined(l: string, k: Key)
    requires Strip(l) != "" && !("#" <= Strip(l)) && PropertyKey(Strip(l)) == Some(k)
    ensures Defined([l]) == [k] && Once([k])
  {
    hide Strip, PropertyKey;
    assert [l][1..] == [] && Defined([l]) == [k] + Defined([]);
  }
}
