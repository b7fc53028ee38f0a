/** The static checks on contexts files: the syntax of each entry, and properties defined twice. */
module Validator {
  import opened Wrappers
  import opened Sequences
  import opened Text
  import opened LineKeys

  // ---------------------------------------------------------------- one entry

  datatype Reason =
    | SemicolonLine | FieldCount(n: nat) | FileType(t: string) | BadContext(c: string)
    | MissingContext | MatchKind(k: string) | PropertyType(t: string)

  const FILE_TYPES: set<string> := {"--", "-b", "-c", "-d", "-p", "-l", "-s"}
  const PROPERTY_TYPES: set<string> := {"string", "bool", "int", "uint", "double", "size", "enum"}
  const MATCH_KINDS: set<string> := {"exact", "prefix"}

  /** Length of the leading run without `:`. */
  function ColonFree(s: string): (n: nat)
    ensures n <= |s| && (n < |s| ==> s[n] == ':') && forall i :: 0 <= i < n ==> s[i] != ':'
  {
    if s == "" || s[0] == ':' then 0 else 1 + ColonFree(s[1..])
  }

  /** `n` colon-separated non-empty parts and a non-empty rest, all without white space. */
  predicate Parts(s: string, n: nat) {
    if n == 0 then IsWord(s)
    else
      var k := ColonFree(s);
      k < |s| && IsWord(s[..k]) && Parts(s[k + 1..], n - 1)
  }

  /** `^(<<none>>|[^:\s]+:[^:\s]+:[^:\s]+:[^\s]+)$` on a field, which holds no white space. */
  predicate IsContext(s: string) {
    s == "<<none>>" || Parts(s, 3)
  }

  function BadContextLine(name: string, s: string): Option<Reason> {
    var t := Fields(s);
    if ";" <= s then Some(SemicolonLine)
    else if EndsWith(name, "file_contexts") then
      if |t| != 2 && |t| != 3 then Some(FieldCount(|t|))
      else if |t| == 3 && t[1] !in FILE_TYPES then Some(FileType(t[1]))
      else if !IsContext(t[|t| - 1]) then Some(BadContext(t[|t| - 1]))
      else None
    else if EndsWith(name, "service_contexts") then
      if |t| != 2 then Some(FieldCount(|t|))
      else if !IsContext(t[1]) then Some(BadContext(t[1]))
      else None
    else if EndsWith(name, "property_contexts") then
      if |t| < 2 then Some(MissingContext)
      else if !IsContext(t[1]) then Some(BadContext(t[1]))
      else if |t| >= 3 && t[2] !in MATCH_KINDS then Some(MatchKind(t[2]))
      else if |t| >= 4 && t[3] !in PROPERTY_TYPES then Some(PropertyType(t[3]))
      else None
    else None
  }

  ghost predicate FileEntry(t: seq<string>) {
    || (exists r, c :: t == [r, c] && IsLabel(c))
    || exists r, k, c :: t == [r, k, c] && IsFileType(k) && IsLabel(c)
  }

  ghost predicate ServiceEntry(t: seq<string>) {
    exists r, c :: t == [r, c] && IsLabel(c)
  }

  ghost predicate PropertyEntry(t: seq<string>) {
    exists r, c, more :: t == [r, c] + more && IsLabel(c)
      && (|more| >= 1 ==> IsMatch(more[0])) && (|more| >= 2 ==> IsPropertyType(more[1]))
  }

  /** The field tests of the three file kinds, as grammars. */
  lemma FileFields(t: seq<string>)
    ensures FileEntry(t) <==>
      (|t| == 2 || (|t| == 3 && IsFileType(t[1]))) && IsLabel(t[|t| - 1])
  {
    hide IsLabel, IsFileType, IsMatch, IsPropertyType;
    if |t| == 2 {
      assert t == [t[0], t[1]];
    } else if |t| == 3 {
      assert t == [t[0], t[1], t[2]];
    }
  }

  lemma ServiceFields(t: seq<string>)
    ensures ServiceEntry(t) <==> |t| == 2 && IsLabel(t[1])
  {
    hide IsLabel, IsFileType, IsMatch, IsPropertyType;
    if |t| == 2 {
      assert t == [t[0], t[1]];
    }
  }

  lemma PropertyFields(t: seq<string>)
    ensures PropertyEntry(t) <==>
      && |t| >= 2 && IsLabel(t[1])
      && (|t| >= 3 ==> IsMatch(t[2])) && (|t| >= 4 ==> IsPropertyType(t[3]))
  {
    hide IsLabel, IsFileType, IsMatch, IsPropertyType;
    if |t| >= 2 {
      var more := t[2..];
      assert t == [t[0], t[1]] + more;
      assert |t| >= 3 ==> more[0] == t[2];
      assert |t| >= 4 ==> more[1] == t[3];
    }
    forall r, c, more | t == [r, c] + more
      ensures t[1] == c && (|more| >= 1 ==> t[2] == more[0]) && (|more| >= 2 ==> t[3] == more[1])
    {
    }
  }

  /** What the syntax check accepts, as a grammar of fields for each kind of file. */
  lemma AcceptedExact(name: string, s: string)
    ensures EndsWith(name, "file_contexts") ==>
      (BadContextLine(name, s) == None <==> !(";" <= s) && FileEntry(Fields(s)))
    ensures EndsWith(name, "service_contexts") && !EndsWith(name, "file_contexts") ==>
      (BadContextLine(name, s) == None <==> !(";" <= s) && ServiceEntry(Fields(s)))
    ensures EndsWith(name, "property_contexts") ==>
      (BadContextLine(name, s) == None <==> !(";" <= s) && PropertyEntry(Fields(s)))
  {
    hide Fields, IsContext, IsLabel, IsFileType, IsMatch, IsPropertyType, FILE_TYPES, MATCH_KINDS, PROPERTY_TYPES;
    hide FileEntry, ServiceEntry, PropertyEntry, EndsWith;
    var t := Fields(s);
    forall w: string
      ensures (IsContext(w) <==> IsLabel(w)) && (w in FILE_TYPES <==> IsFileType(w))
      ensures (w in MATCH_KINDS <==> IsMatch(w)) && (w in PROPERTY_TYPES <==> IsPropertyType(w))
    {
      WordsExact(w);
    }
    if EndsWith(name, "file_contexts") {
      FileFields(t);
    } else if EndsWith(name, "service_contexts") {
      ServiceFields(t);
    }
    if EndsWith(name, "property_contexts") {
      OtherEnds(name);
      PropertyFields(t);
    }
  }

  // ---------------------------------------------------------------- entries of a file

  /** Only `#` starts a comment. */
  predicate IsEntry(ln: string) {
    Strip(ln) != "" && !("#" <= Strip(ln))
  }

  datatype Entry = Entry(line: nat, text: string)

  /** The entries among `ls`, numbered from `n`. */
  function EntriesFrom(ls: seq<string>, n: nat): seq<Entry> {
    if ls == [] then []
    else (if IsEntry(ls[0]) then [Entry(n, Strip(ls[0]))] else []) + EntriesFrom(ls[1..], n + 1)
  }

  function Entries(t: string): seq<Entry> {
    EntriesFrom(Lines(t), 1)
  }

  /** An entry is a line of the file that is neither blank nor a comment, with its line number. */
  lemma {:induction false} EntriesExact(ls: seq<string>, n: nat, e: Entry)
    ensures e in EntriesFrom(ls, n) <==>
      n <= e.line < n + |ls| && IsEntry(ls[e.line - n]) && e.text == Strip(ls[e.line - n])
  {
    hide IsEntry, Strip;
    if ls != [] {
      EntriesExact(ls[1..], n + 1, e);
    }
  }

  method ReadEntries(t: string) returns (out: seq<Entry>)
    ensures out == Entries(t)
  {
    hide Strip, Lines;
    var ls := Lines(t);
    out := [];
    var i := 0;
    while i < |ls|
      invariant 0 <= i <= |ls| && out + EntriesFrom(ls[i..], i + 1) == EntriesFrom(ls, 1)
    {
      var s := Strip(ls[i]);
      assert ls[i..][0] == ls[i] && ls[i..][1..] == ls[i + 1..];
      if s != "" && !("#" <= s) {
        out := out + [Entry(i + 1, s)];
      } else {
        assert [] + EntriesFrom(ls[i + 1..], i + 2) == EntriesFrom(ls[i + 1..], i + 2);
      }
      i := i + 1;
    }
    assert out + [] == out;
  }

  // ---------------------------------------------------------------- the two checks

  /** The key of the property trie: the name, and whether it is matched exactly. */
  type Key = (string, bool)

  datatype Failure =
    | BadLine(file: string, line: nat, why: Reason, text: string)
    | Redefined(key: Key, first: string, second: string)

  /** Entries of the substrate that the stock file does not have and that are malformed. */
  function BadLines(name: string, stock: set<string>, es: seq<Entry>): seq<Failure> {
    if es == [] then []
    else
      var why := if es[0].text in stock then None else BadContextLine(name, es[0].text);
      (if why.Some? then [BadLine(name, es[0].line, why.value, es[0].text)] else [])
        + BadLines(name, stock, es[1..])
  }

  /** Exactly the new and malformed entries are reported, with their line, reason and text. */
  lemma {:induction false} BadLinesExact(name: string, stock: set<string>, es: seq<Entry>, f: Failure)
    ensures f in BadLines(name, stock, es) <==>
      exists e :: e in es && e.text !in stock && BadContextLine(name, e.text).Some?
        && f == BadLine(name, e.line, BadContextLine(name, e.text).value, e.text)
  {
    hide BadContextLine;
    if es != [] {
      BadLinesExact(name, stock, es[1..], f);
      assert es == [es[0]] + es[1..];
    }
  }

  function StockTexts(stock: Option<string>): set<string> {
    if stock.None? then {} else set e | e in Entries(stock.value) :: e.text
  }

  /** The failures of one contexts file; `None` is a file that does not exist. */
  function ContextFailures(name: string, stock: Option<string>, sub: Option<string>): seq<Failure> {
    if sub.None? then [] else BadLines(name, StockTexts(stock), Entries(sub.value))
  }

  /** What the trie builder takes from an entry. */
  function PropertyKey(s: string): Option<Key> {
    var t := Fields(s);
    if |t| >= 2 && IsContext(t[1]) && (|t| < 3 || t[2] in MATCH_KINDS)
    then Some((t[0], |t| >= 3 && t[2] == "exact")) else None
  }

  function KeysOf(es: seq<Entry>): seq<Key> {
    if es == [] then []
    else (if PropertyKey(es[0].text).Some? then [PropertyKey(es[0].text).value] else []) + KeysOf(es[1..])
  }

  function PropertyKeys(t: string): seq<Key> {
    KeysOf(Entries(t))
  }

  /** One partition's property file. */
  datatype Partition = Partition(part: string, content: Option<string>)

  function KeysIn(p: Partition): seq<Key> {
    if p.content.None? then [] else PropertyKeys(p.content.value)
  }

  /** A key and the partition that defines it. */
  datatype Definition = Definition(key: Key, part: string)

  function Labelled(part: string, keys: seq<Key>): seq<Definition> {
    if keys == [] then [] else [Definition(keys[0], part)] + Labelled(part, keys[1..])
  }

  /** Everything the partitions define, in the order they are read. */
  function Definitions(ps: seq<Partition>): seq<Definition> {
    if ps == [] then [] else Labelled(ps[0].part, KeysIn(ps[0])) + Definitions(ps[1..])
  }

  /** Each definition of a key seen before, with the partition that had it first. */
  function Redefinitions(defs: seq<Definition>, seen: map<Key, string>): seq<Failure> {
    if defs == [] then []
    else if defs[0].key in seen then
      [Redefined(defs[0].key, seen[defs[0].key], defs[0].part)] + Redefinitions(defs[1..], seen)
    else Redefinitions(defs[1..], seen[defs[0].key := defs[0].part])
  }

  class Checker {
    var failures: seq<Failure>

    constructor ()
      ensures failures == []
    {
      failures := [];
    }

    method Fail(f: Failure)
      modifies this
      ensures failures == old(failures) + [f]
    {
      failures := failures + [f];
    }

    /** Checks one contexts file against the stock one; earlier failures stay. */
    method CheckContexts(name: string, stock: Option<string>, sub: Option<string>) returns (nBad: nat)
      modifies this
      ensures failures == old(failures) + ContextFailures(name, stock, sub)
      ensures nBad == |ContextFailures(name, stock, sub)|
    {
      hide Entries, BadContextLine, BadLines;
      nBad := 0;
      if sub.None? {
        return;
      }
      var stockLines := StockTexts(stock);
      var es := ReadEntries(sub.value);
      ghost var all := BadLines(name, stockLines, es);
      var i := 0;
      assert es[0..] == es;
      while i < |es|
        invariant 0 <= i <= |es|
        invariant failures + BadLines(name, stockLines, es[i..]) == old(failures) + all
        invariant nBad == |failures| - |old(failures)|
      {
        NextEntry(name, stockLines, es, i);
        var e := es[i];
        i := i + 1;
        if e.text in stockLines {
          continue;
        }
        var why := BadContextLine(name, e.text);
        if why.Some? {
          nBad := nBad + 1;
          Fail(BadLine(name, e.line, why.value, e.text));
        }
      }
      NoEntries(name, stockLines, es[i..]);
    }

    /** Reports every key that an earlier entry, of the same or another partition, already defined. */
    method CheckProperties(ps: seq<Partition>) returns (dup: nat)
      modifies this
      ensures failures == old(failures) + Redefinitions(Definitions(ps), map[])
      ensures dup == |Redefinitions(Definitions(ps), map[])|
    {
      hide PropertyKeys, KeysIn, Definitions, Labelled, Redefinitions;
      var seen: map<Key, string> := map[];
      assert ps[0..] == ps;
      dup := 0;
      ghost var all := Redefinitions(Definitions(ps), map[]);
      ghost var before := failures;
      var i := 0;
      while i < |ps|
        invariant 0 <= i <= |ps|
        invariant failures + Redefinitions(Definitions(ps[i..]), seen) == before + all
        invariant dup == |failures| - |before|
      {
        NextPartition(ps, i);
        var keys := KeysIn(ps[i]);
        ghost var later := Definitions(ps[i + 1..]);
        assert keys[0..] == keys;
        var j := 0;
        while j < |keys|
          invariant 0 <= j <= |keys|
          invariant failures + Redefinitions(Labelled(ps[i].part, keys[j..]) + later, seen) == before + all
          invariant dup == |failures| - |before|
        {
          var key := keys[j];
          DefinitionAt(ps[i].part, keys, j, later, seen);
          if key in seen {
            dup := dup + 1;
            Fail(Redefined(key, seen[key], ps[i].part));
          } else {
            seen := seen[key := ps[i].part];
          }
          j := j + 1;
        }
        NoneLeft(ps[i].part, keys[j..], later);
        i := i + 1;
      }
      assert Redefinitions(Definitions(ps[i..]), seen) == [] by {
        NothingDefined(ps[i..], seen);
      }
      assert failures + [] == failures;
    }
  }

  lemma NextEntry(name: string, stock: set<string>, es: seq<Entry>, i: nat)
    requires i < |es|
    ensures var rest := BadLines(name, stock, es[i + 1..]);
      BadLines(name, stock, es[i..])
      == if es[i].text in stock || BadContextLine(name, es[i].text).None? then rest
         else [BadLine(name, es[i].line, BadContextLine(name, es[i].text).value, es[i].text)] + rest
  {
    hide BadContextLine;
    assert es[i..][0] == es[i] && es[i..][1..] == es[i + 1..];
    var rest := BadLines(name, stock, es[i + 1..]);
    assert [] + rest == rest;
  }

  lemma NoEntries(name: string, stock: set<string>, es: seq<Entry>)
    requires es == []
    ensures BadLines(name, stock, es) == []
  {
  }

  lemma NextPartition(ps: seq<Partition>, i: nat)
    requires i < |ps|
    ensures Definitions(ps[i..]) == Labelled(ps[i].part, KeysIn(ps[i])) + Definitions(ps[i + 1..])
  {
    hide KeysIn, Labelled;
    assert ps[i..][0] == ps[i] && ps[i..][1..] == ps[i + 1..];
  }

  lemma NoneLeft(part: string, keys: seq<Key>, later: seq<Definition>)
    requires keys == []
    ensures Labelled(part, keys) + later == later
  {
  }

  lemma NothingDefined(ps: seq<Partition>, seen: map<Key, string>)
    requires ps == []
    ensures Redefinitions(Definitions(ps), seen) == []
  {
  }

  lemma NextDefinition(part: string, keys: seq<Key>, later: seq<Definition>, seen: map<Key, string>)
    requires keys != []
    ensures Redefinitions(Labelled(part, keys) + later, seen)
         == if keys[0] in seen
            then [Redefined(keys[0], seen[keys[0]], part)] + Redefinitions(Labelled(part, keys[1..]) + later, seen)
            else Redefinitions(Labelled(part, keys[1..]) + later, seen[keys[0] := part])
  {
    var d := Definition(keys[0], part);
    assert Labelled(part, keys) + later == [d] + (Labelled(part, keys[1..]) + later);
    FirstRest(d, Labelled(part, keys[1..]) + later);
  }

  lemma DefinitionAt(part: string, keys: seq<Key>, j: nat, later: seq<Definition>, seen: map<Key, string>)
    requires j < |keys|
    ensures Redefinitions(Labelled(part, keys[j..]) + later, seen)
         == if keys[j] in seen
            then [Redefined(keys[j], seen[keys[j]], part)] + Redefinitions(Labelled(part, keys[j + 1..]) + later, seen)
            else Redefinitions(Labelled(part, keys[j + 1..]) + later, seen[keys[j] := part])
  {
    hide Labelled, Redefinitions;
    NextDefinition(part, keys[j..], later, seen);
    assert keys[j..][1..] == keys[j + 1..];
  }

  // ---------------------------------------------------------------- what the property check counts

  function DefinedKeys(defs: seq<Definition>): set<Key> {
    set d | d in defs :: d.key
  }

  lemma DefinedCons(defs: seq<Definition>)
    requires defs != []
    ensures DefinedKeys(defs) == {defs[0].key} + DefinedKeys(defs[1..])
  {
    assert defs == [defs[0]] + defs[1..];
  }

  lemma SeenOnce(seen: map<Key, string>, k: Key, part: string, later: set<Key>)
    ensures k in seen ==> seen.Keys + ({k} + later) == seen.Keys + later
    ensures k !in seen ==>
      && seen.Keys + ({k} + later) == seen[k := part].Keys + later
      && |seen[k := part].Keys| == |seen.Keys| + 1
  {
    assert k !in seen ==> seen[k := part].Keys == seen.Keys + {k};
  }

  lemma {:induction false} RedefinitionCount(defs: seq<Definition>, seen: map<Key, string>)
    ensures |Redefinitions(defs, seen)| + |seen.Keys + DefinedKeys(defs)| == |defs| + |seen.Keys|
  {
    if defs == [] {
      assert seen.Keys + DefinedKeys(defs) == seen.Keys;
    } else {
      hide DefinedKeys;
      var k, rest := defs[0].key, defs[1..];
      DefinedCons(defs);
      SeenOnce(seen, k, defs[0].part, DefinedKeys(rest));
      RedefinitionCount(rest, if k in seen then seen else seen[k := defs[0].part]);
    }
  }

  predicate DistinctKeys(defs: seq<Definition>) {
    forall i, j :: 0 <= i < j < |defs| ==> defs[i].key != defs[j].key
  }

  lemma KeyAt(defs: seq<Definition>, k: Key)
    ensures k in DefinedKeys(defs) <==> exists i :: 0 <= i < |defs| && defs[i].key == k
  {
    forall i | 0 <= i < |defs|
      ensures defs[i].key in DefinedKeys(defs)
    {
      assert defs[i] in defs;
    }
  }

  lemma DistinctHead(defs: seq<Definition>)
    requires defs != []
    ensures DistinctKeys(defs) <==> DistinctKeys(defs[1..]) && defs[0].key !in DefinedKeys(defs[1..])
  {
    hide DefinedKeys;
    var rest := defs[1..];
    KeyAt(rest, defs[0].key);
    assert forall i :: 0 <= i < |rest| ==> rest[i] == defs[i + 1];
    if DistinctKeys(rest) && defs[0].key !in DefinedKeys(rest) {
      forall i, j | 0 <= i < j < |defs|
        ensures defs[i].key != defs[j].key
      {
        assert defs[j] == rest[j - 1];
        assert i > 0 ==> defs[i] == rest[i - 1];
      }
    }
  }

  lemma {:induction false} KeyCount(defs: seq<Definition>)
    ensures |DefinedKeys(defs)| <= |defs|
    ensures |DefinedKeys(defs)| == |defs| <==> DistinctKeys(defs)
  {
    if defs == [] {
      assert DefinedKeys(defs) == {};
    } else {
      hide DistinctKeys, DefinedKeys;
      KeyCount(defs[1..]);
      DistinctHead(defs);
      DefinedCons(defs);
    }
  }

  /**
   The check records exactly as many failures as there are definitions beyond the distinct keys, so it
   passes exactly when no key is defined twice.
   */
  lemma PropertyFailuresExact(ps: seq<Partition>)
    ensures var defs := Definitions(ps); var fs := Redefinitions(defs, map[]);
      && |fs| == |defs| - |DefinedKeys(defs)|
      && (fs == [] <==> DistinctKeys(defs))
  {
    hide Definitions, DistinctKeys, Redefinitions;
    var defs := Definitions(ps);
    RedefinitionCount(defs, map[]);
    KeyCount(defs);
    var none: map<Key, string> := map[];
    assert none.Keys + DefinedKeys(defs) == DefinedKeys(defs);
  }

  /** The partition that defines the key first, before `defs` or in them. */
  function FirstPart(defs: seq<Definition>, seen: map<Key, string>, k: Key): Option<string> {
    if k in seen then Some(seen[k])
    else if defs == [] then None
    else if defs[0].key == k then Some(defs[0].part)
    else FirstPart(defs[1..], seen, k)
  }

  /** One more definition adds one report at the end, or none when its key is new. */
  lemma {:induction false} RedefinitionsExact(defs: seq<Definition>, seen: map<Key, string>, d: Definition)
    ensures Redefinitions([], seen) == []
    ensures var first := FirstPart(defs, seen, d.key);
      Redefinitions(defs + [d], seen)
      == Redefinitions(defs, seen) + if first.None? then [] else [Redefined(d.key, first.value, d.part)]
  {
    if defs == [] {
      assert [] + [d] == [d] && [d][1..] == [];
    } else {
      var seen' := if defs[0].key in seen then seen else seen[defs[0].key := defs[0].part];
      ConcatRest(defs, [d]);
      RedefinitionsExact(defs[1..], seen', d);
      FirstStays(defs, seen, d.key);
    }
  }

  lemma FirstStays(defs: seq<Definition>, seen: map<Key, string>, k: Key)
    requires defs != []
    ensures var d := defs[0];
      FirstPart(defs, seen, k) == FirstPart(defs[1..], if d.key in seen then seen else seen[d.key := d.part], k)
  {
    if k !in seen && k != defs[0].key {
      SameFirst(defs[1..], seen, seen[defs[0].key := defs[0].part], k);
    }
  }

  lemma {:induction false} SameFirst(defs: seq<Definition>, seen: map<Key, string>, seen': map<Key, string>, k: Key)
    requires k !in seen && k !in seen'
    ensures FirstPart(defs, seen, k) == FirstPart(defs, seen', k)
  {
    if defs != [] {
      SameFirst(defs[1..], seen, seen', k);
    }
  }

  /** Definition `j` repeats a key that was first defined, in partition `first`, earlier or before. */
  ghost predicate Repeats(defs: seq<Definition>, seen: map<Key, string>, f: Failure, j: nat) {
    && f.Redefined? && j < |defs| && defs[j] == Definition(f.key, f.second)
    && if f.key in seen then f.first == seen[f.key]
       else exists i :: 0 <= i < j && defs[i] == Definition(f.key, f.first)
              && forall k :: 0 <= k < i ==> defs[k].key != f.key
  }

  /** Every report names the partition that repeats the key and the one that had it first. */
  lemma {:induction false} RedefinitionOrigin(defs: seq<Definition>, seen: map<Key, string>, f: Failure)
    requires f in Redefinitions(defs, seen)
    ensures exists j: nat :: Repeats(defs, seen, f, j)
  {
    var d, rest := defs[0], defs[1..];
    if d.key in seen && f == Redefined(d.key, seen[d.key], d.part) {
      assert Repeats(defs, seen, f, 0);
    } else {
      var seen' := if d.key in seen then seen else seen[d.key := d.part];
      RedefinitionOrigin(rest, seen', f);
      var j: nat :| Repeats(rest, seen', f, j);
      assert forall k :: 0 <= k < |rest| ==> rest[k] == defs[k + 1];
      if f.key !in seen {
        if f.key == d.key {
          assert defs[0] == Definition(f.key, f.first);
        } else {
          var i :| 0 <= i < j && rest[i] == Definition(f.key, f.first)
                   && forall k :: 0 <= k < i ==> rest[k].key != f.key;
          assert defs[i + 1] == Definition(f.key, f.first);
          assert forall k :: 0 <= k < i + 1 ==> defs[k].key != f.key;
        }
      }
      assert Repeats(defs, seen, f, j + 1);
    }
  }

  lemma {:induction false} DefinitionsConcat(a: seq<Partition>, b: seq<Partition>)
    ensures Definitions(a + b) == Definitions(a) + Definitions(b)
  {
    hide KeysIn, Labelled;
    if a == [] {
      assert a + b == b;
    } else {
      ConcatRest(a, b);
      DefinitionsConcat(a[1..], b);
    }
  }

  lemma DefinitionsAround(a: seq<Partition>, p: Partition, b: seq<Partition>)
    ensures multiset(Definitions(a + ([p] + b)))
         == multiset(Labelled(p.part, KeysIn(p))) + multiset(Definitions(a + b))
  {
    hide KeysIn, Labelled;
    DefinitionsConcat(a, b);
    DefinitionsConcat(a, [p] + b);
    FirstRest(p, b);
    assert Definitions([p] + b) == Labelled(p.part, KeysIn(p)) + Definitions(b);
  }

  lemma MultisetAround<T>(a: seq<T>, x: T, b: seq<T>)
    ensures multiset(a + ([x] + b)) == multiset(a + b) + multiset{x}
  {
  }

  lemma CancelOne<T>(a: multiset<T>, b: multiset<T>, x: T)
    requires a + multiset{x} == b + multiset{x}
    ensures a == b
  {
    assert a == (a + multiset{x}) - multiset{x} && b == (b + multiset{x}) - multiset{x};
  }

  lemma AroundAt<T>(s: seq<T>, k: nat)
    requires k < |s|
    ensures s == s[..k] + ([s[k]] + s[k + 1..])
  {
  }

  lemma TakenOut<T>(ps: seq<T>, qs: seq<T>) returns (a: seq<T>, b: seq<T>)
    requires ps != [] && multiset(ps) == multiset(qs)
    ensures qs == a + ([ps[0]] + b) && multiset(ps[1..]) == multiset(a + b)
  {
    assert ps[0] in multiset(qs);
    var k :| 0 <= k < |qs| && qs[k] == ps[0];
    a, b := qs[..k], qs[k + 1..];
    AroundAt(qs, k);
    AroundAt(ps, 0);
    MultisetAround(a, ps[0], b);
    MultisetAround(ps[..0], ps[0], ps[1..]);
    CancelOne(multiset(ps[..0] + ps[1..]), multiset(a + b), ps[0]);
    EmptyFront(ps);
  }

  lemma EmptyFront<T>(s: seq<T>)
    requires s != []
    ensures s[..0] + s[1..] == s[1..]
  {
  }

  /** Reading the partitions in another order reads the same definitions in another order. */
  lemma {:induction false} DefinitionsPermuted(ps: seq<Partition>, qs: seq<Partition>)
    requires multiset(ps) == multiset(qs)
    ensures multiset(Definitions(ps)) == multiset(Definitions(qs))
  {
    if ps == [] {
      assert |multiset(qs)| == 0;
    } else {
      hide Definitions, KeysIn, Labelled;
      var a, b := TakenOut(ps, qs);
      DefinitionsPermuted(ps[1..], a + b);
      DefinitionsAround(a, ps[0], b);
      DefinitionsAround([], ps[0], ps[1..]);
      assert [] + ps[1..] == ps[1..] && [] + ([ps[0]] + ps[1..]) == ps;
    }
  }

  /** Neither the verdict nor the count depends on the order of the partitions. */
  lemma PropertyOrderIrrelevant(ps: seq<Partition>, qs: seq<Partition>)
    requires multiset(ps) == multiset(qs)
    ensures |Redefinitions(Definitions(ps), map[])| == |Redefinitions(Definitions(qs), map[])|
  {
    hide Definitions, DistinctKeys, Redefinitions;
    DefinitionsPermuted(ps, qs);
    var a, b := Definitions(ps), Definitions(qs);
    PropertyFailuresExact(ps);
    PropertyFailuresExact(qs);
    assert |multiset(a)| == |multiset(b)|;
    assert forall d :: d in a <==> d in multiset(a);
    assert forall d :: d in b <==> d in multiset(b);
    assert DefinedKeys(a) == DefinedKeys(b);
  }

  // ---------------------------------------------------------------- contexts

  ghost predicate IsSplit(s: string, a: string, b: string, c: string, d: string) {
    && s == a + ":" + b + ":" + c + ":" + d
    && IsWord(a) && IsWord(b) && IsWord(c) && IsWord(d)
    && ':' !in a && ':' !in b && ':' !in c
  }

  lemma {:induction false} ColonAt(a: string, rest: string)
    requires ':' !in a
    ensures ColonFree(a + ":" + rest) == |a|
  {
    if a == "" {
      assert (a + ":" + rest)[0] == ':';
    } else {
      assert (a + ":" + rest)[0] == a[0] && (a + ":" + rest)[1..] == a[1..] + ":" + rest;
      ColonAt(a[1..], rest);
    }
  }

  /** One part in front. */
  lemma PartsCons(a: string, rest: string, n: nat)
    requires ':' !in a && n > 0
    ensures Parts(a + ":" + rest, n) <==> IsWord(a) && Parts(rest, n - 1)
  {
    hide IsWord;
    var s := a + ":" + rest;
    ColonAt(a, rest);
    assert s[..|a|] == a && s[|a| + 1..] == rest;
  }

  lemma PartsUncons(s: string, n: nat) returns (a: string, rest: string)
    requires Parts(s, n) && n > 0
    ensures s == a + ":" + rest && ':' !in a && IsWord(a) && Parts(rest, n - 1)
  {
    hide IsWord;
    var k := ColonFree(s);
    a, rest := s[..k], s[k + 1..];
  }

  lemma SplitParts(s: string, a: string, b: string, c: string, d: string)
    requires IsSplit(s, a, b, c, d)
    ensures Parts(s, 3)
  {
    hide IsWord, ColonFree, Parts;
    var r2 := c + ":" + d;
    var r1 := b + ":" + r2;
    assert s == a + ":" + r1;
    PartsCons(c, d, 1);
    PartsCons(b, r2, 2);
    PartsCons(a, r1, 3);
    WordParts(d);
  }

  lemma WordParts(d: string)
    ensures Parts(d, 0) <==> IsWord(d)
  {
  }

  lemma PartsSplit(s: string) returns (a: string, b: string, c: string, d: string)
    requires Parts(s, 3)
    ensures IsSplit(s, a, b, c, d)
  {
    hide IsWord, ColonFree, Parts;
    var r1, r2;
    a, r1 := PartsUncons(s, 3);
    b, r2 := PartsUncons(r1, 2);
    c, d := PartsUncons(r2, 1);
    WordParts(d);
    assert a + ":" + (b + ":" + (c + ":" + d)) == a + ":" + b + ":" + c + ":" + d;
  }

  /** Three parts without a colon and a rest, none with white space: nothing else is a context. */
  lemma PartsExact(s: string)
    ensures Parts(s, 3) <==>
      exists a: string, b: string, c: string, d: string :: IsSplit(s, a, b, c, d)
  {
    hide IsSplit, Parts;
    if Parts(s, 3) {
      var a, b, c, d := PartsSplit(s);
    }
    forall a: string, b: string, c: string, d: string | IsSplit(s, a, b, c, d)
      ensures Parts(s, 3)
    {
      SplitParts(s, a, b, c, d);
    }
  }

  lemma OtherEnds(name: string)
    requires EndsWith(name, "property_contexts")
    ensures !EndsWith(name, "file_contexts") && !EndsWith(name, "service_contexts")
  {
    assert name[|name| - 10] == name[|name| - 17..][7] == 'y';
  }

  /**
   The two checks agree on property files: an entry the syntax check accepts is one the trie check
   counts, so nothing well formed escapes it.
   */
  lemma AcceptedIsCounted(name: string, s: string)
    requires EndsWith(name, "property_contexts") && BadContextLine(name, s) == None
    ensures PropertyKey(s).Some? && PropertyKey(s).value.0 == Fields(s)[0]
    ensures PropertyKey(s).value.1 <==> |Fields(s)| > 2 && Fields(s)[2] != "prefix"
  {
    hide Fields, IsContext;
    OtherEnds(name);
  }

  // ---------------------------------------------------------------- the two checks, from the lines

  /** `<<none>>`, or three words without a colon and a last word, with colons between. */
  ghost predicate IsLabel(s: string) {
    s == "<<none>>" || exists a: string, b: string, c: string, d: string :: IsSplit(s, a, b, c, d)
  }

  ghost predicate IsFileType(s: string) {
    s == "--" || s == "-b" || s == "-c" || s == "-d" || s == "-p" || s == "-l" || s == "-s"
  }

  ghost predicate IsMatch(s: string) {
    s == "exact" || s == "prefix"
  }

  ghost predicate IsPropertyType(s: string) {
    || s == "string" || s == "bool" || s == "int" || s == "uint" || s == "double" || s == "size" || s == "enum"
  }

  lemma WordsExact(s: string)
    ensures (IsContext(s) <==> IsLabel(s)) && (s in FILE_TYPES <==> IsFileType(s))
    ensures (s in MATCH_KINDS <==> IsMatch(s)) && (s in PROPERTY_TYPES <==> IsPropertyType(s))
  {
    hide Parts, IsSplit;
    PartsExact(s);
  }

  datatype Kind = FileKind | ServiceKind | PropertyKind | OtherKind

  /** Which rules a file of this name follows. */
  ghost predicate HasKind(name: string, k: Kind) {
    match k
    case FileKind => exists a: string :: name == a + "file_contexts"
    case ServiceKind => exists a: string :: name == a + "service_contexts"
    case PropertyKind => exists a: string :: name == a + "property_contexts"
    case OtherKind =>
      forall a: string ::
        name != a + "file_contexts" && name != a + "service_contexts" && name != a + "property_contexts"
  }

  /** Why fields are rejected, reason by reason; each reason needs that none of the earlier ones applies. */
  ghost predicate RejectedFields(k: Kind, t: seq<string>, why: Reason) {
    match why
    case SemicolonLine => false
    case FieldCount(n) => n == |t| && ((k.FileKind? && n != 2 && n != 3) || (k.ServiceKind? && n != 2))
    case FileType(w) => k.FileKind? && |t| == 3 && w == t[1] && !IsFileType(w)
    case MissingContext => k.PropertyKind? && |t| < 2
    case BadContext(w) =>
      || (k.FileKind? && |t| == 2 && w == t[1] && !IsLabel(w))
      || (k.FileKind? && |t| == 3 && w == t[2] && IsFileType(t[1]) && !IsLabel(w))
      || (k.ServiceKind? && |t| == 2 && w == t[1] && !IsLabel(w))
      || (k.PropertyKind? && |t| >= 2 && w == t[1] && !IsLabel(w))
    case MatchKind(w) => k.PropertyKind? && |t| >= 3 && IsLabel(t[1]) && w == t[2] && !IsMatch(w)
    case PropertyType(w) =>
      k.PropertyKind? && |t| >= 4 && IsLabel(t[1]) && IsMatch(t[2]) && w == t[3] && !IsPropertyType(w)
  }

  ghost predicate Rejected(k: Kind, s: string, why: Reason) {
    if s != "" && s[0] == ';' then why == SemicolonLine else RejectedFields(k, Fields(s), why)
  }

  lemma KindOf(name: string) returns (k: Kind)
    ensures HasKind(name, k)
    ensures k.FileKind? <==> EndsWith(name, "file_contexts")
    ensures k.ServiceKind? <==> EndsWith(name, "service_contexts")
    ensures k.PropertyKind? <==> EndsWith(name, "property_contexts")
  {
    hide EndsWith;
    EndsWithExact(name, "file_contexts");
    EndsWithExact(name, "service_contexts");
    EndsWithExact(name, "property_contexts");
    OneKind(name);
    k := if EndsWith(name, "file_contexts") then FileKind
         else if EndsWith(name, "service_contexts") then ServiceKind
         else if EndsWith(name, "property_contexts") then PropertyKind
         else OtherKind;
  }

  lemma OneKind(name: string)
    ensures EndsWith(name, "file_contexts") ==> !EndsWith(name, "service_contexts")
    ensures EndsWith(name, "property_contexts") ==>
      !EndsWith(name, "file_contexts") && !EndsWith(name, "service_contexts")
  {
    hide EndsWith;
    if EndsWith(name, "property_contexts") {
      OtherEnds(name);
    }
    if EndsWith(name, "file_contexts") {
      EndChar(name, "file_contexts", 2);
    }
    if EndsWith(name, "service_contexts") {
      EndChar(name, "service_contexts", 5);
    }
  }

  lemma EndChar(name: string, end: string, i: nat)
    requires EndsWith(name, end) && i < |end|
    ensures |name| >= |end| && name[|name| - |end| + i] == end[i]
  {
    assert name[|name| - |end|..][i] == end[i];
  }

  /** A file has one kind. */
  lemma KindUnique(name: string, k: Kind, k': Kind)
    requires HasKind(name, k) && HasKind(name, k')
    ensures k == k'
  {
    hide EndsWith;
    EndsWithExact(name, "file_contexts");
    EndsWithExact(name, "service_contexts");
    EndsWithExact(name, "property_contexts");
    OneKind(name);
  }

  /** Which lines are rejected and why, by the kind of the file and the fields of the line. */
  lemma ReasonExact(name: string, k: Kind, s: string, why: Reason)
    requires HasKind(name, k)
    ensures BadContextLine(name, s) == Some(why) <==> Rejected(k, s, why)
  {
    hide Fields, IsContext, IsLabel, EndsWith, HasKind, IsFileType, IsMatch, IsPropertyType, FILE_TYPES, MATCH_KINDS;
    hide PROPERTY_TYPES;
    var k' := KindOf(name);
    KindUnique(name, k, k');
    var t := Fields(s);
    forall w: string
      ensures (IsContext(w) <==> IsLabel(w)) && (w in FILE_TYPES <==> IsFileType(w))
      ensures (w in MATCH_KINDS <==> IsMatch(w)) && (w in PROPERTY_TYPES <==> IsPropertyType(w))
    {
      WordsExact(w);
    }
  }

  /** The stripped text is an entry's: neither blank nor a comment. */
  ghost predicate EntryText(s: string) {
    s != "" && s[0] != '#'
  }

  /** Line `i` of the file, counted from 0, is an entry, no entry of the stock file has its text, and it is rejected. */
  ghost predicate ReportedAt(
      name: string, k: Kind, stock: Option<string>, ls: seq<string>, f: Failure, i: nat, why: Reason)
  {
    && i < |ls| && EntryText(Strip(ls[i])) && Rejected(k, Strip(ls[i]), why)
    && (stock.Some? ==> forall l <- Lines(stock.value) :: Strip(l) != Strip(ls[i]))
    && f == BadLine(name, i + 1, why, Strip(ls[i]))
  }

  /**
   The contexts check, from the two files: a failure is reported exactly for a line that is an entry, is
   not an entry of the stock file, and is rejected; with its number, its reason and its text.
   */
  lemma ReportedExact(name: string, k: Kind, stock: Option<string>, sub: string, f: Failure)
    requires HasKind(name, k)
    ensures f in ContextFailures(name, stock, Some(sub)) <==>
      exists i: nat, why: Reason :: ReportedAt(name, k, stock, Lines(sub), f, i, why)
  {
    hide Lines, Strip, BadContextLine, Rejected, HasKind, EntriesFrom, BadLines;
    var ls := Lines(sub);
    BadLinesExact(name, StockTexts(stock), Entries(sub), f);
    forall e: Entry
      ensures e in Entries(sub) <==>
        1 <= e.line <= |ls| && EntryText(Strip(ls[e.line - 1])) && e.text == Strip(ls[e.line - 1])
    {
      EntriesExact(ls, 1, e);
    }
    forall s: string | EntryText(s)
      ensures s in StockTexts(stock) <==> stock.Some? && exists l :: l in Lines(stock.value) && Strip(l) == s
    {
      StockExact(stock, s);
    }
    forall s: string, why: Reason
      ensures BadContextLine(name, s) == Some(why) <==> Rejected(k, s, why)
    {
      ReasonExact(name, k, s, why);
    }
    if i: nat, why: Reason :| ReportedAt(name, k, stock, ls, f, i, why) {
      var e := Entry(i + 1, Strip(ls[i]));
      assert e in Entries(sub);
    }
    if f in ContextFailures(name, stock, Some(sub)) {
      var e: Entry :| e in Entries(sub) && e.text !in StockTexts(stock) && BadContextLine(name, e.text).Some?
        && f == BadLine(name, e.line, BadContextLine(name, e.text).value, e.text);
      var i: nat, why := e.line - 1, BadContextLine(name, e.text).value;
      assert ReportedAt(name, k, stock, Lines(sub), f, i, why);
    }
  }

  lemma StockExact(stock: Option<string>, s: string)
    requires EntryText(s)
    ensures s in StockTexts(stock) <==> stock.Some? && exists l :: l in Lines(stock.value) && Strip(l) == s
  {
    hide Lines, Strip, EntriesFrom;
    if stock.Some? {
      var ls := Lines(stock.value);
      forall e: Entry
        ensures e in Entries(stock.value) <==>
          1 <= e.line <= |ls| && EntryText(Strip(ls[e.line - 1])) && e.text == Strip(ls[e.line - 1])
      {
        EntriesExact(ls, 1, e);
      }
      if l :| l in ls && Strip(l) == s {
        var i :| 0 <= i < |ls| && ls[i] == l;
        assert Entry(i + 1, s) in Entries(stock.value);
      }
    }
  }

  /** What the trie takes from an entry: its name, and `exact` or not, if the label and the match kind are right. */
  lemma PropertyKeyExact(s: string, k: Key)
    ensures PropertyKey(s) == Some(k) <==>
      var t := Fields(s);
      && |t| >= 2 && k.0 == t[0] && IsLabel(t[1])
      && if |t| == 2 then !k.1 else IsMatch(t[2]) && (k.1 <==> t[2] == "exact")
  {
    hide Fields, IsLabel, IsContext;
    var t := Fields(s);
    if |t| >= 2 {
      WordsExact(t[1]);
    }
    if |t| >= 3 {
      WordsExact(t[2]);
    }
  }

  /** The keys of a file are those of its entries, entry by entry. */
  lemma {:induction false} KeysExact(a: seq<Entry>, e: Entry)
    ensures KeysOf([]) == []
    ensures KeysOf(a + [e]) == KeysOf(a) + if PropertyKey(e.text).Some? then [PropertyKey(e.text).value] else []
  {
    hide PropertyKey;
    if a == [] {
      assert [] + [e] == [e] && [e][1..] == [];
    } else {
      ConcatRest(a, [e]);
      KeysExact(a[1..], e);
    }
  }
}
