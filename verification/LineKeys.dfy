/** Two views of a line that ignore its spacing: the fields of `split` and the normalised key. */
module LineKeys {
  import opened Text

  /** Length of the leading run of characters that are not white space. */
  function WordLength(s: string): (n: nat)
    ensures n <= |s| && (n < |s| ==> IsSpace(s[n])) && forall i :: 0 <= i < n ==> !IsSpace(s[i])
  {
    if s == "" || IsSpace(s[0]) then 0 else 1 + WordLength(s[1..])
  }

  predicate IsWord(s: string) {
    s != "" && forall i :: 0 <= i < |s| ==> !IsSpace(s[i])
  }

  /** `split()`. */
  function Fields(s: string): (fs: seq<string>)
    ensures forall f <- fs :: IsWord(f)
  {
    if s == "" then []
    else if IsSpace(s[0]) then Fields(s[1..])
    else [s[..WordLength(s)]] + Fields(s[WordLength(s)..])
  }

  /** Every run of white space becomes one space. */
  function Collapse(s: string): string {
    if s == "" then ""
    else if IsSpace(s[0]) then (if |s| > 1 && IsSpace(s[1]) then "" else " ") + Collapse(s[1..])
    else [s[0]] + Collapse(s[1..])
  }

  /** The key under which policy lines are compared. */
  function Norm(line: string): string {
    Strip(Collapse(line))
  }

  /** `" ".join(fs)`. */
  function JoinFields(fs: seq<string>): string {
    if fs == [] then "" else if |fs| == 1 then fs[0] else fs[0] + " " + JoinFields(fs[1..])
  }

  // ---------------------------------------------------------------- fields ignore the margins

  lemma {:induction false} WordEnds(w: string, s: string)
    requires (forall i :: 0 <= i < |w| ==> !IsSpace(w[i])) && (s == "" || IsSpace(s[0]))
    ensures WordLength(w + s) == |w|
  {
    hide IsSpace;
    if w == "" {
      assert w + s == s;
    } else {
      assert (w + s)[1..] == w[1..] + s;
      WordEnds(w[1..], s);
    }
  }

  /** A word followed by white space or the end is the first field. */
  lemma FieldsWord(w: string, s: string)
    requires IsWord(w) && (s == "" || IsSpace(s[0]))
    ensures Fields(w + s) == [w] + Fields(s)
  {
    hide IsSpace;
    WordEnds(w, s);
    assert (w + s)[..|w|] == w && (w + s)[|w|..] == s && !IsSpace((w + s)[0]);
  }

  lemma {:induction false} FieldsLeft(a: string, s: string)
    requires AllSpace(a)
    ensures Fields(a + s) == Fields(s)
  {
    hide IsSpace;
    if a == "" {
      assert a + s == s;
    } else {
      assert (a + s)[1..] == a[1..] + s;
      FieldsLeft(a[1..], s);
    }
  }

  lemma {:induction false} FieldsRight(s: string, b: string)
    requires AllSpace(b)
    ensures Fields(s + b) == Fields(s)
    decreases |s|
  {
    hide IsSpace;
    if s == "" {
      FieldsLeft(b, "");
      assert s + b == b + "" && b + "" == b;
    } else if IsSpace(s[0]) {
      assert (s + b)[1..] == s[1..] + b;
      FieldsRight(s[1..], b);
    } else {
      var n := WordLength(s);
      var w, rest := s[..n], s[n..];
      assert n > 0 && s == w + rest && s + b == w + (rest + b);
      FieldsRight(rest, b);
      FieldsWord(w, rest);
      FieldsWord(w, rest + b);
    }
  }

  /** Stripping a line changes none of its fields. */
  lemma FieldsOfStrip(s: string)
    ensures Fields(Strip(s)) == Fields(s)
  {
    hide IsSpace, Strip, Fields;
    var a, b := StripCuts(s);
    FieldsRight(a + Strip(s), b);
    FieldsLeft(a, Strip(s));
  }

  lemma {:induction false} NoFields(s: string)
    ensures Fields(s) == [] <==> AllSpace(s)
  {
    hide IsSpace;
    if s != "" && IsSpace(s[0]) {
      NoFields(s[1..]);
      assert s == [s[0]] + s[1..];
      assert AllSpace(s[1..]) ==> AllSpace(s);
    }
  }

  // ---------------------------------------------------------------- the key is the joined fields

  lemma {:induction false} JoinedEnds(fs: seq<string>)
    requires fs != [] && forall f <- fs :: IsWord(f)
    ensures var j := JoinFields(fs); j != "" && !IsSpace(j[0]) && !IsSpace(j[|j| - 1])
  {
    hide IsSpace;
    assert IsWord(fs[0]);
    if |fs| > 1 {
      JoinedEnds(fs[1..]);
    }
  }

  lemma {:induction false} CollapseWord(w: string, s: string)
    requires forall i :: 0 <= i < |w| ==> !IsSpace(w[i])
    ensures Collapse(w + s) == w + Collapse(s)
  {
    hide IsSpace;
    if w == "" {
      assert w + s == s && w + Collapse(s) == Collapse(s);
    } else {
      assert (w + s)[1..] == w[1..] + s && (w + s)[0] == w[0];
      CollapseWord(w[1..], s);
      assert w == [w[0]] + w[1..];
    }
  }

  /** The collapsed line is the joined fields, with at most one space on either side. */
  lemma {:induction false} CollapseShape(s: string) returns (lead: string, trail: string)
    ensures AllSpace(lead) && AllSpace(trail) && Collapse(s) == lead + JoinFields(Fields(s)) + trail
    ensures s != "" && IsSpace(s[0]) && Fields(s) != [] ==> lead == " "
    ensures s == "" || !IsSpace(s[0]) ==> lead == ""
    decreases |s|
  {
    hide IsSpace, JoinFields, WordLength;
    SpaceIsSpace();
    JoinNothing();
    if s == "" {
      lead, trail := "", "";
    } else if IsSpace(s[0]) {
      var l, t := CollapseShape(s[1..]);
      if |s| > 1 && IsSpace(s[1]) {
        lead, trail := l, t;
        assert "" + Collapse(s[1..]) == Collapse(s[1..]);
      } else {
        lead, trail := " ", t;
        assert l == "";
        assert " " + ("" + JoinFields(Fields(s[1..])) + t) == " " + JoinFields(Fields(s[1..])) + t;
      }
    } else {
      var n := WordLength(s);
      var w, rest := s[..n], s[n..];
      assert s == w + rest;
      var l, t := CollapseShape(rest);
      lead := "";
      trail := CollapseStep(w, rest, l, t);
    }
  }

  lemma CollapseStep(w: string, rest: string, l: string, t: string) returns (trail: string)
    requires IsWord(w) && (rest == "" || IsSpace(rest[0])) && AllSpace(l) && AllSpace(t)
    requires Collapse(rest) == l + JoinFields(Fields(rest)) + t && (Fields(rest) != [] ==> l == " ")
    ensures AllSpace(trail) && Collapse(w + rest) == "" + JoinFields(Fields(w + rest)) + trail
  {
    hide IsSpace, Collapse, Fields;
    CollapseWord(w, rest);
    FieldsWord(w, rest);
    if Fields(rest) == [] {
      trail := l + "" + t;
      assert w + (l + "" + t) == "" + w + trail;
    } else {
      trail := t;
      assert w + (" " + JoinFields(Fields(rest)) + t) == "" + (w + " " + JoinFields(Fields(rest))) + t;
    }
  }

  lemma SpaceIsSpace()
    ensures IsSpace(' ')
  {
  }

  /** The regular-expression key of a line is its fields joined by single spaces. */
  lemma NormIsFields(s: string)
    ensures Norm(s) == JoinFields(Fields(s))
  {
    hide IsSpace, Collapse, Strip, Fields, JoinFields;
    var lead, trail := CollapseShape(s);
    if Fields(s) != [] {
      JoinedEnds(Fields(s));
    } else {
      assert JoinFields(Fields(s)) == "" by {
        JoinNothing();
      }
    }
    StripUnique(lead, JoinFields(Fields(s)), trail);
  }

  lemma JoinNothing()
    ensures JoinFields([]) == ""
  {
  }

  /** Lines that agree after stripping have the same key. */
  lemma NormOfStrip(s: string)
    ensures Norm(Strip(s)) == Norm(s)
  {
    hide Norm, Strip, Fields, JoinFields;
    NormIsFields(s);
    NormIsFields(Strip(s));
    FieldsOfStrip(s);
  }

  lemma SameKey(s: string, s': string)
    requires Strip(s) == Strip(s')
    ensures Norm(s) == Norm(s')
  {
    hide Norm, Strip;
    NormOfStrip(s);
    NormOfStrip(s');
  }

  /** A line without a key is a line without content. */
  lemma BlankKey(s: string)
    ensures Norm(s) == "" <==> Strip(s) == ""
  {
    hide Norm, Strip, Fields, JoinFields, IsSpace;
    NormIsFields(s);
    NoFields(s);
    EmptyStrip(s);
    if Fields(s) == [] {
      JoinNothing();
      StripUnique(s, "", "");
      assert s + "" + "" == s;
    } else {
      JoinedEnds(Fields(s));
    }
  }

  lemma EmptyStrip(s: string)
    ensures Strip(s) == "" ==> AllSpace(s)
  {
    hide Strip, IsSpace;
    var a, b := StripCuts(s);
    assert Strip(s) == "" ==> s == a + b;
  }

  // ---------------------------------------------------------------- fields back from the key

  /** Two lines have the same key exactly when they have the same fields. */
  lemma SameKeyIffSameFields(s: string, s': string)
    ensures Norm(s) == Norm(s') <==> Fields(s) == Fields(s')
  {
    hide Norm, Fields, JoinFields;
    NormIsFields(s);
    NormIsFields(s');
    FieldsOfJoin(Fields(s));
    FieldsOfJoin(Fields(s'));
  }

  lemma {:induction false} FieldsOfJoin(fs: seq<string>)
    requires forall f <- fs :: IsWord(f)
    ensures Fields(JoinFields(fs)) == fs
  {
    hide IsSpace;
    SpaceIsSpace();
    if fs != [] {
      assert IsWord(fs[0]);
      if |fs| == 1 {
        FieldsWord(fs[0], "");
        assert fs[0] + "" == fs[0];
      } else {
        FieldsOfJoin(fs[1..]);
        var rest := " " + JoinFields(fs[1..]);
        FieldsWord(fs[0], rest);
        FieldsLeft(" ", JoinFields(fs[1..]));
        assert fs[0] + " " + JoinFields(fs[1..]) == fs[0] + rest;
      }
    }
  }
}
