/** Python text handling: white space, `splitlines`, `split`, `strip` and the normalised key of a line. */
module Text {
  import opened Wrappers

  // ---------------------------------------------------------------- characters

  /** `str.isspace`, which `\s`, `strip` and `split` share. */
  predicate IsSpace(c: char) {
    var n := c as int;
    || 0x09 <= n <= 0x0D || 0x1C <= n <= 0x20 || n == 0x85 || n == 0xA0 || n == 0x1680
    || 0x2000 <= n <= 0x200A || n == 0x2028 || n == 0x2029 || n == 0x202F || n == 0x205F || n == 0x3000
  }

  /** Where `splitlines` breaks. */
  predicate IsBreak(c: char) {
    var n := c as int;
    0x0A <= n <= 0x0D || 0x1C <= n <= 0x1E || n == 0x85 || n == 0x2028 || n == 0x2029
  }

  predicate AllSpace(s: string) {
    forall i :: 0 <= i < |s| ==> IsSpace(s[i])
  }

  predicate BreakFree(s: string) {
    forall i :: 0 <= i < |s| ==> !IsBreak(s[i])
  }

  // ---------------------------------------------------------------- lines

  /** `\r\n` is one break. */
  function BreakLength(t: string): nat
    requires t != "" && IsBreak(t[0])
  {
    if t[0] == '\r' && |t| > 1 && t[1] == '\n' then 2 else 1
  }

  /**
   `splitlines`. Reading a file as text first turns `\r\n` and `\r` into `\n`; lines break at the same
   places either way.
   */
  function Lines(t: string): (ls: seq<string>)
    ensures t != "" ==> ls != []
  {
    if t == "" then []
    else if IsBreak(t[0]) then [""] + Lines(t[BreakLength(t)..])
    else if |t| == 1 then [t]
    else
      var rest := Lines(t[1..]);
      [[t[0]] + rest[0]] + rest[1..]
  }

  /** Text-mode reading. */
  function UniversalNewlines(t: string): string {
    if t == "" then ""
    else if t[0] == '\r' then "\n" + UniversalNewlines(t[BreakLength(t)..])
    else [t[0]] + UniversalNewlines(t[1..])
  }

  lemma {:induction false} LinesOfTextMode(t: string)
    ensures Lines(UniversalNewlines(t)) == Lines(t)
  {
    hide IsSpace;
    if t != "" {
      if IsBreak(t[0]) {
        var rest := t[BreakLength(t)..];
        LinesOfTextMode(rest);
        LineBreak(if t[0] == '\r' then '\n' else t[0], UniversalNewlines(rest));
        if t[0] != '\r' {
          assert rest == t[1..];
        }
      } else {
        LinesOfTextMode(t[1..]);
        var u := UniversalNewlines(t);
        assert u[1..] == UniversalNewlines(t[1..]) && u[0] == t[0];
        assert |t| == 1 ==> u == t;
      }
    }
  }

  lemma LineBreak(c: char, rest: string)
    requires IsBreak(c) && c != '\r'
    ensures Lines([c] + rest) == [""] + Lines(rest)
  {
    assert ([c] + rest)[1..] == rest;
  }

  lemma {:induction false} LinesBreakFree(t: string)
    ensures forall l <- Lines(t) :: BreakFree(l)
  {
    hide IsBreak;
    if t != "" {
      if IsBreak(t[0]) {
        LinesBreakFree(t[BreakLength(t)..]);
      } else if |t| > 1 {
        LinesBreakFree(t[1..]);
        var rest := Lines(t[1..]);
        assert BreakFree(rest[0]);
      }
    }
  }

  /** After a newline the text starts afresh. */
  lemma {:induction false} LinesConcat(a: string, b: string)
    requires a == "" || a[|a| - 1] == '\n'
    ensures Lines(a + b) == Lines(a) + Lines(b)
  {
    if a == "" {
      assert a + b == b;
    } else {
      var t := a + b;
      assert t[0] == a[0];
      assert |a| > 1 ==> t[1] == a[1];
      if IsBreak(a[0]) {
        var k := BreakLength(a);
        assert BreakLength(t) == k && t[k..] == a[k..] + b;
        LinesConcat(a[k..], b);
      } else {
        assert t[1..] == a[1..] + b;
        LinesConcat(a[1..], b);
      }
    }
  }

  /** A character in front joins the first line. */
  lemma LinesOfChar(c: char, s: string)
    requires !IsBreak(c)
    ensures Lines([c] + s) == if s == "" then [[c]] else [[c] + Lines(s)[0]] + Lines(s)[1..]
  {
    hide IsBreak;
    assert ([c] + s)[1..] == s;
    assert s == "" ==> [c] + s == [c];
  }

  lemma NewlineAlone()
    ensures Lines("\n") == [""]
  {
    assert Lines("\n") == [""] + Lines("\n"[1..]);
  }

  /** Ending the last line adds at most an empty line. */
  lemma {:induction false} LinesEnded(a: string)
    ensures Lines(a + "\n") == Lines(a) || Lines(a + "\n") == Lines(a) + [""]
    ensures a != "" && !IsBreak(a[|a| - 1]) ==> Lines(a + "\n") == Lines(a)
  {
    if a == "" {
      NewlineAlone();
      assert a + "\n" == "\n" && Lines(a) + [""] == [""];
    } else if IsBreak(a[0]) {
      LinesEndedBreak(a);
      if a != "\r" {
        LinesEnded(a[BreakLength(a)..]);
      }
    } else {
      LinesEnded(a[1..]);
      LinesEndedChar(a[0], a[1..]);
      assert a == [a[0]] + a[1..] && a + "\n" == [a[0]] + (a[1..] + "\n");
    }
  }

  lemma LinesEndedChar(c: char, s: string)
    requires !IsBreak(c)
    requires Lines(s + "\n") == Lines(s) || Lines(s + "\n") == Lines(s) + [""]
    ensures var l, l' := Lines([c] + s), Lines([c] + (s + "\n")); l' == l || l' == l + [""]
    ensures s == "" || Lines(s + "\n") == Lines(s) ==> Lines([c] + (s + "\n")) == Lines([c] + s)
  {
    hide Lines;
    LinesOfChar(c, s);
    LinesOfChar(c, s + "\n");
    NewlineAlone();
    if s == "" {
      assert s + "\n" == "\n" && [c] + "" == [c];
    } else {
      var l := Lines(s);
      assert (l + [""])[0] == l[0] && (l + [""])[1..] == l[1..] + [""];
    }
  }

  lemma LinesEndedBreak(a: string)
    requires a != "" && IsBreak(a[0])
    ensures a == "\r" ==> Lines(a + "\n") == Lines(a)
    ensures a != "\r" ==>
      var k := BreakLength(a);
      && Lines(a + "\n") == [""] + Lines(a[k..] + "\n") && Lines(a) == [""] + Lines(a[k..])
      && (k < |a| ==> a[k..][|a[k..]| - 1] == a[|a| - 1])
      && (k == |a| ==> IsBreak(a[|a| - 1]))
  {
    var t := a + "\n";
    assert t[0] == a[0];
    assert |a| > 1 ==> t[1] == a[1];
    if a == "\r" {
      assert BreakLength(t) == 2 && t[2..] == "" && a[1..] == "";
    } else {
      var k := BreakLength(a);
      assert BreakLength(t) == k && t[k..] == a[k..] + "\n";
    }
  }

  lemma {:induction false} OneLine(l: string)
    requires BreakFree(l)
    ensures Lines(l + "\n") == [l]
  {
    hide IsSpace;
    if l == "" {
      assert l + "\n" == "\n";
      assert Lines("\n") == [""] + Lines("\n"[1..]);
    } else {
      var t := l + "\n";
      assert t[1..] == l[1..] + "\n" && t[0] == l[0];
      OneLine(l[1..]);
      assert l == [l[0]] + l[1..];
    }
  }

  /** `"\n".join(ls)`. */
  function JoinLines(ls: seq<string>): string {
    if ls == [] then "" else if |ls| == 1 then ls[0] else ls[0] + "\n" + JoinLines(ls[1..])
  }

  lemma {:induction false} LinesOfJoin(ls: seq<string>)
    requires ls != [] && forall l <- ls :: BreakFree(l)
    ensures Lines(JoinLines(ls) + "\n") == ls
  {
    hide Lines, BreakFree;
    OneLine(ls[0]);
    if |ls| > 1 {
      LinesOfJoin(ls[1..]);
      LinesConcat(ls[0] + "\n", JoinLines(ls[1..]) + "\n");
      assert JoinLines(ls) + "\n" == ls[0] + "\n" + (JoinLines(ls[1..]) + "\n");
    }
  }

  // ---------------------------------------------------------------- strip

  function LStrip(s: string): (r: string)
    ensures r == "" || !IsSpace(r[0])
  {
    if s != "" && IsSpace(s[0]) then LStrip(s[1..]) else s
  }

  function RStrip(s: string): (r: string)
    ensures r == "" || !IsSpace(r[|r| - 1])
  {
    if s != "" && IsSpace(s[|s| - 1]) then RStrip(s[..|s| - 1]) else s
  }

  function Strip(s: string): string {
    LStrip(RStrip(s))
  }

  lemma {:induction false} LStripCuts(s: string)
    ensures |LStrip(s)| <= |s| && LStrip(s) == s[|s| - |LStrip(s)|..]
    ensures AllSpace(s[..|s| - |LStrip(s)|])
  {
    hide IsSpace;
    if s != "" && IsSpace(s[0]) {
      LStripCuts(s[1..]);
      var n := |s[1..]| - |LStrip(s[1..])|;
      assert s[..n + 1] == [s[0]] + s[1..][..n];
    }
  }

  lemma {:induction false} RStripCuts(s: string)
    ensures |RStrip(s)| <= |s| && RStrip(s) == s[..|RStrip(s)|] && AllSpace(s[|RStrip(s)|..])
  {
    hide IsSpace;
    if s != "" && IsSpace(s[|s| - 1]) {
      var f := s[..|s| - 1];
      RStripCuts(f);
      var n := |RStrip(f)|;
      assert s[n..] == f[n..] + [s[|s| - 1]];
    }
  }

  /** The stripped text is the middle between two runs of white space. */
  lemma StripCuts(s: string) returns (a: string, b: string)
    ensures s == a + Strip(s) + b && AllSpace(a) && AllSpace(b)
    ensures Strip(s) == "" || (!IsSpace(Strip(s)[0]) && !IsSpace(Strip(s)[|Strip(s)| - 1]))
  {
    hide IsSpace, LStrip, RStrip, AllSpace;
    var r := RStrip(s);
    RStripCuts(s);
    LStripCuts(r);
    var m := LStrip(r);
    a, b := r[..|r| - |m|], s[|r|..];
    assert m != "" ==> m[|m| - 1] == r[|r| - 1];
  }

  lemma {:induction false} LStripPad(a: string, s: string)
    requires AllSpace(a) && (s == "" || !IsSpace(s[0]))
    ensures LStrip(a + s) == s
  {
    hide IsSpace;
    if a == "" {
      assert a + s == s;
    } else {
      assert (a + s)[1..] == a[1..] + s;
      LStripPad(a[1..], s);
    }
  }

  lemma {:induction false} RStripPad(s: string, b: string)
    requires AllSpace(b) && (s == "" || !IsSpace(s[|s| - 1]))
    ensures RStrip(s + b) == s
  {
    hide IsSpace;
    if b == "" {
      assert s + b == s;
    } else {
      assert (s + b)[..|s + b| - 1] == s + b[..|b| - 1];
      RStripPad(s, b[..|b| - 1]);
    }
  }

  /** And that decomposition is the only one. */
  lemma StripUnique(a: string, m: string, b: string)
    requires AllSpace(a) && AllSpace(b)
    requires m == "" || (!IsSpace(m[0]) && !IsSpace(m[|m| - 1]))
    ensures Strip(a + m + b) == m
  {
    hide IsSpace, LStrip, RStrip;
    if m == "" {
      assert a + m + b == "" + (a + b);
      RStripPad("", a + b);
      LStripPad("", "");
      assert "" + "" == "";
    } else {
      RStripPad(a + m, b);
      LStripPad(a, m);
    }
  }

  lemma StripOfRStrip(s: string)
    ensures Strip(RStrip(s)) == Strip(s)
  {
    hide IsSpace;
    var r := RStrip(s);
    assert r == "" || !IsSpace(r[|r| - 1]);
  }

  /** Text-mode reading leaves no CR, and changes nothing else. */
  lemma {:induction false} UniversalNewlinesExact(t: string)
    ensures '\r' !in UniversalNewlines(t)
    ensures '\r' !in t ==> UniversalNewlines(t) == t
  {
    if t != "" {
      UniversalNewlinesExact(t[1..]);
      UniversalNewlinesExact(if IsBreak(t[0]) then t[BreakLength(t)..] else t[1..]);
      assert t == [t[0]] + t[1..];
    }
  }

  // ---------------------------------------------------------------- which characters, which lines

  /** White space, character by character. */
  lemma IsSpaceExact(c: char)
    ensures IsSpace(c) <==> c in {
      '\t', '\n', '\U{0B}', '\U{0C}', '\r', '\U{1C}', '\U{1D}', '\U{1E}', '\U{1F}', ' ', '\U{85}', '\U{A0}',
      '\U{1680}', '\U{2000}', '\U{2001}', '\U{2002}', '\U{2003}', '\U{2004}', '\U{2005}', '\U{2006}',
      '\U{2007}', '\U{2008}', '\U{2009}', '\U{200A}', '\U{2028}', '\U{2029}', '\U{202F}', '\U{205F}', '\U{3000}'}
  {
  }

  /** Line breaks, character by character. */
  lemma IsBreakExact(c: char)
    ensures IsBreak(c) <==> c in {
      '\n', '\U{0B}', '\U{0C}', '\r', '\U{1C}', '\U{1D}', '\U{1E}', '\U{85}', '\U{2028}', '\U{2029}'}
  {
  }

  lemma FirstBreak(c: char, rest: string)
    requires IsBreak(c) && (c == '\r' ==> rest == "" || rest[0] != '\n')
    ensures Lines([c] + rest) == [""] + Lines(rest)
  {
    assert ([c] + rest)[1..] == rest;
  }

  lemma FirstCrLf(rest: string)
    ensures Lines("\r\n" + rest) == [""] + Lines(rest)
  {
    assert ("\r\n" + rest)[2..] == rest;
  }

  /** A line with its break in front. */
  lemma {:induction false} LineThen(l: string, sep: string, rest: string)
    requires BreakFree(l) && sep != "" && IsBreak(sep[0]) && Lines(sep + rest) == [""] + Lines(rest)
    ensures Lines(l + sep + rest) == [l] + Lines(rest)
  {
    hide Lines, IsBreak;
    if l == "" {
      assert "" + sep + rest == sep + rest;
    } else {
      var t := l[1..];
      LineThen(t, sep, rest);
      LinesOfChar(l[0], t + sep + rest);
      assert l == [l[0]] + t && l + sep + rest == [l[0]] + (t + sep + rest);
    }
  }

  lemma {:induction false} LineAlone(l: string)
    requires BreakFree(l) && l != ""
    ensures Lines(l) == [l]
  {
    if |l| > 1 {
      LineAlone(l[1..]);
      assert l == [l[0]] + l[1..];
    }
  }

  /** A break ends its line, `\r\n` is one break, and what follows has its own lines. */
  lemma LinesExact(l: string, rest: string)
    requires BreakFree(l)
    ensures Lines("") == [] && (l != "" ==> Lines(l) == [l])
    ensures Lines(l + "\r\n" + rest) == [l] + Lines(rest)
    ensures forall c :: IsBreak(c) && (c == '\r' ==> rest == "" || rest[0] != '\n') ==>
      Lines(l + [c] + rest) == [l] + Lines(rest)
  {
    if l != "" {
      LineAlone(l);
    }
    FirstCrLf(rest);
    LineThen(l, "\r\n", rest);
    forall c | IsBreak(c) && (c == '\r' ==> rest == "" || rest[0] != '\n')
      ensures Lines(l + [c] + rest) == [l] + Lines(rest)
    {
      FirstBreak(c, rest);
      LineThen(l, [c], rest);
    }
  }
}
