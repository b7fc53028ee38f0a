/** Searching and splitting sequences of any kind. */
module Sequences {
  predicate Contains<T(==)>(s: seq<T>, part: seq<T>) {
    part <= s || (s != [] && Contains(s[1..], part))
  }

  predicate EndsWith<T(==)>(s: seq<T>, end: seq<T>) {
    |end| <= |s| && s[|s| - |end|..] == end
  }

  lemma {:induction false} ContainsMiddle<T>(a: seq<T>, part: seq<T>, b: seq<T>)
    ensures Contains(a + part + b, part)
  {
    if a == [] {
      assert a + part + b == part + b;
    } else {
      assert (a + part + b)[1..] == a[1..] + part + b;
      ContainsMiddle(a[1..], part, b);
    }
  }

  /** A part of a sequence is what stands between two others. */
  lemma {:induction false} ContainsExact<T>(s: seq<T>, part: seq<T>)
    ensures Contains(s, part) <==> exists a: seq<T>, b: seq<T> :: s == a + part + b
  {
    if Contains(s, part) {
      if part <= s {
        assert s == [] + part + s[|part|..];
      } else {
        ContainsExact(s[1..], part);
        var a: seq<T>, b: seq<T> :| s[1..] == a + part + b;
        assert s == ([s[0]] + a) + part + b;
      }
    }
    forall a: seq<T>, b: seq<T> | s == a + part + b
      ensures Contains(s, part)
    {
      ContainsMiddle(a, part, b);
    }
  }

  lemma EndsWithExact<T>(s: seq<T>, end: seq<T>)
    ensures EndsWith(s, end) <==> exists a: seq<T> :: s == a + end
  {
    if EndsWith(s, end) {
      assert s == s[..|s| - |end|] + end;
    }
  }

  lemma FirstRest<T>(x: T, s: seq<T>)
    ensures ([x] + s)[0] == x && ([x] + s)[1..] == s
  {
  }

  lemma ConcatRest<T>(a: seq<T>, b: seq<T>)
    requires a != []
    ensures a + b != [] && (a + b)[0] == a[0] && (a + b)[1..] == a[1..] + b
  {
  }

  lemma SplitAround<T>(s: seq<T>, k: nat)
    requires k < |s|
    ensures s[..k + 1] == s[..k] + [s[k]] && s == s[..k + 1] + s[k + 1..]
  {
  }
}
