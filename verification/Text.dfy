/** Dotted paths, and facts about text. */
module Text {

  /** Extends a list of components by a leading character; a dot opens a new component. */
  function Prepend(c: char, parts: seq<string>): seq<string>
    requires |parts| >= 1
  {
    if c == '.' then [""] + parts else [[c] + parts[0]] + parts[1..]
  }

  /** The components of a dotted path. */
  function Split(s: string): (parts: seq<string>)
    ensures |parts| >= 1
  {
    if s == "" then [""] else Prepend(s[0], Split(s[1..]))
  }

  lemma {:induction false} SplitUndotted(s: string)
    requires '.' !in s
    ensures Split(s) == [s]
  {
    if s != "" {
      SplitUndotted(s[1..]);
      assert s == [s[0]] + s[1..];
    }
  }

  lemma SplitCons(c: char, s: string)
    ensures Split([c] + s) == Prepend(c, Split(s))
  {
    assert ([c] + s)[1..] == s;
  }

  lemma PrependAppend(c: char, p: seq<string>, q: seq<string>)
    requires |p| >= 1
    ensures Prepend(c, p + q) == Prepend(c, p) + q
  {
    assert (p + q)[1..] == p[1..] + q;
  }

  /** Joining two paths with a dot concatenates their components. */
  lemma {:induction false} SplitJoined(a: string, b: string)
    ensures Split(a + "." + b) == Split(a) + Split(b)
  {
    if a == "" {
      SplitCons('.', b);
      assert a + "." + b == ['.'] + b;
    } else {
      var c, t := a[0], a[1..];
      calc {
        Split(a + "." + b);
        { assert a + "." + b == [c] + (t + "." + b); }
        Split([c] + (t + "." + b));
        { SplitCons(c, t + "." + b); }
        Prepend(c, Split(t + "." + b));
        { SplitJoined(t, b); }
        Prepend(c, Split(t) + Split(b));
        { PrependAppend(c, Split(t), Split(b)); }
        Prepend(c, Split(t)) + Split(b);
        { SplitCons(c, t); assert a == [c] + t; }
        Split(a) + Split(b);
      }
    }
  }

  lemma Regroup<T>(a: seq<T>, b: seq<T>, c: seq<T>)
    ensures (a + b) + c == a + (b + c)
  {
  }

  lemma DropWithin<T>(a: seq<T>, b: seq<T>, k: nat)
    requires k <= |a|
    ensures (a + b)[k..] == a[k..] + b
  {
  }

  lemma DropBeyond<T>(a: seq<T>, b: seq<T>, k: nat)
    requires |a| <= k <= |a + b|
    ensures (a + b)[k..] == b[k - |a|..]
  {
  }

  /** The text with every occurrence of another one replaced, from left to right. */
  function Replaced(s: string, find: string, replacement: string): string
    decreases |s|
  {
    if find == "" || |s| < |find| then s
    else if s[..|find|] == find then replacement + Replaced(s[|find|..], find, replacement)
    else [s[0]] + Replaced(s[1..], find, replacement)
  }

  /** A name with a dot has several components, all of them shorter. */
  lemma {:induction false} SplitDotted(s: string)
    requires '.' in s
    ensures |Split(s)| > 1 && |Split(s)[0]| < |s|
  {
    if s[0] != '.' && '.' in s[1..] {
      SplitDotted(s[1..]);
    }
  }

  lemma {:induction false} SplitInjective(a: string, b: string)
    requires Split(a) == Split(b)
    ensures a == b
  {
    if a == "" || b == "" {
      if a != "" { SplitNonEmpty(a); }
      if b != "" { SplitNonEmpty(b); }
    } else {
      PrependInjective(a[0], Split(a[1..]), b[0], Split(b[1..]));
      SplitInjective(a[1..], b[1..]);
      assert a == [a[0]] + a[1..] && b == [b[0]] + b[1..];
    }
  }

  lemma SplitNonEmpty(s: string)
    requires s != ""
    ensures Split(s) != [""]
  {
  }

  lemma PrependInjective(c: char, p: seq<string>, d: char, q: seq<string>)
    requires |p| >= 1 && |q| >= 1 && Prepend(c, p) == Prepend(d, q)
    ensures c == d && p == q
  {
    var x, y := Prepend(c, p), Prepend(d, q);
    assert c == '.' <==> x[0] == "";
    assert d == '.' <==> y[0] == "";
    assert x[1..] == if c == '.' then p else p[1..];
    assert y[1..] == if d == '.' then q else q[1..];
    if c != '.' {
      assert x[0][1..] == p[0] && y[0][1..] == q[0];
      assert p == [p[0]] + p[1..] && q == [q[0]] + q[1..];
    }
  }
}
