/** The few string functions of the standard library that the modelled code relies
    on: splitting and joining at a separator, prefixes, trimming. */
module Strings {

  datatype Option<+T> = None | Some(value: T)

  predicate HasPrefix(s: string, prefix: string) {
    |prefix| <= |s| && s[..|prefix|] == prefix
  }

  // ----- splitting and joining -----

  /** strings.Split for a one-character separator; there is always a part. */
  function Split(sep: char, s: string): (parts: seq<string>)
    ensures |parts| > 0
  {
    if s == [] then [""] else Attach(sep, s[0], Split(sep, s[1..]))
  }

  function Attach(sep: char, c: char, parts: seq<string>): seq<string>
    requires |parts| > 0
  {
    if c == sep then [""] + parts else [[c] + parts[0]] + parts[1..]
  }

  /** strings.Join. */
  function Joined(sep: char, parts: seq<string>): string {
    if parts == [] then "" else if |parts| == 1 then parts[0] else parts[0] + [sep] + Joined(sep, parts[1..])
  }

  predicate Lacks(sep: char, part: string) {
    sep !in part
  }

  lemma {:induction false} SplitParts(sep: char, s: string)
    ensures forall i | 0 <= i < |Split(sep, s)| :: Lacks(sep, Split(sep, s)[i])
  {
    if s != [] {
      SplitParts(sep, s[1..]);
    }
  }

  lemma {:induction false} SplitWhole(sep: char, part: string)
    requires Lacks(sep, part)
    ensures Split(sep, part) == [part]
  {
    if part != [] {
      SplitWhole(sep, part[1..]);
      assert [part[0]] + part[1..] == part;
    }
  }

  lemma {:induction false} SplitStep(sep: char, c: char, s: string)
    ensures Split(sep, [c] + s) == Attach(sep, c, Split(sep, s))
  {
    assert ([c] + s)[1..] == s;
  }

  lemma {:induction false} AttachConcat(sep: char, c: char, p: seq<string>, q: seq<string>)
    requires |p| > 0
    ensures Attach(sep, c, p + q) == Attach(sep, c, p) + q
  {
    assert (p + q)[1..] == p[1..] + q;
  }

  /** Splitting at a separator splits either side on its own. */
  lemma {:induction false} SplitAt(sep: char, a: string, b: string)
    ensures Split(sep, a + [sep] + b) == Split(sep, a) + Split(sep, b)
  {
    if a == [] {
      assert "" + [sep] + b == [sep] + b;
      SplitStep(sep, sep, b);
    } else {
      var c, a' := a[0], a[1..];
      SplitAt(sep, a', b);
      SplitStep(sep, c, a' + [sep] + b);
      AttachConcat(sep, c, Split(sep, a'), Split(sep, b));
      assert [c] + (a' + [sep] + b) == a + [sep] + b;
    }
  }

  lemma {:induction false} SplitJoined(sep: char, parts: seq<string>)
    requires parts != [] && forall i | 0 <= i < |parts| :: Lacks(sep, parts[i])
    ensures Split(sep, Joined(sep, parts)) == parts
  {
    if |parts| == 1 {
      SplitWhole(sep, parts[0]);
    } else {
      SplitAt(sep, parts[0], Joined(sep, parts[1..]));
      SplitWhole(sep, parts[0]);
      SplitJoined(sep, parts[1..]);
    }
  }

  lemma {:induction false} JoinedSplit(sep: char, s: string)
    ensures Joined(sep, Split(sep, s)) == s
  {
    if s != [] {
      var rest := Split(sep, s[1..]);
      JoinedSplit(sep, s[1..]);
      if s[0] == sep {
        assert ([""] + rest)[1..] == rest;
      } else if |rest| > 1 {
        assert ([[s[0]] + rest[0]] + rest[1..])[1..] == rest[1..];
      }
      assert [s[0]] + s[1..] == s;
    }
  }

  lemma {:induction false} JoinedConcat(sep: char, p: seq<string>, q: seq<string>)
    requires p != [] && q != []
    ensures Joined(sep, p + q) == Joined(sep, p) + [sep] + Joined(sep, q)
  {
    if |p| == 1 {
      assert (p + q)[1..] == q;
    } else {
      assert (p + q)[1..] == p[1..] + q;
      JoinedConcat(sep, p[1..], q);
      assert Joined(sep, p) == p[0] + [sep] + Joined(sep, p[1..]);
    }
  }

  /** Lists of parts without the separator join to different strings. */
  lemma JoinedIsInjective(sep: char, p: seq<string>, q: seq<string>)
    requires p != [] && q != []
    requires (forall i | 0 <= i < |p| :: Lacks(sep, p[i])) && forall i | 0 <= i < |q| :: Lacks(sep, q[i])
    requires Joined(sep, p) == Joined(sep, q)
    ensures p == q
  {
    SplitJoined(sep, p);
    SplitJoined(sep, q);
  }
}
