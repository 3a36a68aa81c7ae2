/** Levenshtein distance as the configuration loader computes it: two rows of the
    table, swapped after every row (internal/config/diagnostics.go).

    The specification is independent of the table.  An edit inserts, deletes or
    substitutes one item anywhere in a sequence; a script is any list of edits, in
    any order; the distance is the length of a shortest script. */
module Levenshtein {

  datatype Edit<T> =
    | Insert(at: nat, item: T)
    | Delete(at: nat)
    | Substitute(at: nat, item: T)

  ghost predicate Legal<T>(s: seq<T>, e: Edit<T>) {
    match e
    case Insert(at, _) => at <= |s|
    case Delete(at) => at < |s|
    case Substitute(at, _) => at < |s|
  }

  ghost function Apply<T>(s: seq<T>, e: Edit<T>): seq<T>
    requires Legal(s, e)
  {
    match e
    case Insert(at, item) => s[..at] + [item] + s[at..]
    case Delete(at) => s[..at] + s[at + 1..]
    case Substitute(at, item) => s[..at] + [item] + s[at + 1..]
  }

  /** Running the script es on s, each edit legal when its turn comes, yields t. */
  ghost predicate Transforms<T>(s: seq<T>, es: seq<Edit<T>>, t: seq<T>)
    decreases |es|
  {
    if es == [] then s == t
    else Legal(s, es[0]) && Transforms(Apply(s, es[0]), es[1..], t)
  }

  /** d is the length of a shortest script from s to t. */
  ghost predicate IsShortest<T(!new)>(s: seq<T>, t: seq<T>, d: nat) {
    && (exists es: seq<Edit<T>> :: |es| == d && Transforms(s, es, t))
    && (forall es: seq<Edit<T>> :: Transforms(s, es, t) ==> d <= |es|)
  }

  function Min(a: nat, b: nat): nat {
    if a <= b then a else b
  }

  function Cost<T(==)>(x: T, y: T): nat {
    if x == y then 0 else 1
  }

  /** One cell of the full table: the distance between two prefixes. */
  function Cell<T(==)>(s: seq<T>, t: seq<T>): nat
    decreases |s| + |t|
  {
    if s == [] then |t|
    else if t == [] then |s|
    else
      var s', t' := s[..|s| - 1], t[..|t| - 1];
      Min(Cell(s', t) + 1, Min(Cell(s, t') + 1, Cell(s', t') + Cost(s[|s| - 1], t[|t| - 1])))
  }

  // ----- the table is a metric -----

  lemma {:induction false} Lengths<T>(s: seq<T>, t: seq<T>)
    ensures |s| <= Cell(s, t) + |t|
    ensures |t| <= Cell(s, t) + |s|
    ensures Cell(s, t) <= |s| + |t|
    decreases |s| + |t|
  {
    if s != [] && t != [] {
      var s', t' := s[..|s| - 1], t[..|t| - 1];
      Lengths(s', t);
      Lengths(s, t');
      Lengths(s', t');
    }
  }

  lemma {:induction false} Symmetric<T>(s: seq<T>, t: seq<T>)
    ensures Cell(s, t) == Cell(t, s)
    decreases |s| + |t|
  {
    if s != [] && t != [] {
      var s', t' := s[..|s| - 1], t[..|t| - 1];
      Symmetric(s', t);
      Symmetric(s, t');
      Symmetric(s', t');
    }
  }

  lemma {:induction false} Triangle<T>(a: seq<T>, b: seq<T>, c: seq<T>)
    ensures Cell(a, c) <= Cell(a, b) + Cell(b, c)
    decreases |a| + |b| + |c|
  {
    if a == [] || b == [] || c == [] {
      Lengths(a, b);
      Lengths(b, c);
      Lengths(a, c);
    } else {
      var a', b', c' := a[..|a| - 1], b[..|b| - 1], c[..|c| - 1];
      if Cell(a, b) == Cell(a', b) + 1 {
        Triangle(a', b, c);
      } else if Cell(b, c) == Cell(b, c') + 1 {
        Triangle(a, b, c');
      } else if Cell(a, b) == Cell(a, b') + 1 {
        if Cell(b, c) == Cell(b', c) + 1 {
          Triangle(a, b', c);
        } else {
          Triangle(a, b', c');
        }
      } else if Cell(b, c) == Cell(b', c) + 1 {
        Triangle(a', b', c);
      } else {
        Triangle(a', b', c');
      }
    }
  }

  lemma {:induction false} SameIsZero<T>(s: seq<T>)
    ensures Cell(s, s) == 0
  {
    if s != [] {
      SameIsZero(s[..|s| - 1]);
    }
  }

  // ----- every script is at least as long as the cell -----

  lemma {:induction false} CommonSuffix<T>(s: seq<T>, t: seq<T>, u: seq<T>)
    ensures Cell(s + u, t + u) <= Cell(s, t)
    decreases |u|
  {
    if u == [] {
      assert s + u == s && t + u == t;
    } else {
      CommonItem(s, t, u[0]);
      CommonSuffix(s + [u[0]], t + [u[0]], u[1..]);
      Regrouped(s, u);
      Regrouped(t, u);
    }
  }

  lemma Regrouped<T>(s: seq<T>, u: seq<T>)
    requires u != []
    ensures s + u == s + [u[0]] + u[1..]
  {
  }

  lemma CommonItem<T>(s: seq<T>, t: seq<T>, x: T)
    ensures Cell(s + [x], t + [x]) <= Cell(s, t)
  {
    assert (s + [x])[..|s|] == s && (t + [x])[..|t|] == t;
  }

  /** Replacing at most one item at the end of a prefix costs at most one. */
  lemma {:induction false} OneItem<T>(p: seq<T>, x: seq<T>, y: seq<T>, u: seq<T>)
    requires |x| <= 1 && |y| <= 1
    ensures Cell(p + x + u, p + y + u) <= 1
  {
    SameIsZero(p);
    assert x != [] ==> (p + x)[..|p|] == p;
    assert y != [] ==> (p + y)[..|p|] == p;
    assert x == [] ==> p + x == p;
    assert y == [] ==> p + y == p;
    if x == [] && y == [] {
    } else if p == [] {
    } else if x == [] {
      assert Cell(p, p + y) <= Cell(p, p) + 1;
    } else if y == [] {
      assert Cell(p + x, p) <= Cell(p, p) + 1;
    } else {
      assert Cell(p + x, p + y) <= Cell(p, p) + 1;
    }
    CommonSuffix(p + x, p + y, u);
  }

  /** The edit as a replacement of at most one item x by at most one item y. */
  lemma {:induction false} AsReplacement<T>(s: seq<T>, e: Edit<T>) returns (p: seq<T>, x: seq<T>, y: seq<T>, u: seq<T>)
    requires Legal(s, e)
    ensures |x| <= 1 && |y| <= 1 && s == p + x + u && Apply(s, e) == p + y + u
  {
    p, x, y, u := s[..e.at], [], [], s[e.at..];
    if !e.Insert? {
      x, u := [s[e.at]], s[e.at + 1..];
    }
    if !e.Delete? {
      y := [e.item];
    }
  }

  lemma {:induction false} OneEdit<T>(s: seq<T>, e: Edit<T>)
    requires Legal(s, e)
    ensures Cell(s, Apply(s, e)) <= 1
  {
    var p, x, y, u := AsReplacement(s, e);
    OneItem(p, x, y, u);
  }

  lemma {:induction false} NoScriptIsShorter<T>(s: seq<T>, es: seq<Edit<T>>, t: seq<T>)
    requires Transforms(s, es, t)
    ensures Cell(s, t) <= |es|
    decreases |es|
  {
    if es == [] {
      SameIsZero(s);
    } else {
      var s' := Apply(s, es[0]);
      NoScriptIsShorter(s', es[1..], t);
      OneEdit(s, es[0]);
      Triangle(s, s', t);
    }
  }

  // ----- and some script is exactly that long -----

  lemma {:induction false} KeepSuffix<T>(s: seq<T>, es: seq<Edit<T>>, t: seq<T>, y: T)
    requires Transforms(s, es, t)
    ensures Transforms(s + [y], es, t + [y])
    decreases |es|
  {
    if es != [] {
      assert Apply(s + [y], es[0]) == Apply(s, es[0]) + [y];
      KeepSuffix(Apply(s, es[0]), es[1..], t, y);
    }
  }

  lemma {:induction false} Prepend<T>(s: seq<T>, e: Edit<T>, es: seq<Edit<T>>, t: seq<T>)
    requires Legal(s, e) && Transforms(Apply(s, e), es, t)
    ensures Transforms(s, [e] + es, t)
  {
    assert ([e] + es)[1..] == es;
  }

  lemma DeleteLast<T>(s: seq<T>, x: T, es: seq<Edit<T>>, t: seq<T>)
    requires Transforms(s, es, t)
    ensures Transforms(s + [x], [Delete(|s|)] + es, t)
  {
    assert Apply(s + [x], Delete(|s|)) == s;
    Prepend(s + [x], Delete(|s|), es, t);
  }

  lemma InsertLast<T>(s: seq<T>, es: seq<Edit<T>>, t: seq<T>, y: T)
    requires Transforms(s, es, t)
    ensures Transforms(s, [Insert(|s|, y)] + es, t + [y])
  {
    KeepSuffix(s, es, t, y);
    assert Apply(s, Insert(|s|, y)) == s + [y];
    Prepend(s, Insert(|s|, y), es, t + [y]);
  }

  lemma SubstituteLast<T>(s: seq<T>, x: T, es: seq<Edit<T>>, t: seq<T>, y: T)
    requires Transforms(s, es, t)
    ensures Transforms(s + [x], [Substitute(|s|, y)] + es, t + [y])
  {
    KeepSuffix(s, es, t, y);
    assert Apply(s + [x], Substitute(|s|, y)) == s + [y];
    Prepend(s + [x], Substitute(|s|, y), es, t + [y]);
  }

  lemma {:induction false} SomeScript<T>(s: seq<T>, t: seq<T>) returns (es: seq<Edit<T>>)
    ensures |es| == Cell(s, t) && Transforms(s, es, t)
    decreases |s| + |t|
  {
    if s == [] && t == [] {
      es := [];
    } else if t == [] || (s != [] && Cell(s, t) == Cell(s[..|s| - 1], t) + 1) {
      var s', x := s[..|s| - 1], s[|s| - 1];
      assert s == s' + [x];
      es := SomeScript(s', t);
      DeleteLast(s', x, es, t);
      es := [Delete(|s'|)] + es;
    } else {
      var t', y := t[..|t| - 1], t[|t| - 1];
      assert t == t' + [y];
      if s == [] || Cell(s, t) == Cell(s, t') + 1 {
        es := SomeScript(s, t');
        InsertLast(s, es, t', y);
        es := [Insert(|s|, y)] + es;
      } else {
        var s', x := s[..|s| - 1], s[|s| - 1];
        assert s == s' + [x];
        es := SomeScript(s', t');
        if x == y {
          KeepSuffix(s', es, t', y);
        } else {
          SubstituteLast(s', x, es, t', y);
          es := [Substitute(|s'|, y)] + es;
        }
      }
    }
  }

  /** A table cell is the length of a shortest script, and nothing else is. */
  lemma CellIsShortest<T(!new)>(s: seq<T>, t: seq<T>, d: nat)
    ensures IsShortest(s, t, d) <==> d == Cell(s, t)
  {
    var best := SomeScript(s, t);
    forall es: seq<Edit<T>> | Transforms(s, es, t)
      ensures Cell(s, t) <= |es|
    {
      NoScriptIsShorter(s, es, t);
    }
    assert IsShortest(s, t, |best|);
  }

  lemma ZeroIffSame<T(!new)>(s: seq<T>, t: seq<T>)
    ensures Cell(s, t) == 0 <==> s == t
  {
    if s == t {
      SameIsZero(s);
    } else {
      var es := SomeScript(s, t);
    }
  }

  /** The laws of a metric, stated of shortest scripts rather than of the table. */
  lemma ShortestIsAMetric<T(!new)>(a: seq<T>, b: seq<T>, c: seq<T>, ab: nat, ba: nat, bc: nat, ac: nat)
    requires IsShortest(a, b, ab) && IsShortest(b, a, ba) && IsShortest(b, c, bc) && IsShortest(a, c, ac)
    ensures ab == 0 <==> a == b
    ensures ab == ba
    ensures ac <= ab + bc
  {
    CellIsShortest(a, b, ab);
    CellIsShortest(b, a, ba);
    CellIsShortest(b, c, bc);
    CellIsShortest(a, c, ac);
    ZeroIffSame(a, b);
    Symmetric(a, b);
    Triangle(a, b, c);
  }

  // ----- the two-row loop -----

  /** Row r of the full table. */
  ghost function Row<T>(s: seq<T>, t: seq<T>, r: nat): (row: seq<nat>)
    requires r <= |s|
    ensures |row| == |t| + 1
  {
    seq(|t| + 1, c requires 0 <= c <= |t| => Cell(s[..r], t[..c]))
  }

  lemma {:induction false} FirstColumn<T>(s: seq<T>, t: seq<T>, r: nat)
    requires r <= |s|
    ensures Row(s, t, r)[0] == r
  {
  }

  lemma {:induction false} FirstRow<T>(s: seq<T>, t: seq<T>, c: nat)
    requires c <= |t|
    ensures Row(s, t, 0)[c] == c
  {
  }

  lemma {:induction false} NextCell<T>(s: seq<T>, t: seq<T>, r: nat, c: nat)
    requires 1 <= r <= |s| && 1 <= c <= |t|
    ensures var above, here := Row(s, t, r - 1), Row(s, t, r);
            here[c] == Min(above[c] + 1, Min(here[c - 1] + 1, above[c - 1] + Cost(s[r - 1], t[c - 1])))
  {
    assert s[..r][..r - 1] == s[..r - 1] && t[..c][..c - 1] == t[..c - 1];
  }

  method EditDistance<T(==, !new)>(left: seq<T>, right: seq<T>) returns (distance: nat)
    ensures distance == Cell(left, right)
  {
    if left == right {
      SameIsZero(left);
      return 0;
    }

    var previous := new nat[|right| + 1](_ => 0);
    var current := new nat[|right| + 1](_ => 0);

    for col := 0 to previous.Length
      invariant forall c | 0 <= c < col :: previous[c] == Row(left, right, 0)[c]
    {
      FirstRow(left, right, col);
      previous[col] := col;
    }

    for row := 1 to |left| + 1
      invariant previous != current && previous.Length == current.Length == |right| + 1
      invariant fresh(previous) && fresh(current)
      invariant previous[..] == Row(left, right, row - 1)
    {
      FirstColumn(left, right, row);
      current[0] := row;

      for col := 1 to |right| + 1
        invariant previous[..] == Row(left, right, row - 1)
        invariant forall c | 0 <= c < col :: current[c] == Row(left, right, row)[c]
      {
        var cost := 1;
        if left[row - 1] == right[col - 1] {
          cost := 0;
        }

        NextCell(left, right, row, col);
        assert previous[col] == previous[..][col] && previous[col - 1] == previous[..][col - 1];
        current[col] := Min(previous[col] + 1, Min(current[col - 1] + 1, previous[col - 1] + cost));
      }

      previous, current := current, previous;
    }

    assert left[..|left|] == left && right[..|right|] == right;
    assert previous[|right|] == previous[..][|right|];
    distance := previous[|right|];
  }
}
