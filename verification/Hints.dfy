/** How the loader guesses which setting a mistyped key was meant to be
    (internal/config/diagnostics.go).  A key is the runes that ranging over it
    yields; a normalised key is the bytes the builder holds afterwards, because
    the edit distance indexes bytes. */
module Hints {
  import opened Levenshtein

  newtype Byte = b: int | 0 <= b < 256

  /** UTF-8, section 3 of RFC 3629. */
  function Utf8(c: char): seq<Byte> {
    var n := c as int;
    if n < 0x80 then
      [n as Byte]
    else if n < 0x800 then
      [(0xC0 + n / 0x40) as Byte, (0x80 + n % 0x40) as Byte]
    else if n < 0x10000 then
      [(0xE0 + n / 0x1000) as Byte, (0x80 + n / 0x40 % 0x40) as Byte, (0x80 + n % 0x40) as Byte]
    else
      [(0xF0 + n / 0x40000) as Byte, (0x80 + n / 0x1000 % 0x40) as Byte, (0x80 + n / 0x40 % 0x40) as Byte,
       (0x80 + n % 0x40) as Byte]
  }

  function Fold(c: char): char {
    if 'A' <= c <= 'Z' then c - 'A' + 'a' else c
  }

  predicate Separator(c: char) {
    c == '_' || c == '-'
  }

  /** The letters of a key: separators dropped, A to Z folded. */
  function Letters(name: string): string {
    if name == [] then []
    else (if Separator(name[0]) then [] else [Fold(name[0])]) + Letters(name[1..])
  }

  function Encode(letters: string): seq<Byte> {
    if letters == [] then [] else Utf8(letters[0]) + Encode(letters[1..])
  }

  function Normalised(name: string): seq<Byte> {
    Encode(Letters(name))
  }

  lemma {:induction false} LettersAppend(name: string, c: char)
    ensures Letters(name + [c]) == Letters(name) + Letters([c])
  {
    if name == [] {
      assert [] + [c] == [c];
    } else {
      assert (name + [c])[1..] == name[1..] + [c];
      LettersAppend(name[1..], c);
    }
  }

  lemma {:induction false} EncodeAppend(letters: string, c: char)
    ensures Encode(letters + [c]) == Encode(letters) + Utf8(c)
  {
    if letters == [] {
      assert [] + [c] == [c];
    } else {
      assert (letters + [c])[1..] == letters[1..] + [c];
      EncodeAppend(letters[1..], c);
    }
  }

  method Normalise(name: string) returns (out: seq<Byte>)
    ensures out == Normalised(name)
  {
    out := [];
    for i := 0 to |name|
      invariant out == Normalised(name[..i])
    {
      var c := name[i];
      assert name[..i + 1] == name[..i] + [c];
      LettersAppend(name[..i], c);
      assert [c][1..] == "";
      if Separator(c) {
        assert Letters(name[..i + 1]) == Letters(name[..i]);
      } else {
        assert Letters([c]) == [Fold(c)];
        EncodeAppend(Letters(name[..i]), Fold(c));
        out := out + Utf8(Fold(c));
      }
    }
    assert name[..|name|] == name;
  }

  // ----- what "the same after normalising" means -----

  /** The code point a UTF-8 sequence of this length spells. */
  ghost function CodePoint(bs: seq<Byte>): int {
    match |bs|
    case 1 => bs[0] as int
    case 2 => (bs[0] as int - 0xC0) * 0x40 + (bs[1] as int - 0x80)
    case 3 => (bs[0] as int - 0xE0) * 0x1000 + (bs[1] as int - 0x80) * 0x40 + (bs[2] as int - 0x80)
    case 4 => (bs[0] as int - 0xF0) * 0x40000 + (bs[1] as int - 0x80) * 0x1000 + (bs[2] as int - 0x80) * 0x40
              + (bs[3] as int - 0x80)
    case _ => -1
  }

  lemma CodePointOf(c: char)
    ensures CodePoint(Utf8(c)) == c as int
  {
    var n := c as int;
    assert n / 0x1000 == n / 0x40 / 0x40 && n / 0x40000 == n / 0x1000 / 0x40;
  }

  lemma {:induction false} Utf8IsPrefixFree(c: char, x: seq<Byte>, d: char, y: seq<Byte>)
    requires Utf8(c) + x == Utf8(d) + y
    ensures c == d && x == y
  {
    var cs, ds := Utf8(c), Utf8(d);
    assert (cs + x)[0] == cs[0] && (ds + y)[0] == ds[0];
    assert |cs| == |ds|;
    CodePointOf(c);
    CodePointOf(d);
    forall i | 0 <= i < |cs|
      ensures cs[i] == ds[i]
    {
      assert (cs + x)[i] == cs[i] && (ds + y)[i] == ds[i];
    }
    assert cs == ds;
    assert (cs + x)[|cs|..] == x && (ds + y)[|ds|..] == y;
  }

  lemma {:induction false} EncodeIsInjective(a: string, b: string)
    requires Encode(a) == Encode(b)
    ensures a == b
  {
    if a != [] && b != [] {
      Utf8IsPrefixFree(a[0], Encode(a[1..]), b[0], Encode(b[1..]));
      EncodeIsInjective(a[1..], b[1..]);
    }
  }

  /** Lead and continuation bytes are in their ranges, which with the code point leaves
      one choice for each byte. */
  lemma Utf8Shape(c: char)
    ensures var bs, n := Utf8(c), c as int;
            && |bs| == (if n < 0x80 then 1 else if n < 0x800 then 2 else if n < 0x10000 then 3 else 4)
            && (forall i | 1 <= i < |bs| :: 0x80 <= bs[i] < 0xC0)
            && match |bs|
               case 1 => bs[0] < 0x80
               case 2 => 0xC2 <= bs[0] < 0xE0
               case 3 => 0xE0 <= bs[0] < 0xF0
               case _ => 0xF0 <= bs[0] < 0xF5
  {
  }

  /** d is the lower case of c, from A to Z. */
  predicate LowerOf(c: char, d: char) {
    'A' <= c <= 'Z' && d as int == c as int + 32
  }

  /** The keys can be read side by side, skipping '_' and '-' on either side, so that every
      pair is one character or the two cases of one letter from A to Z. */
  predicate Alike(a: string, b: string)
    decreases |a| + |b|
  {
    || (a == [] && b == [])
    || (a != [] && a[0] in "_-" && Alike(a[1..], b))
    || (b != [] && b[0] in "_-" && Alike(a, b[1..]))
    || (a != [] && b != [] && (a[0] == b[0] || LowerOf(a[0], b[0]) || LowerOf(b[0], a[0])) && Alike(a[1..], b[1..]))
  }

  lemma {:induction false} AlikeIff(a: string, b: string)
    ensures Alike(a, b) <==> Letters(a) == Letters(b)
    decreases |a| + |b|
  {
    if a != [] {
      AlikeIff(a[1..], b);
      FirstLetter(a);
    }
    if b != [] {
      AlikeIff(a, b[1..]);
      FirstLetter(b);
    }
    if a != [] && b != [] {
      AlikeIff(a[1..], b[1..]);
      SameFold(a[0], b[0]);
    }
  }

  lemma FirstLetter(name: string)
    requires name != []
    ensures name[0] in "_-" ==> Letters(name) == Letters(name[1..])
    ensures name[0] !in "_-" ==> Letters(name) != [] && Letters(name)[0] == Fold(name[0]) &&
                                 Letters(name)[1..] == Letters(name[1..])
  {
  }

  lemma SameFold(c: char, d: char)
    ensures Fold(c) == Fold(d) <==> c == d || LowerOf(c, d) || LowerOf(d, c)
    ensures c in "_-" && d !in "_-" ==> Fold(c) != Fold(d)
  {
  }

  /** Two keys normalise alike exactly when they differ in '_', '-' and the case of A to Z
      alone, which is the class of misspellings the first pass is for. */
  lemma SameSpelling(a: string, b: string)
    ensures Normalised(a) == Normalised(b) <==> Alike(a, b)
  {
    AlikeIff(a, b);
    if Normalised(a) == Normalised(b) {
      EncodeIsInjective(Letters(a), Letters(b));
    }
  }

  // ----- the guess -----

  const MAX_HINT_DISTANCE := 2

  /** How far each candidate is from the key, both normalised. */
  ghost function Distances(key: string, candidates: seq<string>): (ds: seq<nat>)
    ensures |ds| == |candidates|
    ensures forall i | 0 <= i < |ds| :: ds[i] == Cell(Normalised(key), Normalised(candidates[i]))
  {
    seq(|candidates|, i requires 0 <= i < |candidates| => Cell(Normalised(key), Normalised(candidates[i])))
  }

  lemma DistancesAreShortest(key: string, candidates: seq<string>, i: nat, d: nat)
    requires i < |candidates|
    ensures IsShortest(Normalised(key), Normalised(candidates[i]), d) <==> d == Distances(key, candidates)[i]
  {
    CellIsShortest(Normalised(key), Normalised(candidates[i]), d);
  }

  /** No distance is smaller than the one at k, and none before it is as small. */
  ghost predicate FirstMinimum(ds: seq<nat>, k: nat) {
    k < |ds| && forall i | 0 <= i < |ds| :: ds[k] <= ds[i] && (i < k ==> ds[k] < ds[i])
  }

  lemma {:induction false} FirstMinimumIsUnique(ds: seq<nat>, j: nat, k: nat)
    requires FirstMinimum(ds, j) && FirstMinimum(ds, k)
    ensures j == k
  {
    assert ds[j] <= ds[k] && ds[k] <= ds[j];
  }

  /** The first at minimal distance, and near enough. */
  ghost predicate NearestAt(key: string, candidates: seq<string>, k: nat) {
    k < |candidates| && FirstMinimum(Distances(key, candidates), k) &&
      Distances(key, candidates)[k] <= MAX_HINT_DISTANCE
  }

  /** A script of that length, and none shorter, takes the key to candidate i, both
      normalised. */
  ghost predicate IsAway(key: string, candidates: seq<string>, i: nat, d: nat) {
    i < |candidates| && IsShortest(Normalised(key), Normalised(candidates[i]), d)
  }

  /** k is the first candidate at minimal distance, and no more than two edits away. */
  ghost predicate IsHint(key: string, candidates: seq<string>, k: nat) {
    exists d: nat :: d <= 2 && IsAway(key, candidates, k, d)
      && forall i: nat, e: nat | IsAway(key, candidates, i, e) :: d <= e && (i < k ==> d < e)
  }

  lemma HintIff(key: string, candidates: seq<string>, k: nat)
    ensures IsHint(key, candidates, k) <==> NearestAt(key, candidates, k)
  {
    var ds := Distances(key, candidates);
    forall i: nat, d: nat
      ensures IsAway(key, candidates, i, d) <==> i < |candidates| && d == ds[i]
    {
      if i < |candidates| {
        DistancesAreShortest(key, candidates, i, d);
      }
    }
    if NearestAt(key, candidates, k) {
      assert IsAway(key, candidates, k, ds[k]);
    }
    if IsHint(key, candidates, k) {
      forall i | 0 <= i < |ds|
        ensures ds[k] <= ds[i] && (i < k ==> ds[k] < ds[i])
      {
        assert IsAway(key, candidates, i, ds[i]);
      }
    }
  }

  /** Among the first i distances, either nearest is the first minimum or none is near enough. */
  ghost predicate NearestSoFar(ds: seq<nat>, i: nat, bestDistance: nat, nearest: nat) {
    && i <= |ds| && bestDistance <= MAX_HINT_DISTANCE + 1
    && (forall j | 0 <= j < i :: bestDistance <= ds[j])
    && (bestDistance <= MAX_HINT_DISTANCE ==>
          nearest < i && ds[nearest] == bestDistance && forall j | 0 <= j < nearest :: bestDistance < ds[j])
  }

  lemma OneFurther(ds: seq<nat>, i: nat, bestDistance: nat, nearest: nat)
    requires i < |ds| && NearestSoFar(ds, i, bestDistance, nearest)
    ensures if ds[i] < bestDistance then NearestSoFar(ds, i + 1, ds[i], i)
            else NearestSoFar(ds, i + 1, bestDistance, nearest)
  {
  }

  /** best is the hint, or there is none. */
  ghost predicate Answers(key: string, candidates: seq<string>, best: string, ok: bool) {
    if ok then exists k: nat :: k < |candidates| && best == candidates[k] && IsHint(key, candidates, k)
    else best == "" && forall k: nat :: !IsHint(key, candidates, k)
  }

  lemma FoundHint(key: string, candidates: seq<string>, k: nat)
    requires NearestAt(key, candidates, k)
    ensures Answers(key, candidates, candidates[k], true)
  {
    HintIff(key, candidates, k);
  }

  lemma NoHint(key: string, candidates: seq<string>)
    requires forall j | 0 <= j < |candidates| :: Distances(key, candidates)[j] > MAX_HINT_DISTANCE
    ensures Answers(key, candidates, "", false)
  {
    forall k: nat
      ensures !IsHint(key, candidates, k)
    {
      HintIff(key, candidates, k);
    }
  }

  /** The two passes together: the first candidate at minimal distance, and only
      when that distance is at most two. */
  method BestMatch(key: string, candidates: seq<string>) returns (best: string, ok: bool)
    ensures Answers(key, candidates, best, ok)
  {
    ghost var ds := Distances(key, candidates);

    for i := 0 to |candidates|
      invariant forall j | 0 <= j < i :: ds[j] > 0
    {
      var candidate := Normalise(candidates[i]);
      var wanted := Normalise(key);
      ZeroIffSame(wanted, candidate);
      if candidate == wanted {
        FoundHint(key, candidates, i);
        return candidates[i], true;
      }
    }

    best := "";
    var bestDistance: nat := MAX_HINT_DISTANCE + 1;
    ghost var nearest: nat := 0;

    for i := 0 to |candidates|
      invariant NearestSoFar(ds, i, bestDistance, nearest)
      invariant bestDistance <= MAX_HINT_DISTANCE ==> nearest < i && best == candidates[nearest]
    {
      var wanted := Normalise(key);
      var candidate := Normalise(candidates[i]);
      var distance := EditDistance(wanted, candidate);
      OneFurther(ds, i, bestDistance, nearest);
      if distance < bestDistance {
        best, bestDistance, nearest := candidates[i], distance, i;
      }
    }

    if bestDistance <= MAX_HINT_DISTANCE {
      FoundHint(key, candidates, nearest);
      return best, true;
    }

    NoHint(key, candidates);
    return "", false;
  }
}
