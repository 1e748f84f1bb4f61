/** The database rows the core reads (`Character`, `Skill`) and the derived
    overall tier of a character: the four letter grades averaged on the scale
    D=1 .. SSS=7 and rounded to the nearest letter, the lower one on a tie. */
module Models {

  import opened Wrappers

  /** A character row, restricted to the columns the core reads. */
  datatype Character = Character(
    name: string,
    className: Option<string>,
    faction: Option<string>,
    tierWeapon: Option<string>,
    tierSkill: Option<string>,
    tierPassive: Option<string>,
    tierUltimate: Option<string>)

  /** A skill row. `id` 0 stands for a skill not yet flushed (id None). */
  datatype Skill = Skill(
    id: nat,
    name: string,
    skillType: Option<string>,
    description: Option<string>,
    validHits: Option<string>,
    cooldown: Option<string>,
    levelInfo: Option<string>)

  /** `map_letter`: the grade scale. */
  const MapLetter: map<string, int> :=
    map["D" := 1, "C" := 2, "B" := 3, "A" := 4, "S" := 5, "SS" := 6, "SSS" := 7]

  /** `map_back`: `map_letter` with keys and values swapped (see ScaleIsBijection). */
  const MapBack: map<int, string> :=
    map[1 := "D", 2 := "C", 3 := "B", 4 := "A", 5 := "S", 6 := "SS", 7 := "SSS"]

  /** The keys of `map_back` in the order Python iterates them: the order in
      which the comprehension inserted them, D first. */
  const BackKeys: seq<int> := [1, 2, 3, 4, 5, 6, 7]

  /** `map_letter` and `map_back` are inverse bijections between the seven
      letters and the ranks 1..7, and `BackKeys` lists exactly those ranks. */
  lemma ScaleIsBijection()
    ensures MapLetter.Keys == {"D", "C", "B", "A", "S", "SS", "SSS"}
    ensures MapBack.Keys == {1, 2, 3, 4, 5, 6, 7}
    ensures forall l :: l in MapLetter ==> MapLetter[l] in MapBack && MapBack[MapLetter[l]] == l
    ensures forall k :: k in MapBack ==> MapBack[k] in MapLetter && MapLetter[MapBack[k]] == k
    ensures forall k :: k in BackKeys <==> k in MapBack
  {
  }

  /** Every rank of the scale has a letter, and that letter has this rank. */
  lemma LetterOfRank(k: int)
    requires 1 <= k <= 7
    ensures k in MapBack && MapBack[k] in MapLetter && MapLetter[MapBack[k]] == k
  {
  }

  /** `map_letter.get(g)`: None for an absent or unknown grade. */
  function RankOf(g: Option<string>): (r: Option<int>)
    ensures r.Some? <==> g.Some? && g.value in MapLetter
    ensures r.Some? ==> 1 <= r.value <= 7
  {
    if g.Some? && g.value in MapLetter then Some(MapLetter[g.value]) else None
  }

  predicate Recognized(g: Option<string>)
  {
    RankOf(g).Some?
  }

  /** `vals`: the ranks of the recognised grades, in field order. */
  function Ranks(grades: seq<Option<string>>): (vals: seq<int>)
    ensures |vals| <= |grades|
    ensures forall i :: 0 <= i < |vals| ==> 1 <= vals[i] <= 7
  {
    if grades == [] then []
    else (if Recognized(grades[0]) then [RankOf(grades[0]).value] else []) + Ranks(grades[1..])
  }

  /** Nothing is left exactly when no grade is recognised. */
  lemma {:induction false} RanksEmpty(grades: seq<Option<string>>)
    ensures Ranks(grades) == [] <==> forall i :: 0 <= i < |grades| ==> !Recognized(grades[i])
  {
    if grades != [] {
      RanksEmpty(grades[1..]);
      assert forall i :: 1 <= i < |grades| ==> grades[i] == grades[1..][i - 1];
    }
  }

  function Sum(xs: seq<int>): int
  {
    if xs == [] then 0 else xs[0] + Sum(xs[1..])
  }

  function Abs(x: int): nat
  {
    if x < 0 then -x else x
  }

  /** `abs(k - sum/n)` scaled by `n`: for `n > 0` this orders the candidates
      exactly as the float distance does, without rounding. */
  function Dist(k: int, total: int, n: nat): nat
  {
    Abs(k * n - total)
  }

  /** The index `min(keys, key=...)` picks: a key at minimal distance, and the
      first such key, since `min` only replaces its candidate by a strictly
      smaller one. */
  function ClosestIndex(keys: seq<int>, total: int, n: nat): (i: nat)
    requires keys != []
    ensures i < |keys|
    ensures forall j :: 0 <= j < |keys| ==> Dist(keys[i], total, n) <= Dist(keys[j], total, n)
    ensures forall j :: 0 <= j < i ==> Dist(keys[j], total, n) > Dist(keys[i], total, n)
  {
    if |keys| == 1 then 0
    else
      var j := 1 + ClosestIndex(keys[1..], total, n);
      if Dist(keys[j], total, n) < Dist(keys[0], total, n) then j else 0
  }

  /** `closest`: the rank `min(map_back.keys(), key=lambda v: abs(v - avg))`
      returns for a mean of `total / n`. */
  function Closest(total: int, n: nat): (k: int)
    ensures 1 <= k <= 7
    ensures forall j :: 1 <= j <= 7 ==> Dist(k, total, n) <= Dist(j, total, n)
    ensures forall j :: 1 <= j < k ==> Dist(j, total, n) > Dist(k, total, n)
  {
    var i := ClosestIndex(BackKeys, total, n);
    assert BackKeys[i] == i + 1;
    assert forall j :: 1 <= j <= 7 ==> Dist(BackKeys[i], total, n) <= Dist(j, total, n) by {
      forall j | 1 <= j <= 7 ensures Dist(BackKeys[i], total, n) <= Dist(j, total, n) {
        assert BackKeys[j - 1] == j;
      }
    }
    assert forall j :: 1 <= j < i + 1 ==> Dist(j, total, n) > Dist(BackKeys[i], total, n) by {
      forall j | 1 <= j < i + 1 ensures Dist(j, total, n) > Dist(BackKeys[i], total, n) {
        assert BackKeys[j - 1] == j;
      }
    }
    BackKeys[i]
  }

  /** The overall tier of a list of grades: None when no grade is recognised,
      otherwise always one of the seven letters. */
  function Aggregate(grades: seq<Option<string>>): (r: Option<string>)
    ensures r.None? <==> forall i :: 0 <= i < |grades| ==> !Recognized(grades[i])
    ensures r.Some? ==> r.value in MapLetter
  {
    var vals := Ranks(grades);
    RanksEmpty(grades);
    if vals == [] then None
    else
      var k := Closest(Sum(vals), |vals|);
      LetterOfRank(k);
      Some(MapBack[k])
  }

  function Grades(c: Character): seq<Option<string>>
  {
    [c.tierWeapon, c.tierSkill, c.tierPassive, c.tierUltimate]
  }

  /** `Character.overall_tier`. */
  function OverallTier(c: Character): (r: Option<string>)
    ensures r.None? <==> !Recognized(c.tierWeapon) && !Recognized(c.tierSkill)
                         && !Recognized(c.tierPassive) && !Recognized(c.tierUltimate)
    ensures r.Some? ==> r.value in MapLetter
  {
    var g := Grades(c);
    assert g[0] == c.tierWeapon && g[1] == c.tierSkill && g[2] == c.tierPassive && g[3] == c.tierUltimate;
    Aggregate(g)
  }

  // ---------------------------------------------------------------------------
  // What the aggregate is, stated against the mean of the recognised ranks.

  /** The rank of the letter the aggregate chose is the closest rank. */
  lemma ChosenRank(grades: seq<Option<string>>)
    requires Aggregate(grades).Some?
    ensures Ranks(grades) != [] && Aggregate(grades).value in MapLetter
    ensures MapLetter[Aggregate(grades).value] == Closest(Sum(Ranks(grades)), |Ranks(grades)|)
  {
    LetterOfRank(Closest(Sum(Ranks(grades)), |Ranks(grades)|));
  }

  lemma {:induction false} SumBounds(vals: seq<int>, lo: int, hi: int)
    requires forall i :: 0 <= i < |vals| ==> lo <= vals[i] <= hi
    ensures lo * |vals| <= Sum(vals) <= hi * |vals|
  {
    if vals != [] {
      SumBounds(vals[1..], lo, hi);
      assert lo * |vals| == lo + lo * |vals[1..]|;
      assert hi * |vals| == hi + hi * |vals[1..]|;
    }
  }

  /** Some rank of the scale lies within one half of any mean between 1 and 7,
      so the closest one does too. */
  lemma ClosestWithinHalf(total: int, n: nat)
    requires 0 < n && n <= total <= 7 * n
    ensures 2 * Dist(Closest(total, n), total, n) <= n
  {
    var m :=
      if 2 * total < 3 * n then 1
      else if 2 * total < 5 * n then 2
      else if 2 * total < 7 * n then 3
      else if 2 * total < 9 * n then 4
      else if 2 * total < 11 * n then 5
      else if 2 * total < 13 * n then 6
      else 7;
    assert 2 * Dist(m, total, n) <= n;
  }

  lemma MulMonotone(a: int, b: int, n: int)
    requires n > 0
    ensures a < b ==> a * n < b * n
  {
    assert b * n - a * n == (b - a) * n;
  }

  /** A mean between two ranks has its closest rank between them as well. */
  lemma ClosestBetween(total: int, n: nat, lo: int, hi: int)
    requires 0 < n && 1 <= lo <= hi <= 7
    requires lo * n <= total <= hi * n
    ensures lo <= Closest(total, n) <= hi
  {
    var k := Closest(total, n);
    assert Dist(k, total, n) <= Dist(lo, total, n) && Dist(k, total, n) <= Dist(hi, total, n);
    MulMonotone(k, lo, n);
    MulMonotone(hi, k, n);
  }

  /** The chosen rank is within one half of the mean of the recognised ranks:
      `2 * |rank * n - sum| <= n`, that is `|rank - mean| <= 1/2`. */
  lemma NearestToMean(grades: seq<Option<string>>)
    requires Aggregate(grades).Some?
    ensures Aggregate(grades).value in MapLetter
    ensures 2 * Dist(MapLetter[Aggregate(grades).value], Sum(Ranks(grades)), |Ranks(grades)|)
            <= |Ranks(grades)|
  {
    ChosenRank(grades);
    SumBounds(Ranks(grades), 1, 7);
    ClosestWithinHalf(Sum(Ranks(grades)), |Ranks(grades)|);
  }

  /** No rank is closer to the mean than the chosen one, and on an exact
      half-way tie the lower rank wins: any other rank at the same distance is
      higher. */
  lemma TieGoesToLowerRank(grades: seq<Option<string>>, j: int)
    requires Aggregate(grades).Some? && 1 <= j <= 7
    ensures Aggregate(grades).value in MapLetter
    ensures Dist(MapLetter[Aggregate(grades).value], Sum(Ranks(grades)), |Ranks(grades)|)
            <= Dist(j, Sum(Ranks(grades)), |Ranks(grades)|)
    ensures Dist(j, Sum(Ranks(grades)), |Ranks(grades)|)
            == Dist(MapLetter[Aggregate(grades).value], Sum(Ranks(grades)), |Ranks(grades)|)
            ==> MapLetter[Aggregate(grades).value] <= j
  {
    ChosenRank(grades);
  }

  function MinOf(xs: seq<int>): (m: int)
    requires xs != []
    ensures m in xs && forall i :: 0 <= i < |xs| ==> m <= xs[i]
  {
    if |xs| == 1 then xs[0] else var r := MinOf(xs[1..]); if xs[0] <= r then xs[0] else r
  }

  function MaxOf(xs: seq<int>): (m: int)
    requires xs != []
    ensures m in xs && forall i :: 0 <= i < |xs| ==> xs[i] <= m
  {
    if |xs| == 1 then xs[0] else var r := MaxOf(xs[1..]); if xs[0] >= r then xs[0] else r
  }

  /** The chosen rank lies between the lowest and the highest recognised rank. */
  lemma WithinRecognisedRange(grades: seq<Option<string>>)
    requires Aggregate(grades).Some?
    ensures Ranks(grades) != [] && Aggregate(grades).value in MapLetter
    ensures MinOf(Ranks(grades)) <= MapLetter[Aggregate(grades).value] <= MaxOf(Ranks(grades))
  {
    var vals := Ranks(grades);
    ChosenRank(grades);
    SumBounds(vals, MinOf(vals), MaxOf(vals));
    ClosestBetween(Sum(vals), |vals|, MinOf(vals), MaxOf(vals));
  }

  /** When every recognised grade is the same letter, that letter is the result. */
  lemma UniformGrades(grades: seq<Option<string>>, l: string)
    requires l in MapLetter
    requires exists i :: 0 <= i < |grades| && Recognized(grades[i])
    requires forall i :: 0 <= i < |grades| && Recognized(grades[i]) ==> grades[i] == Some(l)
    ensures Aggregate(grades) == Some(l)
  {
    var vals := Ranks(grades);
    var r := MapLetter[l];
    RanksUniform(grades, l);
    SumBounds(vals, r, r);
    ChosenRank(grades);
    ClosestBetween(Sum(vals), |vals|, r, r);
    ScaleIsBijection();
  }

  lemma {:induction false} RanksUniform(grades: seq<Option<string>>, l: string)
    requires l in MapLetter
    requires forall i :: 0 <= i < |grades| && Recognized(grades[i]) ==> grades[i] == Some(l)
    ensures forall i :: 0 <= i < |Ranks(grades)| ==> Ranks(grades)[i] == MapLetter[l]
  {
    if grades != [] {
      RanksUniform(grades[1..], l);
    }
  }

  // ---------------------------------------------------------------------------
  // Permutation invariance.

  lemma {:induction false} RanksAppend(a: seq<Option<string>>, b: seq<Option<string>>)
    ensures Ranks(a + b) == Ranks(a) + Ranks(b)
  {
    if a != [] {
      var head := if Recognized(a[0]) then [RankOf(a[0]).value] else [];
      assert (a + b)[0] == a[0];
      assert (a + b)[1..] == a[1..] + b;
      RanksAppend(a[1..], b);
      assert a == [a[0]] + a[1..];
      calc {
        Ranks(a + b);
        head + Ranks(a[1..] + b);
        head + (Ranks(a[1..]) + Ranks(b));
        (head + Ranks(a[1..])) + Ranks(b);
        Ranks(a) + Ranks(b);
      }
    } else {
      assert a + b == b;
    }
  }

  lemma {:induction false} SumAppend(a: seq<int>, b: seq<int>)
    ensures Sum(a + b) == Sum(a) + Sum(b)
  {
    if a != [] {
      assert (a + b)[0] == a[0];
      assert (a + b)[1..] == a[1..] + b;
      SumAppend(a[1..], b);
      assert Sum(a + b) == a[0] + Sum(a[1..] + b);
    } else {
      assert a + b == b;
    }
  }

  /** Taking one grade out of a list takes its rank (if any) out of the count
      and the sum. */
  lemma RanksRemove(h: seq<Option<string>>, j: nat)
    requires j < |h|
    ensures |Ranks(h)| == |Ranks([h[j]])| + |Ranks(h[..j] + h[j + 1..])|
    ensures Sum(Ranks(h)) == Sum(Ranks([h[j]])) + Sum(Ranks(h[..j] + h[j + 1..]))
  {
    var a, x, c := h[..j], [h[j]], h[j + 1..];
    assert h == a + (x + c);
    RanksAppend(a, x + c);
    RanksAppend(x, c);
    RanksAppend(a, c);
    SumAppend(Ranks(a), Ranks(x) + Ranks(c));
    SumAppend(Ranks(x), Ranks(c));
    SumAppend(Ranks(a), Ranks(c));
  }

  /** A grade that occurs in a list occurs at some index of it. */
  lemma IndexOf(h: seq<Option<string>>, x: Option<string>) returns (j: nat)
    requires x in multiset(h)
    ensures j < |h| && h[j] == x
  {
    assert x in h;
    j :| 0 <= j < |h| && h[j] == x;
  }

  /** Removing the same grade from two lists with equal multisets leaves
      lists with equal multisets. */
  lemma RemoveMatching(g: seq<Option<string>>, h: seq<Option<string>>, j: nat)
    requires multiset(g) == multiset(h) && g != [] && j < |h| && h[j] == g[0]
    ensures multiset(g[1..]) == multiset(h[..j] + h[j + 1..])
  {
    assert h == h[..j] + [h[j]] + h[j + 1..];
    assert g == [g[0]] + g[1..];
    assert multiset(g[1..]) == multiset(g) - multiset{g[0]};
    assert multiset(h[..j] + h[j + 1..]) == multiset(h) - multiset{g[0]};
  }

  /** The first grade of a list splits off its count and sum. */
  lemma RanksFirst(g: seq<Option<string>>)
    requires g != []
    ensures |Ranks(g)| == |Ranks([g[0]])| + |Ranks(g[1..])|
    ensures Sum(Ranks(g)) == Sum(Ranks([g[0]])) + Sum(Ranks(g[1..]))
  {
    RanksRemove(g, 0);
    assert g[..0] + g[1..] == g[1..];
  }

  /** The number and the sum of the recognised ranks depend only on the
      multiset of grades, not on which field holds which grade. */
  lemma {:induction false} RanksPermutation(g: seq<Option<string>>, h: seq<Option<string>>)
    requires multiset(g) == multiset(h)
    ensures |Ranks(g)| == |Ranks(h)| && Sum(Ranks(g)) == Sum(Ranks(h))
    decreases |g|
  {
    if g == [] {
      assert |h| == |multiset(h)| == 0;
    } else {
      var j := IndexOf(h, g[0]);
      RemoveMatching(g, h, j);
      RanksPermutation(g[1..], h[..j] + h[j + 1..]);
      RanksRemove(h, j);
      RanksFirst(g);
    }
  }

  /** `overall_tier` does not depend on which of the four fields holds which grade. */
  lemma OverallTierPermutation(c: Character, d: Character)
    requires multiset(Grades(c)) == multiset(Grades(d))
    ensures OverallTier(c) == OverallTier(d)
  {
    RanksPermutation(Grades(c), Grades(d));
  }

  /** A mean that is exactly a rank of the scale gives that rank's letter. */
  lemma ExactMean(grades: seq<Option<string>>, k: int)
    requires 1 <= k <= 7 && Ranks(grades) != []
    requires Sum(Ranks(grades)) == k * |Ranks(grades)|
    ensures Aggregate(grades) == Some(MapBack[k])
  {
    var vals := Ranks(grades);
    ClosestBetween(Sum(vals), |vals|, k, k);
    assert Closest(Sum(vals), |vals|) == k;
  }

  /** A mean exactly half-way between two neighbouring ranks resolves to the
      lower one. */
  lemma ClosestHalfway(total: int, n: nat, k: int)
    requires 0 < n && 1 <= k < 7
    requires 2 * total == (2 * k + 1) * n
    ensures Closest(total, n) == k
  {
    assert (2 * k + 1) * n == 2 * (k * n) + n;
    assert (k + 1) * n == k * n + n;
    ClosestBetween(total, n, k, k + 1);
    assert Dist(k, total, n) == Dist(k + 1, total, n);
  }

  /** A mean exactly half-way between two neighbouring ranks gives the lower
      one's letter. */
  lemma HalfwayMean(grades: seq<Option<string>>, k: int)
    requires 1 <= k < 7 && Ranks(grades) != []
    requires 2 * Sum(Ranks(grades)) == (2 * k + 1) * |Ranks(grades)|
    ensures Aggregate(grades) == Some(MapBack[k])
  {
    ClosestHalfway(Sum(Ranks(grades)), |Ranks(grades)|, k);
  }
}
