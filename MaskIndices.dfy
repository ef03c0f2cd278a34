/** Mask-index selection for one sequence of a ragged batch: how many of the
    valid positions are masked, which ones (the first entries of a shuffled
    range), and the ascending order they are returned in. */
module MaskIndices {

  /** The mask ratio as an exact fraction num/den. */
  datatype MaskRatio = MaskRatio(num: nat, den: nat) {
    /** A ratio in [0, 1]; anything else is a caller error. */
    predicate Valid() { 0 < den && num <= den }
  }

  /** ceil(len * ratio), computed exactly; never more than the number of
      valid positions, so it always fits the shuffled range. */
  function MaskCount(len: nat, ratio: MaskRatio): (c: nat)
    requires ratio.Valid()
    ensures c <= len
  {
    CeilingBounds(len * ratio.num, ratio.den);
    assert len * ratio.num <= len * ratio.den by { MulMonotone(len, ratio.num, ratio.den); }
    assert (len + 1) * ratio.den == len * ratio.den + ratio.den;
    MulLessImpliesLess((len * ratio.num + ratio.den - 1) / ratio.den, len + 1, ratio.den);
    (len * ratio.num + ratio.den - 1) / ratio.den
  }

  /** Rounding up by adding d - 1 before dividing. */
  lemma CeilingBounds(p: nat, d: nat)
    requires d > 0
    ensures ((p + d - 1) / d) * d >= p
    ensures ((p + d - 1) / d) * d <= p + d - 1
  {
    var c, rem := (p + d - 1) / d, (p + d - 1) % d;
    assert p + d - 1 == c * d + rem && 0 <= rem < d;
  }

  /** MaskCount is the least count c with c >= len * ratio, it never exceeds
      the number of valid positions, it is zero for an empty sequence and
      at least one for a non-empty sequence and a positive ratio. */
  lemma MaskCountIsCeiling(len: nat, ratio: MaskRatio)
    requires ratio.Valid()
    ensures MaskCount(len, ratio) * ratio.den >= len * ratio.num
    ensures MaskCount(len, ratio) == 0 || (MaskCount(len, ratio) - 1) * ratio.den < len * ratio.num
    ensures len == 0 ==> MaskCount(len, ratio) == 0
    ensures len > 0 && ratio.num > 0 ==> MaskCount(len, ratio) > 0
  {
    var d, p, c: int := ratio.den, len * ratio.num, MaskCount(len, ratio);
    CeilingBounds(p, d);
    assert (c - 1) * d == c * d - d;
    if len == 0 {
      MulLessImpliesLess(c, 1, d);
    }
  }

  /** Worked counts: five valid steps at ratio 0.2 mask one, three valid
      steps at 0.2 mask one, an empty sequence at 0.5 masks none, and ten
      steps at 0.7 mask exactly seven. */
  lemma WorkedCounts()
    ensures MaskCount(5, MaskRatio(1, 5)) == 1
    ensures MaskCount(3, MaskRatio(1, 5)) == 1
    ensures MaskCount(0, MaskRatio(1, 2)) == 0
    ensures MaskCount(10, MaskRatio(7, 10)) == 7
  {
  }

  lemma MulLessImpliesLess(a: nat, b: nat, d: nat)
    requires a * d < b * d
    ensures a < b
  {
    if a >= b {
      MulMonotone(d, b, a);
    }
  }

  lemma MulMonotone(a: nat, b: nat, c: nat)
    requires b <= c
    ensures a * b <= a * c && b * a <= c * a
  {
  }

  /** The ascending enumeration of the members of `s` below `n`. */
  function Members(s: set<nat>, n: nat): (r: seq<nat>)
    ensures forall i :: 0 <= i < |r| ==> r[i] < n
    ensures forall x :: x in r <==> x in s && x < n
    ensures StrictlyIncreasing(r)
  {
    if n == 0 then [] else Members(s, n - 1) + (if n - 1 in s then [n - 1] else [])
  }

  predicate StrictlyIncreasing(xs: seq<nat>)
  {
    forall i, j :: 0 <= i < j < |xs| ==> xs[i] < xs[j]
  }

  predicate Distinct(xs: seq<nat>)
  {
    forall i, j :: 0 <= i < j < |xs| ==> xs[i] != xs[j]
  }

  /** The set of values a sequence holds. */
  function Elems(xs: seq<nat>): set<nat>
  {
    set x: nat | x in xs
  }

  /** `p` is a reordering of the range [0, len): what `np.random.shuffle`
      leaves in `np.arange(len)`. */
  predicate IsPermutation(p: seq<nat>, len: nat)
  {
    |p| == len && (forall i :: 0 <= i < |p| ==> p[i] < len) && Distinct(p)
  }

  /** The unshuffled range itself is a permutation, so every length has one. */
  function Range(len: nat): (r: seq<nat>)
    ensures IsPermutation(r, len)
    ensures forall i :: 0 <= i < len ==> r[i] == i
  {
    seq(len, i requires 0 <= i => i)
  }

  /** A sequence without repeats has as many values as entries. */
  lemma {:induction false} DistinctCard(xs: seq<nat>)
    requires Distinct(xs)
    ensures |Elems(xs)| == |xs|
  {
    if xs != [] {
      var init, last := xs[..|xs| - 1], xs[|xs| - 1];
      assert Distinct(init);
      DistinctCard(init);
      assert Elems(xs) == Elems(init) + {last} by {
        assert xs == init + [last];
      }
    }
  }

  lemma IncreasingIsDistinct(xs: seq<nat>)
    requires StrictlyIncreasing(xs)
    ensures Distinct(xs)
  {
  }

  /** The mask set of one sequence: the first MaskCount(len, ratio) entries
      of the shuffled range, in ascending order. */
  function SelectedMask(shuffle: seq<nat>, len: nat, ratio: MaskRatio): seq<nat>
    requires IsPermutation(shuffle, len) && ratio.Valid()
  {
    Members(Elems(shuffle[..MaskCount(len, ratio)]), len)
  }

  /** The selected mask set has exactly ceil(len * ratio) entries, all in
      the valid region [0, len), strictly increasing, and they are exactly
      the shuffle's first ceil(len * ratio) entries. */
  lemma SelectedMaskProperties(shuffle: seq<nat>, len: nat, ratio: MaskRatio)
    requires IsPermutation(shuffle, len) && ratio.Valid()
    ensures |SelectedMask(shuffle, len, ratio)| == MaskCount(len, ratio)
    ensures forall j :: 0 <= j < |SelectedMask(shuffle, len, ratio)| ==> SelectedMask(shuffle, len, ratio)[j] < len
    ensures StrictlyIncreasing(SelectedMask(shuffle, len, ratio))
    ensures Elems(SelectedMask(shuffle, len, ratio)) == Elems(shuffle[..MaskCount(len, ratio)])
  {
    var prefix := shuffle[..MaskCount(len, ratio)];
    assert Distinct(prefix);
    DistinctCard(prefix);
    var r := Members(Elems(prefix), len);
    MembersOfBoundedSet(Elems(prefix), len);
    IncreasingIsDistinct(r);
    DistinctCard(r);
  }

  /** Enumerating a set that lies below the bound loses none of it. */
  lemma MembersOfBoundedSet(s: set<nat>, n: nat)
    requires forall x :: x in s ==> x < n
    ensures Elems(Members(s, n)) == s
  {
  }

  /** Sorting of the chosen indices (`np.sort` at model.py:68). The values
      are distinct and below `bound`, so they are sorted by marking each one
      and reading the marks back in ascending order. */
  method SortIndices(xs: seq<nat>, bound: nat) returns (sorted: seq<nat>)
    requires forall i :: 0 <= i < |xs| ==> xs[i] < bound
    requires Distinct(xs)
    ensures sorted == Members(Elems(xs), bound)
    ensures StrictlyIncreasing(sorted)
    ensures Elems(sorted) == Elems(xs)
    ensures |sorted| == |xs|
  {
    var marked := new bool[bound](_ => false);
    for i := 0 to |xs|
      invariant forall v :: 0 <= v < bound ==> (marked[v] <==> v in xs[..i])
    {
      marked[xs[i]] := true;
      assert xs[..i + 1] == xs[..i] + [xs[i]];
    }
    assert xs[..|xs|] == xs;
    MembersOfBoundedSet(Elems(xs), bound);
    DistinctCard(xs);
    sorted := [];
    for v := 0 to bound
      invariant sorted == Members(Elems(xs), v)
    {
      if marked[v] {
        sorted := sorted + [v];
      }
    }
    IncreasingIsDistinct(sorted);
    DistinctCard(sorted);
  }

  /** One sequence's selection (model.py:64-68): take the first
      MaskCount(len, ratio) entries of the shuffled range and sort them. */
  method SelectMaskIdxs(len: nat, ratio: MaskRatio, shuffle: seq<nat>) returns (idxs: seq<nat>)
    requires ratio.Valid() && IsPermutation(shuffle, len)
    ensures idxs == SelectedMask(shuffle, len, ratio)
    ensures |idxs| == MaskCount(len, ratio)
    ensures forall j :: 0 <= j < |idxs| ==> idxs[j] < len
    ensures StrictlyIncreasing(idxs)
  {
    var count := MaskCount(len, ratio);
    idxs := SortIndices(shuffle[..count], len);
    SelectedMaskProperties(shuffle, len, ratio);
  }
}
