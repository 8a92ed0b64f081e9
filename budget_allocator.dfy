/**
 * The proportional budget of `correlate_commits_issues_discussions`: a fixed
 * total of size units is shared among the optional text sources that are
 * present, in proportion to fixed weights, and each present source is cut to
 * three characters per unit of its share behind a label.
 *
 * The source computes the shares in `f32` and truncates with `as usize`; the
 * model uses exact integer floor division.
 */
module BudgetAllocator {
  import opened Wrappers
  import opened Text

  /** The shared budget, in size units. */
  const TotalSpace: nat := 16000

  /** Characters of source text kept per size unit. */
  const CharsPerUnit: nat := 3

  /** Weights of the profile data, commit logs, issue posts and discussion posts, in that order. */
  const Weights: seq<nat> := [1, 4, 4, 2]

  const Labels: seq<string> := ["profile data: ", "commit logs: ", "issue post: ", "discussion posts: "]

  predicate Positive(weights: seq<nat>) { forall i :: 0 <= i < |weights| ==> weights[i] > 0 }

  /** The sum of the weights of the sources among the first `n` that are present. */
  function PresentWeightUpTo(weights: seq<nat>, sources: seq<Option<string>>, n: nat): nat
    requires |weights| == |sources| && n <= |sources|
  {
    if n == 0 then 0
    else PresentWeightUpTo(weights, sources, n - 1) + (if sources[n - 1].Some? then weights[n - 1] else 0)
  }

  /** The number of sources among the first `n` that are present. */
  function PresentCountUpTo(sources: seq<Option<string>>, n: nat): nat
    requires n <= |sources|
  {
    if n == 0 then 0 else PresentCountUpTo(sources, n - 1) + (if sources[n - 1].Some? then 1 else 0)
  }

  function PresentWeight(weights: seq<nat>, sources: seq<Option<string>>): nat
    requires |weights| == |sources|
  {
    PresentWeightUpTo(weights, sources, |sources|)
  }

  /** A present source's weight is part of the present total, so that total is not zero. */
  lemma {:induction false} PresentWeightCovers(weights: seq<nat>, sources: seq<Option<string>>, n: nat, i: nat)
    requires |weights| == |sources| && i < n <= |sources|
    requires sources[i].Some?
    ensures PresentWeightUpTo(weights, sources, n) >= weights[i]
  {
    if i < n - 1 {
      PresentWeightCovers(weights, sources, n - 1, i);
    }
  }

  /**
   * `compute_space`: the units allotted to source `i`. An absent source gets
   * nothing (and no division happens for it); a present one gets the floor of
   * its weighted share of `total`.
   */
  function Space(total: nat, weights: seq<nat>, sources: seq<Option<string>>, i: nat): (units: nat)
    requires |weights| == |sources| && i < |sources| && Positive(weights)
    ensures sources[i].None? ==> units == 0
    ensures sources[i].Some? ==>
      var w := PresentWeight(weights, sources);
      units * w <= total * weights[i] < (units + 1) * w
  {
    if sources[i].None? then 0
    else
      PresentWeightCovers(weights, sources, |sources|, i);
      total * weights[i] / PresentWeight(weights, sources)
  }

  /** The units allotted to the first `n` sources together. */
  function SpaceSumUpTo(total: nat, weights: seq<nat>, sources: seq<Option<string>>, n: nat): nat
    requires |weights| == |sources| && n <= |sources| && Positive(weights)
  {
    if n == 0 then 0 else SpaceSumUpTo(total, weights, sources, n - 1) + Space(total, weights, sources, n - 1)
  }

  /** Summing the floor bounds of `Space` over the first `n` sources. */
  lemma {:induction false} SpaceSumScaled(total: nat, weights: seq<nat>, sources: seq<Option<string>>, n: nat)
    requires |weights| == |sources| && n <= |sources| && Positive(weights)
    ensures var w := PresentWeight(weights, sources);
      && SpaceSumUpTo(total, weights, sources, n) * w <= total * PresentWeightUpTo(weights, sources, n)
      && SpaceSumUpTo(total, weights, sources, n) * w + PresentCountUpTo(sources, n) * w
         >= total * PresentWeightUpTo(weights, sources, n) + PresentCountUpTo(sources, n)
  {
    if n > 0 {
      SpaceSumScaled(total, weights, sources, n - 1);
      var w := PresentWeight(weights, sources);
      var s := SpaceSumUpTo(total, weights, sources, n - 1);
      var p := PresentWeightUpTo(weights, sources, n - 1);
      var c := PresentCountUpTo(sources, n - 1);
      var u := Space(total, weights, sources, n - 1);
      assert SpaceSumUpTo(total, weights, sources, n) == s + u;
      Distribute(s, u, w);
      if sources[n - 1].Some? {
        var wt := weights[n - 1];
        assert PresentWeightUpTo(weights, sources, n) == p + wt;
        assert PresentCountUpTo(sources, n) == c + 1;
        assert u * w + w >= total * wt + 1 by {
          Distribute(u, 1, w);
        }
        Distribute(p, wt, total);
        Distribute(c, 1, w);
      } else {
        assert u == 0;
        assert PresentWeightUpTo(weights, sources, n) == p;
        assert PresentCountUpTo(sources, n) == c;
      }
    }
  }

  lemma Distribute(a: nat, b: nat, c: nat)
    ensures (a + b) * c == a * c + b * c
    ensures c * (a + b) == c * a + c * b
  {
  }

  /**
   * Conservation: the shares never add up to more than the total, and when
   * any source is present, rounding loses less than one unit per present source.
   */
  lemma SpacesConserveTotal(total: nat, weights: seq<nat>, sources: seq<Option<string>>)
    requires |weights| == |sources| && Positive(weights)
    ensures SpaceSumUpTo(total, weights, sources, |sources|) <= total
    ensures PresentCountUpTo(sources, |sources|) > 0 ==>
      SpaceSumUpTo(total, weights, sources, |sources|) > total - PresentCountUpTo(sources, |sources|)
  {
    SpaceSumScaled(total, weights, sources, |sources|);
    var w := PresentWeight(weights, sources);
    var s := SpaceSumUpTo(total, weights, sources, |sources|);
    var c := PresentCountUpTo(sources, |sources|);
    assert PresentWeightUpTo(weights, sources, |sources|) == w;
    if w > 0 {
      assert s * w <= total * w;
      ScaledLessOrEqual(s, total, w);
      if c > 0 {
        Distribute(s, c, w);
        assert total * w < (s + c) * w;
        ScaledLess(total, s + c, w);
      }
    } else {
      NoWeightNoCount(total, weights, sources, |sources|);
    }
  }

  lemma ScaledLessOrEqual(a: nat, b: nat, w: nat)
    requires w > 0 && a * w <= b * w
    ensures a <= b
  {
  }

  lemma ScaledLess(a: nat, b: nat, w: nat)
    requires w > 0 && a * w < b * w
    ensures a < b
  {
  }

  lemma {:induction false} NoWeightNoCount(total: nat, weights: seq<nat>, sources: seq<Option<string>>, n: nat)
    requires |weights| == |sources| && n <= |sources| && Positive(weights)
    requires PresentWeightUpTo(weights, sources, n) == 0
    ensures PresentCountUpTo(sources, n) == 0
    ensures SpaceSumUpTo(total, weights, sources, n) == 0
  {
    if n > 0 {
      NoWeightNoCount(total, weights, sources, n - 1);
    }
  }

  /**
   * `trim_to_allocated_space` behind its label: a present source becomes its
   * label followed by its first `3 * space` characters; an absent one becomes "".
   */
  function Trimmed(sources: seq<Option<string>>, i: nat): string
    requires |sources| == |Weights| && i < |sources|
  {
    match sources[i]
    case None => ""
    case Some(text) => Labels[i] + TakeChars(text, CharsPerUnit * Space(TotalSpace, Weights, sources, i))
  }

  /** The four strings the correlation prompt is built from. */
  function TrimSources(sources: seq<Option<string>>): (r: seq<string>)
    requires |sources| == |Weights|
    ensures |r| == |sources|
  {
    seq(|sources|, i requires 0 <= i < |sources| => Trimmed(sources, i))
  }

  /** With all four sources present the shares are 1454, 5818, 5818 and 2909 units. */
  lemma AllPresentShares(profile: string, commits: string, issues: string, discussions: string)
    ensures var sources := [Some(profile), Some(commits), Some(issues), Some(discussions)];
      && PresentWeight(Weights, sources) == 11
      && Space(TotalSpace, Weights, sources, 0) == 1454
      && Space(TotalSpace, Weights, sources, 1) == 5818
      && Space(TotalSpace, Weights, sources, 2) == 5818
      && Space(TotalSpace, Weights, sources, 3) == 2909
  {
    var sources := [Some(profile), Some(commits), Some(issues), Some(discussions)];
    assert PresentWeightUpTo(Weights, sources, 1) == 1;
    assert PresentWeightUpTo(Weights, sources, 2) == 5;
    assert PresentWeightUpTo(Weights, sources, 3) == 9;
    assert PresentWeightUpTo(Weights, sources, 4) == 11;
  }

  /** With no source present, no share is computed and every part of the prompt is empty. */
  lemma NothingPresent(sources: seq<Option<string>>)
    requires |sources| == |Weights|
    requires forall i :: 0 <= i < |sources| ==> sources[i].None?
    ensures PresentWeight(Weights, sources) == 0
    ensures TrimSources(sources) == ["", "", "", ""]
  {
    assert PresentWeightUpTo(Weights, sources, 1) == 0;
    assert PresentWeightUpTo(Weights, sources, 2) == 0;
    assert PresentWeightUpTo(Weights, sources, 3) == 0;
  }

  /**
   * A present source becomes its label followed by a prefix of its text of
   * `min(length, 3 * share)` characters; an absent one contributes nothing.
   * With conservation, the kept text is at most 3 * 16000 characters in all.
   */
  lemma TrimmedWithinShare(sources: seq<Option<string>>, i: nat)
    requires |sources| == |Weights| && i < |sources|
    ensures sources[i].None? ==> TrimSources(sources)[i] == ""
    ensures sources[i].Some? ==>
      var kept := TrimSources(sources)[i][|Labels[i]|..];
      && Labels[i] <= TrimSources(sources)[i]
      && kept <= sources[i].value
      && |kept| == Min(|sources[i].value|, CharsPerUnit * Space(TotalSpace, Weights, sources, i))
  {
    if sources[i].Some? {
      var r := TrimSources(sources)[i];
      assert r == Labels[i] + TakeChars(sources[i].value, CharsPerUnit * Space(TotalSpace, Weights, sources, i));
      assert r[|Labels[i]|..] == TakeChars(sources[i].value, CharsPerUnit * Space(TotalSpace, Weights, sources, i));
    }
  }

  /** Proportionality: of two present sources, the one with the larger weight never gets the smaller share. */
  lemma SharesFollowWeights(total: nat, weights: seq<nat>, sources: seq<Option<string>>, i: nat, j: nat)
    requires |weights| == |sources| && Positive(weights) && i < |sources| && j < |sources|
    requires sources[i].Some? && sources[j].Some? && weights[i] <= weights[j]
    ensures Space(total, weights, sources, i) <= Space(total, weights, sources, j)
    ensures weights[i] == weights[j] ==> Space(total, weights, sources, i) == Space(total, weights, sources, j)
  {
    var w := PresentWeight(weights, sources);
    var ui := Space(total, weights, sources, i);
    var uj := Space(total, weights, sources, j);
    PresentWeightCovers(weights, sources, |sources|, i);
    assert total * weights[i] <= total * weights[j] by {
      Distribute(weights[i], weights[j] - weights[i], total);
    }
    Distribute(uj, 1, w);
    ScaledLess(ui, uj + 1, w);
  }
}
