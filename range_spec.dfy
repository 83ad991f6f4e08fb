/**
 * What `search_range` collects. Its walk visits a run of leaves along the
 * `next` links from the leaf of the left key; every leaf it passes gives a
 * segment (from the left key's lower bound in the first leaf, whole in the
 * others), and the leaf of the right key gives the last segment, from the
 * left key's lower bound to the right key's upper bound. The answer is the
 * first `max` records of those segments, in order.
 */
module RangeSpec {
  import opened Bytes
  import opened Keys
  import opened Blocks
  import opened TreeSpec

  /** The segments one after the other. */
  function Flatten(segs: seq<seq<Record>>): seq<Record>
  {
    if segs == [] then [] else segs[0] + Flatten(segs[1..])
  }

  /** The values of records, in order. */
  function Values(rs: seq<Record>): (vs: seq<Payload>)
    ensures |vs| == |rs| && forall i | 0 <= i < |rs| :: vs[i] == rs[i].value
  {
    seq(|rs|, i requires 0 <= i < |rs| => rs[i].value)
  }

  lemma {:induction false} FlattenSnoc(segs: seq<seq<Record>>, s: seq<Record>)
    ensures Flatten(segs + [s]) == Flatten(segs) + s
    decreases |segs|
  {
    if segs == [] {
      assert [] + [s] == [s];
      assert Flatten([s]) == s + Flatten([]);
    } else {
      assert (segs + [s])[1..] == segs[1..] + [s];
      FlattenSnoc(segs[1..], s);
    }
  }

  /** Flattening one more segment of a prefix appends that segment. */
  lemma FlattenPrefixStep(segs: seq<seq<Record>>, k: nat)
    requires k < |segs|
    ensures Flatten(segs[..k + 1]) == Flatten(segs[..k]) + segs[k]
  {
    assert segs[..k + 1] == segs[..k] + [segs[k]];
    FlattenSnoc(segs[..k], segs[k]);
  }

  /** The records of a prefix of the segments come first among all of them. */
  lemma {:induction false} FlattenPrefix(segs: seq<seq<Record>>, k: nat)
    requires k <= |segs|
    ensures Flatten(segs) == Flatten(segs[..k]) + Flatten(segs[k..])
    decreases k
  {
    if k > 0 {
      FlattenPrefix(segs, k - 1);
      FlattenPrefixStep(segs, k - 1);
      assert segs[k - 1..] == [segs[k - 1]] + segs[k..];
      assert Flatten(segs[k - 1..]) == segs[k - 1] + Flatten(segs[k..]);
    } else {
      assert segs[..0] == [] && segs[0..] == segs;
    }
  }

  /** The values of two runs of records one after the other. */
  lemma ValuesConcat(a: seq<Record>, b: seq<Record>)
    ensures Values(a + b) == Values(a) + Values(b)
  {
  }

  /**
   * One leaf of the walk copied from, its segment `cur[b0..e]` following
   * the records `prev` passed before: the values so far, and what is left
   * of the leaf, against all the records so far.
   */
  lemma CopyStep(prev: seq<Record>, cur: seq<Record>, b0: nat, b: nat, e: nat, i: nat,
                 values0: seq<Payload>, values: seq<Payload>)
    requires b0 <= b <= e <= |cur| && i == |prev| + (b - b0)
    requires values0 == Values(prev) && values == values0 + Values(cur[b0..b])
    ensures values == Values((prev + cur[b0..e])[..i])
    ensures i + (e - b) == |prev + cur[b0..e]|
    ensures b < e ==> cur[b] == (prev + cur[b0..e])[i]
  {
    assert (prev + cur[b0..e])[..i] == prev + cur[b0..b];
    ValuesConcat(prev, cur[b0..b]);
  }

  /**
   * The walk after passing `k` segments with `i` values copied, and
   * `cur[b..e]` left of the last leaf copied from: the values are the first
   * `i` of the records passed, and records are left only once the budget
   * `max` is used up, which happened no earlier than in the last segment.
   */
  ghost predicate Walking(segs: seq<seq<Record>>, k: nat, i: nat, max: nat, values: seq<Payload>,
                          cur: seq<Record>, b: nat, e: nat)
  {
    k <= |segs| && i <= max && b <= e <= |cur| &&
    var done := Flatten(segs[..k]);
    i <= |done| && values == Values(done[..i]) &&
    i + (e - b) == |done| && (b < e ==> cur[b] == done[i]) &&
    (i < max ==> b == e) && (k > 0 ==> |Flatten(segs[..k - 1])| < max)
  }

  /** The walk before any leaf. */
  lemma WalkStart(segs: seq<seq<Record>>, max: nat)
    ensures Walking(segs, 0, 0, max, [], [], 0, 0)
  {
    assert segs[..0] == [];
  }

  /**
   * One more leaf: its segment `cur[b0..e]` copied from while the budget
   * lasts, as `CopyValues` does, leaves `cur[b..e]` of it.
   */
  lemma WalkStep(segs: seq<seq<Record>>, k: nat, i: nat, max: nat, values: seq<Payload>,
                 cur0: seq<Record>, b1: nat, e0: nat,
                 cur: seq<Record>, b0: nat, b: nat, e: nat, i': nat, values': seq<Payload>)
    requires Walking(segs, k, i, max, values, cur0, b1, e0) && i < max
    requires k < |segs| && b0 <= e <= |cur| && segs[k] == cur[b0..e]
    requires b0 <= b <= e && i' <= max && i' - i == b - b0 && (i' == max || b == e)
    requires values' == values + Values(cur[b0..b])
    ensures Walking(segs, k + 1, i', max, values', cur, b, e)
  {
    var prev := Flatten(segs[..k]);
    FlattenPrefixStep(segs, k);
    assert prev[..i] == prev;
    CopyStep(prev, cur, b0, b, e, i', values, values');
    assert segs[..k + 1][..k] == segs[..k];
  }

  /**
   * What the walk along the leaves gives, `last` being the offset it ended
   * at: a failure only where it ended at a block that is not a leaf before
   * the budget `max` was used up. Once the walk's records reach the budget,
   * the values are the first `max` of them and records were left over
   * exactly when the flag as written is set; otherwise the walk copied all
   * their values and ended at the right key's leaf or at 0.
   */
  ghost predicate Walked(segs: seq<seq<Record>>, last: int, offRight: int, max: nat, ok: bool, i: nat,
                         values: seq<Payload>, cur: seq<Record>, b: nat, e: nat)
  {
    var walked := Flatten(segs);
    (!ok ==> |walked| < max && last != offRight && last != 0) &&
    (ok ==> i <= max && b <= e <= |cur|) &&
    (ok && |walked| >= max ==>
      i == max && values == Values(walked)[..max] && (b != e <==> max > 0 && NextAsWritten(segs, max)) &&
      (b != e ==> max < |walked| && cur[b] == walked[max])) &&
    (ok && |walked| < max ==> i == |walked| && values == Values(walked) && (last == offRight || last == 0))
  }

  /**
   * Where the walk stops: after the `k` segments it passed, with `i` values
   * copied and `cur[b..e]` left of the last one, either with the budget
   * used up or past all its segments at the right key's leaf or at 0.
   */
  lemma WalkFinish(segs: seq<seq<Record>>, k: nat, i: nat, max: nat, values: seq<Payload>,
                   cur: seq<Record>, b: nat, e: nat, last: int, offRight: int)
    requires Walking(segs, k, i, max, values, cur, b, e)
    requires i < max ==> k == |segs| && (last == offRight || last == 0)
    ensures Walked(segs, last, offRight, max, true, i, values, cur, b, e)
  {
    var done := Flatten(segs[..k]);
    FlattenPrefix(segs, k);
    assert done[..i] == Flatten(segs)[..i];
    if i < max {
      assert segs[..k] == segs;
    } else if max > 0 {
      NextAsWrittenAt(segs, max, k);
    } else {
      assert segs[..0] == [];
    }
  }

  /** A walk past all its segments that ends at a block that is neither a leaf, the right key's leaf nor 0 fails. */
  lemma WalkFails(segs: seq<seq<Record>>, k: nat, i: nat, max: nat, values: seq<Payload>,
                  cur: seq<Record>, b: nat, e: nat, last: int, offRight: int)
    requires Walking(segs, k, i, max, values, cur, b, e)
    requires i < max && k == |segs| && last != offRight && last != 0
    ensures Walked(segs, last, offRight, max, false, i, values, cur, b, e)
  {
    assert segs[..k] == segs;
  }

  /**
   * The step after the walk: `n` records of the last segment `s` copied
   * after all `|Flatten(segs)|` of the walk, below `budget`, and then the
   * budget used up or the segment done. What was copied is the prefix of
   * all the records, and the flag as written is whether records of `s`
   * were left over.
   */
  lemma LastRangeStep(segs: seq<seq<Record>>, s: seq<Record>, n: nat, budget: nat)
    requires |Flatten(segs)| < budget && n <= |s| && |Flatten(segs)| + n <= budget
    requires |Flatten(segs)| + n == budget || n == |s|
    ensures var total := Flatten(segs + [s]);
      total == Flatten(segs) + s &&
      |Flatten(segs)| + n == (if |total| < budget then |total| else budget) &&
      Values(Flatten(segs)) + Values(s[..n]) == Values(total)[..|Flatten(segs)| + n] &&
      (NextAsWritten(segs + [s], budget) <==> n < |s|) &&
      (n < |s| ==> total[budget] == s[n])
  {
    var all := segs + [s];
    FlattenSnoc(segs, s);
    var total := Flatten(all);
    ValuesConcat(Flatten(segs), s[..n]);
    assert total[..|Flatten(segs)| + n] == Flatten(segs) + s[..n];
    assert all[..|all| - 1] == segs && all[..|all|] == all;
    if |total| >= budget {
      NextAsWrittenAt(all, budget, |all|);
    } else {
      NextAsWrittenShort(all, budget);
    }
  }

  /**
   * The `next` flag `search_range` sets, with `budget` records still to
   * copy: the copying stops in the first segment that uses the budget up,
   * and the flag says whether records of that segment were left over.
   */
  predicate NextAsWritten(segs: seq<seq<Record>>, budget: nat)
  {
    if segs == [] then false
    else if |segs[0]| >= budget then |segs[0]| > budget
    else NextAsWritten(segs[1..], budget - |segs[0]|)
  }

  /**
   * The flag as evidently intended: where the budget is used up, records
   * are left over in that segment or in any later one.
   */
  predicate NextCorrected(segs: seq<seq<Record>>, budget: nat)
  {
    if segs == [] then false
    else if |segs[0]| >= budget then |segs[0]| > budget || |Flatten(segs[1..])| > 0
    else NextCorrected(segs[1..], budget - |segs[0]|)
  }

  /** With a positive budget, the corrected flag is set exactly when records remain past the first `budget`. */
  lemma {:induction false} NextCorrectedIffMore(segs: seq<seq<Record>>, budget: nat)
    requires budget > 0
    ensures NextCorrected(segs, budget) <==> budget < |Flatten(segs)|
    decreases |segs|
  {
    if segs != [] && |segs[0]| < budget {
      NextCorrectedIffMore(segs[1..], budget - |segs[0]|);
    }
  }

  /** The flag as written never claims records that are not there. */
  lemma {:induction false} NextAsWrittenSound(segs: seq<seq<Record>>, budget: nat)
    requires NextAsWritten(segs, budget)
    ensures budget < |Flatten(segs)|
    decreases |segs|
  {
    if |segs[0]| < budget {
      NextAsWrittenSound(segs[1..], budget - |segs[0]|);
    }
  }

  /** The flag as written is the corrected one whenever the budget is not used up at the end of a segment. */
  lemma {:induction false} NextAsWrittenWhenInside(segs: seq<seq<Record>>, budget: nat)
    requires forall k | 0 < k <= |segs| :: |Flatten(segs[..k])| != budget
    ensures NextAsWritten(segs, budget) == NextCorrected(segs, budget)
    decreases |segs|
  {
    if segs != [] {
      assert segs[..1] == [segs[0]] && Flatten([segs[0]]) == segs[0] + Flatten([]);
      assert |segs[0]| != budget;
      if |segs[0]| < budget {
        forall k | 0 < k <= |segs[1..]|
          ensures |Flatten(segs[1..][..k])| != budget - |segs[0]|
        {
          assert segs[..k + 1][1..] == segs[1..][..k];
          assert Flatten(segs[..k + 1]) == segs[0] + Flatten(segs[1..][..k]);
        }
        NextAsWrittenWhenInside(segs[1..], budget - |segs[0]|);
      }
    }
  }

  /**
   * The boundary case: leaves holding a, b and c, the range a..c and room
   * for two values. The two records of the first leaf fill the budget, the
   * flag stays unset, and c is never reported.
   */
  lemma NextAsWrittenMissesBoundary(a: Record, b: Record, c: Record)
    ensures !NextAsWritten([[a, b], [c]], 2)
    ensures 2 < |Flatten([[a, b], [c]])|
    ensures NextCorrected([[a, b], [c]], 2)
  {
    assert Flatten([[a, b], [c]]) == [a, b] + Flatten([[c]]);
    assert Flatten([[c]]) == [c] + Flatten([]);
  }

  /**
   * When the budget runs out in segment k - 1 (and not before), the flag
   * as written says whether that segment had records left.
   */
  lemma {:induction false} NextAsWrittenAt(segs: seq<seq<Record>>, budget: nat, k: nat)
    requires 0 < k <= |segs|
    requires |Flatten(segs[..k - 1])| < budget <= |Flatten(segs[..k])|
    ensures NextAsWritten(segs, budget) == (|Flatten(segs[..k])| > budget)
    decreases k
  {
    FlattenPrefixStep(segs, k - 1);
    assert segs[..1] == [segs[0]] && Flatten([segs[0]]) == segs[0] + Flatten([]);
    if k > 1 {
      FlattenPrefixStep(segs, 0);
      assert segs[..0] == [];
      assert |segs[0]| < budget by {
        FlattenPrefix(segs[..k - 1], 1);
        assert segs[..k - 1][..1] == segs[..1];
      }
      var t := segs[1..];
      assert t[..k - 2] == segs[1..k - 1] && t[..k - 1] == segs[1..k];
      assert Flatten(segs[..k - 1]) == segs[0] + Flatten(t[..k - 2]) by {
        assert segs[..k - 1][1..] == t[..k - 2];
      }
      assert Flatten(segs[..k]) == segs[0] + Flatten(t[..k - 1]) by {
        assert segs[..k][1..] == t[..k - 1];
      }
      NextAsWrittenAt(t, budget - |segs[0]|, k - 1);
    } else {
      assert segs[..0] == [];
    }
  }

  /** With fewer records than the budget, the flag as written stays unset. */
  lemma {:induction false} NextAsWrittenShort(segs: seq<seq<Record>>, budget: nat)
    requires |Flatten(segs)| < budget
    ensures !NextAsWritten(segs, budget)
    decreases |segs|
  {
    if segs != [] {
      NextAsWrittenShort(segs[1..], budget - |segs[0]|);
    }
  }

  /** The records a leaf the walk passes contributes: from the left key's lower bound in the first leaf, all in the others. */
  function Segment(leaf: Leaf, isFirst: bool, left: Key): seq<Record>
  {
    leaf.children[(if isFirst then FindRecord(leaf.children, left) else 0)..]
  }

  /** On any keys, the lower bound of `left` is at most the upper bound of a `right` that is not below it. */
  lemma BoundsOrdered(ks: seq<Key>, left: Key, right: Key)
    requires !KeyLess(right, left)
    ensures LowerBound(ks, left) <= UpperBound(ks, right)
  {
    var lb := LowerBound(ks, left);
    var ub := UpperBound(ks, right);
    if ub < lb {
      KeyLessTransitive(right, ks[ub], left);
    }
  }

  /** The last segment: in the right key's leaf, from the left key's lower bound to the right key's upper bound. */
  function LastSegment(leaf: Leaf, left: Key, right: Key): seq<Record>
    requires !KeyLess(right, left)
  {
    BoundsOrdered(RecordKeys(leaf.children), left, right);
    leaf.children[FindRecord(leaf.children, left)..UpperBound(RecordKeys(leaf.children), right)]
  }

  /**
   * In a sorted leaf, the last segment holds exactly the records whose keys
   * lie between `left` and `right`, both included.
   */
  lemma LastSegmentInRange(leaf: Leaf, left: Key, right: Key)
    requires !KeyLess(right, left) && StrictlySorted(RecordKeys(leaf.children))
    ensures forall r | r in LastSegment(leaf, left, right) :: !KeyLess(r.key, left) && !KeyLess(right, r.key)
    ensures forall r | r in leaf.children && !KeyLess(r.key, left) && !KeyLess(right, r.key) ::
      r in LastSegment(leaf, left, right)
  {
    LastSegmentWithin(leaf, left, right);
    LastSegmentComplete(leaf, left, right);
  }

  /** Every record of the last segment has its key in the range. */
  lemma LastSegmentWithin(leaf: Leaf, left: Key, right: Key)
    requires !KeyLess(right, left) && StrictlySorted(RecordKeys(leaf.children))
    ensures forall r | r in LastSegment(leaf, left, right) :: !KeyLess(r.key, left) && !KeyLess(right, r.key)
  {
    var rs := leaf.children;
    var lb := FindRecord(rs, left);
    var ub := UpperBound(RecordKeys(rs), right);
    var seg := LastSegment(leaf, left, right);
    BoundsOrdered(RecordKeys(rs), left, right);
    assert seg == rs[lb..ub];
    forall r | r in seg
      ensures !KeyLess(r.key, left) && !KeyLess(right, r.key)
    {
      var j :| lb <= j < ub && rs[j] == r;
      InSegmentIsInRange(rs, left, right, j);
    }
  }

  /** Every record of the leaf whose key is in the range is in the last segment. */
  lemma LastSegmentComplete(leaf: Leaf, left: Key, right: Key)
    requires !KeyLess(right, left) && StrictlySorted(RecordKeys(leaf.children))
    ensures forall r | r in leaf.children && !KeyLess(r.key, left) && !KeyLess(right, r.key) ::
      r in LastSegment(leaf, left, right)
  {
    forall r | r in leaf.children && !KeyLess(r.key, left) && !KeyLess(right, r.key)
      ensures r in LastSegment(leaf, left, right)
    {
      var j :| 0 <= j < |leaf.children| && leaf.children[j] == r;
      InRangeIsInLastSegment(leaf, left, right, j);
    }
  }

  /** The record at `j`, when its key is in the range, is in the last segment. */
  lemma InRangeIsInLastSegment(leaf: Leaf, left: Key, right: Key, j: nat)
    requires !KeyLess(right, left) && StrictlySorted(RecordKeys(leaf.children))
    requires j < |leaf.children| && !KeyLess(leaf.children[j].key, left) && !KeyLess(right, leaf.children[j].key)
    ensures leaf.children[j] in LastSegment(leaf, left, right)
  {
    var rs := leaf.children;
    var lb := FindRecord(rs, left);
    var ub := UpperBound(RecordKeys(rs), right);
    InRangeIsInSegment(rs, left, right, j);
    assert rs[lb..ub][j - lb] == rs[j];
  }

  /** A record between the two bounds has its key in the range. */
  lemma InSegmentIsInRange(rs: seq<Record>, left: Key, right: Key, j: nat)
    requires StrictlySorted(RecordKeys(rs))
    requires FindRecord(rs, left) <= j < UpperBound(RecordKeys(rs), right)
    ensures !KeyLess(rs[j].key, left) && !KeyLess(right, rs[j].key)
  {
    var ks := RecordKeys(rs);
    var lb := FindRecord(rs, left);
    if j > lb && KeyLess(rs[j].key, left) {
      assert KeyLess(ks[lb], ks[j]);
      KeyLessTransitive(rs[lb].key, rs[j].key, left);
    }
    assert !KeyLess(right, ks[j]);
  }

  /** A record whose key is in the range lies between the two bounds. */
  lemma InRangeIsInSegment(rs: seq<Record>, left: Key, right: Key, j: nat)
    requires StrictlySorted(RecordKeys(rs))
    requires j < |rs| && !KeyLess(rs[j].key, left) && !KeyLess(right, rs[j].key)
    ensures FindRecord(rs, left) <= j < UpperBound(RecordKeys(rs), right)
  {
    var ks := RecordKeys(rs);
    var ub := UpperBound(ks, right);
    if j > ub {
      assert KeyLess(ks[ub], ks[j]);
      KeyLessTransitive(right, rs[ub].key, rs[j].key);
    }
  }

  /** A walk whose every offset but the last holds a leaf. */
  ghost predicate LeafWalk(f: File, chain: seq<int>) {
    |chain| >= 1 && forall k | 0 <= k < |chain| - 1 :: LeafAt(f, chain[k]).Some?
  }

  /** The segments of the leaves a walk passes (all but its last offset). */
  ghost function WalkSegments(f: File, chain: seq<int>, offLeft: int, left: Key): (segs: seq<seq<Record>>)
    requires LeafWalk(f, chain)
    ensures |segs| == |chain| - 1
    ensures forall k | 0 <= k < |chain| - 1 :: segs[k] == Segment(LeafAt(f, chain[k]).value, chain[k] == offLeft, left)
  {
    seq(|chain| - 1, k requires 0 <= k < |chain| - 1 => Segment(LeafAt(f, chain[k]).value, chain[k] == offLeft, left))
  }

  /**
   * The `next` flag and the new left key, when the caller asked for them
   * (`next` not null): a set flag means records remain, and the left key
   * becomes the first of them; otherwise the left key is untouched.
   */
  predicate RangeNext(wantNext: bool, flag: bool, recs: seq<Record>, max: nat, left: Option<Key>,
                      more: Option<bool>, left': Option<Key>)
  {
    more == (if wantNext then Some(flag) else None) &&
    (wantNext && flag ==> max < |recs| && left' == Some(recs[max].key)) &&
    (!(wantNext && flag) ==> left' == left)
  }

  /**
   * The answer `search_range` gives once `recs` are the records in range
   * it has come across: the first `max` of them (all of them when fewer),
   * their count, and the `next` flag `cut`.
   */
  predicate RangeAnswer(recs: seq<Record>, cut: bool, max: nat, left: Option<Key>, wantNext: bool,
                        status: Status, values: seq<Payload>, more: Option<bool>, left': Option<Key>)
  {
    var n := if |recs| < max then |recs| else max;
    status == Code(n) && values == Values(recs)[..n] && RangeNext(wantNext, cut, recs, max, left, more, left')
  }

  /**
   * What `search_range` answers for a walk `chain` along the leaves from the
   * left key's leaf that ends at the right key's leaf, at 0 or at a block
   * that is not a leaf: once the walk alone gives `max` records, the first
   * `max` of them; otherwise, when the walk stopped at the right key's leaf,
   * the walk's records followed by that leaf's records up to the right key;
   * a walk that stopped elsewhere reads a block that is not a leaf.
   */
  ghost predicate RangeWalked(f: File, chain: seq<int>, offLeft: int, offRight: int, lk: Key, right: Key,
                              max: nat, wantNext: bool, status: Status, values: seq<Payload>,
                              more: Option<bool>, left': Option<Key>)
    requires LeafChain(f, chain, offRight) && chain[0] == offLeft && !KeyLess(right, lk)
  {
    var segs := WalkSegments(f, chain, offLeft, lk);
    var walked := Flatten(segs);
    if |walked| >= max then
      RangeAnswer(walked, max > 0 && NextAsWritten(segs, max), max, Some(lk), wantNext, status, values, more, left')
    else if (chain[|chain| - 1] != offRight && chain[|chain| - 1] != 0) || LeafAt(f, offRight).None? then
      status == Undefined
    else
      var all := segs + [LastSegment(LeafAt(f, offRight).value, lk, right)];
      RangeAnswer(Flatten(all), NextAsWritten(all, max), max, Some(lk), wantNext, status, values, more, left')
  }

  /**
   * When both keys fall in one sorted leaf, `search_range` with room for at
   * least one value answers the values of that leaf's records between the
   * keys, in key order, at most `max` of them, and `next` says whether any
   * such record was left out.
   */
  lemma RangeInOneLeaf(f: File, off: int, leaf: Leaf, lk: Key, right: Key, max: nat, wantNext: bool,
                       status: Status, values: seq<Payload>, more: Option<bool>, left': Option<Key>)
    requires LeafAt(f, off) == Some(leaf) && StrictlySorted(RecordKeys(leaf.children))
    requires !KeyLess(right, lk) && max > 0
    requires RangeWalked(f, [off], off, off, lk, right, max, wantNext, status, values, more, left')
    ensures var s := LastSegment(leaf, lk, right);
      var n := if |s| < max then |s| else max;
      status == Code(n) && values == Values(s)[..n] &&
      (forall r | r in s :: !KeyLess(r.key, lk) && !KeyLess(right, r.key)) &&
      (forall r | r in leaf.children && !KeyLess(r.key, lk) && !KeyLess(right, r.key) :: r in s) &&
      (wantNext ==> more == Some(n < |s|) && (n < |s| ==> left' == Some(s[n].key)))
  {
    var s := LastSegment(leaf, lk, right);
    var segs := WalkSegments(f, [off], off, lk);
    assert segs == [];
    var n := if |s| < max then |s| else max;
    LastRangeStep(segs, s, n, max);
    assert segs + [s] == [s];
    LastSegmentInRange(leaf, lk, right);
  }

  /**
   * What `search_range` answers: -1 without a left key or with the keys out
   * of order, an unchecked failure when either key has no leaf, and
   * otherwise the outcome of the walk from the left key's leaf.
   */
  ghost predicate RangeOutcome(f: File, m: Meta, left: Option<Key>, right: Key, max: nat, wantNext: bool,
                               chain: seq<int>, status: Status, values: seq<Payload>,
                               more: Option<bool>, left': Option<Key>)
  {
    if left.None? || KeyCmp(left.value, right) > 0 then status == Code(-1) && values == [] && more.None? && left' == left
    else if LeafFor(f, m, left.value).None? || LeafFor(f, m, right).None? then status == Undefined
    else
      var offLeft := LeafFor(f, m, left.value).value;
      var offRight := LeafFor(f, m, right).value;
      KeyCmpAntisymmetric(left.value, right);
      LeafChain(f, chain, offRight) && chain[0] == offLeft ==>
        RangeWalked(f, chain, offLeft, offRight, left.value, right, max, wantNext, status, values, more, left')
  }
}
