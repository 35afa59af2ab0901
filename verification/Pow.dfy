/** The difficulty rule (src/pow.cpp): Dark Gravity Wave over the last 24 blocks, and the proof-of-work check. */
module RetargetSpec {
  import opened Folded
  import opened Limbs
  import opened ArithUint
  import opened CompactSpec

  const PAST_BLOCKS := 24

  ghost function Least(x: nat, y: nat): nat { if x < y then x else y }

  /** `x / d`, rounded down. */
  ghost function Over(x: nat, d: nat): (q: nat)
    requires d > 0
    ensures IsQuotient(q, x, d)
  {
    OverExists(x, d);
    var q: nat :| IsQuotient(q, x, d);
    q
  }

  lemma OverExists(x: nat, d: nat)
    requires d > 0
    ensures exists q: nat :: IsQuotient(q, x, d)
  {
    NatMath.DivNonNeg(x, d);
    QuotientIs(x / d, x, d);
  }

  lemma OverIs(x: nat, d: nat, q: nat)
    requires d > 0 && IsQuotient(q, x, d)
    ensures q == Over(x, d)
  {
    QuotientIs(q, x, d);
    QuotientIs(Over(x, d), x, d);
  }

  /** A quotient lies between two numbers if the numerator lies between their multiples. */
  lemma OverBetween(x: nat, d: nat, lo: nat, hi: nat)
    requires d > 0 && Times(lo, d) <= x
    ensures lo <= Over(x, d)
    ensures x < Times(hi + 1, d) ==> Over(x, d) <= hi
  {
    var q := Over(x, d);
    TimesDist(q, 1, d);
    TimesZero(d);
    if q < lo {
      TimesMono(q + 1, lo, d);
      assert false;
    }
    if q > hi {
      TimesMono(hi + 1, q, d);
    }
  }

  /** One step of the running average, in 256 bits. */
  ghost function Averaged(avg: nat, n: nat, t: nat): nat {
    Over(Wrap(Wrap(Times(avg, n), Limit()) + t, Limit()), n + 1)
  }

  /** The running average of targets, newest first. */
  ghost function Smooth(ts: seq<nat>): nat
    requires |ts| > 0
  {
    if |ts| == 1 then ts[0] else Averaged(Smooth(ts[..|ts| - 1]), |ts|, ts[|ts| - 1])
  }

  /** The time span is clamped to a factor of three around the intended one, and cut to 32 bits. */
  ghost function Clamped(span: int, target: nat): int {
    if span < target / 3 then target / 3 else if span > target * 3 then target * 3 else span
  }

  /** The average scaled by the clamped time span, in 256 bits, and cut to the limit. */
  ghost function Rescaled(avg: nat, span: int, spacing: nat, limit: nat): nat
    requires spacing > 0
  {
    var target := PAST_BLOCKS * spacing;
    var scaled := Over(Wrap(Times(avg, Lo32(Clamped(span, target))), Limit()), target);
    if scaled > limit then limit else scaled
  }

  ghost function NextTarget(ts: seq<nat>, span: int, spacing: nat, limit: nat): nat
    requires |ts| > 0 && spacing > 0
  {
    Rescaled(Smooth(ts), span, spacing, limit)
  }

  // ----- the running average -----

  /** Without overflow the step is a weighted mean. */
  lemma AveragedBetween(avg: nat, n: nat, t: nat, lo: nat, hi: nat)
    requires lo <= avg <= hi && lo <= t <= hi && Times(n + 1, hi) < Limit()
    ensures lo <= Averaged(avg, n, t) <= hi
  {
    TimesDist(n, 1, hi);
    TimesDist(n, 1, lo);
    TimesZero(hi);
    TimesZero(lo);
    TimesComm(avg, n);
    TimesComm(n, lo);
    TimesComm(n, hi);
    TimesMono(lo, avg, n);
    TimesMono(avg, hi, n);
    WrapIsId(Times(avg, n));
    WrapIsId(Times(avg, n) + t);
    TimesComm(lo, n + 1);
    TimesComm(hi, n + 1);
    TimesDist(hi, 1, n + 1);
    TimesZero(n + 1);
    OverBetween(Times(avg, n) + t, n + 1, lo, hi);
  }

  lemma WrapIsId(x: nat)
    ensures x < Limit() ==> Wrap(x, Limit()) == x
  {
    if x < Limit() {
      TimesZero(Limit());
      WrapUnique(x, Limit(), 0, x);
    }
  }

  lemma {:induction false} SmoothBetween(ts: seq<nat>, lo: nat, hi: nat)
    requires |ts| > 0 && (forall i :: 0 <= i < |ts| ==> lo <= ts[i] <= hi) && Times(|ts| + 1, hi) < Limit()
    ensures lo <= Smooth(ts) <= hi
  {
    var n := |ts|;
    if n > 1 {
      TimesMono(n, n + 1, hi);
      SmoothBetween(ts[..n - 1], lo, hi);
      AveragedBetween(Smooth(ts[..n - 1]), n, ts[n - 1], lo, hi);
    }
  }

  /** If the sum of `n + 1` equal targets overflows, their average drops below them, and a lower average never
      gets back. */
  lemma AveragedDrops(avg: nat, n: nat, t: nat)
    requires 0 < n && avg <= t && (avg < t || Times(n + 1, t) >= Limit())
    ensures Averaged(avg, n, t) < t
  {
    var x := Times(avg, n);
    WrapLe(x);
    WrapLe(Wrap(x, Limit()) + t);
    TimesComm(avg, n);
    TimesMono(avg, t, n);
    TimesComm(t, n);
    TimesDist(n, 1, t);
    TimesZero(t);
    if avg < t {
      TimesMono(avg + 1, t, n);
      TimesDist(avg, 1, n);
      TimesZero(n);
    }
    var y := Wrap(Wrap(x, Limit()) + t, Limit());
    assert y < Times(n + 1, t);
    TimesComm(n + 1, t);
    var q := Over(y, n + 1);
    if q >= t {
      TimesMono(t, q, n + 1);
      assert false;
    }
  }

  lemma WrapLe(x: nat)
    ensures Wrap(x, Limit()) <= x && (x >= Limit() ==> Wrap(x, Limit()) < x)
  {
    if x < Limit() {
      WrapIsId(x);
    }
  }

  lemma {:induction false} SmoothOfEqual(ts: seq<nat>, t: nat)
    requires |ts| > 1 && (forall i :: 0 <= i < |ts| ==> ts[i] == t) && Times(|ts| + 1, t) >= Limit()
    ensures Smooth(ts) < t
  {
    var n := |ts|;
    var rest := ts[..n - 1];
    if n > 2 && Times(n, t) >= Limit() {
      SmoothOfEqual(rest, t);
    } else {
      SmoothAtMost(rest, t);
    }
    AveragedDrops(Smooth(rest), n, t);
  }

  /** The average of targets up to `t` never exceeds `t`, overflow or not. */
  lemma {:induction false} SmoothAtMost(ts: seq<nat>, t: nat)
    requires |ts| > 0 && forall i :: 0 <= i < |ts| ==> ts[i] <= t
    ensures Smooth(ts) <= t
  {
    var n := |ts|;
    if n > 1 {
      var avg, last := Smooth(ts[..n - 1]), ts[n - 1];
      SmoothAtMost(ts[..n - 1], t);
      var x := Times(avg, n);
      WrapLe(x);
      WrapLe(Wrap(x, Limit()) + last);
      TimesMono(avg, t, n);
      TimesDistRight(t, n, 1);
      TimesZero(t);
      TimesDist(t, 1, n + 1);
      TimesZero(n + 1);
      OverBetween(Wrap(Wrap(x, Limit()) + last, Limit()), n + 1, 0, t);
    }
  }

  ghost predicate InRange(ts: seq<nat>, lo: nat, hi: nat) {
    forall i :: 0 <= i < |ts| ==> lo <= ts[i] <= hi
  }

  /** The running average in unbounded integers. */
  ghost function Mean(ts: seq<nat>): nat
    requires |ts| > 0
  {
    if |ts| == 1 then ts[0] else Over(Times(Mean(ts[..|ts| - 1]), |ts|) + ts[|ts| - 1], |ts| + 1)
  }

  /** No step of the average wraps as long as the largest target, taken once more than there are targets, fits. */
  lemma {:induction false} SmoothIsMean(ts: seq<nat>, hi: nat)
    requires |ts| > 0 && InRange(ts, 0, hi) && Times(|ts| + 1, hi) < Limit()
    ensures Smooth(ts) == Mean(ts)
  {
    var n := |ts|;
    if n > 1 {
      var rest := ts[..n - 1];
      TimesMono(n, n + 1, hi);
      SmoothIsMean(rest, hi);
      SmoothBetween(rest, 0, hi);
      TimesMono(Smooth(rest), hi, n);
      TimesComm(hi, n);
      TimesDist(n, 1, hi);
      TimesZero(hi);
      WrapIsId(Times(Smooth(rest), n));
      WrapIsId(Times(Smooth(rest), n) + ts[n - 1]);
    }
  }

  ghost function Sum(ts: seq<nat>): nat {
    if ts == [] then 0 else Sum(ts[..|ts| - 1]) + ts[|ts| - 1]
  }

  /** What the divisions of the first `n` steps can cut off. */
  ghost function Slack(n: nat): nat {
    if n <= 1 then 0 else Slack(n - 1) + n
  }

  lemma {:induction false} MeanIsWeighted(ts: seq<nat>)
    requires |ts| > 0
    ensures var n := |ts|; Times(Mean(ts), n + 1) <= Sum(ts) + ts[0] <= Times(Mean(ts), n + 1) + Slack(n)
  {
    var n := |ts|;
    if n == 1 {
      assert ts[..0] == [];
      TimesDistRight(ts[0], 1, 1);
      TimesZero(ts[0]);
    } else {
      MeanIsWeighted(ts[..n - 1]);
      assert IsQuotient(Mean(ts), Times(Mean(ts[..n - 1]), n) + ts[n - 1], n + 1);
    }
  }

  lemma SlackOf24()
    ensures Slack(24) == 299
  {
    assert Slack(8) == 35;
    assert Slack(16) == Slack(8) + 9 + 10 + 11 + 12 + 13 + 14 + 15 + 16;
    assert Slack(24) == Slack(16) + 17 + 18 + 19 + 20 + 21 + 22 + 23 + 24;
  }

  /** Without overflow, the average of 24 targets is the mean in which the newest one counts twice, less at most 299
      twenty-fifths for rounding. */
  lemma NewestCountsTwice(ts: seq<nat>, hi: nat)
    requires |ts| == 24 && InRange(ts, 0, hi) && Times(25, hi) < Limit()
    ensures 25 * Smooth(ts) <= Sum(ts) + ts[0] <= 25 * Smooth(ts) + 299
  {
    SmoothIsMean(ts, hi);
    MeanIsWeighted(ts);
    SlackOf24();
    TimesIs(Smooth(ts), 25);
  }

  // ----- the next target -----

  /** Without overflow the average is scaled by the time that the blocks took: between a third of the intended time and
      three times as much, the target grows with it; outside it is as if the blocks had taken just that. */
  lemma RescaledIsProportional(avg: nat, span: int, spacing: nat, limit: nat)
    requires spacing > 0 && 72 * spacing < 0x1_0000_0000 && Times(72 * spacing, avg) < Limit()
    ensures var took := if span < 8 * spacing then 8 * spacing else if span > 72 * spacing then 72 * spacing else span;
            var t := Rescaled(avg, span, spacing, limit);
            && Times(t, 24 * spacing) <= Times(avg, took)
            && (t < limit ==> Times(avg, took) < Times(t, 24 * spacing) + 24 * spacing)
  {
    var target := PAST_BLOCKS * spacing;
    var c := Clamped(span, target);
    TimesMono(c, 72 * spacing, avg);
    TimesComm(c, avg);
    WrapIsId(Times(avg, c));
    var q := Over(Times(avg, c), target);
    assert IsQuotient(q, Times(avg, c), target);
    if q > limit {
      TimesMono(limit, q, target);
    }
  }

  /** Within a factor of three of the average, rounded down, or cut to the limit. */
  ghost predicate WithinThree(t: nat, avg: nat, limit: nat) {
    t <= limit && t <= 3 * avg && (t < limit ==> avg < 3 * t + 3)
  }

  /** The next target never exceeds the limit or three times the average.  Unless the product wraps or the span is
      cut, it is also at least a third of the average, or the limit. */
  lemma RescaledBounds(avg: nat, span: int, spacing: nat, limit: nat)
    requires spacing > 0
    ensures var t := Rescaled(avg, span, spacing, limit);
            var c := Clamped(span, PAST_BLOCKS * spacing);
            && t <= limit && t <= 3 * avg
            && 8 * spacing <= c <= 72 * spacing
            && (c < 0x1_0000_0000 && Times(c, avg) < Limit() ==> WithinThree(t, avg, limit))
  {
    var c := Clamped(span, PAST_BLOCKS * spacing);
    assert 8 * spacing <= c <= 72 * spacing;
    var x := Wrap(Times(avg, Lo32(c)), Limit());
    WrapLe(Times(avg, Lo32(c)));
    TimesComm(avg, Lo32(c));
    TimesMono(Lo32(c), 72 * spacing, avg);
    TimesMono(8 * spacing, c, avg);
    WrapIsId(Times(c, avg));
    ScaledBounds(avg, spacing, x, Over(x, PAST_BLOCKS * spacing));
  }

  /** The same for the next target after 24 others. */
  lemma NextTargetBounds(ts: seq<nat>, span: int, spacing: nat, limit: nat)
    requires |ts| > 0 && spacing > 0
    ensures var t := NextTarget(ts, span, spacing, limit);
            && t <= limit && t <= 3 * Smooth(ts)
            && (72 * spacing < 0x1_0000_0000 && Times(72 * spacing, Smooth(ts)) < Limit() ==>
                  WithinThree(t, Smooth(ts), limit))
  {
    var c := Clamped(span, PAST_BLOCKS * spacing);
    RescaledBounds(Smooth(ts), span, spacing, limit);
    TimesMono(c, 72 * spacing, Smooth(ts));
  }

  /** With 24 targets of at most `hi`, small enough a spacing and enough room, no step of the rule wraps. */
  lemma NothingWraps(ts: seq<nat>, span: int, spacing: nat, limit: nat, hi: nat)
    requires |ts| == PAST_BLOCKS && InRange(ts, 0, hi) && 0 < spacing && 72 * spacing < 0x1_0000_0000
    requires Times(PAST_BLOCKS + 1, hi) < Limit() && Times(72 * spacing, hi) < Limit()
    ensures var target := PAST_BLOCKS * spacing;
            var exact := Over(Times(Mean(ts), Clamped(span, target)), target);
            NextTarget(ts, span, spacing, limit) == if exact > limit then limit else exact
  {
    var avg, c := Smooth(ts), Clamped(span, PAST_BLOCKS * spacing);
    SmoothIsMean(ts, hi);
    SmoothBetween(ts, 0, hi);
    TimesMono(avg, hi, c);
    TimesComm(hi, c);
    TimesMono(c, 72 * spacing, hi);
    WrapIsId(Times(avg, c));
  }

  lemma ScaledBounds(avg: nat, spacing: nat, x: nat, q: nat)
    requires spacing > 0 && IsQuotient(q, x, PAST_BLOCKS * spacing)
    ensures x <= Times(72 * spacing, avg) ==> q <= 3 * avg
    ensures Times(8 * spacing, avg) <= x ==> avg < 3 * q + 3
  {
    Scaled(8, spacing, avg);
    Scaled(72, spacing, avg);
    Scaled(24, spacing, q);
    TimesComm(q, PAST_BLOCKS * spacing);
    TimesIs(avg, spacing);
    TimesIs(q, spacing);
    NatMath.Distribute(q + q + q, 3, spacing);
    NatMath.Distribute(q + q, q, spacing);
    NatMath.Distribute(q, q, spacing);
    NatMath.Distribute(avg + avg + avg, 1, spacing);
    NatMath.Distribute(avg + avg, avg, spacing);
    NatMath.Distribute(avg, avg, spacing);
    Cancel(avg, q + q + q + 3, spacing);
    Cancel(q, avg + avg + avg + 1, spacing);
  }

  lemma Scaled(k: nat, s: nat, x: nat)
    ensures Times(k * s, x) == k * Times(x, s)
  {
    TimesIs(k, s);
    TimesAssoc(k, s, x);
    TimesComm(s, x);
    TimesIs(k, Times(x, s));
  }

  lemma Cancel(x: int, y: int, z: nat)
    requires z > 0
    ensures x * z < y * z ==> x < y
  {
    if x >= y {
      NatMath.MulMono(y, x, z);
    }
  }
}

module Pow {
  import opened Folded
  import opened Limbs
  import opened ArithUint
  import opened CompactSpec
  import opened CompactTarget
  import opened SkipList
  import opened RetargetSpec
  import opened RetargetExact

  /** The target that a block claims, cut to 256 bits: the retarget loop ignores the flags. */
  ghost function TargetOf(b: BlockIndex): nat { Wrap(Decoded(b.bits), Limit()) }

  /** The targets of a block and its predecessors, newest first. */
  ghost function Targets(b: BlockIndex, n: nat): (ts: seq<nat>)
    requires Linked(b) && n <= b.height + 1
    ensures |ts| == n
  {
    seq(n, i requires 0 <= i < n => TargetOf(Ancestor(b, b.height - i)))
  }

  /** The code that the rule asks of the block after `last`. */
  ghost function NextWork(last: BlockIndex?, limit: nat, spacing: nat): nat
    requires spacing > 0 && (last != null ==> Linked(last))
  {
    if last == null || last.height < PAST_BLOCKS then Compacted(limit)
    else
      var first := Ancestor(last, last.height - (PAST_BLOCKS - 1));
      Compacted(NextTarget(Targets(last, PAST_BLOCKS), last.time - first.time, spacing, limit))
  }

  /** `CheckProofOfWork`. */
  method CheckProofOfWork(hash: Uint, bits: Word, powLimit: Uint) returns (ok: bool)
    requires hash.Width() == powLimit.Width() == Words()
    ensures ok <==> IsTarget(bits) && hash.Val() <= Decoded(bits) <= powLimit.Val()
  {
    var target := New256();
    var negative, overflow := SetCompact(target, bits);
    WrapIsId(Decoded(bits));
    var zero := target.EqualTo(0);
    var order := target.CompareTo(powLimit);
    if negative || zero || overflow || order > 0 {
      return false;
    }
    order := hash.CompareTo(target);
    return order <= 0;
  }

  /** A new number `(avg * n + t) / (n + 1)`. */
  method AverageStep(avg: Uint, n: nat, t: Uint) returns (r: Uint)
    requires avg.Width() == t.Width() == Words() && n < 0xFFFF_FFFF
    ensures fresh(r) && fresh(r.pn) && r.Width() == Words() && r.Val() == Averaged(avg.Val(), n, t.Val())
  {
    r := new Uint.Copy(avg);
    r.MulAssign32(n);
    r.AddAssign(t);
    ghost var sum := r.Val();
    var d := New256();
    d.Assign64(n + 1);
    var ok := r.DivAssign(d);
    OverIs(sum, n + 1, r.Val());
  }

  /** `DarkGravityWave`. */
  method DarkGravityWave(last: BlockIndex?, powLimit: Uint, spacing: nat) returns (c: nat)
    requires powLimit.Width() == Words() && (last != null ==> Linked(last))
    requires 0 < spacing && PAST_BLOCKS * spacing < 0x1_0000_0000_0000_0000
    ensures c == NextWork(last, powLimit.Val(), spacing)
    ensures last == null || last.height < 24 ==> c == Compacted(powLimit.Val())
    ensures last != null && last.height >= 24 ==>
              var span := last.time - Ancestor(last, last.height - 23).time;
              c == Compacted(Rescaled(Smooth(Targets(last, 24)), span, spacing, powLimit.Val()))
  {
    if last == null || last.height < PAST_BLOCKS {
      c := GetCompact(powLimit, false);
      return;
    }
    var avg, first := PastAverage(last);
    Rescale(avg, last.time as int - first.time as int, PAST_BLOCKS * spacing);
    var order := avg.CompareTo(powLimit);
    if order > 0 {
      avg := new Uint.Copy(powLimit);
    }
    c := GetCompact(avg, false);
  }

  /** Scales the average by the clamped time span, of which only 32 bits reach the multiplication. */
  method Rescale(avg: Uint, actual: int, target: nat)
    requires avg.Width() == Words() && 0 < target < 0x1_0000_0000_0000_0000
    modifies avg.pn
    ensures avg.Val() == Over(Wrap(Times(old(avg.Val()), Lo32(Clamped(actual, target))), Limit()), target)
  {
    var span := actual;
    if span < target / 3 {
      span := target / 3;
    }
    if span > target * 3 {
      span := target * 3;
    }
    avg.MulAssign32(Lo32(span));
    ghost var scaled := avg.Val();
    var d := New256();
    d.Assign64(target);
    var ok := avg.DivAssign(d);
    OverIs(scaled, target, avg.Val());
  }

  /** The loop over the last 24 blocks. */
  method PastAverage(last: BlockIndex) returns (avg: Uint, first: BlockIndex)
    requires Linked(last) && last.height >= PAST_BLOCKS
    ensures fresh(avg) && fresh(avg.pn) && avg.Width() == Words() && avg.Val() == Smooth(Targets(last, PAST_BLOCKS))
    ensures first == Ancestor(last, last.height - (PAST_BLOCKS - 1))
  {
    ghost var ts := Targets(last, PAST_BLOCKS);
    first := last;
    avg := New256();
    for count := 1 to PAST_BLOCKS + 1
      invariant fresh(avg) && fresh(avg.pn) && avg.Width() == Words()
      invariant first == Ancestor(last, if count <= PAST_BLOCKS then last.height - (count - 1)
                                  else last.height - (PAST_BLOCKS - 1))
      invariant count > 1 ==> avg.Val() == Smooth(ts[..count - 1])
    {
      var t := New256();
      var _, _ := SetCompact(t, first.bits);
      assert t.Val() == TargetOf(first) == ts[count - 1];
      assert ts[..count][..count - 1] == ts[..count - 1];
      if count == 1 {
        avg := t;
      } else {
        avg := AverageStep(avg, count, t);
      }
      if count != PAST_BLOCKS {
        AncestorOfAncestor(last, first.height, first.height - 1);
        first := first.pprev;
      }
    }
    assert ts[..PAST_BLOCKS] == ts;
  }

  /** The rule moves the target by at most a factor of three: if the last 24 targets lie between `lo` and `hi` and
      there is room for the products, the decoded next code lies between the rounding of a third of `lo` and three
      times `hi`, both cut to the limit. */
  lemma RetargetBounds(last: BlockIndex, limit: nat, spacing: nat, lo: nat, hi: nat)
    requires Linked(last) && last.height >= PAST_BLOCKS && 0 < spacing && limit < Limit()
    requires InRange(Targets(last, PAST_BLOCKS), lo, hi) && 72 * spacing < 0x1_0000_0000
    requires Times(72 * spacing, hi) < Limit()
    ensures Decoded(Compacted(Least(lo / 3, limit))) <= Decoded(NextWork(last, limit, spacing)) <= Least(3 * hi, limit)
  {
    var ts := Targets(last, PAST_BLOCKS);
    var span := last.time - Ancestor(last, last.height - (PAST_BLOCKS - 1)).time;
    var t := NextTarget(ts, span, spacing, limit);
    TimesMono(PAST_BLOCKS + 1, 72 * spacing, hi);
    SmoothBetween(ts, lo, hi);
    RoomFor(72 * spacing, Smooth(ts), hi);
    NextTargetBounds(ts, span, spacing, limit);
    assert Least(lo / 3, limit) <= t <= Least(3 * hi, limit);
    CompactMonotone(Least(lo / 3, limit), t);
    CompactRoundsDown(t);
  }

  lemma RoomFor(n: nat, x: nat, limit: nat)
    requires x <= limit
    ensures Times(n, x) <= Times(n, limit)
  {
    TimesComm(n, x);
    TimesComm(n, limit);
    TimesMono(x, limit, n);
  }

  /** Whether the rule asks for more than zero: the limit is not zero, and with 24 blocks the scaled average reaches
      the intended span. */
  ghost predicate AsksForWork(last: BlockIndex?, limit: nat, spacing: nat)
    requires spacing > 0 && (last != null ==> Linked(last))
  {
    && limit > 0
    && (last != null && last.height >= PAST_BLOCKS ==>
          var first := Ancestor(last, last.height - (PAST_BLOCKS - 1));
          var c := Clamped(last.time - first.time, PAST_BLOCKS * spacing);
          Wrap(Times(Smooth(Targets(last, PAST_BLOCKS)), Lo32(c)), Limit()) >= PAST_BLOCKS * spacing)
  }

  /** The code that the rule asks for passes the range check of `CheckProofOfWork` if and only if the rule asks for
      more than zero. */
  lemma NextWorkIsInRange(last: BlockIndex?, limit: nat, spacing: nat)
    requires spacing > 0 && (last != null ==> Linked(last)) && limit < Limit()
    ensures var c := NextWork(last, limit, spacing);
            c < 0x1_0000_0000 && Decoded(c) <= limit && (IsTarget(c) <==> AsksForWork(last, limit, spacing))
  {
    if last == null || last.height < PAST_BLOCKS {
      CompactRoundsDown(limit);
      CompactIsZero(limit);
    } else {
      var first := Ancestor(last, last.height - (PAST_BLOCKS - 1));
      var ts, span := Targets(last, PAST_BLOCKS), last.time - first.time;
      var t := NextTarget(ts, span, spacing, limit);
      CompactRoundsDown(t);
      CompactIsZero(t);
      OverIsZero(Wrap(Times(Smooth(ts), Lo32(Clamped(span, PAST_BLOCKS * spacing))), Limit()), PAST_BLOCKS * spacing);
    }
  }

  lemma CompactIsZero(v: nat)
    ensures Decoded(Compacted(v)) == 0 <==> v == 0
  {
    DecodedCompacted(v);
    RelativeError(v);
    if v > 0 {
      KeepsTopBit(v);
    }
  }

  lemma OverIsZero(x: nat, d: nat)
    requires d > 0
    ensures Over(x, d) == 0 <==> x < d
  {
    TimesZero(d);
    if x < d {
      OverIs(x, d, 0);
    }
  }

  /** The codes of a block and its predecessors, newest first. */
  ghost function Codes(b: BlockIndex, n: nat): (s: seq<nat>)
    requires Linked(b) && n <= b.height + 1
    ensures |s| == n
  {
    seq(n, i requires 0 <= i < n => Ancestor(b, b.height - i).bits as nat)
  }

  lemma TargetsAreCodes(last: BlockIndex, limit: nat)
    requires Linked(last) && last.height >= PAST_BLOCKS && Carried(Codes(last, PAST_BLOCKS), limit)
    ensures Targets(last, PAST_BLOCKS) == Decodes(Codes(last, PAST_BLOCKS))
  {
    var codes := Codes(last, PAST_BLOCKS);
    forall i | 0 <= i < |codes| ensures Targets(last, PAST_BLOCKS)[i] == Decodes(codes)[i] {
      var b := Ancestor(last, last.height - i);
      assert codes[i] == b.bits && IsTarget(codes[i]);
      WrapIsId(Decoded(b.bits));
      assert Targets(last, PAST_BLOCKS)[i] == TargetOf(b) == Decoded(codes[i]);
    }
  }

  /** On a network with room, blocks within the limit whose average is at least three are followed by a code that
      passes the range check. */
  lemma NextWorkIsTarget(last: BlockIndex, limit: nat, spacing: nat)
    requires Linked(last) && last.height >= PAST_BLOCKS && limit < Limit() && 0 < spacing
    requires Carried(Codes(last, PAST_BLOCKS), limit) && HasRoom(limit, spacing)
    requires Smooth(Targets(last, PAST_BLOCKS)) >= 3
    ensures IsTarget(NextWork(last, limit, spacing))
  {
    TargetsAreCodes(last, limit);
    NeverZeroIff(Codes(last, PAST_BLOCKS), limit, spacing);
    var span := last.time - Ancestor(last, last.height - (PAST_BLOCKS - 1)).time;
    assert IsSpan(span);
    var t := NextTarget(Targets(last, PAST_BLOCKS), span, spacing, limit);
    CompactIsZero(t);
    CompactRoundsDown(t);
  }

  /** On the regression test network, after 24 blocks with the code 0x20040000 that took 64 seconds, no hash is
      accepted any more. */
  lemma RegtestStops(last: BlockIndex)
    requires Linked(last) && last.height >= PAST_BLOCKS
    requires forall i :: 0 <= i < PAST_BLOCKS ==> Codes(last, PAST_BLOCKS)[i] == 0x2004_0000
    requires last.time - Ancestor(last, last.height - (PAST_BLOCKS - 1)).time == 64
    ensures NextWork(last, Pow2(255) - 1, 1) == Compacted(0) && !IsTarget(Compacted(0))
  {
    RegtestVanishes();
    assert Codes(last, PAST_BLOCKS) == seq(PAST_BLOCKS, _ => 0x2004_0000);
    TargetsAreCodes(last, Pow2(255) - 1);
    CompactIsZero(0);
  }
}
