/** Exactly when the retarget rule (src/pow.cpp) keeps its bounds, for the codes that blocks can carry and the time
    spans that their 32-bit times allow. */
module RetargetExact {
  import opened Folded
  import opened Limbs
  import opened ArithUint
  import opened CompactSpec
  import opened CompactTarget
  import opened RetargetSpec

  /** The greatest target up to `top` that has a code. */
  ghost function Greatest(top: nat): nat { Decoded(Compacted(top)) }

  ghost function Decodes(codes: seq<nat>): (ts: seq<nat>)
    ensures |ts| == |codes|
  {
    seq(|codes|, i requires 0 <= i < |codes| => Decoded(codes[i]))
  }

  /** The codes of 24 blocks with targets up to `top`. */
  ghost predicate Carried(codes: seq<nat>, top: nat) {
    && |codes| == PAST_BLOCKS
    && forall i :: 0 <= i < |codes| ==>
         codes[i] < 0x1_0000_0000 && IsTarget(codes[i]) && Decoded(codes[i]) <= top
  }

  lemma CarriedRange(codes: seq<nat>, top: nat, lo: nat, hi: nat)
    requires Carried(codes, top) && InRange(Decodes(codes), lo, hi)
    ensures InRange(Decodes(codes), lo, Least(hi, Greatest(top)))
  {
    var ts := Decodes(codes);
    forall i | 0 <= i < |ts| ensures lo <= ts[i] <= Least(hi, Greatest(top)) {
      CompactIsGreatest(codes[i], top);
    }
  }

  /** Any number that has a code can be the target of all 24 blocks. */
  lemma AllEqual(v: nat, top: nat) returns (codes: seq<nat>)
    requires 0 < v <= top < Limit() && Rounded(v) == v
    ensures Carried(codes, top) && InRange(Decodes(codes), v, v)
  {
    CompactRoundsDown(v);
    DecodedCompacted(v);
    codes := seq(PAST_BLOCKS, _ => Compacted(v));
  }

  // ----- the average -----

  /** The average of any 24 targets up to `top` lies between the smallest and the largest of them. */
  ghost predicate AveragesFaithfully(top: nat) {
    forall codes: seq<nat>, lo: nat, hi: nat :: Carried(codes, top) && InRange(Decodes(codes), lo, hi) ==>
      lo <= Smooth(Decodes(codes)) <= hi
  }

  /** ... exactly if 25 times the greatest of them fits 256 bits. */
  lemma FaithfulIff(top: nat)
    requires top < Limit()
    ensures AveragesFaithfully(top) <==> Times(PAST_BLOCKS + 1, Greatest(top)) < Limit()
  {
    var g := Greatest(top);
    if Times(PAST_BLOCKS + 1, g) < Limit() {
      forall codes: seq<nat>, lo: nat, hi: nat | Carried(codes, top) && InRange(Decodes(codes), lo, hi)
        ensures lo <= Smooth(Decodes(codes)) <= hi
      {
        CarriedRange(codes, top, lo, hi);
        MoreRoom(PAST_BLOCKS + 1, Least(hi, g), g);
        SmoothBetween(Decodes(codes), lo, Least(hi, g));
      }
    } else {
      TimesZero(PAST_BLOCKS + 1);
      CompactRoundsDown(top);
      CodedIsExact(Compacted(top));
      var codes := AllEqual(g, top);
      SmoothOfEqual(Decodes(codes), g);
      assert !AveragesFaithfully(top);
    }
  }

  lemma MoreRoom(n: nat, x: nat, y: nat)
    requires x <= y
    ensures Times(n, x) <= Times(n, y)
  {
    TimesComm(n, x);
    TimesComm(n, y);
    TimesMono(x, y, n);
  }

  /** If 25 equal targets fit 256 bits, their average is the target. */
  lemma AverageOfEqual(codes: seq<nat>, v: nat)
    requires |codes| == PAST_BLOCKS && InRange(Decodes(codes), v, v) && Times(PAST_BLOCKS + 1, v) < Limit()
    ensures Smooth(Decodes(codes)) == v
  {
    SmoothBetween(Decodes(codes), v, v);
  }

  // ----- where the product wraps -----

  /** If the products of `avg` with the factors from `lo` to `hi` pass `k` times 2^256, one of them passes it by
      less than `avg`. */
  lemma Crossing(avg: nat, lo: nat, hi: nat, k: nat) returns (c: nat)
    requires 0 < avg < Limit() && Times(k, Limit()) <= Times(avg, hi) && Times(avg, lo) <= Times(k, Limit())
    ensures lo <= c <= hi && Wrap(Times(avg, c), Limit()) < avg
  {
    var x := Times(k, Limit());
    c := Over(x + avg - 1, avg);
    TimesComm(avg, c);
    TimesComm(avg, lo);
    TimesComm(avg, hi);
    WrapUnique(Times(avg, c), Limit(), k, Times(avg, c) - x);
    if c > hi {
      TimesMono(hi + 1, c, avg);
      TimesDist(hi, 1, avg);
      TimesZero(avg);
      assert false;
    }
    if c < lo {
      TimesMono(c + 1, lo, avg);
      TimesDist(c, 1, avg);
      TimesZero(avg);
      assert false;
    }
  }

  /** If the longest span makes the product wrap, some span makes it wrap to less than the average. */
  lemma WrappingSpan(avg: nat, spacing: nat) returns (c: nat)
    requires spacing > 0 && avg < Limit() <= Times(72 * spacing, avg)
    ensures 8 * spacing <= c <= 72 * spacing && Wrap(Times(avg, c), Limit()) < avg
  {
    TimesZero(72 * spacing);
    Scaled(72, spacing, avg);
    Scaled(8, spacing, avg);
    var x, k := Times(avg, spacing), Over(Times(72 * spacing, avg), Limit());
    if k == 0 {
      TimesZero(Limit());
      assert false;
    }
    TimesMono(1, k, Limit());
    TimesZero(Limit());
    TimesComm(avg, 72 * spacing);
    TimesComm(avg, 8 * spacing);
    c := Crossing(avg, 8 * spacing, 72 * spacing, k);
  }

  /** A product below the average gives a target that is too small. */
  lemma TooSmall(avg: nat, spacing: nat, x: nat)
    requires spacing > 0 && x < avg && 3 <= avg
    ensures 3 * Over(x, PAST_BLOCKS * spacing) + 3 <= avg
  {
    var t := Over(x, PAST_BLOCKS * spacing);
    TimesComm(t, PAST_BLOCKS * spacing);
    TimesMono(PAST_BLOCKS, PAST_BLOCKS * spacing, t);
    TimesIs(PAST_BLOCKS, t);
  }

  lemma AtSpan(avg: nat, c: nat, spacing: nat, limit: nat)
    requires spacing > 0 && 8 * spacing <= c <= 72 * spacing
    ensures Clamped(c, PAST_BLOCKS * spacing) == c
    ensures var t := Over(Wrap(Times(avg, Lo32(c)), Limit()), PAST_BLOCKS * spacing);
            Rescaled(avg, c, spacing, limit) == if t > limit then limit else t
  {
  }

  /** A multiple of 2^32 among the clamped spans, if they reach 2^32. */
  lemma EmptySpan(spacing: nat) returns (c: nat)
    requires 72 * spacing >= 0x1_0000_0000
    ensures 8 * spacing <= c <= 72 * spacing && Lo32(c) == 0
  {
    c := 72 * spacing / 0x1_0000_0000 * 0x1_0000_0000;
  }

  /** The next target is within a factor of three of an average up to the limit, for all time spans, if and only if
      the average is at most two or the longest span neither exceeds 32 bits nor makes the product wrap. */
  lemma WithinThreeIff(avg: nat, spacing: nat, limit: nat)
    requires spacing > 0 && avg <= limit < Limit()
    ensures (forall span: int :: WithinThree(Rescaled(avg, span, spacing, limit), avg, limit))
            <==> avg <= 2 || (72 * spacing < 0x1_0000_0000 && Times(72 * spacing, avg) < Limit())
  {
    if avg <= 2 || (72 * spacing < 0x1_0000_0000 && Times(72 * spacing, avg) < Limit()) {
      forall span: int ensures WithinThree(Rescaled(avg, span, spacing, limit), avg, limit) {
        RescaledBounds(avg, span, spacing, limit);
        TimesMono(Clamped(span, PAST_BLOCKS * spacing), 72 * spacing, avg);
      }
    } else {
      var c := FailingSpan(avg, spacing, limit);
      assert !WithinThree(Rescaled(avg, c, spacing, limit), avg, limit);
    }
  }

  lemma FailingSpan(avg: nat, spacing: nat, limit: nat) returns (c: nat)
    requires spacing > 0 && 3 <= avg <= limit < Limit()
    requires 72 * spacing >= 0x1_0000_0000 || Times(72 * spacing, avg) >= Limit()
    ensures 8 * spacing <= c <= 72 * spacing && 3 * Rescaled(avg, c, spacing, limit) + 3 <= avg
  {
    if 72 * spacing >= 0x1_0000_0000 {
      c := EmptySpan(spacing);
      TimesZero(avg);
      WrapIsId(0);
      TooSmall(avg, spacing, 0);
    } else {
      c := WrappingSpan(avg, spacing);
      TooSmall(avg, spacing, Wrap(Times(avg, c), Limit()));
    }
    AtSpan(avg, c, spacing, limit);
  }

  // ----- the rule -----

  /** The difference of two block times. */
  predicate IsSpan(span: int) { -0x1_0000_0000 < span < 0x1_0000_0000 }

  /** After 24 targets between `lo` and `hi`, the next one lies between a third of `lo` and three times `hi`, both cut
      to the limit. */
  ghost predicate Follows(codes: seq<nat>, lo: nat, hi: nat, span: int, limit: nat, spacing: nat)
    requires |codes| > 0 && spacing > 0
  {
    Least(lo / 3, limit) <= NextTarget(Decodes(codes), span, spacing, limit) <= Least(3 * hi, limit)
  }

  /** This holds for any 24 targets up to the limit and for any block times. */
  ghost predicate RetargetsFaithfully(limit: nat, spacing: nat)
    requires spacing > 0
  {
    forall codes: seq<nat>, lo: nat, hi: nat, span: int ::
      Carried(codes, limit) && InRange(Decodes(codes), lo, hi) && IsSpan(span) ==>
        Follows(codes, lo, hi, span, limit, spacing)
  }

  /** The longest span that can reach the multiplication. */
  function Longest(spacing: nat): nat { if 72 * spacing < 0x1_0000_0000 then 72 * spacing else 0xFFFF_FFFF }

  /** What the limit and the spacing have to satisfy. */
  ghost predicate HasRoom(limit: nat, spacing: nat) {
    8 * spacing < 0x1_0000_0000 && Times(Longest(spacing), Greatest(limit)) < Limit()
  }

  lemma RoomSuffices(limit: nat, spacing: nat, codes: seq<nat>, lo: nat, hi: nat, span: int)
    requires spacing > 0 && Carried(codes, limit) && InRange(Decodes(codes), lo, hi) && IsSpan(span)
    requires Greatest(limit) <= 2 || HasRoom(limit, spacing)
    ensures var ts := Decodes(codes);
            var t := NextTarget(ts, span, spacing, limit);
            && Follows(codes, lo, hi, span, limit, spacing)
            && (HasRoom(limit, spacing) ==> lo <= Smooth(ts) && WithinThree(t, Smooth(ts), limit))
  {
    var ts, g := Decodes(codes), Greatest(limit);
    CarriedRange(codes, limit, lo, hi);
    assert lo <= ts[0] <= Least(hi, g);
    SmoothAtMost(ts, Least(hi, g));
    RescaledBounds(Smooth(ts), span, spacing, limit);
    if HasRoom(limit, spacing) {
      var c := Clamped(span, PAST_BLOCKS * spacing);
      TimesMono(PAST_BLOCKS + 1, Longest(spacing), g);
      MoreRoom(PAST_BLOCKS + 1, Least(hi, g), g);
      SmoothBetween(ts, lo, Least(hi, g));
      TimesMono(c, Longest(spacing), Smooth(ts));
      MoreRoom(Longest(spacing), Smooth(ts), g);
    }
  }

  /** 24 equal targets after which some span gives less than a third of them. */
  ghost predicate Breaks(codes: seq<nat>, v: nat, span: int, limit: nat, spacing: nat)
    requires spacing > 0
  {
    && Carried(codes, limit) && InRange(Decodes(codes), v, v) && IsSpan(span)
    && 3 * NextTarget(Decodes(codes), span, spacing, limit) + 3 <= v
  }

  lemma BreakIsFailure(codes: seq<nat>, v: nat, span: int, limit: nat, spacing: nat)
    requires spacing > 0 && Breaks(codes, v, span, limit, spacing)
    ensures !RetargetsFaithfully(limit, spacing)
  {
    var ts := Decodes(codes);
    assert ts[0] == v == Decoded(codes[0]) <= limit;
    assert !Follows(codes, v, v, span, limit, spacing);
  }

  lemma BreaksAt(codes: seq<nat>, v: nat, span: int, limit: nat, spacing: nat)
    requires spacing > 0 && Carried(codes, limit) && InRange(Decodes(codes), v, v) && IsSpan(span)
    requires var target := PAST_BLOCKS * spacing;
             3 * Over(Wrap(Times(Smooth(Decodes(codes)), Lo32(Clamped(span, target))), Limit()), target) + 3 <= v
    ensures Breaks(codes, v, span, limit, spacing)
  {
    var ts := Decodes(codes);
    assert ts[0] == v == Decoded(codes[0]) <= limit;
  }

  lemma BreaksEqual(codes: seq<nat>, v: nat, c: nat, limit: nat, spacing: nat)
    requires Carried(codes, limit) && InRange(Decodes(codes), v, v) && Smooth(Decodes(codes)) == v
    requires 0 < spacing && 8 * spacing <= c <= 72 * spacing && c < 0x1_0000_0000
    requires 3 * Over(Wrap(Times(v, c), Limit()), PAST_BLOCKS * spacing) + 3 <= v
    ensures Breaks(codes, v, c, limit, spacing)
  {
    assert Clamped(c, PAST_BLOCKS * spacing) == c;
    BreaksAt(codes, v, c, limit, spacing);
  }

  /** The shortest span exceeds 32 bits: what remains of it is too short. */
  lemma CutSpan(limit: nat, spacing: nat) returns (codes: seq<nat>)
    requires spacing > 0 && limit < Limit() && 3 <= Greatest(limit) && 8 * spacing >= 0x1_0000_0000
    ensures Breaks(codes, Greatest(limit), 0, limit, spacing)
  {
    var g, target := Greatest(limit), PAST_BLOCKS * spacing;
    CompactRoundsDown(limit);
    CodedIsExact(Compacted(limit));
    codes := AllEqual(g, limit);
    var avg, r := Smooth(Decodes(codes)), Lo32(8 * spacing);
    SmoothAtMost(Decodes(codes), g);
    var x := Wrap(Times(avg, r), Limit());
    WrapLe(Times(avg, r));
    TimesMono(avg, g, r);
    assert Clamped(0, target) == 8 * spacing;
    assert r <= 8 * spacing - 0x1_0000_0000;
    CutIsShort(g, r, spacing, x);
    BreaksAt(codes, g, 0, limit, spacing);
  }

  lemma CutIsShort(g: nat, r: nat, spacing: nat, x: nat)
    requires spacing > 0 && 3 <= g && r <= 8 * spacing - 0x1_0000_0000 && r < 0x1_0000_0000 && x <= Times(g, r)
    ensures 3 * Over(x, PAST_BLOCKS * spacing) + 3 <= g
  {
    var t := Over(x, PAST_BLOCKS * spacing);
    TimesComm(t, PAST_BLOCKS * spacing);
    Scaled(PAST_BLOCKS, spacing, t);
    TimesIs(g, 0x1_0000_0000);
    MoreRoom(g, r, 0x1_0000_0000);
    if t > 0 {
      TimesMono(1, t, spacing);
      TimesZero(spacing);
      MoreRoom(g, r, 8 * spacing - 0x1_0000_0000);
      TimesDistRight(g, 8 * spacing - 0x1_0000_0000, 0x1_0000_0000);
      TimesComm(g, 8 * spacing);
      Scaled(8, spacing, g);
      ThirdOf(t, g, spacing);
    }
  }

  lemma ThirdOf(t: nat, g: nat, s: nat)
    requires s > 0 && 3 * Times(t, s) + 3 * s <= Times(g, s)
    ensures 3 * t + 3 <= g
  {
    if g < 3 * t + 3 {
      TimesMono(g, t + t + t + 2, s);
      TimesDist(t + t + t, 2, s);
      TimesDist(t + t, t, s);
      TimesDist(t, t, s);
      TimesIs(2, s);
      assert false;
    }
  }

  // ----- the longest span that fits -----

  /** The least target above 2^224 that has a code, 0x1d010001. */
  ghost function Odd(): nat { Times(0x1_0001, Pow2(208)) }

  lemma OddIs()
    ensures Odd() == Pow2(224) + Pow2(208)
  {
    Pow2Small();
    Pow2Add(16, 208);
    TimesDist(0x1_0000, 1, Pow2(208));
    TimesZero(Pow2(208));
  }

  lemma OddHasCode()
    ensures Rounded(Odd()) == Odd()
  {
    ShortIsExact(0x1_0001, 26);
  }

  lemma OddFits()
    ensures 0 < Odd() && Times(PAST_BLOCKS + 1, Odd()) < Limit()
  {
    LimitSplits(48, 208);
    Pow2Small();
    Pow2Mono(32, 48);
    TimesAssoc(PAST_BLOCKS + 1, 0x1_0001, Pow2(208));
    TimesIs(PAST_BLOCKS + 1, 0x1_0001);
    TimesMono(0x19_001A, Pow2(48), Pow2(208));
    TimesDist(0x19_0019, 1, Pow2(208));
    TimesMono(1, 0x1_0001, Pow2(208));
    TimesZero(Pow2(208));
  }

  /** Its product with the longest span passes 2^256 by little. */
  lemma OddWraps()
    ensures Wrap(Times(Odd(), 0xFFFF_FFFF), Limit()) < Pow2(240)
  {
    var rest := 0xFFFF_FFFF * 0x1_0001 - 0x1_0000_0000_0000;
    LimitSplits(48, 208);
    Pow2Small();
    Pow2Add(32, 16);
    TimesIs(0x1_0000_0000, 0x1_0000);
    TimesComm(Odd(), 0xFFFF_FFFF);
    TimesAssoc(0xFFFF_FFFF, 0x1_0001, Pow2(208));
    TimesIs(0xFFFF_FFFF, 0x1_0001);
    TimesDist(0x1_0000_0000_0000, rest, Pow2(208));
    BelowPow(rest);
    TimesZero(Limit());
    WrapUnique(Times(Odd(), 0xFFFF_FFFF), Limit(), 1, Times(rest, Pow2(208)));
  }

  lemma BelowPow(rest: nat)
    requires rest < 0x1_0000_0000
    ensures Times(rest, Pow2(208)) < Pow2(240) <= Limit()
  {
    Pow2Small();
    Pow2Add(32, 208);
    TimesMono(rest + 1, 0x1_0000_0000, Pow2(208));
    TimesDist(rest, 1, Pow2(208));
    TimesZero(Pow2(208));
    Pow2Mono(240, 256);
    LimitIs();
  }

  /** A limit that leaves no room for the longest span leaves room for that target. */
  lemma OddIsCarried(limit: nat)
    requires limit < Limit() <= Times(0xFFFF_FFFF, Greatest(limit))
    ensures Odd() <= Greatest(limit) <= limit
  {
    var g := Greatest(limit);
    CompactRoundsDown(limit);
    if g < Odd() {
      CodedIsExact(Compacted(limit));
      RoundedParts(g);
      AboveIt(g);
      assert false;
    }
  }

  lemma AboveIt(g: nat)
    requires Times(0xFFFF_FFFF, g) >= Limit() && g < Odd()
    ensures Cut(g) == 208 && Times(Shr(g, 208), Pow2(208)) < g
  {
    OddIs();
    AbovePower(g);
    Pow2Step(224);
    Pow2Mono(208, 224);
    BitLengthIs(g, 225);
    Pow2Add(16, 208);
    ShrUnique(g, 208, Pow2(16), g - Pow2(224));
  }

  lemma AbovePower(g: nat)
    requires Times(0xFFFF_FFFF, g) >= Limit()
    ensures Pow2(224) < g
  {
    Pow2Small();
    LimitSplits(32, 224);
    if g <= Pow2(224) {
      MoreRoom(0xFFFF_FFFF, g, Pow2(224));
      TimesDist(0xFFFF_FFFF, 1, Pow2(224));
      TimesZero(Pow2(224));
      assert false;
    }
  }

  /** The longest span fits 32 bits but not the product. */
  lemma LongestWraps(limit: nat, spacing: nat) returns (codes: seq<nat>)
    requires limit < Limit() <= Times(0xFFFF_FFFF, Greatest(limit))
    requires 8 * spacing < 0x1_0000_0000 <= 72 * spacing
    ensures Breaks(codes, Odd(), 0xFFFF_FFFF, limit, spacing)
  {
    OddHasCode();
    OddFits();
    OddWraps();
    OddIsCarried(limit);
    codes := AllEqual(Odd(), limit);
    AverageOfEqual(codes, Odd());
    OddIsTooSmall(Wrap(Times(Odd(), 0xFFFF_FFFF), Limit()), spacing);
    BreaksEqual(codes, Odd(), 0xFFFF_FFFF, limit, spacing);
  }

  lemma OddIsTooSmall(x: nat, spacing: nat)
    requires x < Pow2(240) && 0x1_0000_0000 <= 72 * spacing
    ensures 3 * Over(x, PAST_BLOCKS * spacing) + 3 <= Odd()
  {
    var t := Over(x, PAST_BLOCKS * spacing);
    TimesComm(t, PAST_BLOCKS * spacing);
    TimesMono(0x5555_5555, PAST_BLOCKS * spacing, t);
    TimesIs(0x5555_5555, t);
    OddIs();
    Pow2Small();
    Pow2Add(32, 208);
    Pow2Add(16, 208);
    TimesIs(0x1_0000_0000, Pow2(208));
    TimesIs(0x1_0000, Pow2(208));
    Pow2Mono(24, 208);
  }

  // ----- main results -----

  /** A target of which 25 fit 256 bits, but no longer the product with a span three times as long as intended. */
  lemma Wrapping(limit: nat, spacing: nat) returns (v: nat)
    requires limit < Limit() <= Times(72 * spacing, Greatest(limit)) && 0 < spacing && 72 * spacing < 0x1_0000_0000
    ensures 3 <= v <= limit && Rounded(v) == v
    ensures Times(PAST_BLOCKS + 1, v) < Limit() <= Times(72 * spacing, v)
  {
    var g := Greatest(limit);
    CompactRoundsDown(limit);
    CodedIsExact(Compacted(limit));
    if Times(PAST_BLOCKS + 1, g) < Limit() {
      v := g;
      if g <= 2 {
        MoreRoom(72 * spacing, g, 2);
        TimesIs(72 * spacing, 2);
        LimitIs();
        Pow2Small();
        Pow2Mono(33, 256);
        Pow2Step(32);
        assert false;
      }
    } else {
      v := Pow2(250);
      PowerWraps(spacing);
      PowerHasCode();
      if g < Pow2(250) {
        MoreRoom(PAST_BLOCKS + 1, g, Pow2(250));
        assert false;
      }
    }
  }

  lemma PowerWraps(spacing: nat)
    requires spacing > 0
    ensures 3 <= Pow2(250) && Times(PAST_BLOCKS + 1, Pow2(250)) < Limit() <= Times(72 * spacing, Pow2(250))
  {
    LimitSplits(6, 250);
    SixtyFour();
    TimesMono(PAST_BLOCKS + 2, 64, Pow2(250));
    TimesDist(PAST_BLOCKS + 1, 1, Pow2(250));
    TimesZero(Pow2(250));
    TimesMono(64, 72 * spacing, Pow2(250));
    Pow2Mono(6, 250);
  }

  lemma SixtyFour()
    ensures Pow2(6) == 64
  {
    Pow2Step(0);
    Pow2Step(1);
    Pow2Step(2);
    Pow2Step(3);
    Pow2Step(4);
    Pow2Step(5);
  }

  lemma PowerHasCode()
    ensures Rounded(Pow2(250)) == Pow2(250)
  {
    Pow2Small();
    Pow2Step(16);
    Pow2Step(17);
    Pow2Add(18, 232);
    ShortIsExact(0x4_0000, 29);
  }

  /** The longest span wraps the product. */
  lemma SpanWraps(limit: nat, spacing: nat) returns (codes: seq<nat>, v: nat, span: int)
    requires limit < Limit() <= Times(72 * spacing, Greatest(limit)) && 0 < spacing && 72 * spacing < 0x1_0000_0000
    ensures Breaks(codes, v, span, limit, spacing)
  {
    v := Wrapping(limit, spacing);
    codes := AllEqual(v, limit);
    AverageOfEqual(codes, v);
    span := FailingSpan(v, spacing, limit);
  }

  /** The rule moves the target by at most a factor of three, for all 24 targets up to the limit and all block times,
      if and only if no target exceeds two, or the shortest span fits 32 bits and the longest one leaves the product
      with the greatest target in 256 bits. */
  lemma RetargetsIff(limit: nat, spacing: nat)
    requires limit < Limit() && spacing > 0
    ensures RetargetsFaithfully(limit, spacing) <==> Greatest(limit) <= 2 || HasRoom(limit, spacing)
  {
    if Greatest(limit) <= 2 || HasRoom(limit, spacing) {
      forall codes: seq<nat>, lo: nat, hi: nat, span: int
        | Carried(codes, limit) && InRange(Decodes(codes), lo, hi) && IsSpan(span)
        ensures Follows(codes, lo, hi, span, limit, spacing)
      {
        RoomSuffices(limit, spacing, codes, lo, hi, span);
      }
    } else if 8 * spacing >= 0x1_0000_0000 {
      var codes := CutSpan(limit, spacing);
      BreakIsFailure(codes, Greatest(limit), 0, limit, spacing);
    } else if 72 * spacing >= 0x1_0000_0000 {
      var codes := LongestWraps(limit, spacing);
      BreakIsFailure(codes, Odd(), 0xFFFF_FFFF, limit, spacing);
    } else {
      var codes, v, span := SpanWraps(limit, spacing);
      BreakIsFailure(codes, v, span, limit, spacing);
    }
  }

  /** With room, the next target is never zero, whatever the times, if and only if the average is at least three. */
  lemma NeverZeroIff(codes: seq<nat>, limit: nat, spacing: nat)
    requires 0 < spacing && Carried(codes, limit) && HasRoom(limit, spacing)
    ensures (forall span :: IsSpan(span) ==> NextTarget(Decodes(codes), span, spacing, limit) > 0)
            <==> Smooth(Decodes(codes)) >= 3
  {
    var ts := Decodes(codes);
    var avg := Smooth(ts);
    assert ts[0] == Decoded(codes[0]) <= limit;
    assert InRange(ts, 0, limit);
    if avg >= 3 {
      forall span | IsSpan(span) ensures NextTarget(ts, span, spacing, limit) > 0 {
        RoomSuffices(limit, spacing, codes, 0, limit, span);
      }
    } else {
      ShortestIsZero(avg, spacing, limit);
      assert IsSpan(0) && NextTarget(ts, 0, spacing, limit) == 0;
    }
  }

  lemma ShortestIsZero(avg: nat, spacing: nat, limit: nat)
    requires avg <= 2 && 0 < spacing && 8 * spacing < 0x1_0000_0000
    ensures Rescaled(avg, 0, spacing, limit) == 0
  {
    assert Clamped(0, PAST_BLOCKS * spacing) == 8 * spacing;
    var x := Wrap(Times(avg, 8 * spacing), Limit());
    WrapLe(Times(avg, 8 * spacing));
    TimesMono(avg, 2, 8 * spacing);
    TimesIs(2, 8 * spacing);
    TimesZero(PAST_BLOCKS * spacing);
    OverIs(x, PAST_BLOCKS * spacing, 0);
  }

  // ----- the networks -----

  /** The main and the test network, with limit 2^236 - 1 and 120 seconds between blocks, have room. */
  lemma MainNetwork()
    ensures AveragesFaithfully(Pow2(236) - 1) && RetargetsFaithfully(Pow2(236) - 1, 120)
    ensures HasRoom(Pow2(236) - 1, 120)
  {
    var limit := Pow2(236) - 1;
    LimitSplits(20, 236);
    Pow2Small();
    Pow2Mono(16, 20);
    TimesMono(8640, Pow2(20), Pow2(236));
    TimesDistRight(8640, limit, 1);
    TimesZero(8640);
    Pow2Mono(236, 256);
    LimitIs();
    CompactRoundsDown(limit);
    MoreRoom(8640, Greatest(limit), limit);
    TimesMono(PAST_BLOCKS + 1, 8640, Greatest(limit));
    FaithfulIff(limit);
    RetargetsIff(limit, 120);
  }

  /** The limit of the regression test network is 2^255 - 1, with one second between blocks.  24 blocks with the
      greatest target have a smaller average. */
  lemma RegtestAverage()
    ensures var codes := seq(PAST_BLOCKS, _ => 0x207F_FFFF);
            Carried(codes, Pow2(255) - 1) && Smooth(Decodes(codes)) < Decoded(0x207F_FFFF)
    ensures !AveragesFaithfully(Pow2(255) - 1)
  {
    var v, codes := Decoded(0x207F_FFFF), seq(PAST_BLOCKS, _ => 0x207F_FFFF);
    TopCode();
    assert Carried(codes, Pow2(255) - 1) && InRange(Decodes(codes), v, v);
    SmoothOfEqual(Decodes(codes), v);
  }

  lemma TopCode()
    ensures IsTarget(0x207F_FFFF) && Decoded(0x207F_FFFF) <= Pow2(255) - 1
    ensures Times(PAST_BLOCKS + 1, Decoded(0x207F_FFFF)) >= Limit()
  {
    var v, unit := Decoded(0x207F_FFFF), Pow2(232);
    LargeCode(0x207F_FFFF);
    Pow2Small();
    Pow2Add(23, 232);
    TimesDist(0x7F_FFFF, 1, unit);
    TimesZero(unit);
    LimitSplits(1, 255);
    TimesIs(2, Pow2(255));
    LimitSplits(24, 232);
    TimesAssoc(PAST_BLOCKS + 1, 0x7F_FFFF, unit);
    TimesIs(PAST_BLOCKS + 1, 0x7F_FFFF);
    TimesMono(0x100_0000, 0xC7F_FFE7, unit);
  }

  /** 24 blocks with the target 2^250 that took 64 seconds make the next target zero. */
  lemma RegtestVanishes()
    ensures var codes := seq(PAST_BLOCKS, _ => 0x2004_0000);
            && Carried(codes, Pow2(255) - 1)
            && Smooth(Decodes(codes)) == Decoded(0x2004_0000) == Pow2(250)
            && NextTarget(Decodes(codes), 64, 1, Pow2(255) - 1) == 0
    ensures !RetargetsFaithfully(Pow2(255) - 1, 1)
  {
    var v, codes := Pow2(250), seq(PAST_BLOCKS, _ => 0x2004_0000);
    PowerCode();
    PowerWraps(1);
    assert Carried(codes, Pow2(255) - 1) && InRange(Decodes(codes), v, v);
    AverageOfEqual(codes, v);
    LimitSplits(6, 250);
    SixtyFour();
    TimesComm(v, 64);
    TimesZero(Limit());
    WrapUnique(Times(v, 64), Limit(), 1, 0);
    TimesZero(PAST_BLOCKS);
    OverIs(0, PAST_BLOCKS, 0);
    BreakIsFailure(codes, v, 64, Pow2(255) - 1, 1);
  }

  lemma PowerCode()
    ensures Decoded(0x2004_0000) == Pow2(250) <= Pow2(255) - 1 && IsTarget(0x2004_0000)
  {
    LargeCode(0x2004_0000);
    Pow2Small();
    Pow2Step(16);
    Pow2Step(17);
    Pow2Add(18, 232);
    Pow2Step(250);
    Pow2Mono(251, 255);
    Pow2Mono(255, 256);
    LimitIs();
  }
}
