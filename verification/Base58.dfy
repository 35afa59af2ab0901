/** The base58 codec (src/base58.cpp): change of base in place in a digit buffer of an estimated size. */
module Base58 {
  import opened NatMath
  import opened Folded
  import opened Numerals

  type Byte = x: nat | x < 256

  /** Text up to its terminating NUL. */
  type CString = s: string | '\0' !in s

  /** The alphabet in order: 1 to 9, A to H, J to N, P to Z, a to k, m to z. */
  function Symbol(d: nat): char
    requires d < 58
  {
    if d < 9 then '1' + d as char
    else if d < 17 then 'A' + (d - 9) as char
    else if d < 22 then 'J' + (d - 17) as char
    else if d < 33 then 'P' + (d - 22) as char
    else if d < 44 then 'a' + (d - 33) as char
    else 'm' + (d - 44) as char
  }

  /** The alphabet, written out. */
  lemma AlphabetIs(d: nat)
    requires d < 58
    ensures Symbol(d) == ("123456789ABCDEFGH" + "JKLMNPQRSTUVWXYZ" + "abcdefghijkmnopqrstuvwxyz")[d]
  {
    var first, upper, lower := "123456789ABCDEFGH", "JKLMNPQRSTUVWXYZ", "abcdefghijkmnopqrstuvwxyz";
    var all := first + upper + lower;
    assert d < 17 ==> all[d] == first[d];
    assert 17 <= d < 33 ==> all[d] == upper[d - 17];
    assert d >= 33 ==> all[d] == lower[d - 33];
    if d < 17 {
      FirstIs(d);
    } else if d < 33 {
      UpperIs(d - 17);
    } else {
      LowerIs(d - 33);
    }
  }

  lemma FirstIs(d: nat)
    requires d < 17
    ensures Symbol(d) == "123456789ABCDEFGH"[d]
  {
    if d == 0 {} else if d == 1 {} else if d == 2 {} else if d == 3 {} else if d == 4 {} else if d == 5 {}
    else if d == 6 {} else if d == 7 {} else if d == 8 {} else if d == 9 {} else if d == 10 {} else if d == 11 {}
    else if d == 12 {} else if d == 13 {} else if d == 14 {} else if d == 15 {}
  }

  lemma UpperIs(d: nat)
    requires d < 16
    ensures Symbol(d + 17) == "JKLMNPQRSTUVWXYZ"[d]
  {
    if d == 0 {} else if d == 1 {} else if d == 2 {} else if d == 3 {} else if d == 4 {} else if d == 5 {}
    else if d == 6 {} else if d == 7 {} else if d == 8 {} else if d == 9 {} else if d == 10 {} else if d == 11 {}
    else if d == 12 {} else if d == 13 {} else if d == 14 {}
  }

  lemma LowerIs(d: nat)
    requires d < 25
    ensures Symbol(d + 33) == "abcdefghijkmnopqrstuvwxyz"[d]
  {
    if d == 0 {} else if d == 1 {} else if d == 2 {} else if d == 3 {} else if d == 4 {} else if d == 5 {}
    else if d == 6 {} else if d == 7 {} else if d == 8 {} else if d == 9 {} else if d == 10 {} else if d == 11 {}
    else if d == 12 {} else if d == 13 {} else if d == 14 {} else if d == 15 {} else if d == 16 {} else if d == 17 {}
    else if d == 18 {} else if d == 19 {} else if d == 20 {} else if d == 21 {} else if d == 22 {} else if d == 23 {}
  }

  /** The value of a character, -1 outside the alphabet. */
  function DigitOf(c: char): (d: int)
    ensures d < 58 && (d >= 0 ==> Symbol(d) == c)
    ensures forall i: nat :: i < 58 && Symbol(i) == c ==> d == i
  {
    if '1' <= c <= '9' then c as int - '1' as int
    else if 'A' <= c <= 'H' then c as int - 'A' as int + 9
    else if 'J' <= c <= 'N' then c as int - 'J' as int + 17
    else if 'P' <= c <= 'Z' then c as int - 'P' as int + 22
    else if 'a' <= c <= 'k' then c as int - 'a' as int + 33
    else if 'm' <= c <= 'z' then c as int - 'm' as int + 44
    else -1
  }

  /** `strchr` in the alphabet. */
  method FindSymbol(c: char) returns (d: int)
    ensures d == DigitOf(c)
  {
    for i := 0 to 58
      invariant forall j :: 0 <= j < i ==> Symbol(j) != c
    {
      if Symbol(i) == c {
        return i;
      }
    }
    return -1;
  }

  predicate IsSpace(c: char) { c == ' ' || '\t' <= c <= '\r' }

  // ----- one digit -----

  /** Multiplies the number in the buffer by `factor` and adds `digit`, on the last `length` digits and as many
      before them as the carry reaches. */
  method MulAdd(buf: array<nat>, base: nat, factor: nat, digit: nat, length: nat) returns (used: nat)
    requires base > 1 && length <= buf.Length && AllBelow(base, buf[..])
    requires forall j :: 0 <= j < buf.Length - length ==> buf[j] == 0
    requires Times(factor, Num(base, buf[..])) + digit < Power(base, buf.Length)
    modifies buf
    ensures used <= buf.Length && AllBelow(base, buf[..])
    ensures forall j :: 0 <= j < buf.Length - used ==> buf[j] == 0
    ensures Num(base, buf[..]) == Times(factor, old(Num(base, buf[..]))) + digit
  {
    ghost var was := buf[..];
    var n := buf.Length;
    var carry: nat, i: nat := digit, 0;
    MulAddStart(base, factor, digit, was);
    while (carry != 0 || i < length) && i < n
      invariant i <= n && |was| == n && AllBelow(base, buf[..])
      invariant forall j :: 0 <= j < n - i ==> buf[j] == was[j]
      invariant MulAddSoFar(base, factor, digit, was, buf[..], i, carry)
    {
      ghost var before := buf[..];
      var sum: nat := carry + Product(factor, buf[n - 1 - i]);
      MulAddStep(base, factor, digit, was, before, i, carry, sum);
      var d: nat := sum % base;
      buf[n - 1 - i] := d;
      carry := sum / base;
      i := i + 1;
      assert buf[..] == before[n - i := d];
    }
    MulAddDone(base, factor, digit, was, buf[..], i, carry);
    used := i;
  }

  ghost predicate MulAddSoFar(base: nat, factor: nat, digit: nat, was: seq<nat>, now: seq<nat>, i: nat, carry: nat)
    requires i <= |was| == |now|
  {
    Num(base, now[|now| - i..]) + Times(carry, Power(base, i)) == Times(factor, Num(base, was[|was| - i..])) + digit
  }

  lemma MulAddStart(base: nat, factor: nat, digit: nat, was: seq<nat>)
    ensures MulAddSoFar(base, factor, digit, was, was, 0, digit)
  {
    NumIs(base, was[|was|..]);
    PowerStep(base, 0);
    TimesZero(digit);
    TimesZero(factor);
  }

  lemma MulAddStep(base: nat, factor: nat, digit: nat, was: seq<nat>, now: seq<nat>, i: nat, carry: nat, sum: nat)
    requires base > 1 && i < |was| == |now| && now[|now| - 1 - i] == was[|was| - 1 - i]
    requires MulAddSoFar(base, factor, digit, was, now, i, carry)
    requires sum == carry + Product(factor, now[|now| - 1 - i])
    ensures sum / base >= 0
    ensures MulAddSoFar(base, factor, digit, was, now[|now| - 1 - i := (sum % base) as nat], i + 1, sum / base)
  {
    var n := |was|;
    DivNonNeg(sum, base);
    var x, p := was[n - 1 - i], Power(base, i);
    var d: nat, c: nat := sum % base, sum / base;
    var next := now[n - 1 - i := d];
    assert was[n - 1 - i..] == [x] + was[n - i..];
    assert next[n - 1 - i..] == [d] + now[n - i..];
    NumPrepend(base, x, was[n - i..]);
    NumPrepend(base, d, now[n - i..]);
    TimesDistRight(factor, Times(x, p), Num(base, was[n - i..]));
    TimesAssoc(factor, x, p);
    TimesIs(factor, x);
    PowerStep(base, i);
    TimesAssoc(c, base, p);
    TimesIs(c, base);
    TimesDist(carry, factor * x, p);
    TimesDist(d, c * base, p);
  }

  lemma MulAddDone(base: nat, factor: nat, digit: nat, was: seq<nat>, now: seq<nat>, i: nat, carry: nat)
    requires base > 1 && i <= |was| == |now| && MulAddSoFar(base, factor, digit, was, now, i, carry)
    requires forall j :: 0 <= j < |was| - i ==> now[j] == was[j]
    requires carry == 0 ==> forall j :: 0 <= j < |was| - i ==> was[j] == 0
    requires carry != 0 ==> i == |was|
    requires Times(factor, Num(base, was)) + digit < Power(base, |was|)
    ensures carry == 0 && Num(base, now) == Times(factor, Num(base, was)) + digit
  {
    var n := |was|;
    TimesZero(Power(base, i));
    if carry != 0 {
      assert was[n - i..] == was;
      TimesMono(1, carry, Power(base, i));
      assert false;
    }
    NumSkipsZeroes(base, was, n - i);
    NumSkipsZeroes(base, now, n - i);
  }

  // ----- the buffer estimates -----

  function Size58(bytes: nat): nat { bytes * 138 / 100 + 1 }

  function Size256(chars: nat): nat { chars * 733 / 1000 + 1 }

  lemma Products58()
    ensures Power(256, 8) <= Power(58, 11) && Power(58, 15) <= Power(256, 11) && Power(58, 71) <= Power(256, 52)
    ensures Power(256, 5) <= Power(58, 7) && Power(256, 2) <= Power(58, 3) && Power(256, 1) <= Power(58, 2)
    ensures Power(58, 4) <= Power(256, 3) && Power(58, 1) <= Power(256, 1)
    ensures Power(58, 0) == 1 && Power(256, 0) == 1
  {
    PowerIs(58, 0);
    PowerIs(58, 1);
    PowerIs(58, 2);
    PowerIs(58, 4);
    PowerIs(256, 0);
    PowerIs(256, 1);
    PowerIs(256, 2);
    PowerIs(256, 5);
    PowerIs(58, 7);
    PowerIs(58, 8);
    PowerAdd(58, 7, 8);
    TimesIs(0x202161caa80, 0x7479027ea100);
    PowerAdd(58, 8, 8);
    TimesIs(0x7479027ea100, 0x7479027ea100);
    PowerAdd(58, 16, 16);
    TimesIs(0x34fde3761da26b26e1410000, 0x34fde3761da26b26e1410000);
    PowerAdd(58, 32, 32);
    TimesIs(0xaf820335d9b3d9cf58b911d87035677fb7f528100000000, 0xaf820335d9b3d9cf58b911d87035677fb7f528100000000);
    PowerAdd(58, 64, 7);
    TimesIs(0x7853026ae25f4ce0c69893e6f1f86f67aef4db69563516064adeb967a9d66f4fe64b09ec94e5010000000000000000,
            0x202161caa80);
    PowerIs(58, 3);
    PowerAdd(58, 8, 3);
    TimesIs(0x7479027ea100, 0x2fa28);
    PowerIs(256, 8);
    PowerIs(256, 3);
    PowerAdd(256, 8, 3);
    TimesIs(0x10000000000000000, 0x1000000);
    PowerIs(256, 4);
    PowerAdd(256, 8, 8);
    TimesIs(0x10000000000000000, 0x10000000000000000);
    PowerAdd(256, 16, 16);
    TimesIs(0x100000000000000000000000000000000, 0x100000000000000000000000000000000);
    PowerAdd(256, 32, 16);
    TimesIs(0x10000000000000000000000000000000000000000000000000000000000000000, 0x100000000000000000000000000000000);
    PowerAdd(256, 48, 4);
    TimesIs(0x1000000000000000000000000000000000000000000000000000000000000000000000000000000000000000000000000,
            0x100000000);
  }

  /** Bounds of powers multiply. */
  lemma Compose(b: nat, c: nat, m: nat, n: nat, m': nat, n': nat)
    requires Power(b, m) <= Power(c, n) && Power(b, m') <= Power(c, n')
    ensures Power(b, m + m') <= Power(c, n + n')
  {
    PowerAdd(b, m, m');
    PowerAdd(c, n, n');
    TimesMono2(Power(b, m), Power(c, n), Power(b, m'), Power(c, n'));
  }

  /** Enough base58 digits, in steps of 8, 5, 2 and 1 bytes. */
  function Enough58(bytes: nat): nat {
    if bytes >= 8 then Enough58(bytes - 8) + 11
    else if bytes >= 5 then Enough58(bytes - 5) + 7
    else if bytes >= 2 then Enough58(bytes - 2) + 3
    else 2 * bytes
  }

  lemma {:induction false} Enough58Fits(bytes: nat)
    ensures Power(256, bytes) <= Power(58, Enough58(bytes)) && Enough58(bytes) <= Size58(bytes)
  {
    Products58();
    if bytes >= 8 {
      Enough58Fits(bytes - 8);
      Compose(256, 58, bytes - 8, Enough58(bytes - 8), 8, 11);
    } else if bytes >= 5 {
      Enough58Fits(bytes - 5);
      Compose(256, 58, bytes - 5, Enough58(bytes - 5), 5, 7);
    } else if bytes >= 2 {
      Enough58Fits(bytes - 2);
      Compose(256, 58, bytes - 2, Enough58(bytes - 2), 2, 3);
    }
  }

  /** Enough bytes, in steps of 71, 15, 4 and 1 characters. */
  function Enough256(chars: nat): nat {
    if chars >= 71 then Enough256(chars - 71) + 52
    else if chars >= 15 then Enough256(chars - 15) + 11
    else if chars >= 4 then Enough256(chars - 4) + 3
    else chars
  }

  lemma {:induction false} Enough256Fits(chars: nat)
    ensures Power(58, chars) <= Power(256, Enough256(chars))
  {
    Products58();
    if chars >= 71 {
      Enough256Fits(chars - 71);
      Compose(58, 256, chars - 71, Enough256(chars - 71), 71, 52);
    } else if chars >= 15 {
      Enough256Fits(chars - 15);
      Compose(58, 256, chars - 15, Enough256(chars - 15), 15, 11);
    } else if chars >= 4 {
      Enough256Fits(chars - 4);
      Compose(58, 256, chars - 4, Enough256(chars - 4), 4, 3);
    } else if chars > 0 {
      Enough256Fits(chars - 1);
      Compose(58, 256, chars - 1, chars - 1, 1, 1);
    }
  }

  lemma Enough256Small(b: nat)
    requires b < 15
    ensures Enough256(b) == 3 * (b / 4) + b % 4
    ensures b > 0 ==> 1000 * Enough256(b) <= 733 * b + 980
  {
    assert b >= 12 ==> Enough256(b) == Enough256(b - 4) + 3;
    assert b >= 8 ==> Enough256(b - 4) == Enough256(b - 8) + 3;
  }

  lemma {:induction false} Enough256Medium(a: nat, b: nat)
    requires 15 * a + b < 71 && b < 15
    ensures Enough256(15 * a + b) == 11 * a + Enough256(b)
  {
    if a > 0 {
      Enough256Medium(a - 1, b);
    }
  }

  lemma {:induction false} Enough256Bound(chars: nat)
    ensures Enough256(chars) <= Size256(chars)
  {
    if chars >= 71 {
      Enough256Bound(chars - 71);
    } else {
      var a, b := chars / 15, chars % 15;
      Enough256Medium(a, b);
      Enough256Small(b);
      assert 1000 * Enough256(chars) <= 733 * chars + 1000;
    }
  }

  /** The buffer estimates suffice. */
  lemma EstimatesSuffice(n: nat)
    ensures Power(256, n) <= Power(58, Size58(n))
    ensures Power(58, n) <= Power(256, Size256(n))
  {
    Enough58Fits(n);
    PowerMono(58, Enough58(n), Size58(n));
    Enough256Fits(n);
    Enough256Bound(n);
    PowerMono(256, Enough256(n), Size256(n));
  }

  // ----- what text stands for which bytes -----

  /** The number of leading elements equal to `x`. */
  function Lead<T(==)>(s: seq<T>, x: T): (n: nat)
    ensures n <= |s| && (forall i :: 0 <= i < n ==> s[i] == x) && (n < |s| ==> s[n] != x)
  {
    if s == [] || s[0] != x then 0 else
      var n := Lead(s[1..], x);
      assert forall i :: 0 < i < n + 1 ==> s[i] == s[1..][i - 1];
      n + 1
  }

  ghost predicate AllSymbols(text: string) {
    forall i :: 0 <= i < |text| ==> DigitOf(text[i]) >= 0
  }

  ghost function DigitsOf(text: string): (s: seq<nat>)
    requires AllSymbols(text)
    ensures |s| == |text| && AllBelow(58, s)
  {
    seq(|text|, i requires 0 <= i < |text| => DigitOf(text[i]))
  }

  /** As many ones as leading zero bytes, then the same number in base 58 and in base 256. */
  ghost predicate StandsFor(text: string, bytes: seq<Byte>) {
    && AllSymbols(text)
    && Lead(text, '1') == Lead(bytes, 0)
    && Num(58, DigitsOf(text[Lead(text, '1')..])) == Num(256, bytes[Lead(bytes, 0)..])
  }

  /** A text stands for one byte string only. */
  lemma BytesUnique(text: string, b: seq<Byte>, c: seq<Byte>)
    requires StandsFor(text, b) && StandsFor(text, c)
    ensures b == c
  {
    var z := Lead(text, '1');
    CanonicalUnique(256, b[z..], c[z..]);
    assert b == b[..z] + b[z..] && c == c[..z] + c[z..];
    assert b[..z] == c[..z];
  }

  /** A byte string has one text only. */
  lemma TextUnique(s: string, t: string, bytes: seq<Byte>)
    requires StandsFor(s, bytes) && StandsFor(t, bytes)
    ensures s == t
  {
    var z := Lead(bytes, 0);
    CanonicalUnique(58, DigitsOf(s[z..]), DigitsOf(t[z..]));
    assert s == s[..z] + s[z..] && t == t[..z] + t[z..];
    assert s[..z] == t[..z];
    assert |s| == |t|;
    forall i | z <= i < |s|
      ensures s[i] == t[i]
    {
      assert DigitsOf(s[z..])[i - z] == DigitsOf(t[z..])[i - z];
      assert DigitOf(s[z..][i - z]) == DigitOf(t[z..][i - z]);
    }
  }

  lemma LeadIs<T>(s: seq<T>, x: T, n: nat)
    requires n <= |s| && (forall i :: 0 <= i < n ==> s[i] == x) && (n < |s| ==> s[n] != x)
    ensures Lead(s, x) == n
  {
  }

  lemma EncodedStandsFor(text: string, bytes: seq<Byte>, digits: seq<nat>, zeroes: nat)
    requires zeroes == Lead(bytes, 0) && Canonical(58, digits) && Num(58, digits) == Num(256, bytes[zeroes..])
    requires |text| == zeroes + |digits| && (forall i :: 0 <= i < zeroes ==> text[i] == '1')
    requires forall i :: 0 <= i < |digits| ==> text[zeroes + i] == Symbol(digits[i])
    ensures StandsFor(text, bytes)
  {
    assert Symbol(0) == '1';
    forall i | 0 <= i < |text|
      ensures DigitOf(text[i]) == if i < zeroes then 0 else digits[i - zeroes]
    {
      if i >= zeroes {
        assert text[zeroes + (i - zeroes)] == Symbol(digits[i - zeroes]);
      }
    }
    LeadIs(text, '1', zeroes);
    assert DigitsOf(text[zeroes..]) == digits;
  }

  lemma DecodedStandsFor(text: string, bytes: seq<Byte>, tail: seq<nat>, zeroes: nat)
    requires AllSymbols(text) && zeroes == Lead(text, '1') && Canonical(256, tail)
    requires Num(58, DigitsOf(text[zeroes..])) == Num(256, tail)
    requires |bytes| == zeroes + |tail| && (forall i :: 0 <= i < zeroes ==> bytes[i] == 0)
    requires forall i :: 0 <= i < |tail| ==> bytes[zeroes + i] == tail[i]
    ensures StandsFor(text, bytes)
  {
    assert tail != [] ==> bytes[zeroes + 0] == tail[0];
    LeadIs(bytes, 0, zeroes);
    assert bytes[zeroes..] == tail;
  }

  // ----- white space -----

  function TrimLeft(s: string): string {
    if s != [] && IsSpace(s[0]) then TrimLeft(s[1..]) else s
  }

  function TrimRight(s: string): (t: string)
    ensures t <= s && (t != [] ==> !IsSpace(t[|t| - 1]))
    ensures forall i :: |t| <= i < |s| ==> IsSpace(s[i])
  {
    if s != [] && IsSpace(s[|s| - 1]) then TrimRight(s[..|s| - 1]) else s
  }

  /** The text without white space at either end. */
  function Trim(s: string): string { TrimRight(TrimLeft(s)) }

  lemma {:induction false} TrimLeftIs(s: string, n: nat)
    requires n <= |s| && (forall i :: 0 <= i < n ==> IsSpace(s[i])) && (n < |s| ==> !IsSpace(s[n]))
    ensures TrimLeft(s) == s[n..]
  {
    if n > 0 {
      TrimLeftIs(s[1..], n - 1);
      assert s[1..][n - 1..] == s[n..];
    } else {
      assert s[n..] == s;
    }
  }

  /** The word between the white space ends where the scan stopped. */
  lemma TrimRightIs(s: string, n: nat)
    requires n <= |s| && (forall i :: n <= i < |s| ==> IsSpace(s[i])) && (forall i :: 0 <= i < n ==> !IsSpace(s[i]))
    ensures TrimRight(s) == s[..n]
  {
    assert |TrimRight(s)| == n;
  }

  /** A character that is neither white space nor in the alphabet makes the trimmed text undecodable, and so does
      white space before a later word. */
  lemma Undecodable(s: string, stop: nat, k: nat)
    requires stop <= k < |s| && !IsSpace(s[k]) && DigitOf(s[stop]) < 0
    ensures !AllSymbols(TrimRight(s))
  {
    var t := TrimRight(s);
    assert k < |t|;
    assert t[stop] == s[stop];
  }

  // ----- the codec -----

  /** The next digit fits the buffer. */
  lemma DigitFits(base: nat, factor: nat, input: seq<nat>, k: nat, size: nat)
    requires factor > 0 && k < |input| && AllBelow(factor, input) && Power(factor, |input|) <= Power(base, size)
    ensures Times(factor, Num(factor, input[..k])) + input[k] == Num(factor, input[..k + 1]) < Power(base, size)
  {
    assert input[..k + 1] == input[..k] + [input[k]];
    NumAppend(factor, input[..k], input[k]);
    NumBound(factor, input[..k + 1]);
    PowerMono(factor, k + 1, |input|);
  }

  lemma ZeroBuffer(base: nat, buf: seq<nat>, input: seq<nat>, factor: nat)
    requires forall i :: 0 <= i < |buf| ==> buf[i] == 0
    ensures Num(base, buf) == 0 == Num(factor, input[..0])
  {
    NumSkipsZeroes(base, buf, |buf|);
    NumIs(base, buf[|buf|..]);
    NumIs(factor, input[..0]);
  }

  /** The digits of a buffer from the first that is not zero. */
  method Significant(buf: array<nat>, base: nat) returns (digits: seq<nat>)
    requires AllBelow(base, buf[..])
    ensures Canonical(base, digits) && Num(base, digits) == Num(base, buf[..])
  {
    var it := 0;
    while it < buf.Length && buf[it] == 0
      invariant 0 <= it <= buf.Length && forall j :: 0 <= j < it ==> buf[j] == 0
    {
      it := it + 1;
    }
    NumSkipsZeroes(base, buf[..], it);
    assert buf[..][it..] == buf[it..];
    return buf[it..];
  }

  /** `EncodeBase58`. */
  method Encode(bytes: seq<Byte>) returns (text: string)
    ensures StandsFor(text, bytes)
  {
    var zeroes := 0;
    while zeroes < |bytes| && bytes[zeroes] == 0
      invariant 0 <= zeroes <= |bytes| && forall j :: 0 <= j < zeroes ==> bytes[j] == 0
    {
      zeroes := zeroes + 1;
    }
    LeadIs(bytes, 0, zeroes);
    ghost var rest: seq<nat> := bytes[zeroes..];
    var size := Size58(|bytes| - zeroes);
    var buf := new nat[size](i => 0);
    EstimatesSuffice(|rest|);
    ZeroBuffer(58, buf[..], rest, 256);
    var length := 0;
    for k := 0 to |bytes| - zeroes
      invariant 0 <= length <= buf.Length && AllBelow(58, buf[..])
      invariant forall j :: 0 <= j < buf.Length - length ==> buf[j] == 0
      invariant Num(58, buf[..]) == Num(256, rest[..k])
    {
      DigitFits(58, 256, rest, k, size);
      length := MulAdd(buf, 58, 256, bytes[zeroes + k], length);
    }
    assert rest[..|rest|] == rest;
    var digits := Significant(buf, 58);
    text := seq(zeroes, _ => '1');
    for i := 0 to |digits|
      invariant |text| == zeroes + i && (forall j :: 0 <= j < zeroes ==> text[j] == '1')
      invariant forall j :: 0 <= j < i ==> text[zeroes + j] == Symbol(digits[j])
    {
      text := text + [Symbol(digits[i])];
    }
    EncodedStandsFor(text, bytes, digits, zeroes);
  }

  /** `DecodeBase58`: white space around the text is skipped. */
  method Decode(s: CString) returns (ok: bool, bytes: seq<Byte>)
    ensures ok <==> AllSymbols(Trim(s))
    ensures ok ==> StandsFor(Trim(s), bytes)
  {
    bytes := [];
    var start := 0;
    while start < |s| && IsSpace(s[start])
      invariant 0 <= start <= |s| && forall j :: 0 <= j < start ==> IsSpace(s[j])
    {
      start := start + 1;
    }
    TrimLeftIs(s, start);
    var word := s[start..];
    var zeroes := 0;
    while zeroes < |word| && word[zeroes] == '1'
      invariant 0 <= zeroes <= |word| && forall j :: 0 <= j < zeroes ==> word[j] == '1'
    {
      zeroes := zeroes + 1;
    }
    var good, stop, buf := DecodeWord(word, zeroes);
    if !good {
      Undecodable(word, stop, stop);
      return false, [];
    }
    var end := stop;
    while end < |word| && IsSpace(word[end])
      invariant stop <= end <= |word| && forall j :: stop <= j < end ==> IsSpace(word[j])
    {
      end := end + 1;
    }
    if end < |word| {
      Undecodable(word, stop, end);
      return false, [];
    }
    TrimRightIs(word, stop);
    LeadIs(word[..stop], '1', zeroes);
    assert word[..stop][zeroes..] == word[zeroes..stop];
    var tail := Significant(buf, 256);
    bytes := WithZeroes(zeroes, tail);
    DecodedStandsFor(word[..stop], bytes, tail, zeroes);
    ok := true;
  }

  method WithZeroes(zeroes: nat, tail: seq<nat>) returns (bytes: seq<Byte>)
    requires AllBelow(256, tail)
    ensures |bytes| == zeroes + |tail| && forall i :: 0 <= i < zeroes ==> bytes[i] == 0
    ensures forall i :: 0 <= i < |tail| ==> bytes[zeroes + i] == tail[i]
  {
    bytes := seq(zeroes, _ => 0);
    for i := 0 to |tail|
      invariant |bytes| == zeroes + i && (forall j :: 0 <= j < zeroes ==> bytes[j] == 0)
      invariant forall j :: 0 <= j < i ==> bytes[zeroes + j] == tail[j]
    {
      var b: Byte := tail[i];
      bytes := bytes + [b];
    }
  }

  /** The characters after the leading ones, up to white space or the end. */
  method DecodeWord(word: string, zeroes: nat) returns (good: bool, stop: nat, buf: array<nat>)
    requires zeroes <= |word| && forall i :: 0 <= i < zeroes ==> word[i] == '1'
    ensures fresh(buf) && zeroes <= stop <= |word| && forall i :: 0 <= i < stop ==> DigitOf(word[i]) >= 0
    ensures good ==> stop == |word| || IsSpace(word[stop])
    ensures !good ==> stop < |word| && !IsSpace(word[stop]) && DigitOf(word[stop]) < 0
    ensures good ==> AllBelow(256, buf[..]) && Num(256, buf[..]) == Num(58, DigitsOf(word[zeroes..stop]))
  {
    var size := Size256(|word| - zeroes);
    buf := new nat[size](i => 0);
    var length := 0;
    stop := zeroes;
    ZeroBuffer(256, buf[..], [], 58);
    assert DigitsOf(word[zeroes..zeroes]) == [];
    while stop < |word| && !IsSpace(word[stop])
      invariant zeroes <= stop <= |word| && (forall i :: 0 <= i < stop ==> DigitOf(word[i]) >= 0)
      invariant 0 <= length <= buf.Length && AllBelow(256, buf[..])
      invariant forall j :: 0 <= j < buf.Length - length ==> buf[j] == 0
      invariant Num(256, buf[..]) == Num(58, DigitsOf(word[zeroes..stop]))
    {
      var d := FindSymbol(word[stop]);
      if d < 0 {
        return false, stop, buf;
      }
      CharacterFits(word, zeroes, stop);
      length := MulAdd(buf, 256, 58, d, length);
      stop := stop + 1;
    }
    good := true;
  }

  lemma CharacterFits(word: string, zeroes: nat, stop: nat)
    requires zeroes <= stop < |word| && forall i :: 0 <= i <= stop ==> DigitOf(word[i]) >= 0
    ensures Times(58, Num(58, DigitsOf(word[zeroes..stop]))) + DigitOf(word[stop]) ==
            Num(58, DigitsOf(word[zeroes..stop + 1])) < Power(256, Size256(|word| - zeroes))
  {
    var input := DigitsOf(word[zeroes..stop + 1]);
    assert input == DigitsOf(word[zeroes..stop]) + [DigitOf(word[stop])];
    NumAppend(58, DigitsOf(word[zeroes..stop]), DigitOf(word[stop]));
    NumBound(58, input);
    EstimatesSuffice(|input|);
    PowerMono(256, Size256(|input|), Size256(|word| - zeroes));
  }

  // ----- main results -----

  /** Decoding an encoded byte string gives it back. */
  method DecodeAfterEncode(bytes: seq<Byte>) returns (ok: bool, result: seq<Byte>)
    ensures ok && result == bytes
  {
    var text := Encode(bytes);
    SymbolsAreText(text);
    ok, result := Decode(text);
    BytesUnique(text, bytes, result);
  }

  /** Encoding the result of decoding a text without white space gives the text back. */
  method EncodeAfterDecode(s: CString) returns (ok: bool, text: string)
    requires forall i :: 0 <= i < |s| ==> !IsSpace(s[i])
    ensures ok <==> AllSymbols(s)
    ensures ok ==> text == s
  {
    text := "";
    TrimLeftIs(s, 0);
    TrimRightIs(s, |s|);
    assert s[..|s|] == s && s[0..] == s;
    var bytes;
    ok, bytes := Decode(s);
    if ok {
      text := Encode(bytes);
      TextUnique(s, text, bytes);
    }
  }

  /** The alphabet has no white space and no NUL. */
  lemma SymbolsAreText(text: string)
    requires AllSymbols(text)
    ensures '\0' !in text && Trim(text) == text
  {
    forall i | 0 <= i < |text|
      ensures text[i] != '\0' && !IsSpace(text[i])
    {
      assert DigitOf(text[i]) >= 0;
    }
    TrimLeftIs(text, 0);
    TrimRightIs(text, |text|);
    assert text[..|text|] == text && text[0..] == text;
  }
}
