/** eth_convert: a 256-bit amount in one Ether unit rendered as decimal text
    in another, into a caller-owned character array. Units are their powers
    of ten (wei 0, ..., ether 18). Converting to a smaller unit multiplies by
    a power of ten; converting to a larger one divides, and a nonzero
    remainder is written after a dot, left-padded with zeros to exactly as
    many digits as the unit difference, without trimming trailing zeros. */
module Convert {
  import opened Numerals
  import opened Primitives

  /** An ETH_UNIT as the power of ten it stands for. */
  type Unit = nat

  /** The guard before the dot is written: the one in the source compares the
      integer part's length with the array size only; the corrected one also
      demands room for the NUL written after the dot. */
  datatype DotCheck = SizeOnly | RoomForDot

  /** The outcome of a conversion: `Converted` for 0 and `Failed` for -1,
      each with the array as the call left it, and `OutOfBounds` for a write
      past the end of the array. */
  datatype ConvResult = Converted(buf: seq<char>) | Failed(buf: seq<char>) | OutOfBounds

  /** The power of ten is computed as a double and passed as a 64-bit
      argument: exact and in range for unit differences up to 19. */
  predicate Representable(from: Unit, to: Unit)
  {
    if from >= to then from - to <= 19 else to - from <= 19
  }

  /** mul256: the product kept modulo 2^256. */
  function Mul256(a: nat, b: nat): (r: u256)
    ensures a * b < U256_BOUND ==> r == a * b
  {
    (a * b) % U256_BOUND
  }

  lemma QuotientBounds(a: nat, p: nat)
    requires p >= 1
    ensures a / p <= a && a % p <= a && a % p < p
    ensures a == p * (a / p) + a % p
  {
    var q := a / p;
    assert a == p * q + a % p;
    assert p * q == q + (p - 1) * q;
  }

  /** eth_convert with the dot guard selected by `check`. */
  function Convert(amount: u256, from: Unit, to: Unit, buf: seq<char>, check: DotCheck): (res: ConvResult)
    requires Representable(from, to)
    ensures !res.OutOfBounds? ==> |res.buf| == |buf|
  {
    if from >= to then ScaleUp(buf, amount, Pow(10, from - to))
    else
      var k := to - from;
      QuotientBounds(amount, Pow(10, k));
      ScaleDown(buf, amount / Pow(10, k), amount % Pow(10, k), k, check)
  }

  /** Converting to a smaller unit: the amount times the power of ten,
      rendered in decimal. */
  function ScaleUp(buf: seq<char>, amount: u256, p: nat): (res: ConvResult)
    ensures !res.OutOfBounds? && |res.buf| == |buf|
  {
    match ToString256(buf, 0, Mul256(amount, p), 10)
    case None => Failed(buf)
    case Some(m) => Converted(m)
  }

  /** Converting to a larger unit, once the amount is split into the quotient
      `q` and the remainder `r` by 10^k: the integer part, then the dot and
      the fraction when the remainder is nonzero. */
  function ScaleDown(buf: seq<char>, q: u256, r: u256, k: nat, check: DotCheck): (res: ConvResult)
    ensures !res.OutOfBounds? ==> |res.buf| == |buf|
  {
    match ToString256(buf, 0, q, 10)
    case None => Failed(buf)
    case Some(m) => if r == 0 then Converted(m) else Dot(m, r, k, check)
  }

  /** After a nonzero remainder: the guard, the dot, then the fraction. */
  function Dot(m: seq<char>, r: u256, k: nat, check: DotCheck): (res: ConvResult)
    ensures !res.OutOfBounds? ==> |res.buf| == |m|
  {
    var len := StrLen(m, 0);
    if (check == SizeOnly && len == |m|) || (check == RoomForDot && len + 1 >= |m|) then Failed(m)
    else if len + 1 >= |m| then OutOfBounds
    else Fraction(m, len, r, k)
  }

  /** The dot and its NUL at `len`, then the remainder after the dot. */
  function Fraction(m: seq<char>, len: nat, r: u256, k: nat): (res: ConvResult)
    requires len + 2 <= |m|
    ensures !res.OutOfBounds? && |res.buf| == |m|
  {
    Remainder(m[len := '.'][len + 1 := NUL], len + 1, r, k)
  }

  /** The remainder's digits at `at`; when they are fewer than `k`, the zero
      fill and the remainder written again after it. */
  function Remainder(m: seq<char>, at: nat, r: u256, k: nat): (res: ConvResult)
    requires at <= |m|
    ensures !res.OutOfBounds? && |res.buf| == |m|
  {
    match ToString256(m, at, r, 10)
    case None => Failed(m)
    case Some(m3) => Shifted(m3, at, r, k)
  }

  /** The shift: the places still missing after the remainder's digits, read
      back with strlen; the zero fill only when some are missing. */
  function Shifted(m: seq<char>, at: nat, r: u256, k: nat): (res: ConvResult)
    requires at <= |m|
    ensures !res.OutOfBounds? && |res.buf| == |m|
  {
    var shift: int := k - StrLen(m, at);
    if shift > 0 then Padded(m, at, r, shift) else Converted(m)
  }

  /** Refused unless the fill and one more byte fit; otherwise `shift` zeros
      at `at` and the remainder's digits after them. */
  function Padded(m: seq<char>, at: nat, r: u256, shift: nat): (res: ConvResult)
    requires at <= |m|
    ensures !res.OutOfBounds? && |res.buf| == |m|
  {
    if at + shift + 1 > |m| then Failed(m)
    else
      var m4 := Overwrite(m, at, Zeros(shift));
      match ToString256(m4, at + shift, r, 10)
      case None => Failed(m4)
      case Some(m5) => Converted(m5)
  }

  /** The text the conversion is meant to produce. */
  function FixedText(amount: nat, from: Unit, to: Unit): string
  {
    if from >= to then Decimal(amount * Pow(10, from - to))
    else
      var k := to - from;
      QuotientText(amount / Pow(10, k), amount % Pow(10, k), k)
  }

  /** The fixed-point text of `q * 10^k + r`, given its quotient and remainder
      by 10^k. */
  function QuotientText(q: nat, r: nat, k: nat): string
  {
    if r == 0 then Decimal(q) else Decimal(q) + "." + ZeroPad(Decimal(r), k)
  }

  /** The two single-character stores of the dot step are one write. */
  lemma DotStores(m: seq<char>, len: nat)
    requires len + 2 <= |m|
    ensures m[len := '.'][len + 1 := NUL] == Overwrite(m, len, ['.', NUL])
  {
    var lhs, rhs := m[len := '.'][len + 1 := NUL], Overwrite(m, len, ['.', NUL]);
    OverwriteFacts(m, len, ['.', NUL]);
    assert rhs[len + 0] == '.' && rhs[len + 1] == NUL;
    assert forall i :: 0 <= i < |m| ==> lhs[i] == rhs[i];
  }

  /** A write, a shorter or equal overwrite of its start, then a write right
      after that: together one write of the last two texts, provided they
      cover the first. */
  lemma OverwriteCover(mem: seq<char>, a: nat, x: string, z: string, y: string)
    requires |x| <= |z| + |y| && a + |z| + |y| <= |mem|
    ensures Overwrite(Overwrite(Overwrite(mem, a, x), a, z), a + |z|, y) == Overwrite(mem, a, z + y)
  {
    var m1 := Overwrite(mem, a, x);
    var m2 := Overwrite(m1, a, z);
    var lhs := Overwrite(m2, a + |z|, y);
    var rhs := Overwrite(mem, a, z + y);
    OverwriteFacts(mem, a, x);
    OverwriteFacts(m1, a, z);
    OverwriteFacts(m2, a + |z|, y);
    OverwriteFacts(mem, a, z + y);
    forall i | 0 <= i < |lhs|
      ensures lhs[i] == rhs[i]
    {
      if a <= i < a + |z| {
        assert lhs[i] == z[i - a];
        assert rhs[a + (i - a)] == (z + y)[i - a];
      } else if a + |z| <= i < a + |z| + |y| {
        assert lhs[a + |z| + (i - a - |z|)] == y[i - a - |z|];
        assert rhs[a + (i - a)] == (z + y)[i - a];
      }
    }
  }

  /** The integer part as tostring256 stores it at the start of the array,
      and strlen reading its length back. */
  lemma IntegerPart(buf: seq<char>, q: u256)
    requires |Decimal(q)| + 1 <= |buf|
    ensures var m := Overwrite(buf, 0, Decimal(q) + [NUL]);
      ToString256(buf, 0, q, 10) == Some(m) && StrLen(m, 0) == |Decimal(q)|
  {
    StrLenAfterStore(buf, 0, Decimal(q), 10);
  }

  lemma DotStage(buf: seq<char>, d: string)
    requires |d| + 2 <= |buf|
    ensures Overwrite(buf, 0, d + [NUL])[|d| := '.'][|d| + 1 := NUL] == Overwrite(buf, 0, d + ['.', NUL])
  {
    var m := Overwrite(buf, 0, d + [NUL]);
    DotStores(m, |d|);
    OverwriteTwice(buf, 0, d + [NUL], |d|, ['.', NUL]);
    assert (d + [NUL])[..|d|] == d;
  }

  /** Remainder digits as many as the unit difference: stored right after the
      dot. */
  lemma FullStage(buf: seq<char>, d: string, e: string)
    requires |d| + |e| + 2 <= |buf|
    ensures Overwrite(Overwrite(buf, 0, d + ['.', NUL]), |d| + 1, e + [NUL]) == Overwrite(buf, 0, d + "." + e + [NUL])
  {
    var w2 := d + ['.', NUL];
    OverwriteTwice(buf, 0, w2, |d| + 1, e + [NUL]);
    assert w2[..|d| + 1] == d + ".";
    assert (d + ".") + (e + [NUL]) == d + "." + e + [NUL];
  }

  /** Fewer remainder digits than the unit difference: stored after the dot,
      overwritten by the zero fill, stored again after the fill. */
  lemma PaddedStage(buf: seq<char>, d: string, e: string, k: nat)
    requires |e| < k && |d| + k + 2 <= |buf|
    ensures var m2 := Overwrite(buf, 0, d + ['.', NUL]);
      var m3 := Overwrite(m2, |d| + 1, e + [NUL]);
      var m4 := Overwrite(m3, |d| + 1, Zeros(k - |e|));
      Overwrite(m4, |d| + 1 + (k - |e|), e + [NUL]) == Overwrite(buf, 0, d + "." + ZeroPad(e, k) + [NUL])
  {
    var shift := k - |e|;
    var w2 := d + ['.', NUL];
    var m2 := Overwrite(buf, 0, w2);
    OverwriteCover(m2, |d| + 1, e + [NUL], Zeros(shift), e + [NUL]);
    OverwriteTwice(buf, 0, w2, |d| + 1, Zeros(shift) + (e + [NUL]));
    assert w2[..|d| + 1] == d + ".";
    assert ZeroPad(e, k) == Zeros(shift) + e;
    assert (d + ".") + (Zeros(shift) + (e + [NUL])) == d + "." + ZeroPad(e, k) + [NUL];
  }

  /** The zero fill after a remainder with fewer than `k` digits: it succeeds
      exactly when the dot, `k` places and the NUL fit after the integer part,
      and then the places are the zero-padded remainder. */
  lemma PaddedSpec(buf: seq<char>, d: string, e: string, r: u256, k: nat)
    requires e == Decimal(r) && |e| < k && |d| + |e| + 2 <= |buf|
    ensures var m3 := Overwrite(Overwrite(buf, 0, d + ['.', NUL]), |d| + 1, e + [NUL]);
      var res := Padded(m3, |d| + 1, r, k - |e|);
      && (res.Converted? <==> |d| + k + 2 <= |buf|)
      && (res.Converted? ==> res.buf == Overwrite(buf, 0, d + "." + ZeroPad(e, k) + [NUL]))
  {
    if |d| + k + 2 <= |buf| {
      PaddedStage(buf, d, e, k);
    }
  }

  /** The remainder step on any array: refused when the digits and their NUL
      do not fit, otherwise they are stored and, when fewer than `k`, the
      zero fill follows. */
  lemma RemainderStore(m: seq<char>, at: nat, r: u256, k: nat)
    requires at <= |m|
    ensures var e := Decimal(r);
      && (|e| + 1 > |m| - at ==> Remainder(m, at, r, k) == Failed(m))
      && (|e| + 1 <= |m| - at ==>
          var m3 := Overwrite(m, at, e + [NUL]);
          Remainder(m, at, r, k) == if |e| < k then Padded(m3, at, r, k - |e|) else Converted(m3))
  {
    if |Decimal(r)| + 1 <= |m| - at {
      ShiftAfterStore(m, at, r, k);
    }
  }

  lemma ShiftAfterStore(m: seq<char>, at: nat, r: u256, k: nat)
    requires at + |Decimal(r)| + 1 <= |m|
    ensures var e := Decimal(r);
      var m3 := Overwrite(m, at, e + [NUL]);
      Shifted(m3, at, r, k) == if |e| < k then Padded(m3, at, r, k - |e|) else Converted(m3)
  {
    StrLenAfterStore(m, at, Decimal(r), 10);
  }

  /** The remainder step after the dot, both when the remainder has `k`
      digits and when it needs zeros in front. */
  lemma RemainderSpec(buf: seq<char>, d: string, r: u256, k: nat)
    requires |d| + 2 <= |buf|
    requires 1 <= k && 0 < r < Pow(10, k)
    ensures var res := Remainder(Overwrite(buf, 0, d + ['.', NUL]), |d| + 1, r, k);
      && (res.Converted? <==> |d| + k + 2 <= |buf|)
      && (res.Converted? ==> res.buf == Overwrite(buf, 0, d + "." + ZeroPad(Decimal(r), k) + [NUL]))
  {
    var e := Decimal(r);
    DigitCountBound(r, 10, k);
    RemainderStore(Overwrite(buf, 0, d + ['.', NUL]), |d| + 1, r, k);
    if |e| + 1 <= |buf| - |d| - 1 {
      if |e| < k {
        PaddedSpec(buf, d, e, r, k);
      } else {
        FullStage(buf, d, e);
        assert ZeroPad(e, k) == e;
      }
    }
  }

  /** The fraction step after an integer part `d` stored at the start of the
      array: it succeeds exactly when the integer part, the dot, `k` fraction
      digits and the NUL fit, and then the array holds exactly them. */
  lemma FractionSpec(buf: seq<char>, d: string, r: u256, k: nat)
    requires |d| + 2 <= |buf|
    requires 1 <= k && 0 < r < Pow(10, k)
    ensures var res := Fraction(Overwrite(buf, 0, d + [NUL]), |d|, r, k);
      && (res.Converted? <==> |d| + k + 2 <= |buf|)
      && (res.Converted? ==> res.buf == Overwrite(buf, 0, d + "." + ZeroPad(Decimal(r), k) + [NUL]))
  {
    DotStage(buf, d);
    RemainderSpec(buf, d, r, k);
  }

  /** Scaling down with the corrected guard, on the quotient and remainder. */
  lemma ScaleDownSpec(buf: seq<char>, q: u256, r: u256, k: nat)
    requires 1 <= k && r < Pow(10, k)
    ensures var res := ScaleDown(buf, q, r, k, RoomForDot);
      && !res.OutOfBounds?
      && (res.Converted? <==> |QuotientText(q, r, k)| < |buf|)
      && (res.Converted? ==> res.buf == Overwrite(buf, 0, QuotientText(q, r, k) + [NUL]))
  {
    var d := Decimal(q);
    if |d| + 1 <= |buf| {
      IntegerPart(buf, q);
      if r != 0 {
        DigitCountBound(r, 10, k);
        if |d| + 2 <= |buf| {
          FractionSpec(buf, d, r, k);
        }
      }
    }
  }

  /** Converting to a larger unit with the corrected guard. */
  lemma ConvertDownSpec(amount: u256, from: Unit, to: Unit, buf: seq<char>)
    requires Representable(from, to) && from < to
    ensures var res := Convert(amount, from, to, buf, RoomForDot);
      && !res.OutOfBounds?
      && (res.Converted? <==> |FixedText(amount, from, to)| < |buf|)
      && (res.Converted? ==> res.buf == Overwrite(buf, 0, FixedText(amount, from, to) + [NUL]))
  {
    var k := to - from;
    QuotientBounds(amount, Pow(10, k));
    ScaleDownSpec(buf, amount / Pow(10, k), amount % Pow(10, k), k);
  }

  /** The conversion with the corrected dot guard: it never writes past the
      array, succeeds exactly when the fixed-point text and its NUL fit, and
      then the array starts with exactly that text and its NUL, the rest
      untouched. Scaling up assumes the product stays below 2^256. */
  lemma ConvertSpec(amount: u256, from: Unit, to: Unit, buf: seq<char>)
    requires Representable(from, to)
    requires from >= to ==> amount * Pow(10, from - to) < U256_BOUND
    ensures var res := Convert(amount, from, to, buf, RoomForDot);
      && !res.OutOfBounds?
      && (res.Converted? <==> |FixedText(amount, from, to)| < |buf|)
      && (res.Converted? ==> res.buf == Overwrite(buf, 0, FixedText(amount, from, to) + [NUL]))
  {
    if from < to {
      ConvertDownSpec(amount, from, to, buf);
    }
  }

  /** The two dot guards after an integer part `d` stored at the start of
      the array. */
  lemma DotGuards(buf: seq<char>, d: string, r: u256, k: nat)
    requires |d| + 1 <= |buf| && IsDigits(d, 10)
    ensures var m := Overwrite(buf, 0, d + [NUL]);
      && (Dot(m, r, k, SizeOnly).OutOfBounds? <==> |d| + 1 == |buf|)
      && (!Dot(m, r, k, SizeOnly).OutOfBounds? ==> Dot(m, r, k, SizeOnly) == Dot(m, r, k, RoomForDot))
  {
    StrLenAfterStore(buf, 0, d, 10);
  }

  lemma ScaleDownGuards(buf: seq<char>, q: u256, r: u256, k: nat)
    ensures var asWritten := ScaleDown(buf, q, r, k, SizeOnly);
      && (asWritten.OutOfBounds? <==> r != 0 && |Decimal(q)| + 1 == |buf|)
      && (!asWritten.OutOfBounds? ==> asWritten == ScaleDown(buf, q, r, k, RoomForDot))
  {
    if |Decimal(q)| + 1 <= |buf| {
      DotGuards(buf, Decimal(q), r, k);
    }
  }

  /** The source's dot guard: it lets exactly one case through that the
      corrected guard refuses, a nonzero remainder after an integer part that
      fills all but the last byte, and then the NUL after the dot lands one
      past the end of the array. In every other case the two guards agree. */
  lemma DotChecks(amount: u256, from: Unit, to: Unit, buf: seq<char>)
    requires Representable(from, to)
    ensures var asWritten := Convert(amount, from, to, buf, SizeOnly);
      && (asWritten.OutOfBounds? <==> from < to && amount % Pow(10, to - from) != 0 && |Decimal(amount / Pow(10, to - from))| + 1 == |buf|)
      && (!asWritten.OutOfBounds? ==> asWritten == Convert(amount, from, to, buf, RoomForDot))
  {
    if from < to {
      var k := to - from;
      QuotientBounds(amount, Pow(10, k));
      ScaleDownGuards(buf, amount / Pow(10, k), amount % Pow(10, k), k);
    }
  }

  /** A concrete instance: 5 in a unit converted to the unit ten times larger,
      into two bytes. The integer part `0` and its NUL fill the array, the
      source's guard lets the dot through and its NUL would go to offset 2;
      the corrected guard refuses. */
  lemma DotOverrunExample()
    ensures Convert(5, 0, 1, [NUL, NUL], SizeOnly) == OutOfBounds
    ensures Convert(5, 0, 1, [NUL, NUL], RoomForDot) == Failed(['0', NUL])
    ensures FixedText(5, 0, 1) == "0.5"
  {
    assert Pow(10, 1) == 10;
    assert Decimal(0) == "0";
    assert Decimal(5) == "5";
    IntegerPart([NUL, NUL], 0);
    assert Overwrite([NUL, NUL], 0, "0" + [NUL]) == ['0', NUL];
  }

  /** The left-padded rendering of a number is still a digit string. */
  lemma ZeroPadDigits(s: string, k: nat, base: nat)
    requires IsDigits(s, base) && base >= 1
    ensures IsDigits(ZeroPad(s, k), base)
  {
    var z := ZeroPad(s, k);
    forall i | 0 <= i < |z|
      ensures DigitValue(z[i]) < base
    {
      if i >= |z| - |s| {
        assert z[|z| - |s|..][i - (|z| - |s|)] == s[i - (|z| - |s|)];
      }
    }
  }

  /** Scaling up: the text is a digit string whose value is the amount times
      the power of ten; for a nonzero amount it is the amount's digits
      followed by one zero per unit of difference. */
  lemma FixedTextScaled(amount: nat, from: Unit, to: Unit)
    requires from >= to
    ensures var t := FixedText(amount, from, to);
      && IsDigits(t, 10) && ParseBase(t, 10) == amount * Pow(10, from - to)
      && (amount >= 1 ==> t == Decimal(amount) + Zeros(from - to))
  {
    ParseToBase(amount * Pow(10, from - to), 10);
    if amount >= 1 {
      ToBaseShift(amount, 10, from - to);
    }
  }

  /** Two digit strings joined by a dot: the dot is the only one, and taking
      it out leaves the digits of both. */
  lemma DotText(d: string, z: string)
    requires IsDigits(d, 10) && IsDigits(z, 10)
    ensures var t := d + "." + z;
      && t[|d|] == '.'
      && (forall i :: 0 <= i < |t| && t[i] == '.' ==> i == |d|)
      && t[..|d|] + t[|d| + 1..] == d + z
      && IsDigits(d + z, 10)
  {
    var t := d + "." + z;
    assert DigitValue('.') == 16;
    assert forall i :: 0 <= i < |t| && t[i] == '.' ==> i == |d|;
    assert t[..|d|] == d;
    assert t[|d| + 1..] == z;
    forall i | 0 <= i < |d + z|
      ensures DigitValue((d + z)[i]) < 10
    {
      if i >= |d| {
        assert (d + z)[i] == z[i - |d|];
      }
    }
  }

  /** A digit string holds no dot. */
  lemma NoDot(t: string)
    requires IsDigits(t, 10)
    ensures '.' !in t
  {
    assert DigitValue('.') == 16;
    forall i | 0 <= i < |t|
      ensures t[i] != '.'
    {
      assert DigitValue(t[i]) < 10;
    }
  }

  /** The digits of `q`, then those of `r` padded to `k` places, read as
      `q * 10^k + r`. */
  lemma FractionValue(q: nat, r: nat, k: nat)
    requires 1 <= k && r < Pow(10, k)
    ensures var z := ZeroPad(Decimal(r), k);
      && |z| == k && IsDigits(z, 10)
      && ParseBase(Decimal(q) + z, 10) == q * Pow(10, k) + r
  {
    var z := ZeroPad(Decimal(r), k);
    DigitCountBound(r, 10, k);
    ZeroPadDigits(Decimal(r), k, 10);
    ParseAppend(Decimal(q), z, 10);
    ParseZeroPad(Decimal(r), k, 10);
    ParseToBase(r, 10);
    ParseToBase(q, 10);
  }

  /** The fixed-point text of a whole quotient: the digits of `q`, no dot. */
  lemma WholeQuotientValue(q: nat, k: nat)
    ensures var t := QuotientText(q, 0, k);
      '.' !in t && IsDigits(t, 10) && ParseBase(t, 10) == q
  {
    ParseToBase(q, 10);
    NoDot(Decimal(q));
  }

  /** The fixed-point text of `a = q * 10^k + r` with `0 < r < 10^k`: `k`
      digits after the only dot, and the digits with the dot removed read as
      `a`. */
  lemma FractionQuotientValue(a: nat, q: nat, r: nat, k: nat)
    requires 1 <= k && 0 < r < Pow(10, k) && a == q * Pow(10, k) + r
    ensures var t := QuotientText(q, r, k);
      && '.' in t
      && (forall i :: 0 <= i < |t| && t[i] == '.' ==> |t| == i + 1 + k && IsDigits(t[..i] + t[i + 1..], 10) && ParseBase(t[..i] + t[i + 1..], 10) == a)
  {
    var d, z := Decimal(q), ZeroPad(Decimal(r), k);
    var t := d + "." + z;
    FractionValue(q, r, k);
    DotText(d, z);
    assert QuotientText(q, r, k) == t;
    assert t[|d|] in t;
    forall i | 0 <= i < |t| && t[i] == '.'
      ensures |t| == i + 1 + k && IsDigits(t[..i] + t[i + 1..], 10) && ParseBase(t[..i] + t[i + 1..], 10) == a
    {
      assert i == |d|;
    }
  }

  /** Scaling down: the text carries a dot exactly when the division leaves
      a remainder. Without a dot it is a digit string whose value, times the
      power of ten, is the amount. With one, exactly `to - from` digits follow
      the only dot, and the digits with the dot removed read back as the
      amount. */
  lemma FixedTextFraction(amount: nat, from: Unit, to: Unit)
    requires from < to
    ensures var k, t := to - from, FixedText(amount, from, to);
      && ('.' in t <==> amount % Pow(10, k) != 0)
      && ('.' !in t ==> IsDigits(t, 10) && ParseBase(t, 10) * Pow(10, k) == amount)
      && (forall i :: 0 <= i < |t| && t[i] == '.' ==> |t| == i + 1 + k && IsDigits(t[..i] + t[i + 1..], 10) && ParseBase(t[..i] + t[i + 1..], 10) == amount)
  {
    var k := to - from;
    var p := Pow(10, k);
    QuotientBounds(amount, p);
    var q, r := amount / p, amount % p;
    assert FixedText(amount, from, to) == QuotientText(q, r, k);
    if r == 0 {
      WholeQuotientValue(q, k);
      assert q * p == amount;
    } else {
      assert amount == q * p + r;
      FractionQuotientValue(amount, q, r, k);
    }
  }

  /** One and a half of the larger unit, converted from the smaller: the
      fraction keeps every place, so the text is `1.5` followed by one zero
      less than the unit difference (`1.500000000000000000` for wei to
      ether). */
  lemma OneAndAHalf(k: nat)
    requires 1 <= k
    ensures FixedText(15 * Pow(10, k - 1), 0, k) == "1.5" + Zeros(k - 1)
  {
    var p := Pow(10, k - 1);
    assert Pow(10, k) == 10 * p;
    DivUnique(15 * p, 10 * p, 1, 5 * p);
    ToBaseShift(5, 10, k - 1);
    assert Decimal(1) == "1" && Decimal(5) == "5";
    assert Decimal(5 * p) == "5" + Zeros(k - 1);
  }

  /** A whole number of the larger unit, converted from the smaller, is just
      that number: no dot, no fraction (`1` for 10^18 wei in ether). */
  lemma WholeUnits(n: nat, k: nat)
    requires 1 <= k
    ensures FixedText(n * Pow(10, k), 0, k) == Decimal(n)
  {
    DivUnique(n * Pow(10, k), Pow(10, k), n, 0);
  }
}
