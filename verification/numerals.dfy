/** Positional numerals: the lower-case digit alphabet shared by the hex and
    decimal renderings, the rendering of a natural number in a base, the
    two-characters-per-byte hex rendering of a byte string, and the parsers
    that invert them. */
module Numerals {

  type byte = x: nat | x < 256

  /** The character of digit `d`: `0`-`9`, then lower-case `a`-`f`. */
  function DigitChar(d: nat): (c: char)
    requires d < 16
    ensures DigitValue(c) == d
  {
    if d < 10 then ('0' as int + d) as char else ('a' as int + d - 10) as char
  }

  /** The value of a digit character; 16 for a character that is no digit. */
  function DigitValue(c: char): nat
  {
    if '0' <= c <= '9' then c as nat - '0' as nat
    else if 'a' <= c <= 'f' then c as nat - 'a' as nat + 10
    else 16
  }

  predicate IsDigits(s: string, base: nat)
  {
    forall i :: 0 <= i < |s| ==> DigitValue(s[i]) < base
  }

  function Pow(base: nat, k: nat): (p: nat)
    ensures base >= 1 ==> p >= 1
  {
    if k == 0 then 1 else base * Pow(base, k - 1)
  }

  function Zeros(k: nat): (s: string)
    ensures |s| == k
    ensures forall i :: 0 <= i < k ==> s[i] == '0'
  {
    seq(k, _ => '0')
  }

  /** `n` in base `base`, most significant digit first, without leading zeros
      (zero is the single digit `0`). */
  function ToBase(n: nat, base: nat): (s: string)
    requires 2 <= base <= 16
    ensures 1 <= |s|
    ensures IsDigits(s, base)
    ensures |s| > 1 ==> s[0] != '0'
    decreases n
  {
    DivMod(n, base);
    if n < base then [DigitChar(n)]
    else ToBase(n / base, base) + [DigitChar(n % base)]
  }

  /** Euclidean division facts the solver does not find on its own for a
      symbolic base. */
  lemma DivMod(n: nat, base: nat)
    requires 2 <= base
    ensures n == base * (n / base) + n % base
    ensures n % base < base
    ensures n >= base ==> 1 <= n / base < n
  {
  }

  /** The value of a digit string read most significant digit first. */
  function ParseBase(s: string, base: nat): nat
    decreases |s|
  {
    if s == [] then 0
    else ParseBase(s[..|s| - 1], base) * base + DigitValue(s[|s| - 1])
  }

  function Decimal(n: nat): (s: string)
  {
    ToBase(n, 10)
  }

  function Hex(n: nat): (s: string)
  {
    ToBase(n, 16)
  }

  /** Rendering then parsing gives the number back. */
  lemma {:induction false} ParseToBase(n: nat, base: nat)
    requires 2 <= base <= 16
    ensures ParseBase(ToBase(n, base), base) == n
    decreases n
  {
    var s := ToBase(n, base);
    if n < base {
      assert s[..|s| - 1] == [];
    } else {
      DivMod(n, base);
      ParseToBase(n / base, base);
      assert s[..|s| - 1] == ToBase(n / base, base);
      assert ParseBase(s, base) == (n / base) * base + n % base;
    }
  }

  lemma MulMono(c: nat, a: nat, b: nat)
    requires a <= b
    ensures c * a <= c * b
  {
    assert c * b == c * a + c * (b - a);
  }

  /** A nonzero multiple of `p` is at least `p` in size. */
  lemma MulStrict(p: int, x: int)
    requires p >= 0
    ensures x >= 1 ==> p * x >= p
    ensures x <= -1 ==> p * x <= -p
  {
    if x >= 1 {
      assert p * x == p + p * (x - 1);
    } else if x <= -1 {
      assert p * x == -p - p * (-x - 1);
    }
  }

  /** Quotient and remainder are unique. */
  lemma DivUnique(a: nat, p: nat, q: nat, r: nat)
    requires r < p && a == p * q + r
    ensures a / p == q && a % p == r
  {
    var q', r' := a / p, a % p;
    assert a == p * q' + r';
    assert p * (q' - q) == p * q' - p * q;
    MulStrict(p, q' - q);
  }

  /** Dividing by the base is exact on a multiple of the base. */
  lemma DivExact(m: nat, base: nat)
    requires 2 <= base
    ensures (m * base) / base == m && (m * base) % base == 0
  {
    DivUnique(m * base, base, m, 0);
  }

  lemma DivBound(n: nat, base: nat, p: nat)
    requires 2 <= base
    ensures n / base < p <==> n < base * p
  {
    DivMod(n, base);
    var q, r := n / base, n % base;
    if q < p {
      MulMono(base, q + 1, p);
      assert base * (q + 1) == base * q + base;
    } else {
      MulMono(base, p, q);
    }
  }

  /** A number has at most `k` digits exactly when it is below `base^k`. */
  lemma {:induction false} DigitCountBound(n: nat, base: nat, k: nat)
    requires 2 <= base <= 16 && 1 <= k
    ensures |ToBase(n, base)| <= k <==> n < Pow(base, k)
    decreases k
  {
    DivMod(n, base);
    if k == 1 {
      if n >= base {
        assert |ToBase(n, base)| == |ToBase(n / base, base)| + 1;
      }
    } else {
      var p := Pow(base, k - 1);
      assert Pow(base, k) == base * p;
      if n < base {
        MulMono(base, 1, p);
      } else {
        DigitCountBound(n / base, base, k - 1);
        assert |ToBase(n, base)| == |ToBase(n / base, base)| + 1;
        DivBound(n, base, p);
      }
    }
  }

  lemma Distribute(a: nat, p: nat, b: nat, c: nat)
    ensures (a * p + b) * c == a * (c * p) + b * c
  {
  }

  /** Parsing a concatenation: the left part is shifted by the right part's
      length in digits. */
  lemma {:induction false} ParseAppend(s: string, t: string, base: nat)
    ensures ParseBase(s + t, base) == ParseBase(s, base) * Pow(base, |t|) + ParseBase(t, base)
    decreases |t|
  {
    if t == [] {
      assert s + t == s;
    } else {
      var t' := t[..|t| - 1];
      var d := DigitValue(t[|t| - 1]);
      var a, p, b := ParseBase(s, base), Pow(base, |t'|), ParseBase(t', base);
      assert (s + t)[..|s + t| - 1] == s + t';
      ParseAppend(s, t', base);
      assert ParseBase(s + t, base) == (a * p + b) * base + d by {
        assert (s + t)[|s + t| - 1] == t[|t| - 1];
      }
      assert ParseBase(t, base) == b * base + d;
      assert Pow(base, |t|) == base * p;
      Distribute(a, p, b, base);
    }
  }

  /** Leading zeros do not change the parsed value. */
  lemma {:induction false} ParseZeros(k: nat, base: nat)
    ensures ParseBase(Zeros(k), base) == 0
    decreases k
  {
    if k > 0 {
      assert Zeros(k)[..k - 1] == Zeros(k - 1);
      ParseZeros(k - 1, base);
    }
  }

  /** `n` multiplied by `base`, `k` times over. */
  function Scale(n: nat, base: nat, k: nat): (r: nat)
    ensures n >= 1 && base >= 1 ==> r >= 1
  {
    if k == 0 then n else Scale(n, base, k - 1) * base
  }

  lemma {:induction false} ScaleProduct(n: nat, base: nat, k: nat)
    ensures Scale(n, base, k) == n * Pow(base, k)
  {
    if k > 0 {
      ScaleProduct(n, base, k - 1);
      Associate(n, base, Pow(base, k - 1));
    }
  }

  lemma {:induction false} ScaleShift(n: nat, base: nat, k: nat)
    requires 2 <= base <= 16 && n >= 1
    ensures ToBase(Scale(n, base, k), base) == ToBase(n, base) + Zeros(k)
  {
    if k == 0 {
      assert Zeros(0) == [];
    } else {
      ScaleShift(n, base, k - 1);
      ToBaseTimesBase(Scale(n, base, k - 1), base);
      ZerosSnoc(k);
    }
  }

  /** Multiplying a nonzero number by `base^k` appends `k` zero digits. */
  lemma ToBaseShift(n: nat, base: nat, k: nat)
    requires 2 <= base <= 16 && n >= 1
    ensures ToBase(n * Pow(base, k), base) == ToBase(n, base) + Zeros(k)
  {
    ScaleShift(n, base, k);
    ScaleProduct(n, base, k);
  }

  lemma ZerosSnoc(k: nat)
    requires k >= 1
    ensures Zeros(k) == Zeros(k - 1) + ['0']
  {
  }

  lemma ToBaseTimesBase(m: nat, base: nat)
    requires 2 <= base <= 16 && m >= 1
    ensures ToBase(m * base, base) == ToBase(m, base) + ['0']
  {
    MulMono(base, 1, m);
    DivExact(m, base);
    var n := m * base;
    assert n >= base;
    assert ToBase(n, base) == ToBase(n / base, base) + [DigitChar(n % base)];
  }

  lemma Associate(a: nat, b: nat, c: nat)
    ensures a * (b * c) == (a * c) * b
  {
  }

  /** `s` left-padded with `0` to `k` characters; unchanged when already at
      least that long. */
  function ZeroPad(s: string, k: nat): (r: string)
    ensures |r| == if |s| < k then k else |s|
    ensures r[|r| - |s|..] == s
    ensures forall i :: 0 <= i < |r| - |s| ==> r[i] == '0'
  {
    if |s| < k then Zeros(k - |s|) + s else s
  }

  lemma ParseZeroPad(s: string, k: nat, base: nat)
    ensures ParseBase(ZeroPad(s, k), base) == ParseBase(s, base)
  {
    if |s| < k {
      ParseAppend(Zeros(k - |s|), s, base);
      ParseZeros(k - |s|, base);
    }
  }

  /** Each byte as two hex digits, high nibble first. */
  function BytesHex(bs: seq<byte>): (s: string)
    ensures |s| == 2 * |bs|
  {
    if bs == [] then []
    else [DigitChar(bs[0] / 16), DigitChar(bs[0] % 16)] + BytesHex(bs[1..])
  }

  /** The byte rendering uses hex digits only. */
  lemma {:induction false} BytesHexDigits(bs: seq<byte>)
    ensures IsDigits(BytesHex(bs), 16)
    decreases |bs|
  {
    if bs != [] {
      BytesHexDigits(bs[1..]);
    }
  }

  /** Reads a string of hex digit pairs back into bytes. */
  function ParseBytesHex(s: string): (bs: seq<byte>)
    requires |s| % 2 == 0 && IsDigits(s, 16)
    ensures |bs| == |s| / 2
  {
    if s == [] then []
    else
      assert IsDigits(s[2..], 16) by {
        forall i | 0 <= i < |s| - 2 ensures DigitValue(s[2..][i]) < 16 {
          assert s[2..][i] == s[i + 2];
        }
      }
      [DigitValue(s[0]) * 16 + DigitValue(s[1])] + ParseBytesHex(s[2..])
  }

  lemma {:induction false} BytesHexRoundTrip(bs: seq<byte>)
    ensures IsDigits(BytesHex(bs), 16) && ParseBytesHex(BytesHex(bs)) == bs
    decreases |bs|
  {
    BytesHexDigits(bs);
    if bs != [] {
      var s := BytesHex(bs);
      assert s[2..] == BytesHex(bs[1..]);
      BytesHexRoundTrip(bs[1..]);
      assert [bs[0]] + bs[1..] == bs;
    }
  }
}
