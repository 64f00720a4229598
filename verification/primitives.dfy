/** The external primitives the web3 layer calls into, given the behaviour
    this model assumes of them: the binary-to-hex encoder of
    helpers/hextobin.h and the base-N rendering and C string length used on
    256-bit values. Neither library is part of this model; the bodies below
    are the assumed contracts, written as functions over a character array
    `mem` and an offset `at` into it. */
module Primitives {
  import opened Numerals

  const NUL: char := 0 as char

  const U64_BOUND: nat := 0x1_0000_0000_0000_0000
  const U256_BOUND: nat := 0x1_0000_0000_0000_0000_0000_0000_0000_0000_0000_0000_0000_0000_0000_0000_0000_0000_0000_0000

  type u64 = x: nat | x < U64_BOUND
  type u256 = x: nat | x < U256_BOUND

  datatype Option<T> = None | Some(value: T)

  /** `mem` with `w` stored at offsets `at .. at + |w|`. */
  function Overwrite(mem: seq<char>, at: nat, w: string): (r: seq<char>)
    requires at + |w| <= |mem|
    ensures |r| == |mem|
  {
    mem[..at] + w + mem[at + |w|..]
  }

  /** What a write leaves where: `w` at its offsets, `mem` everywhere else. */
  lemma OverwriteFacts(mem: seq<char>, at: nat, w: string)
    requires at + |w| <= |mem|
    ensures var r := Overwrite(mem, at, w);
      && r[..at] == mem[..at] && r[at..at + |w|] == w && r[at + |w|..] == mem[at + |w|..]
      && (forall i :: 0 <= i < |w| ==> r[at + i] == w[i])
      && (forall i :: 0 <= i < |mem| && !(at <= i < at + |w|) ==> r[i] == mem[i])
  {
  }

  /** bintohex_nonull(bs, |bs|, mem + at, |mem| - at): when the room holds
      two characters per byte it stores the hex digits, with no terminator,
      and returns their count; otherwise it returns -1 and stores nothing. */
  function BinToHex(mem: seq<char>, at: nat, bs: seq<byte>): (r: (int, seq<char>))
    requires at <= |mem|
    ensures |r.1| == |mem|
    ensures r.0 >= 0 <==> 2 * |bs| <= |mem| - at
    ensures r.0 >= 0 ==> r.0 == 2 * |bs| && r.1 == Overwrite(mem, at, BytesHex(bs))
    ensures r.0 < 0 ==> r.0 == -1 && r.1 == mem
  {
    if 2 * |bs| <= |mem| - at then (2 * |bs|, Overwrite(mem, at, BytesHex(bs))) else (-1, mem)
  }

  /** tostring256(v, base, mem + at, |mem| - at): when the digits and a
      terminating NUL fit in the room it stores both and succeeds; otherwise
      it fails and stores nothing. */
  function ToString256(mem: seq<char>, at: nat, v: u256, base: nat): (r: Option<seq<char>>)
    requires at <= |mem| && (base == 10 || base == 16)
    ensures r.Some? <==> |ToBase(v, base)| + 1 <= |mem| - at
    ensures r.Some? ==> r.value == Overwrite(mem, at, ToBase(v, base) + [NUL])
  {
    var digits := ToBase(v, base);
    if |digits| + 1 <= |mem| - at then Some(Overwrite(mem, at, digits + [NUL])) else None
  }

  /** strlen(mem + at), stopping at the end of the array when no NUL follows. */
  function StrLen(mem: seq<char>, at: nat): (n: nat)
    requires at <= |mem|
    ensures at + n <= |mem|
    ensures forall i :: at <= i < at + n ==> mem[i] != NUL
    ensures at + n < |mem| ==> mem[at + n] == NUL
    decreases |mem| - at
  {
    if at == |mem| || mem[at] == NUL then 0 else 1 + StrLen(mem, at + 1)
  }

  /** A digit string carries no NUL, so the length of a terminated rendering
      is the number of its digits. */
  lemma StrLenOfDigits(mem: seq<char>, at: nat, w: string, base: nat)
    requires at + |w| < |mem| && mem[at + |w|] == NUL
    requires mem[at..at + |w|] == w && IsDigits(w, base) && base <= 16
    ensures StrLen(mem, at) == |w|
  {
    assert DigitValue(NUL) == 16;
    assert forall i :: at <= i < at + |w| ==> mem[i] == w[i - at];
  }

  /** strlen right after storing a digit string and its NUL is the number of
      digits. */
  lemma StrLenAfterStore(mem: seq<char>, at: nat, w: string, base: nat)
    requires at + |w| + 1 <= |mem| && IsDigits(w, base) && base <= 16
    ensures StrLen(Overwrite(mem, at, w + [NUL]), at) == |w|
  {
    var m := Overwrite(mem, at, w + [NUL]);
    OverwriteFacts(mem, at, w + [NUL]);
    assert m[at + |w|] == NUL;
    assert m[at..at + |w|] == w;
    StrLenOfDigits(m, at, w, base);
  }

  /** Two writes where the second starts inside or right after the first and
      reaches at least as far are one write of the combined text. */
  lemma OverwriteTwice(mem: seq<char>, a: nat, w1: string, b: nat, w2: string)
    requires a <= b <= a + |w1| <= b + |w2| <= |mem|
    ensures Overwrite(Overwrite(mem, a, w1), b, w2) == Overwrite(mem, a, w1[..b - a] + w2)
  {
    var m1 := Overwrite(mem, a, w1);
    var lhs := Overwrite(m1, b, w2);
    var rhs := Overwrite(mem, a, w1[..b - a] + w2);
    OverwriteFacts(mem, a, w1);
    OverwriteFacts(m1, b, w2);
    OverwriteFacts(mem, a, w1[..b - a] + w2);
    assert |lhs| == |rhs|;
    forall i | 0 <= i < |lhs|
      ensures lhs[i] == rhs[i]
    {
      if b <= i < b + |w2| {
        assert lhs[i] == w2[i - b];
        assert rhs[a + (i - a)] == (w1[..b - a] + w2)[i - a];
      } else if a <= i < b {
        assert rhs[a + (i - a)] == (w1[..b - a] + w2)[i - a];
      }
    }
  }
}
