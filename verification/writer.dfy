/** The bounded writer of eth/web3.c: an append-only cursor `used` over a
    caller-owned character array `mem` whose length is the capacity
    (`buf_size`). The formatting step is left out: an append receives the
    text `vsnprintf` would have produced, and what `vsnprintf` stores is
    modelled exactly, truncation included. */
module Writer {
  import opened Numerals
  import opened Primitives

  datatype Buffer = Buffer(mem: seq<char>, used: nat)

  /** Which capacity check `__web3_printbuf` applies: the one in the source,
      against the whole capacity, or the one against the room left after
      the cursor. */
  datatype Policy = AsWritten | Remaining

  /** The effect of one write. `Fail` is the source's -1 return, with the
      buffer as the failed call left it. `Fault` is a write at an offset past
      the end of the array: with `used > buf_size`, the room
      `buf_size - buf_used` wraps around in `size_t`, so the callee gets an
      enormous bound and stores past the end. */
  datatype Outcome = Ok(buf: Buffer) | Fail(buf: Buffer) | Fault {
    predicate IsFailure() {
      !Ok?
    }

    function PropagateFailure(): Outcome
      requires IsFailure()
    {
      this
    }

    function Extract(): Buffer
      requires Ok?
    {
      buf
    }
  }

  /** Cursor within the array and every byte from the cursor on is zero. */
  predicate Clean(b: Buffer)
  {
    b.used <= |b.mem| && forall i :: b.used <= i < |b.mem| ==> b.mem[i] == NUL
  }

  /** Clean with room left for at least the terminating NUL. */
  predicate Ready(b: Buffer)
  {
    Clean(b) && b.used < |b.mem|
  }

  /** The text written so far. */
  function Content(b: Buffer): string
    requires b.used <= |b.mem|
  {
    b.mem[..b.used]
  }

  function Min(a: nat, b: nat): nat
  {
    if a < b then a else b
  }

  /** __web3_resetbuf: zero the whole array and rewind the cursor. The source
      asserts a positive capacity. */
  function Reset(b: Buffer): (r: Buffer)
    requires |b.mem| > 0
    ensures |r.mem| == |b.mem| && r.used == 0
    ensures forall i :: 0 <= i < |r.mem| ==> r.mem[i] == NUL
    ensures Ready(r) && Content(r) == []
  {
    Buffer(seq(|b.mem|, _ => NUL), 0)
  }

  /** What `vsnprintf(mem + at, room, ...)` stores when the full output is
      `s`: nothing if the room is zero, otherwise as much of `s` as leaves
      space for the terminating NUL, then the NUL. */
  function Vsnprintf(mem: seq<char>, at: nat, room: nat, s: string): (r: seq<char>)
    requires at + room <= |mem|
    ensures |r| == |mem|
  {
    if room == 0 then mem else Overwrite(mem, at, s[..Min(|s|, room - 1)] + [NUL])
  }

  /** __web3_printbuf with the already formatted text `s`: an append that
      succeeds advances the cursor by exactly |s|, and one that fails leaves
      the cursor where it was. Under the source's check the append is refused
      only when |s| reaches the whole capacity; under the corrected check it
      is refused when |s| does not fit before the last byte of the room. */
  function PrintBuf(b: Buffer, s: string, p: Policy): (r: Outcome)
    ensures r.Fault? <==> b.used > |b.mem|
    ensures !r.Fault? ==> |r.buf.mem| == |b.mem|
    ensures r.Fail? ==> r.buf.used == b.used
    ensures r.Ok? ==> r.buf.used == b.used + |s|
    ensures p == AsWritten && !r.Fault? ==> (r.Ok? <==> |s| < |b.mem|)
    ensures p == Remaining && !r.Fault? ==> (r.Ok? <==> b.used + |s| < |b.mem|)
  {
    if b.used > |b.mem| then Fault
    else
      var room := |b.mem| - b.used;
      var mem := Vsnprintf(b.mem, b.used, room, s);
      var limit := if p == AsWritten then |b.mem| else room;
      if |s| >= limit then Fail(Buffer(mem, b.used)) else Ok(Buffer(mem, b.used + |s|))
  }

  /** Storing `w` followed by zero bytes at the cursor of a clean buffer and
      advancing the cursor past `w` appends `w` to the content and keeps the
      buffer clean. */
  lemma WriteAppends(b: Buffer, w: string, zs: string)
    requires Clean(b) && b.used + |w| + |zs| <= |b.mem|
    requires forall i :: 0 <= i < |zs| ==> zs[i] == NUL
    ensures var b' := Buffer(Overwrite(b.mem, b.used, w + zs), b.used + |w|);
      Clean(b') && Content(b') == Content(b) + w
  {
    var m := Overwrite(b.mem, b.used, w + zs);
    OverwriteFacts(b.mem, b.used, w + zs);
    assert m[..b.used + |w|] == m[..b.used] + m[b.used..b.used + |w|];
    assert m[b.used..b.used + |w|] == (w + zs)[..|w|];
    forall i | b.used + |w| <= i < |m|
      ensures m[i] == NUL
    {
      if i < b.used + |w| + |zs| {
        assert m[b.used + (i - b.used)] == (w + zs)[i - b.used];
      }
    }
  }

  /** Under the corrected check a successful append keeps the cursor below the
      capacity, stores exactly `s` after the previous text and leaves the rest
      of the array zero. */
  lemma PrintBufAppends(b: Buffer, s: string)
    requires Clean(b)
    ensures var r := PrintBuf(b, s, Remaining);
      r.Ok? ==> Ready(r.buf) && Content(r.buf) == Content(b) + s
  {
    var r := PrintBuf(b, s, Remaining);
    if r.Ok? {
      var room := |b.mem| - b.used;
      assert s[..Min(|s|, room - 1)] == s;
      WriteAppends(b, s, [NUL]);
    }
  }

  /** Whenever the corrected check accepts an append, the source's check
      accepts it too, with the same effect. */
  lemma PrintBufPolicies(b: Buffer, s: string)
    requires b.used <= |b.mem|
    ensures PrintBuf(b, s, Remaining).Ok? ==> PrintBuf(b, s, AsWritten) == PrintBuf(b, s, Remaining)
  {
  }

  /** The source's check accepts an append that does not fit in the room left:
      the cursor is pushed to or past the capacity although only a prefix of
      the text (or nothing) was stored. */
  lemma PrintBufOverruns(b: Buffer, s: string)
    requires b.used <= |b.mem|
    requires |b.mem| - b.used <= |s| < |b.mem|
    ensures var r := PrintBuf(b, s, AsWritten);
      r.Ok? && r.buf.used >= |b.mem| && !Ready(r.buf)
  {
  }

  /** A concrete instance: four bytes of capacity, three used, append "xy".
      The append reports success, the cursor ends at 5, beyond the array, and
      neither character was stored. */
  lemma PrintBufOverrunExample()
    ensures var b := Buffer(['a', 'b', 'c', NUL], 3);
      && Ready(b)
      && PrintBuf(b, "xy", AsWritten) == Ok(Buffer(['a', 'b', 'c', NUL], 5))
      && PrintBuf(b, "xy", Remaining).Fail?
  {
    var b := Buffer(['a', 'b', 'c', NUL], 3);
    assert Vsnprintf(b.mem, 3, 1, "xy") == b.mem by {
      assert "xy"[..0] + [NUL] == [NUL];
    }
  }
}
