/** The typed encoders of eth/web3.c, each a short sequence of writes into
    the buffer: a 64-bit value, a byte blob, a 20-byte address and a 256-bit
    value, every one rendered as a quoted `0x` hex JSON string. */
module Encoders {
  import opened Numerals
  import opened Primitives
  import opened Writer

  type Address = a: seq<byte> | |a| == 20 witness seq(20, _ => 0)

  /** The JSON string `"0x<digits>"`. */
  function Quoted(digits: string): (s: string)
    ensures |s| == |digits| + 4
  {
    "\"0x" + digits + "\""
  }

  /** The digits sit between the three-character opening and the closing
      quote. */
  lemma QuotedDigits(d: string)
    ensures var q := Quoted(d);
      q[..3] == "\"0x" && q[|q| - 1] == '"' && q[3..|q| - 1] == d
  {
  }

  lemma QuotedAppend(c: string, d: string)
    ensures c + Quoted(d) == c + "\"0x" + d + "\""
  {
  }

  /** __web3_printhex: `"0x%x"` of a 64-bit value, lower-case, unpadded. */
  function PrintHex(b: Buffer, v: u64, p: Policy): Outcome
  {
    PrintBuf(b, Quoted(Hex(v)), p)
  }

  const U32_BOUND: nat := 0x1_0000_0000

  /** __web3_printhex as the code is written: `%x` consumes an `unsigned int`,
      so on LP64 and 32-bit ARM targets only the low 32 bits of the 64-bit
      argument reach the text. */
  function PrintHexAsWritten(b: Buffer, v: u64, p: Policy): Outcome
  {
    PrintBuf(b, Quoted(Hex(v % U32_BOUND)), p)
  }

  /** What `%x` writes reads back as the low 32 bits of the value, and it is
      the value's own hex exactly when the value is below 2^32. */
  lemma PrintHexTruncates(v: u64)
    ensures ParseBase(Hex(v % U32_BOUND), 16) == v % U32_BOUND
    ensures Hex(v % U32_BOUND) == Hex(v) <==> v < U32_BOUND
  {
    var low := v % U32_BOUND;
    assert low < U32_BOUND && (v < U32_BOUND ==> low == v);
    ParseToBase(low, 16);
    ParseToBase(v, 16);
  }

  /** A 20 gwei gas price, 0x4a817c800, loses its leading digit. */
  lemma PrintHexGasPriceExample()
    ensures Hex(20_000_000_000 % U32_BOUND) == "a817c800"
    ensures Hex(20_000_000_000) == "4a817c800"
  {
    assert 20_000_000_000 == 0x4_a817_c800;
    assert 0x4_a817_c800 % U32_BOUND == 0xa817_c800;
    assert Hex(0xa) == "a";
    assert Hex(0xa8) == Hex(0xa) + "8";
    assert Hex(0xa81) == Hex(0xa8) + "1";
    assert Hex(0xa817) == Hex(0xa81) + "7";
    assert Hex(0xa817c) == Hex(0xa817) + "c";
    assert Hex(0xa817c8) == Hex(0xa817c) + "8";
    assert Hex(0xa817c80) == Hex(0xa817c8) + "0";
    assert Hex(0xa817c800) == Hex(0xa817c80) + "0";
    assert Hex(0x4_a817_c800) == Hex(0x4a817c80) + "0";
    assert Hex(0x4a817c80) == Hex(0x4a817c8) + "0";
    assert Hex(0x4a817c8) == Hex(0x4a817c) + "8";
    assert Hex(0x4a817c) == Hex(0x4a817) + "c";
    assert Hex(0x4a817) == Hex(0x4a81) + "7";
    assert Hex(0x4a81) == Hex(0x4a8) + "1";
    assert Hex(0x4a8) == Hex(0x4a) + "8";
    assert Hex(0x4a) == Hex(0x4) + "a";
    assert Hex(0x4) == "4";
  }

  /** __web3_printdata: refuse a blob whose byte count reaches the room left,
      then the opening quote, the hex of the bytes, the closing quote. */
  function PrintData(b: Buffer, bs: seq<byte>, p: Policy): Outcome
  {
    if b.used > |b.mem| then Fault
    else if |bs| >= |b.mem| - b.used then Fail(b)
    else
      var b1 :- PrintBuf(b, "\"0x", p);
      var b2 :- HexStep(b1, bs, 0);
      PrintBuf(b2, "\"", p)
  }

  /** __web3_printaddr: the opening quote, the hex of the 20 address bytes
      (refused when the encoder fails or reports fewer than 40 characters),
      the closing quote. */
  function PrintAddr(b: Buffer, a: Address, p: Policy): Outcome
  {
    var b1 :- PrintBuf(b, "\"0x", p);
    var b2 :- HexStep(b1, a, 40);
    PrintBuf(b2, "\"", p)
  }

  /** __web3_printuint256: the opening quote, the base-16 rendering of the
      value (the cursor advanced by the length of what was stored), the
      closing quote. */
  function PrintUint256(b: Buffer, v: u256, p: Policy): Outcome
  {
    var b1 :- PrintBuf(b, "\"0x", p);
    var b2 :- DigitsStep(b1, v);
    PrintBuf(b2, "\"", p)
  }

  /** The hex encoder called at the cursor, the call refused when it fails or
      reports fewer than `least` characters, the cursor then advanced by the
      count it reports. */
  function HexStep(b: Buffer, bs: seq<byte>, least: nat): (r: Outcome)
    ensures r.Fault? <==> b.used > |b.mem|
  {
    if b.used > |b.mem| then Fault
    else
      var (size, mem) := BinToHex(b.mem, b.used, bs);
      if size < 0 || size < least then Fail(Buffer(mem, b.used))
      else Ok(Buffer(mem, b.used + size))
  }

  /** tostring256 in base 16 at the cursor, the cursor then advanced by the
      length of the string it stored. */
  function DigitsStep(b: Buffer, v: u256): (r: Outcome)
    ensures r.Fault? <==> b.used > |b.mem|
  {
    if b.used > |b.mem| then Fault
    else
      match ToString256(b.mem, b.used, v, 16)
      case None => Fail(b)
      case Some(mem) => Ok(Buffer(mem, b.used + StrLen(mem, b.used)))
  }

  /** The hex step succeeds exactly when two digits per byte fit in the room
      left, and then appends exactly those digits. */
  lemma HexStepSpec(b: Buffer, bs: seq<byte>, least: nat)
    requires Clean(b) && least <= 2 * |bs|
    ensures var r := HexStep(b, bs, least);
      && !r.Fault?
      && (r.Ok? <==> b.used + 2 * |bs| <= |b.mem|)
      && (r.Ok? ==> |r.buf.mem| == |b.mem| && Clean(r.buf) && r.buf.used == b.used + 2 * |bs|)
      && (r.Ok? ==> Content(r.buf) == Content(b) + BytesHex(bs))
  {
    if b.used + 2 * |bs| <= |b.mem| {
      WriteAppends(b, BytesHex(bs), []);
      assert BytesHex(bs) + [] == BytesHex(bs);
    }
  }

  /** The base-16 step succeeds exactly when the digits and their NUL fit in
      the room left, and then appends exactly the digits. */
  lemma DigitsStepSpec(b: Buffer, v: u256)
    requires Clean(b)
    ensures var r := DigitsStep(b, v);
      && !r.Fault?
      && (r.Ok? <==> b.used + |Hex(v)| < |b.mem|)
      && (r.Ok? ==> |r.buf.mem| == |b.mem| && Clean(r.buf) && r.buf.used == b.used + |Hex(v)|)
      && (r.Ok? ==> Content(r.buf) == Content(b) + Hex(v))
  {
    var digits := Hex(v);
    if |digits| + 1 <= |b.mem| - b.used {
      var mem := Overwrite(b.mem, b.used, digits + [NUL]);
      OverwriteFacts(b.mem, b.used, digits + [NUL]);
      assert mem[b.used..b.used + |digits|] == digits;
      StrLenOfDigits(mem, b.used, digits, 16);
      WriteAppends(b, digits, [NUL]);
    }
  }

  /** Opening quote, a middle step, closing quote: under the corrected check
      the whole succeeds exactly when the middle text and both quotes fit
      before the last byte, and then appends exactly them; the source's check
      agrees whenever the corrected one succeeds. */
  lemma Bracketed(b: Buffer, b1: Buffer, mid: Outcome, w: string)
    requires Ready(b)
    requires PrintBuf(b, "\"0x", Remaining) == Ok(b1) && Ready(b1)
    requires Content(b1) == Content(b) + "\"0x"
    requires !mid.Fault? && (b1.used + |w| < |b1.mem| ==> mid.Ok?)
    requires mid.Ok? ==> |mid.buf.mem| == |b1.mem| && Clean(mid.buf) && Content(mid.buf) == Content(b1) + w && mid.buf.used == b1.used + |w|
    ensures var r := (match mid case Ok(b2) => PrintBuf(b2, "\"", Remaining) case _ => mid);
      && !r.Fault?
      && (r.Ok? <==> b.used + |w| + 4 < |b.mem|)
      && (r.Ok? ==> Ready(r.buf) && |r.buf.mem| == |b.mem|)
      && (r.Ok? ==> Content(r.buf) == Content(b) + Quoted(w))
  {
    assert b1.used == b.used + 3;
    if mid.Ok? {
      PrintBufAppends(mid.buf, "\"");
      QuotedAppend(Content(b), w);
    }
  }

  /** __web3_printdata under the corrected check: the quoted hex of the blob,
      refused exactly when it does not fit before the last byte. */
  lemma PrintDataSpec(b: Buffer, bs: seq<byte>)
    requires Ready(b)
    ensures var r := PrintData(b, bs, Remaining);
      && !r.Fault?
      && (r.Ok? <==> b.used + 2 * |bs| + 4 < |b.mem|)
      && (r.Ok? ==> Ready(r.buf) && |r.buf.mem| == |b.mem|)
      && (r.Ok? ==> Content(r.buf) == Content(b) + Quoted(BytesHex(bs)))
      && (r.Ok? ==> PrintData(b, bs, AsWritten) == r)
  {
    PrintBufAppends(b, "\"0x");
    PrintBufPolicies(b, "\"0x");
    if |bs| < |b.mem| - b.used {
      match PrintBuf(b, "\"0x", Remaining)
      case Ok(b1) =>
        HexStepSpec(b1, bs, 0);
        var mid := HexStep(b1, bs, 0);
        Bracketed(b, b1, mid, BytesHex(bs));
        if mid.Ok? {
          PrintBufPolicies(mid.buf, "\"");
        }
      case _ =>
    }
  }

  /** __web3_printaddr under the corrected check: 44 characters, refused
      exactly when they do not fit before the last byte. */
  lemma PrintAddrSpec(b: Buffer, a: Address)
    requires Ready(b)
    ensures var r := PrintAddr(b, a, Remaining);
      && !r.Fault?
      && (r.Ok? <==> b.used + 44 < |b.mem|)
      && (r.Ok? ==> Ready(r.buf) && |r.buf.mem| == |b.mem|)
      && (r.Ok? ==> Content(r.buf) == Content(b) + Quoted(BytesHex(a)))
      && (r.Ok? ==> PrintAddr(b, a, AsWritten) == r)
  {
    PrintBufAppends(b, "\"0x");
    PrintBufPolicies(b, "\"0x");
    match PrintBuf(b, "\"0x", Remaining)
    case Ok(b1) =>
      HexStepSpec(b1, a, 40);
      var mid := HexStep(b1, a, 40);
      Bracketed(b, b1, mid, BytesHex(a));
      if mid.Ok? {
        PrintBufPolicies(mid.buf, "\"");
      }
    case _ =>
  }

  /** __web3_printuint256 under the corrected check: the quoted base-16
      digits of the value, refused exactly when they do not fit before the
      last byte. */
  lemma PrintUint256Spec(b: Buffer, v: u256)
    requires Ready(b)
    ensures var r := PrintUint256(b, v, Remaining);
      && !r.Fault?
      && (r.Ok? <==> b.used + |Hex(v)| + 4 < |b.mem|)
      && (r.Ok? ==> Ready(r.buf) && |r.buf.mem| == |b.mem|)
      && (r.Ok? ==> Content(r.buf) == Content(b) + Quoted(Hex(v)))
      && (r.Ok? ==> PrintUint256(b, v, AsWritten) == r)
  {
    PrintBufAppends(b, "\"0x");
    PrintBufPolicies(b, "\"0x");
    match PrintBuf(b, "\"0x", Remaining)
    case Ok(b1) =>
      DigitsStepSpec(b1, v);
      var mid := DigitsStep(b1, v);
      Bracketed(b, b1, mid, Hex(v));
      if mid.Ok? {
        PrintBufPolicies(mid.buf, "\"");
      }
    case _ =>
  }

  /** One call a request builder makes into the writer layer. */
  datatype Piece =
    | Text(s: string)
    | HexWord(v: u64)
    | Data(bytes: seq<byte>)
    | Addr(a: Address)
    | Word(w: u256)

  function Exec(b: Buffer, piece: Piece, p: Policy): Outcome
  {
    match piece
    case Text(s) => PrintBuf(b, s, p)
    case HexWord(v) => PrintHex(b, v, p)
    case Data(bs) => PrintData(b, bs, p)
    case Addr(a) => PrintAddr(b, a, p)
    case Word(w) => PrintUint256(b, w, p)
  }

  /** The text a piece contributes to the request. */
  function Render(piece: Piece): string
  {
    match piece
    case Text(s) => s
    case HexWord(v) => Quoted(Hex(v))
    case Data(bs) => Quoted(BytesHex(bs))
    case Addr(a) => Quoted(BytesHex(a))
    case Word(w) => Quoted(Hex(w))
  }

  /** An address always renders as 44 characters: the quotes, `0x` and 40
      hex digits. */
  lemma AddressLength(a: Address)
    ensures |Render(Addr(a))| == 44
  {
  }

  /** Under the corrected check each piece succeeds exactly when its text fits
      before the last byte of the array, and then appends exactly that text;
      the source's check gives the same outcome whenever the corrected one
      succeeds. */
  lemma ExecSpec(b: Buffer, piece: Piece)
    requires Ready(b)
    ensures var r := Exec(b, piece, Remaining);
      && !r.Fault?
      && (r.Ok? <==> b.used + |Render(piece)| < |b.mem|)
      && (r.Ok? ==> Ready(r.buf) && |r.buf.mem| == |b.mem|)
      && (r.Ok? ==> Content(r.buf) == Content(b) + Render(piece))
      && (r.Ok? ==> Exec(b, piece, AsWritten) == r)
  {
    match piece
    case Text(s) =>
      PrintBufAppends(b, s);
      PrintBufPolicies(b, s);
    case HexWord(v) =>
      PrintBufAppends(b, Quoted(Hex(v)));
      PrintBufPolicies(b, Quoted(Hex(v)));
    case Data(bs) => PrintDataSpec(b, bs);
    case Addr(a) => PrintAddrSpec(b, a);
    case Word(w) => PrintUint256Spec(b, w);
  }
}
