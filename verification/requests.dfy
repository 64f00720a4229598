/** The JSON-RPC 2.0 request builders of eth/web3.c. Every builder rewinds
    the context's buffer, writes the envelope header carrying the request id
    and the builder's own C function name as the method, then its parameters,
    then the terminator, stopping at the first write that is refused. */
module Requests {
  import opened Numerals
  import opened Primitives
  import opened Writer
  import opened Encoders

  /** web3_ctx_t: the caller's buffer with its cursor, and the request id. */
  datatype Ctx = Ctx(buf: Buffer, reqId: int)

  /** What a builder returns: `Done` for 0, `Refused` for -1 (with the
      context as the refused write left it), `Faulted` when a write would
      land past the end of the array. */
  datatype Reply = Done(ctx: Ctx) | Refused(ctx: Ctx) | Faulted

  /** 32-byte transaction hash. */
  type TxHash = h: seq<byte> | |h| == 32 witness seq(32, _ => 0)

  /** The transaction fields the object serializer reads. A missing `data`
      pointer is `None`. */
  datatype Tx = Tx(to: Address, gasLimit: u64, gasPrice: u64, value: u256, data: Option<seq<byte>>)

  /** The `TX_NO_*` bits of the flags byte, one boolean each. */
  datatype TxFlags = TxFlags(noFrom: bool, noGas: bool, noGasPrice: bool, noValue: bool, noData: bool)

  const NO_FLAGS := TxFlags(false, false, false, false, false)

  const TERMINATOR := "]}"
  const LATEST := ",\"latest\""

  /** `%d`: the decimal digits, with a leading minus sign for a negative id. */
  function IntDecimal(n: int): (s: string)
    ensures |s| > 0 && (s[0] == '-' <==> n < 0)
  {
    if n < 0 then "-" + Decimal(-n) else Decimal(n)
  }

  /** `%d` is the id's value: after the optional minus sign, decimal digits
      that read back as its magnitude. */
  lemma IntDecimalValue(n: int)
    ensures var s := IntDecimal(n);
      var d := if n < 0 then s[1..] else s;
      IsDigits(d, 10) && |d| >= 1 && ParseBase(d, 10) == (if n < 0 then -n else n)
  {
    if n < 0 {
      assert IntDecimal(n)[1..] == Decimal(-n);
      ParseToBase(-n, 10);
    } else {
      ParseToBase(n, 10);
    }
  }

  /** The envelope header with the id and method name filled in. */
  function Header(id: int, name: string): string
  {
    "{\"jsonrpc\":\"2.0\",\"id\":" + IntDecimal(id) + ",\"method\":\"" + name + "\",\"params\":["
  }

  /** The whole request text for a given parameter text. */
  function Envelope(id: int, name: string, params: string): string
  {
    Header(id, name) + params + TERMINATOR
  }

  /** web3_init: the caller's array, request id 0, buffer reset. */
  function Init(mem: seq<char>): (c: Ctx)
    requires |mem| > 0
    ensures c.reqId == 0 && |c.buf.mem| == |mem|
    ensures Ready(c.buf) && Content(c.buf) == []
  {
    Ctx(Reset(Buffer(mem, 0)), 0)
  }

  /** A sequence of writes, stopping at the first one that does not succeed. */
  function Emit(b: Buffer, ps: seq<Piece>, p: Policy): Outcome
    decreases |ps|
  {
    if ps == [] then Ok(b)
    else
      var b1 :- Exec(b, ps[0], p);
      Emit(b1, ps[1..], p)
  }

  lemma EmitCons(b: Buffer, ps: seq<Piece>, p: Policy)
    requires ps != []
    ensures Emit(b, ps, p) == match Exec(b, ps[0], p) case Ok(b1) => Emit(b1, ps[1..], p) case r1 => r1
  {
  }

  /** The text the writes of `ps` contribute, in order. */
  function RenderAll(ps: seq<Piece>): string
    decreases |ps|
  {
    if ps == [] then [] else Render(ps[0]) + RenderAll(ps[1..])
  }

  lemma {:induction false} RenderAllAppend(xs: seq<Piece>, ys: seq<Piece>)
    ensures RenderAll(xs + ys) == RenderAll(xs) + RenderAll(ys)
    decreases |xs|
  {
    if xs == [] {
      assert xs + ys == ys;
    } else {
      assert (xs + ys)[1..] == xs[1..] + ys;
      RenderAllAppend(xs[1..], ys);
    }
  }

  /** Under the corrected check a sequence of writes succeeds exactly when the
      whole text fits before the last byte, and then appends exactly that
      text. */
  lemma {:induction false} EmitSpec(b: Buffer, ps: seq<Piece>)
    requires Ready(b)
    ensures var r := Emit(b, ps, Remaining);
      && !r.Fault?
      && (r.Ok? <==> b.used + |RenderAll(ps)| < |b.mem|)
      && (r.Ok? ==> Ready(r.buf) && |r.buf.mem| == |b.mem|)
      && (r.Ok? ==> Content(r.buf) == Content(b) + RenderAll(ps))
    decreases |ps|
  {
    if ps != [] {
      ExecSpec(b, ps[0]);
      var r1 := Exec(b, ps[0], Remaining);
      EmitCons(b, ps, Remaining);
      if r1.Ok? {
        EmitSpec(r1.buf, ps[1..]);
        Assoc(Content(b), Render(ps[0]), RenderAll(ps[1..]));
      }
    }
  }

  /** The source's check gives the same outcome as the corrected one whenever
      the corrected one succeeds. */
  lemma {:induction false} EmitPolicies(b: Buffer, ps: seq<Piece>)
    requires Ready(b)
    ensures Emit(b, ps, Remaining).Ok? ==> Emit(b, ps, AsWritten) == Emit(b, ps, Remaining)
    decreases |ps|
  {
    if ps != [] {
      ExecSpec(b, ps[0]);
      var r1 := Exec(b, ps[0], Remaining);
      EmitCons(b, ps, Remaining);
      EmitCons(b, ps, AsWritten);
      if r1.Ok? {
        EmitPolicies(r1.buf, ps[1..]);
      }
    }
  }

  /** WEB3_PREAMBLE, the parameter writes, WEB3_TERMINATOR. The request id is
      never changed. */
  function Request(ctx: Ctx, name: string, params: seq<Piece>, p: Policy): (r: Reply)
    requires |ctx.buf.mem| > 0
    ensures !r.Faulted? ==> r.ctx.reqId == ctx.reqId
  {
    match Emit(Reset(ctx.buf), [Text(Header(ctx.reqId, name))] + params + [Text(TERMINATOR)], p)
    case Ok(b) => Done(Ctx(b, ctx.reqId))
    case Fail(b) => Refused(Ctx(b, ctx.reqId))
    case Fault => Faulted
  }

  /** Under the corrected check a request is built exactly when its whole text
      fits before the last byte of the array, and the buffer then holds
      exactly that text whatever it held before; the source's check builds
      the same request whenever the corrected one does. */
  lemma RequestSpec(ctx: Ctx, name: string, params: seq<Piece>)
    requires |ctx.buf.mem| > 0
    ensures var r := Request(ctx, name, params, Remaining);
      && !r.Faulted?
      && (r.Done? <==> |Envelope(ctx.reqId, name, RenderAll(params))| < |ctx.buf.mem|)
      && (r.Done? ==> Ready(r.ctx.buf) && Content(r.ctx.buf) == Envelope(ctx.reqId, name, RenderAll(params)))
      && (r.Done? ==> Request(ctx, name, params, AsWritten) == r)
  {
    var ps := [Text(Header(ctx.reqId, name))] + params + [Text(TERMINATOR)];
    RenderAllAppend([Text(Header(ctx.reqId, name))] + params, [Text(TERMINATOR)]);
    RenderAllAppend([Text(Header(ctx.reqId, name))], params);
    EmitSpec(Reset(ctx.buf), ps);
    EmitPolicies(Reset(ctx.buf), ps);
  }

  /** Every builder starts from a reset buffer: two contexts with the same
      capacity and request id build the same reply, whatever their buffers
      held before. */
  lemma NoLeakage(c1: Ctx, c2: Ctx, name: string, params: seq<Piece>, p: Policy)
    requires |c1.buf.mem| > 0 && |c1.buf.mem| == |c2.buf.mem| && c1.reqId == c2.reqId
    ensures Request(c1, name, params, p) == Request(c2, name, params, p)
  {
    assert Reset(c1.buf) == Reset(c2.buf);
  }

  /** eth_getTransactionCount: the address, then `"latest"`. */
  function GetTransactionCount(ctx: Ctx, addr: Address, p: Policy): Reply
    requires |ctx.buf.mem| > 0
  {
    Request(ctx, "eth_getTransactionCount", [Addr(addr), Text(LATEST)], p)
  }

  /** eth_blockNumber: no parameters. */
  function BlockNumber(ctx: Ctx, p: Policy): Reply
    requires |ctx.buf.mem| > 0
  {
    Request(ctx, "eth_blockNumber", [], p)
  }

  /** eth_sendRawTransaction: the signed transaction as one data string. */
  function SendRawTransaction(ctx: Ctx, data: seq<byte>, p: Policy): Reply
    requires |ctx.buf.mem| > 0
  {
    Request(ctx, "eth_sendRawTransaction", [Data(data)], p)
  }

  /** eth_getBalance: the address, then `"latest"`. */
  function GetBalance(ctx: Ctx, addr: Address, p: Policy): Reply
    requires |ctx.buf.mem| > 0
  {
    Request(ctx, "eth_getBalance", [Addr(addr), Text(LATEST)], p)
  }

  /** eth_call: the transaction object under the caller's flags. */
  function Call(ctx: Ctx, from: Address, tx: Tx, flags: TxFlags, p: Policy): Reply
    requires |ctx.buf.mem| > 0
  {
    Request(ctx, "eth_call", TxParam(from, tx, flags), p)
  }

  /** eth_estimateGas: the transaction object with every field enabled. */
  function EstimateGas(ctx: Ctx, from: Address, tx: Tx, p: Policy): Reply
    requires |ctx.buf.mem| > 0
  {
    Request(ctx, "eth_estimateGas", TxParam(from, tx, NO_FLAGS), p)
  }

  /** eth_getTransactionReceipt: the 32-byte hash as one data string. */
  function GetTransactionReceipt(ctx: Ctx, hash: TxHash, p: Policy): Reply
    requires |ctx.buf.mem| > 0
  {
    Request(ctx, "eth_getTransactionReceipt", [Data(hash)], p)
  }

  /** The request text of a builder whose parameters are an address and
      `"latest"`: 44 characters for the address, 9 for `,"latest"`. */
  lemma AddressLatestText(addr: Address)
    ensures RenderAll([Addr(addr), Text(LATEST)]) == Quoted(BytesHex(addr)) + LATEST
    ensures |RenderAll([Addr(addr), Text(LATEST)])| == 53
  {
    var ps := [Addr(addr), Text(LATEST)];
    assert ps[1..] == [Text(LATEST)];
    OnePiece(Text(LATEST));
    AddressLength(addr);
  }

  lemma OnePiece(v: Piece)
    ensures RenderAll([v]) == Render(v)
  {
    assert [v][1..] == [];
  }

  /** eth_getTransactionCount under the corrected check: built exactly when
      header, quoted address, `,"latest"` and terminator fit, and then the
      buffer holds exactly them. */
  lemma GetTransactionCountSpec(ctx: Ctx, addr: Address)
    requires |ctx.buf.mem| > 0
    ensures var r := GetTransactionCount(ctx, addr, Remaining);
      && !r.Faulted?
      && (r.Done? <==> |Header(ctx.reqId, "eth_getTransactionCount")| + 55 < |ctx.buf.mem|)
      && (r.Done? ==> Ready(r.ctx.buf) && Content(r.ctx.buf) == Header(ctx.reqId, "eth_getTransactionCount") + Quoted(BytesHex(addr)) + ",\"latest\"" + "]}")
      && (r.Done? ==> r.ctx.reqId == ctx.reqId && GetTransactionCount(ctx, addr, AsWritten) == r)
  {
    RequestSpec(ctx, "eth_getTransactionCount", [Addr(addr), Text(LATEST)]);
    AddressLatestText(addr);
  }

  /** eth_getBalance: the same parameters as eth_getTransactionCount under its
      own method name. */
  lemma GetBalanceSpec(ctx: Ctx, addr: Address)
    requires |ctx.buf.mem| > 0
    ensures var r := GetBalance(ctx, addr, Remaining);
      && !r.Faulted?
      && (r.Done? <==> |Header(ctx.reqId, "eth_getBalance")| + 55 < |ctx.buf.mem|)
      && (r.Done? ==> Ready(r.ctx.buf) && Content(r.ctx.buf) == Header(ctx.reqId, "eth_getBalance") + Quoted(BytesHex(addr)) + ",\"latest\"" + "]}")
      && (r.Done? ==> r.ctx.reqId == ctx.reqId && GetBalance(ctx, addr, AsWritten) == r)
  {
    RequestSpec(ctx, "eth_getBalance", [Addr(addr), Text(LATEST)]);
    AddressLatestText(addr);
  }

  /** eth_blockNumber: an empty parameter list. */
  lemma BlockNumberSpec(ctx: Ctx)
    requires |ctx.buf.mem| > 0
    ensures var r := BlockNumber(ctx, Remaining);
      && !r.Faulted?
      && (r.Done? <==> |Header(ctx.reqId, "eth_blockNumber")| + 2 < |ctx.buf.mem|)
      && (r.Done? ==> Ready(r.ctx.buf) && Content(r.ctx.buf) == Header(ctx.reqId, "eth_blockNumber") + "]}")
      && (r.Done? ==> r.ctx.reqId == ctx.reqId && BlockNumber(ctx, AsWritten) == r)
  {
    RequestSpec(ctx, "eth_blockNumber", []);
  }

  /** eth_sendRawTransaction: one data string, two hex digits per byte. */
  lemma SendRawTransactionSpec(ctx: Ctx, data: seq<byte>)
    requires |ctx.buf.mem| > 0
    ensures var r := SendRawTransaction(ctx, data, Remaining);
      && !r.Faulted?
      && (r.Done? <==> |Header(ctx.reqId, "eth_sendRawTransaction")| + 2 * |data| + 6 < |ctx.buf.mem|)
      && (r.Done? ==> Ready(r.ctx.buf) && Content(r.ctx.buf) == Header(ctx.reqId, "eth_sendRawTransaction") + Quoted(BytesHex(data)) + "]}")
      && (r.Done? ==> r.ctx.reqId == ctx.reqId && SendRawTransaction(ctx, data, AsWritten) == r)
  {
    RequestSpec(ctx, "eth_sendRawTransaction", [Data(data)]);
    OnePiece(Data(data));
  }

  /** eth_getTransactionReceipt: the hash as 64 hex digits. */
  lemma GetTransactionReceiptSpec(ctx: Ctx, hash: TxHash)
    requires |ctx.buf.mem| > 0
    ensures var r := GetTransactionReceipt(ctx, hash, Remaining);
      && !r.Faulted?
      && (r.Done? <==> |Header(ctx.reqId, "eth_getTransactionReceipt")| + 70 < |ctx.buf.mem|)
      && (r.Done? ==> Ready(r.ctx.buf) && Content(r.ctx.buf) == Header(ctx.reqId, "eth_getTransactionReceipt") + Quoted(BytesHex(hash)) + "]}")
      && (r.Done? ==> r.ctx.reqId == ctx.reqId && GetTransactionReceipt(ctx, hash, AsWritten) == r)
  {
    RequestSpec(ctx, "eth_getTransactionReceipt", [Data(hash)]);
    OnePiece(Data(hash));
  }

  /** eth_call: the reference transaction object followed by `,"latest"`. */
  lemma CallSpec(ctx: Ctx, from: Address, tx: Tx, flags: TxFlags)
    requires |ctx.buf.mem| > 0
    ensures var r := Call(ctx, from, tx, flags, Remaining);
      && !r.Faulted?
      && (r.Done? <==> |Envelope(ctx.reqId, "eth_call", TxObject(from, tx, flags) + LATEST)| < |ctx.buf.mem|)
      && (r.Done? ==> Ready(r.ctx.buf) && Content(r.ctx.buf) == Envelope(ctx.reqId, "eth_call", TxObject(from, tx, flags) + LATEST))
      && (r.Done? ==> r.ctx.reqId == ctx.reqId && Call(ctx, from, tx, flags, AsWritten) == r)
  {
    RequestSpec(ctx, "eth_call", TxParam(from, tx, flags));
    TxParamText(from, tx, flags);
  }

  /** With no flag bits set every field but `data` is present, and `data`
      is present exactly when the transaction carries a non-empty blob. */
  lemma NoFlagsFields(tx: Tx)
    ensures forall f :: f in Selected(FIELD_ORDER, tx, NO_FLAGS) <==> f != DataField || (tx.data.Some? && |tx.data.value| != 0)
  {
    SelectedSpec(FIELD_ORDER, tx, NO_FLAGS);
    forall f ensures f in FIELD_ORDER {
      match f
      case To => assert FIELD_ORDER[0] == To;
      case From => assert FIELD_ORDER[1] == From;
      case Gas => assert FIELD_ORDER[2] == Gas;
      case GasPrice => assert FIELD_ORDER[3] == GasPrice;
      case Value => assert FIELD_ORDER[4] == Value;
      case DataField => assert FIELD_ORDER[5] == DataField;
    }
  }

  /** eth_estimateGas: eth_call's object with no flag bits set. */
  lemma EstimateGasSpec(ctx: Ctx, from: Address, tx: Tx)
    requires |ctx.buf.mem| > 0
    ensures var r := EstimateGas(ctx, from, tx, Remaining);
      && !r.Faulted?
      && (r.Done? <==> |Envelope(ctx.reqId, "eth_estimateGas", TxObject(from, tx, NO_FLAGS) + LATEST)| < |ctx.buf.mem|)
      && (r.Done? ==> Ready(r.ctx.buf) && Content(r.ctx.buf) == Envelope(ctx.reqId, "eth_estimateGas", TxObject(from, tx, NO_FLAGS) + LATEST))
      && (r.Done? ==> r.ctx.reqId == ctx.reqId && EstimateGas(ctx, from, tx, AsWritten) == r)
  {
    RequestSpec(ctx, "eth_estimateGas", TxParam(from, tx, NO_FLAGS));
    TxParamText(from, tx, NO_FLAGS);
  }

  /** The header is its 45 characters of fixed text plus the id's digits
      and the method name. */
  lemma HeaderLength(id: int, name: string)
    ensures |Header(id, name)| == 45 + |IntDecimal(id)| + |name|
  {
  }

  /** The source's check accepts eth_blockNumber in an array one byte longer
      than the header: the terminator does not fit, yet the build reports
      success with the cursor two bytes past where the header ended, one past
      the end of the array. The corrected check refuses it. */
  lemma BlockNumberOverrun(ctx: Ctx)
    requires |ctx.buf.mem| == |Header(ctx.reqId, "eth_blockNumber")| + 1
    ensures var r := BlockNumber(ctx, AsWritten);
      r.Done? && r.ctx.buf.used == |ctx.buf.mem| + 1 && !Ready(r.ctx.buf)
    ensures BlockNumber(ctx, Remaining).Refused?
  {
    var h := Header(ctx.reqId, "eth_blockNumber");
    HeaderLength(ctx.reqId, "eth_blockNumber");
    var b0 := Reset(ctx.buf);
    var ps := [Text(h)] + [] + [Text(TERMINATOR)];
    assert ps == [Text(h), Text(TERMINATOR)];
    EmitCons(b0, ps, AsWritten);
    var b1 := PrintBuf(b0, h, AsWritten).buf;
    assert ps[1..] == [Text(TERMINATOR)];
    EmitCons(b1, ps[1..], AsWritten);
    assert ps[1..][1..] == [];
    BlockNumberSpec(ctx);
  }

  /** `pieces` when the condition holds, nothing otherwise. */
  function When(c: bool, pieces: seq<Piece>): seq<Piece>
  {
    if c then pieces else []
  }

  /** Whether the serializer writes the data member: a non-null pointer, a
      nonzero length and the `TX_NO_DATA` bit clear. */
  predicate HasData(tx: Tx, flags: TxFlags)
  {
    tx.data.Some? && |tx.data.value| != 0 && !flags.noData
  }

  /** __web3_printtxparam: the writes it makes, in order. The `to` member
      always comes first; each later member is written, comma first, only
      when its field is present. */
  function TxParam(from: Address, tx: Tx, flags: TxFlags): seq<Piece>
  {
    [Text("{"), Text(Key(To)), Addr(tx.to)]
    + (Optional(From, from, tx, flags)
    + (Optional(Gas, from, tx, flags)
    + (Optional(GasPrice, from, tx, flags)
    + (Optional(Value, from, tx, flags)
    + (Optional(DataField, from, tx, flags)
    + [Text("}"), Text(LATEST)])))))
  }

  /** The writes of one optional member: the comma and key, then the value. */
  function Optional(f: Field, from: Address, tx: Tx, flags: TxFlags): seq<Piece>
  {
    When(Present(f, tx, flags), [Text("," + Key(f)), ValuePiece(f, from, tx)])
  }

  /** The piece that writes a field's value. */
  function ValuePiece(f: Field, from: Address, tx: Tx): (r: Piece)
    ensures Render(r) == FieldValue(f, from, tx)
  {
    match f
    case To => Addr(tx.to)
    case From => Addr(from)
    case Gas => HexWord(tx.gasLimit)
    case GasPrice => HexWord(tx.gasPrice)
    case Value => Word(tx.value)
    case DataField => Data(if tx.data.Some? then tx.data.value else [])
  }

  // An independent description of the transaction object: the members in a
  // fixed field order, each present or absent by its own rule, joined with
  // commas.

  datatype Field = To | From | Gas | GasPrice | Value | DataField

  const FIELD_ORDER: seq<Field> := [To, From, Gas, GasPrice, Value, DataField]

  predicate Present(f: Field, tx: Tx, flags: TxFlags)
  {
    match f
    case To => true
    case From => !flags.noFrom
    case Gas => !flags.noGas
    case GasPrice => !flags.noGasPrice
    case Value => !flags.noValue
    case DataField => HasData(tx, flags)
  }

  function Name(f: Field): string
  {
    match f
    case To => "to"
    case From => "from"
    case Gas => "gas"
    case GasPrice => "gasPrice"
    case Value => "value"
    case DataField => "data"
  }

  /** The member key with its colon, `"name":`. */
  function Key(f: Field): string
  {
    "\"" + Name(f) + "\":"
  }

  /** The JSON value of a field: addresses and the blob as hex data strings,
      the gas numbers and the value as hex quantities. */
  function FieldValue(f: Field, from: Address, tx: Tx): string
  {
    match f
    case To => Quoted(BytesHex(tx.to))
    case From => Quoted(BytesHex(from))
    case Gas => Quoted(Hex(tx.gasLimit))
    case GasPrice => Quoted(Hex(tx.gasPrice))
    case Value => Quoted(Hex(tx.value))
    case DataField => Quoted(BytesHex(if tx.data.Some? then tx.data.value else []))
  }

  /** Every field value is a quoted `0x` string whose digits read back as
      the field: the 20 bytes of an address, the bytes of the blob, or the
      number held in a gas field or the value. */
  lemma FieldValueDecodes(f: Field, from: Address, tx: Tx)
    ensures var v := FieldValue(f, from, tx);
      && |v| >= 4 && v[..3] == "\"0x" && v[|v| - 1] == '"'
      && var d := v[3..|v| - 1];
      && IsDigits(d, 16)
      && (f == To ==> |d| == 40 && ParseBytesHex(d) == tx.to)
      && (f == From ==> |d| == 40 && ParseBytesHex(d) == from)
      && (f == Gas ==> |d| >= 1 && ParseBase(d, 16) == tx.gasLimit)
      && (f == GasPrice ==> |d| >= 1 && ParseBase(d, 16) == tx.gasPrice)
      && (f == Value ==> |d| >= 1 && ParseBase(d, 16) == tx.value)
      && (f == DataField ==> |d| % 2 == 0 && ParseBytesHex(d) == (if tx.data.Some? then tx.data.value else []))
  {
    match f
    case To =>
      BytesHexRoundTrip(tx.to);
      QuotedDigits(BytesHex(tx.to));
    case From =>
      BytesHexRoundTrip(from);
      QuotedDigits(BytesHex(from));
    case Gas =>
      ParseToBase(tx.gasLimit, 16);
      QuotedDigits(Hex(tx.gasLimit));
    case GasPrice =>
      ParseToBase(tx.gasPrice, 16);
      QuotedDigits(Hex(tx.gasPrice));
    case Value =>
      ParseToBase(tx.value, 16);
      QuotedDigits(Hex(tx.value));
    case DataField =>
      var bs := if tx.data.Some? then tx.data.value else [];
      BytesHexRoundTrip(bs);
      QuotedDigits(BytesHex(bs));
  }

  function Member(f: Field, from: Address, tx: Tx): string
  {
    Key(f) + FieldValue(f, from, tx)
  }

  /** The fields of `fs` that are present, in the order of `fs`. */
  function Selected(fs: seq<Field>, tx: Tx, flags: TxFlags): (r: seq<Field>)
    decreases |fs|
  {
    if fs == [] then [] else Pick(fs[0], tx, flags) + Selected(fs[1..], tx, flags)
  }

  function Pick(f: Field, tx: Tx, flags: TxFlags): seq<Field>
  {
    if Present(f, tx, flags) then [f] else []
  }

  /** The members of the given fields, separated by commas. */
  function Members(fs: seq<Field>, from: Address, tx: Tx): string
    decreases |fs|
  {
    if fs == [] then []
    else if |fs| == 1 then Member(fs[0], from, tx)
    else Member(fs[0], from, tx) + ("," + Members(fs[1..], from, tx))
  }

  /** The transaction object: the present members in field order. */
  function TxObject(from: Address, tx: Tx, flags: TxFlags): string
  {
    "{" + Members(Selected(FIELD_ORDER, tx, flags), from, tx) + "}"
  }

  /** A field is selected exactly when it is listed and present. */
  lemma {:induction false} SelectedSpec(fs: seq<Field>, tx: Tx, flags: TxFlags)
    ensures forall f :: f in Selected(fs, tx, flags) <==> f in fs && Present(f, tx, flags)
    decreases |fs|
  {
    if fs != [] {
      SelectedSpec(fs[1..], tx, flags);
      forall f ensures f in Selected(fs, tx, flags) <==> f in fs && Present(f, tx, flags) {
        assert f in fs <==> f == fs[0] || f in fs[1..];
      }
    }
  }

  /** The position of a field in the serializer's order. */
  function Rank(f: Field): nat
  {
    match f
    case To => 0
    case From => 1
    case Gas => 2
    case GasPrice => 3
    case Value => 4
    case DataField => 5
  }

  predicate InOrder(fs: seq<Field>)
  {
    forall i, j :: 0 <= i < j < |fs| ==> Rank(fs[i]) < Rank(fs[j])
  }

  /** Selecting keeps the order of the listed fields: from fields in
      serializer order, the present ones come out in that order, each once. */
  lemma {:induction false} SelectedOrdered(fs: seq<Field>, tx: Tx, flags: TxFlags)
    requires InOrder(fs)
    ensures InOrder(Selected(fs, tx, flags))
    decreases |fs|
  {
    if fs != [] {
      var rest := Selected(fs[1..], tx, flags);
      SelectedOrdered(fs[1..], tx, flags);
      SelectedSpec(fs[1..], tx, flags);
      forall g | g in rest
        ensures Rank(fs[0]) < Rank(g)
      {
        var j :| 0 <= j < |fs[1..]| && fs[1..][j] == g;
        assert fs[j + 1] == g;
      }
      OrderedCons(fs[0], Pick(fs[0], tx, flags), rest);
    }
  }

  /** Putting a field, or nothing, in front of an ordered list of later
      fields keeps it ordered. */
  lemma OrderedCons(f: Field, head: seq<Field>, rest: seq<Field>)
    requires head == [] || head == [f]
    requires InOrder(rest) && forall g :: g in rest ==> Rank(f) < Rank(g)
    ensures InOrder(head + rest)
  {
    if head == [f] {
      var sel := head + rest;
      forall i, j | 0 <= i < j < |sel|
        ensures Rank(sel[i]) < Rank(sel[j])
      {
        assert sel[j] == rest[j - 1];
        if i == 0 {
          assert rest[j - 1] in rest;
        } else {
          assert sel[i] == rest[i - 1];
        }
      }
    } else {
      assert head + rest == rest;
    }
  }

  /** The serializer's field order: `to` first and always present, the
      others after it in the order from, gas, gasPrice, value, data. */
  lemma FieldOrder(tx: Tx, flags: TxFlags)
    ensures var sel := Selected(FIELD_ORDER, tx, flags);
      |sel| >= 1 && sel[0] == To && InOrder(sel)
  {
    FieldOrderRanks();
    SelectedOrdered(FIELD_ORDER, tx, flags);
    assert FIELD_ORDER[0] == To && Present(To, tx, flags);
    assert Selected(FIELD_ORDER, tx, flags) == [To] + Selected(FIELD_ORDER[1..], tx, flags);
  }

  /** The field order lists each field at its rank. */
  lemma FieldOrderRanks()
    ensures InOrder(FIELD_ORDER)
  {
    forall i | 0 <= i < |FIELD_ORDER|
      ensures Rank(FIELD_ORDER[i]) == i
    {
    }
  }

  /** The members of the given fields, each preceded by a comma. */
  function CommaMembers(fs: seq<Field>, from: Address, tx: Tx): string
    decreases |fs|
  {
    if fs == [] then [] else ("," + Member(fs[0], from, tx)) + CommaMembers(fs[1..], from, tx)
  }

  lemma Assoc(a: string, b: string, c: string)
    ensures (a + b) + c == a + (b + c)
  {
  }

  lemma {:induction false} MembersHead(f: Field, fs: seq<Field>, from: Address, tx: Tx)
    ensures Members([f] + fs, from, tx) == Member(f, from, tx) + CommaMembers(fs, from, tx)
    decreases |fs|
  {
    if fs != [] {
      var a, b, c := Member(f, from, tx), Member(fs[0], from, tx), CommaMembers(fs[1..], from, tx);
      assert ([f] + fs)[1..] == [fs[0]] + fs[1..];
      MembersHead(fs[0], fs[1..], from, tx);
      Assoc(",", b, c);
    }
  }

  lemma {:induction false} CommaMembersAppend(xs: seq<Field>, ys: seq<Field>, from: Address, tx: Tx)
    ensures CommaMembers(xs + ys, from, tx) == CommaMembers(xs, from, tx) + CommaMembers(ys, from, tx)
    decreases |xs|
  {
    if xs == [] {
      assert xs + ys == ys;
    } else {
      assert (xs + ys)[0] == xs[0];
      assert (xs + ys)[1..] == xs[1..] + ys;
      CommaMembersAppend(xs[1..], ys, from, tx);
      Assoc("," + Member(xs[0], from, tx), CommaMembers(xs[1..], from, tx), CommaMembers(ys, from, tx));
    }
  }

  lemma SelectedCons(f: Field, fs: seq<Field>, tx: Tx, flags: TxFlags)
    ensures Selected([f] + fs, tx, flags) == Pick(f, tx, flags) + Selected(fs, tx, flags)
  {
    assert ([f] + fs)[1..] == fs;
  }

  lemma TwoPieces(t: string, v: Piece)
    ensures RenderAll([Text(t), v]) == t + Render(v)
  {
    var ps := [Text(t), v];
    assert ps[1..] == [v];
    assert RenderAll([v]) == Render(v) + RenderAll([]) by {
      assert [v][1..] == [];
    }
  }

  lemma ThreePieces(a: string, k: string, v: Piece)
    ensures RenderAll([Text(a), Text(k), v]) == a + (k + Render(v))
  {
    var ps := [Text(a), Text(k), v];
    assert ps[1..] == [Text(k), v];
    TwoPieces(k, v);
  }

  /** One optional member as the serializer writes it: the comma and key, then
      the value, only when the field is present. */
  lemma OptionalMember(f: Field, from: Address, tx: Tx, flags: TxFlags)
    ensures RenderAll(Optional(f, from, tx, flags)) == CommaMembers(Pick(f, tx, flags), from, tx)
  {
    if Present(f, tx, flags) {
      TwoPieces("," + Key(f), ValuePiece(f, from, tx));
      assert [f][1..] == [];
      Assoc(",", Key(f), FieldValue(f, from, tx));
      assert CommaMembers([f], from, tx) == ("," + Member(f, from, tx)) + [];
    }
  }

  /** The optional members, each preceded by a comma, in field order. */
  function OptionalText(from: Address, tx: Tx, flags: TxFlags): string
  {
    CommaMembers(Pick(From, tx, flags), from, tx)
    + (CommaMembers(Pick(Gas, tx, flags), from, tx)
    + (CommaMembers(Pick(GasPrice, tx, flags), from, tx)
    + (CommaMembers(Pick(Value, tx, flags), from, tx)
    + CommaMembers(Pick(DataField, tx, flags), from, tx))))
  }

  lemma Regroup(a: string, c1: string, c2: string, c3: string, c4: string, c5: string, z: string)
    ensures a + (c1 + (c2 + (c3 + (c4 + (c5 + z))))) == (a + (c1 + (c2 + (c3 + (c4 + c5))))) + z
  {
  }

  lemma RenderSeven(h: seq<Piece>, o1: seq<Piece>, o2: seq<Piece>, o3: seq<Piece>, o4: seq<Piece>, o5: seq<Piece>, t: seq<Piece>)
    ensures RenderAll(h + (o1 + (o2 + (o3 + (o4 + (o5 + t))))))
      == RenderAll(h) + (RenderAll(o1) + (RenderAll(o2) + (RenderAll(o3) + (RenderAll(o4) + (RenderAll(o5) + RenderAll(t))))))
  {
    RenderAllAppend(h, o1 + (o2 + (o3 + (o4 + (o5 + t)))));
    RenderAllAppend(o1, o2 + (o3 + (o4 + (o5 + t))));
    RenderAllAppend(o2, o3 + (o4 + (o5 + t)));
    RenderAllAppend(o3, o4 + (o5 + t));
    RenderAllAppend(o4, o5 + t);
    RenderAllAppend(o5, t);
  }

  lemma TxParamPieces(from: Address, tx: Tx, flags: TxFlags)
    ensures RenderAll(TxParam(from, tx, flags))
      == ("{" + Member(To, from, tx) + OptionalText(from, tx, flags)) + ("}" + LATEST)
  {
    var head: seq<Piece> := [Text("{"), Text(Key(To)), Addr(tx.to)];
    var tail: seq<Piece> := [Text("}"), Text(LATEST)];
    var o1, o2, o3, o4, o5 :=
      Optional(From, from, tx, flags), Optional(Gas, from, tx, flags), Optional(GasPrice, from, tx, flags),
      Optional(Value, from, tx, flags), Optional(DataField, from, tx, flags);
    RenderSeven(head, o1, o2, o3, o4, o5, tail);
    OptionalMember(From, from, tx, flags);
    OptionalMember(Gas, from, tx, flags);
    OptionalMember(GasPrice, from, tx, flags);
    OptionalMember(Value, from, tx, flags);
    OptionalMember(DataField, from, tx, flags);
    OpenAndTo(from, tx);
    TwoPieces("}", Text(LATEST));
    assert TxParam(from, tx, flags) == head + (o1 + (o2 + (o3 + (o4 + (o5 + tail)))));
    assert RenderAll(TxParam(from, tx, flags)) == RenderAll(head + (o1 + (o2 + (o3 + (o4 + (o5 + tail))))));
    assert RenderAll(TxParam(from, tx, flags)) == RenderAll(head) + (RenderAll(o1) + (RenderAll(o2) + (RenderAll(o3) + (RenderAll(o4) + (RenderAll(o5) + RenderAll(tail))))));
    Assemble(RenderAll(TxParam(from, tx, flags)), RenderAll(head),
      RenderAll(o1), RenderAll(o2), RenderAll(o3), RenderAll(o4), RenderAll(o5), RenderAll(tail),
      Member(To, from, tx),
      CommaMembers(Pick(From, tx, flags), from, tx), CommaMembers(Pick(Gas, tx, flags), from, tx),
      CommaMembers(Pick(GasPrice, tx, flags), from, tx), CommaMembers(Pick(Value, tx, flags), from, tx),
      CommaMembers(Pick(DataField, tx, flags), from, tx));
  }

  lemma OpenAndTo(from: Address, tx: Tx)
    ensures RenderAll([Text("{"), Text(Key(To)), Addr(tx.to)]) == "{" + Member(To, from, tx)
  {
    ThreePieces("{", Key(To), Addr(tx.to));
  }

  lemma Assemble(total: string, rh: string, r1: string, r2: string, r3: string, r4: string, r5: string, rt: string,
                 m: string, c1: string, c2: string, c3: string, c4: string, c5: string)
    requires total == rh + (r1 + (r2 + (r3 + (r4 + (r5 + rt)))))
    requires rh == "{" + m && rt == "}" + LATEST
    requires r1 == c1 && r2 == c2 && r3 == c3 && r4 == c4 && r5 == c5
    ensures total == ("{" + m + (c1 + (c2 + (c3 + (c4 + c5))))) + ("}" + LATEST)
  {
    Regroup("{" + m, c1, c2, c3, c4, c5, "}" + LATEST);
  }

  lemma TxObjectParts(from: Address, tx: Tx, flags: TxFlags)
    ensures TxObject(from, tx, flags) == "{" + (Member(To, from, tx) + OptionalText(from, tx, flags)) + "}"
  {
    var p1, p2, p3, p4, p5 :=
      Pick(From, tx, flags), Pick(Gas, tx, flags), Pick(GasPrice, tx, flags),
      Pick(Value, tx, flags), Pick(DataField, tx, flags);
    var rest := p1 + (p2 + (p3 + (p4 + p5)));
    assert FIELD_ORDER == [To] + ([From] + ([Gas] + ([GasPrice] + ([Value] + ([DataField] + [])))));
    SelectedCons(DataField, [], tx, flags);
    SelectedCons(Value, [DataField] + [], tx, flags);
    SelectedCons(GasPrice, [Value] + ([DataField] + []), tx, flags);
    SelectedCons(Gas, [GasPrice] + ([Value] + ([DataField] + [])), tx, flags);
    SelectedCons(From, [Gas] + ([GasPrice] + ([Value] + ([DataField] + []))), tx, flags);
    SelectedCons(To, [From] + ([Gas] + ([GasPrice] + ([Value] + ([DataField] + [])))), tx, flags);
    assert p5 + [] == p5;
    assert Selected(FIELD_ORDER, tx, flags) == [To] + rest;
    MembersHead(To, rest, from, tx);
    CommaMembersAppend(p1, p2 + (p3 + (p4 + p5)), from, tx);
    CommaMembersAppend(p2, p3 + (p4 + p5), from, tx);
    CommaMembersAppend(p3, p4 + p5, from, tx);
    CommaMembersAppend(p4, p5, from, tx);
  }

  /** The serializer writes exactly the reference object: `{`, the present
      members in field order separated by commas, `}`, then `,"latest"`. */
  lemma TxParamText(from: Address, tx: Tx, flags: TxFlags)
    ensures RenderAll(TxParam(from, tx, flags)) == TxObject(from, tx, flags) + LATEST
  {
    TxParamPieces(from, tx, flags);
    TxObjectParts(from, tx, flags);
    Regroup2("{", Member(To, from, tx), OptionalText(from, tx, flags), "}", LATEST);
  }

  lemma Regroup2(a: string, b: string, c: string, d: string, e: string)
    ensures (a + b + c) + (d + e) == (a + (b + c) + d) + e
  {
  }
}
