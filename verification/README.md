# web3 request builder and unit converter, in Dafny

This project models `eth/web3.c` of the anyledger wallet. That file holds three things:
- the bounded JSON-RPC writer, which appends into a caller-owned, fixed-size character array behind a cursor `buf_used`;
- the typed encoders and the seven `eth_*` request builders built on the writer;
- `eth_convert`, which renders a 256-bit token amount in another Ether unit as fixed-point decimal text.

The files:
- `numerals.dfy`: digit strings. Rendering a number in base 10 or 16, the two-digits-per-byte hex of a blob, the parsers that invert both, and zero padding.
- `primitives.dfy`: the external primitives the file calls. These are `bintohex_nonull`, `tostring256` and `strlen`. Each is written as a function over a character array and an offset.
- `writer.dfy`: `__web3_printbuf` and `__web3_resetbuf` over `Buffer(mem, used)`. Here `|mem|` is `buf_size`.
- `encoders.dfy`: `__web3_printhex`, `__web3_printdata`, `__web3_printaddr` and `__web3_printuint256`. It also has `Piece`, one writer call of a builder, and the text each piece contributes.
- `requests.dfy`: `web3_init`, the preamble and terminator envelope, `__web3_printtxparam` and the seven builders. It also gives an independent description of the transaction object, as a field order plus a presence rule per field.
- `convert.dfy`: `eth_convert`, split into its stages, and `FixedText`, the text it is meant to produce.

Every writer-level member takes a `Policy`:
- `AsWritten` is the capacity check at line 28 (`size >= buf_size`).
- `Remaining` is the corrected check (`size >= buf_size - buf_used`).

`eth_convert` likewise takes a `DotCheck`:
- `SizeOnly` is the guard at line 268 (`len == buf_size`).
- `RoomForDot` is the corrected guard (`len + 1 >= buf_size`).

Separate lemmas prove that the version as written agrees with the corrected one whenever the corrected one succeeds: `Writer.PrintBufPolicies` and `Requests.EmitPolicies` for the capacity check, `Convert.ScaleDownGuards` and `Convert.DotChecks` for the dot guard. The encoder lemmas (`Encoders.PrintDataSpec` and its siblings, `Encoders.ExecSpec`) state that agreement as one of their own clauses. Where the two versions differ is recorded under "## Findings".

When a write would land past the end of the array, the model returns a separate outcome instead of indexing out of range:
- `Fault` in the writer: `buf_used > buf_size`, so `buf_size - buf_used` wraps in `size_t`.
- `OutOfBounds` in the converter: the NUL at `buf[len + 1]`.

Where the code and its description disagree, the model follows the code:
- `eth_convert` does not trim the fraction. 1.5·10^18 wei in ether is `1.500000000000000000`, not `1.5`; see `Convert.OneAndAHalf`.
- The comments above the builders (lines 156, 174, 185) show the `id` member last. The code writes it second, before `method`.
- The comment at line 185 names `eth_blockNumber` for `eth_sendRawTransaction`. The method name actually written is the C function's own name (`__func__`).

## Model

| member | source | states |
|---|---|---|
| Numerals.ToBase | eth/web3.c:84 | the base-N rendering `tostring256` produces: at least one digit, only digits of the base, no leading zero |
| Numerals.ParseToBase | eth/web3.c:84 | reading a rendering back gives the number rendered |
| Numerals.DigitCountBound | eth/web3.c:278 | a number has at most `k` digits exactly when it is below base^k, so the remainder never has more digits than the unit difference |
| Numerals.ToBaseShift | eth/web3.c:247-252 | rendering a nonzero n·base^k gives n's digits followed by k zeros |
| Numerals.ParseZeroPad | eth/web3.c:280-291 | left zero padding does not change the value read back |
| Numerals.BytesHexRoundTrip | eth/web3.c:49-53 | the hex of a blob is a hex digit string that decodes back to the blob |
| Primitives.BinToHex | eth/web3.c:49-53 | the assumed `bintohex_nonull`: two digits per byte and no NUL when they fit in the room; otherwise -1 and nothing stored |
| Primitives.ToString256 | eth/web3.c:84-86 | the assumed `tostring256`: digits and a NUL stored exactly when both fit in the room, otherwise failure with nothing stored |
| Primitives.StrLen | eth/web3.c:87 | `strlen` stops at the first NUL and never reads past the array |
| Primitives.StrLenAfterStore | eth/web3.c:84-87 | right after a digit string and its NUL are stored, `strlen` there is the digit count |
| Primitives.OverwriteTwice | eth/web3.c:270-291 | two overlapping stores are one store of the combined text |
| Writer.Reset | eth/web3.c:127-134 | every byte zero, cursor at 0, capacity unchanged |
| Writer.Vsnprintf | eth/web3.c:26 | keeps the array length; specified through `Writer.PrintBuf` and `Writer.PrintBufAppends` |
| Writer.PrintBuf | eth/web3.c:22-34 | success advances the cursor by exactly the text length and failure leaves it; the iff conditions of both checks; a write with the cursor past the capacity faults |
| Writer.PrintBufAppends | eth/web3.c:22-34 | under the corrected check a successful append stores exactly the text after the previous content and keeps the rest zero |
| Writer.PrintBufPolicies | eth/web3.c:28-31 | whenever the corrected check accepts, the check as written accepts with the same effect |
| Writer.PrintBufOverruns | eth/web3.c:26-31 | the check as written accepts a text that does not fit in the room left, leaving the cursor at or past the capacity |
| Writer.PrintBufOverrunExample | eth/web3.c:26-31 | capacity 4, cursor 3, append `xy`: reported success, cursor 5, nothing stored |
| Encoders.PrintHex | eth/web3.c:37-40 | no contract of its own; specified by `Encoders.ExecSpec` (`HexWord`) |
| Encoders.PrintData | eth/web3.c:43-60 | no contract of its own; specified by `Encoders.PrintDataSpec` |
| Encoders.PrintAddr | eth/web3.c:62-78 | no contract of its own; specified by `Encoders.PrintAddrSpec` |
| Encoders.PrintUint256 | eth/web3.c:80-93 | no contract of its own; specified by `Encoders.PrintUint256Spec` |
| Encoders.HexStep | eth/web3.c:49-54 | faults exactly when the cursor is past the capacity; specified by `Encoders.HexStepSpec` |
| Encoders.DigitsStep | eth/web3.c:84-87 | faults exactly when the cursor is past the capacity; specified by `Encoders.DigitsStepSpec` |
| Encoders.PrintHexAsWritten | eth/web3.c:37-40 | `%x` given a `uint64_t`: only the low 32 bits are printed; no contract of its own |
| Encoders.PrintHexTruncates | eth/web3.c:39 | the text `%x` writes reads back as the value modulo 2^32, and equals the value's own hex exactly when the value is below 2^32 |
| Encoders.PrintHexGasPriceExample | eth/web3.c:39 | a 20 gwei gas price, 0x4a817c800, is written as `a817c800` |
| Encoders.HexStepSpec | eth/web3.c:49-54 | the hex step succeeds exactly when two digits per byte fit, and then appends them |
| Encoders.DigitsStepSpec | eth/web3.c:84-87 | the base-16 step succeeds exactly when the digits and a NUL fit, and then appends the digits |
| Encoders.PrintDataSpec | eth/web3.c:43-60 | a blob is written as `"0x` + two hex digits per byte + `"` exactly when that fits before the last byte; the check as written agrees on success |
| Encoders.PrintAddrSpec | eth/web3.c:62-78 | an address is written as its 44-character quoted hex exactly when that fits; the check as written agrees on success |
| Encoders.PrintUint256Spec | eth/web3.c:80-93 | a 256-bit value is written as its quoted base-16 digits exactly when they fit; the check as written agrees on success |
| Encoders.ExecSpec | eth/web3.c:37-93 | under the corrected check (`Remaining`), each writer call, including `__web3_printhex`, appends exactly its text when it fits before the last byte and is refused otherwise; the check as written agrees on success |
| Requests.Init | eth/web3.c:136-142 | request id 0, capacity kept, empty zeroed buffer |
| Requests.IntDecimal | eth/web3.c:19 | `%d` of the id: non-empty, with a leading minus exactly for a negative id |
| Requests.IntDecimalValue | eth/web3.c:19 | `%d` of the id: after the optional minus, at least one decimal digit, reading back as the id's magnitude |
| Requests.HeaderLength | eth/web3.c:19 | the header is exactly its 45 characters of fixed text plus the id's `%d` text plus the method name |
| Requests.Header | eth/web3.c:19 | no contract of its own; its length is `Requests.HeaderLength` |
| Requests.Emit | eth/web3.c:144-153 | no contract of its own; specified by `Requests.EmitSpec` and `Requests.EmitPolicies` |
| Requests.Request | eth/web3.c:144-153 | a build never changes the request id |
| Requests.EmitSpec | eth/web3.c:144-153 | under the corrected check (`Remaining`), a chain of writes that stops at the first failure succeeds exactly when the whole text fits before the last byte, and then appends the whole text; agreement of the check as written is `Requests.EmitPolicies` |
| Requests.EmitPolicies | eth/web3.c:28-31 | for a whole chain of writes, the check as written agrees with the corrected one whenever that succeeds |
| Requests.RequestSpec | eth/web3.c:144-153 | under the corrected check (`Remaining`), reset, header, parameters, terminator: built exactly when the envelope fits, and then the buffer holds exactly the envelope; the check as written agrees on success |
| Requests.NoLeakage | eth/web3.c:144-148 | the reply does not depend on what the buffer held before the call |
| Requests.GetTransactionCount | eth/web3.c:158-171 | precondition only (positive capacity); specified by `Requests.GetTransactionCountSpec` |
| Requests.BlockNumber | eth/web3.c:176-182 | precondition only; specified by `Requests.BlockNumberSpec` |
| Requests.SendRawTransaction | eth/web3.c:187-197 | precondition only; specified by `Requests.SendRawTransactionSpec` |
| Requests.GetBalance | eth/web3.c:199-212 | precondition only; specified by `Requests.GetBalanceSpec` |
| Requests.Call | eth/web3.c:214-220 | precondition only; specified by `Requests.CallSpec` |
| Requests.EstimateGas | eth/web3.c:222-228 | precondition only; specified by `Requests.EstimateGasSpec` |
| Requests.GetTransactionReceipt | eth/web3.c:230-238 | precondition only; specified by `Requests.GetTransactionReceiptSpec` |
| Requests.GetTransactionCountSpec | eth/web3.c:158-171 | under the corrected check (`Remaining`), header, quoted address, `,"latest"`, `]}`, built exactly when they fit; the check as written agrees on success |
| Requests.BlockNumberSpec | eth/web3.c:176-182 | under the corrected check (`Remaining`), header and `]}` only, built exactly when they fit; the check as written agrees on success |
| Requests.SendRawTransactionSpec | eth/web3.c:187-197 | under the corrected check (`Remaining`), header, the quoted hex of the raw transaction, `]}`, built exactly when they fit; the check as written agrees on success |
| Requests.GetBalanceSpec | eth/web3.c:199-212 | under the corrected check (`Remaining`), the eth_getTransactionCount parameters under the method name `eth_getBalance`, built exactly when they fit; the check as written agrees on success |
| Requests.CallSpec | eth/web3.c:214-220 | under the corrected check (`Remaining`), built exactly when it fits, and then the request holds the reference transaction object for the given flags followed by `,"latest"`; the check as written agrees on success |
| Requests.EstimateGasSpec | eth/web3.c:222-228 | under the corrected check (`Remaining`), as eth_call with no flag bits set; the check as written agrees on success |
| Requests.GetTransactionReceiptSpec | eth/web3.c:230-238 | under the corrected check (`Remaining`), header, the 64 quoted hex digits of the hash, `]}`, built exactly when they fit; the check as written agrees on success |
| Requests.BlockNumberOverrun | eth/web3.c:176-182 | with an array one byte longer than the header, the check as written reports success with the cursor one past the end; the corrected check refuses |
| Requests.FieldValueDecodes | eth/web3.c:97-118 | each member value is a quoted `0x` hex string whose digits decode back to the field: 40 digits giving the address bytes for `to` and `from`, the blob's bytes for `data`, and the number itself for `gas`, `gasPrice` and `value` |
| Requests.TxParam | eth/web3.c:95-125 | no contract of its own; specified by `Requests.TxParamText` |
| Requests.TxObject | eth/web3.c:95-125 | the reference object the serializer is checked against; no contract of its own, its shape is given by `Requests.SelectedSpec` and `Requests.FieldOrder` |
| Requests.TxParamText | eth/web3.c:95-125 | the serializer's writes render to the reference object (the present members in field order, comma separated, in braces) followed by `,"latest"` |
| Requests.SelectedSpec | eth/web3.c:100-119 | a field is in the object exactly when it is present: `to` always, the others when their flag bit is clear, `data` only for a non-empty blob |
| Requests.SelectedOrdered | eth/web3.c:97-119 | present fields keep the serializer's order, each once |
| Requests.FieldOrder | eth/web3.c:97-119 | `to` comes first and the object lists fields in the order to, from, gas, gasPrice, value, data |
| Requests.NoFlagsFields | eth/web3.c:222-228 | with no flag bits every field but data is written, and data exactly for a non-empty blob |
| Convert.Mul256 | eth/web3.c:249 | `mul256`: the product whenever it fits in 256 bits; past that, wrapping modulo 2^256 is an assumption of this model |
| Convert.QuotientBounds | eth/web3.c:258 | `divmod256`: quotient and remainder are at most the amount, the remainder is below the divisor, and they recombine to the amount |
| Convert.Convert | eth/web3.c:240-298 | except for an out-of-bounds write, the array keeps its length |
| Convert.ScaleUp | eth/web3.c:247-252 | never out of bounds and keeps the array length; specified by `Convert.ConvertSpec` |
| Convert.ScaleDown | eth/web3.c:253-265 | keeps the array length except on an out-of-bounds write; specified by `Convert.ScaleDownSpec` |
| Convert.Dot | eth/web3.c:266-272 | keeps the array length except on an out-of-bounds write; specified by `Convert.DotGuards` |
| Convert.Fraction | eth/web3.c:270-275 | never out of bounds and keeps the array length; specified by `Convert.FractionSpec` |
| Convert.Remainder | eth/web3.c:273-279 | never out of bounds and keeps the array length; specified by `Convert.RemainderStore` and `Convert.RemainderSpec` |
| Convert.Shifted | eth/web3.c:277-279 | never out of bounds and keeps the array length; specified by `Convert.ShiftAfterStore` |
| Convert.Padded | eth/web3.c:279-292 | never out of bounds and keeps the array length; specified by `Convert.PaddedSpec` |
| Convert.FixedText | eth/web3.c:240-298 | the text the conversion is meant to produce; no contract of its own, described by `Convert.FixedTextScaled` and `Convert.FixedTextFraction` |
| Convert.QuotientText | eth/web3.c:253-295 | no contract of its own; described by `Convert.WholeQuotientValue` and `Convert.FractionQuotientValue` |
| Convert.IntegerPart | eth/web3.c:259-267 | the integer part and its NUL are stored at the start, and `strlen` reads back its digit count |
| Convert.PaddedSpec | eth/web3.c:279-292 | the zero fill succeeds exactly when the dot, k places and the NUL fit, and then the places are the zero-padded remainder |
| Convert.RemainderStore | eth/web3.c:274-279 | the remainder's digits are refused when they and their NUL do not fit; otherwise they are stored, and the zero fill follows exactly when they are fewer than k |
| Convert.ShiftAfterStore | eth/web3.c:278-279 | the shift read back with `strlen` after the remainder is stored is k minus its digit count |
| Convert.RemainderSpec | eth/web3.c:274-292 | the remainder after the dot gives exactly k places when they fit and fails otherwise |
| Convert.FractionSpec | eth/web3.c:270-292 | dot then fraction: succeeds exactly when integer part, dot, k places and NUL fit, and then the array holds exactly them |
| Convert.ScaleDownSpec | eth/web3.c:253-295 | converting to a larger unit with the corrected guard never writes out of bounds, and succeeds exactly when the fixed-point text fits |
| Convert.ConvertDownSpec | eth/web3.c:253-295 | as ScaleDownSpec, stated on the amount and the two units |
| Convert.ConvertSpec | eth/web3.c:240-298 | with the corrected guard: no out-of-bounds write; converted exactly when the fixed-point text and its NUL fit; then the array starts with exactly that text |
| Convert.DotGuards | eth/web3.c:266-272 | after an integer part, the guard as written lets the write past the end through exactly when the integer part fills all but the last byte; otherwise both guards agree |
| Convert.ScaleDownGuards | eth/web3.c:258-272 | the same on the quotient and remainder |
| Convert.DotChecks | eth/web3.c:266-272 | the guard as written writes out of bounds exactly when the remainder is nonzero and the integer part's digits are one fewer than the array size; otherwise it behaves as the corrected one |
| Convert.DotOverrunExample | eth/web3.c:266-272 | amount 5, unit difference 1, a two-byte array: out of bounds as written, refused when corrected, and `0.5` is the intended text |
| Convert.WholeQuotientValue | eth/web3.c:262-265 | with no remainder the text is the quotient's digits, with no dot, reading back as the quotient |
| Convert.FractionQuotientValue | eth/web3.c:266-292 | with a remainder the text has a dot, exactly k digits after the only dot, and with the dot removed reads back as q·10^k + r |
| Convert.FixedTextFraction | eth/web3.c:253-295 | converting to a larger unit: a dot exactly when a remainder is left, k places after it, and the digits read back as the amount |
| Convert.FixedTextScaled | eth/web3.c:246-252 | converting to a smaller unit: a digit string worth amount·10^k, which is the amount's digits and k zeros |
| Convert.OneAndAHalf | eth/web3.c:253-295 | 1.5 of the larger unit is `1.5` followed by k-1 zeros, with no trimming |
| Convert.WholeUnits | eth/web3.c:262-265 | a whole number of the larger unit is just that number, with no dot |

## Left out

- The formatting of `vsnprintf` and the varargs plumbing: each append receives the text the format would produce. What `vsnprintf` stores, truncation included, is modelled.
- `bintohex_nonull` (helpers/hextobin.h), `tostring256`, `strlen`, `mul256`, `set256_uint64`, `divmod256` and `gt256` are not part of this model, and their behaviour is assumed:
  - `bintohex_nonull`, `tostring256` and `strlen` are the functions in `primitives.dfy`: lower-case hex, high nibble first, `0` for zero, nothing stored on failure;
  - `mul256` is `Convert.Mul256`, the product modulo 2^256 (the wrap past 2^256 is this model's assumption);
  - `set256_uint64` is the exact value, since the power of ten is below 2^64;
  - `divmod256` is Dafny's Euclidean `/` and `%` in `Convert.Convert`;
  - `gt256(retMod, zero)` is the test `r != 0` in `Convert.ScaleDown`.
- web3.h is not part of this model:
  - the `TX_NO_*` flag bits are five booleans;
  - `req_id` is an `int` printed with `%d`;
  - an `ETH_UNIT` value is taken to be the unit's decimal exponent, as `pow(10, from - to)` implies, and is a `nat` in the model;
  - `address_t` is 20 bytes and `tx_hash_t` is 32 bytes.
- `pow` is computed as a `double` in the source. The model uses the exact power of ten and requires a unit difference of at most 19 (`Convert.Representable`), where the double is exact and fits 64 bits.
- The `mul256` result computed and never used in the scale-down branch (line 256) is omitted.
- The pointer `assert`s are not modelled: there are no null pointers in the model. The positive-capacity assertion of `__web3_resetbuf` is a precondition of `Reset`, `Init` and the builders.
- ConvertSpec: scaling up assumes amount·10^(from−to) < 2^256. Beyond that, `Convert` renders whatever `Convert.Mul256` gives; that the library wraps is an assumption, and no lemma describes that text.
- PrintHex: prints all 64 bits of the value, the evidently intended text. As written, `%x` receives a `uint64_t`; that is undefined behaviour in C, and on common targets only the low 32 bits are printed. The as-written text is `Encoders.PrintHexAsWritten`, recorded under "## Findings"; the builders use the full-width version.
- SelectedSpec: states membership only. Order is stated separately by `Requests.SelectedOrdered`.
- The `int` cast of `shift` at line 278 is modelled as exact arithmetic. `strlen` there is at most the unit difference, so the cast never changes the value.
- Sending the request, reading the reply and concurrent use of one context are outside this file.

## Findings

| source | as written | input that shows it | evidently intended | confidence | as-written member | corrected member |
|---|---|---|---|---|---|---|
| eth/web3.c:28 | an append is refused only when its length reaches the whole `buf_size`, not the room left after `buf_used` | `eth_blockNumber` with `buf_size` one more than the header: `"]}"` is accepted and `buf_used` ends at `buf_size + 1`; a later append then computes `buf_size - buf_used` in `size_t`, which wraps | `size >= buf_size - buf_used` | not executed; high | Writer.PrintBufOverruns, Writer.PrintBufOverrunExample, Requests.BlockNumberOverrun | Writer.PrintBufAppends, Requests.RequestSpec |
| eth/web3.c:268-272 | the dot guard tests `len == buf_size`, which cannot hold after `tostring256` succeeded, and then `buf[len + 1]` is written | amount 5, `to - from` = 1, `buf_size` 2: the buffer holds `0` and its NUL, and the NUL after the dot is stored at `buf[2]` | `len + 1 >= buf_size` | not executed; high | Convert.DotChecks, Convert.DotOverrunExample | Convert.ConvertSpec |
| eth/web3.c:39 | `"0x%x"` is given a `uint64_t` argument; `%x` expects an `unsigned int`, so on LP64 and 32-bit ARM targets only the low 32 bits are printed | a gas price of 20 gwei, 0x4a817c800: the request carries `"0xa817c800"` | all 64 bits, e.g. with `PRIx64` | not executed; medium (undefined behaviour, so the text depends on the target) | Encoders.PrintHexAsWritten, Encoders.PrintHexTruncates, Encoders.PrintHexGasPriceExample | Encoders.PrintHex, Encoders.ExecSpec |
