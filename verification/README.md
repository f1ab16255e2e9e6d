# sonic-cpp: proofs of its fast paths

sonic-cpp is a JSON engine made of fast forms: goto machines, bit-parallel scanners, buffers rewritten in
place, cached bitmaps, fixed-width arithmetic.  Each of them has a simple meaning.  This project writes the
fast forms down in Dafny, as loops over arrays and classes with the fields of the original, gives the simple
meanings as functions, and proves that they agree on every input, or says on which they do not.

**Sizes.**  Parsing and skipping are stated for texts of fewer than 2^31 - 2^17 and 2^31 bytes: the original
counts decimal exponents and brackets in `int`s, and up to there the methods, with the same variables confined
to 32 bits, are proved never to overflow them.  The conversion of a literal and the serializer, where longer
inputs go wrong without undefined behaviour, are modelled beyond: see below.

**Numbers.**  `ParseNumber` scans a literal into an integer, or a mantissa of 19 digits and a power of ten.
`ToDouble` tries the four conversions in the order of the parser: one exact floating-point operation, two
table-driven products (`ParseFloatingNormalFast`, `AtofEiselLemire64`) and the 800-digit `Decimal`.  `Tables`
says which literals each of the first three decides.  All four meet one specification, `Binary64.Nearest`: the double closest to the exact value, ties to even (section 4.3.1
of IEEE 754-2019).  The decimal path is right also when digits are cut off on the way: `Truncation` shows that
a cut to 800 places never crosses a point halfway between two doubles, so the sticky `trunc` flag decides
every rounding.

**Parsing.**  `Json` is the grammar of RFC 8259, sections 2 to 7, as syntax trees; `Reference` reads it by
recursive descent and is proved sound and complete; `Continuation` cuts that reading open at any point, so
that a state of the goto machine can mean a document.  `Parser` is the machine itself with its `depth` vector,
driving the flat node stack of `Handler` and decoding strings in place.  No step checks a length: `Sentinel`
shows that the end mark `x"x` stops every reading.

**Skipping.**  `StringMask` and `SkipContainer` relate the 64-bit masks carried from block to block to an
automaton over single bytes; `Balance` shows that counting one kind of bracket finds the matching one;
`SkipSpace` keeps a cached bitmap right while the bytes behind it are rewritten.  `OnDemand` is the query by
path over these, and `OnDemandLookup` compares it with the lookup in the document.

**Printing.**  `Serializer` is the goto machine of the printer with its explicit stack, proved equal to the
recursive `Printer`; `Quote`, `QuoteWriter` and `Itoa` write strings and integers; `Spelling` and `Characters`
say what escapes and UTF-8 are without them; `RoundTrip` and
`DumpAndParse` show that parsing the printed text gives the tree back.

**Structures.**  `ObjectNode` is the member array with its optional multimap, `MemoryPool` the bump allocator.

## Where the code falls short of its promise

- An unset `trunc` does not mean an exact mantissa: in 20 or more integer digits directly followed by an
  exponent nothing reports the digits after the nineteenth (`NumberValue.TruncIsNotHonest`).
  `NumberValue.TruncExact` says exactly when the mantissa is exact.
- A literal of zeros only, with more than 22 of them behind the point and no exponent, reaches the table-driven
  conversions with mantissa zero, where a leading-zero count is undefined (`NumberValue.ZeroMantissa`).
- The decimal path puts the point of an integer part of more than 800 digits behind the 800th
  (`DecimalText.SlowMagnitudeExact`): a one, 899 zeros and e-590 is 10^309 and out of range, but is read as 10^209
  without an error (`NumberLimits.LongInteger`).  That it also stops an exponent at five digits makes no
  difference up to 9000 fraction digits (`FarExponent.ReadIsEnough`).
- The decimal path is told the rest of the text as an `int`.  With 2^31 bytes or more from the literal on that is
  negative and the path reads zero: `[5e-324`, 2^31 blanks and `]` gives 0.0 without an error
  (`NumberLimits.LateTiny`), and so does every literal whose double is subnormal or infinite, if and only if it
  stands so far from the end (`NumberLimits.BeyondExact`).
- The serializer keeps the values still to be printed of an interrupted object in 31 bits.  An object that is left
  for a nonempty child with 2^31 or more keys and values to go loses the last 2^31 of them, without an error: of
  2^30 + 1 members, the first with the value [null], only the first is printed (`CutObjects.WideIsCut`).  The text
  is right if and only if no object is left like that (`CutObjects.CutExact`).
- `SkipContainer` counts brackets in `int`s: after 2^31 opening ones, in a text of more than 2 GiB, the sum
  overflows, which is undefined; such texts are excluded.
- On demand, an index above zero into an empty array is answered from what follows the array
  (`OnDemandLookup.StrayIsFound`, `OnDemandLookup.EmptyArrayIndex`); on every other path the query finds a value
  exactly when the lookup does (`OnDemandLookup.LookupExact`).

## Model

| member | source | states |
|---|---|---|
| Pow10Table.MulU64 | include/sonic/internal/atof_native.h:775-794 | The 32-bit limb products and carries add up to the exact 128-bit product. |
| Pow10Table.TableBracket | include/sonic/internal/atof_native.h:44-50 | The 128-bit entry of 10^e, rounded down, brackets the scaled power within one unit and has its top bit set. |
| Pow10Table.Log2TenExact | include/sonic/internal/atof_native.h:808-810 | The shift formula for log2(10) puts 10^e in its own binade over the whole table. |
| EiselLemire.AtofEiselLemire64 | include/sonic/internal/atof_native.h:799-882 | Succeeds on a nonzero mantissa exactly when the exponent is in the table, the 54 bits are certain and no tie, and the value rounds to a normal double; then the bits are those of the nearest double with its sign. |
| EiselLemire.UndecidedIsNear | include/sonic/internal/atof_native.h:812-852 | The bits are uncertain or a tie only when a multiple of 2^137 is not above the upper product and less than 2^128 below the lower one. |
| EiselLemire.ApproximateProduct | include/sonic/internal/atof_native.h:812-845 | The two leading words bracket the exact product below by themselves and above within the bits to be dropped, or the method declines. |
| EiselLemire.RoundKept | include/sonic/internal/atof_native.h:846-862 | Rounding the 54 kept bits is rounding the exact value, once the undecidable tie has been refused. |
| EiselLemire.RoundAndPack | include/sonic/internal/atof_native.h:855-881 | With wrapping 64-bit exponents, the final range test rejects subnormals, infinities and wrapped negatives alike; what is left is the packed rounded pattern. |
| NormalFast.ParseFloatingNormalFast | include/sonic/internal/parse_number_normal_fast.h:26-93 | In the exponent range of its caller, succeeds exactly when the low bits of the two products are not in doubt; then the bits are those of the nearest double, which is normal. |
| NormalFast.DoubtIsNear | include/sonic/internal/parse_number_normal_fast.h:45-58 | They are in doubt only within 2^128 + 2^64 of a multiple of 2^137. |
| FloatingFast.ParseFloatingFast | include/sonic/dom/parser.h:172-192 | One or two floating-point operations with exact operands give the nearest double, zero or normal; they succeed exactly up to 10^22 or when the first product is at most 10^15. |
| LeftShift.ShiftedRange | include/sonic/internal/atof_native.h:903-983 | Comparing with the digits of 5^k predicts how many digits a shift by k adds. |
| LeftShift.DeltaPlusCutoff | include/sonic/internal/atof_native.h:921-983 | The two columns of the table, digit count of 2^k and digits of 5^k, belong together. |
| Decimals.Decimal.PrefixIsLess | include/sonic/internal/atof_native.h:1122-1134 | Decides whether the decimal's fraction is less than the cutoff. |
| Decimals.Decimal.LeftShift | include/sonic/internal/atof_native.h:1136-1185 | The result is the exact product with 2^k cut to 800 places, trunc is newly set exactly when that loses something, the write index ends at zero and the point moves by at most k. |
| RightShift.MultipleStep | include/sonic/internal/atof_native.h:1103-1116 | Each extra digit adds a factor of two to the remainder, so the loop ends after at most k + 1 of them. |
| Decimals.Decimal.RightShift | include/sonic/internal/atof_native.h:1068-1119 | The result is the exact quotient by 2^k cut to 800 places, trunc is newly set exactly when that loses something, and the accumulator stays within 64 bits. |
| Decimals.Decimal.Trim | include/sonic/internal/atof_native.h:1058-1066 | Dropping trailing zeros changes no value. |
| Decimals.Decimal.DecimalShift | include/sonic/internal/atof_native.h:1187-1211 | For any k the result is at most the exact product, trunc tells whether it is less, and no multiple of a power of two within the 800 places lies between them. |
| Truncation.CutCell | include/sonic/internal/atof_native.h:886-901 | A number cut to a decimal places stays between the same multiples of 2^-q for every q up to a. |
| Truncation.StickyStep | include/sonic/internal/atof_native.h:895-901 | One more shift with a cut keeps what is stored, with the flag, standing for the exact value. |
| DecimalToDouble.ScaleDown | include/sonic/internal/atof_native.h:1275-1283 | The first loop ends below one, still standing for the exact value. |
| DecimalToDouble.ScaleUp | include/sonic/internal/atof_native.h:1284-1292 | The second loop ends in [0.5, 1), still standing for the exact value. |
| DecimalToDouble.RoundedInteger | include/sonic/internal/atof_native.h:1213-1248 | Rounding by the next digits and by trunc rounds the exact value to the nearest integer, ties to even, modulo 2^64; all ones from 10^20 on. |
| DecimalToDouble.DecimalToF64 | include/sonic/internal/atof_native.h:1250-1345 | For every decimal, truncated or not, the bits are those of the double nearest to the exact value it was filled from: subnormals, carries into the next binade, zero and infinity included. |
| DecimalText.SetDecimal | include/sonic/internal/atof_native.h:990-1056 | The digits of the literal, cut to 800, with trunc set exactly when a nonzero digit is lost; zero when the length it is given is negative. |
| DecimalText.SlowMagnitudeExact | include/sonic/internal/atof_native.h:1000-1056 | What the decimal reads is the value of the literal if and only if the literal is zero or the point and the exponent are where the loops put them; up to 800 integer digits and exponents below 100000 they are. |
| NumberScan.ParseNumber | include/sonic/dom/parser.h:224-495 | On every text it accepts exactly what the grammar accepts, consumes exactly the literal, and describes it: 64-bit integers exactly, the rest by the digits it keeps, seventeen or nineteen, and a power of ten that fits an int. |
| NumberValue.IntegersExact | include/sonic/dom/parser.h:374-424 | Integer literals in range are exact. |
| NumberValue.MagnitudeIsDecimal | include/sonic/dom/parser.h:341-495 | The value of a literal is its digits as an integer, times ten to its exponent less the number of fraction digits. |
| NumberValue.ScannedBracket | include/sonic/dom/parser.h:341-495 | man * 10^exp10 <= value < (man + 1) * 10^exp10, with equality exactly when only zeros were dropped. |
| NumberValue.TruncExact | include/sonic/dom/parser.h:350-376 | With trunc unset the mantissa is exact if and only if the literal is not of the unreported kind or its digits after the nineteenth are zero. |
| NumberValue.TruncIsNotHonest | include/sonic/dom/parser.h:350-376 | Twenty ones and e1: trunc is unset and the mantissa is not exact. |
| NumberValue.ZeroMantissa | include/sonic/dom/parser.h:301-344 | The scanned mantissa and exponent are within the domain of the conversions if and only if the literal is not a zero with more than 22 digits behind the point and no exponent. |
| Str2Int.SimdStr2int | include/sonic/internal/arch/sse/str2int.h:57-143 | The leading digits of a 16-byte vector, at most the limit, and their exact value. |
| Str2Int.MultiplyAddFits | include/sonic/internal/arch/sse/str2int.h:57-143 | No lane of a multiply-add step outgrows the base of the next step. |
| NumberDouble.AtofNative | include/sonic/internal/atof_native.h:1348-1354 | The nearest double, possibly infinity, of the number the decimal reads; of zero when the length does not fit an int. |
| NumberDouble.ParseFloatEiselLemire64 | include/sonic/dom/parser.h:194-221 | What is rounded is what the scanner saw when the table decides it, both ends of the bracket of a truncated literal alike, and what the fallback reads in every other case. |
| NumberDouble.ToDouble | include/sonic/dom/parser.h:496-525 | The answer is the nearest double of one value, an error exactly when that is infinity: of what was seen exactly when one of three conversions decides it, else of what the fallback reads; for plain literals that one of them decides, or within 2^31 bytes of the end, it is the nearest double of the literal. |
| NumberDouble.DoubleValue | include/sonic/dom/parser.h:224-525 | Every literal that is no 64-bit integer, but the undefined zeros, is converted to that double or, when it is infinity, refused. |
| NumberDouble.ReadIsNearest | include/sonic/dom/parser.h:496-525 | On a literal with no unreported digit and at most 800 integer digits that is the nearest double of the literal. |
| Tables.TabledIsNormal | include/sonic/dom/parser.h:496-515 | A literal that a conversion before the fallback decides has a normal double or is zero. |
| FarExponent.ReadIsEnough | include/sonic/dom/parser.h:479-495 | An exponent of more than five digits rounds like the five digits that are read, to zero or infinity. |
| NumberLimits.LateExact | include/sonic/dom/parser.h:213-220 | A plain literal is read right if and only if a conversion before the fallback decides it, fewer than 2^31 bytes are left, or it rounds to zero; else as zero without an error. |
| NumberLimits.BeyondExact | include/sonic/dom/parser.h:194-221 | A literal with a subnormal or infinite double is read right if and only if fewer than 2^31 bytes are left; else as zero without an error. |
| NumberLimits.LateTiny | include/sonic/dom/parser.h:213-220 | 5e-324 with 2^31 bytes behind it is converted to 0.0 without an error, although its nearest double is not zero. |
| NumberLimits.LongInteger | include/sonic/internal/atof_native.h:1000-1030 | A one, 899 zeros and e-590 round to infinity and are read as 10^209 without an error. |
| NumberLimits.UnsafeZero | include/sonic/dom/parser.h:301-344 | A zero with 23 zeros behind the point reaches the conversions with mantissa zero and exponent -23. |
| Binary64.NearestUnique | include/sonic/internal/atof_native.h:846-862 | A value has one nearest double, so the conversions cannot disagree. |
| Reference.ValueComplete | include/sonic/dom/parser.h:758-1023 | Every spelling of a value is read as that value. |
| Reference.ValueSound | include/sonic/dom/parser.h:758-1023 | Nothing else is read. |
| Sentinel.ValueInside | include/sonic/dom/generic_document.h:290-302 | A reading of a value that starts in the text ends in it, or is a string that ends with the end mark's quote. |
| Sentinel.DocumentExact | include/sonic/dom/generic_document.h:290-302 | On a padded text the reading gives a tree if and only if the text spells that tree. |
| Continuation.ElementsDue | include/sonic/dom/parser.h:932-1014 | Reading elements one at a time with the container open is reading them all. |
| Handler.SAXHandler.AddNode | include/sonic/dom/handler.h:237-253 | A slot is taken and the nodes there are keep their places when the stack grows. |
| Handler.SAXHandler.Start | include/sonic/dom/handler.h:156-172 | An opened container keeps the way back to the one around it. |
| Handler.SAXHandler.EndArray | include/sonic/dom/handler.h:199-222 | The closed array owns the nodes since its opening, and the stack means the containers around it again. |
| Handler.SAXHandler.EndObject | include/sonic/dom/handler.h:174-197 | The closed object owns its members in order, and the stack means the containers around it again. |
| Parser.Parser.ParsePrimitives | include/sonic/dom/parser.h:707-748 | A scalar is taken exactly when the grammar has one here, with the grammar's tree; only a number followed by a point is taken and stopped one step later. |
| Parser.Parser.Machine | include/sonic/dom/parser.h:779-1023 | From the first bracket the labels end with the tree of the recursive reading, or with an error when there is none. |
| Parser.Parser.ParseImpl | include/sonic/dom/parser.h:758-1023 | The run agrees with the recursive reading, and the position is where the value ends. |
| Parser.Parser.Parse | include/sonic/dom/parser.h:68-79 | An error is set exactly when the padded text is no JSON text with numbers in range; else slot 0 of the stack is its tree. |
| Document.AllocateStringBuffer | include/sonic/dom/generic_document.h:290-302 | A fresh copy with the end mark behind it. |
| Document.Parse | include/sonic/dom/generic_document.h:229-250 | Accepts exactly the texts of the grammar whose numbers do not round to infinity, and the root is their tree. |
| Document.ParseOnDemand | include/sonic/dom/generic_document.h:276-288 | Where the lookup by path finds a value, the result is that value; on every text the error is that of the byte-at-a-time query, and on paths that do not stray it tells why the lookup finds nothing. |
| StringMask.EscapedEquation | include/sonic/internal/arch/common/unicode_common.h:280-293 | The subtraction that carries through backslashes solves the equation of the escaped bytes. |
| StringMask.EscapedIsState | include/sonic/internal/arch/common/unicode_common.h:280-293 | Bit i of the result is whether the byte automaton is behind an unpaired backslash at byte i. |
| StringMask.PrefixXorBit | include/sonic/internal/arch/riscv/base.h:52-60 | Six doubling steps give the running parity of the bits. |
| StringMask.GetStringBits | include/sonic/internal/arch/common/x86_common/skip.inc.h:17-33 | Over any sequence of blocks the mask is the automaton's inside-a-string, bit for bit, and the carries are its state. |
| SkipContainer.SkipBlock | include/sonic/internal/arch/common/x86_common/skip.inc.h:127-148 | The popcount loop over one block finds the closing bracket or leaves the right counts. |
| SkipContainer.SkipContainer | include/sonic/internal/arch/common/x86_common/skip.inc.h:122-159 | Over any number of blocks and the padded tail it stops where the byte-at-a-time bracket count stops, and fails exactly when that does; below 2^31 bytes no counter leaves its int. |
| Balance.MatchingClose | include/sonic/internal/arch/common/x86_common/skip.inc.h:119-159 | Just after the bracket of a well-formed container, counting one kind of bracket ends just past its own close. |
| SkipSpace.ShuffleFindsSpace | include/sonic/internal/arch/avx2/unicode.h:75-84 | The 16-entry shuffle finds the four white-space bytes and no other. |
| SkipSpace.SkipScanner.SkipSpace | include/sonic/internal/arch/common/x86_common/skip.inc.h:162-200 | The byte and position of a naive scan; the cached map stays right for everything ahead although bytes behind were rewritten. |
| SkipSpace.SkipScanner.SkipSpaceSafe | include/sonic/internal/arch/common/x86_common/skip.inc.h:202-252 | The same with length checks, through the cache, whole blocks and the tail. |
| TokenSkip.GetNextToken | include/sonic/internal/arch/common/x86_common/skip.inc.h:35-62 | The first of the given bytes at or after the position, or the end. |
| TokenSkip.SkipString | include/sonic/internal/arch/common/x86_common/skip.inc.h:64-117 | Past the first unescaped quote, over 32-byte blocks with an escape carry and the tail; the verdict is plain exactly when no backslash was passed. |
| OnDemand.MatchKey | include/sonic/internal/arch/simd_skip.h:158-189 | A key is compared as its bytes when no backslash is in it, and decoded else; it fails exactly when there is no quote or a key with a backslash cannot be decoded. |
| OnDemand.GetArrayElem | include/sonic/internal/arch/simd_skip.h:76-109 | Skips elements as the byte-at-a-time scan does, with its errors. |
| OnDemand.SkipLiteral | include/sonic/internal/arch/common/skip_common.h:46-82 | The literal words followed by a separator or the end, and nothing else. |
| OnDemand.SkipOne | include/sonic/internal/arch/simd_skip.h:111-156 | The span of one raw value after white space. |
| OnDemand.GetOnDemand | include/sonic/internal/arch/simd_skip.h:230-319 | On any bytes the block-wise query answers what the byte-at-a-time query answers, span or error. |
| OnDemandLookup.LookupAgrees | include/sonic/dom/genericnode.h:1207-1232 | For every JSON text and path where the lookup finds a value, the span found is a text of that value: first match on equal keys, escaped keys decoded. |
| OnDemandLookup.LookupExact | include/sonic/dom/genericnode.h:1207-1232 | On paths that do not stray the query finds something if and only if the lookup does; else the error is that of the last value reached: mismatch for a key into no object or an index into no array, unknown key, index out of range, invalid character for a negative index and on the bracket of an empty array. |
| OnDemandLookup.EmptyArrayIndex | include/sonic/internal/arch/simd_skip.h:76-109 | A positive index into an empty array goes on behind the next comma after it, and is out of range only when a bracket or the end comes first. |
| OnDemandLookup.StrayIsFound | include/sonic/internal/arch/simd_skip.h:76-109 | On the text [[],7] the path 0, 1 finds the 7. |
| Unescape.HexToU32Exact | include/sonic/internal/arch/common/unicode_common.h:182-189 | Four table entries or-ed together are the four hex digits, or above all of them. |
| Ascii.Escapes | include/sonic/internal/arch/common/unicode_common.h:298-310 | The eight two-letter escapes stand for the characters of section 7 of RFC 8259, and there are no others. |
| Characters.EncodedReads | include/sonic/internal/arch/common/unicode_common.h:203-230 | Every scalar value is encoded as one well-formed UTF-8 character, from whose bits it can be read. |
| Characters.ReadEncodes | include/sonic/internal/arch/common/unicode_common.h:203-230 | Every well-formed character is the encoding of the scalar value its bits give. |
| Characters.PieceIsCharacter | include/sonic/internal/arch/common/unicode_common.h:232-278 | What a \u escape or a surrogate pair stands for is one character, of the scalar value that it spells in UTF-16. |
| Unescape.CodepointToUtf8 | include/sonic/internal/arch/common/unicode_common.h:203-230 | Writes the UTF-8 encoding and nothing around it. |
| Unescape.HandleUnicodeCodepoint | include/sonic/internal/arch/common/unicode_common.h:232-278 | Accepts exactly the escapes and surrogate pairs of the grammar and appends their bytes. |
| Unescape.ParseStringInplaceScalar | include/sonic/internal/arch/common/quote_common.h:41-86 | Succeeds exactly on the grammar's literals, with their decoded bytes, length and end; no byte after the closing quote changes. |
| UnescapeBlocks.ParseStringInplace | include/sonic/internal/arch/common/x86_common/quote.inc.h:64-160 | The block-wise decoder keeps the very same contract. |
| UnescapeBlocks.QuoteFirst | include/sonic/internal/arch/avx2/unicode.h:42-50 | The bit test holds only when the next special byte of the block is the closing quote. |
| Quote.PiecesValid | include/sonic/internal/arch/common/quote_common.h:136-190 | What is written is a string literal of the grammar of at most six bytes for each byte. |
| Quote.Unquote | include/sonic/internal/arch/common/quote_common.h:88-107 | Unescaping what is written by default gives back every byte string. |
| Quote.UnquoteUtf8 | include/sonic/internal/arch/common/quote_common.h:136-190 | Under emoji escaping it gives back every valid UTF-8 string, through surrogate pairs. |
| QuoteWriter.DoEscape | include/sonic/internal/arch/common/quote_common.h:136-190 | A run of bytes to be escaped is written as its pieces, which are spelled as in the next two rows. |
| Spelling.WrittenIsSpelled | include/sonic/internal/arch/common/quote_common.h:88-107 | Without emoji escaping quote, backslash and five controls are written as two letters, the other controls as six with hex digits of the chosen case, and every other byte as it is. |
| Spelling.EmojiIsSpelled | include/sonic/internal/arch/common/quote_common.h:136-190 | With it, in valid UTF-8, also each four-byte character as the twelve letters of its two UTF-16 units, and nothing else changes. |
| Spelling.EmojiGone | include/sonic/internal/arch/common/quote_common.h:136-190 | Then no byte from 0xF0 on is left. |
| QuoteWriter.QuoteScalar | include/sonic/internal/arch/common/quote_common.h:88-107 | The literal of the string, at most 6 * n + 2 bytes. |
| QuoteWriter.QuoteBlocks | include/sonic/internal/arch/common/x86_common/quote.inc.h:174-227 | The same literal from 32-byte copies, and no write beyond the room reserved. |
| Itoa.UtoaSSEFixed | include/sonic/internal/arch/common/x86_common/itoa.h:80-106 | The reciprocal multiplications on 16-bit lanes give the eight digits. |
| Itoa.Utoa_1_8 | include/sonic/internal/itoa.h:52-93 | The shortest decimal spelling below 10^8. |
| Itoa.U64toa_17_20 | include/sonic/internal/itoa.h:95-114 | The shortest decimal spelling from 10^16 on. |
| Itoa.U64toa | include/sonic/internal/itoa.h:119-130 | The shortest decimal spelling of every 64-bit unsigned integer, within the bytes reserved. |
| Itoa.I64toa | include/sonic/internal/itoa.h:132-138 | The same with a sign, down to -2^63. |
| Itoa.IntegerReadsBack | include/sonic/internal/itoa.h:119-138 | The spelling is a literal of the grammar that means the integer. |
| WriteBuffer.WriteBuffer.Reserve | include/sonic/internal/stack.h:54-69 | The capacity asked for if that is not less than what is there, contents kept. |
| WriteBuffer.WriteBuffer.Grow | include/sonic/internal/stack.h:165-180 | Room for the bytes asked for, by doubling or by half as much again, contents kept. |
| WriteBuffer.WriteBuffer.Push5_8 | include/sonic/internal/stack.h:136-141 | Appends the leading bytes of the eight. |
| Serializer.SerializeImpl | include/sonic/dom/serialize.h:36-228 | Without an error the buffer holds the text of the recursive printer for the tree that the 32-bit stack words leave; with finite doubles the key error is reported exactly when some object of it has a key that is no string; every unchecked push is within capacity. |
| CutObjects.CutExact | include/sonic/dom/serialize.h:172-173 | That text is the tree's own if and only if no object is left for a nonempty child with 2^31 or more values to go. |
| CutObjects.EndMoves | include/sonic/dom/serialize.h:172-173 | The count that the shifted word gives back is the count pushed, less 2^31 when it was that large. |
| CutObjects.WideIsCut | include/sonic/dom/serialize.h:172-173 | Of 2^30 + 1 members with a nonempty first value only the first is printed. |
| CutObjects.ShortFits | include/sonic/dom/serialize.h:172-173 | No tree with a text below 2^31 bytes is cut. |
| RoundTrip.PrintThenParse | include/sonic/dom/serialize.h:36-228 | Reading a printed tree of any values, with string keys, gives the tree, members in order, when each double is printed as a literal that reads as it. |
| DumpAndParse.PrintAndParse | include/sonic/dom/serialize.h:36-228 | Serializer and parser one after the other: neither fails and the root denotes the tree that was printed, doubles included. |
| DumpAndParse.NearestReadsBack | include/sonic/dom/serialize.h:104-106 | A literal with a point or an exponent whose nearest double it is reads as that double. |
| ObjectNode.IndexExact | include/sonic/dom/dynamicnode.h:315-335 | A live map holds each pair (name of member i, i) once and nothing else. |
| ObjectNode.Object.CreateMap | include/sonic/dom/dynamicnode.h:315-335 | Builds that map and changes no member. |
| ObjectNode.Object.FindMember | include/sonic/dom/dynamicnode.h:766-785 | Finds a member with the name exactly when there is one, the first one without a map. |
| ObjectNode.SameAnswer | include/sonic/dom/dynamicnode.h:766-785 | With distinct names map and scan find the same member. |
| ObjectNode.FirstIsPointer | include/sonic/dom/dynamicnode.h:774-785 | The scan finds what a path step finds in the tree. |
| ObjectNode.Object.AddMember | include/sonic/dom/dynamicnode.h:825-864 | Appends one member, whatever the growth, and keeps a live map right. |
| ObjectNode.Object.RemoveMember | include/sonic/dom/dynamicnode.h:866-920 | Removes a member with the name exactly when there is one, by moving the last member, and keeps a live map right. |
| ObjectNode.SwapRemoveDrops | include/sonic/dom/dynamicnode.h:884-912 | The removal drops exactly one member. |
| ObjectNode.IndexSwapped | include/sonic/dom/dynamicnode.h:873-907 | The two erasures and the insertion turn the map of the old members into the map of the new. |
| ObjectNode.Object.EraseMember | include/sonic/dom/dynamicnode.h:922-943 | Removes a range, closes the gap and drops the map. |
| MemoryPool.ChunkPolicy.ChunkSize | include/sonic/allocator.h:137-172 | Never less than the request; the minimum only grows, adaptively to the least power of two above the request, up to its bound. |
| MemoryPool.BumpKeeps | include/sonic/allocator.h:374-391 | A block cut off the head chunk keeps the layout: blocks aligned, inside their chunks, pairwise disjoint. |
| MemoryPool.GrowKeeps | include/sonic/allocator.h:408-421 | So does growing the last block in place. |
| MemoryPool.LastBlock | include/sonic/allocator.h:412-414 | The pointer test holds only for a block that really ends at the top of the head chunk. |
| MemoryPool.MemoryPoolAllocator.Malloc | include/sonic/allocator.h:374-391 | A new aligned block disjoint from all others, at the top of the head chunk when it fits there and else at the start of a new one, or nothing for size zero. |
| MemoryPool.MemoryPoolAllocator.Realloc | include/sonic/allocator.h:394-430 | The old bytes are at the front of the result, every other block keeps its place and bytes, and it grows in place exactly when the block ends at the top of the head chunk and there is room. |
| MemoryPool.MemoryPoolAllocator.AddChunk | include/sonic/allocator.h:459-474 | A chunk apart from the others becomes the head. |
| MemoryPool.MemoryPoolAllocator.Clear | include/sonic/allocator.h:328-341 | Only the first chunk is left, empty. |

## Left out

- DoubleValue: on zeros with more than 22 digits behind the point and no exponent the outcome is a parameter, `odd`; the original counts the leading zeros of zero there, which is undefined.
- ToDouble: the machine's rounding of one operation is a parameter of a type that only holds nearest-even rounding.
- GetOnDemand: the position reported with an error is not modelled, and the errors of the string decoder are one.
- ParseOnDemand: the empty text is excluded, where the original reads the byte before it, and so are texts of 2^31 - 2^17 bytes and more.
- GetArrayElem, SkipOne, SkipContainer: texts of 2^31 bytes and more are excluded, where a bracket counter could overflow.
- LookupExact: straying paths are described step by step by EmptyArrayIndex, not by one condition on the whole path.
- Parse: texts of 2^31 - 2^17 bytes and more, where the `int`s of the number scanner could overflow, are excluded; the error code and offset are not compared with the grammar.
- SerializeImpl: doubles are written by a parameter of at most 32 bytes, of which PrintThenParse assumes that what it writes reads back; the Schubfach conversion (`F64ToDecimal`) rests on a separation bound that is not in the code.
- Realloc: sizes are unbounded naturals, and the base allocator's next chunk is a parameter assumed apart from the live chunks.
- MultiplyAddFits: bounds the lanes only; the saturating and signed forms of the single instructions are not written out.
- Parse flags and node kinds beside the default: raw numbers, numbers kept as strings, raw nodes, unescaped control characters, appending and non-finite serialization.
- Out-of-memory behaviour, reference counts, spin locks and the sticky failure flag of the allocator.
- `SchemaHandler`, `SkipScanner2`, `JsonGenerator`, `GetByJsonPath`, `LazySAXHandler`, `UpdateLazy`.
- CPU dispatch, page-boundary reads and the other architectures' copies of the same algorithms; a vector load with `to_bitmask` is "bit i is the predicate on byte i".
- Sums stand for the original's OR of disjoint fields in `AtofEiselLemire64` and `DecimalToF64`.
- Array nodes' `PushBack` and `Erase`, node destruction and the copying of key strings.
