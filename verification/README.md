# Verified models of four parts of QRInspector

This project models, in Dafny, the parts of QRInspector whose correctness rests on an argument rather than on
reading one function, and proves what they compute.

**Big integers** (`Arith`, `Bits`, `Blocks`, `BlockArithmetic`, `BigUnsigned`, `BigInteger`, `NumberTheory`,
`Algorithms`, `Digits`, `BigUnsignedInABase`, `DecimalStrings`). Naturals are arrays of machine words, the least
significant first, with `N` bits per word for any `N >= 16`; words wrap around. The loops work in place on arrays, and
every method is proved against `Value`, the number an array stands for. The class invariant is the canonical form:
no leading zero block. Signed numbers, the Euclidean algorithms, modular inverse and power, conversion to any base and
decimal strings are built on that, each against its mathematical definition.

**Bit packing** (`Words`, `BitStrings`, `BitArray`, `BitSource`, `BitRoundTrip`). A bit writer (lowest bit first in
32-bit words), a byte extractor and a bit reader (highest bit first) meet in one notion, a list of bits. Searches, range
tests and reversal, which work on whole words, are proved against what they mean bit by bit.

**The UTF-16/UTF-32 converter** (`Unicode`, `Transcoding`, `TextRoundTrip`, `WinIconv`). The C loop with its modes, byte
order marks and roll-back is proved equal to a function of its input and room; that function is proved to be resumable
on both sides and to read a text and write it again. Scalar values and surrogate pairs follow sections 2.1 and 2.2 of
RFC 2781.

**HTTP framing** (`HttpText`, `HeaderFields`, `RequestParsing`, `OneShotParsing`, `RequestRendering`, `HttpRequest`,
`ResponseFraming`, `ResponseReading`, `HttpResponse`, `ConnectionServing`, `HttpExchange`, `HttpConnectionHandler`,
`Sockets`). The incremental request parser is proved equal to a parser that takes a byte at a time, and that one equal to
a parser that sees the whole stream; a request as a client writes it is read as it was written. Responses are proved to be
readable by a client that sees nothing but the bytes and follows sections 3.1.2, 3.2, 3.3.3, 4.1, 6.1 and 6.6 of RFC 7230.
The handler's loop ties both together: what a connection sends is a function of the bytes it receives, and what the client
reads from it are the answers to the requests it wrote. A socket is a byte sequence whose read operations return some
non-empty prefix, and whose writes take some part of the data or fail.

## What the code does not keep to

- A modular power with exponent 0 and modulus 1 is 1, not 0 (`Algorithms.ModularPowerIsPower` says exactly when).
- Zero shifted left by whole blocks keeps leading zero blocks (`BigUnsigned.BitShiftLeft` says exactly when).
- `modinv` for modulus 0 and `x == 1` fails with a division by zero, not with "common factor" (`Algorithms.ModInv`).
- A bit set above `size` shows through when a zero is appended there (`BitArray.AppendBit`, `BitArray.AppendBits`).
- A text without a mark whose first character is U+FEFF (or U+FFFE in UTF-16) is misread by a codec that uses marks
  (`TextRoundTrip.ReadUnmarked`).
- A negative `Content-Length` is accepted, and completes the request with no body once more bytes arrive
  (`OneShotParsing.WhenBodyIsOver` says exactly when, `RequestRendering.NegativeSizeIsComplete` what follows,
  `RequestRendering.NegativeRequest` gives a request).
- `httprequest.h` promises multipart bodies up to `maxMultiPartSize`; one of exactly that size passes the header check
  and is given up at its end (`OneShotParsing.MultipartAdmitted`, `RequestRendering.MultipartOutcome`).
- A header value with a line break in it is written as two header lines, which can change how the response is framed
  (`ResponseReading.SplitFraming`; `ResponseReading.HeadReadBack` says exactly which heads are read back).
- A handler that announces a close other than by `Connection: close`, such as `CONNECTION: close`, and does not thereby
  decide the framing, sees the connection stay open (`ConnectionServing.CapitalsAnnounce`;
  `ConnectionServing.AnnouncedButOpen` says exactly when). One that takes back the announcement the client asked for gets
  a close without notice (`ConnectionServing.ClosedUnannounced`).
- A client that asks for a close among other options, as in `Connection: TE, close`, is not heard
  (`ConnectionServing.CloseAmongOthers`; `ConnectionServing.CloseUnheard` says exactly when).
- Responses that must end with their head (to HEAD, or with a status of 1xx, 204 or 304, or 2xx to CONNECT) are given a
  body all the same if the handler writes one, or writes in several parts without announcing a close; the client takes it
  for the start of the next response (`ConnectionServing.HeadAnswered`, `ConnectionServing.ForbiddenBody`;
  `ConnectionServing.ReadableIsLegible` says exactly when not).
- A continuation line of a header is taken for a header of its own if a colon stands inside it
  (`RequestRendering.ColonStartsField`; `RequestRendering.ContinuationTaken` says exactly when).
- The head of a multipart request may be one byte longer than `maxRequestSize` (`RequestRendering.RequestIsRead`).

## Model

| member | source | states |
|---|---|---|
| UnsignedNumbers.BigUnsigned.Allocate | QRInspectorClient/QZXing/zxing/bigint/NumberlikeArray.hh:93-103 | capacity only grows, and the old array is kept when it is large enough |
| UnsignedNumbers.BigUnsigned.AllocateAndCopy | QRInspectorClient/QZXing/zxing/bigint/NumberlikeArray.hh:105-120 | room for `c` blocks with the number unchanged |
| UnsignedNumbers.BigUnsigned.Assign | QRInspectorClient/QZXing/zxing/bigint/NumberlikeArray.hh:134-148 | copies the blocks of `x`, also when `x` is the receiver itself |
| UnsignedNumbers.BigUnsigned.Copy | QRInspectorClient/QZXing/zxing/bigint/NumberlikeArray.hh:122-132 | a copy has the same value in storage of its own |
| UnsignedNumbers.BigUnsigned.FromBlocks | QRInspectorClient/QZXing/zxing/bigint/BigUnsigned.hh:47-51 | a number made from any blocks is canonical and has their value |
| UnsignedNumbers.BigUnsigned.FromPrimitive | QRInspectorClient/QZXing/zxing/bigint/BigUnsigned.hh:355-366 | a number made from a block has its value |
| UnsignedNumbers.FromSignedPrimitive | QRInspectorClient/QZXing/zxing/bigint/BigUnsigned.hh:368-379 | a signed argument is rejected exactly when negative, and otherwise keeps its value |
| UnsignedNumbers.BigUnsigned.ToUnsignedShort | QRInspectorClient/QZXing/zxing/bigint/BigUnsigned.hh:386-402 | succeeds exactly when the value is below 2^16, and returns it |
| UnsignedNumbers.BigUnsigned.ZapLeadingZeros | QRInspectorClient/QZXing/zxing/bigint/BigUnsigned.hh:29-33 | restores the canonical form without changing the value; only zero blocks go |
| UnsignedNumbers.BigUnsigned.IsZero | QRInspectorClient/QZXing/zxing/bigint/BigUnsigned.hh:96-97 | in canonical form, empty means zero |
| UnsignedNumbers.BigUnsigned.GetBit | QRInspectorClient/QZXing/zxing/bigint/BigUnsigned.hh:103-107 | the bit of the value at any index, zero beyond the length |
| UnsignedNumbers.BigUnsigned.SetBlock | QRInspectorClient/QZXing/zxing/bigint/BigUnsigned.cc:24-42 | exactly block `i` changes, seen with endless zeros above, and the result is canonical |
| UnsignedNumbers.BigUnsigned.SetBit | QRInspectorClient/QZXing/zxing/bigint/BigUnsigned.cc:61-66 | exactly bit `bi` of the value changes |
| UnsignedNumbers.BigUnsigned.BitLength | QRInspectorClient/QZXing/zxing/bigint/BigUnsigned.cc:47-59 | one more than the index of the highest one bit, zero for zero |
| UnsignedNumbers.BigUnsigned.CompareTo | QRInspectorClient/QZXing/zxing/bigint/BigUnsigned.cc:69-90 | the order of the values |
| Blocks.CanonicalShorterIsLess | QRInspectorClient/QZXing/zxing/bigint/BigUnsigned.cc:69-74 | a shorter number is less than a canonical longer one |
| Blocks.TopBlockDecides | QRInspectorClient/QZXing/zxing/bigint/BigUnsigned.cc:75-86 | between equal lengths the highest block that differs decides |
| UnsignedNumbers.BigUnsigned.Equals | QRInspectorClient/QZXing/zxing/bigint/NumberlikeArray.hh:161-176 | block-wise equality is equality of values |
| Blocks.CanonicalUnique | QRInspectorClient/QZXing/zxing/bigint/NumberlikeArray.hh:161-176 | two canonical block sequences of one value are the same sequence |
| Blocks.BitOfValue | QRInspectorClient/QZXing/zxing/bigint/BigUnsigned.hh:103-107 | bits of the value are bits of its blocks, by quotient and remainder of the index |
| UnsignedNumbers.BigUnsigned.Add | QRInspectorClient/QZXing/zxing/bigint/BigUnsigned.cc:124-182 | the sum, canonical, for any aliasing of operands and receiver |
| BlockArithmetic.AddBlocks | QRInspectorClient/QZXing/zxing/bigint/BigUnsigned.cc:151-176 | the three loops leave the sum of the values, less a carry of known weight |
| BlockArithmetic.AddRest | QRInspectorClient/QZXing/zxing/bigint/BigUnsigned.cc:166-176 | the last two loops carry the sum on through the longer operand |
| Blocks.AddWraps | QRInspectorClient/QZXing/zxing/bigint/BigUnsigned.cc:153-162 | the roll-over tests find exactly the carry of a wrapped block addition with carry in |
| BlockArithmetic.AddFinish | QRInspectorClient/QZXing/zxing/bigint/BigUnsigned.cc:177-181 | the last carry block, or the shortened length, gives the exact canonical sum |
| UnsignedNumbers.BigUnsigned.Subtract | QRInspectorClient/QZXing/zxing/bigint/BigUnsigned.cc:184-233 | the difference if `a >= b`; otherwise throws, leaving the receiver zero or as it was |
| BlockArithmetic.SubtractBlocks | QRInspectorClient/QZXing/zxing/bigint/BigUnsigned.cc:201-230 | the loops leave the difference of the values, plus a borrow of known weight |
| BlockArithmetic.SubtractRest | QRInspectorClient/QZXing/zxing/bigint/BigUnsigned.cc:215-230 | the last two loops carry the difference on, plus a borrow of known weight |
| Blocks.SubtractWraps | QRInspectorClient/QZXing/zxing/bigint/BigUnsigned.cc:203-211 | the reverse roll-over tests find exactly the borrow |
| BlockArithmetic.SubtractFinish | QRInspectorClient/QZXing/zxing/bigint/BigUnsigned.cc:221-230 | a borrow is left over exactly when `a < b` |
| UnsignedNumbers.BigUnsigned.Increment | QRInspectorClient/QZXing/zxing/bigint/BigUnsigned.cc:659-672 | adds one and stays canonical, growing by a block on a full carry |
| UnsignedNumbers.BigUnsigned.Decrement | QRInspectorClient/QZXing/zxing/bigint/BigUnsigned.cc:680-692 | throws exactly on zero, else takes one away; one shortening suffices |
| BlockArithmetic.IncrementBlocks | QRInspectorClient/QZXing/zxing/bigint/BigUnsigned.cc:660-665 | the carry loop adds one to the value of the array, up to the carry out |
| BlockArithmetic.DecrementBlocks | QRInspectorClient/QZXing/zxing/bigint/BigUnsigned.cc:683-688 | the unbounded borrow loop stays inside a nonzero number |
| BlockArithmetic.BorrowFits | QRInspectorClient/QZXing/zxing/bigint/BigUnsigned.cc:683-688 | a borrow still open means a block is left |
| Blocks.ShiftedBlockIsSum | QRInspectorClient/QZXing/zxing/bigint/BigUnsigned.cc:293-298 | the two parts a shifted block is joined from do not overlap, so a bitwise or adds them |
| Blocks.ShiftSplits | QRInspectorClient/QZXing/zxing/bigint/BigUnsigned.cc:293-298 | a block shifted left is its wrapped part plus what moves into the next block |
| Blocks.ShiftedTotal | QRInspectorClient/QZXing/zxing/bigint/BigUnsigned.cc:293-298 | the shifted blocks together are the value times 2^y |
| UnsignedNumbers.BigUnsigned.Multiply | QRInspectorClient/QZXing/zxing/bigint/BigUnsigned.cc:300-369 | the product, canonical, for any aliasing; one conditional shortening suffices |
| BlockArithmetic.MultiplyBlocks | QRInspectorClient/QZXing/zxing/bigint/BigUnsigned.cc:322-365 | the shift-and-add loops leave the product |
| BlockArithmetic.AddShifted | QRInspectorClient/QZXing/zxing/bigint/BigUnsigned.cc:344-363 | adds the shifted operand in place; everything above is untouched |
| BlockArithmetic.CarryUp | QRInspectorClient/QZXing/zxing/bigint/BigUnsigned.cc:360-363 | the roll-over loop without a bound stops before the end because the total fits |
| BlockArithmetic.CarryFits | QRInspectorClient/QZXing/zxing/bigint/BigUnsigned.cc:360-363 | a carry still open means that a block is left |
| BlockArithmetic.ProductStep | QRInspectorClient/QZXing/zxing/bigint/BigUnsigned.cc:326-364 | one tested bit of `a` keeps the partial product, which stays below the weight of the array |
| BlockArithmetic.ProductFits | QRInspectorClient/QZXing/zxing/bigint/BigUnsigned.cc:360-363 | every partial product fits `a.len + b.len` blocks |
| UnsignedNumbers.ProductLength | QRInspectorClient/QZXing/zxing/bigint/BigUnsigned.cc:366-368 | at most one leading zero block can remain |
| UnsignedNumbers.BigUnsigned.DivideWithRemainder | QRInspectorClient/QZXing/zxing/bigint/BigUnsigned.cc:382-538 | quotient and remainder by floor division (by zero: quotient zero, dividend kept), canonical, for every aliasing; throws exactly for one variable as both outputs |
| BlockArithmetic.DivideBlocks | QRInspectorClient/QZXing/zxing/bigint/BigUnsigned.cc:472-529 | dividend is quotient times divisor plus a remainder below the divisor; every access is in range |
| BlockArithmetic.DivideBit | QRInspectorClient/QZXing/zxing/bigint/BigUnsigned.cc:484-528 | one trial keeps "remainder below divisor times 2^(N*i+i2)" and the multiples counted in `q` |
| BlockArithmetic.SubtractShifted | QRInspectorClient/QZXing/zxing/bigint/BigUnsigned.cc:494-510 | the scratch buffer holds the trial difference, with a borrow exactly past the top |
| BlockArithmetic.TrialFails | QRInspectorClient/QZXing/zxing/bigint/BigUnsigned.cc:521-528 | with a borrow the multiple was too large, and nothing but the bound changes |
| BlockArithmetic.TrialFits | QRInspectorClient/QZXing/zxing/bigint/BigUnsigned.cc:521-527 | without a borrow the bit of the quotient is set by a bitwise or and the remainder is the difference |
| BlockArithmetic.QuotientStart | QRInspectorClient/QZXing/zxing/bigint/BigUnsigned.cc:459-474 | the extra leading zero makes the loop bound true at the start |
| UnsignedNumbers.QuotientLength | QRInspectorClient/QZXing/zxing/bigint/BigUnsigned.cc:530-532 | at most one leading zero block can remain in the quotient |
| UnsignedNumbers.BigUnsigned.ModAssign | QRInspectorClient/QZXing/zxing/bigint/BigUnsigned.hh:320-325 | the residue; throws exactly for modulus zero |
| UnsignedNumbers.BigUnsigned.BitShiftLeft | QRInspectorClient/QZXing/zxing/bigint/BigUnsigned.cc:595-619 | times 2^b, or floor division for a negative amount; throws exactly for the least `int`; canonical exactly when `a != 0` or `b < N` |
| UnsignedNumbers.BigUnsigned.BitShiftRight | QRInspectorClient/QZXing/zxing/bigint/BigUnsigned.cc:621-654 | floor division by 2^b, or times 2^-b for a negative amount; canonical exactly when `a != 0` or `-b < N` |
| UnsignedNumbers.ShiftByMeans | QRInspectorClient/QZXing/zxing/bigint/BigUnsigned.cc:595-654 | what a shift by a signed amount is: multiplication by a power of two, or division with the rest dropped |
| BlockArithmetic.ShiftLeftBlocks | QRInspectorClient/QZXing/zxing/bigint/BigUnsigned.cc:611-615 | the loops leave the value times 2^(N*blocks+bits) |
| BlockArithmetic.ShiftRightBlocks | QRInspectorClient/QZXing/zxing/bigint/BigUnsigned.cc:648-650 | shifting left inside blocks and dropping blocks is a floor division |
| BlockArithmetic.TailIsQuotient | QRInspectorClient/QZXing/zxing/bigint/BigUnsigned.cc:632-650 | the blocks kept are the quotient because the blocks dropped stay below the divisor |
| UnsignedNumbers.ShiftLeftLength | QRInspectorClient/QZXing/zxing/bigint/BigUnsigned.cc:616-618 | after a left shift at most one leading zero is left, unless the number is zero |
| UnsignedNumbers.ShiftRightLength | QRInspectorClient/QZXing/zxing/bigint/BigUnsigned.cc:632-653 | the ceiling trick gives floor division by 2^b, with at most one leading zero |
| SignedNumbers.BigInteger.Add | QRInspectorClient/QZXing/zxing/bigint/BigInteger.cc:169-201 | the sum of signed numbers; sign zero exactly for magnitude zero |
| SignedNumbers.BigInteger.Combine | QRInspectorClient/QZXing/zxing/bigint/BigInteger.cc:178-200 | signs that differ: the magnitudes are compared and the smaller taken from the larger |
| SignedNumbers.BigInteger.Subtract | QRInspectorClient/QZXing/zxing/bigint/BigInteger.cc:203-241 | the difference of signed numbers, for any aliasing |
| SignedNumbers.BigInteger.Multiply | QRInspectorClient/QZXing/zxing/bigint/BigInteger.cc:243-256 | the product of signed numbers |
| SignedNumbers.BigInteger.DivideWithRemainder | QRInspectorClient/QZXing/zxing/bigint/BigInteger.cc:280-359 | floor division: the remainder is zero or has the divisor's sign and is smaller in size; division by zero keeps the dividend; throws exactly for shared outputs |
| SignedNumbers.BigInteger.DivideCorrected | QRInspectorClient/QZXing/zxing/bigint/BigInteger.cc:314-347 | signs that differ: decrease, divide, increase the quotient, complement the remainder |
| SignedNumbers.FloorOfSameSigns | QRInspectorClient/QZXing/zxing/bigint/BigInteger.cc:337-359 | equal signs: division of magnitudes is floor division |
| SignedNumbers.FloorOfOppositeSigns | QRInspectorClient/QZXing/zxing/bigint/BigInteger.cc:314-359 | opposite signs: the corrected quotient and remainder are those of floor division |
| Arith.FloorIsUnique | QRInspectorClient/QZXing/zxing/bigint/BigInteger.cc:280-313 | whatever the signs, the quotient and the remainder meant are those of the floor of the exact quotient, and no others |
| SignedNumbers.BigInteger.CompareTo | QRInspectorClient/QZXing/zxing/bigint/BigInteger.cc:135-154 | the order of signed values |
| SignedNumbers.BigInteger.Equals | QRInspectorClient/QZXing/zxing/bigint/BigInteger.hh:97-99 | equal sign and magnitude means equal values |
| SignedNumbers.BigInteger.Negate | QRInspectorClient/QZXing/zxing/bigint/BigInteger.cc:362-368 | the negation, also in place |
| SignedNumbers.BigInteger.Increment | QRInspectorClient/QZXing/zxing/bigint/BigInteger.cc:373-382 | adds one across zero |
| SignedNumbers.BigInteger.Decrement | QRInspectorClient/QZXing/zxing/bigint/BigInteger.cc:390-399 | takes one away across zero |
| SignedNumbers.BigInteger.Mod | QRInspectorClient/QZXing/zxing/bigint/BigInteger.hh:166-172 | the remainder of floor division; throws exactly for divisor zero |
| Algorithms.GcdOf | QRInspectorClient/QZXing/zxing/bigint/BigIntegerAlgorithms.cc:3-14 | the greatest common divisor, zero for two zeros |
| NumberTheory.GcdUnique | QRInspectorClient/QZXing/zxing/bigint/BigIntegerAlgorithms.cc:3-14 | up to the sign there is one greatest common divisor |
| NumberTheory.GcdIsGreatest | QRInspectorClient/QZXing/zxing/bigint/BigIntegerAlgorithms.cc:3-14 | no common divisor is larger |
| NumberTheory.DivisionKeepsDivisors | QRInspectorClient/QZXing/zxing/bigint/BigIntegerAlgorithms.cc:9-12 | a division step keeps the set of common divisors |
| Algorithms.ExtendedEuclidean | QRInspectorClient/QZXing/zxing/bigint/BigIntegerAlgorithms.cc:16-41 | terminates for all signed arguments with `g == r*m + s*n` and the size of `g` their greatest common divisor; throws exactly for shared outputs |
| Algorithms.EuclidLoop | QRInspectorClient/QZXing/zxing/bigint/BigIntegerAlgorithms.cc:24-40 | both rows stay combinations of the arguments and keep their common divisors |
| Algorithms.RowReduce | QRInspectorClient/QZXing/zxing/bigint/BigIntegerAlgorithms.cc:30-31 | one reduction in place: floor division of the numbers, and the row stays a combination of the arguments |
| Algorithms.RowStep | QRInspectorClient/QZXing/zxing/bigint/BigIntegerAlgorithms.cc:21-22 | subtracting a multiple of one row from the other keeps its invariant |
| Algorithms.ModInv | QRInspectorClient/QZXing/zxing/bigint/BigIntegerAlgorithms.cc:43-51 | for `n > 0` throws exactly when `x` and `n` have a common factor; otherwise the inverse in [0, n) |
| NumberTheory.InverseFromBezout | QRInspectorClient/QZXing/zxing/bigint/BigIntegerAlgorithms.cc:46-48 | the coefficient, reduced, is the inverse |
| Algorithms.ModExp | QRInspectorClient/QZXing/zxing/bigint/BigIntegerAlgorithms.cc:53-70 | the modular power for every signed base, every exponent and every modulus but zero |
| Algorithms.ModularPowerIsPower | QRInspectorClient/QZXing/zxing/bigint/BigIntegerAlgorithms.cc:53-70 | the result is the reduced power exactly unless the exponent is 0 and the modulus 1 |
| Algorithms.PowerStep | QRInspectorClient/QZXing/zxing/bigint/BigIntegerAlgorithms.cc:58-68 | squaring and perhaps multiplying takes in one more bit of the exponent |
| Algorithms.PowerTurn | QRInspectorClient/QZXing/zxing/bigint/BigIntegerAlgorithms.cc:60-67 | one turn of the loop takes in bit `i` of the exponent, in place |
| RadixNumbers.BigUnsignedInABase.FromNumber | QRInspectorClient/QZXing/zxing/bigint/BigUnsignedInABase.cc:32-60 | the digits of a number in any base from 2 on: all below the base, the top one not zero; throws exactly for a smaller base |
| RadixNumbers.BigUnsignedInABase.FillDigits | QRInspectorClient/QZXing/zxing/bigint/BigUnsignedInABase.cc:48-56 | the digit buffer of precomputed size is never overrun |
| Numerals.RoomForDigit | QRInspectorClient/QZXing/zxing/bigint/BigUnsignedInABase.cc:38-43 | while something is left to write there is room: `ceilingDiv(bits, bitLen(base) - 1)` digits suffice |
| RadixNumbers.BigUnsignedInABase.ToNumber | QRInspectorClient/QZXing/zxing/bigint/BigUnsignedInABase.cc:62-71 | the value of the digits |
| Numerals.DigitsOfValue | QRInspectorClient/QZXing/zxing/bigint/BigUnsignedInABase.cc:32-71 | digits of a number, read back, give the number |
| Numerals.ValueOfDigits | QRInspectorClient/QZXing/zxing/bigint/BigUnsignedInABase.cc:32-71 | the value of digits without leading zeros, written again, gives the digits |
| RadixNumbers.BigUnsignedInABase.FromDigits | QRInspectorClient/QZXing/zxing/bigint/BigUnsignedInABase.cc:3-16 | checks base and digits, drops leading zeros and keeps the value |
| RadixNumbers.BigUnsignedInABase.FromString | QRInspectorClient/QZXing/zxing/bigint/BigUnsignedInABase.cc:73-103 | reads digits and letters of either case; throws for a base over 36, a bad symbol or a digit too large, whichever is met first from the end |
| RadixNumbers.BigUnsignedInABase.ToString | QRInspectorClient/QZXing/zxing/bigint/BigUnsignedInABase.cc:105-125 | prints the digits from the top, `0` for zero; throws exactly for a base over 36 |
| Numerals.ReadShown | QRInspectorClient/QZXing/zxing/bigint/BigUnsignedInABase.cc:73-125 | a printed number is read back, in bases 2 to 36 |
| Numerals.ShowRead | QRInspectorClient/QZXing/zxing/bigint/BigUnsignedInABase.cc:73-125 | a legal string, read and printed, comes out in upper case without leading zeros |
| Numerals.ShownCharacter | QRInspectorClient/QZXing/zxing/bigint/BigUnsignedInABase.cc:112-121 | the character at the place of `base^k` has the code of `'0'` or `'A'` plus the digit `v / base^k % base` |
| Numerals.ShownLength | QRInspectorClient/QZXing/zxing/bigint/BigUnsignedInABase.cc:105-121 | a number is shown in as many characters as it needs |
| Numerals.ReadCharacter | QRInspectorClient/QZXing/zxing/bigint/BigUnsignedInABase.cc:84-101 | each character counts by its code, in either case; the last one is judged first and counts least |
| DecimalStrings.BigUnsignedToString | QRInspectorClient/QZXing/zxing/bigint/BigIntegerUtils.cc:4-6 | the decimal form |
| DecimalStrings.BigIntegerToString | QRInspectorClient/QZXing/zxing/bigint/BigIntegerUtils.cc:8-12 | the decimal form with a minus sign for negative numbers |
| Numerals.ShownInteger | QRInspectorClient/QZXing/zxing/bigint/BigIntegerUtils.cc:8-12 | a minus sign stands before the numeral exactly of a number below zero |
| DecimalStrings.StringToBigUnsigned | QRInspectorClient/QZXing/zxing/bigint/BigIntegerUtils.cc:14-16 | the value of decimal digits, or the error of the first bad symbol from the end |
| DecimalStrings.StringToBigInteger | QRInspectorClient/QZXing/zxing/bigint/BigIntegerUtils.cc:18-23 | the value after an optional sign, or the error |
| Numerals.ReadSigned | QRInspectorClient/QZXing/zxing/bigint/BigIntegerUtils.cc:18-23 | digits after either sign, or after none, are read as what they are worth, with that sign |
| Numerals.ReadShownInteger | QRInspectorClient/QZXing/zxing/bigint/BigIntegerUtils.cc:8-23 | every signed number survives printing and parsing |
| BitArrays.BitArray.Get | QRInspectorClient/QZXing/zxing/zxing/common/BitArray.h:49-51 | bit `i` of the packed words |
| BitArrays.AtMeans | QRInspectorClient/QZXing/zxing/zxing/common/BitArray.h:49-51 | bit `i` is the parity of word `i / 32` divided by `2^(i % 32)` |
| BitArrays.BitArray.Set | QRInspectorClient/QZXing/zxing/zxing/common/BitArray.h:53-55 | exactly bit `i` becomes one |
| BitArrays.BitArray.Flip | QRInspectorClient/QZXing/zxing/zxing/common/BitArray.h:57-59 | exactly bit `i` changes |
| BitArrays.BitArray.OfSize | QRInspectorClient/QZXing/zxing/zxing/common/BitArray.h:81-83 | a new array has no bit set |
| BitArrays.BitArray.EnsureCapacity | QRInspectorClient/QZXing/zxing/zxing/common/BitArray.cpp:240-252 | room for `n` bits; no bit changes |
| BitArrays.BitArray.AppendBit | QRInspectorClient/QZXing/zxing/zxing/common/BitArray.cpp:211-218 | the bit is appended, joined with whatever was set just above the size; no other bit changes |
| BitArrays.BitArray.AppendBits | QRInspectorClient/QZXing/zxing/zxing/common/BitArray.cpp:220-229 | the lowest bits of the value, most significant first, each joined with the bit that was set at its place above the size; throws exactly for a width outside 0 to 32 |
| BitArrays.BitArray.ToBytes | QRInspectorClient/QZXing/zxing/zxing/common/BitArray.cpp:266-281 | eight bits to a byte, most significant first; bytes around the range are kept, new ones zero |
| BitArrays.BitArray.IsRange | QRInspectorClient/QZXing/zxing/zxing/common/BitArray.cpp:76-108 | true exactly if every bit of the range equals the value; throws exactly for `end < start` |
| BitArrays.RangeInWord | QRInspectorClient/QZXing/zxing/zxing/common/BitArray.cpp:87-105 | the mask by wrapping subtraction tests exactly the bits `firstBit` to `lastBit`, also for 31 |
| BitArrays.BitArray.GetNextSet | QRInspectorClient/QZXing/zxing/zxing/common/BitArray.cpp:175-191 | the least set index from `from` on, or the size, whatever lies above the size |
| BitArrays.BitArray.GetNextUnset | QRInspectorClient/QZXing/zxing/zxing/common/BitArray.cpp:193-209 | the least unset index from `from` on, or the size |
| BitArrays.NumberOfTrailingZeros | QRInspectorClient/QZXing/zxing/zxing/common/BitArray.cpp:163-170 | the index of the lowest one bit, 32 for zero |
| BitArrays.ScanFinds | QRInspectorClient/QZXing/zxing/zxing/common/BitArray.cpp:189-190 | the lowest bit of the first nonzero masked word is the answer of the scan |
| BitArrays.BitArray.Reverse | QRInspectorClient/QZXing/zxing/zxing/common/BitArray.cpp:114-146 | bit `i` becomes bit `size-1-i` for every size from 1; nothing is left above the size |
| Words.BitOfReverseWord | QRInspectorClient/QZXing/zxing/zxing/common/BitArray.cpp:121-127 | the five swap stages send bit `31-k` to bit `k` |
| BitArrays.ShiftDown | QRInspectorClient/QZXing/zxing/zxing/common/BitArray.cpp:130-144 | the cross-word correction moves all bits down by the offset |
| BitArrays.ReverseAndBack | QRInspectorClient/QZXing/zxing/zxing/common/BitArray.cpp:148-154 | two reversals in place restore the contents, as the destructor of `Reverse` relies on |
| BitSources.BitSource.Available | QRInspectorClient/QZXing/zxing/zxing/common/BitSource.cpp:73-75 | the bits not yet read |
| BitSources.BitSource.ReadBits | QRInspectorClient/QZXing/zxing/zxing/common/BitSource.cpp:28-71 | the next bits as a number, most significant first; throws exactly for a bad or too large count, and then reads nothing |
| BitSources.MoreRead | QRInspectorClient/QZXing/zxing/zxing/common/BitSource.cpp:54-67 | shifting the result and adding a piece reads on along the stream |
| BitSources.SliceOfStream | QRInspectorClient/QZXing/zxing/zxing/common/BitSource.cpp:39-45 | masking and shifting a byte picks the wanted part of the stream |
| BitStrings.ReadBack | QRInspectorClient/QZXing/zxing/zxing/common/BitArray.cpp:220-229 | writing `n` bits and reading them keeps the low `n` bits |
| BitStrings.WriteBack | QRInspectorClient/QZXing/zxing/zxing/common/BitArray.cpp:266-281 | bits read as a number and written again are the same bits |
| BitRoundTrip.StreamOfPackedBytes | QRInspectorClient/QZXing/zxing/zxing/common/BitArray.cpp:266-281 | packed bytes spell the bits of the array |
| BitRoundTrip.FieldInStream | QRInspectorClient/QZXing/zxing/zxing/common/BitSource.cpp:28-71 | the part of the stream written for a field spells the low bits of its value |
| BitRoundTrip.WriteAll | QRInspectorClient/QZXing/zxing/zxing/common/BitArray.cpp:211-281 | any fields, appended and packed into `ceil(n/8)` bytes, are the stream of their bits padded with zeros |
| BitRoundTrip.ReadAll | QRInspectorClient/QZXing/zxing/zxing/common/BitSource.cpp:28-75 | reading with the same widths gives the low bits of each value; `available` starts with all bits and drops by exactly each width |
| BitRoundTrip.WriteThenRead | QRInspectorClient/QZXing/zxing/zxing/common/BitArray.cpp:211-281 | writer, packer and reader together return the low bits of every value |
| Unicode.FirstOfChar | QRInspectorClient/QZXing/zxing/win32/zxing/win_iconv.c:1438-1621 | a character written is the first one read, whatever follows |
| Unicode.FirstIsChar | QRInspectorClient/QZXing/zxing/win32/zxing/win_iconv.c:1438-1487 | a character read is spelled by exactly the bytes taken |
| Unicode.FirstIsStable | QRInspectorClient/QZXing/zxing/win32/zxing/win_iconv.c:1446-1486 | more input changes only an incomplete start, and four bytes always decide |
| Unicode.PairStandsFor | QRInspectorClient/QZXing/zxing/win32/zxing/win_iconv.c:1016-1040 | a surrogate pair and its scalar value determine each other |
| Unicode.CharAsNumber | QRInspectorClient/QZXing/zxing/win32/zxing/win_iconv.c:1438-1621 | the bytes of a character, as numbers in their byte order, are its value or its two surrogates with ten bits each |
| Unicode.Example | QRInspectorClient/QZXing/zxing/win32/zxing/win_iconv.c:1438-1621 | U+12345 in all four code pages, as in section 5 of RFC 2781 |
| Unicode.WholeUnits | QRInspectorClient/QZXing/zxing/win32/zxing/win_iconv.c:1446-1486 | in whole units a character is found exactly if one is there, and input is incomplete exactly if more of it can make a character |
| Unicode.PartOfUnit | QRInspectorClient/QZXing/zxing/win32/zxing/win_iconv.c:1446-1486 | a part of a unit at the end makes no difference |
| Unicode.BomAsNumber | QRInspectorClient/QZXing/zxing/win32/zxing/win_iconv.c:1454-1468 | the tests on the first unit see exactly the mark of either byte order |
| Unicode.UnitBytesOfChar | QRInspectorClient/QZXing/zxing/win32/zxing/win_iconv.c:1507-1537 | the units of a character are written as the byte form of that character, whatever a second unit that is not part of it holds |
| Unicode.UnitsAsNumbers | QRInspectorClient/QZXing/zxing/win32/zxing/win_iconv.c:1507-1621 | the bytes of any units, surrogates out of place included, as numbers in their byte order |
| WinIconv.Ucs4ToUtf16 | QRInspectorClient/QZXing/zxing/win32/zxing/win_iconv.c:1025-1040 | the one or two units of any 32-bit value, by masks and shifts; those of a scalar value are its UTF-16 form |
| WinIconv.Utf16ToUcs4 | QRInspectorClient/QZXing/zxing/win32/zxing/win_iconv.c:1016-1023 | the scalar value of one or two units |
| WinIconv.CsConv.Utf16MbToWc | QRInspectorClient/QZXing/zxing/win32/zxing/win_iconv.c:1438-1487 | one reading step of a UTF-16 codec: character, mark or error, with the new mode |
| WinIconv.CsConv.Utf16Char | QRInspectorClient/QZXing/zxing/win32/zxing/win_iconv.c:1470-1487 | the character whose first unit was read: one unit, a pair, an error or too little input |
| WinIconv.CsConv.Utf32MbToWc | QRInspectorClient/QZXing/zxing/win32/zxing/win_iconv.c:1541-1578 | one reading step of a UTF-32 codec |
| WinIconv.CsConv.Utf16WcToMb | QRInspectorClient/QZXing/zxing/win32/zxing/win_iconv.c:1489-1539 | for any units, mark and character are written together or the call fails for lack of room; bytes outside the room are untouched |
| WinIconv.CsConv.Utf32WcToMb | QRInspectorClient/QZXing/zxing/win32/zxing/win_iconv.c:1580-1621 | the same for UTF-32 |
| WinIconv.Converter.MoveChar | QRInspectorClient/QZXing/zxing/win32/zxing/win_iconv.c:809-880 | one turn of the loop moves one character or skips a mark; a character that cannot be moved leaves both modes as they were |
| WinIconv.Converter.Convert | QRInspectorClient/QZXing/zxing/win32/zxing/win_iconv.c:807-887 | the loop's outcome for any buffers: status, both positions, both modes and the bytes; a character that fails moves no position and restores both modes |
| WinIconv.Converter.Reset | QRInspectorClient/QZXing/zxing/win32/zxing/win_iconv.c:781-805 | a call without input returns both codecs to their starting mode |
| Transcoding.WholeStep | QRInspectorClient/QZXing/zxing/win32/zxing/win_iconv.c:807-887 | the conversion as reading a text and writing it, one step at a time |
| Transcoding.Resumption | QRInspectorClient/QZXing/zxing/win32/zxing/win_iconv.c:807-886 | stopping for lack of room and going on is the whole conversion; any other end is its end |
| Transcoding.SessionIsWhole | QRInspectorClient/QZXing/zxing/win32/zxing/win_iconv.c:807-886 | any sequence of output buffer sizes gives the bytes, input, status and modes of one call with enough room |
| Transcoding.SessionEnds | QRInspectorClient/QZXing/zxing/win32/zxing/win_iconv.c:807-886 | enough buffers of eight bytes bring every conversion to its end |
| Transcoding.RoomNeeded | QRInspectorClient/QZXing/zxing/win32/zxing/win_iconv.c:864-878 | a call runs out of room exactly when the whole output does not fit |
| TextRoundTrip.MoreInput | QRInspectorClient/QZXing/zxing/win32/zxing/win_iconv.c:807-886 | input may come in pieces: the bytes left over, followed by more, continue the same conversion |
| TextRoundTrip.ReadWritten | QRInspectorClient/QZXing/zxing/win32/zxing/win_iconv.c:1438-1621 | encoding then decoding is the identity on every text, marks included, even for a text beginning with U+FEFF |
| TextRoundTrip.ReadMarked | QRInspectorClient/QZXing/zxing/win32/zxing/win_iconv.c:1454-1468 | a mark of either byte order is skipped once and sets the order |
| TextRoundTrip.ReadUnmarked | QRInspectorClient/QZXing/zxing/win32/zxing/win_iconv.c:1454-1468 | without a mark a codec that uses one reads the text exactly unless its first character looks like a mark |
| TextRoundTrip.ReadSpellsFromStart | QRInspectorClient/QZXing/zxing/win32/zxing/win_iconv.c:1438-1578 | whatever was read is at most one mark and then the characters of the text |
| TextRoundTrip.StoppedWhere | QRInspectorClient/QZXing/zxing/win32/zxing/win_iconv.c:813-827 | where reading stopped for an error no character can be read |
| TextRoundTrip.IllegalForEver | QRInspectorClient/QZXing/zxing/win32/zxing/win_iconv.c:1470-1483 | an illegal start begins no character however the input goes on |
| TextRoundTrip.ConvertWritten | QRInspectorClient/QZXing/zxing/win32/zxing/win_iconv.c:807-887 | converting a written text writes the same text in the other codec |
| TextRoundTrip.ThereAndBack | QRInspectorClient/QZXing/zxing/win32/zxing/win_iconv.c:807-887 | converting there and back through any buffers of eight bytes and more loses nothing |
| TextRoundTrip.WritingIsInjective | QRInspectorClient/QZXing/zxing/win32/zxing/win_iconv.c:1489-1621 | different texts are written differently |
| HttpText.SplitAndJoin | QRInspectorServer/QtWebApp/httpserver/httprequest.cpp:45 | the parts of a line contain no separator and join to the line |
| HttpText.TrimmedMeans | QRInspectorServer/QtWebApp/httpserver/httprequest.cpp:40 | the result is a slice of the text, has no white space at its ends, and all outside the slice is white space |
| HttpText.TrimmedIs | QRInspectorServer/QtWebApp/httpserver/httprequest.cpp:40 | only one slice is like that |
| HttpText.WhiteSpace | QRInspectorServer/QtWebApp/httpserver/httprequest.cpp:40 | the six characters that are trimmed, by their codes |
| HttpText.LowerLetters | QRInspectorServer/QtWebApp/httpserver/httprequest.cpp:81 | capital letters become small ones by their codes, and nothing else changes |
| HttpText.FindIsFirst | QRInspectorServer/QtWebApp/httpserver/httprequest.cpp:107-111 | the position found is the least one |
| HttpText.ToIntMeans | QRInspectorServer/QtWebApp/httpserver/httprequest.cpp:119-123 | a text counts by its decimal digits after an optional sign, white space around it ignored; anything else, or what does not fit an `int`, counts as zero |
| HttpText.ToIntShown | QRInspectorServer/QtWebApp/httpserver/httprequest.cpp:119-123 | every `int` is read as it is shown, and every other number as zero |
| HttpRequests.HttpRequest.ReadRequest | QRInspectorServer/QtWebApp/httpserver/httprequest.cpp:24-60 | what one read does to a request waiting for its first line |
| HttpRequests.HttpRequest.ReadHeader | QRInspectorServer/QtWebApp/httpserver/httprequest.cpp:62-148 | what one read does to a request waiting for headers |
| HttpRequests.HttpRequest.ReadBody | QRInspectorServer/QtWebApp/httpserver/httprequest.cpp:150-211 | what one read does to a request waiting for its body, multipart in blocks of at most 65536 |
| HttpRequests.HttpRequest.ReadFromSocket | QRInspectorServer/QtWebApp/httpserver/httprequest.cpp:291-318 | each call does what its bytes do one by one, and takes at least one byte exactly unless a negative body size was let pass |
| RequestRendering.EmptyLineSkipped | QRInspectorServer/QtWebApp/httpserver/httprequest.cpp:33-42 | an empty line before a request is ignored, but counted |
| RequestRendering.FirstLineJudged | QRInspectorServer/QtWebApp/httpserver/httprequest.cpp:45-58 | a first line of three words, HTTP occurring in the last, gives method, path and version; any other gives up the request |
| RequestRendering.BadFirstLine | QRInspectorServer/QtWebApp/httpserver/httprequest.cpp:40-50 | a stream beginning with any other line that is not empty is given up at once |
| RequestRendering.LineIsField | QRInspectorServer/QtWebApp/httpserver/httprequest.cpp:77-83 | a line with a colon after its first character is a header: its name up to the first colon in small letters, its value trimmed |
| RequestRendering.StrayLineIgnored | QRInspectorServer/QtWebApp/httpserver/httprequest.cpp:88-97 | a line without a name before any header is ignored, but counted |
| RequestRendering.BoundaryMeans | QRInspectorServer/QtWebApp/httpserver/httprequest.cpp:107-118 | the boundary is what follows the first `boundary=`, without the quotes around it |
| RequestRendering.BoundaryFound | QRInspectorServer/QtWebApp/httpserver/httprequest.cpp:107-118 | there is none without the multipart type or without `boundary=` |
| RequestParsing.LineAtOnce | QRInspectorServer/QtWebApp/httpserver/httprequest.cpp:64-76 | a piece of a line taken at once does what its bytes do one by one, with the size limit tested in time |
| RequestParsing.BodyAtOnce | QRInspectorServer/QtWebApp/httpserver/httprequest.cpp:150-211 | so does a piece of the body, in either store |
| RequestParsing.TakingIsSound | QRInspectorServer/QtWebApp/httpserver/httprequest.cpp:24-211 | every byte keeps the request's invariant: limits, line buffer without a line break, body not longer than announced |
| RequestParsing.FeedAppend | QRInspectorServer/QtWebApp/httpserver/httprequest.cpp:291-318 | where the stream is cut does not matter |
| OneShotParsing.FeedIsOneShot | QRInspectorServer/QtWebApp/httpserver/httprequest.cpp:24-318 | the incremental parser equals the parser that sees the stream as a whole: same status, fields, body and unread rest |
| OneShotParsing.BodyAsAnnounced | QRInspectorServer/QtWebApp/httpserver/httprequest.cpp:119-166 | the body of a complete request is as long as announced and precedes the unread rest |
| OneShotParsing.WhenBodyIsOver | QRInspectorServer/QtWebApp/httpserver/httprequest.cpp:119-146 | after the empty line and the size check of the same call, a body is over before its first byte exactly when a negative size was announced and the head is within its limit |
| OneShotParsing.OverIsComplete | QRInspectorServer/QtWebApp/httpserver/httprequest.cpp:150-165 | such a request is completed by whatever comes next, takes none of it and has an empty body |
| OneShotParsing.MultipartAdmitted | QRInspectorServer/QtWebApp/httpserver/httprequest.cpp:131-145 | the check after the headers waits for a multipart body exactly up to the limit itself |
| OneShotParsing.MultipartEnd | QRInspectorServer/QtWebApp/httpserver/httprequest.cpp:190-209 | the last piece of a multipart body completes the request exactly when the body is smaller than the limit |
| HeaderFields.FieldsReadBack | QRInspectorServer/QtWebApp/httpserver/httprequest.cpp:78-83 | header lines with clean names and values, read as RFC 7230 section 3.2 says, are the fields they were made from |
| HeaderFields.FieldsAreClean | QRInspectorServer/QtWebApp/httpserver/httprequest.cpp:75-83 | no field a reader finds has a line break in it or white space around it |
| HeaderFields.FieldsReadBackIff | QRInspectorServer/QtWebApp/httpserver/httpresponse.cpp:57-70 | a header block is read back as the fields written exactly when all of them are clean |
| RequestRendering.HeadParsed | QRInspectorServer/QtWebApp/httpserver/httprequest.cpp:24-148 | a written request line, with any empty lines before it, and header lines, continued ones included, leave the request with exactly those words and fields, judged by the size check |
| RequestRendering.ContinuationTaken | QRInspectorServer/QtWebApp/httpserver/httprequest.cpp:77-98 | a line without a name is joined to the header before it exactly if no colon stands inside it, and is a header of its own otherwise |
| RequestRendering.ColonStartsField | QRInspectorServer/QtWebApp/httpserver/httprequest.cpp:77-83 | ` b:c` after a header is one |
| RequestRendering.KeptValue | QRInspectorServer/QtWebApp/httpserver/httprequest.cpp:77-97 | the value found under a name is that of the last field of the name, with its continuation lines joined by blanks |
| OneShotParsing.FedSettles | QRInspectorServer/QtWebApp/httpserver/httprequest.cpp:119-318 | past its headers a request has the boundary they announce and keeps to the limits, and every byte taken is counted once |
| OneShotParsing.HeadIsLimited | QRInspectorServer/QtWebApp/httpserver/httprequest.cpp:291-309 | once more bytes have come than the limit allows, the head is complete or the request given up |
| RequestRendering.RequestIsRead | QRInspectorServer/QtWebApp/httpserver/httprequest.cpp:24-211 | a well-formed request is read with exactly its method, path, version, headers and body, and what follows is left alone, exactly if head and body are within the limits and the size of the body is announced (or a negative one, for an empty body with something after it) |
| RequestRendering.AnnouncesMeans | QRInspectorServer/QtWebApp/httpserver/httprequest.cpp:119-123 | the size announced is the number that the digits of the last `Content-Length` spell, or zero |
| RequestRendering.DecimalLengthIsRead | QRInspectorServer/QtWebApp/httpserver/httprequest.cpp:24-211 | a well-formed request within the limits whose last `Content-Length` is a decimal numeral of the size of its body is read as it was written |
| RequestRendering.TooLargeIsGivenUp | QRInspectorServer/QtWebApp/httpserver/httprequest.cpp:131-140 | a body announced larger than the limit is given up before it is read |
| RequestRendering.MultipartOutcome | QRInspectorServer/QtWebApp/httpserver/httprequest.cpp:131-209 | a multipart request is completed exactly when its body is smaller than the limit, although the limit itself is admitted |
| RequestRendering.NegativeSizeIsComplete | QRInspectorServer/QtWebApp/httpserver/httprequest.cpp:119-166 | every request that announces a negative size is completed without a body, exactly when more bytes arrive |
| RequestRendering.NegativeRequest | QRInspectorServer/QtWebApp/httpserver/httprequest.cpp:119-166 | `GET / HTTP/1.1` with `Content-Length: -1` is one |
| HttpText.NumberReadBack | QRInspectorServer/QtWebApp/httpserver/httpresponse.cpp:111-136 | a decimal or hexadecimal length is read back, and contains no line break |
| HttpText.NumberCharacter | QRInspectorServer/QtWebApp/httpserver/httpresponse.cpp:111-136 | the characters of a decimal or hexadecimal length, by their codes, in small letters |
| HttpResponses.HttpResponse.WriteToSocket | QRInspectorServer/QtWebApp/httpserver/httpresponse.cpp:76-97 | all data goes out however little the socket takes at a time; false exactly if a write failed, and then only a part of it is lost |
| HttpResponses.HttpResponse.WriteHeaders | QRInspectorServer/QtWebApp/httpserver/httpresponse.cpp:48-74 | status line, headers and cookies, as the header block that a reader takes apart again |
| HttpResponses.HttpResponse.SetCookie | QRInspectorServer/QtWebApp/httpserver/httpresponse.cpp:168-175 | afterwards one name has the cookie and all others what they had; a cookie without a name is ignored |
| HttpResponses.CookieLineAt | QRInspectorServer/QtWebApp/httpserver/httpresponse.cpp:64-69 | each cookie has a line of its own under `Set-Cookie` |
| ConnectionServing.CookiesSet | QRInspectorServer/QtWebApp/httpserver/httpresponse.cpp:168-175 | cookies set one after another: each name has the last one set, and there is none without a name |
| HttpResponses.HttpResponse.Redirect | QRInspectorServer/QtWebApp/httpserver/httpresponse.cpp:184-189 | the whole redirect: status, location, the cookies set before, a sized body, and a response that is finished |
| HttpResponses.HttpResponse.Write | QRInspectorServer/QtWebApp/httpserver/httpresponse.cpp:99-159 | the bytes of every call and the framing the first call settles; a failing write loses some of that, and nothing else is ever added |
| ResponseFraming.GetInserted | QRInspectorServer/QtWebApp/httpserver/httpresponse.cpp:20-24 | a header set replaces its value and no other |
| ResponseFraming.InsertKeepsOrder | QRInspectorServer/QtWebApp/httpserver/httpresponse.cpp:57 | a header set keeps the names in order, each once |
| ResponseFraming.BeforeMeans | QRInspectorServer/QtWebApp/httpserver/httpresponse.cpp:57 | the order is by the first difference, a name before its continuations |
| ConnectionServing.SentInOrder | QRInspectorServer/QtWebApp/httpserver/httpresponse.cpp:57-69 | the headers and cookies of a response are in order, each name once |
| ResponseReading.HeadReadBack | QRInspectorServer/QtWebApp/httpserver/httpresponse.cpp:48-74 | a client gets status, text, headers and cookies back from the bytes exactly when the text has no line break and the fields are clean |
| ResponseReading.SplitField | QRInspectorServer/QtWebApp/httpserver/httpresponse.cpp:20-24 | a value with a line break in it gives the bytes of two fields |
| ResponseReading.SplitFraming | QRInspectorServer/QtWebApp/httpserver/httpresponse.cpp:20-24 | such a value can turn a sized response into a chunked one |
| ResponseFraming.FramingChosen | QRInspectorServer/QtWebApp/httpserver/httpresponse.cpp:104-126 | by size for a response written at once, else in chunks unless the connection is to be closed |
| ResponseFraming.ChunkedUnlessClosing | QRInspectorServer/QtWebApp/httpserver/httpresponse.cpp:114-124 | several parts are chunked exactly unless `Connection` is close or, where there is none, `connection` is |
| ResponseFraming.SizedAtOnce | QRInspectorServer/QtWebApp/httpserver/httpresponse.cpp:108-112 | a response written at once gets the numeral of its size and no other change |
| ResponseFraming.ChunksReadBack | QRInspectorServer/QtWebApp/httpserver/httpresponse.cpp:130-155 | chunked coding (section 4.1 of RFC 7230) is undone by a reader, which stops at the end and not before |
| ResponseFraming.ChunksWritten | QRInspectorServer/QtWebApp/httpserver/httpresponse.cpp:130-155 | a chunk, no chunk for no data, and the end of a body, as they are written |
| ResponseFraming.HeadWritten | QRInspectorServer/QtWebApp/httpserver/httpresponse.cpp:48-72 | a head with one header, as it is written |
| ResponseFraming.ResponseReadBack | QRInspectorServer/QtWebApp/httpserver/httpresponse.cpp:99-159 | for any headers and parts a reader (section 3.3.3 of RFC 7230) gets the data and leaves what follows, exactly if the headers mark the body off |
| ResponseFraming.FramingDelimits | QRInspectorServer/QtWebApp/httpserver/httpresponse.cpp:104-126 | headers completed by the first write mark the body off, unless the response lasts until the close |
| ResponseFraming.ChunksCost | QRInspectorServer/QtWebApp/httpserver/httpresponse.cpp:130-155 | reading chunks always takes more bytes than the data they hold |
| HttpConnectionHandlers.Collect | QRInspectorServer/QtWebApp/httpserver/httpconnectionhandler.cpp:164-175 | the inner loop feeds the request until it is complete, given up or the bytes run out |
| HttpConnectionHandlers.Respond | QRInspectorServer/QtWebApp/httpserver/httpconnectionhandler.cpp:194-256 | head and body of the response, and whether the connection is to be closed |
| ConnectionServing.PresetMeans | QRInspectorServer/QtWebApp/httpserver/httpconnectionhandler.cpp:194-223 | the headers before the first write are those the handler set, with the last value each, and `Connection: close` exactly if the client asked for it or speaks HTTP/1.0 |
| ConnectionServing.AskedCloseIsTold | QRInspectorServer/QtWebApp/httpserver/httpconnectionhandler.cpp:194-256 | such a client is told of the close, and gets it, whatever the handler sets under other names |
| ConnectionServing.AskedCloseIsPlain | QRInspectorServer/QtWebApp/httpserver/httpconnectionhandler.cpp:202-211 | such a client gets several parts plainly, never in chunks |
| ConnectionServing.PartsMean | QRInspectorServer/QtWebApp/httpserver/httpconnectionhandler.cpp:214-229 | the writes are the handler's, and one more without data if it has not marked an end |
| ConnectionServing.AtOnceIsSized | QRInspectorServer/QtWebApp/httpserver/httpresponse.cpp:104-145 | a response finished in one call is sent plainly, with its size and the headers set before |
| HttpConnectionHandlers.ServiceRequest | QRInspectorServer/QtWebApp/httpserver/httpconnectionhandler.cpp:214-223 | a request handler that sets headers and writes any parts, finished or not |
| HttpConnectionHandlers.HttpConnectionHandler.Read | QRInspectorServer/QtWebApp/httpserver/httpconnectionhandler.cpp:149-274 | the loop serves exactly what the bytes received determine: responses sent, requests served, request under way, connection open or closed |
| HttpConnectionHandlers.ReceiveInPieces | QRInspectorServer/QtWebApp/httpserver/httpconnectionhandler.cpp:149-274 | a stream arriving in any pieces is served as the stream as a whole |
| ConnectionServing.ServeAppend | QRInspectorServer/QtWebApp/httpserver/httpconnectionhandler.cpp:149-274 | serving a stream cut anywhere is serving the whole stream, pipelined requests included |
| ConnectionServing.OpenIsDelimited | QRInspectorServer/QtWebApp/httpserver/httpconnectionhandler.cpp:233-256 | if nothing asks to close, the connection stays open exactly when the response is sized or chunked |
| ConnectionServing.AnnouncedButOpen | QRInspectorServer/QtWebApp/httpserver/httpconnectionhandler.cpp:233-256 | a close is announced, in any spelling of the name, and the connection stays open, exactly if the client does not ask for a close (by that option alone) and the handler announces one other than by `Connection: close`, and not so that it decides the framing |
| ConnectionServing.CapitalsAnnounce | QRInspectorServer/QtWebApp/httpserver/httpconnectionhandler.cpp:233-256 | a handler that sets `CONNECTION: close` does so, whatever it writes |
| ConnectionServing.ClosedUnannounced | QRInspectorServer/QtWebApp/httpserver/httpconnectionhandler.cpp:194-256 | the connection closes without notice exactly if the client asks for a close and the handler takes the announcement back |
| ConnectionServing.CloseUnheard | QRInspectorServer/QtWebApp/httpserver/httpconnectionhandler.cpp:194-256 | a client asks for a close and the connection stays open exactly if it asks for something besides, its version is not HTTP/1.0 and the handler does not bring the close about |
| ConnectionServing.CloseAmongOthers | QRInspectorServer/QtWebApp/httpserver/httpconnectionhandler.cpp:194-212 | `Connection: TE, close` is such a case |
| ConnectionServing.ClosesByPreset | QRInspectorServer/QtWebApp/httpserver/httpconnectionhandler.cpp:233-256 | whether the connection closes, by the headers as they were before the first write |
| ConnectionServing.SentFieldsAreClean | QRInspectorServer/QtWebApp/httpserver/httpresponse.cpp:48-74 | the framing and cookie lines the server adds to clean headers are clean, whatever the status |
| ConnectionServing.CookiesKeepBody | QRInspectorServer/QtWebApp/httpserver/httpresponse.cpp:64-69 | cookies change neither the framing nor the body read |
| ConnectionServing.ResponseIsRead | QRInspectorServer/QtWebApp/httpserver/httpconnectionhandler.cpp:194-256 | one response on the wire, followed by anything, is read as what the handler wrote and reading stops at its end, exactly if it is legible: one line of status text, clean fields, and a body marked off by the headers, or none sent where none may be |
| ConnectionServing.ReadableIsLegible | QRInspectorServer/QtWebApp/httpserver/httpconnectionhandler.cpp:194-256 | a clean reply without framing of its own is legible exactly if a body is allowed (not for HEAD, 1xx, 204, 304, or 2xx to CONNECT; section 3.3.3 of RFC 7230) or nothing is sent: no data, and not in chunks |
| ConnectionServing.ForbiddenBody | QRInspectorServer/QtWebApp/httpserver/httpresponse.cpp:129-158 | a body sent where none may be is left on the wire before the next response |
| ConnectionServing.HeadAnswered | QRInspectorServer/QtWebApp/httpserver/httpconnectionhandler.cpp:214-229 | a HEAD request answered with data is such a case |
| ConnectionServing.NotModified | QRInspectorServer/QtWebApp/httpserver/httpconnectionhandler.cpp:225-229 | a 304 finished without data is read as it was given |
| ConnectionServing.RefusalIsRead | QRInspectorServer/QtWebApp/httpserver/httpconnectionhandler.cpp:177-186 | the answer to a request that is given up is read, with its announcement of the close |
| ConnectionServing.ResponsesReadBack | QRInspectorServer/QtWebApp/httpserver/httpconnectionhandler.cpp:149-274 | a client that sees only the bytes, and stops at an announced close (section 6.6 of RFC 7230), reads for each request served the status, headers and data that its handler gave, exactly if no answer but the last announces a close |
| HttpExchange.RequestsServed | QRInspectorServer/QtWebApp/httpserver/httpconnectionhandler.cpp:149-274 | requests written one after another, with empty lines between them, are served in order and as written, up to the first whose response closes the connection |
| HttpExchange.TooLargeIsRefused | QRInspectorServer/QtWebApp/httpserver/httpconnectionhandler.cpp:177-186 | a request whose body is announced too large is refused and the connection closed |
| HttpExchange.Exchange | QRInspectorServer/QtWebApp/httpserver/httpconnectionhandler.cpp:149-274 | and a client that reads an answer to each request it wrote gets exactly the answers to those served, under the same condition |

## Left out

- BigUnsigned `bitAnd`, `bitOr`, `bitXor`, the stream operators and the value and compound operators other than `%`:
  thin layers over, or easier than, what is modelled.
- Conversions to and from the other primitive types: same shape as the ones modelled.
- Overflow of lengths, and of `x.getLength() * N`, beyond 32 bits; running out of memory: sizes are unbounded.
- BitArrays.NumberOfTrailingZeros: models the portable branch, not the compiler built-in used where there is one.
- BitArrays.BitArray.ToBytes: the byte vector is a value, returned changed, not an object changed in place.
- `appendBitArray`, `xor_`, `setBulk`, `clear`, `toString` of the bit array; `BitMatrix`.
- Code page names and the table that maps them; a codec is given by its code page and its use of marks.
- Codecs that call the operating system or a library, their compatibility tables (none belongs to the modelled code
  pages), and the `//IGNORE` and `//TRANSLIT` flags.
- WinIconv.Converter.Convert: input and output are different buffers; what a failed call leaves in the room beyond the
  output is unspecified, as in the source.
- HttpRequests.HttpRequest.ReadFromSocket: what follows the completion of a request (`decodeRequestParams`,
  `extractCookies`) is left out; the path still includes its query.
- HttpRequests.HttpRequest.ReadBody: a complete multipart body is an opaque byte sequence; `parseMultiPartFile` is left out.
- Overflow of `expectedBodySize + currentSize`, undefined in the source for sizes near 2^31: the sum is exact here.
- Header names are folded to lower case for ASCII letters only.
- The number that a text stands for (`toInt`) follows the documented behaviour of the library: white space around an
  optional sign and decimal digits, and zero for anything else.
- The settings `maxRequestSize` and `maxMultiPartSize` are taken to be non-negative.
- HttpResponses.HttpResponse.Write: the socket does not close in the middle of a call; a failing write, which the source
  ignores, is how it refuses data.
- HttpResponses.HttpResponse.SetCookie: a cookie is a name and its rendered text; `HttpCookie::toByteArray` is left out.
- HttpConnectionHandlers.ServiceRequest: a request handler is a function from the request to the status, headers, cookies
  and parts it produces, finished or not; handlers with state of their own are left out, and an exception is a handler that
  stops early.
- ConnectionServing.ResponsesReadBack: a response with a status of 100 to 199 is read as a final one; the client does not
  wait for another.
- HttpConnectionHandlers.HttpConnectionHandler.Read: disconnecting closes the socket and drops what was not read at once,
  as the slot `disconnected` does when nothing is left to be sent.
- Timers, threads, SSL, the session store, templates, the SQL in the request handlers and all user interface code.
