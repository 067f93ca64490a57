# librho, modelled and verified in Dafny

This project models the parts of librho in which correctness is an argument rather than a glance, and proves
what they promise:

* **Arbitrary-precision integers** (`tBigInteger` over `tArray<u32>`). Numbers are little-endian 32-bit words in
  growable arrays that are rewritten in place. `Val` is the number a word sequence stands for, `Canonical` says
  that the top word is not zero. Every carry, borrow, shift, product, quotient and exponentiation loop is a Dafny
  loop proved against the operation on integers it implements, through to Montgomery exponentiation and the
  Miller-Rabin witness, which needs Fermat's theorem and the square roots of 1 modulo a prime.
* **The producer-consumer queue** (`tPCQ`) as a step system: threads call, take the mutex, run one critical
  section, fall asleep on a condition variable, are woken, wake spuriously or time out, in any interleaving. The
  invariants are proved for every run. `tStreamPCQ` turns the queue into a byte stream, whose guarantee is proved
  over the runs of the same step system.
* **Incremental hashing** (`md32_common.h`): the hash does not depend on how the message was cut into updates, and
  is the compression function folded over the padded message. HMAC and PBKDF2 stand on top of it.
* **The linear congruential generators**: the full period follows from their constants.
* **`split` and `replace`**.
* **Reference counting** (`refc`): the operations on one registry, and a step system in which decrement, locked
  erase, the two deletes, allocation and locked wrap of different threads interleave freely.

`Arith`, `WordMath`, `Bits` and `NumberTheory` hold the mathematics the other modules share; otherwise a module
follows a source file or a group of functions of `tBigInteger.cpp`. Exceptions are values of `Outcome`. Where a C++
function is long, its loop bodies are methods of their own (`DivideStep`, `NaiveWord`, `WindowBit`); the 20-way
unrolled switches of `add` and `multiplyNaive` are inner loops of at most 20 steps. A method that changes a number in
place is specified by the value before and after, for every aliasing the callers use.

`u8`, `u32` and `u64` are ranges of integers, so that every assignment carries the proof that it does not overflow, and
a wrap-around that does happen is written out as `%`.

Where the code does not keep its promise, the exact condition is proved: `PrintThenParse` (radix 16), `HexReading`
(hexadecimal letters are read from 0 on), `FalseMeansComposite` (`isPrime` on 2, 1, 0 and negative numbers), `SafePrimes`
(a prime whose bit length is a multiple of 32 can be rejected, because zero can be drawn as a base), `GrowingQueue` and
`GrowMakesRoom` (capacities that wrap around), `StreamDelivers` and `DiscardLosesTheEnd` (a discarding queue loses blocks
and the end mark although write and close return), `PowModExact` (exponent 0 gives 1 even modulo 1), `KeepOnly` (no
clean-up on one path), `OverwrittenRemainderExact` (the sign of a remainder when the quotient replaces the dividend), and
`ReplaceTerminates` (an empty search string).

## Model

| member | source | states |
|---|---|---|
| Arrays.TArray.Assign | include/rho/algo/tArray.h:63-84 | assignment copies the elements, keeps a buffer that is large enough, and is harmless on itself |
| Arrays.TArray.PushBack | include/rho/algo/tArray.h:96-101 | appends one element; the buffer doubles exactly when it was full |
| Arrays.TArray.PopBack | include/rho/algo/tArray.h:103-108 | removes the last element, or reports a logic error on an empty array |
| Arrays.TArray.Reverse | include/rho/algo/tArray.h:134-146 | swapping from both ends reverses the elements |
| Arrays.TArray.SetSize | include/rho/algo/tArray.h:153-158 | keeps the elements below the new size, which ends up strictly below the capacity |
| Arrays.TArray.Grow | include/rho/algo/tArray.h:167-177 | doubles the capacity and keeps the elements |
| Words.IsLess | source/rho/algo/tBigInteger.cpp:27-35 | on canonical numbers, and on arrays of one length, the order of the values |
| Words.IsEqual | source/rho/algo/tBigInteger.cpp:38-46 | the same words, and on canonical numbers the same value |
| WordMath.CanonicalUnique | source/rho/algo/tBigInteger.cpp:38-46 | a number has only one canonical form, on which comparing words relies |
| Words.Cleanup | source/rho/algo/tBigInteger.cpp:49-53 | drops the zero top words and nothing else |
| Words.NumBits | source/rho/algo/tBigInteger.cpp:97-108 | an n with v < 2^n, and on canonical numbers also 2^(n-1) <= v, with 0 exactly for zero |
| Words.ShiftRight | source/rho/algo/tBigInteger.cpp:110-175 | in place, v becomes v / 2^n in canonical form, for every n |
| Words.ShiftLeft | source/rho/algo/tBigInteger.cpp:177-245 | in place, v becomes v * 2^n in canonical form, for every n |
| Words.KeepOnly | source/rho/algo/tBigInteger.cpp:247-300 | in place, v becomes v mod 2^n; canonical exactly when a word was cut or the input was canonical |
| Bits.MaskTables | source/rho/algo/tBigInteger.cpp:116-152 | the 31 written-out masks are 2^k - 1, and those of the left shift its complement |
| AddSub.Add | source/rho/algo/tBigInteger.cpp:302-363 | a += b * 2^(32 bShift) in canonical form, also when a and b are the same array and bShift is 0 |
| AddSub.Subtract | source/rho/algo/tBigInteger.cpp:365-385 | a -= b in canonical form, or a logic error with a unchanged exactly when a < b |
| AddSub.LenderExists | source/rho/algo/tBigInteger.cpp:372-380 | when a digit has to borrow and b <= a, a nonzero word is there to lend |
| AddSub.Borrow | source/rho/algo/tBigInteger.cpp:372-380 | the borrow scan stays in the array, keeps the words below, and takes exactly one from the word above |
| Multiply.MultiplyRow | source/rho/algo/tBigInteger.cpp:408-436 | one row is x * b; the 64-bit accumulator never overflows |
| Multiply.MultiplyNaive | source/rho/algo/tBigInteger.cpp:387-439 | result = a * b in canonical form |
| Multiply.MultiplyWord | source/rho/algo/tBigInteger.cpp:441-462 | a *= b for one word, in place, keeping a canonical |
| Multiply.KaratsubaIdentity | source/rho/algo/tBigInteger.cpp:490-502 | the three products put together are the product of the halves put together |
| Multiply.Halves | source/rho/algo/tBigInteger.cpp:477-483 | the split x = 2^n high + low, each half of at most n bits |
| Multiply.MultiplyKaratsuba | source/rho/algo/tBigInteger.cpp:464-503 | result = x * y in canonical form for every cutoff above 0 and all operands, canonical or not: it terminates and no inner subtraction throws |
| Multiply.MultiplyArrays | source/rho/algo/tBigInteger.cpp:505-510 | the product, with the cutoff the library uses |
| Divide.Overestimate | source/rho/algo/tBigInteger.cpp:534-551 | dividing leading words by the top word of b never underestimates the digit |
| Divide.EstimateDigit | source/rho/algo/tBigInteger.cpp:534-551 | the first guess fits 32 bits and is at least the true digit, which is at least 1; the size assertion holds |
| Divide.CorrectDigit | source/rho/algo/tBigInteger.cpp:553-563 | the correction loop ends at the true digit |
| Divide.DivideNaive | source/rho/algo/tBigInteger.cpp:512-574 | a = quotient * b + remainder with remainder < b, both canonical; an error exactly when b = 0 |
| Divide.DivideArrays | source/rho/algo/tBigInteger.cpp:576-582 | quotient and remainder are a / b and a mod b |
| NumberTheory.GcdIsGreatest | include/rho/algo/tBigInteger.h:116-119 | the specification of gcd is a common divisor that every common divisor divides |
| Euclid.GcdArrays | source/rho/algo/tBigInteger.cpp:584-598 | the word-level loop computes the gcd |
| Euclid.GCD | source/rho/algo/tBigInteger.cpp:1274-1285 | the gcd of two nonnegative numbers, an error when one is negative |
| Euclid.EuclidStep | source/rho/algo/tBigInteger.cpp:1308-1321 | one turn of the loop keeps both Bezout equations and the gcd, and shrinks the remainder |
| Euclid.ExtendedGCD | source/rho/algo/tBigInteger.cpp:1287-1325 | a*x + b*y = gcd(a, b), the same gcd that GCD computes; an input that is also an output counts as what was first written to it |
| ModPow.ModMultiply | source/rho/algo/tBigInteger.cpp:600-646 | result = a * b mod m, also when result is a or b |
| ModPow.NaiveWord | source/rho/algo/tBigInteger.cpp:660-668 | one exponent word: the result gains a^(k e), the running square becomes a^(2^32 k) |
| ModPow.ModPowNaive | source/rho/algo/tBigInteger.cpp:648-670 | square-and-multiply computes a^e mod m |
| ModPow.PowerTable | source/rho/algo/tBigInteger.cpp:681-684 | the table holds a^0 to a^15 mod m |
| ModPow.ModPowMary | source/rho/algo/tBigInteger.cpp:672-701 | four bits at a time computes a^e mod m |
| ModPow.WindowBit | source/rho/algo/tBigInteger.cpp:727-749 | one bit keeps result = a^(prefix - pending window) mod m, and the window below 16 |
| ModPow.ModPowCLNW | source/rho/algo/tBigInteger.cpp:703-759 | the window method computes a^e mod m |
| Montgomery.OddGcdIsOne | source/rho/algo/tBigInteger.cpp:761-785 | an odd n is prime to every power of two, so the inverse exists |
| Montgomery.NegativeInverse | source/rho/algo/tBigInteger.cpp:774-784 | after the sign loop, the bytes without sign satisfy n * n' = -1 mod r |
| Montgomery.CalculateNprim | source/rho/algo/tBigInteger.cpp:761-785 | r is a power of two above n, n * n' = -1 mod r, and r is invertible mod n |
| Montgomery.Reduction | source/rho/algo/tBigInteger.cpp:787-808 | the reduced product is below 2n and congruent to t / r mod n |
| Montgomery.MontgomeryProduct | source/rho/algo/tBigInteger.cpp:787-808 | result * r = a * b mod n with result < n, from one conditional subtraction, also when result is an operand |
| Montgomery.ModPowMontgomery | source/rho/algo/tBigInteger.cpp:810-852 | M^e mod n for every odd n, an error for every even n |
| Montgomery.ModPowArrays | source/rho/algo/tBigInteger.cpp:854-868 | whichever algorithm the sizes select, the result is a^e mod m (1 for e = 0), and an error exactly for m = 0 < e |
| ModPow.PowModExact | source/rho/algo/tBigInteger.cpp:648-670 | for a positive modulus that result is the power modulo m if and only if e > 0 or m > 1 |
| ModPow.PowModOfOne | source/rho/algo/tBigInteger.cpp:648-653 | exponent 0 modulo 1 gives 1 in place of 0 |
| Montgomery.ModPowBig | source/rho/algo/tBigInteger.cpp:1150-1159 | the public modPow, which ignores the signs of exponent and modulus and refuses a negative base; right on the magnitudes unless the exponent is 0 and the modulus 1 or -1 |
| Bytes.U8to32 | source/rho/algo/tBigInteger.cpp:55-80 | packs four bytes a word, least significant first |
| Bytes.U32to8 | source/rho/algo/tBigInteger.cpp:82-95 | unpacks the words and drops the zero top bytes |
| Bytes.PackVal | source/rho/algo/tBigInteger.cpp:55-80 | packing keeps the value |
| Bytes.UnpackVal | source/rho/algo/tBigInteger.cpp:82-95 | unpacking keeps the value |
| Bytes.BytesRoundTrip | source/rho/algo/tBigInteger.cpp:55-95 | a canonical number survives being turned into bytes and back, word for word |
| BigIntegers.BigInteger.constructor | source/rho/algo/tBigInteger.cpp:875-881 | the value and the sign of an i32 |
| BigIntegers.BigInteger.FromBytes | source/rho/algo/tBigInteger.cpp:961-969 | the value of the bytes, nonnegative |
| BigIntegers.BigInteger.GetBytes | source/rho/algo/tBigInteger.cpp:1013-1017 | the bytes of the absolute value, none of them superfluous |
| BigIntegers.BigInteger.SignIsSign | source/rho/algo/tBigInteger.cpp:1019-1033 | isNegative and isZero tell the sign even when the sign bit is set on zero |
| BigIntegers.BigInteger.AddAssign | source/rho/algo/tBigInteger.cpp:1060-1077 | the sum, for all signs, also for x += x; the mutual recursion with -= ends |
| BigIntegers.BigInteger.SubAssign | source/rho/algo/tBigInteger.cpp:1079-1108 | the difference, for all signs, also for x -= x |
| BigIntegers.BigInteger.MulAssign | source/rho/algo/tBigInteger.cpp:1110-1117 | the product with its sign |
| BigIntegers.BigInteger.DivAssign | source/rho/algo/tBigInteger.cpp:1119-1127 | the quotient truncated toward zero, an error exactly for zero |
| BigIntegers.BigInteger.ModAssign | source/rho/algo/tBigInteger.cpp:1129-1136 | the remainder with the sign of the dividend |
| BigIntegers.BigInteger.Div | source/rho/algo/tBigInteger.cpp:1138-1148 | both at once, into any two numbers, operands included |
| BigIntegers.OverwrittenRemainderExact | source/rho/algo/tBigInteger.cpp:1144-1147 | with the quotient written over the dividend the remainder keeps its sign if and only if the divisor is positive or divides |
| BigIntegers.OverwrittenSign | source/rho/algo/tBigInteger.cpp:1144-1147 | -7 divided by -2 into itself leaves 1 in place of -1 |
| BigIntegers.TruncatedDivision | source/rho/algo/tBigInteger.cpp:1119-1148 | a = (a/b)*b + a%b with a%b smaller than b in absolute value and of the sign of a |
| BigIntegers.BigInteger.Less | source/rho/algo/tBigInteger.cpp:1206-1228 | the order of the integers |
| BigIntegers.BigInteger.Equals | source/rho/algo/tBigInteger.cpp:1196-1199 | equality of the integers |
| Numerals.FromString | source/rho/algo/tBigInteger.cpp:892-959 | parses exactly the well-formed numerals of radix 2, 8, 10 and 16, as the number they are read as |
| Numerals.AcceptedCharacters | source/rho/algo/tBigInteger.cpp:892-940 | the characters each radix accepts, by table |
| Numerals.DigitIsRead | source/rho/algo/tBigInteger.cpp:931-932 | character k of 0123456789 is read as k wherever k is below the radix, and refused elsewhere |
| Numerals.LetterIsRead | source/rho/algo/tBigInteger.cpp:933-936 | letter k of abcdef and of ABCDEF is read as k in radix 16 |
| Numerals.ReadAppend | source/rho/algo/tBigInteger.cpp:947-958 | one more character: radix times the value so far, and the value of the character |
| Numerals.ReadSign | source/rho/algo/tBigInteger.cpp:892-926 | a leading minus negates, and nothing at all is read as zero |
| Numerals.ToString | source/rho/algo/tBigInteger.cpp:981-1011 | prints the digits found by repeated division, most significant first, with the sign |
| Numerals.DigitIsPrinted | source/rho/algo/tBigInteger.cpp:971-979 | a digit k is printed as character k of 0123456789KLMNOP |
| Numerals.PrintSteps | source/rho/algo/tBigInteger.cpp:981-1011 | a longer number is printed as its quotient by the radix and then its remainder |
| Numerals.PrintSign | source/rho/algo/tBigInteger.cpp:981-1011 | a negative number is printed as a minus and its absolute value |
| Numerals.NumeralReads | source/rho/algo/tBigInteger.cpp:892-1011 | reading back the digits of n gives n when every digit is at most nine |
| Numerals.PrintThenParse | source/rho/algo/tBigInteger.cpp:892-1011 | a printed number is accepted again if and only if all its digits are at most nine, and is then the same number |
| Numerals.DecimalRoundTrip | source/rho/algo/tBigInteger.cpp:892-1011 | in radix 2, 8 and 10 every integer survives printing and parsing |
| Numerals.HexRoundTripFails | source/rho/algo/tBigInteger.cpp:971-979 | ten in radix 16 is printed as K and refused |
| Numerals.HexReading | source/rho/algo/tBigInteger.cpp:931-936 | a hexadecimal string is read as its usual value if and only if it contains no letter |
| Primes.EuclidsLemma | source/rho/algo/tBigInteger.cpp:1356-1399 | a prime dividing a product divides a factor |
| Primes.BinomialTheorem | source/rho/algo/tBigInteger.cpp:1356-1399 | (a+1)^n is the sum of its binomial terms |
| Primes.Fermat | source/rho/algo/tBigInteger.cpp:1356-1399 | a^p = a mod p for every prime p |
| Primes.RootsOfOne | source/rho/algo/tBigInteger.cpp:1356-1399 | modulo a prime only 1 and -1 square to 1 |
| MillerRabin.TrailingZeros | source/rho/algo/tBigInteger.cpp:1364-1375 | the mask walk finds the largest power of two dividing n - 1 |
| MillerRabin.Witness | source/rho/algo/tBigInteger.cpp:1356-1399 | true exactly when n is not a strong probable prime to base a (the textbook definition), for any array a |
| MillerRabin.PrimesPass | source/rho/algo/tBigInteger.cpp:1356-1399 | a prime is a strong probable prime to every base from 1 to n - 1 |
| MillerRabin.StrongInPowers | source/rho/algo/tBigInteger.cpp:1356-1399 | passing spelled out in powers: b^(n-1) is 1 mod n, and wherever n - 1 = e 2^j with j > 0 and b^(2e) is 1, b^e is 1 or -1 |
| Primality.PrimeIffAllPass | source/rho/algo/tBigInteger.cpp:1356-1399 | n is prime if and only if every base from 1 to n - 1 passes |
| Primality.DivisorIsWitness | source/rho/algo/tBigInteger.cpp:1356-1399 | a proper divisor of n is always a witness |
| Primality.RandNumWithBits | source/rho/algo/tBigInteger.cpp:1327-1341 | the random words modulo 2^bits; whole words keep their zeros on top |
| Primality.Attempt | source/rho/algo/tBigInteger.cpp:1343-1354 | an accepted draw is below n, and zero exactly when n fills its words to the last bit and all words drawn are zero |
| Primality.IsPrime | source/rho/algo/tBigInteger.cpp:1401-1423 | for any accepted draws, zero and uncleaned ones included: true exactly for an odd n above 1 for which every base satisfies those conditions on powers |
| Primality.VerdictInPowers | source/rho/algo/tBigInteger.cpp:1416-1422 | acceptance of an odd n is those conditions for every base |
| Primality.ExhaustiveVerdict | source/rho/algo/tBigInteger.cpp:1416-1422 | with all bases from 1 to n - 1 drawn, and zero not, an odd n is accepted if and only if it is prime |
| Primality.OddPrimeAccepted | source/rho/algo/tBigInteger.cpp:1416-1422 | an odd prime is accepted if and only if zero is not among the bases drawn |
| Primality.SafePrimes | source/rho/algo/tBigInteger.cpp:1416-1422 | no draw can reject an odd prime if and only if its bit length is not a multiple of 32 |
| Primality.RejectedPrime | source/rho/algo/tBigInteger.cpp:1416-1422 | 3 * 2^30 + 1 is a prime of 32 bits that a drawn zero rejects |
| ProthPrime.ProthIsPrime | source/rho/algo/tBigInteger.cpp:1416-1422 | that number is prime, by 125^(2^29) = -1 modulo it |
| Primality.FalseMeansComposite | include/rho/algo/tBigInteger.h:74-74 | with nonzero bases a rejected integer is composite if and only if it is above 2 |
| Primality.FalseWithoutFactor | include/rho/algo/tBigInteger.h:74-74 | 2, 1, 0 and all negative numbers are rejected without being composite |
| Pcq.Queue.Push | include/rho/sync/tPCQ.h:178-212 | when a push is taken, dropped, refused or has to wait, when sleeping consumers are woken, and how the capacity grows |
| Pcq.Queue.Pop | include/rho/sync/tPCQ.h:214-266 | when a pop gets the front item or has to wait, and when sleeping producers are woken |
| Pcq.PushKeeps | include/rho/sync/tPCQ.h:178-212 | push takes the item exactly when there is room or the queue grows, otherwise drops it, waits or throws as configured, and leaves nobody asleep without reason |
| Pcq.PopKeeps | include/rho/sync/tPCQ.h:214-266 | pop removes exactly the front item, or waits exactly when there is none, and leaves nobody asleep without reason |
| Pcq.PushTakesOrWaits | include/rho/sync/tPCQ.h:178-212 | the section of a push records the item, sends the thread away, or puts it to sleep, exactly when the code does |
| Pcq.PopTakesOrWaits | include/rho/sync/tPCQ.h:214-266 | the section of a pop hands out the front item or puts the thread to sleep |
| Pcq.TimeoutTakesNothing | include/rho/sync/tPCQ.h:251-253 | a pop that has timed out leaves without an item, even if there is one |
| Pcq.SectionWakesAll | include/rho/sync/tPCQ.h:226-292 | a push that is taken leaves no consumer asleep, a pop that gets its item no producer |
| Pcq.SectionKeepsInv | include/rho/sync/tPCQ.h:178-266 | the critical section of any thread in any reachable state keeps the invariant |
| Pcq.StepKeepsInv | include/rho/sync/tPCQ.h:178-266 | so does every step: call, lock, section, wake-up, spurious wake-up, timeout |
| Pcq.RunKeepsInv | include/rho/sync/tPCQ.h:178-266 | so does every run |
| Pcq.NoLostWakeups | include/rho/sync/tPCQ.h:178-292 | in every run a sleeping consumer means size 0, a sleeping producer a full blocking queue, and never both |
| Pcq.FirstInFirstOut | include/rho/sync/tPCQ.h:40-82 | in every run what was handed out is a prefix of what was accepted, and the rest is queued within the capacity |
| Pcq.StuckOnlyForGoodReason | include/rho/sync/tPCQ.h:40-82 | threads all wait only for the other side: no thread that could go on is left asleep |
| Pcq.GrowingQueue | include/rho/sync/tPCQ.h:33-34 | in every run of a growing queue that never holds more than 2^31 items, size = length <= capacity, and a consumer sleeps only when it is empty |
| Pcq.CapacityWraps | include/rho/sync/tPCQ.h:201-204 | one item more can be reached, and leaves capacity 0 |
| Pcq.GrowMakesRoom | include/rho/sync/tPCQ.h:201-204 | a growing push covers the new size if and only if the size is 2^32 - 1, or the capacity below 2^31 and the size below twice it |
| StreamPcq.StreamEnd.Read | include/rho/sync/tStreamPCQ.h:81-112 | delivers as many of the next bytes as the block in hand has and the caller takes, waiting for writers if it must, 0 at the end mark, -1 ever after |
| StreamPcq.StreamEnd.ReadAll | include/rho/sync/tStreamPCQ.h:114-128 | fills the buffer unless the stream ends first, with what was queued and what is written while it waits |
| StreamPcq.StreamEnd.Write | include/rho/sync/tStreamPCQ.h:130-142 | queues the bytes if and only if there is room or the queue grows; otherwise it waits, throws, or returns the length all the same |
| StreamPcq.StreamEnd.Close | include/rho/sync/tStreamPCQ.h:160-165 | queues the end mark under the same condition |
| StreamRuns.MoveKeepsInv | include/rho/sync/tStreamPCQ.h:81-165 | every step of reader and writers keeps bytes read, block in hand, blocks taken and blocks queued in step |
| StreamRuns.StreamDelivers | include/rho/sync/tStreamPCQ.h:20-36 | in every run the bytes read begin those accepted, and are all of them at the end; counts add up, then 0 once, then -1; unless the queue discards, accepted is written |
| StreamRuns.WrittenIsRead | include/rho/sync/tStreamPCQ.h:20-36 | read to the end, the bytes are exactly those written before the close |
| StreamRuns.SleeperHasReadAll | include/rho/sync/tStreamPCQ.h:94-96 | a reader asleep has read every byte accepted, and no end mark is on its way |
| StreamRuns.WriteIsQueued | include/rho/sync/tStreamPCQ.h:138-141 | in every reachable state the section of a write or close queues its block if and only if there is room or the queue grows |
| StreamRuns.DiscardLosesTheEnd | include/rho/sync/tStreamPCQ.h:160-165 | a run in which write and close return, the end mark is lost and the reader sleeps for ever |
| StreamPcq.ClosedStream | include/rho/sync/tStreamPCQ.h:20-36 | a closed stream is the concatenation of what was written before, whatever comes after the end mark |
| HashCollector.HashCtx.CountLength | source/rho/crypt/md32_common.h:204-210 | Nh:Nl is the length in bits modulo 2^64 across the carry |
| HashCollector.HashCtx.Update | source/rho/crypt/md32_common.h:195-251 | the context stands for the message extended by the input: chunking is invisible |
| HashCollector.HashCtx.Final | source/rho/crypt/md32_common.h:260-293 | the state is the compression function folded over the padded message, and the buffer is cleared |
| HashCollector.FoldAppend | source/rho/crypt/md32_common.h:235-242 | compressing whole blocks now or later makes no difference |
| HashCollector.LengthFieldVal | source/rho/crypt/md32_common.h:276-283 | the last eight bytes are the length, in the byte order of the hash |
| HashCollector.PaddedLength | source/rho/crypt/md32_common.h:265-285 | the padded message is whole blocks, at most one more than needed for the mark and the length |
| HashCollector.PaddedShape | source/rho/crypt/md32_common.h:265-285 | message, mark 0x80, zeros, and in the last eight bytes the bit length modulo 2^64 |
| HashCollector.OneBlock | source/rho/crypt/md32_common.h:254-257 | over one block the fold is the compression function |
| HashCollector.PaddingInjective | source/rho/crypt/md32_common.h:260-293 | different messages below 2^61 bytes have different padded forms |
| KeyDerivation.Hmac | source/rho/crypt/hash_utils.cpp:33-74 | hash(outer + hash(inner + message)) of section 2 of RFC 2104: the key, hashed if longer than a block, then zeros, with the bits of 0x5c and of 0x36 turned over |
| KeyDerivation.SameKeys | source/rho/crypt/hash_utils.cpp:47-59 | keys of at most a block are masked to the same bytes if and only if they differ in trailing zeros only |
| KeyDerivation.BlockT | source/rho/crypt/hash_utils.cpp:119-151 | T_i of section 5.2 of RFC 2898 |
| KeyDerivation.FirstIterate | source/rho/crypt/hash_utils.cpp:128-134 | U_1 hashes the salt and the block number as four bytes, most significant first |
| KeyDerivation.NextIterate | source/rho/crypt/hash_utils.cpp:140-143 | each further iterate hashes the one before |
| KeyDerivation.BlockBits | source/rho/crypt/hash_utils.cpp:140-148 | bit b of byte q of T_i is the parity of the iterates U_1 to U_c that have it |
| KeyDerivation.OddIteratesAre | source/rho/crypt/hash_utils.cpp:140-148 | the set counted there holds exactly the iterates with that bit |
| Bits.XorBits | source/rho/crypt/hash_utils.cpp:146-147 | the exclusive or has bit b exactly when the operands differ in it |
| KeyDerivation.Pbkdf2 | source/rho/crypt/hash_utils.cpp:154-178 | the first dklen bytes of T_1, T_2, ...: each bit of byte k is the parity over the iterates of block k/n + 1; and the three errors |
| KeyDerivation.ByteOfBlocks | source/rho/crypt/hash_utils.cpp:165-177 | byte k of a key is byte k mod n of T_(k/n + 1) |
| KeyDerivation.ShorterIsPrefix | source/rho/crypt/hash_utils.cpp:165-177 | a shorter key is a prefix of a longer one |
| Generators.Lcg.Next | source/rho/algo/tLCG.cpp:45-51 | one step of x -> a x + c, and its high bits, never above randMax, for both generators |
| Generators.Lcg.RandMax | source/rho/algo/tLCG.cpp:53-56 | the bound of Next: 2 to the number of bits left, less 1, and each value up to it appears (EquallyOften) |
| Generators.Lcg.ReadAll | source/rho/algo/tLCG.cpp:24-43 | fills the buffer with the next bytes of one endless byte sequence, so reads may be cut anywhere |
| Generators.Refill | source/rho/algo/tLCG.cpp:31-35 | taking the next output continues that sequence without a gap |
| Generators.Lcg.ReadsOutputs | source/rho/algo/tLCG.cpp:29-40 | from an empty buffer each group of bytes is one output, least significant byte first |
| Generators.Lcg.ReadsHeldBytes | source/rho/algo/tLCG.cpp:37-39 | a buffer half used gives the bytes it still holds, least significant first |
| LcgTheory.Jump | source/rho/algo/tLCG.cpp:45-51 | 2^s steps are one affine map whose factor is 1 mod 2^(s+2) and whose offset is an odd multiple of 2^s |
| LcgTheory.FullPeriod | source/rho/algo/tLCG.cpp:45-51 | factor 1 mod 4 and odd offset: modulo 2^k every state comes exactly once in 2^k steps |
| LcgTheory.EquallyOften | source/rho/algo/tLCG.cpp:45-56 | every output is then produced equally often |
| LcgTheory.OutputsAreCounted | source/rho/algo/tLCG.cpp:45-56 | the number spoken of is the number of steps that give that output |
| Generators.GlibcFullPeriod | source/rho/algo/tLCG.cpp:45-56 | tLCG visits all 2^31 states and produces every value 512 times per period |
| Generators.KnuthFullPeriod | source/rho/algo/tLCG.cpp:97-108 | tKnuthLCG visits all 2^64 states and produces every value 512 times per period |
| Strings.Split | source/rho/algo/util.cpp:67-121 | the parts between the first delimiters found, from left to right |
| Strings.SplitJoin | source/rho/algo/util.cpp:67-121 | joining the parts with the delimiter gives back the string, and a positive limit bounds their number |
| Strings.UnlimitedSplit | source/rho/algo/util.cpp:67-121 | without a limit no part contains a nonempty delimiter |
| Strings.LimitedSplit | source/rho/algo/util.cpp:67-121 | with any limit only the last part can contain it |
| Strings.SplitIsExact | source/rho/algo/util.cpp:67-121 | the parts are the only list that joins to the string, keeps to the limit, is cut at first delimiters, and leaves one uncut only in the last part and at the limit |
| Strings.SplitCharacters | source/rho/algo/util.cpp:73-98 | an empty delimiter cuts behind every character until the limit is reached, the rest being the last part |
| Strings.Replace | source/rho/algo/util.cpp:55-65 | replacing in place equals joining the split with the replacement |
| Strings.ReplaceTerminates | source/rho/algo/util.cpp:55-65 | the loop of replace ends if and only if the search string is not empty |
| Refc.World.FromRaw | include/rho/refc.h:67-91 | wrapping a raw pointer shares the counter of a known object and starts one otherwise |
| Refc.World.CopyOf | include/rho/refc.h:93-102 | a copy counts once more |
| Refc.World.AssignFrom | include/rho/refc.h:104-126 | assignment lets the old object go and counts the new one, self-assignment included |
| Refc.World.AssignRaw | include/rho/refc.h:128-167 | assignment of a raw pointer, NULL included |
| Refc.World.Release | include/rho/refc.h:110-118 | an object leaves the registry and is deleted exactly when its last handle lets go |
| Refc.World.Destroy | include/rho/refc.h:239-253 | the destructor keeps every other handle in order |
| Refc.DetachLast | include/rho/refc.h:110-118 | after the last handle is gone nothing points at the deleted object |
| Refc.ManagedIffHeld | include/rho/refc.h:67-167 | in a consistent registry the registered objects are those with a handle, all alive, each counter their number |
| RefcRuns.StepKeepsInv | include/rho/refc.h:67-167 | every step of every thread is safe and keeps registry, counters, objects and unfinished releases consistent |
| RefcRuns.HandlesAfter | include/rho/refc.h:67-167 | which handle each step sets or removes, on which object, and that only the delete step deletes |
| RefcRuns.NoUseAfterFree | include/rho/refc.h:110-118 | in every run no step touches a deleted counter or object |
| RefcRuns.NoStaleEntry | include/rho/refc.h:110-118 | in every run an entry was made for the object now at its address, and a fresh object at a reused address finds none |
| RefcRuns.CountsMatch | include/rho/refc.h:93-126 | in every run a handle's object is alive and its counter is the number of handles on it |
| RefcRuns.DeletedOnce | include/rho/refc.h:239-253 | in every run each object is alive or has been deleted exactly once |
| RefcRuns.NothingLeaks | include/rho/refc.h:239-253 | when no release is under way, only objects held or not wrapped are alive, and every counter is in use |
| RefcRuns.DeleteFirstGoesWrong | include/rho/refc.h:110-118 | with erase and delete swapped there is a run in which a wrap finds the entry of a deleted object and ends with a deleted counter |

## Left out

- Words.ShiftRight: a shift of a 32-bit word by 32, which C++ leaves undefined and the code performs on a masked 0 when n is a multiple of 32, is taken as 0; the same in ShiftLeft.
- AddSub.Add: adding an array to itself with a word offset is excluded, the padding loop of the code would chase its own size for ever; no caller does it.
- Euclid.ExtendedGCD: the two outputs must be different objects.
- BigIntegers.BigInteger.constructor: the minimum i32 is excluded, the code negates it in 32 bits.
- Strings.Replace: an empty search string is excluded, on which the code does not terminate (ReplaceTerminates).
- Primality.IsPrime: the bases are parameters in place of random draws, any that Attempt accepts; the error bound 2^-rounds is not stated.
- Montgomery.MontgomeryProduct: the scratch parameter that is never used is dropped, as in ModPow.ModMultiply, Multiply.MultiplyKaratsuba and Divide.DivideArrays.
- Pcq.Queue.Push: what happens between taking and giving up the mutex is one step; errors of the pthread calls are not modelled.
- Pcq.Queue.Pop: the clock arithmetic of the timed pop is not modelled, a timeout may come at any moment.
- StreamPcq.StreamEnd.Read: one call on its own meets the other threads as the blocks the queue will yet take from them; a call for which nothing will ever come has not returned and is excluded. StreamRuns has all interleavings. Ownership of the byte buffers, the draining destructor and the loop in writeAll are not modelled.
- KeyDerivation.Hmac: the hash is any function of the bytes written, as Final provides; the seven instances for particular hashes are not spelled out.
- Refc.World.Release: here a whole call is one step; the interleavings are in RefcRuns. Counters are unbounded, and objects that hold handles themselves are excluded.
- RefcRuns.StepKeepsInv: a copy reads and increments in one step, and raw pointers are wrapped only when fresh or while another handle is live, as the class asks of its users.
- Arrays.TArray.SetSize: the heap block is kept as two sequences, the used and the spare cells; cells of a new block hold unspecified values.
- Numbers are assumed small enough for `int` and `size_t` loop indices.
- genPseudoPrime, and that a draw is accepted sooner or later: external randomness and probabilistic termination.
- modMultiplyBlakley: not called anywhere.
- The compression functions and HASH_MAKE_STRING of the hashers are uninterpreted.
- The comparison operators derived from `<` and `==`, abs, the i32 operators and the stream operators of tBigInteger: one-line wrappers.
- The other helpers of util.cpp, nrand, number packing and plain buffered streams: easy members.
- FFT, geometry, images, audio files: floating-point samples and foreign formats.
- AES, RSA, secure streams, thread pool, timers, IP, zlib, XML and file streams: I/O or foreign code.
