# Verified models of the bundled C components

The repository bundles four C components that carry its hard logic: mbedTLS's multi-precision integers and ciphers, the
AWS IoT MQTT 3.1.1 client, the jsmn JSON tokenizer, and the Base64 and DER codecs. This project models them in Dafny and
proves what they compute. `dafny verify dfyconfig.toml` checks all of it.

Code that updates things in place is modelled in place: an `Mpi` object with sign and limbs, the AES, Blowfish and ARC4
contexts with their tables, the jsmn parser with its token array, the MQTT client with its state field, a DER writer and
a DER reader with their positions. Each such method is proved against a specification function or a mathematical
statement, and the laws of the component are proved about those.

| directory | component | main results |
|---|---|---|
| `bignum/` | `bignum.c` | exact arithmetic, Knuth division at two levels, Montgomery multiplication, sliding-window exponentiation, binary gcd and inverse, a primality test that refuses a prime only when its draws run out |
| `jsmn/` | `jsmn.c` | the texts that are accepted, as a grammar, with their tokens; resuming gives what one run gives; the reason for every error |
| `mqtt/` | the MQTT client | what each call sent and read when it reports success; states over all runs and nestings of callbacks; back-off; packet round trips |
| `crypto/` | `aes.c`, `blowfish.c`, `arc4.c` | table-driven AES is the cipher of FIPS-197, and decryption undoes it, for every key and block; CBC, CFB, CFB8 and CTR by the equations of SP 800-38A; ARC4 |
| `codecs/` | `base64.c`, `asn1write.c`, `asn1parse.c` | Base64 and DER round trips, with the exact conditions where they fail |

## How the code is read

**Numbers.** A limb has 32 bits, which is what `bignum.h` selects on the 32-bit ARM boards the installer scripts are
written for and wherever `MBEDTLS_HAVE_INT32` is set; builds for x86-64 take 64. An array of limbs is a sequence held by
the object and reassigned when it grows; an empty one is the NULL pointer. `|=` of bits that are known to be zero is an
addition, masks and shifts are remainders and quotients; wrapping is written out. `MULADDC` (in `bn_mul.h`, which is not
part of this model) is the exact step `d + s*b + c`, split into two limbs. Allocation may refuse at any time, and
contracts say what holds when it does not. Both branches of the limb division are modelled, with and without a
double-width type. The window table starts with empty entries of sign 1. The code's own preconditions appear as such: Q
of a division is neither operand, R of a reduction is not the modulus, and X of an exponentiation is neither exponent
nor modulus and A has at least one limb. Where the code departs from the mathematics the exact condition is proved:
`AddAbs` with one object in all three places doubles limb by limb (`MpiArith.DoubledLimbsExact`), a negative base gives
the right power exactly for odd exponents or a zero power (`ExpMod.NegativeBaseExact`), which for a base prime to the
modulus means exactly for odd exponents (`ExpMod.NegativeBaseCoprime`), an inverse modulo 1 is never found because the
loop does not end (`GcdInverse.OneNeverEnds`), remainders by an int are right exactly for divisors up to 2^16 and powers
of two (`PrimeTest.HalfwiseModExact`), and `GcdMpi` yields 0 when B is 0. The random source of the primality test is
an object that supplies any bytes or fails, and remembers what it supplied; contracts speak of these draws. The first
number drawn in each round is overwritten by the second.

**jsmn.** Strict mode, without parent links. The text ends in a NUL, and an escape sequence is scanned past `len` as the
code does. `JsmnGrammar` has the accepted texts with their characters written out, and `JsmnFaults` what stands where a
run stops with an error; neither uses the character classes of the scanner. Integers are unbounded.

**MQTT client.** One thread. The transport, the timers and the application's callbacks are arbitrary: a wait is any
number of polls, a callback any number of calls on the same client except for connecting, nested as deep as one likes
(the depth is a parameter of every method). What the calls do to the network, the packets and the timers is recorded in
a ghost list, each entry with the depth of its call, and the contracts say what a call left there (`MqttEvents`). Which
of the handlers in use a message matches is arbitrary, and topic filters are numbers. `read_packet` clears its
byte counter with every read, so its limit of four length bytes never applies; the model lets that read fail in any way.
The transport's codes that equal `NETWORK_DISCONNECTED_ERROR` or `NETWORK_ATTEMPTING_RECONNECT` are the one way in which
a yield can leave the client yielding, as the contract of `Client.Yield` says. `aws_iot_mqtt_init` sets neither the
packet id nor the intervals, so these start with any value; a reconnect by hand takes up whatever wait interval is left
from an earlier episode, or from the memory if there was none.

**MQTT packets.** Serializers are described for every buffer but the one size, from 2^28 bytes on, for which the
pre-check is one byte short (`MqttWire.CoveredExactly`). Sums of lengths are taken not to wrap. A parser that would read
behind its buffer or its packet has an undefined result; `MqttBounds` says for each parser which inputs those are.
`ConnackRead` records a disagreement with MQTT 3.1.1 section 3.2.2.2: the session-present flag is taken from the top bit
instead of the lowest.

**Ciphers.** Bytes and words are bit-vectors. The tables of AES are generated at run time into arrays, guarded by the
`aes_init_done` flag. `AesStandard` writes the cipher of FIPS-197 down a second time, on bytes by row and
column, and `ModeMeaning` the equations of the modes, which hold for every block function, as the round trips do for every
invertible one. The mode functions of `aes.c` and
`blowfish.c` differ in block size and error code only, so one method with a context of either kind stands for both.

**Codecs.** The largest value of `size_t` is a parameter of the Base64 methods. Sources are values that do not alias the
destination. A DER reader works on a constant buffer. Two C functions look at one byte that need not exist:
`mbedtls_asn1_get_int` behind an empty INTEGER, where the result is `Undefined` if that byte lies behind the buffer, and
`mbedtls_asn1_write_mpi` for the number zero, which writes `02 00` or `02 01 00` depending on it.

## Model

| member | source | states |
|---|---|---|
| MpiBase.Grow | src/aws_iot_src/external_libs/mbedTLS/library/bignum.c:114-138 | more limbs, the number and the sign unchanged; a refused allocation changes nothing |
| MpiBase.Copy | src/aws_iot_src/external_libs/mbedTLS/library/bignum.c:180-209 | value and sign move over, an operand without limbs gives an empty number, copying onto itself changes nothing |
| MpiBase.Lset | src/aws_iot_src/external_libs/mbedTLS/library/bignum.c:290-303 | the number becomes z; the limbs that were there stay allocated |
| MpiShift.Lsb | src/aws_iot_src/external_libs/mbedTLS/library/bignum.c:347-357 | number of trailing zero bits, 0 for the number zero |
| MpiBase.Clz | src/aws_iot_src/external_libs/mbedTLS/library/bignum.c:362-375 | number of leading zero bits of a limb |
| MpiBase.Bitlen | src/aws_iot_src/external_libs/mbedTLS/library/bignum.c:380-394 | number of binary digits, whatever leading zero limbs there are |
| MpiBinary.Size | src/aws_iot_src/external_libs/mbedTLS/library/bignum.c:399-402 | the least number of bytes that hold the number |
| MpiBinary.ReadBinary | src/aws_iot_src/external_libs/mbedTLS/library/bignum.c:667-685 | the number becomes the one the byte string stands for, highest byte first, any leading zeros and any length |
| MpiBinary.WriteBinary | src/aws_iot_src/external_libs/mbedTLS/library/bignum.c:690-705 | succeeds exactly if the number is below 256^buflen and then stores its base-256 digits, padded with zeros in front; all other bytes keep their values |
| MpiShift.ShiftL | src/aws_iot_src/external_libs/mbedTLS/library/bignum.c:710-755 | multiplies by 2^count exactly, across any limb count |
| MpiShift.ShiftR | src/aws_iot_src/external_libs/mbedTLS/library/bignum.c:760-798 | divides the magnitude by 2^count, rounding towards zero |
| MpiArith.CmpAbs | src/aws_iot_src/external_libs/mbedTLS/library/bignum.c:803-828 | the order of the magnitudes, whatever leading zero limbs there are |
| MpiArith.CmpMpi | src/aws_iot_src/external_libs/mbedTLS/library/bignum.c:833-861 | the order of the signed numbers; zero compares equal to zero of either sign |
| MpiArith.CmpInt | src/aws_iot_src/external_libs/mbedTLS/library/bignum.c:866-877 | the order against an int |
| MpiArith.AddAbs | src/aws_iot_src/external_libs/mbedTLS/library/bignum.c:882-929 | the exact sum of the magnitudes, the output aliasing one operand or none; when it is both operands, every limb is doubled without carry |
| MpiArith.DoubledLimbsExact | src/aws_iot_src/external_libs/mbedTLS/library/bignum.c:909-913 | limb-wise doubling is at most twice the number, and is twice the number if and only if no limb has its top bit set |
| MpiArith.DoublingFails | src/aws_iot_src/external_libs/mbedTLS/library/bignum.c:909-913 | 2^31 added to itself in place leaves zero |
| MpiArith.AddLoop | src/aws_iot_src/external_libs/mbedTLS/library/bignum.c:907-913 | sum and carry out of the loop stand for the exact sum |
| MpiArith.AddCarry | src/aws_iot_src/external_libs/mbedTLS/library/bignum.c:915-924 | the carry moves up, growing the array by one limb when it leaves it |
| MpiArith.SubHlp | src/aws_iot_src/external_libs/mbedTLS/library/bignum.c:934-950 | exact difference, the borrow staying inside the array whenever the subtrahend is not larger |
| MpiArith.SubAbs | src/aws_iot_src/external_libs/mbedTLS/library/bignum.c:955-993 | the exact difference of the magnitudes with any aliasing; the negative-value error exactly if |A| < |B| |
| MpiArith.AddMpi | src/aws_iot_src/external_libs/mbedTLS/library/bignum.c:998-1024 | the exact signed sum |
| MpiArith.SubMpi | src/aws_iot_src/external_libs/mbedTLS/library/bignum.c:1029-1055 | the exact signed difference, with any aliasing |
| MpiArith.SubInt | src/aws_iot_src/external_libs/mbedTLS/library/bignum.c:1076-1087 | the exact difference with an int |
| MpiMul.MulAddC | src/aws_iot_src/external_libs/mbedTLS/library/bignum.c:1104-1151 | one multiply-accumulate step: low and high limb stand for s*b + c + d |
| MpiMul.MulAddCHalves | src/aws_iot_src/external_libs/mbedTLS/library/bignum.c:1104-1151 | the same limbs, computed from half-limb products without a double-width type |
| MpiMul.MulHlp | src/aws_iot_src/external_libs/mbedTLS/library/bignum.c:1092-1159 | adds b times the operand to the limbs from o on, and no carry leaves the array |
| MpiMul.MulRows | src/aws_iot_src/external_libs/mbedTLS/library/bignum.c:1186-1187 | the rows of a schoolbook multiplication add up to the product |
| MpiMul.MulMpi | src/aws_iot_src/external_libs/mbedTLS/library/bignum.c:1164-1196 | the exact signed product with any aliasing |
| MpiMul.MulInt | src/aws_iot_src/external_libs/mbedTLS/library/bignum.c:1201-1212 | the exact product with one limb |
| LimbDivision.IntDivIntWide | src/aws_iot_src/external_libs/mbedTLS/library/bignum.c:1234-1251 | quotient and remainder of the two-limb dividend; all ones on overflow or division by zero |
| LimbDivision.CorrectionExact | src/aws_iot_src/external_libs/mbedTLS/library/bignum.c:1281-1281 | the wrapping comparison of the correction loop decides as exact arithmetic would |
| LimbDivision.CorrectionLoop | src/aws_iot_src/external_libs/mbedTLS/library/bignum.c:1281-1299 | the corrected half-limb digit never falls below the true one, and the loop ends only where the exact test passes or the remainder outgrew the radix |
| LimbDivision.HalfDigit | src/aws_iot_src/external_libs/mbedTLS/library/bignum.c:1278-1299 | after the corrections the half-limb digit is the true quotient digit |
| LimbDivision.DivNormalized | src/aws_iot_src/external_libs/mbedTLS/library/bignum.c:1269-1304 | two half-limb digits of a normalised division and their remainder, though the arithmetic wraps |
| LimbDivision.IntDivInt | src/aws_iot_src/external_libs/mbedTLS/library/bignum.c:1231-1308 | the half-limb branch computes the same quotient and remainder as double-width division, for every divisor above u1 |
| MpiDivision.TruncDivision | src/aws_iot_src/external_libs/mbedTLS/library/bignum.c:1311-1311 | the specification of division: A = Q*B + R, |R| < |B|, R zero or of the sign of A |
| MpiDivision.TruncDivisionUnique | src/aws_iot_src/external_libs/mbedTLS/library/bignum.c:1311-1311 | no other quotient and remainder meet that specification |
| MpiDivision.DigitAtMostOneTooLarge | src/aws_iot_src/external_libs/mbedTLS/library/bignum.c:1371-1386 | a digit that passes the 3-by-2 limb test exceeds the true digit by one at most |
| MpiDivision.GuessDigit | src/aws_iot_src/external_libs/mbedTLS/library/bignum.c:1363-1369 | the first trial digit is never too small |
| MpiDivision.TestDigit | src/aws_iot_src/external_libs/mbedTLS/library/bignum.c:1376-1386 | a rejected trial digit is too large; an accepted one is at most one too large |
| MpiDivision.TrialDigit | src/aws_iot_src/external_libs/mbedTLS/library/bignum.c:1371-1386 | the loop ends with the true digit or the true digit plus one |
| MpiDivision.SubtractDigit | src/aws_iot_src/external_libs/mbedTLS/library/bignum.c:1388-1398 | at most one add-back is needed, after which digit and remainder are exact |
| MpiDivision.DivDigit | src/aws_iot_src/external_libs/mbedTLS/library/bignum.c:1363-1398 | one turn divides exactly: what was there is digit times shifted divisor plus a remainder below it |
| MpiDivision.Normalize | src/aws_iot_src/external_libs/mbedTLS/library/bignum.c:1341-1348 | dividend and divisor are scaled by the same power of two |
| MpiDivision.DivTop | src/aws_iot_src/external_libs/mbedTLS/library/bignum.c:1350-1359 | the highest digit, found by repeated subtraction |
| MpiDivision.DivLoop | src/aws_iot_src/external_libs/mbedTLS/library/bignum.c:1361-1399 | quotient times divisor plus remainder is kept over all turns, and the remainder ends below the divisor |
| MpiDivision.DivMagnitudes | src/aws_iot_src/external_libs/mbedTLS/library/bignum.c:1332-1399 | quotient and scaled remainder of the magnitudes |
| MpiDivision.DivMpi | src/aws_iot_src/external_libs/mbedTLS/library/bignum.c:1313-1423 | truncating division with signs; Q or R may be NULL, R may alias an operand; the division-by-zero error exactly if B is zero |
| MpiDivision.ModMpi | src/aws_iot_src/external_libs/mbedTLS/library/bignum.c:1444-1462 | A mod B in [0, B) for B > 0, also when R is A; the errors for negative and zero B |
| Montgomery.NewtonStep | src/aws_iot_src/external_libs/mbedTLS/library/bignum.c:1532-1533 | one Newton step squares the modulus for which x inverts m |
| Montgomery.SeedInverse | src/aws_iot_src/external_libs/mbedTLS/library/bignum.c:1529-1530 | the seed inverts the lowest limb modulo 16 |
| Montgomery.MontgInit | src/aws_iot_src/external_libs/mbedTLS/library/bignum.c:1524-1536 | mm * N[0] is -1 modulo the radix, for every odd N[0] |
| Montgomery.RowBound | src/aws_iot_src/external_libs/mbedTLS/library/bignum.c:1561-1562 | a row never runs off the temporary, which stays below N + B |
| Montgomery.RowShrinks | src/aws_iot_src/external_libs/mbedTLS/library/bignum.c:1553-1565 | the bound N + B is restored after dropping the zero limb |
| Montgomery.MontRows | src/aws_iot_src/external_libs/mbedTLS/library/bignum.c:1553-1565 | after n rows T holds A*B/R modulo N below N + B, and the limbs of A are kept below it |
| Montgomery.DummyFits | src/aws_iot_src/external_libs/mbedTLS/library/bignum.c:1571-1573 | the borrow of the dummy subtraction never runs off T |
| Montgomery.MontFinish | src/aws_iot_src/external_libs/mbedTLS/library/bignum.c:1567-1573 | one conditional subtraction brings the result below N |
| Montgomery.MontMul | src/aws_iot_src/external_libs/mbedTLS/library/bignum.c:1541-1574 | for B at most N, A ends in [0, N) with A*R congruent to the product of the operands, whatever T held |
| Montgomery.MontRed | src/aws_iot_src/external_libs/mbedTLS/library/bignum.c:1579-1588 | A ends in [0, N) with A*R congruent to the old A |
| ExpMod.FillTable | src/aws_iot_src/external_libs/mbedTLS/library/bignum.c:1672-1695 | every window entry that is used holds its power of the base in Montgomery form |
| ExpMod.ScanExponent | src/aws_iot_src/external_libs/mbedTLS/library/bignum.c:1697-1759 | X holds the base to the power of the bits consumed, in Montgomery form, and the rest waits in the window, for every window size |
| ExpMod.CloseWindow | src/aws_iot_src/external_libs/mbedTLS/library/bignum.c:1742-1758 | squaring wsize times and multiplying by the window entry consumes the window |
| ExpMod.RemainingBits | src/aws_iot_src/external_libs/mbedTLS/library/bignum.c:1761-1772 | the bits left in the window are consumed one by one |
| ExpMod.LeaveMontgomery | src/aws_iot_src/external_libs/mbedTLS/library/bignum.c:1774-1777 | leaving Montgomery form yields the power modulo N |
| ExpMod.PrepareRR | src/aws_iot_src/external_libs/mbedTLS/library/bignum.c:1641-1654 | R^2 mod N, computed or taken from a cache that holds it; the cache stays right |
| ExpMod.ExpMod | src/aws_iot_src/external_libs/mbedTLS/library/bignum.c:1593-1796 | X = A^E mod N for odd N > 0, E >= 0 and A >= 0, for every window size, with or without a cache; bad input exactly for negative or even N or negative E; for negative A the complemented power |
| ExpMod.NegativeBaseExact | src/aws_iot_src/external_libs/mbedTLS/library/bignum.c:1779-1783 | for negative A the result lies in 1..N, is a residue unless N divides the power, and is congruent to A^E if and only if E is odd or N divides the power |
| ExpMod.NegativeBaseCoprime | src/aws_iot_src/external_libs/mbedTLS/library/bignum.c:1779-1783 | for a negative base prime to N > 1 the result is a residue, and is congruent to A^E if and only if E is odd |
| ExpMod.NegativeBaseFails | src/aws_iot_src/external_libs/mbedTLS/library/bignum.c:1779-1783 | (-2)^2 modulo 5 comes out as 1 instead of 4 |
| GcdInverse.GcdLoop | src/aws_iot_src/external_libs/mbedTLS/library/bignum.c:1823-1838 | the binary loop ends with the greatest common divisor when that is odd |
| GcdInverse.GcdMpi | src/aws_iot_src/external_libs/mbedTLS/library/bignum.c:1801-1848 | the greatest common divisor of the magnitudes for B other than 0; for B = 0 the code yields 0 |
| GcdInverse.CoprimeTurn | src/aws_iot_src/external_libs/mbedTLS/library/bignum.c:1907-1950 | taking out twos and subtracting the smaller keeps two numbers coprime |
| GcdInverse.HalveLoop | src/aws_iot_src/external_libs/mbedTLS/library/bignum.c:1909-1935 | halving keeps TU = U1*TA + U2*TB (and likewise TV), every halving exact, down to the odd part |
| GcdInverse.SubtractTriple | src/aws_iot_src/external_libs/mbedTLS/library/bignum.c:1937-1948 | the subtraction keeps the linear combination |
| GcdInverse.InvStep | src/aws_iot_src/external_libs/mbedTLS/library/bignum.c:1907-1950 | one turn keeps both linear combinations and coprimality, and the sum of the two numbers decreases |
| GcdInverse.InvLoop | src/aws_iot_src/external_libs/mbedTLS/library/bignum.c:1907-1950 | the loop terminates, with TV = 1 as a combination of A and N |
| GcdInverse.InvMod | src/aws_iot_src/external_libs/mbedTLS/library/bignum.c:1877-1967 | terminates for every N but 1; success gives X in [0, N) with A*X congruent to 1 and only happens for coprime operands, the not-acceptable error only for others, bad input exactly for N <= 0 |
| GcdInverse.StartsAtZero | src/aws_iot_src/external_libs/mbedTLS/library/bignum.c:1890-1899 | once the checks are passed, the loops start from TU = 0 if and only if N is 1 |
| GcdInverse.HalveZero | src/aws_iot_src/external_libs/mbedTLS/library/bignum.c:1910-1921 | any number of turns of the first inner loop leaves TU = 0 zero and even, so its guard holds again |
| GcdInverse.OneNeverEnds | src/aws_iot_src/external_libs/mbedTLS/library/bignum.c:1880-1921 | N = 1 passes the checks for every A, and after any number of turns the loop has not ended |
| NumberTheory.Bezout | src/aws_iot_src/external_libs/mbedTLS/library/bignum.c:1902-1905 | the greatest common divisor is a linear combination of the operands |
| NumberTheory.Fermat | src/aws_iot_src/external_libs/mbedTLS/library/bignum.c:2091-2098 | Fermat's little theorem, from the binomial expansion |
| NumberTheory.RootsOfOne | src/aws_iot_src/external_libs/mbedTLS/library/bignum.c:2100-2123 | modulo a prime, 1 has no square roots but 1 and -1 |
| MillerRabin.ChainDescends | src/aws_iot_src/external_libs/mbedTLS/library/bignum.c:2100-2123 | for a prime, a chain of squares that ends in 1 passed through -1 or started with 1 |
| MillerRabin.PrimePasses | src/aws_iot_src/external_libs/mbedTLS/library/bignum.c:2091-2123 | no base between 0 and an odd prime is a witness against it |
| MillerRabin.TestBase | src/aws_iot_src/external_libs/mbedTLS/library/bignum.c:2091-2123 | the squaring loop accepts a base if and only if it is a strong probable-prime base for X |
| MillerRabin.DrawBase | src/aws_iot_src/external_libs/mbedTLS/library/bignum.c:2074-2089 | gives up exactly after 31 draws whose numbers, shifted to the length of X - 1 if longer, all lie outside 2..X-2 (and a 32nd that is not looked at); otherwise the base is the first that lies inside; every draw has as many bytes as the limbs of X |
| MillerRabin.FillRandom | src/aws_iot_src/external_libs/mbedTLS/library/bignum.c:1857-1872 | one draw of that many bytes, the number being theirs, highest byte first; too many bytes are refused |
| MillerRabin.RunRounds | src/aws_iot_src/external_libs/mbedTLS/library/bignum.c:2060-2124 | the draws of the call are those of its rounds, one after the other: a first one that is overwritten, then those of the drawing loop, which picked the base of the round |
| MillerRabin.Decompose | src/aws_iot_src/external_libs/mbedTLS/library/bignum.c:2043-2050 | X - 1 is an odd number times 2^s |
| MillerRabin.MillerRabin | src/aws_iot_src/external_libs/mbedTLS/library/bignum.c:2032-2131 | acceptance means as many drawn bases passed as the intervals of HAC table 4.4 demand; refusal means that the last base did not pass or the last round gave up as DrawBase says, and for a prime it means the latter |
| PrimeTest.HalfwiseModExact | src/aws_iot_src/external_libs/mbedTLS/library/bignum.c:1496-1507 | the remainders by half limbs are right for all numbers if and only if the divisor is at most 2^16 or divides 2^32 |
| PrimeTest.ModInt | src/aws_iot_src/external_libs/mbedTLS/library/bignum.c:1467-1519 | for those divisors A mod b in [0, b) also for negative A; the errors exactly for b = 0 and b < 0 |
| PrimeTable.SieveExact | src/aws_iot_src/external_libs/mbedTLS/library/bignum.c:1971-1994 | up to 1000, trial division by the primes up to 31 decides primality |
| PrimeTable.TableListsPrimes | src/aws_iot_src/external_libs/mbedTLS/library/bignum.c:1971-1994 | the 167 entries of the table are the odd primes up to 997, all of them and in order |
| PrimeTest.NoSmallFactor | src/aws_iot_src/external_libs/mbedTLS/library/bignum.c:2014-2023 | an odd number that no smaller entry divides and that does not exceed the next entry is prime |
| PrimeTest.CheckSmallFactors | src/aws_iot_src/external_libs/mbedTLS/library/bignum.c:2005-2027 | certain means prime, refused means composite, open means above the table with no odd prime of it dividing |
| PrimeTest.IsPrime | src/aws_iot_src/external_libs/mbedTLS/library/bignum.c:2136-2163 | a prime is refused only when the last round of draws gave up as DrawBase says; exact for all numbers up to 997, without a draw; acceptance above means no prime up to 997 divides and as many drawn bases passed as the table demands |
| Jsmn.AllocToken | src/aws_iot_src/external_libs/jsmn/jsmn.c:38-51 | takes the next slot and resets it, or reports that there is none without a change |
| Jsmn.ParsePrimitive | src/aws_iot_src/external_libs/jsmn/jsmn.c:67-115 | what a scan up to the delimiter finds (JsmnGrammar.ScannedPlain and PlainScanned say which text that is); on an error the parser is where it was |
| Jsmn.ParseString | src/aws_iot_src/external_libs/jsmn/jsmn.c:120-188 | what a scan up to the closing quote finds, escapes checked; on an error the parser is where it was |
| Jsmn.OpenBracket | src/aws_iot_src/external_libs/jsmn/jsmn.c:206-224 | a container token is added and becomes the one to count for |
| Jsmn.CloseBracket | src/aws_iot_src/external_libs/jsmn/jsmn.c:225-272 | the newest open container is closed if it is of the right kind, and the next one still open becomes the one to count for |
| Jsmn.StringToken | src/aws_iot_src/external_libs/jsmn/jsmn.c:273-280 | a string and the count of its container |
| Jsmn.PrimitiveToken | src/aws_iot_src/external_libs/jsmn/jsmn.c:288-314 | a primitive and the count of its container |
| Jsmn.ParseLoop | src/aws_iot_src/external_libs/jsmn/jsmn.c:200-331 | the in-place parser computes the run of the specification, from any state |
| Jsmn.Parse | src/aws_iot_src/external_libs/jsmn/jsmn.c:193-332 | a fresh parser succeeds exactly on the texts of the grammar with no more tokens than slots, and then returns their number, all well formed, the spans of strings and primitives as the grammar has them |
| JsmnResume.RunCounts | src/aws_iot_src/external_libs/jsmn/jsmn.c:193-332 | the result of a successful run is the number of tokens it added |
| JsmnResume.StepLonger | src/aws_iot_src/external_libs/jsmn/jsmn.c:193-332 | a step that succeeds or meets invalid text does the same with a longer prefix or more slots |
| JsmnResume.Resume | src/aws_iot_src/external_libs/jsmn/jsmn.c:193-332 | a run that stopped, continued with more slots or a longer prefix, ends with the tokens, the parser state and the total count of a single run |
| JsmnResume.ResumeMany | src/aws_iot_src/external_libs/jsmn/jsmn.c:193-332 | any number of continuations, each with at least the slots and the prefix before, ends as the single run with the last ones does |
| JsmnResume.NullRunAgrees | src/aws_iot_src/external_libs/jsmn/jsmn.c:193-332 | a run without a token array returns the count of the successful run with one |
| JsmnStructure.StepKeepsInv | src/aws_iot_src/external_libs/jsmn/jsmn.c:200-322 | every step keeps spans, nesting and sizes right for the tokens so far |
| JsmnStructure.RunKeepsInv | src/aws_iot_src/external_libs/jsmn/jsmn.c:193-332 | so does every run, however it ends |
| JsmnStructure.SuccessStructure | src/aws_iot_src/external_libs/jsmn/jsmn.c:193-332 | after success spans lie in the text with matching brackets or quotes, start in increasing order, are nested or disjoint, and each size is the number of tokens whose innermost container it is |
| JsmnGrammar.BodyScanned | src/aws_iot_src/external_libs/jsmn/jsmn.c:128-180 | every string body of the grammar is read up to its closing quote |
| JsmnGrammar.ScannedBody | src/aws_iot_src/external_libs/jsmn/jsmn.c:128-180 | what is read before the closing quote is a string body: no quote, backslash or NUL outside an escape, and every escape one of the eight or u with four hex digits |
| JsmnGrammar.PlainScanned | src/aws_iot_src/external_libs/jsmn/jsmn.c:74-95 | characters from ! to ~ other than comma, ] and } in front of one of the seven end characters are read as one primitive |
| JsmnGrammar.ScannedPlain | src/aws_iot_src/external_libs/jsmn/jsmn.c:74-95 | a primitive that is read consists of such characters and has an end character behind it |
| JsmnGrammar.StepAccepts | src/aws_iot_src/external_libs/jsmn/jsmn.c:200-322 | a correct piece of text at the position is read whole, for any open brackets it fits |
| JsmnGrammar.StepReads | src/aws_iot_src/external_libs/jsmn/jsmn.c:200-322 | and a step that goes on has read a correct piece |
| JsmnGrammar.TokensOfText | src/aws_iot_src/external_libs/jsmn/jsmn.c:193-332 | a text of correct pieces with matched brackets gives one token for each string, primitive and opening bracket, in order, of its kind and at its place; with too few slots it fills them and reports that; without a token array it counts them |
| JsmnGrammar.AcceptsExactly | src/aws_iot_src/external_libs/jsmn/jsmn.c:193-332 | a run succeeds if and only if the text up to its end is such pieces, with no more tokens than slots |
| JsmnGrammar.SuccessSpans | src/aws_iot_src/external_libs/jsmn/jsmn.c:193-332 | after success every primitive is a word of the grammar and every string the body of one between quotes |
| JsmnFaults.StopsForReason | src/aws_iot_src/external_libs/jsmn/jsmn.c:193-332 | however a run ends, the text before the place is correct pieces, and the characters there give the reason: all read and closed; a piece without a slot; a character, bracket, escape or word that no text has there; or the end inside a string, word or bracket |
| MqttClient.Client.SetClientState | src/aws_iot_src/src/aws_iot_mqtt_client.c:89-122 | compare and set: the state changes exactly if it is the expected one |
| MqttClient.Client.NextPacketId | src/aws_iot_src/src/aws_iot_mqtt_client.c:217-220 | ids run from 1 to 65535 and start over, never 0 |
| MqttClient.Client.ReadPacket | src/aws_iot_src/src/aws_iot_mqtt_client_common_internal.c:341-399 | one of five outcomes: nothing to read, a transport code from the length bytes, a failure of the rest, too long, or a whole packet; only the second hands a code of the transport on |
| MqttClient.Client.Callback | src/aws_iot_src/src/aws_iot_mqtt_client_common_internal.c:459-469 | whatever calls a message callback makes, nested to any depth, the state settles in the entry state or in DISCONNECTED_MANUALLY, and a reconnect episode is untouched |
| MqttClient.Client.DeliverMessage | src/aws_iot_src/src/aws_iot_mqtt_client_common_internal.c:440-477 | callbacks run in the waiting state; afterwards the entry state is back or the client was disconnected manually |
| MqttClient.Client.HandlePublish | src/aws_iot_src/src/aws_iot_mqtt_client_common_internal.c:479-525 | success means that a QoS 1 message was acknowledged with PUBACK after the callbacks ran, and a QoS 0 message not; the entry state is kept unless a callback disconnected |
| MqttClient.Client.CycleRead | src/aws_iot_src/src/aws_iot_mqtt_client_common_internal.c:527-591 | one packet or none, dispatched by its type: unknown types are refused, PINGRESP clears the outstanding ping; the entry state is kept unless a callback disconnected, and the two reserved codes come from the transport only |
| MqttClient.Client.WaitForRead | src/aws_iot_src/src/aws_iot_mqtt_client_common_internal.c:594-619 | it ends at the first of three things and says which: the expected packet was read (success), the timer ran out (-28), or the transport reported the connection lost (-13); nothing that ends the wait came before |
| MqttClient.Client.Exchange | src/aws_iot_src/src/aws_iot_mqtt_client_publish.c:217-237 | success means that the request was sent whole, its acknowledgement read, and that parsed; each failure has its step and code |
| MqttClient.Client.Publish | src/aws_iot_src/src/aws_iot_mqtt_client_publish.c:257-290 | success means that PUBLISH was sent and, for QoS 1, a PUBACK was read and parsed; otherwise the code is that of the step that failed; the state is the entry state or DISCONNECTED_MANUALLY, and the entry state on success |
| MqttClient.Client.Subscribe | src/aws_iot_src/src/aws_iot_mqtt_client_subscribe.c:283-317 | success means that SUBSCRIBE was sent, a SUBACK read and parsed, and the handler that was the first unused one has the topic; with none unused nothing is sent; the states as for publish |
| MqttClient.Client.Unsubscribe | src/aws_iot_src/src/aws_iot_mqtt_client_unsubscribe.c:194-222 | success means that UNSUBSCRIBE was sent, an UNSUBACK read and parsed, and no handler has the topic; the states as for publish |
| MqttClient.Client.Resubscribe | src/aws_iot_src/src/aws_iot_mqtt_client_subscribe.c:395-425 | success means one acknowledged SUBSCRIBE for every handler before the first unused one; it does nothing unless the client is idle; the states as for publish |
| MqttClient.Client.Disconnect | src/aws_iot_src/src/aws_iot_mqtt_client_connect.c:510-541 | succeeds exactly by taking a connected client to DISCONNECTED_MANUALLY, after DISCONNECT was sent and the network closed; on failure the state is the entry state |
| MqttClient.Client.Connect | src/aws_iot_src/src/aws_iot_mqtt_client_connect.c:419-450 | success means that the network connected, CONNECT was sent, a CONNACK read and the connection accepted; after any failure the network is closed; ends idle on success, in DISCONNECTED_ERROR on failure, or disconnected by a callback; only from the states valid for connecting |
| MqttClient.Client.AttemptReconnect | src/aws_iot_src/src/aws_iot_mqtt_client_connect.c:556-584 | refused while connected; success means a connect and a resubscribe that succeeded; otherwise idle, disconnected manually, or pending again, and then the back-off is in order if and only if the interval left behind was |
| MqttClient.Client.HandleDisconnect | src/aws_iot_src/src/aws_iot_mqtt_client_yield.c:43-67 | the network is closed last and the state is DISCONNECTED_ERROR, whatever the disconnect handler does |
| MqttClient.Client.KeepAlive | src/aws_iot_src/src/aws_iot_mqtt_client_yield.c:107-152 | when the ping timer has run out, an outstanding ping or one that cannot be sent closes the connection and reports it lost, and otherwise PINGREQ is sent and becomes outstanding; lost is reported exactly by leaving DISCONNECTED_ERROR |
| MqttClient.Client.HandleReconnect | src/aws_iot_src/src/aws_iot_mqtt_client_yield.c:70-105 | before the delay is over nothing happens; after it, one connection attempt exactly if the physical layer is up; a back-off in order stays in order, and the interval doubles unless the client is connected again |
| MqttClient.Client.ScheduleNext | src/aws_iot_src/src/aws_iot_mqtt_client_yield.c:96-104 | the interval doubles; a wait starts unless the interval is too long, and then the attempt times out |
| MqttClient.Client.StartReconnecting | src/aws_iot_src/src/aws_iot_mqtt_client_yield.c:205-215 | an episode starts with a wait of 1000 ms and no attempts |
| MqttClient.Client.InternalYield | src/aws_iot_src/src/aws_iot_mqtt_client_yield.c:173-227 | turns of a read with the keep-alive behind it, or of a reconnection, until the time is up or a turn fails, success meaning the former; it ends in one of five states, yielding only if a read handed on one of the two reserved codes; an exhausted episode makes no further attempt |
| MqttClient.Client.Yield | src/aws_iot_src/src/aws_iot_mqtt_client_yield.c:248-292 | success means that the time was up; from IDLE or PENDING_RECONNECT a yield ends in IDLE, PENDING_RECONNECT or one of the disconnected states, and in YIELD_IN_PROGRESS only if the last failed read returned one of the two reserved codes; from other states it changes nothing; a back-off in order stays in order |
| MqttClient.BackoffBounds | src/aws_iot_src/src/aws_iot_mqtt_client_yield.c:70-105 | within an episode the waits are 1000, 2000, 4000, 8000 in order, at most four attempts are made, the interval never exceeds 16000, and it is past the maximum exactly after four doublings |
| MqttClient.OneCall | src/aws_iot_src/src/aws_iot_mqtt_client_yield.c:248-292 | every top-level call, a reconnect by hand in any state among them, leaves a client at rest, given a transport that never returns the two reserved codes; a pending back-off stays in order unless a reconnect by hand picks up an interval out of order, and then it is out of order |
| MqttClient.AnyRun | src/aws_iot_src/src/aws_iot_mqtt_client_yield.c:248-292 | so does any sequence of calls; the interval that an episode leaves behind is in order throughout, and every pending back-off as long as no reconnect by hand picks up another interval |
| MqttVectors.StatesOfConnection | src/aws_iot_src/src/aws_iot_mqtt_client.c:222-262 | which states count as connected, and in which a connection can be started |
| MqttWire.LengthRoundTrip | src/aws_iot_src/src/aws_iot_mqtt_client_common_internal.c:52-100 | a remaining length is read back exactly below 2^28; above, decoding reports the error (section 2.2.3) |
| MqttWire.FinalLengthBound | src/aws_iot_src/src/aws_iot_mqtt_client_common_internal.c:102-115 | below 2^28 the pre-check length is the packet size, or one more exactly for 127, 16383 and 2097151 |
| MqttWire.FinalLengthShort | src/aws_iot_src/src/aws_iot_mqtt_client_common_internal.c:102-115 | the pre-check covers the packet if and only if the remaining length is below 2^28 |
| MqttWire.CoveredExactly | src/aws_iot_src/src/aws_iot_mqtt_client_common_internal.c:102-115 | a buffer that passes the pre-check is too short for the packet for one size alone, one byte less than the packet, and only from 2^28 on |
| MqttWire.FixedRoundTrip | src/aws_iot_src/src/aws_iot_mqtt_client_common_internal.c:76-100 | header and body are found again by the declared length, which is the bytes that follow it |
| MqttWire.PublishRoundTrip | src/aws_iot_src/src/aws_iot_mqtt_client_publish.c:83-128 | parsing a serialized PUBLISH gives back every field, for all topics and payloads; beyond 2^28 the length error (section 3.3) |
| MqttWire.AckRoundTrip | src/aws_iot_src/src/aws_iot_mqtt_client_publish.c:141-173 | parsing a serialized ack gives back its type, flag and id |
| MqttVectors.LengthDigits | src/aws_iot_src/src/aws_iot_mqtt_client_common_internal.c:52-68 | the encoded bytes are the base-128 digits of the length, lowest first, the top bit set in all but the last |
| MqttVectors.LengthTable | src/aws_iot_src/src/aws_iot_mqtt_client_common_internal.c:52-68 | the borders of table 2.4 of MQTT 3.1.1 as bytes |
| MqttVectors.TwoBytes | src/aws_iot_src/src/aws_iot_mqtt_client_common_internal.c:140-145 | a number of two bytes has its high byte first |
| MqttVectors.StringExample | src/aws_iot_src/src/aws_iot_mqtt_client_common_internal.c:168-173 | the string of section 1.5.3 as bytes |
| MqttVectors.PublishExample | src/aws_iot_src/src/aws_iot_mqtt_client_publish.c:83-128 | two PUBLISH packets as bytes |
| MqttVectors.PublishReadExample | src/aws_iot_src/src/aws_iot_mqtt_client_publish.c:307-367 | the bytes of a PUBLISH parsed |
| MqttVectors.AckExamples | src/aws_iot_src/src/aws_iot_mqtt_client_publish.c:141-173 | PUBACK, PUBREL and UNSUBACK as bytes |
| MqttVectors.SubscribeExample | src/aws_iot_src/src/aws_iot_mqtt_client_subscribe.c:54-98 | the SUBSCRIBE of section 3.8.3 as bytes |
| MqttVectors.UnsubscribeExample | src/aws_iot_src/src/aws_iot_mqtt_client_unsubscribe.c:52-88 | the UNSUBSCRIBE of section 3.10.3 as bytes |
| MqttVectors.ConnectExample | src/aws_iot_src/src/aws_iot_mqtt_client_connect.c:139-210 | a CONNECT with all its options as bytes |
| MqttVectors.AnswersExample | src/aws_iot_src/src/aws_iot_mqtt_client_subscribe.c:111-165 | the bytes of a SUBACK and of a CONNACK parsed |
| MqttRequests.ConnectLengthExact | src/aws_iot_src/src/aws_iot_mqtt_client_connect.c:102-129 | the computed CONNECT length is the bytes that follow (section 3.1) |
| MqttRequests.ConnectRoundTrip | src/aws_iot_src/src/aws_iot_mqtt_client_connect.c:139-210 | an independent reader of section 3.1 finds every CONNECT parameter in the serialized body |
| MqttRequests.FiltersLengthExact | src/aws_iot_src/src/aws_iot_mqtt_client_subscribe.c:54-98 | the computed SUBSCRIBE length is the bytes of the filters |
| MqttRequests.SubscribeRoundTrip | src/aws_iot_src/src/aws_iot_mqtt_client_subscribe.c:54-98 | an independent reader of section 3.8 finds id and filters, any number of them |
| MqttRequests.UnsubscribeRoundTrip | src/aws_iot_src/src/aws_iot_mqtt_client_unsubscribe.c:52-88 | an independent reader of section 3.10 finds id and topics, any number of them |
| MqttRequests.SubackRead | src/aws_iot_src/src/aws_iot_mqtt_client_subscribe.c:111-165 | a SUBACK of section 3.9 is read back if it has at most one code more than expected, and refused exactly if it has more than that |
| MqttRequests.ConnackRead | src/aws_iot_src/src/aws_iot_mqtt_client_connect.c:220-292 | the return code of a CONNACK is read as section 3.2 has it; the session flag is read from the wrong bit and agrees exactly if both bits are equal |
| MqttCodec.WriteLen | src/aws_iot_src/src/aws_iot_mqtt_client_common_internal.c:52-68 | the encoded length lies at the write position, and the position moved by its size |
| MqttCodec.WriteU16 | src/aws_iot_src/src/aws_iot_mqtt_client_common_internal.c:140-145 | two bytes, high first, at the write position |
| MqttCodec.WriteStr | src/aws_iot_src/src/aws_iot_mqtt_client_common_internal.c:168-173 | length and bytes at the write position |
| MqttCodec.InitHeader | src/aws_iot_src/src/aws_iot_mqtt_client_common_internal.c:181-259 | the header byte, or an error exactly for kinds outside 1..14 |
| MqttCodec.SerializePublish | src/aws_iot_src/src/aws_iot_mqtt_client_publish.c:83-128 | the packet is in the buffer, or the buffer is too short by the pre-check and untouched; for every buffer that the pre-check measures rightly |
| MqttCodec.SerializeAck | src/aws_iot_src/src/aws_iot_mqtt_client_publish.c:141-173 | the four bytes of an ack, or an error and an untouched buffer |
| MqttCodec.SerializeZero | src/aws_iot_src/src/aws_iot_mqtt_client_common_internal.c:629-660 | the two bytes of a packet without a body |
| MqttCodec.SerializeConnect | src/aws_iot_src/src/aws_iot_mqtt_client_connect.c:139-210 | the CONNECT packet with all optional parts, or too short and untouched, for every buffer |
| MqttCodec.SerializeSubscribe | src/aws_iot_src/src/aws_iot_mqtt_client_subscribe.c:54-98 | the SUBSCRIBE packet for any number of filters, or too short and untouched |
| MqttCodec.SerializeUnsubscribe | src/aws_iot_src/src/aws_iot_mqtt_client_unsubscribe.c:52-88 | the UNSUBSCRIBE packet for any number of topics, or too short and untouched |
| MqttCodec.DecodeRemainingLength | src/aws_iot_src/src/aws_iot_mqtt_client_common_internal.c:76-100 | value and byte count of a length of at most four bytes, else the error, unless the bytes end first |
| MqttCodec.ReadStringWithLen | src/aws_iot_src/src/aws_iot_mqtt_client_publish.c:48-65 | a string that fits before the end, or an error, unless the bytes end first |
| MqttCodec.DeserializePublish | src/aws_iot_src/src/aws_iot_mqtt_client_publish.c:307-367 | the parse of the specification, step by step through the buffer, wherever that stays within the packet |
| MqttCodec.DeserializeAck | src/aws_iot_src/src/aws_iot_mqtt_client_publish.c:379-420 | the same for acks |
| MqttCodec.DeserializeSuback | src/aws_iot_src/src/aws_iot_mqtt_client_subscribe.c:111-165 | the same for SUBACK |
| MqttBounds.LengthCut | src/aws_iot_src/src/aws_iot_mqtt_client_common_internal.c:76-100 | decoding a length reads behind the buffer if and only if fewer than four bytes are left and each announces another |
| MqttBounds.StringCut | src/aws_iot_src/src/aws_iot_mqtt_client_publish.c:48-65 | reading a string leaves the buffer if and only if its length bytes do or it does though it fits the declared end |
| MqttBounds.AckCut | src/aws_iot_src/src/aws_iot_mqtt_client_publish.c:379-420 | the exact bytes on which the parser of acks reads behind the buffer |
| MqttBounds.ConnackCut | src/aws_iot_src/src/aws_iot_mqtt_client_connect.c:220-292 | the same for CONNACK |
| MqttBounds.SubackCut | src/aws_iot_src/src/aws_iot_mqtt_client_subscribe.c:111-165 | the same for SUBACK |
| MqttBounds.PublishCut | src/aws_iot_src/src/aws_iot_mqtt_client_publish.c:307-367 | the same for PUBLISH |
| MqttBounds.WholePackets | src/aws_iot_src/src/aws_iot_mqtt_client_publish.c:307-420 | on a buffer that holds the whole declared packet none of them does, but for a PUBLISH of QoS above 0 that ends before its packet id |
| MqttBounds.NoPacketId | src/aws_iot_src/src/aws_iot_mqtt_client_publish.c:353-366 | such a PUBLISH: QoS 1, a topic of two bytes, and the end |
| GaloisField.MulTriple | src/aws_iot_src/external_libs/mbedTLS/library/aes.c:402-402 | multiplication in the field of FIPS-197 section 4.2 commutes with tripling |
| AesSbox.OrderOfThree | src/aws_iot_src/external_libs/mbedTLS/library/aes.c:398-403 | no power of 3 below the 255th is 1: the table loop visits every nonzero byte |
| AesSbox.PowersDistinct | src/aws_iot_src/external_libs/mbedTLS/library/aes.c:398-403 | so the powers are different, and logarithms exist and are unique |
| AesSbox.SBoxInjective | src/aws_iot_src/external_libs/mbedTLS/library/aes.c:417-432 | the S-box of FIPS-197 section 5.1.1 is injective |
| AesSbox.InvSBoxUndoes | src/aws_iot_src/external_libs/mbedTLS/library/aes.c:417-432 | the reverse S-box undoes the S-box |
| AesTables.PowersAndLogs | src/aws_iot_src/external_libs/mbedTLS/library/aes.c:395-403 | the first loop computes powers of 3 and logarithms of all nonzero bytes |
| AesTables.RoundConstants | src/aws_iot_src/external_libs/mbedTLS/library/aes.c:405-412 | the ten round constants |
| AesTables.SBoxes | src/aws_iot_src/external_libs/mbedTLS/library/aes.c:414-432 | both S-boxes, from inverses by logarithms and the affine steps |
| AesRom.RomTable | src/aws_iot_src/external_libs/mbedTLS/library/aes.c:94-128 | all 256 entries of the S-box that the ROM build stores are those the code generates |
| AesTables.MulByTables | src/aws_iot_src/external_libs/mbedTLS/library/aes.c:454-457 | the product by logarithms is the field product, zero included |
| AesTables.RoundTables | src/aws_iot_src/external_libs/mbedTLS/library/aes.c:434-462 | the forward and reverse tables hold columns of the two mixing matrices |
| AesTables.GenTables | src/aws_iot_src/external_libs/mbedTLS/library/aes.c:389-463 | all eleven tables |
| AesCipher.InvMixMix | src/aws_iot_src/external_libs/mbedTLS/library/aes.c:454-461 | the inverse mixing matrix undoes the mixing matrix, on all columns |
| AesCipher.InvMixXor | src/aws_iot_src/external_libs/mbedTLS/library/aes.c:640-649 | inverse mixing is linear over exclusive or |
| AesCipher.RoundsBack | src/aws_iot_src/external_libs/mbedTLS/library/aes.c:784-790 | decryption with the inverted keys undoes the rounds one by one |
| AesCipher.DecryptEncrypt | src/aws_iot_src/external_libs/mbedTLS/library/aes.c:713-820 | the equivalent inverse cipher of FIPS-197 section 5.3.5 with the inverted schedule undoes the cipher, on every state |
| Aes.SetkeyEnc | src/aws_iot_src/external_libs/mbedTLS/library/aes.c:484-591 | the key schedule for 128, 192 and 256 bits, whose bytes AesStandard.KeyWordBytes ties to FIPS-197 section 5.2, or the key-length error; the tables are generated once |
| Aes.InvertSchedule | src/aws_iot_src/external_libs/mbedTLS/library/aes.c:633-654 | reversed round keys with inverse mixing in between |
| Aes.SetkeyDec | src/aws_iot_src/external_libs/mbedTLS/library/aes.c:598-660 | the schedule that inverts that of the encryption key, AesStandard.KeyWordBytes saying which that is |
| Aes.ForwardRound | src/aws_iot_src/external_libs/mbedTLS/library/aes.c:663-684 | a table round is SubBytes, ShiftRows, MixColumns and AddRoundKey |
| Aes.ReverseRound | src/aws_iot_src/external_libs/mbedTLS/library/aes.c:686-707 | a reverse table round is the inverse round of the equivalent inverse cipher |
| Aes.Encrypt | src/aws_iot_src/external_libs/mbedTLS/library/aes.c:713-763 | the table-driven code computes the cipher of FIPS-197 section 5.1 |
| Aes.Decrypt | src/aws_iot_src/external_libs/mbedTLS/library/aes.c:770-820 | the table-driven code computes the equivalent inverse cipher |
| Aes.BlockRoundTrip | src/aws_iot_src/external_libs/mbedTLS/library/aes.c:713-820 | on bytes: decryption undoes encryption for every block and every pair of inverted schedules |
| Aes.EncryptThenDecrypt | src/aws_iot_src/external_libs/mbedTLS/library/aes.c:484-820 | setting up both schedules from any 128, 192 or 256-bit key, encrypting and decrypting leaves every block as it was |
| AesStandard.KeyWordBytes | src/aws_iot_src/external_libs/mbedTLS/library/aes.c:521-588 | every word of the schedule has the bytes that section 5.2 of FIPS-197 gives by index, for the three key lengths |
| AesStandard.RoundsBytes | src/aws_iot_src/external_libs/mbedTLS/library/aes.c:716-753 | every round is SubBytes, ShiftRows, MixColumns and AddRoundKey of sections 5.1.1 to 5.1.4 on bytes by row and column |
| AesStandard.CipherIsStandard | src/aws_iot_src/external_libs/mbedTLS/library/aes.c:712-763 | so the cipher of the tables is the cipher of section 5.1, for every key and block |
| AesStandard.EncryptBlock | src/aws_iot_src/external_libs/mbedTLS/library/aes.c:484-763 | setting a key and encrypting in place leaves the ciphertext of section 5.1 |
| BlockModes.CbcRoundTrip | src/aws_iot_src/external_libs/mbedTLS/library/aes.c:860-919 | CBC decryption undoes encryption over any number of blocks, ending with the same vector, for every invertible block function |
| BlockModes.CbcSplit | src/aws_iot_src/external_libs/mbedTLS/library/aes.c:860-919 | CBC gives the same output and vector however whole blocks are split across calls, in both directions |
| BlockModes.CfbSplit | src/aws_iot_src/external_libs/mbedTLS/library/aes.c:926-967 | CFB gives the same output and state however a message is split across calls, from any offset |
| BlockModes.CfbRoundTrip | src/aws_iot_src/external_libs/mbedTLS/library/aes.c:926-967 | CFB decryption undoes encryption at every length and offset, with the same state |
| BlockModes.Cfb8Split | src/aws_iot_src/external_libs/mbedTLS/library/aes.c:972-999 | the split law for CFB8 |
| BlockModes.Cfb8RoundTrip | src/aws_iot_src/external_libs/mbedTLS/library/aes.c:972-999 | the round trip for CFB8 |
| BlockModes.IncrementAddsOne | src/aws_iot_src/external_libs/mbedTLS/library/aes.c:1022-1024 | the byte loop adds one to the counter, modulo 256^length |
| BlockModes.CtrSplit | src/aws_iot_src/external_libs/mbedTLS/library/aes.c:1006-1035 | the split law for CTR, from any offset |
| BlockModes.CtrRoundTrip | src/aws_iot_src/external_libs/mbedTLS/library/aes.c:1006-1035 | CTR undoes itself at every length and offset |
| ModeMeaning.CbcEncryptMeaning | src/aws_iot_src/external_libs/mbedTLS/library/aes.c:902-917 | NIST SP 800-38A section 6.2: each ciphertext block is the enciphered exclusive or of the text block and the ciphertext block before, the vector for the first |
| ModeMeaning.CbcDecryptMeaning | src/aws_iot_src/external_libs/mbedTLS/library/aes.c:885-901 | each text byte is the deciphered block exclusive or the ciphertext block before |
| ModeMeaning.CbcVector | src/aws_iot_src/external_libs/mbedTLS/library/aes.c:885-917 | the vector left is the last ciphertext block |
| ModeMeaning.CfbMeaning | src/aws_iot_src/external_libs/mbedTLS/library/aes.c:936-962 | section 6.3: byte i is the exclusive or with the enciphered previous n ciphertext bytes that precede its block, from any offset |
| ModeMeaning.CfbVector | src/aws_iot_src/external_libs/mbedTLS/library/aes.c:936-962 | the vector and offset left |
| ModeMeaning.Cfb8Meaning | src/aws_iot_src/external_libs/mbedTLS/library/aes.c:978-998 | byte i is the exclusive or with the first byte of the enciphered last n ciphertext bytes |
| ModeMeaning.Cfb8Vector | src/aws_iot_src/external_libs/mbedTLS/library/aes.c:978-998 | the vector left is the last n ciphertext bytes, behind what is left of the first vector |
| ModeMeaning.CtrMeaning | src/aws_iot_src/external_libs/mbedTLS/library/aes.c:1019-1031 | section 6.5: byte i is the exclusive or with byte j modulo n of the enciphered counter block that stands for the counter plus the blocks begun before, modulo 256^n, j counted from the start of the block in use |
| ModeMeaning.CtrState | src/aws_iot_src/external_libs/mbedTLS/library/blowfish.c:374-388 | the counter left has moved on by one for every block begun, modulo 256^n, and the offset by the length, modulo n |
| BlockCiphers.AesInverts | src/aws_iot_src/external_libs/mbedTLS/library/aes.c:826-854 | AES blocks with inverted schedules are an invertible block function, so the laws above apply |
| BlockCiphers.BlowfishInverts | src/aws_iot_src/external_libs/mbedTLS/library/blowfish.c:100-156 | so are Blowfish blocks, for every content of P and S |
| BlockCiphers.CryptEcb | src/aws_iot_src/external_libs/mbedTLS/library/blowfish.c:232-255 | a block goes through the block function of its context in the direction asked for, for AES and Blowfish |
| CipherModes.IncrementCounter | src/aws_iot_src/external_libs/mbedTLS/library/aes.c:1022-1024 | the in-place loop is that increment |
| CipherModes.CbcStep | src/aws_iot_src/external_libs/mbedTLS/library/blowfish.c:276-304 | one block of the CBC loops in either direction, also in place |
| CipherModes.CbcLoop | src/aws_iot_src/external_libs/mbedTLS/library/blowfish.c:274-305 | the loops over any number of blocks compute the specification |
| CipherModes.CryptCbc | src/aws_iot_src/external_libs/mbedTLS/library/aes.c:860-919 | the in-place CBC code of both ciphers computes the specification in both directions, also over its own input; each length error and nothing changed for partial blocks |
| CipherModes.CfbStep | src/aws_iot_src/external_libs/mbedTLS/library/blowfish.c:328-351 | one turn of the CFB loops, encrypting or decrypting, is one byte of the specification; later bytes are untouched |
| CipherModes.CryptCfb | src/aws_iot_src/external_libs/mbedTLS/library/aes.c:926-967 | the in-place CFB code of both ciphers computes the specification, from any offset, also over its own input |
| CipherModes.CryptCfb8 | src/aws_iot_src/external_libs/mbedTLS/library/aes.c:972-999 | the in-place CFB8 code computes the specification |
| CipherModes.CtrStep | src/aws_iot_src/external_libs/mbedTLS/library/blowfish.c:374-388 | one turn of the CTR loops is one byte of the specification, of which ModeMeaning.CtrMeaning says what it computes |
| CipherModes.CryptCtr | src/aws_iot_src/external_libs/mbedTLS/library/aes.c:1006-1035 | the in-place CTR code of both ciphers computes the specification, which is section 6.5 by ModeMeaning.CtrMeaning and CtrState, from any offset, also over its own input |
| Blowfish.DecipherEncipher | src/aws_iot_src/external_libs/mbedTLS/library/blowfish.c:100-156 | decryption undoes encryption for every content of P and S and every block |
| Blowfish.Context.Enc | src/aws_iot_src/external_libs/mbedTLS/library/blowfish.c:100-127 | the swapping loop computes the cipher |
| Blowfish.Context.Dec | src/aws_iot_src/external_libs/mbedTLS/library/blowfish.c:129-156 | the backward loop computes the inverse |
| CipherVectors.RoundFunction | src/aws_iot_src/external_libs/mbedTLS/library/blowfish.c:81-98 | the round function byte by byte from the top: the sum of two entries, exclusive or the third, plus the fourth |
| CipherVectors.AddWraps | src/aws_iot_src/external_libs/mbedTLS/library/blowfish.c:93-95 | its sums wrap around |
| CipherVectors.Network | src/aws_iot_src/external_libs/mbedTLS/library/blowfish.c:100-127 | each round and the end of the network as equations on the halves |
| Arc4.SwapKeepsPermutation | src/aws_iot_src/external_libs/mbedTLS/library/arc4.c:91-93 | a swap keeps the table a permutation, with the same entries |
| Arc4.PermutationOnto | src/aws_iot_src/external_libs/mbedTLS/library/arc4.c:80-81 | such a table holds every byte |
| Arc4.Scheduled | src/aws_iot_src/external_libs/mbedTLS/library/arc4.c:85-94 | the table is a permutation at every step of the key schedule |
| Arc4.Step | src/aws_iot_src/external_libs/mbedTLS/library/arc4.c:112-123 | and at every step of the stream |
| Arc4.CryptSplit | src/aws_iot_src/external_libs/mbedTLS/library/arc4.c:101-128 | the same output and state however a message is split across calls |
| Arc4.CryptTwice | src/aws_iot_src/external_libs/mbedTLS/library/arc4.c:101-128 | from the same state the stream undoes itself |
| Arc4.Context.Setup | src/aws_iot_src/external_libs/mbedTLS/library/arc4.c:71-96 | the in-place key schedule, the key index running cyclically through a key of any length |
| Arc4.Context.CryptInPlace | src/aws_iot_src/external_libs/mbedTLS/library/arc4.c:101-128 | the in-place loop computes the stream of the specification, also over its own input |
| CipherVectors.FirstSwaps | src/aws_iot_src/external_libs/mbedTLS/library/arc4.c:85-94 | the first steps of the key schedule on numbers |
| CipherVectors.FirstBytes | src/aws_iot_src/external_libs/mbedTLS/library/arc4.c:112-123 | the first bytes of the stream on numbers |
| CipherVectors.StreamMixed | src/aws_iot_src/external_libs/mbedTLS/library/arc4.c:112-123 | each byte of the text is mixed with one byte of the stream |
| Base64Text.ScanIff | src/aws_iot_src/external_libs/mbedTLS/library/base64.c:151-187 | the first pass accepts exactly the texts whose spaces run into a line break or the end, whose carriage returns precede line feeds, and whose other characters are alphabet symbols followed by at most two pads; and it counts them |
| Base64Text.EncodedAccepted | src/aws_iot_src/external_libs/mbedTLS/library/base64.c:77-224 | every encoding is accepted and decodes to the bytes it came from (RFC 1521 section 5.2) |
| Base64Text.LineBreak | src/aws_iot_src/external_libs/mbedTLS/library/base64.c:151-187 | a line break behind any number of spaces, put anywhere into an accepted text, changes nothing, unless it separates a carriage return from its line feed: exactly then, apart from a bare line feed, the text is refused |
| Base64Text.UnpackedSize | src/aws_iot_src/external_libs/mbedTLS/library/base64.c:195-219 | the second pass writes no more than the first computed, for every accepted text, and exactly that when the symbols fill whole groups |
| CodecVectors.Alphabet | src/aws_iot_src/external_libs/mbedTLS/library/base64.c:44-52 | the alphabet of RFC 4648 |
| CodecVectors.GroupDigits | src/aws_iot_src/external_libs/mbedTLS/library/base64.c:101-116 | the symbols of three bytes are the base-64 digits of their number |
| CodecVectors.Rfc4648 | src/aws_iot_src/external_libs/mbedTLS/library/base64.c:77-137 | the test vectors of RFC 4648 up to three bytes |
| CodecVectors.Rfc4648Longer | src/aws_iot_src/external_libs/mbedTLS/library/base64.c:77-137 | and those of four to six |
| Base64.Encode | src/aws_iot_src/external_libs/mbedTLS/library/base64.c:77-139 | the encoding and a closing zero, or the size that is needed and an untouched buffer |
| Base64.FirstPass | src/aws_iot_src/external_libs/mbedTLS/library/base64.c:151-187 | the nested loops compute the scan of the specification |
| Base64.SecondPass | src/aws_iot_src/external_libs/mbedTLS/library/base64.c:204-221 | shifting six bits per symbol through 32 bits yields the bytes of the specification, within the buffer |
| Base64.Decode | src/aws_iot_src/external_libs/mbedTLS/library/base64.c:144-224 | all outcomes: refused, nothing, too small with the size needed, or decoded within that size; the rest of the buffer is untouched |
| Base64.WrappedSize | src/aws_iot_src/external_libs/mbedTLS/library/base64.c:190-198 | for any width of size_t the size computed for n symbols is right if and only if 6n + 7 does not exceed SIZE_MAX |
| DerWire.LengthRoundTrip | src/aws_iot_src/external_libs/mbedTLS/library/asn1write.c:42-73 | a written length is read back up to 65535; above, it is read modulo 65536 (X.690 section 8.1.3) |
| DerWire.TagRoundTrip | src/aws_iot_src/external_libs/mbedTLS/library/asn1parse.c:112-125 | contents up to 65535 bytes are found behind tag and length |
| DerWire.TagRoundTripFails | src/aws_iot_src/external_libs/mbedTLS/library/asn1write.c:66-72 | beyond 65535 the length that is read is not the one that was written |
| DerWire.BoolRoundTrip | src/aws_iot_src/external_libs/mbedTLS/library/asn1parse.c:127-144 | booleans come back as 0 or 1 |
| DerWire.IntRoundTrip | src/aws_iot_src/external_libs/mbedTLS/library/asn1parse.c:146-168 | an int comes back if and only if it is one of 0 to 255 |
| DerWire.MpiRoundTrip | src/aws_iot_src/external_libs/mbedTLS/library/asn1parse.c:171-186 | the magnitude of a number comes back, any size |
| DerWire.MpiCanonical | src/aws_iot_src/external_libs/mbedTLS/library/asn1write.c:116-126 | a positive number is written in two's complement and in the fewest bytes (X.690 section 8.3) |
| DerWire.BitsRoundTrip | src/aws_iot_src/external_libs/mbedTLS/library/asn1parse.c:189-217 | bit strings of any length come back with their number of unused bits (X.690 section 8.6) |
| DerWire.AlgRoundTrip | src/aws_iot_src/external_libs/mbedTLS/library/asn1parse.c:290-332 | object identifier and parameters of an algorithm come back |
| DerWire.AlgNullRoundTrip | src/aws_iot_src/external_libs/mbedTLS/library/asn1parse.c:334-350 | an algorithm written without parameters is accepted where none may be given |
| DerWire.SequenceOfRoundTrip | src/aws_iot_src/external_libs/mbedTLS/library/asn1parse.c:241-288 | a list of any number of items comes back |
| CodecVectors.Lengths | src/aws_iot_src/external_libs/mbedTLS/library/asn1write.c:42-73 | the examples of X.690 section 8.1.3 as bytes |
| CodecVectors.LengthsRead | src/aws_iot_src/external_libs/mbedTLS/library/asn1parse.c:43-100 | a length of two bytes read, and the indefinite and too long forms refused |
| CodecVectors.SmallValues | src/aws_iot_src/external_libs/mbedTLS/library/asn1write.c:75-230 | booleans, integers and NULL as bytes |
| CodecVectors.Bits | src/aws_iot_src/external_libs/mbedTLS/library/asn1write.c:263-288 | the bit string of X.690 section 8.6.4 as bytes, and one read |
| CodecVectors.Identifier | src/aws_iot_src/external_libs/mbedTLS/library/asn1write.c:151-184 | an algorithm identifier as bytes |
| CodecVectors.TwoIntegers | src/aws_iot_src/external_libs/mbedTLS/library/asn1parse.c:241-288 | a SEQUENCE OF two INTEGERs as bytes |
| DerWriter.PutThen | src/aws_iot_src/external_libs/mbedTLS/library/asn1write.c:123-129 | two writers in a row put the second value in front of the first and return the sum, whether or not both fit |
| DerWriter.Writer.WriteLen | src/aws_iot_src/external_libs/mbedTLS/library/asn1write.c:42-73 | the length in front of what is there; the return value is how far the position moved; too small exactly if there is no room |
| DerWriter.Writer.WriteTag | src/aws_iot_src/external_libs/mbedTLS/library/asn1write.c:75-83 | the same for a tag |
| DerWriter.Writer.WriteRaw | src/aws_iot_src/external_libs/mbedTLS/library/asn1write.c:85-98 | the same for raw bytes |
| DerWriter.Writer.WriteMpi | src/aws_iot_src/external_libs/mbedTLS/library/asn1write.c:101-135 | the same for a number, with the padding zero exactly where the sign bit would be set |
| DerWriter.Writer.WriteNull | src/aws_iot_src/external_libs/mbedTLS/library/asn1write.c:138-149 | the same for a NULL |
| DerWriter.Writer.WriteString | src/aws_iot_src/external_libs/mbedTLS/library/asn1write.c:151-163 | the same for object identifiers, octet strings and the two text strings |
| DerWriter.Writer.WriteAlg | src/aws_iot_src/external_libs/mbedTLS/library/asn1write.c:165-184 | the same for an algorithm identifier, around parameters that were written before or a NULL |
| DerWriter.Writer.WriteBool | src/aws_iot_src/external_libs/mbedTLS/library/asn1write.c:186-201 | the same for a boolean |
| DerWriter.Writer.WriteInt | src/aws_iot_src/external_libs/mbedTLS/library/asn1write.c:203-231 | the same for an int |
| DerWriter.Writer.WriteBitString | src/aws_iot_src/external_libs/mbedTLS/library/asn1write.c:263-288 | the same for a bit string |
| DerReader.Reader.GetLen | src/aws_iot_src/external_libs/mbedTLS/library/asn1parse.c:54-110 | length, error and position as the specification has them, for all five forms |
| DerReader.Reader.GetTag | src/aws_iot_src/external_libs/mbedTLS/library/asn1parse.c:112-125 | the same for tag and length |
| DerReader.Reader.GetBool | src/aws_iot_src/external_libs/mbedTLS/library/asn1parse.c:127-144 | the same for a boolean |
| DerReader.Reader.GetInt | src/aws_iot_src/external_libs/mbedTLS/library/asn1parse.c:146-168 | the same for an int |
| DerReader.Reader.GetMpi | src/aws_iot_src/external_libs/mbedTLS/library/asn1parse.c:171-186 | the same for a number |
| DerReader.Reader.GetBitString | src/aws_iot_src/external_libs/mbedTLS/library/asn1parse.c:189-217 | the same for a bit string |
| DerReader.Reader.GetSequenceOf | src/aws_iot_src/external_libs/mbedTLS/library/asn1parse.c:241-288 | the same for a list |
| DerReader.Reader.GetAlg | src/aws_iot_src/external_libs/mbedTLS/library/asn1parse.c:290-332 | the same for an algorithm |
| DerReader.Reader.GetAlgNull | src/aws_iot_src/external_libs/mbedTLS/library/asn1parse.c:334-350 | the same for an algorithm that may have no parameters |

## Left out

- MpiMul.MulAddC: the unrolled assembly variants are one step of one loop, because they all compute the same two limbs.
- MpiBase.Copy: `mbedtls_mpi_shrink`, `mbedtls_mpi_swap` and the constant-time `safe_cond_assign` and `safe_cond_swap` are not modelled, being copies.
- MpiArith.SubInt: `mbedtls_mpi_add_int` and `mbedtls_mpi_div_int` wrap one limb in the same way.
- MillerRabin.MillerRabin: `gen_prime`, which searches with this test, is not modelled.
- MpiBase.Grow: allocation is arbitrary, so AllocFailed may come from any call that can allocate.
- MPI strings, files and bit access: easier than the binary conversion that is here.
- Constant time, zeroization, self-tests, debug output: not functional properties.
- Jsmn.Parse: parent links and the non-strict mode are switched off in the build.
- GcdInverse.InvMod: N = 1, on which the code does not end, is the subject of OneNeverEnds; with an A that was never given limbs it reads through a null pointer instead.
- MqttClient.Client.Callback: callbacks that connect or reconnect are outside the statement, as a connect leaves DISCONNECTED_MANUALLY.
- MqttClient.Client.DeliverMessage: topic wildcards are not modelled; which handlers run is arbitrary.
- MqttClient.Client.Resubscribe: handlers behind the first unused one are not renewed, as the code's loop stops there.
- MqttClient.Client.Subscribe: what happens to other handlers while a callback runs is not stated; a nested subscription takes the same handler, and then the outer one overwrites it.
- MQTT threads and mutexes: `_ENABLE_THREAD_SUPPORT_` is not defined in this build.
- MqttCodec.SerializePublish: a buffer one byte shorter than a packet of more than 2^28 bytes, which the pre-check lets pass although the packet does not fit.
- MqttCodec.SerializeSubscribe: the same buffer.
- MqttCodec.SerializeUnsubscribe: the same buffer.
- MqttCodec.DecodeRemainingLength: the inputs of MqttBounds.LengthCut, on which the code reads behind the buffer.
- MqttCodec.ReadStringWithLen: the inputs of MqttBounds.StringCut, likewise.
- MqttCodec.DeserializePublish: the inputs of MqttBounds.PublishCut, likewise.
- MqttCodec.DeserializeAck: the inputs of MqttBounds.AckCut, likewise.
- MqttCodec.DeserializeSuback: the inputs of MqttBounds.SubackCut, likewise.
- Aes.Encrypt: AES-NI and PadLock are other code for the same blocks; of the ROM tables only the S-box is compared with the generated one.
- BlockCiphers.BlowfishInverts: the Blowfish key schedule is not modelled, because the laws hold for all contents of P and S.
- Base64.Decode: texts of so many symbols that the size computation wraps (Base64.WrappedSize); the size that is asked for is then too small for the second pass.
- DerReader.Reader.GetAlg: `mbedtls_asn1_get_bitstring_null` and the named-data lists are small and not modelled.
- DerReader.Reader.GetInt: the byte behind an empty INTEGER that ends the buffer is arbitrary, and nothing is said then.
- DerReader.Reader.GetSequenceOf: the linked list it allocates is a sequence of byte strings, so sharing of the parsed buffer is not captured.
- The J2534 and CAN layers, the shadow records and the tools around them: I/O, threads and small tables.
