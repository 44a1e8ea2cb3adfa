# A verified model of RSAEuro and the RSA message class

This project models the RSAEuro library and the C++ class `CRSA` that splits
messages over it, and proves what these promise.

Numbers are arrays of 32-bit digits, lowest digit first, changed in place. The
methods of the `NN*` modules carry out the same branches, carry and borrow
comparisons and half-digit steps as the code, with every wrap-around written
out, and their contracts say what happens to the number `Val(a[..n])` in the
array. Arrays have any length, and the aliasing that callers use is allowed.

- `Words`, `Value`, `Arith`: machine words, the value of a digit string,
  arithmetic of integers.
- `NNBasic`, `NNMult`, `NNDiv`, `NNModular`, `NNEuclid`, `NNBytes`: addition to
  division, modular powers, inverses and the byte forms.
- `NumberTheory`, `RsaTheory`: Bezout, Fermat and Chinese remainders from first
  principles, and RSA on numbers.
- `Keys`, `Rsa`, `RsaPair`, `Pkcs`, `Crsa`: keys, the raw operations, the blocks
  of PKCS #1 (section 8.1 of RFC 2313) and whole messages.
- `Prime`, `KeyGen`, `DiffieHellman`: prime search, key generation and key
  agreement (sections 7 and 8 of PKCS #3).
- `Des`, `Cbc`, `Envelope`, `Pem`: the DES block function and its schedules,
  chaining, buffered envelopes and their printable form.
- `Md5`, `Random`: buffered digests and the random object.
- `Outcome`, `Sequences`: status codes, and messages in pieces.

The whole chain is joined: `Crsa.RoundTrip` rests on `Pkcs`, this on
`RsaPair` and the number theory, and the methods reach down to the digit
arrays; `KeyGen.GeneratePEMKeys` ends in the very key pair that the round trips
ask for. `Envelope.SealAndOpen` and `Pem.SealAndOpenText` run two contexts
against each other.

Specification functions are tied down by laws that do not use their bodies:
the DES block function by the permutation, rounds and boxes of FIPS 46, chaining
block by block, padding and digests by their bytes, RSA and Diffie-Hellman by
powers, PKCS #1 blocks by their bytes, the prime search by divisibility and by
the number nearest to the random one, the random stream by the digests of the
states.

Where code and comments differ, the model follows the code:

- The quotient digit estimated in `NN_Div` is at most two short of the true one.
- The private operation is wrong for a key whose smaller prime is 2: the
  reduced exponent is 0, and raising to the exponent 0 gives 1, not 0. For all
  other consistent keys it is right (`RsaTheory.CrtPowerCorrectIff`), and
  exactly for these the operations undo each other
  (`RsaTheory.DecryptUndoesIff`, `RsaTheory.VerifyUndoesIff`, on byte strings
  `RsaPair.UndoesIff`). The key with the primes 3 and 2 is one that fails
  (`RsaTheory.ConsistentExampleTwo`).
- `NN_ModExp` gives 1 for the exponent 0, even modulo 1, so that Diffie-Hellman
  with the modulus 1 refuses honest values (`DiffieHellman.HonestAcceptedIff`).
- `probableprime` accepts a prime of its own table only in one digit, and never
  accepts 2 (`Prime.PrimesAccepted`).
- `RSAPrivateDecrypt` refuses a block of type 2 around empty data
  (`Pkcs.StripType2`, `Pkcs.PublicRoundTrip`).
- The increment of the random state goes on when the old byte was 0, not 255.
  It is a counter of 128 bits all the same, of the bytes less one
  (`Random.IncrementCounts`), so that no state repeats early
  (`Random.StatesRepeatIff`); of the number in the state itself it is one only
  for some last bytes (`Random.PlainCounterIff`).
- The other public value of a key agreement is cut to the digits of the prime
  before it is compared (`DiffieHellman.AgreedKeyMeaning`).
- The comment above `encode` wants zeros behind a short group; the code reads
  whatever lies there, and decoding does not depend on it (`Pem.GroupBack`).
- `R_OpenFinal` does not restart a context without input, which stands at its
  start anyway, and leaves a refused block in the buffer.
- `subdigitmult` writes nothing for the factor 0, not even the minuend.
- The block loop of `MD5Update` wraps its counter around for some lengths near
  2^32, depending on what is in the buffer (`Md5.LoopStopsIff`).

## Model

| member | source | states |
|---|---|---|
| `NNBasic.AddDigit` | HBase/RSAEuro/nn.c:608-616 | one column of the addition, with the carry found by two comparisons, is exact and the carry is 0 or 1 |
| `NNBasic.SubDigit` | HBase/RSAEuro/nn.c:154-165 | one column of the subtraction, with the borrow found by two comparisons, is exact and the borrow is 0 or 1 |
| `NNBasic.Add` | HBase/RSAEuro/nn.c:600-621 | a + carry * 2^(32 * digits) = b + c, also when a is b or c; nothing above the digits changes |
| `NNBasic.Sub` | HBase/RSAEuro/nn.c:139-170 | a + c = b + borrow * 2^(32 * digits), in place too, and on a window inside a longer array |
| `NNBasic.LShift` | HBase/RSAEuro/nn.c:216-236 | a and the carry out hold b * 2^c exactly for c < 32; other shifts are refused with nothing changed |
| `NNBasic.RShift` | HBase/RSAEuro/nn.c:242-263 | a = b div 2^c and the carry is b mod 2^c in the high bits, for c < 32 |
| `NNBasic.Cmp` | HBase/RSAEuro/nn.c:528-544 | the sign of the difference of the two numbers |
| `NNBasic.ValOrder` | HBase/RSAEuro/nn.c:536-543 | equal digits from the top down to a first difference decide the order of the numbers |
| `NNBasic.Zero` | HBase/RSAEuro/nn.c:548-560 | true exactly for the number 0 |
| `NNBasic.Digits` | HBase/RSAEuro/nn.c:577-594 | the significant length: the number fits, its top digit is not 0, and the length is 0 only for 0 |
| `NNBasic.DigitBits` | HBase/RSAEuro/nn.c:652-662 | the bit length i of a digit: 2^(i-1) <= a < 2^i, and 0 for 0 |
| `NNBasic.Assign2Exp` | HBase/RSAEuro/nn.c:123-133 | a = 2^b, and 0 when bit b lies outside the array |
| `NNBasic.AssignDigit` | HBase/RSAEuro/nn.h:139 | a is the number b with zeros above its one digit |
| `NNMult.DMult` | HBase/RSAEuro/nn.c:666-698 | the four half-digit products, with wrapped sums, make up the exact double-digit product |
| `NNMult.MiddleProducts` | HBase/RSAEuro/nn.c:682-697 | the two carries out of the wrapped middle sums are exactly what the high digit needs |
| `NNMult.MultColumn` | HBase/RSAEuro/nn.c:195-202 | adding a product to a column loses no carry, and the new carry fits one digit |
| `NNMult.Mult` | HBase/RSAEuro/nn.c:178-210 | a = b * c exactly, also when a is an input; nothing above 2 * digits changes |
| `NNDiv.SubDigitMult` | HBase/RSAEuro/nn.c:625-648 | for c > 0 the output holds b less c times d, with the exact borrow, whether it is b itself or another array; for c = 0 nothing is written |
| `NNDiv.SubMultColumn` | HBase/RSAEuro/nn.c:636-643 | one column of it is exact, and the borrow fits one digit |
| `NNDiv.EstimateHigh` | HBase/RSAEuro/nn.c:307-324 | the high half of the estimate: what is left of the pair is less than (s+1) * 2^16; no half-digit overflows |
| `NNDiv.EstimateLow` | HBase/RSAEuro/nn.c:326-343 | the low half of the estimate: the quotient of what is left by s+1; no half-digit overflows |
| `NNDiv.HalvesEstimate` | HBase/RSAEuro/nn.c:345 | the two halves together are the quotient of the top pair by s+1 |
| `NNDiv.EstimateDigit` | HBase/RSAEuro/nn.c:295-347 | the estimated digit is (top two digits) div (s+1), also for the top digit of all ones |
| `NNDiv.EstimateWithinTwo` | HBase/RSAEuro/nn.c:286-357 | for a normalised divisor the estimate is a digit, never exceeds the true digit, and is at most two short of it |
| `NNDiv.WindowEstimate` | HBase/RSAEuro/nn.c:295-347 | the digit that is estimated for the window and the divisor, never above the quotient and at most two below it |
| `NNDiv.TakeEstimate` | HBase/RSAEuro/nn.c:349 | taking the estimate away never borrows out of the window; the digit is the estimate |
| `NNDiv.CorrectDigit` | HBase/RSAEuro/nn.c:351-354 | the correction runs at most twice and leaves a remainder below the divisor |
| `NNDiv.DivideDigit` | HBase/RSAEuro/nn.c:294-357 | the stored digit is the exact quotient digit of the window, at most two above the estimate from the top digits, and the window becomes the remainder |
| `NNDiv.DivideDigits` | HBase/RSAEuro/nn.c:294-357 | over all rounds quotient * divisor + remainder stays the digits read so far, and remainder < divisor |
| `NNDiv.Normalise` | HBase/RSAEuro/nn.c:286-290 | shifting moves the top bit of the divisor to the top of its digit and loses nothing |
| `NNDiv.UndoShift` | HBase/RSAEuro/nn.c:359-360 | the shifted division has the same quotient, and its remainder shifted back is the remainder |
| `NNDiv.Div` | HBase/RSAEuro/nn.c:272-361 | a = c div d and b = c mod d for every c and every d > 0, whatever the two lengths; for d = 0 nothing changes |
| `NNModular.Mod` | HBase/RSAEuro/nn.c:369-376 | a = b mod c for c > 0, in place too; nothing changes for c = 0 |
| `NNModular.ModMult` | HBase/RSAEuro/nn.c:383-391 | a = b * c mod d, also when a is b or c |
| `NNModular.ExpStep` | HBase/RSAEuro/nn.c:428-434 | squaring twice and multiplying by the window power takes t from b^e to b^(4e+s) mod d |
| `NNModular.PairStep` | HBase/RSAEuro/nn.c:428-434 | the top two bits of the shifted digit are the next pair of the exponent, high pairs first |
| `NNModular.SkipPairs` | HBase/RSAEuro/nn.c:421-426 | skipping stops at the first pair that is not zero, and only zero pairs were skipped |
| `NNModular.ExpDigit` | HBase/RSAEuro/nn.c:415-435 | one digit of the exponent takes t from b^e to b^(e * 2^32 + digit) mod d |
| `NNModular.ModExp` | HBase/RSAEuro/nn.c:398-438 | a = b^c mod d for every c > 0 and d > 0; exactly 1 for c = 0 |
| `NNEuclid.EuclidStart` | HBase/RSAEuro/nn.c:457-461 | the invariant of the Euclid loop holds at its start |
| `NNEuclid.EuclidStep` | HBase/RSAEuro/nn.c:463-472 | every round keeps u1*v3 + v1*u3 = c, both congruences and the gcd, keeps the coefficients at most c, and lowers v3 |
| `NNEuclid.EuclidInverse` | HBase/RSAEuro/nn.c:463-479 | at the end b times the coefficient, negated modulo c when its sign is negative, is gcd(b, c) modulo c; it is the inverse exactly when the gcd is 1 |
| `NNEuclid.EuclidRound` | HBase/RSAEuro/nn.c:464-471 | the round on the arrays: no carry is lost, no product is cut off, and v3 falls |
| `NNEuclid.ModInv` | HBase/RSAEuro/nn.c:445-479 | a * b = gcd(b, c) mod c for all b and all c > 0; a is the inverse, with 0 < a < c for c > 1, if and only if gcd(b, c) = 1 |
| `NNEuclid.GcdOf` | HBase/RSAEuro/nn.c:490-508 | a = gcd(b, c) for all b and c, in either order |
| `NNBytes.Decode` | HBase/RSAEuro/nn.c:55-74 | a is the number of the bytes, most significant first, modulo 2^(32 * digits) |
| `NNBytes.Encode` | HBase/RSAEuro/nn.c:83-101 | a holds the len low bytes of the number, most significant first, with zeros in front |
| `NNBytes.BytesOfVal` | HBase/RSAEuro/nn.c:55-101 | decoding what was encoded gives the number modulo 256^len |
| `NNBytes.BytesUnique` | HBase/RSAEuro/nn.c:55-101 | strings of one length that decode to the same number are the same |
| `NumberTheory.Bezout` | HBase/RSAEuro/nn.c:490-508 | the greatest common divisor is a combination of its arguments |
| `NumberTheory.Fermat` | HBase/RSAEuro/prime.c:269-277 | Fermat's little theorem, which the witness test relies on, proved from the binomial theorem |
| `NumberTheory.ChineseRemainder` | HBase/RSAEuro/rsa.c:330-343 | a number below p*q is determined by its residues modulo coprime p and q |
| `RsaTheory.RecombineResidues` | HBase/RSAEuro/rsa.c:330-343 | the recombination is below p*q and has the two residues it was made from |
| `RsaTheory.CrtPowerIsPower` | HBase/RSAEuro/rsa.c:317-343 | for a consistent key with q > 2 the recombined residues are c^d mod n for every c |
| `RsaTheory.CrtPowerFailsForTwo` | HBase/RSAEuro/rsa.c:327-343 | for q = 2 the reduced exponent is 0, and the ciphertext 0 comes out wrong |
| `RsaTheory.CrtPowerCorrectIff` | HBase/RSAEuro/rsa.c:317-343 | a consistent key computes c^d mod n for all c < n exactly when its smaller prime is not 2 |
| `RsaTheory.PowerRoundTrip` | HBase/RSAEuro/rsa.c:237-361 | m^(e*d) mod n = m for every m < n, including those that share a factor with n |
| `RsaTheory.OperationsUndo` | HBase/RSAEuro/rsa.c:237-361 | on numbers, with q > 2, the public and the private operation undo each other in both orders |
| `RsaTheory.DecryptUndoesIff` | HBase/RSAEuro/rsa.c:237-361 | for a consistent key decryption undoes encryption on all m < n if and only if the smaller prime is not 2 |
| `RsaTheory.VerifyUndoesIff` | HBase/RSAEuro/rsa.c:237-361 | the same for the other order |
| `RsaTheory.CrtPowerOfZero` | HBase/RSAEuro/rsa.c:317-343 | with q = 2 the private operation takes 0 to p |
| `Rsa.Difference` | HBase/RSAEuro/rsa.c:334-339 | both branches give (mP - mQ) mod p without a borrow |
| `Rsa.Combine` | HBase/RSAEuro/rsa.c:334-343 | the in-place calls on t compute the recombination without overflow |
| `Rsa.ResidueExp` | HBase/RSAEuro/rsa.c:321-328 | the residue modulo one prime raised to its exponent, with zeros above it |
| `Rsa.PrivateCore` | HBase/RSAEuro/rsa.c:317-343 | from the decoded input and key to the recombined power |
| `Rsa.PrivateFunc` | HBase/RSAEuro/rsa.c:282-361 | the private operation on byte strings: refuses numbers of n or more, else the recombined power in modulusLen bytes |
| `Rsa.PublicFunc` | HBase/RSAEuro/rsa.c:237-275 | the public operation on byte strings: refuses numbers of n or more, else m^e mod n in modulusLen bytes |
| `RsaPair.PublicMeaning` | HBase/RSAEuro/rsa.c:237-275 | for a modulus of the stated bits: the output is m^e mod n in modulusLen bytes for m < n, and RE_DATA otherwise |
| `RsaPair.PrivateMeaning` | HBase/RSAEuro/rsa.c:282-361 | for the keys of one pair: the output is c^d mod n in modulusLen bytes for c < n, and RE_DATA otherwise |
| `RsaPair.PrivateUndoesPublic` | HBase/RSAEuro/rsa.c:237-361 | for the keys of one pair and every block of modulusLen bytes: below n the private operation returns what the public one was given, otherwise RE_DATA |
| `RsaPair.UndoesIff` | HBase/RSAEuro/rsa.c:237-361 | for matching keys the private operation returns what the public one was given, for all blocks below n, if and only if the smaller prime is not 2 |
| `RsaPair.PublicUndoesPrivate` | HBase/RSAEuro/rsa.c:237-361 | the same with the two operations exchanged |
| `Prime.Sieve` | HBase/RSAEuro/prime.c:246-262 | trial division passes exactly the numbers without a divisor in the table, or equal to a table entry in one digit |
| `Prime.ProbablePrime` | HBase/RSAEuro/prime.c:102-285 | accepts exactly the numbers v > 2 that divide 2^v - 2 and that no trial divisor divides before v itself is met in the table, in one digit |
| `Prime.AcceptsMeaning` | HBase/RSAEuro/prime.c:246-285 | what the test decides, in terms of divisibility alone |
| `Prime.PrimesAccepted` | HBase/RSAEuro/prime.c:102-285 | a prime is accepted if and only if it is not 2 and is not a table entry held in several digits |
| `Prime.LargePrimeAccepted` | HBase/RSAEuro/prime.c:102-285 | a prime above the largest table entry is never rejected |
| `Prime.ResidueOne` | HBase/RSAEuro/prime.c:73-77 | a - a mod d + 1 is computed without wrap-around |
| `Prime.Adjust` | HBase/RSAEuro/prime.c:73-81 | the adjustment moves a to 1 modulo d and back into the interval |
| `Prime.AdjustedFits` | HBase/RSAEuro/prime.c:73-81 | the adjusted number lies in [b, c], is 1 modulo d, and no step wraps around |
| `Prime.RandomInRange` | HBase/RSAEuro/prime.c:62-71 | the random number is reduced into [b, c], also when c - b + 1 wraps around to 0 |
| `Prime.StartSearch` | HBase/RSAEuro/prime.c:62-81 | with x the remainder of the random number in the interval, the search starts at the last number of the class that is not above x + 1, or at the first of all; it is at most a step from x, and x itself when x leaves the remainder 1 |
| `Prime.AdjustedNearest` | HBase/RSAEuro/prime.c:73-81 | the adjusted number is the nearest of its class in this sense |
| `Prime.StartRightIff` | HBase/RSAEuro/prime.c:73-81 | for a step above 1 the adjustment, wrapping as the digits do, ends on a candidate from every number of the interval if and only if the interval holds one and the top of the digits is not in the way |
| `Prime.HoldsCandidateIff` | HBase/RSAEuro/prime.c:73-81 | the interval holds a candidate exactly when the last number of the class up to c is not below b |
| `Prime.WideHoldsCandidate` | HBase/RSAEuro/prime.c:73-81 | every interval at least as wide as the step holds a candidate |
| `Prime.SearchStopsIff` | HBase/RSAEuro/prime.c:85-92 | the search stops at the last candidate if and only if the step is at most c; otherwise c - d wraps and it runs on |
| `Prime.NextCandidate` | HBase/RSAEuro/prime.c:88-92 | a step keeps the candidate in the interval and the class, and skips nothing in the class |
| `Prime.GeneratePrime` | HBase/RSAEuro/prime.c:51-95 | the search ends; on success the result is in [b, c], 1 modulo d, accepted, and the first such from the start near the random number on; RE_DATA only when the class has none from there up to c |
| `KeyGen.Interval` | HBase/RSAEuro/r_keygen.c:66-72 | the chained in-place calls give 3 * 2^(bits-2), 2^bits - 1 and 2 |
| `KeyGen.IntervalNumbers` | HBase/RSAEuro/r_keygen.c:63-77 | this interval with step 2 satisfies what GeneratePrime needs of its callers |
| `KeyGen.RSAFilter` | HBase/RSAEuro/r_keygen.c:149-167 | true exactly when gcd(a - 1, b) = 1 |
| `KeyGen.FindPrime` | HBase/RSAEuro/r_keygen.c:74-77 | the number found is that of the first random block the filter lets through: in the interval, accepted, and one less coprime to e; RE_DATA only after a search that failed |
| `KeyGen.SortPrimes` | HBase/RSAEuro/r_keygen.c:95-101 | afterwards p is the larger and q the smaller of the two |
| `KeyGen.ProductBits` | HBase/RSAEuro/r_keygen.c:63-106 | primes from the two intervals have a product of exactly pBits + qBits bits |
| `KeyGen.Totient` | HBase/RSAEuro/r_keygen.c:109-112 | phiN = (p-1)(q-1) > 0 on the arrays |
| `KeyGen.DeriveExponents` | HBase/RSAEuro/r_keygen.c:114-116 | d is the inverse of e modulo phiN, and dP and dQ are its residues |
| `KeyGen.DeriveModulus` | HBase/RSAEuro/r_keygen.c:106-107 | n = p*q, and qInv is the inverse of q modulo p |
| `KeyGen.DerivedConsistent` | HBase/RSAEuro/r_keygen.c:103-116 | distinct primes with the two filters passed give a consistent key: e*d = 1 mod (p-1)(q-1) and qInv*q = 1 mod p |
| `KeyGen.Store` | HBase/RSAEuro/r_keygen.c:118-128 | every number survives being written to its field, and both keys carry the same modulus and exponent |
| `KeyGen.GeneratedPair` | HBase/RSAEuro/r_keygen.c:36-144 | if the two accepted numbers are distinct primes, the keys form a pair in the sense of the round trips |
| `KeyGen.GeneratePEMKeys` | HBase/RSAEuro/r_keygen.c:36-144 | other sizes are refused; the first failed search ends it, otherwise the keys are made of the two numbers found: n has exactly the requested bits, e is 2^16 + 1 or 3 as asked, and distinct primes give a key pair |
| `DiffieHellman.SetupAgreement` | HBase/RSAEuro/r_dh.c:89-126 | the public value is g^x mod p in primeLen bytes; without a seed RE_NEED_RANDOM |
| `DiffieHellman.ComputeAgreedKey` | HBase/RSAEuro/r_dh.c:134-167 | values of p or more are refused, others are raised to the private value modulo p |
| `DiffieHellman.PublicValueMeaning` | HBase/RSAEuro/r_dh.c:89-126 | for a prime of k digits: the generator to the private value modulo the prime, both cut to k digits |
| `DiffieHellman.AgreedKeyMeaning` | HBase/RSAEuro/r_dh.c:134-167 | the other value, cut to k digits, is refused exactly when it is not below the prime, else raised to the private one modulo the prime |
| `DiffieHellman.HonestKey` | HBase/RSAEuro/r_dh.c:89-167 | the key from an honest public value is (g^y mod p)^x mod p |
| `DiffieHellman.Agreement` | HBase/RSAEuro/r_dh.c:89-167 | for p > 1 both parties get the same key bytes, for all private values |
| `DiffieHellman.HonestAcceptedIff` | HBase/RSAEuro/r_dh.c:89-167 | an honest public value is never refused if and only if p > 1; for p = 1 the exponent 0 gives the value 1 |
| `Pkcs.BuildType1` | HBase/RSAEuro/rsa.c:160-170 | the block has the form of type 1 around the data |
| `Pkcs.BuildType2` | HBase/RSAEuro/rsa.c:61-77 | the block has the form of type 2 around the data, whatever the nonzero random bytes |
| `Pkcs.StripType1` | HBase/RSAEuro/rsa.c:114-133 | returns the data of a block of type 1, and RE_DATA exactly for the other blocks |
| `Pkcs.StripType2` | HBase/RSAEuro/rsa.c:206-225 | returns the data of a block of type 2, and RE_DATA exactly for blocks of another form or with empty data |
| `Pkcs.Type1Unique` | HBase/RSAEuro/rsa.c:119-128 | a block of type 1 holds only one data string |
| `Pkcs.Type2Unique` | HBase/RSAEuro/rsa.c:211-220 | a block of type 2 holds only one data string |
| `Pkcs.Type1Form` | HBase/RSAEuro/rsa.c:160-170 | a block of type 1 is 0, 1, bytes 255, 0 and the data |
| `Pkcs.Type2Form` | HBase/RSAEuro/rsa.c:61-77 | a block of type 2 is 0, 2, nonzero bytes, 0 and the data |
| `Pkcs.PublicBlock` | HBase/RSAEuro/rsa.c:40-87 | what the private key makes of a ciphertext is such a block of type 2 around the data |
| `Pkcs.PrivateBlock` | HBase/RSAEuro/rsa.c:144-179 | what the public key makes of a signature is such a block of type 1 around the data |
| `Pkcs.PublicEncrypt` | HBase/RSAEuro/rsa.c:40-87 | too long data, then a missing seed, are refused in this order; otherwise the public operation on a type 2 block |
| `Pkcs.PublicDecrypt` | HBase/RSAEuro/rsa.c:91-140 | too long input and the refusals of the public operation come through; otherwise the stripped block |
| `Pkcs.PrivateEncrypt` | HBase/RSAEuro/rsa.c:144-179 | too long data is refused; otherwise the private operation on a type 1 block |
| `Pkcs.PrivateDecrypt` | HBase/RSAEuro/rsa.c:183-231 | too long input and the refusals of the private operation come through; otherwise the stripped block |
| `Pkcs.PublicRoundTrip` | HBase/RSAEuro/rsa.c:40-87 | data encrypted for a key comes back with its private key, of every length that fits, except that empty data is refused |
| `Pkcs.PrivateRoundTrip` | HBase/RSAEuro/rsa.c:144-179 | data encrypted with the private key comes back with the public key, of every length that fits, empty too |
| `Crsa.PartsFlatten` | HBase/HRSA.cpp:44-66 | the parts in which a message is processed make up the message |
| `Crsa.PartsCount` | HBase/HRSA.cpp:44-46 | as many parts as steps cover the message |
| `Crsa.EncryptedForm` | HBase/HRSA.cpp:44-66 | each block is encrypted with the key that was asked for: the other key makes a block of its type of it |
| `Crsa.EncryptedLength` | HBase/HRSA.cpp:35-66 | an encrypted message has a whole modulus for every modulusLen - 11 bytes begun |
| `Crsa.FullParts` | HBase/HRSA.cpp:92-114 | blocks of full length joined together are cut apart again at the same places |
| `Crsa.CRSA.RSAEncrypt` | HBase/HRSA.cpp:23-69 | the output joins the encrypted parts; after a refused part it is empty, which a missing seed forces for every nonempty message |
| `Crsa.CRSA.RSADecrypt` | HBase/HRSA.cpp:71-117 | the output joins the decrypted parts; after a refused part it is empty |
| `Crsa.BlocksCut` | HBase/HRSA.cpp:92-113 | an encrypted message is cut apart where its blocks were joined, because each has exactly modulusLen bytes |
| `Crsa.BlockRoundTrip` | HBase/HRSA.cpp:44-66 | one nonempty part encrypts to modulusLen bytes and comes back |
| `Crsa.MessageRoundTrip` | HBase/HRSA.cpp:23-117 | with the keys of one pair and a seed, whatever the decryption of an encrypted message gives is the message: nothing is refused on the way |
| `Crsa.RoundTrip` | HBase/HRSA.cpp:23-137 | RSADecrypt after RSAEncrypt on one object returns every byte string, in both directions of the keys |
| `Des.InitialFinal` | HBase/RSAEuro/desc.c:746-811 | the permutation behind the rounds and the one in front undo each other up to the exchange of the halves |
| `Des.FinalInitial` | HBase/RSAEuro/desc.c:746-811 | the same in the other order |
| `Des.InitialIsStandard` | HBase/RSAEuro/desc.c:752-771 | the permutation in front of the rounds is the initial permutation of FIPS 46, with both halves rotated by one bit |
| `Des.RoundsAreStandard` | HBase/RSAEuro/desc.c:773-789 | the alternating rounds are those of FIPS 46, where the halves change places |
| `Des.CryptIsStandard` | HBase/RSAEuro/desc.c:746-811 | the block function: initial permutation, sixteen rounds with the subkey pairs in order, and the exchanged halves are the initial permutation of the output |
| `Des.FeistelBoxes` | HBase/RSAEuro/desc.c:729-740 | a round adds for each of the eight boxes its value on six bits of the half and six bits of the subkey pair |
| `Des.OneBox` | HBase/RSAEuro/desc.c:729-740 | with only box k not zero a round adds box k of its six bits: the last six for box 7, four further on for every box in front, each with its own key bits |
| `Des.CookedBits` | HBase/RSAEuro/desc.c:714-721 | cooking hands bits 6k to 6k + 5 of the raw subkey to box k |
| `Des.RoundBack` | HBase/RSAEuro/desc.c:729-740 | a round repeated with the same subkeys on exchanged halves undoes itself, for any S-box contents |
| `Des.RoundsBack` | HBase/RSAEuro/desc.c:773-789 | n rounds with the reversed schedule undo the last n rounds |
| `Des.CryptBack` | HBase/RSAEuro/desc.c:746-811 | the block function with the subkey pairs in reverse order undoes it, for any S-boxes and subkeys |
| `Des.DesFunc` | HBase/RSAEuro/desc.c:746-811 | the loop over pairs of rounds in place is the sixteen rounds between the two permutations |
| `Des.CookKey` | HBase/RSAEuro/desc.c:700-725 | the cooked pair i lies at place i to encrypt and at place 15 - i to decrypt |
| `Des.CookedReversed` | HBase/RSAEuro/desc.c:700-725 | the schedules cooked for the two directions are each other reversed in pairs |
| `Cbc.ScrunchPlaces` | HBase/RSAEuro/desc.c:623-635 | the eight bytes lie in the two words in order, the most significant first |
| `Cbc.ScrunchBack` | HBase/RSAEuro/desc.c:623-649 | packing the unpacked bytes gives the words back |
| `Cbc.UnscrunchBack` | HBase/RSAEuro/desc.c:623-649 | unpacking the packed words gives the bytes back |
| `Cbc.CipherKeys` | HBase/RSAEuro/desc.c:541-562 | the subkeys and whiteners of the three initialisations, with the key parts exchanged and the middle direction inverted for DES3 |
| `Cbc.InitialisedUndoes` | HBase/RSAEuro/desc.c:365-562 | contexts of one key for opposite directions hold reversed schedules, for DES, DESX and DES3 |
| `Cbc.TripleKeys` | HBase/RSAEuro/desc.c:559-561 | triple DES encrypts with the first, decrypts with the second and encrypts with the third part of the key, and decrypts the other way round |
| `Cbc.WhitenedKeys` | HBase/RSAEuro/desc.c:462-472 | DESX is DES with the first part of the key between the second part in front and the third behind |
| `Cbc.RawInPlace` | HBase/RSAEuro/desc.c:583-585 | the one or three calls on the work block |
| `Cbc.StepBack` | HBase/RSAEuro/desc.c:390-613 | decrypting a chained block undoes encrypting it, with the whiteners of DESX |
| `Cbc.RunSplit` | HBase/RSAEuro/desc.c:390-613 | a message in two updates gives the output and the chaining value of one update |
| `Cbc.RunBack` | HBase/RSAEuro/desc.c:390-613 | decrypting a message of any number of blocks gives it back and ends with the same chaining value |
| `Cbc.RunEncrypts` | HBase/RSAEuro/desc.c:398-432 | output block i is the cipher of input block i and output block i - 1 added, or the start value; the last output block is the new start value; DESX with its whiteners |
| `Cbc.RunDecrypts` | HBase/RSAEuro/desc.c:398-432 | the mirror image: the cipher of input block i, with input block i - 1 added |
| `Cbc.Context.Block` | HBase/RSAEuro/desc.c:398-432 | one block: chaining before or after the cipher, then the chaining value moves on |
| `Cbc.Context.Update` | HBase/RSAEuro/desc.c:390-437 | lengths that are no multiple of 8 are refused with nothing changed; otherwise every block is chained to the one in front of it, in both directions, and the last ciphertext block stays behind |
| `Cbc.Context.Restart` | HBase/RSAEuro/desc.c:439-446 | the first chaining value is restored |
| `Envelope.AdvanceTwice` | HBase/RSAEuro/r_enhanc.c:356-512 | two updates do what one update with both parts does, output and state |
| `Envelope.AnySplit` | HBase/RSAEuro/r_enhanc.c:356-512 | any split into updates gives the output and the state of a single one |
| `Envelope.UnpaddedIff` | HBase/RSAEuro/r_enhanc.c:533-548 | a last block is accepted exactly when it is a padded string of at most 7 bytes (section 1.1 of RFC 1423) |
| `Envelope.PaddedBytes` | HBase/RSAEuro/r_enhanc.c:406-413 | behind the message come one to eight bytes that complete the block, each of them their number |
| `Envelope.PaddedSplit` | HBase/RSAEuro/r_enhanc.c:408-413 | the padding changes nothing in front of the last block |
| `Envelope.SealedOneShot` | HBase/RSAEuro/r_enhanc.c:356-420 | sealing under any split is the chained cipher over the padded message at once |
| `Envelope.OpenedIff` | HBase/RSAEuro/r_enhanc.c:469-562 | opening under any split returns x exactly for ciphertexts of whole blocks that decrypt to padded x; the empty ciphertext opens as the empty message |
| `Envelope.RoundTrip` | HBase/RSAEuro/r_enhanc.c:356-562 | opening under any split what was sealed under any split returns the message, with the bytes pending before in front |
| `Envelope.KeyRoundTrip` | HBase/RSAEuro/r_enhanc.c:908-931 | the same for two contexts set up from one key |
| `Envelope.EnvelopeCtx.SealUpdate` | HBase/RSAEuro/r_enhanc.c:356-396 | the output and the new state of the simple form; at most 7 bytes more than were handed in; fewer than 8 stay behind |
| `Envelope.EnvelopeCtx.SealFinal` | HBase/RSAEuro/r_enhanc.c:400-420 | one padded block, and the context is restarted |
| `Envelope.EnvelopeCtx.OpenUpdate` | HBase/RSAEuro/r_enhanc.c:469-512 | the output and the new state of the simple form; at most 7 bytes more than were handed in; the last block stays behind, and something does unless nothing ever came |
| `Envelope.SealParts` | HBase/RSAEuro/r_enhanc.c:356-420 | the updates and the final call on a context give the sealed message and restart it |
| `Envelope.OpenParts` | HBase/RSAEuro/r_enhanc.c:469-562 | the updates and the final call on a context give the opened message; on success it ends restarted |
| `Envelope.SealAndOpen` | HBase/RSAEuro/r_enhanc.c:356-562 | two contexts for opposite directions: what one seals in any parts the other opens in any parts, and both end restarted |
| `Envelope.EnvelopeCtx.OpenFinal` | HBase/RSAEuro/r_enhanc.c:516-562 | the rest of the plaintext or RE_KEY; on success the context ends restarted; without input it is untouched; a refused buffer stays in place |
| `Pem.AscBack` | HBase/RSAEuro/r_encode.c:66-95 | every value survives the two tables, and none becomes the pad |
| `Pem.BinBack` | HBase/RSAEuro/r_encode.c:66-95 | every legal character survives the two tables, and the pad is not legal |
| `Pem.Alphabet` | HBase/RSAEuro/r_encode.c:66-73 | the characters A-Z, a-z, 0-9, + and / in this order, and = for the pad |
| `Pem.SixValue` | HBase/RSAEuro/r_encode.c:203-206 | the four values are the 24 bits of the three bytes in order |
| `Pem.GroupCharacters` | HBase/RSAEuro/r_encode.c:207-217 | the characters of a group stand for the four values in order; one pad ends a group of two bytes, two a group of one |
| `Pem.GroupBack` | HBase/RSAEuro/r_encode.c:196-218 | a group of one, two or three bytes decodes to them, whatever lies behind them in memory |
| `Pem.EncodePEMBlock` | HBase/RSAEuro/r_encode.c:102-125 | the groups of the block one after the other (section 4.3.2.4 of RFC 1421) |
| `Pem.DecodePEMBlock` | HBase/RSAEuro/r_encode.c:127-189 | RE_ENCODING exactly for texts with an illegal group or length, else all decoded groups and the number of bytes that count |
| `Pem.EncodedBack` | HBase/RSAEuro/r_encode.c:102-189 | decoding an encoded block of any length gives it back |
| `Pem.EncodedSplit` | HBase/RSAEuro/r_encode.c:102-125 | full groups and what follows are encoded independently |
| `Pem.EncryptBlocks` | HBase/RSAEuro/r_enhanc.c:850-859 | parts of 24 bytes are sealed to 24 bytes and encoded to 32 characters; as much stays pending as before |
| `Pem.EncryptOpenPEMBlock` | HBase/RSAEuro/r_enhanc.c:839-874 | the characters encode the chained cipher over the padded message, pending bytes included; the context is restarted |
| `Pem.DecryptOpenPEMBlock` | HBase/RSAEuro/r_enhanc.c:798-837 | the status and output of opening the decoded parts; under 32 characters the status is what it happened to hold |
| `Pem.SealAndOpenText` | HBase/RSAEuro/r_enhanc.c:798-874 | on two contexts the content comes back exactly when it has 16 bytes or the status happens to be clear, and both end restarted |
| `Pem.TextPartsBack` | HBase/RSAEuro/r_enhanc.c:811-827 | encoded cipher blocks are cut into parts that make up exactly these bytes |
| `Pem.TextRoundTrip` | HBase/RSAEuro/r_enhanc.c:798-874 | what EncryptOpenPEMBlock makes of any message is opened as this message |
| `Pem.LongEnough` | HBase/RSAEuro/r_enhanc.c:805-821 | there is a block of 32 characters, so that the status is set, exactly for messages of 16 bytes or more |
| `Md5.CountedStep` | HBase/RSAEuro/md5c.c:129-133 | the two words hold the number of bits modulo 2^64 after every update |
| `Md5.Index` | HBase/RSAEuro/md5c.c:126-127 | the low word gives the number of buffered bytes |
| `Md5.LoopStopsIff` | HBase/RSAEuro/md5c.c:143-144 | at its last place the loop over the blocks stops if and only if the length satisfies the bound that is asked for |
| `Md5.Context.Count` | HBase/RSAEuro/md5c.c:129-133 | the same on the context |
| `Md5.Context.Update` | HBase/RSAEuro/md5c.c:119-153 | the context represents the data and the input behind it: blocks folded, the rest buffered, bits counted |
| `Md5.Context.Final` | HBase/RSAEuro/md5c.c:158-183 | the digest folds exactly the padded message (sections 3.1 and 3.2 of RFC 1321), for any compression function |
| `Md5.FoldNext` | HBase/RSAEuro/md5c.c:143-144 | one more block of 64 bytes is folded in behind the others |
| `Md5.PaddedShape` | HBase/RSAEuro/md5c.c:163-175 | behind the data the byte 0x80, then zeros, and in the last eight bytes the number of bits modulo 2^64, lowest byte first |
| `Md5.InitialBytes` | HBase/RSAEuro/md5c.c:107-112 | the state at the start is the sixteen bytes of section 3.3 of RFC 1321 |
| `Md5.StateBytes` | HBase/RSAEuro/md5c.c:177-178 | the digest holds the four words in order, each with its lowest byte first |
| `Md5.ShortDigest` | HBase/RSAEuro/md5c.c:158-178 | a message of less than 56 bytes is one block, folded from the starting state |
| `Md5.PaddedInjective` | HBase/RSAEuro/md5c.c:163-179 | different messages of less than 2^61 bytes are padded differently |
| `Md5.DigestBlock` | HBase/RSAEuro/r_enhanc.c:777-796 | the digest of a block in one call |
| `Md5.DigestParts` | HBase/RSAEuro/md5c.c:119-183 | updates under any split give the digest of the joined message |
| `Random.IncrementCounts` | HBase/RSAEuro/r_random.c:151-153 | the increment adds one modulo 256^16 to the number whose bytes are each one less than those of the state |
| `Random.PlainCounterIff` | HBase/RSAEuro/r_random.c:151-153 | the number in the state itself is counted up exactly when its last byte is neither 0 nor 255 |
| `Random.StatesRepeatIff` | HBase/RSAEuro/r_random.c:151-153 | two states on the way are equal exactly when a multiple of 256^16 increments lies between them |
| `Random.StreamSplit` | HBase/RSAEuro/r_random.c:125-160 | drawing n bytes and then m gives the bytes and the object of drawing n + m |
| `Random.NextSixteen` | HBase/RSAEuro/r_random.c:143-153 | with nothing at hand the next 16 bytes are the digest of the state, and the state is incremented |
| `Random.StreamIsDigests` | HBase/RSAEuro/r_random.c:138-155 | the stream is the digests of the successive states, one after the other |
| `Random.StreamRound` | HBase/RSAEuro/r_random.c:138-155 | using up the buffer and refilling it continues the stream |
| `Random.RandomStruct.IncrementState` | HBase/RSAEuro/r_random.c:150-153 | the loop in place is the increment |
| `Random.RandomStruct.GenerateBytes` | HBase/RSAEuro/r_random.c:125-160 | the next bytes of the stream and the object after them; nothing changes while seed is missing |
| `Random.RandomStruct.RandomUpdate` | HBase/RSAEuro/r_random.c:80-112 | the state becomes the sum with the digest modulo 2^128, and the seed still needed falls |
| `Random.RandomStruct.AddDigest` | HBase/RSAEuro/r_random.c:95-99 | the byte loop adds two numbers of 16 bytes modulo 256^16 |
| `NNBasic.AssignZero` | HBase/RSAEuro/nn.c:105-114 | the digits are 0 and nothing above them changes |
| `NNBasic.Assign` | HBase/RSAEuro/nn.c:564-573 | the digits are copied and nothing above them changes |
| `NNMult.MultRow` | HBase/RSAEuro/nn.c:191-206 | one row adds a digit of b times c at its weight, with the carry stored above it |
| `NNModular.ExpDigits` | HBase/RSAEuro/nn.c:414-435 | the loop over all digits raises to the whole exponent |
| `NNBytes.DecodeDigit` | HBase/RSAEuro/nn.c:63-69 | four bytes, or the fewer that are left, make up one digit |
| `NNBytes.EncodeDigit` | HBase/RSAEuro/nn.c:92-97 | one digit fills four bytes, or the fewer that are left |
| `KeyGen.FinishKeys` | HBase/RSAEuro/r_keygen.c:95-128 | from two numbers found to the stored keys |
| `Rsa.MultiplyAdd` | HBase/RSAEuro/rsa.c:342-343 | t * q + mQ is computed in place without overflow |
| `Crsa.CRSA.SetKey` | HBase/HRSA.cpp:16-21 | both keys and the random object are replaced |
| `Cbc.DesKey` | HBase/RSAEuro/desc.c:653-698 | the cooked schedule of a key for one direction |
| `Cbc.Context.constructor` | HBase/RSAEuro/desc.c:365-382 | the schedules of the key and the chaining value at its start |
| `Pem.ReadGroup` | HBase/RSAEuro/r_encode.c:151-178 | four characters are refused exactly when they are no legal group |
| `Pem.DecryptBlocks` | HBase/RSAEuro/r_enhanc.c:811-819 | all blocks of 32 characters decoded and opened, or the first failure |
| `Md5.Context.constructor` | HBase/RSAEuro/md5c.c:102-113 | no data yet |
| `Md5.Context.FoldBlocks` | HBase/RSAEuro/md5c.c:143-144 | the whole blocks of the input are folded, and fewer than 64 bytes stay |
| `Random.RandomStruct.constructor` | HBase/RSAEuro/r_random.c:67-76 | the state is 0, nothing is at hand and 256 bytes of seed are needed |

## Left out

- NNEuclid.ModInv: the modulus is positive, as every caller has it.
- NNModular.ModExp: the modulus is positive; for 0 the code leaves numbers as they are, and no caller asks for it.
- NNDiv.SubDigitMult: the two windows start at the same offset, as its one caller has them.
- NNBasic.Cmp: the offset of the window that the division passes as a pointer is an argument; the same holds for `NNBasic.Sub`.
- The library calls `R_memcpy`, `R_memset` and `R_memcmp` are plain copies, fills and comparisons of strings.
- Rsa.PrivateFunc: asks for a key whose numbers have the sizes the code's buffers assume (p > q > 1, n = p * q, the rest below p); nothing is said about other keys, by this or by the operations that call it. The memory for the digits is 33 digits, as in the code.
- Prime.GeneratePrime: stated where the interval holds a candidate (as every interval does that is as wide as the step), the adjustment does not wrap around at the largest number, and the step is at most c, since otherwise c - d borrows and the search leaves the interval. For steps above 1 these conditions are necessary (`Prime.StartRightIff`, `Prime.SearchStopsIff`); for the step 1 an interval that ends at the largest number of all is left out. `KeyGen.IntervalNumbers` shows that key generation meets them. The random bytes are an argument.
- Prime.StartSearch: the same conditions.
- Prime.Adjust: the same conditions.
- Prime.ProbablePrime: the table of small primes is an argument with entries of at least 3.
- KeyGen.GeneratePEMKeys: the random draws are a finite list, and running out of them is RE_NEED_RANDOM, because nothing bounds how long the code waits for a lucky draw. That accepted numbers are primes is a hypothesis; that equal primes do not come up is one too.
- Pkcs.PublicDecrypt: the modulus has 3 to 128 bytes, as far as the block buffer reaches and the loops make sense; encryption asks for at most 128.
- Pkcs.PrivateDecrypt: the same sizes, and the keys of `Rsa.PrivateFunc`.
- Pkcs.PublicEncrypt: the modulus has at most 128 bytes, as many as the block buffer.
- Pkcs.PrivateEncrypt: the same size, and the keys of `Rsa.PrivateFunc`.
- Rsa.PrivateCore: the keys of `Rsa.PrivateFunc`.
- Pkcs.BuildType2: the random bytes of the padding are any nonzero bytes; the wait for a nonzero byte is not modelled.
- Crsa.CRSA.RSADecrypt: the same sizes as for `Crsa.CRSA.RSAEncrypt`.
- Crsa.CRSA.RSAEncrypt: the moduli have 12 to 128 bytes, since smaller ones leave no room for a step. Messages are strings of any length, so the 32-bit block counters do not wrap; the seed still needed is a number in the object.
- DiffieHellman.SetupAgreement: the modulus is positive. The private value is an argument in place of the random bytes; `R_GenerateDHParams` is left out, because it repeats the interval arithmetic of key generation.
- Des.DesFunc: words have the 32 bits of the block and of the key schedule, not the width of `unsigned long`; the S-boxes are arguments.
- Cbc.DesKey: only the cooking of the subkeys is stated, for any choice of key bits.
- Cbc.CipherKeys: the choice of key bits in `deskey` is a function argument, because the round trips hold for any; `cookey` is modelled.
- Cbc.Context.Update: one class stands for the three contexts of DES, DESX and DES3, with the output returned and not written through a pointer.
- Envelope.EnvelopeCtx.SealUpdate: `R_SealInit` and `R_OpenInit`, which move the content key through RSA, are not part of this model.
- Pem.EncryptOpenPEMBlock: the pending bytes and the last part together have fewer than 24 bytes; otherwise the sealed last part would not fit its buffer.
- Envelope.SealAndOpen: a loop of its own over the parts, to state the round trip on contexts.
- Pem.DecryptOpenPEMBlock: the status that the code reads before setting it, under 32 characters, is an argument.
- Md5.Context.Update: one call takes fewer than 2^32 bytes, and not so many that the loop counter wraps around before it stops (`Md5.LoopStopsIff`). The compression function is an argument, and the wiping of the context after the last call is not modelled.
- Md5.DigestBlock: MD5 is the digest that is modelled; the others, and the refusal of an unknown one, are left out.
- Md5.DigestParts: a loop of its own over the parts, to state that their split does not matter.
- Random.RandomStruct.GenerateBytes: `R_RandomCreate` and `R_RandomMix`, which take clocks, are left out.
- Bytes are numbers below 256 in the RSA part and bit vectors of width 8 in the cipher part, each as the proofs there need it.
- Signatures (`R_Sign*`, `R_Verify*`) are left out: they frame a digest for the private operation and compare it.
- Sockets, worker threads, scripting, logging, files and mail are input and output around this core.
- Timing, wiping of memory and the strength of the ciphers are not modelled.
