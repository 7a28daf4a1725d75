# ZiguratIP verification

A Dafny model of the parts of ZiguratIP whose correctness is arithmetic, encoding,
compilation or parsing, with proofs of what those parts are for. Loops stay loops,
in-place transforms work on arrays, and objects whose methods change their fields are
classes; every such method is proved against a function of its inputs, and the theorems
are about those functions.

* **Big integers** (`Arithmetic`, `Words`, `Polynomial`, `Multiplication`, `Division`,
  `Exponentiation`, `BigIntegers`, `Euclid`, `BinaryGcd`). A number is a little-endian
  sequence of 32-bit words, leading zero words allowed, and `Val` is its value. Every
  operation is exact: carries, borrows and the 64-bit accumulator stay in range,
  Karatsuba's subtractions never underflow, the estimated quotient digit is never too
  small and at most two too large, and division undoes its normalisation.
* **RSA** (`NumberTheory`, `Octets`, `Rsa`, `Pkcs1`). Fermat's little theorem by the
  binomial theorem, the Chinese remainder step, the textbook round trip for every key
  the generator can make from two distinct primes, and the PKCS #1 v1.5 blocks on their
  detour through an integer.
* **WHERE compiler** (`Predicates`, `Plans`, `PlanCode`, `WhereCompilers`, `WhereLaws`,
  `WhereCounts`, `WhereRefinement`, `WhereOrTails`). A predicate becomes a plan of nested
  index cursors; the compiler is a class that appends tokens, proved to write exactly the
  plan, and the tokens, when they run, yield what the plan yields. Running a plan over an
  index that holds each row of the table once is compared with the filtered scan. For
  every predicate and every key it is proved exactly when the plan's code can run: every
  cursor stands at its own level, takes the bound it is given, and has a bound that can be
  evaluated before there is a row. Of a plan that runs it is proved how often it yields
  each row, and so exactly when it yields what the scan yields.
* **AES** (`Galois`, `SubstitutionBox`, `AesBlocks`, `Aes`). In-place transforms of a 4x4
  array over GF(2^8), each undone by its inverse in both orders, up to whole CBC streams,
  and each the transform of FIPS 197.
* **Base-N** (`Shifts`, `BaseCodec`) and **DER** (`Streams`, `DerNumbers`, `Der`,
  `DerLaws`). Encoders and decoders over octets, with round trips for every input on which
  the code has one, and the exact inputs on which it does not.
* **Configuration files** (`Text`, `ConfigLines`, `ConfigLineLaws`, `Configurations`,
  `ConfigurationLaws`). The recursive loader with its rewinding stream, the tree it builds
  and its exceptions.
* **HTTP framing** (`HttpRequests`, `HttpServer`, `HttpFraming`, `HttpLaws`,
  `HttpConnections`). The read loop of a keep-alive connection, whose per-request state
  lives in fields that are reset, and what the handler is called with over a whole
  connection.

Where a promised property does not hold of the code, the code is modelled as it is and
the exact condition is proved:

* A ciphertext with a leading zero word is not padded on the left, so its buffer is read
  back as another number: decrypting it throws at once if that number is not below n, and
  otherwise goes on with a representative that is not the block's
  (`Pkcs1.EncryptThenDecrypt`).
* PKCS #1 v1.5 unpadding counts in 8 bits: the message comes back exactly when at most 255
  octets precede it (`Pkcs1.UnpadBlock`).
* A 64-bit DER integer is read back exactly outside [2^55, 2^56), where its tag is not
  written (`Der.RoundTrip64`).
* A negative integer of a fixed width is written with all octets of the width, which is its
  shortest form exactly when it does not fit one octet fewer; the 16-bit -1 becomes FF FF
  (`Der.ContentShortest`, with `Der.MinusOneNotShortest` as a sample).
* A big integer is read back from DER exactly when it is not zero, which has no content,
  and not a negative one whose top bit is set, which loses its sign
  (`Der.BigIntRoundTrip`); and a negative one is written as sign and magnitude, not in
  two's complement (`Der.ContentMeans`).
* An object identifier comes back exactly when its second arc is below 40 and its first
  two arcs fit one octet below 128 (`Der.OidRoundTrip`).
* `inverse` returns a number below n except for `inverse(1, 1)`, which is 1
  (`Euclid.Inverse`).
* `mod_pow` meets the modular law exactly unless the exponent is zero and the divisor one
  (`Exponentiation.ModPow`).
* A hashed leading column under anything but equality gets no code at all, although a
  comment promises a scan: such a plan is right exactly when no row is selected
  (`WhereRefinement.SingleColumnExact`, `WhereRefinement.CompositePlan`).
* A comparison of a leading key column with an operand that names the row's own columns
  gets code that evaluates the operand before there is a row, and an operator that is no
  comparison gets a cursor call with a bound that this cursor does not take; neither can be
  compiled. Exactly which plans run is proved for one column
  (`WhereRefinement.SingleColumnExact`) and for composite keys
  (`WhereRefinement.CompositeRuns`), with `WhereRefinement.BoundsWithoutCode` as a sample.
* An OR behind a bound prefix yields a row once for each operand whose cursor reaches it:
  it is right exactly when no selected row is reached by both (`WhereOrTails.OrTailPlan`,
  with `WhereRefinement.OrTailRepeatsRows` as a sample). Every other shape of OR is covered
  by `WhereOrTails.CompositeExact`.
* A member of another object is taken for the column of a one-column key: the plan is right
  exactly when each selected row's own column compares like the member, or like its hash
  (`WhereRefinement.ForeignMemberPlan`, with `WhereRefinement.ForeignMemberLosesRows` as a
  sample).
* The sign that the DER integer reader reports is that of two's complement exactly unless
  the first octet is 80 (`DerLaws.SignExactly`).
* A comment line is passed over exactly when no tab stands before it; an indented one
  becomes an option without a name (`ConfigLineLaws.IndentedComment`).
* The tabs at the start of a configuration line are its depth exactly when none stands
  directly behind its colon (`ConfigLineLaws.SplitExactly`).
* A header value arrives as it was sent exactly when no space stands at its ends or beside
  its colons (`HttpLaws.TidyKeeps`).
* The body of a GET is read as the next request (`HttpConnections.GetBodyReadAsRequest`).

## Model
| member | source | states |
|---|---|---|
| Words.LenIff | Core/polynomial.cpp:131-142 | a number is below the k-th power of the base exactly when its significant length is at most k |
| Words.LenBounds | Core/polynomial.cpp:131-147 | the length without leading zero words brackets the value between two powers of the base, and is zero exactly for zero |
| Polynomial.Length | Core/polynomial.cpp:131-142 | the loop finds the length without leading zero words |
| Polynomial.Cmp | Core/polynomial.cpp:160-177 | the word-by-word comparison is the comparison of values, whatever leading zeros the operands carry |
| Polynomial.HigherWordDecides | Core/polynomial.cpp:160-177 | the highest word that differs decides the order of two values |
| Polynomial.FromUInt64 | Core/polynomial.cpp:93-96 | two words hold any 64-bit value |
| Polynomial.Shl | Core/polynomial.cpp:420-428 | a shift by words multiplies by a power of the base |
| Polynomial.Shr | Core/polynomial.cpp:430-440 | a shift by words is the floor of dividing by a power of the base |
| Polynomial.Add | Core/polynomial.cpp:442-457 | exact sum at one word more than the longer operand; the last carry is kept |
| Polynomial.Sub | Core/polynomial.cpp:459-474 | exact difference, or the underflow error exactly when the subtrahend is larger |
| Multiplication.MulRow | Core/polynomial.cpp:185-189 | one row adds word times multiplier in place; the accumulator fits 64 bits and the carry one word, and higher words stay |
| Multiplication.NaiveMul | Core/polynomial.cpp:179-195 | schoolbook multiplication is the product of the two prefixes |
| Multiplication.KaratsubaMul | Core/polynomial.cpp:197-211 | the split and recombination give the exact product, no subtraction underflows, and the recursion through the product operator ends |
| Multiplication.Mul | Core/polynomial.cpp:476-491 | the product operator is exact for all lengths, through both paths and the shift that pads unequal lengths |
| Division.EstimateBounds | Core/polynomial.cpp:230-239 | the capped estimate from the top words is never below the true digit and at most two above it when the remainder has the full length |
| Division.QuotientDigit | Core/polynomial.cpp:228-249 | one step finds the digit, leaves a remainder below the shifted divisor, and corrects at most twice at full length |
| Division.NaiveDiv | Core/polynomial.cpp:213-253 | long division by a normalised divisor: dividend is quotient times divisor plus a remainder below the divisor |
| Division.Coefficient | Core/polynomial.cpp:307-309 | the scaling coefficient brings the top word to at least half the base without making the divisor longer |
| Division.Normalising | Core/polynomial.cpp:307-309 | the scaled divisor keeps its length and is normalised |
| Division.ScaledDivision | Core/polynomial.cpp:307-311 | scaling both operands leaves the quotient, and the scaled remainder divides exactly by the coefficient |
| Division.Div | Core/polynomial.cpp:295-326 | division and remainder of any dividend by any non-zero divisor below the threshold, through normalisation, blocks and their recursion; division by zero throws unless the dividend is zero |
| Exponentiation.Power | Core/polynomial.cpp:328-353 | square-and-multiply computes the power for every exponent |
| Exponentiation.BitsOfWords | Core/polynomial.cpp:372-385 | reading an exponent bit by bit across its words gives its value |
| Exponentiation.BitLength | Core/polynomial.cpp:359-366 | the scan finds the highest set bit, past any leading zero words |
| Exponentiation.ModPow | Core/polynomial.cpp:355-388 | modular power for every positive exponent and divisor, the last squaring skipped; over all positive divisors the modular law holds exactly unless the exponent is zero and the divisor one; it throws exactly for a zero divisor with positive base and exponent |
| BigIntegers.Cmp | Core/bigint.cpp:220-231 | signed comparison, with zero equal to minus zero |
| BigIntegers.Add | Core/bigint.cpp:378-395 | exact signed sum |
| BigIntegers.Sub | Core/bigint.cpp:397-414 | exact signed difference |
| BigIntegers.Mul | Core/bigint.cpp:416-429 | exact signed product |
| BigIntegers.Div | Core/bigint.cpp:233-246 | the quotient truncates toward zero and the remainder is that of the magnitudes |
| BigIntegers.GreatestDivisor | Core/bigint.cpp:490-501 | Euclid's recursion returns the gcd of non-negative operands; it throws exactly when one of them is zero |
| BigIntegers.LeastMultiple | Core/bigint.cpp:542-545 | the quotient by the gcd is the least common multiple: a multiple of both that divides every other |
| Euclid.ExtendedEuclid | Core/bigint.cpp:547-571 | the gcd with coefficients that combine to it; it throws exactly when the second operand alone is zero |
| Euclid.InverseStep | Core/bigint.cpp:579-587 | one turn keeps the congruences, the gcd and the bound on the signed Bezout coefficients, and the remainder falls |
| Euclid.InverseTurn | Core/bigint.cpp:577-587 | one turn of the loop on big integers keeps all that, and its division stays below the threshold |
| Euclid.InverseEnd | Core/bigint.cpp:588-590 | at the end the corrected coefficient lies in range and is an inverse |
| Euclid.Inverse | Core/bigint.cpp:573-591 | it throws exactly when the gcd exceeds one and otherwise returns an inverse within range, with the one exception of modulus one |
| BinaryGcd.GcdStep | Core/bigint.cpp:533-539 | halving the even operand or subtracting and halving keeps the gcd, and the sum falls |
| BinaryGcd.OddPart | Core/bigint.cpp:524-540 | the binary gcd ends with an odd g and a d such that 2^d times g is the gcd |
| BinaryGcd.PowerOfTwoPart | Cryptography/rsa.cpp:150-151 | asked with one number twice, it splits the number into an odd part and a power of two |
| NumberTheory.GcdIsGcd | Core/bigint.cpp:490-501 | the recursion's value divides both operands and is divided by every common divisor |
| NumberTheory.RsaIdentity | Cryptography/rsa.cpp:195-252 | raising to e and then to d gives x back modulo p q, for every x below it and d inverse to e modulo a common multiple of p-1 and q-1 |
| Octets.FromOctets | Core/bigint.cpp:62-85 | the octet constructor reads big-endian octets of any length into words; with a sign, the top bit of a complete top word makes the number negative and is no part of its magnitude |
| Octets.ToOctets | Core/bigint.cpp:194-218 | the octet writer gives whole words, most significant first; a number whose top bit is set is led by a zero word whatever its sign, and any other negative one has its sign in the first bit |
| Octets.OctetValInjective | Cryptography/rsa.cpp:233-236 | octet strings of one length with one value are equal |
| Rsa.GenerateKey | Cryptography/rsa.cpp:195-206 | n is the product and d an inverse of e modulo the least common multiple; it throws exactly when e has none |
| Rsa.Primitive | Cryptography/rsa.cpp:238-252 | the encryption and decryption primitives raise to the exponent modulo n, and reject exactly the representatives outside 0..n-1 |
| Rsa.TextbookRoundTrip | Cryptography/rsa.cpp:195-252 | decrypting an encryption returns the representative for every generated key and every representative in range, and throws in exactly the other cases (sections 5.1.1 and 5.1.2 of RFC 8017) |
| Pkcs1.FillNonZero | Cryptography/rsa.cpp:793-802 | the padding generator leaves no zero octet and keeps the non-zero draws |
| Pkcs1.EncodeBlock | Cryptography/rsa.cpp:402-416 | the buffer becomes 00 02 PS 00 M with PS free of zeros |
| Pkcs1.Unpad | Cryptography/rsa.cpp:439-454 | the unpadding loop with its 8-bit counter, error by error |
| Pkcs1.UnpadBlock | Cryptography/rsa.cpp:439-454 | unpadding an encoded block returns the message exactly when the part before it is at most 255 octets long |
| Pkcs1.RejectedExactly | Cryptography/rsa.cpp:439-442 | a decrypted buffer is refused exactly when it does not begin with 00 02 |
| Pkcs1.UnpaddedExactly | Cryptography/rsa.cpp:444-454 | what comes out of any other buffer, by the place of its first zero octet: the message behind it up to octet 254, the whole buffer at 255, all but its first octet beyond, and a read past the buffer if there is none |
| Pkcs1.UnpaddedBlocks | Cryptography/rsa.cpp:439-454 | a buffer of fewer than 256 octets gives a message exactly when it is a block of it, and is read past its end exactly when its padding has no end |
| Pkcs1.I2OSP | Cryptography/rsa.cpp:224-231 | it writes the words of the number at the front of the buffer and leaves the rest, or throws exactly when the number does not fit |
| Pkcs1.BlockFillsWords | Cryptography/rsa.cpp:224-236 | the 02 octet keeps the top word of a block's integer non-zero, so the integer detour returns the block |
| Pkcs1.Encrypt | Cryptography/rsa.cpp:402-421 | too long a message and a block not below n are rejected, and the ciphertext is the power, readable from its buffer exactly when it fills all words |
| Pkcs1.Decrypt | Cryptography/rsa.cpp:423-454 | every representative is unpadded as the octets left in the buffer, its own words at the front; one that fills the words of the buffer, as every block does, as the octets it stands for; short buffers and values not below n are rejected |
| Pkcs1.GeneratedKeyPair | Cryptography/rsa.cpp:195-206 | every key generated from two distinct primes undoes its own powers on all of 0..n-1 |
| Pkcs1.EncryptThenDecrypt | Cryptography/rsa.cpp:402-454 | the whole round trip returns the message exactly when block length minus message length is at most 255, for a ciphertext that fills its buffer (section 7.2 of RFC 8017); any other is misread, and throws at once or is taken for another representative |
| Predicates.FilterMultiset | Compiler/wherecompiler.cpp:116-126 | a filtered scan's rows, as a multiset, do not depend on the order of the table |
| Plans.ExecExact | Compiler/wherecompiler.cpp:129-293 | running a plan that loses no selected row and re-applies the whole predicate on each is filtering the rows of its level |
| PlanCode.EmitBalanced | Compiler/wherecompiler.cpp:116-293 | the code of every plan closes exactly the lambdas that it opens, wherever it stands |
| PlanCode.EmitRuns | Compiler/wherecompiler.cpp:21-293 | code run token by token, each call running its lambda for what it hands out and the content filtered, yields for every plan what the plan yields, with anything behind it |
| WhereCounts.ExecCount | Compiler/wherecompiler.cpp:129-293 | on a handle of its own level any plan yields each selected row as often as the level holds it times the cursors that reach it |
| WhereCounts.PlanExact | Compiler/wherecompiler.cpp:21-293 | for every predicate, any key and either kind of column: a plan whose code can run, with every cursor at its level and every bound evaluable before there is a row, yields each selected row as often as the table holds it times the cursors that reach it and no other row, so it refines the scan exactly when one cursor reaches each selected row |
| WhereCounts.CodeExact | Compiler/wherecompiler.cpp:21-293 | the same of the code itself: the tokens, when they run, yield each selected row as often as the table holds it times the cursors that reach it, and no other row |
| WhereCounts.ScanCode | Compiler/wherecompiler.cpp:40-46 | the code for a predicate without an indexed lookup yields the rows it selects in their order, and without a predicate every row |
| WhereCompilers.WhereCompiler.Partial | Compiler/wherecompiler.cpp:152-220 | the loop that opens the middle levels, writes the row walk and closes them writes exactly the nested walk |
| WhereCompilers.WhereCompiler.Cursor | Compiler/wherecompiler.cpp:129-293 | one conjunct's cursor and what follows it are appended, and it is undefined exactly when the position runs past the key |
| WhereCompilers.WhereCompiler.Next | Compiler/wherecompiler.cpp:136-222 | the continuation appends the code of the rest of the chain, both operands in turn for an OR |
| WhereCompilers.WhereCompiler.Compile | Compiler/wherecompiler.cpp:21-127 | the whole compilation appends exactly the tokens of the plan, which yield when they run what the plan yields |
| WhereLaws.CursorNames | Compiler/wherecompiler.cpp:295-310 | which comparison the cursor of each operator makes, and that any other operator has the cursor that compares nothing |
| WhereLaws.ComparisonsMean | Compiler/wherecompiler.cpp:50-55 | what each comparison selects, and that BETWEEN selects what the two comparisons do that it is expanded to |
| WhereLaws.StringKeyedExactly | Compiler/wherecompiler.cpp:87-89 | keys are hashes exactly for types that name STRING, TEXT or VECTOR anywhere |
| WhereLaws.BindsExactly | Compiler/wherecompiler.cpp:230-239 | which conjunct opens a level: an equality on its column, or at the innermost level any comparison over keys that are not hashes, a dotted name taken by its qualifier |
| WhereLaws.LeadKeyExactly | Compiler/wherecompiler.cpp:56-72 | which key a predicate is looked up in: the first one that has the column of the leading conjunct at all, and only if the column leads it |
| WhereRefinement.Aligned | Compiler/wherecompiler.cpp:129-293 | from a handle at its own level the plan of any predicate, ORs included, runs exactly when its operands are usable: what opens a level does so at its own, with a bound that does not mention the row |
| WhereRefinement.Misaligned | Compiler/wherecompiler.cpp:288-292 | once a position has been passed without opening its level, no plan of any predicate can run |
| WhereRefinement.ChainUsable | Compiler/wherecompiler.cpp:235-239 | in an AND chain the operands are usable exactly when every conjunct up to the innermost level binds its own column, in key order, with a bound that does not mention the row |
| WhereRefinement.CompositeRuns | Compiler/wherecompiler.cpp:85-110 | the plan of any predicate over a composite key runs, levels and bounds alike, exactly when it has no code or its operands are usable |
| WhereRefinement.HoldsKeepsOrder | Compiler/wherecompiler.cpp:77-89 | a comparison that holds of values holds of their keys, for equality over any hash and for every comparison over keys that keep the order |
| WhereRefinement.CompositePlan | Compiler/wherecompiler.cpp:129-293 | for a right-nested AND chain and any key depth, the plan runs exactly when it has no code or the chain is usable; a usable chain yields the filtered scan's rows, each once, and a plan without code is right exactly when the scan is empty |
| WhereRefinement.SingleColumnExact | Compiler/wherecompiler.cpp:54-114 | a single-column plan runs exactly when it has no code or compares with a cursor of its own whose bound does not mention the row; it is then right exactly when its cursor meets every selected row, or without code exactly when there is none |
| WhereRefinement.SingleColumnPlan | Compiler/wherecompiler.cpp:54-114 | a single-column plan that runs, exactly when it can, yields the scan's rows under every comparison, and a hashed key under anything but equality only if the scan is empty |
| WhereRefinement.ForeignMemberPlan | Compiler/wherecompiler.cpp:56-63 | where a member of another object is taken for the key column, a plan that runs is right exactly when each selected row's own column compares like the member, or on a hashed key like its hash, and without code exactly when the scan is empty |
| WhereRefinement.ScanPlan | Compiler/wherecompiler.cpp:21-127 | the scan itself is emitted exactly when no leading key column is compared; OR, BETWEEN and LIKE heads are such |
| WhereRefinement.OrTailRepeatsRows | Compiler/wherecompiler.cpp:143-147 | a sample: over a two-column key and one row, an OR whose operands both select the row behind a bound prefix does not refine the scan |
| WhereRefinement.BoundsWithoutCode | Compiler/wherecompiler.cpp:92-101 | samples: a comparison of the key column with another column of the row, and a remainder of it, each get a plan that cannot run |
| WhereRefinement.ForeignMemberLosesRows | Compiler/wherecompiler.cpp:56-63 | a sample: a predicate on a member of a host object loses the one row it selects |
| WhereOrTails.VisitsReached | Compiler/wherecompiler.cpp:136-293 | the cursors of a usable plan are those of the predicate's operands, the right operand of an OR following the left one as well |
| WhereOrTails.CompositeExact | Compiler/wherecompiler.cpp:129-293 | for any predicate over a composite key: exactly when its plan runs, how many cursors of its operands reach each row, and that it is right exactly when that is one for each selected row |
| WhereOrTails.OrTailPlan | Compiler/wherecompiler.cpp:143-147 | for an AND chain that ends in an OR, whatever the operands of that OR: exactly when the plan runs, which takes simple operands unless the key ends before the OR, that it yields a selected row once for each operand whose cursor reaches it, and that it is right exactly when no selected row is reached by both |
| Galois.DOT | Cryptography/aes.cpp:68-84 | the shift-and-add loop is multiplication by terms |
| Galois.AccumulatedTerms | Cryptography/aes.cpp:68-84 | the running accumulation is the sum of one term for each set bit |
| Galois.DotLaws | Cryptography/aes.cpp:68-92 | the product has a unit, distributes over addition and commutes with doubling |
| SubstitutionBox.MutualInverses | Cryptography/aes.cpp:14-66 | the two substitution tables undo each other on every octet |
| SubstitutionBox.SubExactly | Cryptography/aes.cpp:14-30 | the table is the affine image of the inverse in the field, and 63 for zero (section 5.1.1 of FIPS 197) |
| AesBlocks.SubBytes | Cryptography/aes.cpp:111-119 | every octet of the block is replaced in place by its table entry |
| AesBlocks.InvSubBytes | Cryptography/aes.cpp:230-238 | every octet is replaced in place by its inverse table entry |
| AesBlocks.ShiftRows | Cryptography/aes.cpp:121-134 | the repeated single turns move the c-th octet of every word by c words |
| AesBlocks.InvShiftRows | Cryptography/aes.cpp:240-253 | the repeated turns the other way |
| AesBlocks.MixColumns | Cryptography/aes.cpp:136-147 | every word is multiplied in place by the mixing polynomial |
| AesBlocks.InvMixColumns | Cryptography/aes.cpp:255-266 | every word is multiplied in place by the inverse polynomial |
| AesBlocks.AddRoundKey | Cryptography/aes.cpp:149-158 | the round key is added in place |
| AesBlocks.OctetsAt | Cryptography/aes.cpp:111-158 | substitution and key addition take each octet on its own, and mixing each word |
| AesBlocks.ShiftedAt | Cryptography/aes.cpp:121-134 | octet c of each word comes from the word c places further on, and goes back there (section 5.1.2 of FIPS 197) |
| AesBlocks.MixedAt | Cryptography/aes.cpp:136-147 | each octet of a mixed word is 2, 3, 1 and 1 times the octets of the word from that one on (section 5.1.3 of FIPS 197) |
| AesBlocks.SubstitutionUndone | Cryptography/aes.cpp:111-238 | substitution and its inverse undo each other in both orders |
| AesBlocks.ShiftUndone | Cryptography/aes.cpp:121-253 | the row shifts undo each other in both orders |
| AesBlocks.MixedUndone | Cryptography/aes.cpp:136-266 | the inverse mixing matrix times the mixing matrix is the identity, in both orders |
| AesBlocks.AddedTwice | Cryptography/aes.cpp:149-158 | adding a round key twice changes nothing |
| Aes.RoundsUndone | Cryptography/aes.cpp:160-174 | the inverse rounds undo any number of rounds |
| Aes.CipherUndone | Cryptography/aes.cpp:160-282 | decryption undoes encryption and encryption undoes decryption, for every block and schedule (sections 5.1 and 5.3 of FIPS 197) |
| Aes.AesInvertible | Cryptography/aes.cpp:111-266 | the transforms of this cipher are undone by their inverses, as the round proofs ask |
| Aes.AesComputes | Cryptography/aes.cpp:111-266 | the transforms the round proofs speak of are those the in-place methods compute |
| Aes.EncryptedExactly | Cryptography/aes.cpp:160-174 | enciphering is the sequence of round states of section 5.1 of FIPS 197, the last round without mixing |
| Aes.ChainedAt | Cryptography/aes.cpp:299-320 | each block is added to the one enciphered before it, the first to the vector, and enciphered (section 6.2 of NIST SP 800-38A) |
| Aes.BlocksAt | Cryptography/aes.cpp:306-314 | octet c of word r of block i is octet 16 i + 4 r + c of the stream |
| Aes.Cipher | Cryptography/aes.cpp:160-174 | the round loop over the output block computes the encryption of the input |
| Aes.InverseCipher | Cryptography/aes.cpp:268-282 | the inverse round loop computes the decryption |
| Aes.ChainUndone | Cryptography/aes.cpp:299-347 | unchaining undoes chaining for every vector and number of blocks |
| Aes.ChainRedone | Cryptography/aes.cpp:299-347 | chaining undoes unchaining |
| Aes.CipherCBC | Cryptography/aes.cpp:299-320 | the stream loop writes the chained encryption of the whole blocks and reports whether the input was whole |
| Aes.InverseCipherCBC | Cryptography/aes.cpp:322-347 | the stream loop writes the unchained decryption |
| Aes.ChainRoundTrip | Cryptography/aes.cpp:299-347 | CBC decryption of CBC encryption returns every stream of whole blocks (section 6.2 of NIST SP 800-38A) |
| BaseCodec.Reverse.constructor | Encoding/basecodec.hpp:35-45 | the 256-entry table maps each character of the alphabet to its place and all else to -1 |
| BaseCodec.PackGroup | Encoding/basecodec.hpp:60-63 | a group is packed left-aligned without overflowing 64 bits |
| BaseCodec.EncodeGroup | Encoding/basecodec.hpp:56-76 | a group becomes its digits' characters and the padding, the rest of the output unchanged |
| BaseCodec.Encode | Encoding/basecodec.hpp:47-77 | the output, exactly as long as promised, is the characters of digits that carry all input bits, then padding |
| BaseCodec.DecodeStep | Encoding/basecodec.hpp:100-106 | taking one digit keeps what the wrapped 32-bit accumulator means |
| BaseCodec.Decode | Encoding/basecodec.hpp:81-110 | it accepts exactly alphabet characters followed by padding, and never writes past the size bound |
| BaseCodec.EncodingDecodes | Encoding/basecodec.hpp:47-110 | whatever decodes from an encoding is the input |
| BaseCodec.EncodeString | Encoding/basecodec.hpp:112-118 | the string form of encoding, the empty string included |
| BaseCodec.DecodeString | Encoding/basecodec.hpp:120-129 | the string form of decoding, with the same exact error condition |
| BaseCodec.RoundTrip | Encoding/basecodec.hpp:112-129 | decoding an encoding returns every octet sequence, at 4, 5 and 6 bits (sections 4 to 8 of RFC 4648) |
| BaseCodec.GroupSizes | Encoding/basecodec.hpp:17-29 | the encoded size is that of whole groups, padding included |
| BaseCodec.Base16Alphabet | Encoding/base16.cpp:10-11 | the digits and the first six capitals in order, distinct and without the padding, so the base16 round trip holds of this alphabet |
| BaseCodec.Base32Alphabet | Encoding/base32.cpp:11-14 | the capitals and the digits 2 to 7 in order, the same at 5 bits |
| BaseCodec.Base32HexAlphabet | Encoding/base32hex.cpp:11-14 | the digits and the capitals up to V in order, the same at 5 bits |
| BaseCodec.Base64Alphabet | Encoding/base64.cpp:11-18 | the capitals, the small letters, the digits, + and / in order, the same at 6 bits |
| BaseCodec.Base64UrlAlphabet | Encoding/base64url.cpp:11-18 | the same with - and _ for the last two |
| DerNumbers.ShortestIs | Encoding/der.cpp:354-505 | the shortest two's-complement octets of a number have its value and no redundant first octet |
| DerNumbers.ShortestUnique | Encoding/der.cpp:354-505 | they are the only such octets (section 8.3.2 of X.690) |
| DerNumbers.UnsignedMinimal | Encoding/der.cpp:174-233 | no octets of the same value are fewer |
| Der.EncodeLength | Encoding/der.cpp:174-233 | the short form below 128, otherwise the octet count and the minimal octets |
| Der.DecodeLength | Encoding/der.cpp:732-746 | the length is read from the stream, which moves past it |
| Der.LengthRoundTrip | Encoding/der.cpp:174-746 | every 64-bit length is read back, and what follows it is left (section 8.1.3 of X.690) |
| DerLaws.LengthExactly | Encoding/der.cpp:174-233 | the octets of a length are the one short form, or the one long form without a zero in front |
| DerLaws.LengthRead | Encoding/der.cpp:732-746 | any announced number of octets is read as a length modulo 2^64, and as that of all bits set if they end early |
| Der.EncodeInt8 | Encoding/der.cpp:246-251 | tag, length and content of an 8-bit integer |
| Der.EncodeUInt8 | Encoding/der.cpp:253-263 | tag, length and content of an unsigned 8-bit integer |
| Der.EncodeInt16 | Encoding/der.cpp:265-278 | tag, length and content of a 16-bit integer |
| Der.EncodeUInt16 | Encoding/der.cpp:280-295 | tag, length and content of an unsigned 16-bit integer |
| Der.EncodeInt32 | Encoding/der.cpp:297-329 | tag, length and content of a 32-bit integer |
| Der.EncodeUInt32 | Encoding/der.cpp:331-352 | tag, length and content of an unsigned 32-bit integer |
| Der.EncodeInt64 | Encoding/der.cpp:354-437 | tag, length and content of a 64-bit integer, without its tag in one band |
| Der.EncodeUInt64 | Encoding/der.cpp:439-468 | the same for unsigned ones |
| Der.ContentShortest | Encoding/der.cpp:246-468 | the content of every width means its number in two's complement, and is the shortest form exactly unless the number is negative and fits fewer octets than its width (sections 8.3.2 and 8.3.3 of X.690) |
| Der.MinusOneNotShortest | Encoding/der.cpp:265-278 | a sample: the 16-bit -1 is written FF FF |
| Der.DecodeInteger | Encoding/der.cpp:762-780 | tag and length are checked and the content is taken from the stream |
| DerLaws.IntegerExactly | Encoding/der.cpp:762-780 | of every integer of at least one octet its octets are taken, and for a sign whether the first is above 80 |
| DerLaws.SignExactly | Encoding/der.cpp:766-773 | that is the sign of two's complement exactly unless the first octet is 80 |
| DerLaws.IntegerRefused | Encoding/der.cpp:764-766 | the tag is refused exactly unless it is 02, and the length exactly when it is zero |
| DerLaws.TakenPast | Encoding/der.cpp:767-778 | content that ends early is filled up with FF |
| Der.ToUnsigned | Encoding/der.cpp:34-102 | the conversion loops keep the value modulo their width |
| Der.RoundTrip64 | Encoding/der.cpp:354-780 | a 64-bit integer is read back exactly outside [2^55, 2^56), where the tag is missing and reading throws |
| Der.TrimmedIs | Encoding/der.cpp:477-498 | dropping leading zeros leaves the shortest two's-complement octets |
| Der.EncodeTrimmed | Encoding/der.cpp:477-498 | any octet stream is written as an integer without its redundant zeros |
| Der.EncodeBigInt | Encoding/der.cpp:500-505 | a positive big integer is written with the shortest content, although its octets come in whole words; a negative one as its words with the sign in the first bit, or without its sign if that bit is taken |
| Der.BigIntRoundTrip | Encoding/der.cpp:477-780 | every big integer is read back except zero, which throws, and a negative one whose top bit is set, which comes back without its sign (section 8.3.2 of X.690) |
| Der.ContentMeans | Encoding/der.cpp:477-505 | a two's-complement reader gets the number exactly when it is positive, or negative and the one magnitude of its length that both readings share (section 8.3.3 of X.690) |
| Der.EncodeArc | Encoding/der.cpp:546-586 | a 32-bit arc becomes its base-128 octets |
| DerNumbers.ArcOctets | Encoding/der.cpp:546-586 | the octets of an arc do not start with 80, and all but the last are marked |
| Der.DecodeArc | Encoding/der.cpp:805-824 | an arc is read up to its unmarked octet |
| Der.ArcRoundTrip | Encoding/der.cpp:546-824 | every 32-bit arc is read back, and what follows it is left (section 8.19 of X.690) |
| DerLaws.ArcRead | Encoding/der.cpp:805-824 | any octets of which only the last is unmarked are one arc: the number of their low bits modulo 2^32 |
| Der.EncodeOid | Encoding/der.cpp:601-612 | tag, length, the shared first octets and the arcs |
| DerLaws.OidArcs | Encoding/der.cpp:601-612 | the arcs in what is written: forty times the first and the second in one, modulo 2^32, and all the others |
| DerLaws.KnownEncodings | Encoding/der.cpp:246-612 | samples: the octets of 1.2.840.113549 and of four integers |
| Der.DecodeOid | Encoding/der.cpp:842-855 | the arcs are read until the content ends, the first octet split by 40 |
| DerLaws.OidRefused | Encoding/der.cpp:842-846 | the tag is refused exactly unless it is 06, and the length exactly when it is zero |
| Der.OidRoundTrip | Encoding/der.cpp:601-855 | an object identifier is read back exactly when its second arc is below 40 and the shared first number below 128 |
| Text.PartsJoin | Core/utility.cpp:132-146 | joining the parts of a split gives the string back, and no part holds the delimiter |
| Text.Split | Core/utility.cpp:132-146 | the split loop gives those parts |
| Text.Trim | Core/utility.cpp:114-121 | what trimming leaves neither starts nor ends with the trimmed character |
| Text.TrimCuts | Core/utility.cpp:114-121 | trimming cuts off nothing but that character, at both ends |
| Text.ToUpper | Core/utility.cpp:156-162 | every letter is raised and nothing else changes |
| Text.UpperLetters | Core/utility.cpp:156-162 | the 26 letters become their capitals, and every other character stays |
| ConfigLines.StripComment | Configuration/configuration.cpp:400-416 | a comment is dropped at the first unescaped mark and escapes are resolved |
| ConfigLineLaws.StripExactly | Configuration/configuration.cpp:400-416 | every line is one escaped text, alone or with a comment behind it, and that text is what is left of it |
| ConfigLineLaws.CommentedSays | Configuration/configuration.cpp:400-416 | a comment behind the line of an option changes nothing, unless the value reaches up to it and ends in a backslash |
| ConfigLineLaws.BlankExactly | Configuration/configuration.cpp:400-463 | the lines that say nothing are the empty ones and those that begin with a comment |
| ConfigLineLaws.IndentedComment | Configuration/configuration.cpp:400-494 | a comment line is passed over exactly when no tab stands before it; otherwise it counts for an option of that depth without a name |
| ConfigLines.SplitLine | Configuration/configuration.cpp:460-494 | the character loop finds the level, the key and the trimmed value, or the key error |
| ConfigLineLaws.SplitExactly | Configuration/configuration.cpp:460-494 | which lines have a key error, and the depth, key and value of all others; tabs directly behind the colon count for depth |
| ConfigLineLaws.LineShape | Configuration/configuration.cpp:460-494 | every line is of one of the shapes that this speaks of |
| ConfigLines.AttrKey | Configuration/configuration.cpp:376-390 | the attribute in braces is taken off the key |
| ConfigLineLaws.AttrExactly | Configuration/configuration.cpp:376-390 | a closed brace gives attribute and key; an unclosed one gives the rest for the attribute and leaves the key whole |
| ConfigLines.SpelledSays | Configuration/configuration.cpp:376-494 | the line spelled for an option at a level says exactly that option at that level |
| Configurations.Configuration.LoadLevel | Configuration/configuration.cpp:392-442 | the recursive loader reads its level's options and their children, and puts the stream back before the first line that is not theirs; an exception is the first fault's |
| Configurations.Configuration.Load | Configuration/configuration.cpp:444-449 | loading throws at the first faulty line with its number, and otherwise extends the root by options that list what the lines say |
| ConfigurationLaws.SteadyLoads | Configuration/configuration.cpp:421-437 | lines that all split load exactly when no entry lies more than one level below the one before |
| ConfigurationLaws.ListingUnique | Configuration/configuration.cpp:422-434 | no two option trees list the same entries, so the loaded tree is the only one the lines describe |
| ConfigurationLaws.LoadInvertsRendering | Configuration/configuration.cpp:392-494 | the tab-indented rendering of any legal option tree loads without a fault and describes that tree alone |
| ConfigurationLaws.LoadRendered | Configuration/configuration.cpp:392-494 | loading the rendering of a legal option tree rebuilds the tree |
| ConfigurationLaws.FaultsExact | Configuration/configuration.cpp:392-494 | a verdict is the loader's exactly when it names the first faulty line and its fault, or there is no faulty line |
| ConfigurationLaws.IndentationExact | Configuration/configuration.cpp:422-437 | when every line splits, the indentation error arises exactly when some line is more than one level below the one before, the first at -1 |
| HttpServer.Connection.constructor | HTTP/httpserver.cpp:30-41 | a connection starts without any request state |
| HttpServer.Connection.GetLine | HTTP/httpserver.cpp:55-56 | a line is read up to and over its line feed, or to the end of the stream |
| HttpServer.Connection.ReadLine | HTTP/httpserver.cpp:55-66 | a line without its line end, unless the stream ended before it |
| HttpServer.Connection.TakeRequestLine | HTTP/httpserver.cpp:166-203 | three parts, an absolute target split into authority and path, and the checks in their order |
| HttpServer.Connection.TakeFieldLine | HTTP/httpserver.cpp:205-247 | a field is added or joined to an earlier one, or refused |
| HttpServer.Connection.TakeBody | HTTP/httpserver.cpp:95-114 | the declared length is checked and that much body is read |
| HttpServer.Connection.TakeEnd | HTTP/httpserver.cpp:78-164 | the request is completed and handed over, and every trace of it is cleared |
| HttpServer.Connection.Reset | HTTP/httpserver.cpp:136-155 | all request state returns to that of a new connection |
| HttpServer.Connection.HandleClient | HTTP/httpserver.cpp:53-256 | the read loop calls the handler as the connection's trace says and ends with its status |
| HttpRequests.HostAndPort | HTTP/httpserver.cpp:84-87 | a Host field says exactly one host, without a colon, and one port, empty if there is no colon or more than one |
| HttpLaws.BareLine | HTTP/httpserver.cpp:55-66 | a line feed alone ends a line as well, and so does the end of the input |
| HttpLaws.RequestLineExact | HTTP/httpserver.cpp:166-203 | what every line with two spaces leads to: 501 for an unknown method, 400 for an empty part, 414 for a long target, or the three parts in the head |
| HttpLaws.OtherTarget | HTTP/httpserver.cpp:178-193 | a target without a scheme is its own path and names no authority |
| HttpLaws.OtherRequestLine | HTTP/httpserver.cpp:166-203 | a first line with other than two spaces is refused with 400 |
| HttpLaws.FieldLineExact | HTTP/httpserver.cpp:205-247 | what every field line leads to: 400 without a colon, for a blank before it or for a second host or content_length, or the value in the header map |
| HttpLaws.TidyKeeps | HTTP/httpserver.cpp:222-235 | a value arrives as sent exactly when no space stands at its ends or beside its colons |
| HttpLaws.DigitsAre | HTTP/httpserver.cpp:97-101 | the ten digits, and no other character, make a length |
| HttpLaws.NumeralRead | HTTP/httpserver.cpp:97-103 | a length is read as a decimal number, whatever zeros lead it |
| HttpFraming.HeaderMapMeans | HTTP/httpserver.cpp:236-242 | the header map holds exactly the names sent, each with its values in order, a comma between them |
| HttpFraming.FieldRead | HTTP/httpserver.cpp:207-235 | a value with colons is put together again as it was sent |
| HttpFraming.TargetRead | HTTP/httpserver.cpp:173-193 | origin and absolute targets give their path and authority |
| HttpFraming.FieldsServed | HTTP/httpserver.cpp:205-247 | the fields of a request are taken one after the other into its header map |
| HttpFraming.HeadDecided | HTTP/httpserver.cpp:53-256 | what becomes of any head whose lines are good, whatever follows it: 431 or 414, 400 without a host, 501 for a method that is not served, 411 without a length, 400, 413 or 400 for a wrong, too large or missing body, or one call with the body that is there |
| HttpLaws.BadFieldRefused | HTTP/httpserver.cpp:205-247 | a line behind the fields of a head that is no field, or repeats the host, ends the connection with 400 |
| HttpLaws.EmptyLineRefused | HTTP/httpserver.cpp:75-83 | an empty line where a request should begin is refused with 400 |
| HttpLaws.UnfinishedHead | HTTP/httpserver.cpp:53-61 | a connection that ends within a head ends well, without a call |
| HttpFraming.RequestServed | HTTP/httpserver.cpp:53-256 | a well-formed request is handed over once, with its own method, target, headers, host, port and body, and what follows it is served as on a new connection |
| HttpFraming.RequestDecided | HTTP/httpserver.cpp:75-200 | what becomes of any well-formed request: outside the limits it ends the connection with 431, 414 or 413, whichever limit is exceeded first as the lines arrive; within them it is served, or refused with 400 if the request object cannot be built |
| HttpFraming.RequestsServed | HTTP/httpserver.cpp:53-256 | any list of well-formed requests sent one behind the other calls the handler once for each, in order, and leaks nothing from one to the next (sections 3, 3.3.2, 5.3.2 and 6.3 of RFC 7230) |
| HttpConnections.ServeRequests | HTTP/httpserver.cpp:53-256 | the read loop itself, run on such a list, makes exactly those calls and ends without an error response |
| HttpConnections.CallsSound | HTTP/httpserver.cpp:53-256 | on any input whatsoever, every call is for a GET without content or a POST of the declared length within the limit, with a target, a protocol and the host of its own headers |
| HttpConnections.GetBodyReadAsRequest | HTTP/httpserver.cpp:89-90 | the body of a GET is read as the next request, whatever length is declared |
| HttpConnections.RepeatedLengthRefused | HTTP/httpserver.cpp:238-242 | a POST that repeats Content-Length has its whole head accepted, since the repetition check looks for another name, and is then refused because the joined value is no number |

## Left out
- Division.Div: divisors of 256 words and more with as long a quotient, because there the recursive division `Polynomial::_recursive_div` runs, which does not meet the contract of `_naive_div`; only its base case, the block branch, is modelled.
- Exponentiation.ModPow: divisors of 256 words and more, for the same reason.
- BigIntegers.Div: divisors of 256 words and more with as long a quotient, for the same reason.
- BigIntegers.GreatestDivisor: negative operands, whose remainders the source takes of the magnitudes, and pairs that are both 256 words or longer.
- BigIntegers.LeastMultiple: the same operands.
- Euclid.ExtendedEuclid: the same operands.
- Euclid.Inverse: negative arguments and moduli of 256 words and more.
- Rsa.GenerateKey: moduli of 256 words and more; primes are parameters, and prime generation and randomness are not modelled.
- Rsa.Primitive: moduli of 256 words and more.
- Rsa.TextbookRoundTrip: moduli of 256 words and more.
- Pkcs1.I2OSP: requires a buffer length divisible by four, because the word-aligned writer runs past any other buffer.
- Pkcs1.Encrypt: the same buffer lengths, and moduli of 256 words and more.
- Pkcs1.Decrypt: of a representative with a leading zero word the octets it leaves unwritten are any, because they are whatever the stack held.
- Pkcs1.EncryptThenDecrypt: after a misread ciphertext the representative is proved to be another one, not what becomes of it, because the octets behind a short ciphertext are whatever the caller's buffer held.
- Der.DecodeArc: requires that an unmarked octet is still to come, because the source never leaves its loop on a truncated arc.
- Der.DecodeOid: requires content that is there and ends where an arc ends, for the same reason.
- The RSA forms over the prime factors, OAEP, PSS, signatures and hashing.
- Key expansion, the AES stream forms without chaining and key files; a schedule is any sequence of round keys.
- Plans that do not run: their cursors are used at a level that is not theirs or with a bound that they do not take or that needs the row, and what the emitted code then does is not modelled beyond that.
- The host compiler's view of a bound beyond that: whether its other names are in scope is not modelled.
- The text of the emitted cursors; the compiler writes tokens, one for each piece of text.
- Values of columns are integers, and the folding of values into keys is a parameter that keeps order where the key is no hash.
- Configuration files as streams: a file is its sequence of lines, and the position a line number. The printer, the path queries and the file system are not modelled.
- HttpServer.Connection.HandleClient: handlers run one at a time and neither read from nor write to the stream; threads, responses, timeouts and the text of error responses are not modelled.
- What the request object derives from its arguments (query, cookies, content type, percent-decoding); whether it can be built is the parameter `accepts`.
- A field line that begins with a colon makes the source read before the start of a string; the character found there is the parameter `stray`.
- X.509, TLS, sessions, the RPC pool, the connector, the regex-driven parser and the storage engine.
