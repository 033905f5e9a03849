# Verified models of a challenge release

The repository is the release of a capture-the-flag event. It holds a vendored copy of PuTTY's
computing code and several small arithmetic and game programs. This project models the parts that
compute and proves what they are meant to do, or exactly when they do it.

| modules | what they model |
|---|---|
| `NumberTheory`, `Fermat`, `Field` | the arithmetic the rest needs: divisibility, greatest common divisors, primes, powers, residues |
| `Mentalist` | parameters for a linear congruential generator of full period, and its orbits |
| `RsaDebugger` | an RSA key editor whose derived numbers must follow its primes and exponent |
| `Weierstrass`, `WeierstrassCorrect` | Jacobian point addition and doubling against the affine chord and tangent law |
| `Edwards`, `EdwardsCorrect` | extended Edwards addition against the unified affine law |
| `Montgomery`, `MontgomeryCorrect` | differential addition and doubling by x alone against the affine chord and tangent law |
| `Ladder` | the constant-time multiplication loop, in place on point objects |
| `WeierstrassMultiply`, `EdwardsMultiply`, `MontgomeryMultiply` | that loop with each kind of formula, against multiples in the group of points |
| `Marshal`, `Ber`, `KeyFiles`, `SshcomFiles` | binary sinks and sources, BER headers, three integer encodings, and the key files built on them |
| `KeyFileNumbers`, `SshcomLayout` | what any other reader finds in those files, and what the two RSA exponents in them do |
| `Conf` | the configuration store: ordered entries, listings, serialised form |
| `Dialog`, `DialogPlaces` | the order of control sets by panel path, and where new ones go |
| `AgentForward`, `MainChannel` | two protocols as state machines: forwarding agent requests, and setting up a session |
| `AgentForwardWire`, `MainChannelSent`, `MainChannelOutcome` | the same seen from outside: bytes received, requests sent, and what replies come to |
| `Base64`, `ProxyLog` | an encoder with a tight buffer and its decoder, a line splitter |
| `LineDiscipline`, `LineDisciplineSent` | local line editing with echo, and what of the keys reaches the other side and the screen |
| `Bidi`, `BidiRules`, `BidiReorder` | the bidirectional algorithm on a line of text |
| `BidiPlain`, `BidiEmbedded` | what it comes to for each character: without embedding codes for every one, inside an embedding for text with a direction |
| `Blackjack` | a deck, a hand and a betting session |
| `BalancedTernary` | an encoder and two decoders between numbers and balanced ternary text |

What the source changes step by step is a class or an array here, and each method is proved
against a function or predicate on values; the lemmas are about those. Field operations on
big integers are exact, as `maltty/challenge/src/mpint.h:306-346` promises of them.

`dafny verify dfyconfig.toml` checks everything.

## Where the code does not do what it seems to

The model follows the code; the members named state what it does.

- The increment of the generator need not be coprime to the modulus, and then the period is short
  (`Mentalist.FullPeriodIff`, `RepeatsEarly`, `FullPeriodNotGuaranteed`).
- Adding a Weierstrass point to another representation of itself is right only under a condition on
  that representation (`WeierstrassCorrect.AddGeneralCorrect`, `AddGeneralMisdoubles`).
- All three multiplication loops give the base point for a multiplier of zero (`Ladder.PairResult`).
  The Weierstrass one aborts when it has to add multiples with the same y or one that an earlier
  infinity has spoilt, and gives the triple of zeros when the last addition is to infinity and n is
  odd (`WeierstrassMultiply.CompletesIff`, `ResultIff`, `MultiplyFails`). The Montgomery one gives
  infinity for the base with x zero and any n of two or more (`MontgomeryMultiply.MultiplyIff`).
- The validity check of a Weierstrass point accepts more triples with Z zero than the triple of
  zeros (`WeierstrassCorrect.ValidAtInfinity`, `StrangeInfinities`).
- A reordering pass starts a run only at exactly its own level, so numbers at the start of
  right-to-left text stay on the wrong side (`BidiReorder.PassIsL2Iff`, `FlipDownIff`,
  `Bidi.PlainOrderIff`, `OrderIsL2Iff`, `NumberBeforeText`).
- The end of an embedding restores the level and override only for an embedding that starts the line
  and holds no other (`Bidi.PopRestoresIff`, `PopFails`, `NestedPopFails`), and the override it
  leaves instead can put marks into later levels that nobody clears (`Bidi.MarksStay`,
  `MarkRemains`).
- A non-spacing mark at the start of a line takes the paragraph level as if it were a type
  (`BidiRules.W1Iff`).
- A single neutral character at either end of a line goes by its one neighbour, while two or more
  take the direction of the paragraph (`BidiPlain.StartLevel`, `EndLevel`, `LongEnds`).
- Agent forwarding writes its end of file again on every later attempt to forward
  (`AgentForward.EofOnceIff`, `ClosedRun`, `EofRepeats`).
- Nobody looks whether a fallback subsystem could be started (`MainChannel.StuckIff`).
- A doubled hand of blackjack is never paid (`Blackjack.Session.Double`), and what the dealer takes
  for a soft seventeen may be a hard one, which costs one card more (`Blackjack.DealerRuleIff`,
  `DealerDrawsMore`).
- The ternary encoder loses three to the number of digits when adding all ones carries
  (`BalancedTernary.RoundTripIff`).
- The text of the empty string is refused by the decoder that belongs to it (`Base64.RoundTrip`).
- A backspace over nothing but follow-up bytes would run off the buffer
  (`LineDiscipline.UnsafeIff`, `StrayUnsafe`).
- With telnet specials off, the keys that clear the line also insert themselves
  (`LineDiscipline.KillLineIff`, `KillInserts`).

## Reading the contracts

- Lengths and counts that C keeps in an `int` or a 32-bit field are bounded by preconditions where
  the source casts them (`PemFits`, `SshcomFits`, `Dialog.Path`, BER lengths). Where it wraps, the
  model wraps: buffer sizes in `Base64`, levels in the bidirectional algorithm, 32-bit words in
  `Marshal`. Shifts by the width of an `int` or more, which C leaves undefined and
  which BER lengths of 2^24 and more and identifiers of 2^28 and more lead to, have their
  arithmetic meaning in the writer (`Ber.LengthShiftIff`, `IdShiftIff`). The reader's identifier
  wraps as a 32-bit `int` in two's complement does (`Ber.ReadBer`, `SequenceFromLarge`).
- `ecc_weierstrass_add` asserts that the numerator of the slope is not zero, not the denominator
  (`maltty/challenge/src/ecc.c:311`); that is a precondition here, and in the
  multiplication the model's addition gives nothing where it fails.
- What is proved about multiples of a point assumes that the addition law is associative on the
  curve's points, and for the Weierstrass and Montgomery curves that they have no singular point;
  closure, the neutral element and, where it is needed, the inverse are proved.
- Primality tests are exact, and the greatest common divisor of a negative number is that of its
  absolute value.
- Random choices are nondeterministic: what is proved holds for all of them.
- Ciphers, the agent, character classes and mirror images are parameters of function type.

## Model

| member | source | states |
|---|---|---|
| `Mentalist.Generate` | mentalist/challenge/mentalist.go:78-118 | whatever is drawn, the modulus is a product of the listed primes between the lower bound and the upper bound plus twelve lower bounds, the multiplier is one more than a multiple of four times every listed prime and less than the modulus, the increment is positive and less than the modulus, and the seed is a residue |
| `Mentalist.DrawModulus` | mentalist/challenge/mentalist.go:78-88 | multiplying random listed primes stops at a product that reaches the target with its last factor and overshoots it by less than the greatest prime |
| `Mentalist.DrawIncrement` | mentalist/challenge/mentalist.go:107-114 | the increment is what is left of the drawn number after one division by its greatest common divisor with the modulus |
| `Mentalist.ClosedForm` | mentalist/challenge/mentalist.go:267-274 | after n steps the generator is at the seed plus a fixed multiple of the geometric sum of n powers of the multiplier, modulo the modulus |
| `Mentalist.OrbitReturns` | mentalist/challenge/mentalist.go:267-274 | the generator is back at its seed after n steps if and only if the modulus divides that displacement |
| `Mentalist.GeometricDivisible` | mentalist/challenge/mentalist.go:92-104 | for the multipliers that are generated, the modulus divides the geometric sum of n powers if and only if it divides n, however often primes repeat in it |
| `Mentalist.ReturnsOnlyAtMultiples` | mentalist/challenge/mentalist.go:107-118 | for an increment coprime to the modulus, every seed recurs after exactly the multiples of the modulus |
| `Mentalist.FullPeriodIff` | mentalist/challenge/mentalist.go:78-118 | for generated parameters the period is full from every seed if and only if the increment is coprime to the modulus |
| `Mentalist.RepeatsEarly` | mentalist/challenge/mentalist.go:107-115 | if a listed prime divides both increment and modulus, every seed recurs already after the modulus divided by that prime |
| `Mentalist.FullPeriodNotGuaranteed` | mentalist/challenge/mentalist.go:112-114 | parameters that the program can generate and whose period is not full: dividing once by the greatest common divisor need not make the increment coprime |
| `RsaDebugger.Debugger.SetP` | rsa-debugger/challenge/rsa.go:439-470 | a setp command, failed or not, leaves the key consistent; q, n, e and d are unset even when the new p is rejected |
| `RsaDebugger.Debugger.SetQ` | rsa-debugger/challenge/rsa.go:473-517 | a setq command, failed or not, leaves the key consistent; only a prime other than p is stored, together with the product |
| `RsaDebugger.Debugger.SetE` | rsa-debugger/challenge/rsa.go:520-590 | a sete command, failed or not, leaves the key consistent; an exponent coprime to p - 1 and q - 1 and below their product is stored with an inverse modulo that product, and nothing else is |
| `RsaDebugger.Debugger.Reset` | rsa-debugger/challenge/rsa.go:385-394 | resetkey unsets all five numbers |
| `RsaDebugger.Debugger.Decrypt` | rsa-debugger/challenge/rsa.go:326-344 | decryption gives nothing exactly when d or the message is unset, and otherwise the power modulo n |
| `RsaDebugger.Debugger.Session` | rsa-debugger/challenge/rsa.go:439-590 | any sequence of commands leads from consistent keys to consistent keys, each step being one of those above |
| `RsaDebugger.AfterConsistent` | rsa-debugger/challenge/rsa.go:439-590 | one command keeps: q set implies p set and n their product, p and q distinct primes, and d set implies that e times d is one modulo (p - 1)(q - 1) |
| `RsaDebugger.RunConsistent` | rsa-debugger/challenge/rsa.go:439-590 | so every state of every run from the unset key is consistent |
| `RsaDebugger.InverseExists` | rsa-debugger/challenge/rsa.go:572-583 | an exponent coprime to p - 1 and to q - 1 is invertible modulo their product, so the error branch after the inversion is never taken |
| `RsaDebugger.ModInverse` | rsa-debugger/challenge/rsa.go:580-581 | the inverse that is found lies in range and inverts |
| `RsaDebugger.DecryptInvertsEncrypt` | rsa-debugger/challenge/rsa.go:326-344 | in every reachable state with d set and e not negative, decrypting m to the e modulo n gives m, for all m below n including those that share a factor with n |
| `RsaDebugger.ConsistentKeyInverts` | rsa-debugger/challenge/rsa.go:326-344 | the same for any consistent key, however it was reached |
| `Fermat.FermatExponent` | rsa-debugger/challenge/rsa.go:326-344 | raising to a power that is one more than a multiple of p - 1 changes nothing modulo a prime p |
| `WeierstrassCorrect.EveryPointStands` | maltty/challenge/src/ecc.c:80-104 | every valid Jacobian point other than the identity stands for exactly one affine point |
| `WeierstrassCorrect.ValidIffOnCurve` | maltty/challenge/src/ecc.c:508-543 | where Z is not zero the validity check accepts exactly the representations of points of the curve |
| `WeierstrassCorrect.ValidAtInfinity` | maltty/challenge/src/ecc.c:508-543 | where Z is zero it accepts exactly the triples whose Y squared is X cubed, of which the triple of zeros is only one |
| `WeierstrassCorrect.StrangeInfinities` | maltty/challenge/src/ecc.c:508-543 | two others on a small curve |
| `WeierstrassCorrect.PointAddCorrect` | maltty/challenge/src/ecc.c:218-329 | for representations of finite points with different y, which is what the assertion lets through, the sum formula gives a representation of their sum, infinity if the points are opposite |
| `WeierstrassCorrect.DoubleCorrect` | maltty/challenge/src/ecc.c:334-369 | doubling gives a representation of the tangent sum, with Z zero for infinity and for a point that is its own negative |
| `WeierstrassCorrect.AddGeneralCorrect` | maltty/challenge/src/ecc.c:380-432 | general addition is the group law for every pair of valid points: neutral element, opposite points, chord, and tangent; the tangent branch is right if and only if the second operand's Z satisfies a stated condition, which Z = 1 does |
| `WeierstrassCorrect.AddGeneralValid` | maltty/challenge/src/ecc.c:380-432 | so outside that branch a sum of valid points is valid |
| `WeierstrassCorrect.AddGeneralMisdoubles` | maltty/challenge/src/ecc.c:393-405 | a curve and two representations of one point whose sum is wrong, because the tangent slope is not rescaled by the second Z |
| `Weierstrass.EpilogueStands` | maltty/challenge/src/ecc.c:218-260 | the common last step turns a slope given as a fraction and scaled coordinates into a representation of the third point of the line |
| `Weierstrass.PrologueStands` | maltty/challenge/src/ecc.c:262-294 | the common first step puts both operands over one denominator and gives the slope of the chord as a fraction |
| `Weierstrass.TangentBelow` | maltty/challenge/src/ecc.c:334-355 | the tangent step's denominator is twice the affine y times the cube of the point's Z |
| `Weierstrass.TangentAbove` | maltty/challenge/src/ecc.c:334-355 | its numerator is the derivative 3x^2 + a times the fourth power of Z |
| `Weierstrass.TangentStands` | maltty/challenge/src/ecc.c:334-355 | so numerator over denominator is the affine tangent slope m times Z, for every m with m * 2y = 3x^2 + a |
| `Weierstrass.SumOnCurve` | maltty/challenge/src/ecc.c:296-369 | the affine chord and tangent sum of two points of the curve is on the curve |
| `Weierstrass.SumExists` | maltty/challenge/src/ecc.c:296-369 | the affine sum of two points that are not opposite exists |
| `Weierstrass.SumUnique` | maltty/challenge/src/ecc.c:296-369 | and there is only one |
| `Edwards.AddParts` | maltty/challenge/src/ecc.c:1019-1078 | the eight products of the addition are the four parts of the extended formula, modulo the prime |
| `Edwards.AddClosed` | maltty/challenge/src/ecc.c:1019-1078 | if both operands satisfy the two extended equations, so does the sum; no other assumption is made |
| `EdwardsCorrect.EveryPointStands` | maltty/challenge/src/ecc.c:896-920 | every extended point with Z not zero stands for exactly one affine point |
| `EdwardsCorrect.PointEqIff` | maltty/challenge/src/ecc.c:1127-1150 | the cross-multiplied comparison accepts two points if and only if they stand for the same affine point |
| `EdwardsCorrect.AddAffine` | maltty/challenge/src/ecc.c:1019-1078 | where neither denominator vanishes the sum stands for the unified affine sum, doubling included |
| `EdwardsCorrect.DenominatorsNonzero` | maltty/challenge/src/ecc.c:1019-1078 | when a is a square and d is not, no denominator vanishes for any two points of the curve |
| `EdwardsCorrect.AddComplete` | maltty/challenge/src/ecc.c:1019-1078 | so on such curves the formula adds every pair of points |
| `EdwardsCorrect.NeutralAndInverse` | maltty/challenge/src/ecc.c:1019-1078 | adding (0, 1) changes nothing and adding (-x, y) gives (0, 1) |
| `Ladder.Multiply` | maltty/challenge/src/ecc.c:434-469 | the loop in place on point objects computes the last pair of its specification, for any addition, which may refuse its operands, and doubling; the base point is left alone |
| `Ladder.PairRepresents` | maltty/challenge/src/ecc.c:434-469 | while the additions and doublings of a run are right for the multiples they meet, the loop holds k and k + 1 times the base, k being the number read so far, through the turns whose outcome is overwritten |
| `Ladder.PairResult` | maltty/challenge/src/ecc.c:434-469 | so it ends with n times the base for n of at least one in any nominal width, and with the base for zero |
| `Ladder.Turn` | maltty/challenge/src/ecc.c:445-464 | one turn with its two swaps adds the two points and doubles the one its bit names, and makes two new points, or none if the addition aborts |
| `Ladder.CondSwap` | maltty/challenge/src/ecc.c:203-216 | two points exchange their values or keep them |
| `Ladder.CondOverwrite` | maltty/challenge/src/ecc.c:195-201 | one point takes the other's value or keeps its own |
| `WeierstrassMultiply.EccWeierstrassMultiply` | maltty/challenge/src/ecc.c:434-469 | the multiplication with the Jacobian formulas: when it aborts, and when what it gives is n times the base |
| `WeierstrassMultiply.CompletesIff` | maltty/challenge/src/ecc.c:434-469 | the assertion of the addition never fires if and only if in every turn the two multiples added are finite and have different y, or one of them is infinite and the sum is not added again |
| `WeierstrassMultiply.ResultIff` | maltty/challenge/src/ecc.c:434-469 | what comes out then stands for n times the base if and only if n is one or even or the multiples added last are finite with different y |
| `WeierstrassMultiply.ApartMultiplies` | maltty/challenge/src/ecc.c:434-469 | so it is right whenever all additions are of finite points with different y |
| `WeierstrassMultiply.InfinityLost` | maltty/challenge/src/ecc.c:296-323 | adding infinity to a finite point passes the assertion and gives the triple of zeros |
| `WeierstrassMultiply.MultiplyFails` | maltty/challenge/src/ecc.c:434-469 | on a small curve, six aborts and twenty-three gives the triple of zeros instead of the base |
| `Montgomery.SumOnCurve` | maltty/challenge/src/ecc.c:665-728 | the chord and tangent sum of two points of a Montgomery curve is on the curve |
| `MontgomeryCorrect.DoubleCorrect` | maltty/challenge/src/ecc.c:705-755 | doubling by x alone is right for every point, infinity and points of order two included |
| `MontgomeryCorrect.DifferentialLaw` | maltty/challenge/src/ecc.c:665-674 | the x of a sum times the x of the difference, over squares: the law that the addition is built on |
| `MontgomeryCorrect.DiffAddCorrect` | maltty/challenge/src/ecc.c:658-703 | differential addition is right for every two points, infinity included, whose difference is finite with x not zero |
| `MontgomeryMultiply.EccMontgomeryMultiply` | maltty/challenge/src/ecc.c:766-824 | the multiplication with the Montgomery formulas |
| `MontgomeryMultiply.MultiplyIff` | maltty/challenge/src/ecc.c:766-824 | it always ends, and what it gives stands for n times the base if and only if the x of the base is not zero, or n is one or even |
| `EdwardsMultiply.EccEdwardsMultiply` | maltty/challenge/src/ecc.c:1091-1125 | the multiplication with the Edwards addition |
| `EdwardsMultiply.MultiplyComplete` | maltty/challenge/src/ecc.c:1091-1125 | on a complete curve it gives a point of the curve that stands for n times the base, for every base and every n of at least one |
| `Marshal.BinarySource.GetData` | maltty/challenge/src/marshal.c:123-129 | taking data gives a slice and moves past it, or sets the error and gives nothing; an error once set stays |
| `Marshal.BinarySource.GetUint32` | maltty/challenge/src/marshal.c:164-173 | four bytes as a number, or zero and the error |
| `Marshal.BinarySource.GetString` | maltty/challenge/src/marshal.c:186-201 | a counted string, where either the count or the content may be missing |
| `Marshal.BinarySource.GetAsciz` | maltty/challenge/src/marshal.c:203-219 | a string up to its zero byte, which must be there |
| `Marshal.BinarySource.GetBool` | maltty/challenge/src/marshal.c:142-151 | any byte but zero is true |
| `Marshal.ReadUint32` | maltty/challenge/src/marshal.c:47-52 | a written number is read back modulo two to the thirty-second, and what follows is left |
| `Marshal.ReadString` | maltty/challenge/src/marshal.c:61-69 | a written string is read back |
| `Marshal.ReadAsciz` | maltty/challenge/src/marshal.c:87-90 | a written string without zero bytes is read back |
| `Marshal.StrBuf.PutPadding` | maltty/challenge/src/marshal.c:18-27 | padding in pieces of sixteen adds up to its length |
| `Marshal.Uint32Digits` | maltty/challenge/src/misc.h:357-370 | the four bytes of a number are its digits to the base 256, the highest first, for the writer and for the reader |
| `Ber.PutBerIdLen` | maltty/challenge/src/import.c:176-217 | the identifier and length octets for any identifier and any length a C int can hold, shifts taken arithmetically: short and long form as sections 8.1.2 and 8.1.3 of X.690 have them |
| `Ber.LengthShiftIff` | maltty/challenge/src/import.c:211-216 | no shift reaches the width of an int if and only if the length is below two to the twenty-fourth |
| `Ber.IdShiftIff` | maltty/challenge/src/import.c:193-197 | nor for an identifier if and only if it is below two to the twenty-eighth |
| `Ber.GetBer` | maltty/challenge/src/import.c:228-260 | the parser consumes exactly what its specification says, errors included, and keeps the last 32 bits of an identifier as an int |
| `Ber.ReadBer` | maltty/challenge/src/import.c:176-260 | parsing what was written gives back flags and contents, leaves what follows, and gives back the identifier if and only if an int can hold it |
| `Ber.SequenceFromLarge` | maltty/challenge/src/import.c:238-246 | an identifier of five groups that is read as that of a sequence |
| `Ber.IdentifierForm` | maltty/challenge/src/import.c:181-203 | identifier octets have the form of section 8.1.2 of X.690: a low number with the flags, or 31 with them and then the fewest groups of seven bits, all but the last marked |
| `Ber.LengthForm` | maltty/challenge/src/import.c:205-217 | length octets have that of section 8.1.3: one octet below 128, else a count and that many octets, the highest first and not zero |
| `Ber.PutMpSsh2FromString` | maltty/challenge/src/import.c:284-299 | any byte string becomes the mpint of its value |
| `Ber.MpintOfCanonical` | maltty/challenge/src/import.c:284-299 | the result is canonical in the sense of section 5 of RFC 4251, keeps the value, and an mpint that is canonical already is unchanged |
| `Ber.MpintUnique` | maltty/challenge/src/import.c:284-299 | two canonical mpints of the same value are the same |
| `Ber.PutMpSshcomFromString` | maltty/challenge/src/import.c:1891-1906 | the loop over bits stops at the highest set bit, and what is written is the bit count and the bytes from that bit's byte on |
| `Ber.GetMpSshcomAsString` | maltty/challenge/src/import.c:1911-1915 | the reader takes as many bytes as the bit count needs |
| `Ber.ReadMpSshcom` | maltty/challenge/src/import.c:1891-1915 | reading what was written gives the bytes without leading zeros |
| `Ber.SshcomKeepsMpint` | maltty/challenge/src/import.c:1891-1915 | going through the bit-counted form and back gives the same canonical mpint |
| `KeyFiles.WritePem` | maltty/challenge/src/import.c:807-913 | from the blobs of a well-formed RSA or DSA key the writer makes the file of its specification, padded and encrypted if there is a passphrase; the numbers in it are those of `KeyFileNumbers.RsaFile` and `DsaFile` |
| `KeyFiles.BytesOfNumber` | maltty/challenge/src/import.c:840-862 | a number is written with room for a sign bit |
| `KeyFiles.ReadPem` | maltty/challenge/src/import.c:586-760 | the reader accepts and rejects exactly what its specification says, for all bytes |
| `KeyFiles.ReadIntegers` | maltty/challenge/src/import.c:682-732 | the loop over the integers puts each in its place in the two blobs |
| `KeyFiles.PemRoundTrip` | maltty/challenge/src/import.c:682-913 | reading a written key gives back the same public and private blobs, for RSA and DSA, without passphrase or with any cipher whose decryption undoes its encryption |
| `KeyFileNumbers.RsaFile` | maltty/challenge/src/import.c:840-913 | any reader that takes the written RSA file apart finds nine integers and no more: 0, n, e, d, p, q, then d mod (p - 1) and d mod (q - 1), each as a DER integer that is not negative and not longer than needed, and the inverse of q |
| `KeyFileNumbers.DsaFile` | maltty/challenge/src/import.c:876-913 | and in a DSA file six: 0, p, q, g, y and x |
| `KeyFileNumbers.FileDecryptsIff` | maltty/challenge/src/import.c:840-862 | for a key whose e and d are inverse modulo (p - 1)(q - 1), a message raised to e and then to the sixth integer after the version comes back modulo p, and with the seventh modulo q, if and only if the prime is not two or the message is odd |
| `KeyFileNumbers.ReadPemIff` | maltty/challenge/src/import.c:586-732 | for all bytes: a file is read if and only if, decrypted, it is a sequence that begins with as many integers as the type has, the first being 0; otherwise which message is given, and when the passphrase is blamed |
| `SshcomFiles.WriteSshcom` | maltty/challenge/src/import.c:2168-2300 | the writer makes the nested blob with the lengths patched in from the inside out, for any random padding |
| `SshcomFiles.ReadSshcom` | maltty/challenge/src/import.c:1958-2119 | the reader accepts and rejects exactly what its specification says, for all bytes |
| `SshcomFiles.GetMpints` | maltty/challenge/src/import.c:2060-2072 | bit-counted integers are taken one after another with a sticky error |
| `SshcomFiles.KindRecognised` | maltty/challenge/src/import.c:1970-1990 | the type string that is written for a key is recognised as that type and as no other |
| `SshcomFiles.InnerRoundTrip` | maltty/challenge/src/import.c:2050-2119 | the encrypted part, with anything after it, gives back both blobs though it stores the primes in the other order |
| `SshcomFiles.SshcomRoundTrip` | maltty/challenge/src/import.c:1940-2300 | reading a written key gives back the same public and private blobs, for RSA and DSA, encrypted or not |
| `SshcomLayout.FileLayout` | maltty/challenge/src/import.c:2228-2275 | the file is the magic number, its own length, the type, the cipher and one more string; that, decrypted, is the numbers as a string and the padding |
| `SshcomLayout.PayloadLayout` | maltty/challenge/src/import.c:2183-2243 | the numbers are e, d, n, the inverse of q, q and p, or after a zero p, g, q, y and x |
| `SshcomLayout.MpintLayout` | maltty/challenge/src/import.c:1891-1906 | each as the number of its bits and then its bytes, as few as can be |
| `SshcomLayout.HeadDecides` | maltty/challenge/src/import.c:1958-2035 | for any fields, and whatever follows them: which files are refused for their magic number, type, cipher, missing data or a partial block, with which message, and which go on to be decrypted |
| `Conf.ConfCmpOrder` | maltty/challenge/src/conf.c:81-102 | on keys of the types the tables give, the comparison is a strict total order that is zero only for equal keys |
| `Conf.ConfCmpIff` | maltty/challenge/src/conf.c:81-102 | it is negative if and only if the option is lower, or the same and the integer subkey less, or the string subkey before the other by the first byte in which they differ |
| `Conf.Conf.FindRelPos` | maltty/challenge/src/conf.c:338-378 | the first entry not below, or strictly above, a key |
| `Conf.Conf.Insert` | maltty/challenge/src/conf.c:229-238 | inserting keeps the entries in strict order, replacing one with the same key |
| `Conf.InsertedMap` | maltty/challenge/src/conf.c:229-238 | as a map, an insertion sets one key and no other |
| `Conf.Conf.GetStrStrs` | maltty/challenge/src/conf.c:338-358 | the entry that follows a subkey, which need not be there itself, or the first |
| `Conf.Conf.GetStrNthStrKey` | maltty/challenge/src/conf.c:360-378 | the n-th subkey, or nothing beyond the last |
| `Conf.ListingsAgree` | maltty/challenge/src/conf.c:338-378 | passing each result back visits the entries in the order of their numbers and stops with them |
| `Conf.ListingComplete` | maltty/challenge/src/conf.c:338-378 | the numbering lists the subkeys of the option and no others |
| `Conf.ListingIncreasing` | maltty/challenge/src/conf.c:360-378 | it has no gaps, and the subkeys increase |
| `Conf.Conf.Serialise` | maltty/challenge/src/conf.c:503-539 | the entries in order, then the terminator |
| `Conf.Conf.Deserialise` | maltty/challenge/src/conf.c:541-593 | whatever the data, the store stays valid and typed, and result, entries and position are those of the specification |
| `Conf.SerialisedLayout` | maltty/challenge/src/conf.c:503-539 | the bytes of an entry: its option, its subkey if it has one, its value; after the last, four bytes 255 |
| `Conf.UnknownRejected` | maltty/challenge/src/conf.c:546-556 | data that names an option that does not exist is rejected, whatever stands before and after |
| `Conf.SerialiseRoundTrip` | maltty/challenge/src/conf.c:503-593 | reading a serialised store into an empty one rebuilds exactly the same entries, for strings without zero bytes and all 32-bit integers |
| `Conf.SerialisedOverrides` | maltty/challenge/src/conf.c:541-593 | reading it into any store overrides exactly the keys it holds |
| `Conf.PrefixRejected` | maltty/challenge/src/conf.c:541-593 | every strict prefix of a serialised store is rejected |
| `Dialog.CtrlPathCompare` | maltty/challenge/src/dialog.c:28-40 | for all paths, the number of leading elements that two paths share, and INT_MAX if and only if they are the same |
| `Dialog.PathElements` | maltty/challenge/src/dialog.c:16-24 | the number of elements that slashes separate |
| `Dialog.ControlBox.CtrlFindSet` | maltty/challenge/src/dialog.c:89-108 | the scan returns the place of its specification |
| `Dialog.FindSetFirst` | maltty/challenge/src/dialog.c:89-108 | in an arranged list it finds the first set of a path whenever there is one |
| `Dialog.ControlBox.CtrlFindPath` | maltty/challenge/src/dialog.c:115-126 | the next set of the path after an index, or -1 |
| `Dialog.ControlBox.CtrlSetTitle` | maltty/challenge/src/dialog.c:129-148 | a new title is inserted at the place found, and nothing else moves |
| `Dialog.ControlBox.CtrlGetSet` | maltty/challenge/src/dialog.c:151-177 | an existing set is returned with the list untouched; only if there is none is a new one inserted behind those of its path |
| `Dialog.InsertKeeps` | maltty/challenge/src/dialog.c:89-108 | inserting at the place found, or behind a set of the same path, keeps every subtree of paths and every group of equal paths contiguous |
| `Dialog.AlwaysArranged` | maltty/challenge/src/dialog.c:129-177 | so after any calls in any order they are contiguous |
| `Dialog.VisitsAll` | maltty/challenge/src/dialog.c:115-126 | searching from -1 until nothing is found visits exactly the sets of the path |
| `DialogPlaces.TitlePlace` | maltty/challenge/src/dialog.c:129-148 | a title goes before all sets of its panel; for a new panel, behind the last set that shares the most leading elements of its path |
| `DialogPlaces.SetPlace` | maltty/challenge/src/dialog.c:151-177 | a set that is there is not added again; another goes behind all sets of its panel, or to the place of a new panel |
| `DialogPlaces.ElementsAre` | maltty/challenge/src/dialog.c:16-24 | the elements of a path hold no slash and are, joined by slashes, the path |
| `AgentForward.Forwarder.AgentfTryForward` | maltty/challenge/src/agentf.c:40-126 | the loop does what its specification says to the whole state, whichever queries the agent answers at once |
| `AgentForward.Forwarder.AgentfCallback` | maltty/challenge/src/agentf.c:130-142 | a deferred reply is passed on and the next frames are tried |
| `AgentForward.Forwarder.AgentfSend` | maltty/challenge/src/agentf.c:199-216 | data is buffered and tried, and back-pressure is exerted only while a query is pending |
| `AgentForward.Forwarder.AgentfSendEof` | maltty/challenge/src/agentf.c:218-229 | an end of file is noted and answered now or later |
| `AgentForward.Forwarder.AgentfSetInputWanted` | maltty/challenge/src/agentf.c:236-249 | forwarding stops and starts with the output |
| `AgentForward.RunKeeps` | maltty/challenge/src/agentf.c:24-249 | after any possible run: queries are the frames in order, at most one is unanswered, each reply is the agent's to that query, replies go back in that order before any end of file, and nothing that could be done is left |
| `AgentForward.QueriesAreFrames` | maltty/challenge/src/agentf.c:24-249 | seen from outside: queries are a prefix of the complete frames received, all of them when nothing is pending and output is wanted, so chunking does not matter; an end of file is written only when every frame is answered |
| `AgentForwardWire.WireKept` | maltty/challenge/src/agentf.c:40-126 | the data the client has sent is the queries, each behind its length and of at most 262140 bytes, and then what is buffered; if nothing stands in the way of a query, no such message waits there |
| `AgentForwardWire.HeldBack` | maltty/challenge/src/agentf.c:48-64 | while output is not wanted or a query is unanswered, nothing new is asked |
| `AgentForwardWire.FailureIsMessage` | maltty/challenge/src/agentf.c:24-38 | the failure that is sent for no reply is one whole message holding the byte 5 |
| `AgentForward.ClosedRun` | maltty/challenge/src/agentf.c:77-126 | once an end of file was written or a frame that announces too much is at the front, no query is sent any more, those sent are all the frames before it, and every further attempt to forward writes one more end of file, after a failure if a frame is too long |
| `AgentForward.EofOnceIff` | maltty/challenge/src/agentf.c:40-126 | over a run the end of file is written exactly once if and only if nothing makes the channel try to forward after the event that first wrote it |
| `AgentForward.WhoRepeats` | maltty/challenge/src/agentf.c:218-249 | if no frame is too long, what does so is a notice that output is wanted, or another end of file while it is |
| `AgentForward.EofRepeats` | maltty/challenge/src/agentf.c:125-126 | a run in which it is written twice |
| `Base64.Encode` | hashpop/challenge/src/base64.c:29-84 | the result is null exactly for lengths that overflow, and otherwise the terminated text fits the buffer of the computed size |
| `Base64.OverflowIff` | hashpop/challenge/src/base64.c:37-41 | the overflow check is exact: it refuses just the lengths of two to the sixty-second and more |
| `Base64.EncodedFits` | hashpop/challenge/src/base64.c:37-39 | text, line feeds and terminator fit, and fill the buffer if and only if one byte is left over and the last line is not full |
| `Base64.EncodeFromLines` | hashpop/challenge/src/base64.c:49-79 | writing piece by piece with a running line length is the unbroken text cut into lines of 72 |
| `Base64.SymbolIs` | hashpop/challenge/src/base64.c:14-15 | the symbol of a number is the character at that place of the alphabet of section 4 of RFC 4648, and is read back as that number |
| `Base64.SkippedIff` | hashpop/challenge/src/base64.c:104-118 | the decoder skips exactly what is neither in the alphabet nor an equals sign |
| `Base64.QuadsForm` | hashpop/challenge/src/base64.c:49-75 | every three bytes make the four digits to the base 64 of their 24-bit number in their place, and one or two bytes left over those that hold a bit of them, with equals signs |
| `Base64.LinesForm` | hashpop/challenge/src/base64.c:60-79 | a line feed stands after every 72 characters and at the end |
| `Base64.Decode` | hashpop/challenge/src/base64.c:97-155 | for every input, the bytes or the refusal of the specification |
| `Base64.RoundTrip` | hashpop/challenge/src/base64.c:29-155 | decoding an encoded string gives it back, line feeds and padding included (section 5.2 of RFC 1341), for all but the empty string, whose text is refused |
| `Base64.FilteredLines` | hashpop/challenge/src/base64.c:109-127 | the decoder sees the text as if it had not been cut into lines |
| `ProxyLog.ProxyStderrBuf.LogProxyStderr` | maltty/challenge/src/be_misc.c:67-151 | for every buffer size the messages are those of a splitter that sees one byte at a time, and what stays in the buffer never holds a line feed or fills it |
| `ProxyLog.ProxyStderrBuf.OutputLines` | maltty/challenge/src/be_misc.c:99-144 | lines are put out, or a full buffer without one, and the rest moves to the front |
| `ProxyLog.ProxyStderrBuf.TrimmedEnd` | maltty/challenge/src/be_misc.c:112-115 | trailing CRs are dropped |
| `ProxyLog.ChunkingIrrelevant` | maltty/challenge/src/be_misc.c:67-151 | how the stream is cut into calls makes no difference |
| `ProxyLog.NothingLost` | maltty/challenge/src/be_misc.c:67-151 | the pieces and what is pending make up the stream; lines are shorter than the buffer, other pieces fill it |
| `ProxyLog.TrimmedIs` | maltty/challenge/src/be_misc.c:112-115 | of a line just the line ends and returns that close it are dropped |
| `ProxyLog.MessageIs` | maltty/challenge/src/be_misc.c:112-136 | a line and a bufferful without a line end are logged under different names, each up to its first zero byte |
| `MainChannel.MainChan.MainchanOpenConfirmation` | maltty/challenge/src/mainchan.c:125-203 | on opening, the requests of the specification go out in order and just those are marked; which they are and what they hold is told by the rows of `MainChannelSent` |
| `MainChannel.MainChan.SendEnvironment` | maltty/challenge/src/mainchan.c:175-182 | the loop over the stored variables sends what its specification lists, and counts it |
| `MainChannel.MainChan.MainchanRequestResponse` | maltty/challenge/src/mainchan.c:216-318 | a reply changes the state as its specification says |
| `MainChannel.MainChan.MainchanTryFallbackCommand` | maltty/challenge/src/mainchan.c:205-214 | the fallback is sent if it can be, and marked outstanding in any case |
| `MainChannel.MainChan.MainchanReady` | maltty/challenge/src/mainchan.c:320-335 | a pending end of file is sent on becoming ready |
| `MainChannel.MainChan.MainchanSendEof` | maltty/challenge/src/mainchan.c:354-373 | the remote end of file is answered once, if the front end asks for it or there is a terminal |
| `MainChannel.MainChan.MainchanSpecialEof` | maltty/challenge/src/mainchan.c:506-521 | an end of file is kept until the channel is ready and sent once |
| `MainChannel.RunKeeps` | maltty/challenge/src/mainchan.c:125-373 | after any possible run, each reply was credited to the request it answers, in the order of section 4 of RFC 4254; refused variables are counted and reported by the name that was sent; the channel became ready at most once and at most one end of file was sent |
| `MainChannel.EnvNamed` | maltty/challenge/src/mainchan.c:262-272 | the name looked up for the j-th environment reply is that of the j-th variable sent |
| `MainChannel.NeverStuck` | maltty/challenge/src/mainchan.c:205-318 | if a fallback that may be tried can be sent, a session whose requests are all answered is ready or given up |
| `MainChannel.StuckIff` | maltty/challenge/src/mainchan.c:205-214 | a session can get stuck if and only if a fallback subsystem may be tried on a connection without subsystems |
| `MainChannelSent.EnvironmentSent` | maltty/challenge/src/mainchan.c:175-182 | in every run of an opened session, for every name and value: they are among the variables sent if and only if they are stored as one |
| `MainChannelSent.RequestsInOrder` | maltty/challenge/src/mainchan.c:139-197 | X11, agent and terminal are asked for just as configured, then the variables in increasing order of their names, then commands; so nothing but a command is sent twice |
| `MainChannelSent.CommandsSent` | maltty/challenge/src/mainchan.c:184-214 | the commands are the subsystem, command or shell that is configured, then the fallback if the first was refused and there is one or if it could not be started; subsystems only where there are any |
| `MainChannelOutcome.RunMeant` | maltty/challenge/src/mainchan.c:216-335 | in every run the channel is ready just when a command was accepted or it is no session, given up just when one was refused with no other to try, and has a terminal just when that was granted |
| `MainChannelOutcome.SummaryIs` | maltty/challenge/src/mainchan.c:261-279 | once all variables are answered it is reported that none, all or some were refused, as the replies have it |
| `MainChannelOutcome.EofSentIff` | maltty/challenge/src/mainchan.c:320-373 | the end of file has been sent if and only if the user asked for it and the channel is ready, or the other side ended when that was to be answered |
| `Blackjack.Deck.constructor` | cards/challenge/src/deck.go:50-58 | a new deck holds the 52 cards in order |
| `Blackjack.Deck.Shuffle` | cards/challenge/src/deck.go:60-71 | shuffling swaps each card with one at or after it and starts again at the top |
| `Blackjack.ShuffledSame` | cards/challenge/src/deck.go:60-71 | whatever is drawn, no card is lost or doubled |
| `Blackjack.EveryOrder` | cards/challenge/src/deck.go:60-71 | every order of the cards can come out |
| `Blackjack.EachOrderOnce` | cards/challenge/src/deck.go:60-71 | and comes out of just one list of draws |
| `Blackjack.FairShuffle` | cards/challenge/src/deck.go:60-71 | so from any order of the 52 cards each order comes out of exactly one list of draws, and a fair source shuffles fairly |
| `Blackjack.Deck.Next` | cards/challenge/src/deck.go:73-80 | the next card; taking the last one shuffles again |
| `Blackjack.HandValue` | cards/challenge/src/game.go:85-99 | raising aces one by one gives the sum with one ace as eleven when that does not exceed twenty-one |
| `Blackjack.BestTotal` | cards/challenge/src/game.go:85-99 | that is the highest total of at most twenty-one that the cards can make, aces counting one or eleven each, or the lowest if all are higher |
| `Blackjack.Game.Deal` | cards/challenge/src/game.go:126-134 | two cards each, alternately, from the top of a new shuffle of all cards |
| `Blackjack.Game.Hit` | cards/challenge/src/game.go:137-142 | one card, and standing at twenty-one or more |
| `Blackjack.Game.Stand` | cards/challenge/src/game.go:145-151 | standing once, after which the dealer plays |
| `Blackjack.Game.DealerPlay` | cards/challenge/src/game.go:153-169 | the dealer loop ends, and takes the cards its specification says |
| `Blackjack.DealerRuleIff` | cards/challenge/src/game.go:157-165 | the dealer's test is the rule for a soft seventeen if and only if the hand is not a seventeen in which an ace counts one |
| `Blackjack.DealerDrawsMore` | cards/challenge/src/game.go:153-169 | the dealer draws what that rule says, and exactly one card more if and only if that leaves such a seventeen |
| `Blackjack.DealerStands` | cards/challenge/src/game.go:153-169 | the dealer takes cards from the top of the deck just as long as the hand is below seventeen, or seventeen with an ace |
| `Blackjack.HardSeventeenDraws` | cards/challenge/src/game.go:157-165 | such a hand |
| `Blackjack.DealerKeeps` | cards/challenge/src/game.go:153-169 | whatever the dealer draws, both hands and the undealt cards stay the 52 cards |
| `Blackjack.HitKeeps` | cards/challenge/src/game.go:137-142 | so they do when the player takes a card |
| `Blackjack.DealKeeps` | cards/challenge/src/game.go:126-134 | and after a deal |
| `Blackjack.AtMost39` | cards/challenge/src/game.go:126-169 | at most 39 cards are dealt in a hand, so the deck never runs out during one |
| `Blackjack.Session.Deal` | cards/challenge/src/game.go:276-290 | a bet is taken if and only if it is from 10 to 500 and within the balance; then twenty-one in two cards for the player alone gains three halves of it rounded down, for both nothing, and otherwise the bet is down |
| `Blackjack.Session.Hit` | cards/challenge/src/game.go:309-315 | a hit is refused unless the hand is being played; over twenty-one the bet is lost, at twenty-one the hands are compared |
| `Blackjack.Session.Stand` | cards/challenge/src/game.go:317-323 | standing gains the bet if the dealer is over twenty-one or the value of the player is greater, nothing if they are equal, and loses it otherwise |
| `Blackjack.Session.Double` | cards/challenge/src/game.go:292-307 | doubling takes the stake again, ends the hand with three cards and never pays, whatever the outcome |
| `Blackjack.Session.Score` | cards/challenge/src/game.go:325-347 | a hand is paid by its state; what that comes to is told from the cards by `Blackjack.GainIs` |
| `Blackjack.GainIs` | cards/challenge/src/game.go:276-372 | for every table and every hand that is scored, what the player has gained, told from the two hands and the bet alone |
| `Blackjack.PlayingIff` | cards/challenge/src/game.go:349-372 | a hand is being played if and only if the player has not stood, neither side is over twenty-one, and neither has it in two cards |
| `Blackjack.Session.State` | cards/challenge/src/game.go:374-383 | no run of commands makes the balance negative |
| `BalancedTernary.Encode` | earota/solution/file_to_bternary.go:21-58 | the text stands for the number when adding all ones does not carry; when it does, it is one digit longer and stands for three to the number of digits less |
| `BalancedTernary.BalancedUnique` | earota/solution/file_to_bternary.go:21-58 | a balanced text of given length is determined by what it stands for |
| `BalancedTernary.DecodeAddOnes` | earota/solution/bternary_to_file.go:21-74 | the add-ones decoder gives what the text stands for, plus an excess for leading twos |
| `BalancedTernary.DecodeSplit` | earota/solution/bternary_to_file_pn.go:21-65 | the split decoder gives what the text stands for |
| `BalancedTernary.DecodersAgreeIff` | earota/solution/bternary_to_file.go:52-74 | the decoders give the same on exactly the texts that do not start with 2 |
| `BalancedTernary.NeverLeadingTwo` | earota/solution/file_to_bternary.go:38-56 | the encoder never writes a leading 2 |
| `BalancedTernary.RoundTripIff` | earota/solution/file_to_bternary.go:21-58 | encoding and decoding, by either decoder, gives a number of n digits back if and only if it is at most half of three to the n, and otherwise the number less three to the n |
| `BalancedTernary.WrittenIff` | earota/solution/bternary_to_file_pn.go:62-68 | dropping the sign when the result is written saves none of the others |
| `LineDiscipline.Ldisc.LdiscSend` | maltty/challenge/src/ldisc.c:157-299 | a call does to buffer, echo and back end what its keys do one after another; what reaches the back end and the screen is told by the rows of `LineDisciplineSent` |
| `LineDiscipline.Ldisc.PressKey` | maltty/challenge/src/ldisc.c:163-299 | one key does what its specification says, with the fall-through of line feed in raw mode and of the control keys with telnet specials off |
| `LineDiscipline.Ldisc.Backspace` | maltty/challenge/src/ldisc.c:180-189 | the loop removes bytes up to and including the last one that starts a character |
| `LineDiscipline.Ldisc.DeleteWord` | maltty/challenge/src/ldisc.c:190-200 | the loop removes bytes back to a space before a non-space |
| `LineDiscipline.Ldisc.Pwrite` | maltty/challenge/src/ldisc.c:43-59 | a byte is written as itself, with a caret or in hexadecimal |
| `LineDiscipline.ShownColumns` | maltty/challenge/src/ldisc.c:28-59 | a byte takes on the terminal the number of columns it is said to take |
| `LineDiscipline.EraseKeeps` | maltty/challenge/src/ldisc.c:69-73 | erasing a byte moves the cursor back by its columns and at no moment left of where the line began |
| `LineDiscipline.KeyKeeps` | maltty/challenge/src/ldisc.c:163-299 | after every key the cursor stands where the line began plus the columns of the edit buffer |
| `LineDiscipline.KeysKeep` | maltty/challenge/src/ldisc.c:127-299 | so it does after any keys whose backspaces find a place to stop |
| `LineDiscipline.WholeKeeps` | maltty/challenge/src/ldisc.c:180-189 | a key that is not a follow-up byte at the start of a line keeps the buffer from beginning inside a character, and a backspace removes exactly one whole character |
| `LineDiscipline.WholeKeysKeep` | maltty/challenge/src/ldisc.c:127-299 | so if no key of a call is one, every backspace finds a place to stop, the buffer never begins inside a character and the cursor stays behind the buffer |
| `LineDiscipline.FromTheStart` | maltty/challenge/src/ldisc.c:127-299 | in particular from the beginning of a session |
| `LineDiscipline.KillLineIff` | maltty/challenge/src/ldisc.c:201-224 | a key that clears the line leaves it empty if and only if telnet specials are on; with them off the key itself is the new line and of the specials only that for erasing the line is sent |
| `LineDiscipline.KillInserts` | maltty/challenge/src/ldisc.c:201-224 | what is sent for a letter, the key that deletes the line, and return |
| `LineDiscipline.UnsafeIff` | maltty/challenge/src/ldisc.c:182-188 | a backspace finds no place to stop if and only if the buffer holds nothing but follow-up bytes |
| `LineDiscipline.StrayUnsafe` | maltty/challenge/src/ldisc.c:182-188 | which a follow-up byte at the start of a line and then the backspace key bring about |
| `LineDisciplineSent.NothingLost` | maltty/challenge/src/ldisc.c:157-299 | for any text, returns and control-Ds, under every protocol: what has arrived and what is in the buffer is exactly what was there before and then the keys, each return being the end of a line of that protocol, each control-D nothing, or an end of file where no line was begun |
| `LineDisciplineSent.LineSent` | maltty/challenge/src/ldisc.c:237-294 | one line ended by return is sent, unless it is empty, and then the end of line; ended by control-D it is sent alone |
| `LineDisciplineSent.LineFeedSent` | maltty/challenge/src/ldisc.c:271-294 | on a raw connection a return and a line feed in the text end the line; on others both stay in it |
| `LineDisciplineSent.EachKeySends` | maltty/challenge/src/ldisc.c:163-299 | every key only adds to what was sent; an end of file exactly when control-D, not quoted, meets an empty buffer; other keys that neither end nor clear the line nothing |
| `LineDisciplineSent.WordRemoved` | maltty/challenge/src/ldisc.c:190-200 | control-W removes the last word and what follows it, and no more |
| `LineDisciplineSent.QuotedStays` | maltty/challenge/src/ldisc.c:233-235 | after control-V every key stands for itself |
| `LineDisciplineSent.Silent` | maltty/challenge/src/ldisc.c:157-299 | without echo nothing is shown, whatever the keys |
| `LineDisciplineSent.TextShown` | maltty/challenge/src/ldisc.c:294-299 | with echo printable text is shown as typed |
| `LineDisciplineSent.BackspaceShown` | maltty/challenge/src/ldisc.c:69-73 | the backspace and delete keys over a printable character show backspace, space, backspace |
| `LineDisciplineSent.LineEndShown` | maltty/challenge/src/ldisc.c:290-291 | the end of a line shows a return and a line feed |
| `LineDisciplineSent.RedrawShown` | maltty/challenge/src/ldisc.c:225-232 | control-R shows itself, a new line and the line again, and changes nothing |
| `LineDisciplineSent.UnprintableShown` | maltty/challenge/src/ldisc.c:43-59 | control characters are shown with a caret, other unprintable bytes in hexadecimal |
| `Bidi.DoBidi` | maltty/challenge/src/minibidi.c:1183-1630 | a line without characters of type R or AL is left alone; any other becomes the mirrored line in the order of its final levels, which the rows of `BidiPlain` and `BidiEmbedded` tell from the types of its characters |
| `Bidi.ResultIsPermutation` | maltty/challenge/src/minibidi.c:1585-1614 | every character of the line is in the result exactly once, mirrored if and only if its final level is odd |
| `Bidi.OrderIsL2` | maltty/challenge/src/minibidi.c:1595-1614 | the order is that of rule L2 (section 3.4 of UAX #9) when at every level all runs begin exactly at it |
| `Bidi.OrderIsL2Iff` | maltty/challenge/src/minibidi.c:1595-1614 | for every line it is that of rule L2 if and only if each run of raised characters, judged by its final levels alone, is arranged rightly |
| `Bidi.PlainOrderIff` | maltty/challenge/src/minibidi.c:1595-1614 | for a line without embedding codes the order is that of rule L2 if and only if no number (in a right-to-left paragraph: no number or left-to-right text) begins a run of two or more raised characters |
| `Bidi.PlainLevels` | maltty/challenge/src/minibidi.c:1523-1583 | such a line has levels of two at most, given by its resolved types |
| `Bidi.NumberBeforeText` | maltty/challenge/src/minibidi.c:1595-1614 | a number before right-to-left text, which the program puts on the wrong side |
| `Bidi.ComputeExplicit` | maltty/challenge/src/minibidi.c:1256-1337 | the pass over embedding codes, with the clearing of override bits and the removal of the codes |
| `Bidi.GetPreviousLevel` | maltty/challenge/src/minibidi.c:1065-1079 | the value before the most recent run of equal levels, or -1 |
| `Bidi.PopRestoresIff` | maltty/challenge/src/minibidi.c:1256-1298 | closing an embedding, whatever it holds, restores the level and override from before it if and only if nothing stands before the code that opened it and no other code inside it; if a left-to-right override was in force before it, as long as levels stay below 64 |
| `Bidi.InnermostPopIff` | maltty/challenge/src/minibidi.c:1256-1298 | for an embedding without codes, at any level: otherwise the level stays and, below 64, the override becomes left-to-right |
| `Bidi.PopFails` | maltty/challenge/src/minibidi.c:1285-1298 | a line in which a right-to-left letter after a closed embedding counts as left-to-right |
| `Bidi.NestedPopFails` | maltty/challenge/src/minibidi.c:1285-1298 | two embeddings, one in the other, at the start of a line: after both are closed the level is still that of the inner one |
| `Bidi.MarksStay` | maltty/challenge/src/minibidi.c:1256-1321 | in a line without codes for overrides, a code that opens an embedding keeps a mark in its level if and only if closing an earlier embedding has left an override |
| `Bidi.MarkRemains` | maltty/challenge/src/minibidi.c:1256-1321 | such a line, with a level of 131 |
| `Bidi.PlainText` | maltty/challenge/src/minibidi.c:1256-1315 | without embedding codes every level is the paragraph level and every type is kept but white space |
| `Bidi.FindParagraphLevel` | maltty/challenge/src/minibidi.c:1216-1229 | the direction of the first strong character |
| `Bidi.ResetLevels` | maltty/challenge/src/minibidi.c:1548-1583 | the two loops together reset exactly separators and the white space before them or at the end |
| `Bidi.Reorder` | maltty/challenge/src/minibidi.c:1595-1614 | all passes from the highest level to one rearrange the line by a permutation |
| `BidiRules.ApplyW1` | maltty/challenge/src/minibidi.c:1339-1353 | each mark takes the type of the nearest earlier character that is not a mark; at the start, the number of the paragraph level |
| `BidiRules.W1Iff` | maltty/challenge/src/minibidi.c:1344-1345 | that is the rule with the direction of the paragraph if and only if the paragraph level is zero or the line does not start with a mark |
| `BidiRules.ApplyW2` | maltty/challenge/src/minibidi.c:1355-1373 | the pass in place is the rule on the types as they were: European numbers after an Arabic letter |
| `BidiRules.ApplyW4` | maltty/challenge/src/minibidi.c:1386-1401 | though it reads types it has changed, the pass is the rule on the types as they were |
| `BidiRules.ApplyW5` | maltty/challenge/src/minibidi.c:1403-1426 | just the sequences of terminators next to a European number on either side become numbers |
| `BidiRules.ApplyW7` | maltty/challenge/src/minibidi.c:1441-1459 | the pass is the rule on the types as they were, though numbers that become L are found by later searches |
| `BidiRules.ApplyN1` | maltty/challenge/src/minibidi.c:1461-1509 | runs of neutrals between text of one direction take it; the two ends of the line look at one neighbour only |
| `BidiRules.ApplyN2` | maltty/challenge/src/minibidi.c:1511-1521 | other neutrals take the direction of their level |
| `BidiRules.ApplyImplicit` | maltty/challenge/src/minibidi.c:1523-1546 | the two loops raise every level as rules I1 and I2 together say, wrapping at 256 |
| `BidiRules.Parity` | maltty/challenge/src/minibidi.c:1523-1546 | then R is at odd levels, and L, EN and AN at even ones (section 3.3.6 of UAX #9) |
| `BidiRules.Resolve` | maltty/challenge/src/minibidi.c:1339-1521 | the passes in place, one after another, compute the composed rules; what these come to for a whole line is `BidiPlain.FinalLevelIs` |
| `BidiPlain.FinalLevelIs` | maltty/challenge/src/minibidi.c:1216-1583 | for every line without embedding codes, the final level of every character in closed form: by what it bears through marks, the last strong character, the numbers and separators beside it, and the nearest characters on both sides that are not neutral |
| `BidiPlain.ParagraphIff` | maltty/challenge/src/minibidi.c:1216-1229 | the paragraph is right-to-left if and only if the first strong character is |
| `BidiPlain.TextLevels` | maltty/challenge/src/minibidi.c:1339-1546 | R and AL are at level one, L at zero or, in a right-to-left paragraph, two, AN at two; EN at two unless the paragraph is left-to-right and the last strong character is an L, or there is none and the line starts with a mark |
| `BidiPlain.BaseLevels` | maltty/challenge/src/minibidi.c:1548-1583 | separators, white space before them or at the end, and what has no direction are at the level of the paragraph |
| `BidiPlain.MarkLevels` | maltty/challenge/src/minibidi.c:1339-1353 | a mark is at the level of the character before it, unless that is a segment separator |
| `BidiPlain.NeutralLevels` | maltty/challenge/src/minibidi.c:1461-1521 | neutral characters between right-to-left text or numbers are at level one, between left-to-right text at its level, between the two at that of the paragraph |
| `BidiPlain.StartLevel` | maltty/challenge/src/minibidi.c:1466-1471 | a single one at the start of the line goes by the one after it |
| `BidiPlain.EndLevel` | maltty/challenge/src/minibidi.c:1504-1509 | and a single one at the end by the one before it |
| `BidiPlain.LongEnds` | maltty/challenge/src/minibidi.c:1466-1509 | two or more at either end stay at the level of the paragraph |
| `BidiPlain.SeparatorLevels` | maltty/challenge/src/minibidi.c:1386-1439 | a separator between two numbers is one of them if both are European, or both Arabic and it is a common one; otherwise it is neutral |
| `BidiPlain.TerminatorLevels` | maltty/challenge/src/minibidi.c:1403-1426 | terminators next to a European number are at its level, however many they are |
| `BidiPlain.LooseTerminators` | maltty/challenge/src/minibidi.c:1428-1439 | terminators between text or Arabic numbers are neutral |
| `BidiPlain.WordsTurned` | maltty/challenge/src/minibidi.c:1183-1630 | in a line of strong text that begins left-to-right each right-to-left word is turned round where it stands and the rest stays |
| `BidiPlain.LineTurned` | maltty/challenge/src/minibidi.c:1183-1630 | a line of right-to-left text alone is turned round as a whole |
| `BidiEmbedded.OpenedIs` | maltty/challenge/src/minibidi.c:50-51 | a code opens the least level above the current one that is odd for right-to-left and even for left-to-right |
| `BidiEmbedded.EmbeddedLevels` | maltty/challenge/src/minibidi.c:1256-1337 | whatever stands outside an embedding, text with a direction inside it, or given one by its override, is at the level of the embedding if that has this direction and at the next one otherwise |
| `BidiReorder.FlipThisRun` | maltty/challenge/src/minibidi.c:297-319 | a pass reverses from the first position of exactly its level to the end of each run of that level or higher, and leaves the levels alone |
| `BidiReorder.FindIndexOfRun` | maltty/challenge/src/minibidi.c:324-334 | the first position of exactly a level, or the end |
| `BidiReorder.PassIsL2Iff` | maltty/challenge/src/minibidi.c:297-319 | a pass is rule L2 for its level if and only if every run of two or more begins at exactly that level |
| `BidiReorder.OrdersDiffer` | maltty/challenge/src/minibidi.c:297-319 | where it is not, some text comes out differently |
| `BidiReorder.TopPassIsL2` | maltty/challenge/src/minibidi.c:297-319 | the topmost pass always is |
| `BidiReorder.FlipTwice` | maltty/challenge/src/minibidi.c:297-319 | a pass undoes itself |
| `BidiReorder.FlipDownPermutes` | maltty/challenge/src/minibidi.c:1609-1614 | no number of passes loses or doubles a character |
| `BidiReorder.FlipDownIsL2` | maltty/challenge/src/minibidi.c:1609-1614 | if runs begin exactly at every level, all passes together are those of rule L2 down to level one |
| `BidiReorder.FlipDownIff` | maltty/challenge/src/minibidi.c:1609-1614 | for any levels all passes together are rule L2 if and only if every run is arranged rightly: it begins at exactly the level of the pass and what is in it is right, or nothing in it is at that level and what is in it comes out the other way round, which is decided level by level |
| `BidiReorder.DownToOneIsRuleL2` | maltty/challenge/src/minibidi.c:1609-1614 | which is rule L2, although that stops at the lowest odd level: the passes below it undo each other in pairs |
| `BidiReorder.LowLevelsIff` | maltty/challenge/src/minibidi.c:1595-1614 | with levels of two at most, all passes together are rule L2 if and only if every run of two or more begins at level one |

## Left out

- Web challenge servers, exploit scripts, terminal drawing, option tables and other files without an algorithm of their own.
- `kvaas`, `adding-machine`, `webbleed` and the command parser of `hashpop.c`.
- WeierstrassMultiply.EccWeierstrassMultiply: that the addition law is associative is assumed; closure and the neutral element are proved.
- MontgomeryMultiply.EccMontgomeryMultiply: the same, and the inverse is proved as well.
- EdwardsMultiply.EccEdwardsMultiply: the same, on curves whose a is a square and whose d is not.
- Decompressing points from one coordinate, and normalising them to affine form in place.
- `mpint.c` and `tree234.c` are not part of this model: integers are exact, and the tree of the configuration store is an ordered sequence.
- ECDSA keys and the newer OpenSSH key format, the PEM and ssh.com armour around a key, key derivation, and the cipher itself.
- Reading files, allocation failure and freeing memory.
- `Conf` deletion, copying and the typed getters and setters, which only wrap insertion and lookup.
- Controls inside a control set, and freeing a control box.
- `AgentForward`: cancelling a pending query when the channel is freed.
- `MainChannel`: exit status and signals, breaks, window sizes, and log texts other than the names of refused variables.
- `LineDiscipline`: the branch without local editing, and the right margin of the terminal, where the column would wrap.
- Bidi.PopRestoresIff: an embedding that holds others and follows a left-to-right override is covered only while levels fit in the six bits kept for them; UAX #9 allows 61 levels.
- Bidi.ComputeExplicit: the classification of characters is a parameter, so nothing is said about which characters have which type; `do_shape` and the rest of UAX #9 are not modelled either.
- Blackjack.Session.Deal: Go's 64-bit integers do not wrap here, and sealing, sending and replaying a session are not modelled.
- BalancedTernary.DecodeAddOnes: only digit texts are decoded; a line feed or other character in the file makes the library refuse the text.
- RsaDebugger.Debugger.SetE: that the public exponent parsed is not negative is asked only where decryption is proved to invert encryption.
- Side channels: the loops are constant in time by intention, which is not a property of these models.
