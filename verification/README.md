# A verified model of the marketplace's core logic

The server, its workers, its escrow contract and the browser's signing code each contain a small piece of logic
whose correctness is a statement about every input or every run. This project models those pieces in Dafny and
proves the statements. It covers:

- **Blind RSA tokens** (`BlindRsa`, on `Primes` and `ModArith`): the exchange is correct for every key, hash and
  coprime blinding factor. Fermat's theorem, the two-prime remainder theorem and the extended Euclidean algorithm
  are proved here.
- **Curve25519 arithmetic** (`Limbs`, `Field25519`, `Packing25519`, `Inverse25519`, `Scalar25519`, `Words`): limb
  arrays changed in place against the integers they denote, and the words their bitwise operators see. Carrying,
  multiplying, packing, inverting, and reduction modulo the order of the signature group.
- **The orders table** (`OrdersTable`, `NonceUse`, `TransitionCbor`, `Hex`): any interleaving of version-guarded
  writers equals a serial execution of the committed ones; signed updates commit once; nonces and admin tokens
  serve exactly as often as their text can be spelled; the signed bytes are uniquely decodable.
- **Order lifecycle** (`TimeLock`, `WorkerHistory`): the worker's scan, the transition table, deadlines in
  saturating 64-bit arithmetic, and the same lifecycle inside every interleaved run of the orders table.
- **Request authentication** (`ReplayCache`, `RateLimiter`, `AuthLayouts`): counting arguments over whole runs,
  and what the authenticated byte strings determine.
- **Money** (`EscrowLock`, `CoinSwap`, `Settlement`, `Amounts` on `Decimal`, `PaymentMatching`, `ForkTracker`).

A method that changes state or runs a loop in the original is a method here, on a class or an array where the
original updates one, and is proved against a function of its inputs. The lemmas then speak about that function.

## Where the code and its words differ

The model follows the code. These are the places where comments or documents say something else, or where a
property one would expect holds only under a condition. Each condition is proved exact.

- `docs/THREAT_MODEL.md:138` says replay is impossible. A bucket is cleared once it holds 10000 nonces, and a
  nonce is accepted again exactly when its bucket has been filled (`ReplayCache.ReplayAcceptedIffBucketFilled`);
  for every k some run accepts one pair k times (`ReplayCache.BoundIsAttained`).
- `src/crypto/blind_sig.rs:92` says the factor is drawn from 1 to n - 1. The code gives any number below
  2^bits(n), which may reach n (`BlindRsa.MaskBlindingFactor`); correctness needs only that it is coprime to n.
- `src/background/time_lock.rs:71` can never hold: a shipped order has no edge to released
  (`src/db/models.rs:116`), so nothing is released automatically (`TimeLock.ShippedIsNeverReleased`).
- The two-lock abandon time is exact unless doubling the lock saturates and a clock reading falls into the gap
  (`TimeLock.AbandonTimeIsExactIff`). That needs a funding time before 1970 (`TimeLock.RealTimesAreNotCutShort`).
- An amount whose whole part needs more than 64 bits is read as if that part were zero, not as the largest
  amount (`Amounts.ParseBtcExactIff`, `Amounts.ParseXmrPlainIff`). With an exponent the same holds, and a mantissa
  is capped before it is divided; when the result is still the expected one is proved exactly
  (`Amounts.ParseXmrNegativeIff`, `Amounts.ParseXmrPositiveIff`).
- The Monero check takes the first payment that is large enough, whatever its confirmations. One that is still
  unconfirmed hides a confirmed one listed later (`PaymentMatching.FundedIffNotHidden`). The Bitcoin check has no
  such case, but it lets an expired order be cancelled while an unconfirmed payment is pending
  (`PaymentMatching.PollBtc`), which the Monero check does not.
- The fork tracker does not notice a block replaced at the very height it tracks, and a failed read of the old
  block lets it adopt the new tip. What it notices is exact for runs in which any reads fail
  (`ForkTracker.ReportsIffNoticed`). After reporting a hash mismatch it keeps the old height with the new tip's
  hash, so its properties are stated up to the first report.
- The rate limiter allows up to 2 * max(1, limit) - 1 calls within one window length, or max(1, limit) when the
  window is zero. Both bounds are attained (`RateLimiter.AtMostBound`, `RateLimiter.BoundIsAttained`).
- The release profile has no overflow checks (`Cargo.toml:98-103`), so the settlement sums wrap. The split is
  exact if and only if the product fits 64 bits, and conserves value if and only if the sum does
  (`Settlement.ExactSplitIff`, `Settlement.ConservesIff`).
- The nonce sets hold the order id as spelled in the request, and hexadecimal text may be spelled in either letter
  case. In every run they hold exactly the entries of the requests past the check, and refuse a request exactly
  when its entry is there (`NonceUse.NoncesAdmitOnce`, `NonceUse.RefusedIffSpent`). One nonce serves an order once
  in every run if and only if the order's id has no letter digit; otherwise up to 2^letters times, and a run
  reaches that (`NonceUse.OnePerOrderIff`, `NonceUse.UsesPerOrder`, `NonceUse.EverySpellingCommits`). Each signed
  update commits once regardless (`OrdersTable.SignedUpdatesCommitOnce`).
- `docs/THREAT_MODEL.md:102` says admin tokens are single-use. The token's message holds the decoded nonce, its
  replay entry the text. A dispute token is single-use in every run if and only if its nonce has no letter digit;
  otherwise it serves up to 2^letters times, and a run reaches that (`NonceUse.TokenSingleUseIff`,
  `NonceUse.UsesPerToken`, `NonceUse.EveryTokenSpellingCommits`). The key-rotation handler
  (`src/services/admin.rs:88-160`) records no nonce at all.

## Reading the proofs

Number theory is kept in lemmas over plain integer variables, with powers passed in as variables, because the
prover would otherwise expand constants such as 2^255. That is why some lemmas take a number together with an
equation that fixes it (`Scalar25519.OrderIs`, `Inverse25519.InverseExponent`). `Limbs.Value` is radix 2^16, the
field's representation, and `Scalar25519.Value8` radix 2^8, the scalar's.

## Model

| member | source | states |
|---|---|---|
| `BlindRsa.ModPow` | src/crypto/blind_sig.rs:104 | square-and-multiply equals the mathematical power modulo m |
| `BlindRsa.AnyBezoutCoefficientInverts` | src/crypto/blind_sig.rs:167-175 | whatever Bezout coefficient the library returns, negative or not, the sign handling turns it into an inverse modulo m |
| `BlindRsa.AllZero` | src/crypto/blind_sig.rs:98-100 | the byte scan answers whether the drawn number is zero |
| `BlindRsa.MaskBlindingFactor` | src/crypto/blind_sig.rs:92-101 | masking in place leaves the drawn number modulo 2^bits, with zero replaced by one |
| `BlindRsa.MaskKeepsLowBits` | src/crypto/blind_sig.rs:97 | clearing the excess bits of the first byte is reduction modulo 2^bits |
| `BlindRsa.RsaIdentity` | src/crypto/blind_sig.rs:111-119 | raising to d and then e, or to e and then d, is the identity on residues modulo p * q, for every number including multiples of p or q |
| `BlindRsa.SmallKey` | src/crypto/blind_sig.rs:73-80 | keys as assumed here exist |
| `BlindRsa.LcmIsLeast` | src/crypto/blind_sig.rs:73-80 | the exponent modulus of a key is the least common multiple of p - 1 and q - 1 |
| `BlindRsa.VerifyAcceptsExactlyTheSignature` | src/crypto/blind_sig.rs:136-152 | verify accepts a signature if and only if the hash is below n and the signature is hash^d mod n: completeness and uniqueness |
| `BlindRsa.UnblindRecoversSignature` | src/crypto/blind_sig.rs:83-133 | for every hash and factor, unblinding the signed blinded hash gives hash^d mod n when the factor is coprime to n, and fails otherwise |
| `BlindRsa.BlindSignatureCorrect` | src/crypto/blind_sig.rs:83-152 | blind, sign, unblind, verify accepts for every coprime factor exactly when the hash is below n |
| `Primes.ExtendedGcd` | src/crypto/blind_sig.rs:161 | the result divides both arguments and is the stated combination of them |
| `Primes.CoprimeMeansNoCommonDivisor` | src/crypto/blind_sig.rs:163-165 | gcd one means that no larger number divides both |
| `Limbs.CarriedKeepsResidue` | frontend/nacl.js:1 | one carry pass, whose top carry comes back times 38, keeps the number modulo 2^255 - 19, for every limb array |
| `Limbs.FirstPass` | frontend/nacl.js:1 | one pass brings 52-bit limbs to digits, but for a large lowest limb |
| `Limbs.SecondPass` | frontend/nacl.js:1 | a second pass brings them to digits, but for up to 38 in the lowest limb |
| `Limbs.ThirdPass` | frontend/nacl.js:1 | a third pass leaves only digits |
| `Field25519.Carry` | frontend/nacl.js:1 | the in-place carry loop computes the carry pass |
| `Field25519.Add` | frontend/nacl.js:1 | limbwise sum denotes the sum, also when output and inputs are the same array |
| `Field25519.Sub` | frontend/nacl.js:1 | limbwise difference denotes the difference, also when output and inputs are the same array |
| `Field25519.Columns` | frontend/nacl.js:1 | the schoolbook products denote the product of the inputs, with no partial sum beyond exact doubles |
| `Field25519.Fold` | frontend/nacl.js:1 | the upper columns return times 38 |
| `Field25519.Mul` | frontend/nacl.js:1 | the product of two field elements modulo 2^255 - 19, in reduced limbs, aliasing allowed |
| `Field25519.CarriedTwice` | frontend/nacl.js:1 | two passes after the fold give reduced limbs with the same residue |
| `Words.MaskedXorExchanges` | frontend/nacl.js:1 | on 32-bit two's-complement words, xor with the difference masked by ~(b - 1) exchanges two integers for 1 and keeps them for 0 |
| `Words.ShiftIsDivision` | frontend/nacl.js:1 | the arithmetic right shift of a word is division rounded down |
| `Words.ShiftDown` | frontend/nacl.js:1 | the shift the code runs, as division, for integers that are words |
| `Words.MaskIsRemainder` | frontend/nacl.js:1 | the low k bits are the remainder modulo 2^k, for negative integers too |
| `Packing25519.Select` | frontend/nacl.js:1 | the select loop, run as masked xor on words, exchanges the two arrays or leaves them, as the bit says |
| `Packing25519.BorrowBit` | frontend/nacl.js:1 | bit 16 of a difference limb, computed by shift and mask on its word |
| `Packing25519.BorrowTellsOrder` | frontend/nacl.js:1 | the borrow out of the top limb tells whether the number was below the prime |
| `Packing25519.SubtractPrime` | frontend/nacl.js:1 | the subtract loop returns that borrow and, without one, the difference in digits |
| `Packing25519.Normalize` | frontend/nacl.js:1 | a copy and three carries give digits with the same residue |
| `Packing25519.ReduceFully` | frontend/nacl.js:1 | two conditional subtractions give the residue below the prime |
| `Packing25519.Pack` | frontend/nacl.js:1 | packing writes exactly the little-endian bytes of the value modulo 2^255 - 19 |
| `Packing25519.Unpack` | frontend/nacl.js:1 | unpacking reads the bytes and drops the top bit |
| `Packing25519.CanonicalRoundTrip` | frontend/nacl.js:1 | packing what was unpacked gives the same bytes if and only if they denote a number below the prime |
| `Packing25519.NotEqual` | frontend/nacl.js:1 | comparing packed bytes decides congruence modulo 2^255 - 19 |
| `Inverse25519.InverseExponent` | frontend/nacl.js:1 | the inversion chain's exponent is p - 2 |
| `Inverse25519.Pow2523Exponent` | frontend/nacl.js:1 | the square-root chain's exponent is 2^252 - 3 |
| `Inverse25519.Inverse` | frontend/nacl.js:1 | the inversion loop computes x^(p-2), output possibly the input |
| `Inverse25519.Pow2523` | frontend/nacl.js:1 | the square-root loop computes x^(2^252-3), output possibly the input |
| `Inverse25519.InverseIsInverse` | frontend/nacl.js:1 | what the inversion loop returns times x is 1 modulo p for every x that p does not divide, p being prime |
| `Scalar25519.OrderIs` | frontend/nacl.js:1 | the limb constant denotes 2^252 + 27742317777372353535851937790883648493 |
| `Scalar25519.FoldStep` | frontend/nacl.js:1 | one inner step absorbs a limb of the order into a limb and the carry |
| `Scalar25519.FoldLimbs` | frontend/nacl.js:1 | the inner loop subtracts the low part of the order, leaves digits from -128 to 127 and a carry of at most 4 once the raw limbs are done |
| `Scalar25519.ClearTop` | frontend/nacl.js:1 | clearing a high limb takes off a multiple of the order and nothing else |
| `Scalar25519.FoldHigh` | frontend/nacl.js:1 | the outer loop clears all high limbs and keeps the residue modulo the order |
| `Scalar25519.CarryStays` | frontend/nacl.js:1 | limbs and carries stay within bounds that exact doubles hold |
| `Scalar25519.EstimateStep` | frontend/nacl.js:1 | what the quotient loop shifts and masks are words; digit and carry of one limb |
| `Scalar25519.SubtractEstimate` | frontend/nacl.js:1 | the quotient loop subtracts the order as often as the leading limb says and leaves bytes and a signed carry of at most 20 |
| `Scalar25519.EstimateLeaves` | frontend/nacl.js:1 | that quotient is never off by more than one order |
| `Scalar25519.BorrowMends` | frontend/nacl.js:1 | adding the order back once after a borrow gives exactly the residue |
| `Scalar25519.EmitBytes` | frontend/nacl.js:1 | the last loop writes the low 32 bytes |
| `Scalar25519.ModL` | frontend/nacl.js:1 | the 32 bytes are exactly the input modulo the group order, for every 64 limbs up to 2^22 in size |
| `Scalar25519.Reduce` | frontend/nacl.js:1 | a 64-byte hash becomes its residue, the upper half cleared |
| `Scalar25519.SigningScalar` | frontend/nacl.js:1 | the signature scalar is nonce plus challenge times secret modulo the group order |
| `TransitionCbor.ToCbor` | src/crypto/transition_sig.rs:43-59 | filling the ordered map and writing it yields the reference encoding |
| `TransitionCbor.TransitionToCbor` | wasm/src/transition.rs:7-52 | the browser's encoder yields the same bytes as the server's, and rejects a hash that is not 32 bytes |
| `TransitionCbor.IntoWriter` | src/crypto/transition_sig.rs:55-58 | the writer emits the entries of a map in ascending key order |
| `TransitionCbor.PayloadMapWrites` | src/crypto/transition_sig.rs:47-58 | the map of six entries is written as the reference encoding, whatever order it was filled in |
| `TransitionCbor.DecodeEncode` | src/crypto/transition_sig.rs:43-59 | an independent reader gets every payload back, for all 64-bit fields and byte strings |
| `TransitionCbor.SampleBytes` | src/crypto/transition_sig.rs:43-59 | one payload and its bytes in full |
| `TransitionCbor.HourWraps` | src/crypto/transition_sig.rs:53 | the hour is taken modulo 2^64 into the signed range and back |
| `TransitionCbor.EncodeInjective` | src/crypto/transition_sig.rs:43-59 | different payloads have different signed bytes |
| `TransitionCbor.HeadIsShortest` | src/crypto/transition_sig.rs:43-59 | no shorter head denotes the same argument, as section 4.2.1 of RFC 8949 requires |
| `TransitionCbor.AscendingKeysAreBytewiseSorted` | src/crypto/transition_sig.rs:47-53 | ascending integer keys are in the bytewise order section 4.2.1 of RFC 8949 requires |
| `OrdersTable.Database.InsertOrder` | src/services/orders.rs:82-93 | inserts a new row at version one and touches no other |
| `OrdersTable.Database.InsertNonce` | src/services/orders.rs:234-243 | answers whether the nonce is new and records it |
| `OrdersTable.Database.RunUpdate` | src/services/orders.rs:201-212 | the guarded UPDATE writes and bumps the version exactly when the version still matches |
| `OrdersTable.Database.HandleAlone` | src/services/orders.rs:137-213 | a handler that nobody interrupts commits exactly when its token, if any, is valid, the nonce is new, the order exists and the request is valid; it never conflicts |
| `OrdersTable.NextKeepsInv` | src/services/orders.rs:160-212 | every step of every writer keeps the invariant: the table is the serial result, and a pending write is still right unless overtaken |
| `OrdersTable.EveryRunIsSerial` | src/services/orders.rs:160-212 | every interleaving of reads, nonce checks and updates by orders, chat, disputes and workers equals the committed requests executed one at a time, with version = 1 + commits |
| `OrdersTable.ConflictIffOvertaken` | src/services/chat.rs:101-132 | a due update conflicts exactly when another write of the order committed after its read; otherwise it stores what the current row calls for |
| `OrdersTable.VersionsGrow` | src/background/time_lock.rs:49-61 | between two points of a log an order's version grows by exactly the number of its commits |
| `OrdersTable.ColumnsHoldLastWrites` | src/services/disputes.rs:102-111 | in every run the chat and dispute columns and the dispute flag are those of their last committed writers |
| `OrdersTable.UpdateIsSigned` | src/services/orders.rs:184-212 | a committed client update was signed with bytes that an independent reader reads as format 1, this order, the version replaced, the hash of the blob stored, this nonce and hour; it changed that blob and the version alone |
| `OrdersTable.UpdateAcceptedIff` | src/services/orders.rs:173-199 | an update is accepted for a row exactly when its nonce text decodes and the signature is over the payload for that row's version; its blob is what is accepted |
| `OrdersTable.SignedUpdateCommits` | src/services/orders.rs:160-212 | in every run an update past its nonce check, signed for the present version, commits and stores its blob when nobody comes between |
| `OrdersTable.CommitsWriteOwnColumns` | src/services/disputes.rs:102-111 | in every run each commit writes the columns of its own kind of request, in its own order, and nothing else |
| `OrdersTable.CreatesAsAsked` | src/services/orders.rs:82-93 | in every run a new order starts with the blob and expiry it was created with, at version one, without chat or dispute |
| `OrdersTable.SignedUpdatesCommitOnce` | src/services/orders.rs:190-212 | in every run each committed update stored the blob whose hash the signed bytes name on top of the version they name, and no signed bytes commit twice |
| `NonceUse.NextKeepsNonces` | src/services/disputes.rs:322-342 | every step keeps the nonce sets equal to the entries of the requests past the check, one request each |
| `NonceUse.NoncesAdmitOnce` | src/services/chat.rs:145-154 | in every run the nonce sets are exactly the entries of the requests past the check, later refusals included, and no two requests share one |
| `NonceUse.RefusedIffSpent` | src/services/orders.rs:234-243 | in every run a request at its check is refused exactly when another request with its entry got past before |
| `NonceUse.EntriesAgreeIff` | src/services/disputes.rs:322-342 | two requests share an entry exactly when they are of one handler group and agree in id and nonce text |
| `NonceUse.ForbiddenIff` | src/services/disputes.rs:231-267 | in every run a resolution is forbidden exactly when its token does not verify for the message of its order id, decoded nonce and expiry |
| `NonceUse.ResolutionsAreAuthorised` | src/services/disputes.rs:244-260 | in every run every resolution past the check carried such a token |
| `NonceUse.UsesPerOrder` | src/services/orders.rs:144-158 | per handler group, order and nonce text at most 2^letters requests get past, letters being those of the order's id, in every run |
| `NonceUse.EverySpellingCommits` | src/services/chat.rs:89-132 | for every order and nonce a run of chat requests reaches that bound, every one committing |
| `NonceUse.OnePerOrderIff` | src/services/orders.rs:144-158 | one request per handler group, order and nonce in every run if and only if the id has no letter digit |
| `NonceUse.UsesPerToken` | src/services/disputes.rs:231-272 | in every run a dispute token gets past at most 2^letters times, letters being those of its nonce |
| `NonceUse.EveryTokenSpellingCommits` | src/services/disputes.rs:231-312 | for every valid token a run resolves once per spelling of its nonce |
| `NonceUse.TokenSingleUseIff` | src/services/disputes.rs:231-272 | a valid dispute token is single-use in every run if and only if its nonce has no letter digit |
| `Hex.SpellingsDecode` | src/services/orders.rs:144-145 | the spellings of a byte string are exactly the texts that decode to it |
| `Hex.SpellingCount` | src/services/orders.rs:144-145 | there are 2^letters of them |
| `ReplayCache.Cache.CheckReplay` | src/gateway/stateless_auth.rs:67-80 | prunes, possibly clears, and inserts; answers whether the nonce was absent |
| `ReplayCache.Cache.Authenticate` | src/gateway/stateless_auth.rs:146-169 | one request changes the cache and is answered as the reference says |
| `ReplayCache.StaleIff` | src/gateway/stateless_auth.rs:146-163 | stale exactly when the hour named is after the present one or more than one before it; forged exactly when timely and unauthentic; neither touches the cache |
| `ReplayCache.TimelyRequestIsAccepted` | src/gateway/stateless_auth.rs:146-167 | an authentic request for the present hour or the one before, with a nonce never accepted in it, is accepted after every run |
| `ReplayCache.CacheStaysSmall` | src/gateway/stateless_auth.rs:67-80 | after any run at most three buckets, for the last three hours, of 1 to 10000 nonces |
| `ReplayCache.AcceptedAtMostOncePerFilledBucket` | src/gateway/stateless_auth.rs:67-80 | an (hour, nonce) pair is accepted at most ceil(A/10000) times, A being the hour's acceptances |
| `ReplayCache.ReplayAcceptedIffBucketFilled` | src/gateway/stateless_auth.rs:76-79 | a fresh replay is accepted exactly when the bucket that recorded the nonce has been filled since |
| `ReplayCache.NewNonceIsAccepted` | src/gateway/stateless_auth.rs:67-80 | a fresh authentic request whose nonce was never accepted in its hour is accepted, after every run |
| `ReplayCache.BoundIsAttained` | src/gateway/stateless_auth.rs:67-80 | for every pair and k a run accepts it k times with 10000 * (k - 1) + 1 acceptances of the hour |
| `RateLimiter.RateLimiter.Check` | src/gateway/ratelimit.rs:28-54 | one call changes only its key's entry, and the answer is the reference's |
| `RateLimiter.AtMostBound` | src/gateway/ratelimit.rs:28-54 | any interval up to the window holds at most 2 * max(1, limit) - 1 accepted calls of a key, max(1, limit) for a zero window, over every run |
| `RateLimiter.BoundIsAttained` | src/gateway/ratelimit.rs:28-54 | for every limit and window a run reaches that bound within one time unit |
| `RateLimiter.RefusalIsEarned` | src/gateway/ratelimit.rs:28-54 | a refusal implies limit acceptances of that key within the last window |
| `RateLimiter.KeysAreIndependent` | src/gateway/ratelimit.rs:28-54 | answers depend only on the earlier calls of the same key |
| `AuthLayouts.BuildChallenge` | src/gateway/stateless_auth.rs:37-44 | appends the fields in order |
| `AuthLayouts.ChallengeReads` | src/gateway/stateless_auth.rs:37-44 | hash, key, hour and nonce are read back from the challenge |
| `AuthLayouts.MacInputsAgreeIff` | src/gateway/stateless_auth.rs:28-35 | two HMAC inputs agree exactly when key, hour and path joined with nonce agree |
| `AuthLayouts.MacInputFields` | src/gateway/stateless_auth.rs:28-35 | where each field stands in the HMAC input |
| `AuthLayouts.MacInputDetermines` | src/gateway/stateless_auth.rs:28-35 | with nonces of equal length the HMAC input determines every field |
| `AuthLayouts.TokenMessagesAgreeIff` | src/crypto/blind_sig.rs:50-70 | two token messages of a domain agree exactly when expiry and action:nonce agree |
| `AuthLayouts.TokenMessageDetermines` | src/crypto/blind_sig.rs:50-70 | for actions without a colon the message determines action, nonce and expiry |
| `AuthLayouts.DomainsAreSeparate` | src/services/admin.rs:115-120 | a dispute token is never a key-rotation token |
| `AuthLayouts.ConstantsSpelled` | src/crypto/blind_sig.rs:9 | label and domains are the strings they stand for |
| `AuthLayouts.SampleMessage` | src/crypto/blind_sig.rs:56-65 | one token message in full |
| `EscrowLock.Contract.CreateOrder` | contracts/EscrowLock.sol:22-46 | succeeds exactly for a new id, some ether, a positive lock and deadlines within 256 bits; then the caller is the buyer, with the named seller, the value, deadlines one and two locks on, and no flag; else nothing changes |
| `EscrowLock.CreatesIffFresh` | contracts/EscrowLock.sol:22-46 | the same over every run, with the deposit logged |
| `EscrowLock.Contract.SettleOrder` | contracts/EscrowLock.sol:48-85 | release, refund and claim: flag first, then pay, with the recipient's own calls in between; reverts leave no trace |
| `EscrowLock.Contract.Execute` | contracts/EscrowLock.sol:22-85 | any call, nested to any depth, has exactly the reference outcome |
| `EscrowLock.RunKeepsInv` | contracts/EscrowLock.sol:22-85 | over every run with re-entry: balance = unsettled amounts, deposits = balance + payments, one deposit per order and one payment per settled order, each payment justified against its deposit by amount, recipient, caller and time, never both flags |
| `EscrowLock.TransactionExtends` | contracts/EscrowLock.sol:22-85 | orders stay, terms never change, payments are only added |
| `EscrowLock.SettlesIffAllowed` | contracts/EscrowLock.sol:48-85 | settling succeeds exactly by the contract's rules and the recipient's acceptance, never for want of ether |
| `EscrowLock.SettlementPays` | contracts/EscrowLock.sol:54-82 | over every run a settlement that succeeds sets its own flag and pays the full amount at once, a refund to the buyer, a release or claim to the seller |
| `EscrowLock.RefundsReturnDeposits` | contracts/EscrowLock.sol:60-71 | over every run a refund returns the ether to the account that sent it, in full, two locks after at the earliest, on that account's call |
| `EscrowLock.RecipientActsAfterPayment` | contracts/EscrowLock.sol:54-55 | a recipient's own calls run with the flag set and the ether gone |
| `EscrowLock.CallsInOrder` | contracts/EscrowLock.sol:54-55 | they run in order, each on what the one before left, a reverted one without trace |
| `EscrowLock.BuyerCanAlwaysRelease` | contracts/EscrowLock.sol:48-58 | the buyer of an unsettled order can release it at any time |
| `EscrowLock.SettledOrderNeverPaysAgain` | contracts/EscrowLock.sol:51-82 | no transaction pays a settled order again, by re-entry or otherwise |
| `CoinSwap.RunCoinswapChain` | src/services/payments/coinswap.rs:105-183 | every accepted hop spends output 0 of the one before, pays one fee, is signed by the key that owns its input; with a cooperative environment all hops succeed exactly when initial - hops * fee >= 546 |
| `CoinSwap.OneLiveOutput` | src/services/payments/coinswap.rs:128-180 | after k hops one output is live, worth initial - k * fee, owned by the next signer or the final address |
| `TimeLock.OrderStore.WriteOrder` | src/background/time_lock.rs:43-64 | the guarded UPDATE of the worker |
| `TimeLock.OrderStore.HandleShipped` | src/background/time_lock.rs:66-85 | leaves the row or writes the shipped update |
| `TimeLock.OrderStore.HandleFunded` | src/background/time_lock.rs:87-123 | leaves the row or writes the auto-dispute |
| `TimeLock.OrderStore.HandleDisputed` | src/background/time_lock.rs:125-147 | leaves the row or writes the auto-refund |
| `TimeLock.OrderStore.CheckTimeLocks` | src/background/time_lock.rs:13-37 | one pass equals the reference scan, which stops at the first conflict |
| `TimeLock.OrderStore.MarkOrderFunded` | src/background/payment_poller.rs:223-269 | exactly a readable pending row that nobody overtook becomes funded now, all else in it kept, with its floored expiry as bucket |
| `TimeLock.OrderStore.MarkOrderCancelled` | src/background/payment_poller.rs:271-311 | exactly a readable pending row that nobody overtook becomes cancelled, all else in it and its expiry bucket kept |
| `TimeLock.OrderStore.RetrySettlement` | src/background/payment_poller.rs:313-356 | exactly a readable released row without settlement that nobody overtook gets the settlement's id, all else kept |
| `TimeLock.ScanCompletesIff` | src/background/time_lock.rs:23-34 | a pass completes exactly when no due order was overtaken |
| `TimeLock.CompleteScanMovesDueOnce` | src/background/time_lock.rs:23-34 | a completed pass moves each due order one step and leaves every other row |
| `TimeLock.AbortedScanMovesPrefix` | src/background/time_lock.rs:23-34 | a pass cut short moves each due order before the first conflict one step and leaves the conflicting and all later rows |
| `TimeLock.ConflictFound` | src/background/time_lock.rs:29-31 | every pass cut short has a first conflict |
| `TimeLock.TransitionTable` | src/db/models.rs:112-125 | the edges of the status graph, one by one |
| `TimeLock.AutoDispute` | src/background/time_lock.rs:87-123 | a funded order is disputed exactly from two saturated locks after funding while no dispute is open, with the new dispute and its deadline in full |
| `TimeLock.AutoRefund` | src/background/time_lock.rs:125-147 | a disputed order is refunded exactly from its deadline, an open dispute resolved as refund by the system, all else kept |
| `TimeLock.SaturateIsNearest` | src/background/time_lock.rs:97-98 | sums and products beyond 64 bits stop at the nearest bound |
| `TimeLock.ExpiryBucketFloors` | src/background/time_lock.rs:48 | the bucket is the expiry rounded to six hours toward 1970 |
| `TimeLock.PaymentSteps` | src/background/payment_poller.rs:239-341 | what each payment, settlement and notification step writes, field by field |
| `TimeLock.PendingOrdersFollowPayments` | src/background/payment_poller.rs:223-311 | over every run of worker steps a pending order becomes funded exactly by a confirmed payment, at its time, and cancelled exactly by an expired one, whichever comes first |
| `TimeLock.StepsFollowTransitions` | src/db/models.rs:112-125 | every worker step follows the transition table |
| `TimeLock.TerminalAbsorbs` | src/db/models.rs:112-125 | a status without edges never changes, over every run; all that can be added is a missing escrow address with the buyer's key, or a released order's missing settlement |
| `TimeLock.ShippedIsNeverReleased` | src/background/time_lock.rs:66-85 | no pass changes a shipped order |
| `TimeLock.ClockReadingsAreFloored` | src/crypto/zk.rs:210-212 | a reading is a multiple of six hours within six hours of the clock |
| `TimeLock.AbandonTimeIsExactIff` | src/background/time_lock.rs:96-100 | no reading reaches the abandon time before two locks have passed, unless and only unless the doubled lock saturates into a reading |
| `TimeLock.DoublingCanCutShort` | src/background/time_lock.rs:97-98 | such an exception exists |
| `TimeLock.RealTimesAreNotCutShort` | src/background/time_lock.rs:96-98 | none exists for funding times from 1970 on |
| `TimeLock.RunIsTracked` | src/background/time_lock.rs:87-147 | over every run of worker steps a funded order is untouched, or in dispute since no sooner than its abandon time with a deadline one lock later, or refunded no sooner than that deadline with the dispute resolved then |
| `TimeLock.AutoRefundWaitsThreeLocks` | src/background/time_lock.rs:87-147 | auto-refund comes a full lock after the dispute and three locks after funding, saturation included |
| `WorkerHistory.WorkersWriteOrdersOnly` | src/background/payment_poller.rs:254-262 | the workers' steps touch no chat or dispute column |
| `WorkerHistory.WorkIsDone` | src/background/time_lock.rs:23-34 | a worker that can read a row writes exactly when its step applies, and what it writes reads back as the data after the step |
| `WorkerHistory.CommittedBucket` | src/background/time_lock.rs:48-55 | a committed worker step leaves the floored expiry of the data it stored as bucket, a cancellation the old bucket |
| `WorkerHistory.BlobsFormHistory` | src/background/time_lock.rs:43-64 | in every interleaving, between client writes of its blob an order goes through its committed worker steps one after the other, each computed from what the one before left |
| `WorkerHistory.RefundWaitsInEveryRun` | src/background/time_lock.rs:87-147 | in every interleaved run auto-refund waits three locks, with chat, dispute and other worker writes between |
| `WorkerHistory.PendingFollowsPaymentsInEveryRun` | src/background/payment_poller.rs:223-311 | in every interleaved run a pending order is funded exactly by a confirmed payment and cancelled exactly by an expired one, whichever committed first |
| `WorkerHistory.TerminalStatusStays` | src/db/models.rs:112-125 | in every interleaved run a status without edges stays until a client stores the blob |
| `Amounts.FractionRounds` | src/background/payment_poller.rs:370-384 | the fraction string, its carry included, denotes the fraction rounded half up |
| `Amounts.ParseBtcFormula` | src/background/payment_poller.rs:358-396 | the parser's value for every pair of digit strings; below 546 satoshis it is zero |
| `Amounts.ParseBtcExactIff` | src/background/payment_poller.rs:358-396 | the rounded, capped value when that is at least 546 and zero otherwise, exactly when the whole part fits 64 bits |
| `Amounts.BtcValueIsNearest` | src/background/payment_poller.rs:370-384 | that value is the satoshi count nearest to the digits' exact value, halves up |
| `Amounts.ParseBtcWhole` | src/background/payment_poller.rs:387-394 | a string without a point counts whole coins, capped; zero for none or for more than 64 bits |
| `Amounts.BtcPrintParse` | src/background/dummy_worker.rs:24-29 | every printed amount from 546 satoshis on is read back to the satoshi, capped, and a smaller one as zero |
| `Amounts.MantissaFloorsIff` | src/background/payment_poller.rs:422-445 | the mantissa, with or without a point, is rounded down and capped exactly when its whole part fits 64 bits |
| `Amounts.ParseXmrPlainIff` | src/background/payment_poller.rs:417-419 | a decimal, with or without a point, is its piconero value rounded down and capped exactly when its whole part fits 64 bits |
| `Amounts.ParseXmrWholeIff` | src/background/payment_poller.rs:425-428 | without a point, whole coins, capped, exactly when they fit 64 bits |
| `Amounts.ParseXmrFormula` | src/background/payment_poller.rs:405-416 | the parser's value for every decimal with an exponent from -19 to 19, nothing excluded |
| `Amounts.ParseXmrNegativeIff` | src/background/payment_poller.rs:413-416 | for exponents -19 to 0, truncating twice is one rounding down of the exact value exactly when the mantissa is below the first multiple of 10^exponent above the 64-bit range |
| `Amounts.ParseXmrPositiveIff` | src/background/payment_poller.rs:411-412 | for exponents 0 to 19 the result is the rounded mantissa times 10^exponent, capped, exactly when the whole part fits 64 bits or the fraction alone reaches the cap; short of the cap it is at most the exact value and less than 10^exponent below it |
| `Amounts.XmrPrintParse` | src/background/dummy_worker.rs:29-31 | every printed amount is read back to the piconero, capped at 64 bits |
| `Amounts.SpaceIsIgnored` | src/background/payment_poller.rs:362 | white space around an amount changes nothing |
| `Amounts.PlusIsIgnored` | src/background/payment_poller.rs:388 | nor does a plus sign before its digits |
| `Amounts.TwoPointsAreZero` | src/background/payment_poller.rs:365-367 | a text with two points is no amount |
| `Amounts.NoNumberIsZero` | src/background/payment_poller.rs:388-394 | nor is one without a point that is not a number |
| `Amounts.DustSample` | src/background/payment_poller.rs:374-386 | 0.000005459 coins round up to 546 satoshis, the least amount that counts |
| `Amounts.HalfSample` | src/background/payment_poller.rs:358-445 | 1.5 coins in satoshis and in piconero |
| `Decimal.QuotientIsDivision` | src/background/payment_poller.rs:415 | the repeated subtraction used as division is division |
| `Settlement.BuildMultiUtxoSettlement` | src/services/escrow/btc.rs:40-108 | spends every output given, in order, with its witness data, and pays seller and fee; fails exactly for an empty list or a bad address or txid |
| `Settlement.ConservesIff` | src/services/escrow/btc.rs:65-67 | outputs sum to inputs exactly when the sum fits 64 bits |
| `Settlement.ExactSplitIff` | src/services/escrow/btc.rs:66-67 | the fee is the percentage rounded up and the seller's share the rest, exactly when the product fits 64 bits |
| `Settlement.BatchingFavoursSeller` | src/services/escrow/btc.rs:65-67 | settling k outputs together pays the seller at least the separate sum and less than k satoshis more |
| `PaymentMatching.GetIncomingTransfers` | src/services/payments/xmr.rs:277-335 | keeps the large enough incoming entries in wallet order, with saturating confirmations |
| `PaymentMatching.IncomingNext` | src/services/payments/xmr.rs:293-332 | what one more wallet entry adds to the list, field by field |
| `PaymentMatching.PaysIff` | src/services/payments/xmr.rs:295-307 | an entry pays exactly when its kind has "in" inside and it has an amount of a thousandth of a coin and of what is expected |
| `PaymentMatching.OutNeverPays` | src/services/payments/xmr.rs:296-298 | an outgoing entry never pays |
| `PaymentMatching.ConfirmationsIff` | src/services/payments/xmr.rs:318-322 | no height, no confirmations; else exactly the blocks since, none for a height not below the current one |
| `PaymentMatching.CheckXmrPayment` | src/services/payments/xmr.rs:368-400 | returns the first qualifying transfer, or none exists |
| `PaymentMatching.PollXmr` | src/background/payment_poller.rs:108-163 | in terms of the wallet: the first paying entry alone decides funding, and only an order nobody paid is cancelled |
| `PaymentMatching.FirstThroughFilter` | src/services/payments/xmr.rs:291-333 | filtering keeps the first paying entry first |
| `PaymentMatching.FundedIffNotHidden` | src/services/payments/xmr.rs:368-400 | a paid and confirmed order is funded exactly when no unconfirmed payment is listed first |
| `PaymentMatching.UnconfirmedHidesConfirmed` | src/services/payments/xmr.rs:378-398 | the hidden case exists |
| `PaymentMatching.GetIncomingTransfersBtc` | src/services/payments/btc_client.rs:81-110 | keeps the confirmed, addressed entries that round to enough satoshis, in order |
| `PaymentMatching.IncomingBtcNext` | src/services/payments/btc_client.rs:86-107 | what one more wallet entry adds to the list, field by field |
| `PaymentMatching.RoundsToAtLeast` | src/services/payments/btc_client.rs:93-97 | an amount rounds to at least some satoshis exactly when it reaches them up to half a satoshi |
| `PaymentMatching.CheckBtcPayment` | src/services/payments/btc_client.rs:132-152 | returns a qualifying confirmed transfer whenever one exists |
| `PaymentMatching.PollBtc` | src/background/payment_poller.rs:175-217 | funds exactly when some confirmed entry pays, wherever listed; cancels exactly when expired and none does |
| `PaymentMatching.PayingThroughFilter` | src/services/payments/btc_client.rs:86-107 | filtering keeps exactly the entries that pay |
| `ForkTracker.Tracker.CheckForFork` | src/services/payments/xmr.rs:192-241 | the new state and answer of one check |
| `ForkTracker.SilentTracksLastRead` | src/services/payments/xmr.rs:192-241 | until the first report the tracker holds the tip of the last chain whose height and tip hash were both read, whatever else failed |
| `ForkTracker.ReportsIffNoticed` | src/services/payments/xmr.rs:208-241 | after any silent run, with any reads failing, the next check reports exactly when it reads the tip and the chain is shorter than that one, or longer without extending it and the tracked block is read (and that chain had more than one block and, in the second case, a nonempty tip hash) |
| `ForkTracker.ForkIsReported` | src/services/payments/xmr.rs:208-241 | with every read answered, a shrunk chain or a replaced tracked block under another height is reported |
| `ForkTracker.ExtensionsStaySilent` | src/services/payments/xmr.rs:192-241 | a run of chains that only extend is never reported, whichever reads fail |
| `ForkTracker.ReportLeaves` | src/services/payments/xmr.rs:207-235 | a report sets the flag and takes the new tip, but keeps the old height when the tracked block was replaced under a higher tip |
| `ForkTracker.QuietLeaves` | src/services/payments/xmr.rs:237-241 | a silent check takes the new tip if it read it and leaves the flag |

## Left out

- InverseIsInverse: takes the primality of 2^255 - 19 as a hypothesis; a certificate for it says nothing about the code. The exponents and the power the loops compute are proved without it.
- GetIncomingTransfersBtc: coins are real numbers, rounded to satoshis as the code does; the error of the floating-point product is not modelled.
- ColumnsHoldLastWrites: assumes that workers rewrite only the order's own blob and expiry; `WorkerHistory.WorkersWriteOrdersOnly` proves that of the time-lock, payment, settlement and notification workers.
- HandleAlone: covers a handler that nobody interrupts; interleavings are the lemmas on runs.
- Multiplication in `frontend/nacl.js` is unrolled there and loops here; its temporaries are array cells.
- Doubles in `frontend/nacl.js` are integers here; bounds below 2^53 are proved where products and carries arise. Limb inputs are at most 2^21 in size for a product, 2^52 for a carry, and 2^22 for a scalar.
- The Montgomery ladder, Edwards point arithmetic and the ciphers and hashes of `frontend/nacl.js`.
- SHA-256, HMAC, BLAKE3, AEAD and signature schemes: hashes and signature checks are arbitrary functions of their inputs, and commits are told apart by signed bytes, not by assuming signatures unforgeable.
- Random draws: blinding bytes, dummy amounts and order ids are arbitrary inputs.
- RSA key generation and decoding: a key is two distinct primes and exponents inverse modulo lcm(p-1, q-1).
- Amount strings are ASCII; decimals are digits with an optional point, without a sign; exponents beyond 19 in either direction, where the power overflows, give no result.
- Base64 and size checks in the handlers, requests whose order id is not hexadecimal text, the expiry window of admin tokens, key rotation, and the nonce set of order creation.
- The orders table is a map; the SQL engine, migrations, JSON and encryption of blobs are not modelled. A blob is readable by the worker under its own row id or opaque.
- Ids and hash text of an automatic dispute, and fields of an order no worker step reads or writes.
- The replay cache's freshness check and insertion are one atomic step on a clock that does not run back; so is each call of the rate limiter.
- EscrowLock: nested calls are unlimited where gas would stop them, ether forced into the contract is absent, timestamps are 256-bit, and events and the view function are absent.
- CoinSwap: keys, addresses, signing and broadcasting are functions of the environment; the PSBT container is the transaction it holds.
- Settlement signing, finalisation, fee policy and broadcasting.
- Concurrent use of one fork tracker, audit records, clearing the fork flag, and runs beyond the tracker's first report.
- HTTP routing, headers and padding, the Tor process, listings, the notification scanner apart from the address it writes, the user interface and configuration.
- Secrecy, anonymity and timing.
