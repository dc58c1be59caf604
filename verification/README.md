# Verified model of a Solana client library

A Dafny model of the algorithmic parts of a C++ client for the Solana chain and the
Mango v3 margin protocol, with machine-checked proofs of what they compute:

- the base-58 codec, its buffer-sizing string wrappers and the text form of public keys;
- the base64 codec that carries signed transactions;
- I80F48 fixed-point multiplication and division without a wider integer type;
- account health, health ratio and liquidation, built on that arithmetic;
- compiling instructions to a transaction, its wire format and its signing envelope;
- the WebSocket subscription session, as a client object and as a system of runs;
- epoch arithmetic and the bit tricks under it.

`dafny verify dfyconfig.toml` checks the whole project.

## Layout

| file | contents |
|---|---|
| Wrappers.dfy | the option type |
| Numerals.dfy | positional numerals: values, fixed-width and minimal digit sequences, uniqueness |
| Bits.dfy | bitwise or and shifts on naturals, bit smearing |
| Base58.dfy, Base58Strings.dfy, PublicKeys.dfy | the base-58 codec, its string wrappers, public keys |
| Base64.dfy | the base64 codec |
| Fixed.dfy | fixed-point numbers |
| Mango.dfy, MangoHealth.dfy, HealthLaws.dfy | account data, health computations, their laws |
| AccountMoves.dfy | how the health follows balances, open orders, perp accounts and weights |
| Wire.dfy, Compile.dfy | transactions: bytes, and compilation from instructions |
| Session.dfy, SessionRuns.dfy, SessionCalls.dfy, EarlyRuns.dfy | the subscription session, all runs of it against a server, the calls and messages of their steps, and runs that unsubscribe before the confirmation |
| Epochs.dfy | epoch schedules |

Code that updates state step by step is a method with loops, or a class, whose contract
ties it to a specification function; the laws are lemmas about those functions.  Integer
widths are explicit where the code depends on them: 32-bit limbs and counter in base 58,
8-bit cells and carries, 128-bit words in division and multiplication, 16-bit lengths and 8-bit indices on
the wire, 64-bit request ids that are handed out as 32-bit ints.  Signed results that do not
fit are taken to wrap around, which is how common compilers treat them.  A `fixed<80, 48>` is its raw integer, and the real number
it stands for is that integer divided by 2^48.

## Findings

Where the code does less than its name, comment or shape suggests, the model follows the
code, and a lemma states exactly when the expected property holds.

- `fromBase58` reads its argument up to the first NUL and counts leading '1's in 32 bits,
  so `toBase58(fromBase58(s)) == s` holds for an accepted `s` exactly when `s` has no NUL and
  fewer than 2^32 leading '1's.
- `b58encode` leaves no room for the NUL on some inputs and then returns the empty string;
  `b58decode` has no result exactly when the leading '1's, counted in 32 bits, and the
  significant bytes together exceed the buffer it sizes, as for "1111".
- Division is within one raw unit of the true quotient, and exact for remainders below 2^80,
  exactly unless the quotient does not fit 128 bits, or its low bits round up to a whole unit
  while the integer part is odd: the unit is then lost.
- `getHealthRatio` is a hundred times the quotient less one exactly while that product, of the
  quotient before it is cut to 128 bits, fits them.  Liabilities that are rounding dust can
  break it: a healthy account may then have a negative ratio, from an overflow of the product
  or already of the quotient.
- The spot value of an account keeps to the stated bounds exactly if the quotient of the locked
  quote and the price fits 128 bits and keeps its carry.
- `AccountMeta::operator<` is not a strict weak order when a read-only signer meets a
  writable account that does not sign, although the comment at the sort promises four tiers.
- Account positions are cut to a byte, so instructions that use an account beyond the 256th
  lose their meaning; vector lengths are cut to 16 bits, so 65536 bytes are written as none.
- Without its padding, a base64 encoding decodes to the original exactly when its length is
  not 2 modulo 4; in that case a zero byte is added.
- `trailingZeros` computes the floor of the logarithm, which is the number of trailing zeros
  on the powers of two only.
- Unsubscribing before the confirmation erases the subscription that the unset `ws_id` names:
  others survive exactly when the request is confirmed or that value names no live subscription.
  Nor does it end the request: once confirmed, its callback is called for as long as the request
  is held, that is, until the unsubscription is answered.
- `onAccountChange` returns the request id as an `int`, which names the request exactly below 2^31
  and within 2^31 of the 64-bit limit.

## Model

| member | source | states |
|---|---|---|
| Base58.CharOfDigit | include/base58.hpp:17-26 | the digit table and the ordered alphabet are inverse to each other on valid characters |
| Base58.Alphabet | include/base58.hpp:109-110 | the digits are the 58 characters of the alphabet in its order, and no others |
| Base58.MultiplyAdd | include/base58.hpp:66-71 | one pass over the limbs turns their value v into 58 v + digit, up to a carry of at most 57 beyond the first limb; nothing is lost to 32-bit truncation |
| Base58.PrefixRejects | include/base58.hpp:72-77 | a prefix that does not fit makes the whole text not fit, so rejecting early is final |
| Base58.FeedDigit | include/base58.hpp:67-77 | the carry and the masked bits of the first limb are zero exactly when the number read so far is below 256^n |
| Base58.StoreLimbs | include/base58.hpp:84-96 | the bytes written have the value of the limbs, for buffers of any length modulo 4 |
| Base58.B58ToBin | include/base58.hpp:35-107 | succeeds exactly on texts over the alphabet whose number is below 256^n; the buffer is then that number big-endian, and the size is the significant bytes plus the leading '1's counted in 32 bits |
| Base58.BufferHolds | include/base58.hpp:120 | 256^n < 58^(138 n / 100 + 1) for every n, so the estimate is always large enough |
| Base58.AddByte | include/base58.hpp:125-133 | one round turns the value v of the cells into 256 v + byte although cells up to the watermark are skipped, and moves the watermark so that the cells below it are zero; the break at cell 0 drops no carry |
| Base58.ConvertBytes | include/base58.hpp:120-134 | the cells end up as base-58 digits with the value of the input bytes |
| Base58.B58Enc | include/base58.hpp:112-150 | writes one '1' per leading zero byte and the minimal base-58 expansion, then a NUL, exactly when they fit the capacity; reports the room needed either way and leaves the buffer alone on failure |
| Base58.DecodeEncoded | include/base58.hpp:35-150 | decoding the text of a byte string into a buffer of its size gives the bytes back, for every byte string |
| Base58.EncodeDecoded | include/base58.hpp:35-150 | encoding the decoded bytes gives a text back, if it fills its buffer, exactly when its leading '1's are fewer than 2^32 |
| Base58.B58Encode | include/base58.hpp:165-176 | returns the text when it has at most 138/100 characters per byte and the empty string otherwise |
| Base58Strings.EncodeSucceeds | include/base58.hpp:139-142 | b58encode succeeds exactly when the number is below 58 to the characters that the buffer has left after the leading '1's and the NUL |
| Base58Strings.ShortEncodeWitness | include/base58.hpp:168-175 | the single byte 255 is spelled "5Q", which fills its buffer of two and leaves no room for the NUL |
| Base58Strings.DecodeBufferHolds | include/base58.hpp:154 | 58^n < 256^(733 n / 1000 + 1) for every n |
| Base58Strings.TextFitsBuffer | include/base58.hpp:153-156 | b58decode never rejects a text over the alphabet for its size |
| Base58Strings.B58Decode | include/base58.hpp:153-163 | returns the trailing part of the buffer that the reported size covers, the empty string for other characters, and no result when the size exceeds the buffer |
| Base58Strings.DecodedStringIs | include/base58.hpp:153-163 | for every string: empty for other characters; no result exactly when the leading '1's, modulo 2^32, and the significant bytes of the number exceed the buffer; otherwise a zero byte per counted '1' and those bytes |
| Base58Strings.ManyOnesDecodeWitness | include/base58.hpp:154-160 | "1111" stands for four zero bytes but gets a buffer of three |
| Base58Strings.DecodedStringOfEncoded | include/base58.hpp:153-176 | b58decode gives back the encoded bytes exactly when the buffer it sizes from the text has room for them, leading zeros included, and the leading zeros are fewer than 2^32 |
| PublicKeys.FromBase58 | lib/solana.cpp:30-40 | accepts, rejects as not base 58, or rejects as of the wrong size, according to the part of the string before the first NUL |
| PublicKeys.Accepted | lib/solana.cpp:33-38 | a string is accepted exactly when that part is a text whose significant bytes and leading '1's, modulo 2^32, add up to 32; it is not base 58 exactly for other characters or more than 32 significant bytes, and otherwise of that wrong size |
| PublicKeys.KeyTextFits | lib/solana.cpp:46 | the buffer of b58encode has room for every 32-byte key |
| PublicKeys.ToBase58 | lib/solana.cpp:46 | toBase58 never fails and gives the canonical text of the key |
| PublicKeys.KeyRoundTrip | lib/solana.cpp:30-46 | fromBase58(toBase58(k)) == k for every key |
| PublicKeys.KeyTextInjective | lib/solana.cpp:46 | different keys have different texts |
| PublicKeys.TextRoundTrip | lib/solana.cpp:30-46 | toBase58(fromBase58(s)) == s for an accepted s exactly when s has no NUL and fewer than 2^32 leading '1's |
| PublicKeys.NulWitness | lib/solana.cpp:33 | 32 '1's and a NUL are accepted and come back without the NUL |
| PublicKeys.ManyOnesWitness | include/base58.hpp:48-57 | 2^32 + 32 '1's are accepted as the zero key |
| Base64.B64Encode | include/base64.hpp:20-42 | the written string is the padded encoding of section 4 of RFC 4648 |
| Base64.EncodedLength | include/base64.hpp:21 | the encoding takes four characters for every three bytes or part of three |
| Base64.Alphabet | include/base64.hpp:8-21 | encoding uses the alphabet of section 4 of RFC 4648 in its order, and '=' for padding |
| Base64.Indices | include/base64.hpp:11-18 | decoding reads '-' and '.' as '+', ',' and '_' as '/', and what else is not in the alphabet as 0 |
| Base64.Examples | include/base64.hpp:20-42 | three examples of section 10 of RFC 4648 |
| Base64.B64Decode | include/base64.hpp:44-70 | decodes every string on which it stays inside the string: whole groups, then the one or two bytes of the last group; the result has exactly the computed size |
| Base64.DecodeEncoded | include/base64.hpp:20-70 | b64decode(b64encode(x)) == x for every byte string |
| Base64.TextRoundTrip | include/base64.hpp:20-70 | b64encode(b64decode(s)) == s exactly for the padded canonical texts, among all strings that can be decoded |
| Base64.UnpaddedDecodes | include/base64.hpp:48-68 | for every byte string, its encoding without the padding decodes to it exactly when the length is not 2 modulo 4; otherwise to it and a zero byte |
| Base64.UnpaddedWitness | include/base64.hpp:48-68 | an instance of the second case: "QQ" decodes to "A" and a zero byte |
| Fixed.Align | include/fixedp.h:187-191 | doubling stops with the divisor above the numerator, or with both at 2^127, and without overflow, for all absolute values of 128-bit numbers |
| Fixed.Subtract | include/fixedp.h:193-201 | the Egyptian loop ends with the integer quotient and remainder |
| Fixed.LowBitsClose | include/fixedp.h:203-211 | the low bits are exact for remainders below 2^80 and off by at most one otherwise |
| Fixed.Divide | include/fixedp.h:155-222 | throws on zero and otherwise returns, for all 128-bit operands, the signed 128-bit quotient that is put together from the integer part and the low bits, negated in 128 bits; all three loops terminate |
| Fixed.DividedIs | include/fixedp.h:213-219 | that is the sum of the integer part and the low bits, less a lost carry, with its sign, cut to 128 bits once |
| Fixed.QuotientFitsIff | include/fixedp.h:213-219 | nothing is cut off exactly if the integer part has at most 79 bits, or the quotient is -2^127 |
| Fixed.DivideExact | include/fixedp.h:182-220 | for a remainder below 2^80 the quotient is the true one, rounded towards zero, exactly when it fits 128 bits |
| Fixed.DivideClose | include/fixedp.h:203-213 | for all operands the quotient is within one raw unit of the true one if and only if it fits 128 bits and the low bits do not carry into an odd integer part |
| Fixed.CarryLostCosts | include/fixedp.h:206-213 | a lost carry takes exactly a raw unit less than one off the size of the quotient |
| Fixed.CarryLostWitness | include/fixedp.h:206-213 | (2^81 + 1) / (2^80 + 1) comes out as 1 instead of just below 2 |
| Fixed.MulIsFloor | include/fixedp.h:256-268 | the four signed partial products add up to the product divided by 2^48, rounded down, for all operands |
| Fixed.MultipliedIsMul | include/fixedp.h:256-268 | in 128 bits, whatever the partial products do, the result is that floor wrapped around once: it is right exactly when the floor fits |
| Fixed.MulDoesNotOverflow | include/fixedp.h:256-268 | no intermediate result leaves 128 bits for factors below 2^(48+p) and 2^(48+q) with p + q <= 77 |
| Fixed.MulOfQuotient | include/fixedp.h:203-268 | multiplying an exact quotient by the divisor gives back the numerator, less at most the rounded-up size of the divisor in raw units |
| MangoHealth.GetHealthComponents | include/MangoAccount.hpp:61-129 | returns the worst-case position of every market and the quote total; it throws exactly when a market with open orders has a zero price |
| MangoHealth.GetHealthFromComponents | include/MangoAccount.hpp:130-152 | the quote plus the weighted value of every position |
| MangoHealth.GetWeightedAssetsLiabsVals | include/MangoAccount.hpp:164-194 | the weighted values of the positive positions, and those of the others with their sign turned |
| AccountMoves.PositionIsBalance | include/MangoAccount.hpp:50-53 | the position of a market without open orders is its deposits at the deposit index less its borrows at the borrow index, each rounded down |
| AccountMoves.QuoteIsBalance | include/MangoAccount.hpp:65 | the quote balance adds its deposits at their index less its borrows at theirs to the quote total, and touches no position |
| AccountMoves.QuoteFollowsBalance | include/MangoAccount.hpp:50-65 | depositing n and borrowing m units of the quote token moves the quote total by exactly n and m units at their indices and nothing else |
| AccountMoves.PositionFollowsBalance | include/MangoAccount.hpp:50-95 | the same for the position of a market without open orders |
| AccountMoves.ScenariosFollowBalance | include/MangoAccount.hpp:69-93 | with open orders, both scenarios of the market move like that |
| AccountMoves.FreeFunds | include/utils.hpp:8-17 | funds that no order locks count as they are in both scenarios, the quote with the referrer rebates, in 64 bits |
| AccountMoves.LockingBase | include/MangoAccount.hpp:76-93 | offering free base for sale changes nothing if all bids are executed, and sells it at the price if all asks are |
| AccountMoves.LockingQuote | include/MangoAccount.hpp:76-93 | bidding free quote changes nothing if all asks are executed, and takes it from the quote if all bids are |
| AccountMoves.BasketCounts | include/MangoAccount.hpp:72-96 | open orders count exactly if their market is in the margin basket and they are loaded under the text of their key |
| AccountMoves.FlatIsNothing | include/MangoAccount.hpp:98-124 | a perp account without position, orders and fills is worth nothing |
| AccountMoves.PerpFollowsOrders | include/MangoAccount.hpp:107-124 | each lot that is bid adds its base to the bids at the price and leaves the asks alone, and the other way round for asks |
| AccountMoves.PerpFollowsFills | include/MangoAccount.hpp:104-124 | fills that are not settled count in both scenarios, base and quote by their own lot sizes, and so does the quote position |
| AccountMoves.PerpFollowsFunding | include/utils.hpp:18-31 | a long position pays the rise of the long funding index on each lot, and a short one is paid that of the short index |
| AccountMoves.SettlingFills | include/utils.hpp:18-31 | with funding settled, taking fills into the position changes nothing |
| AccountMoves.PerpCounts | include/MangoAccount.hpp:98-127 | a perp account adds one of its two scenarios exactly if the key of its market is not all zeros |
| AccountMoves.OnlyOwnWeights | include/utils.hpp:39-58 | health, assets and liabilities of a type depend on no weights but those of the type, and with no type on none |
| AccountMoves.HealthFollowsSpot | include/MangoAccount.hpp:130-194 | a spot position adds its value at the price, rounded down, times the weight for its sign and the health type, rounded down, to the health, and to the assets if it is positive |
| AccountMoves.HealthFollowsPerp | include/MangoAccount.hpp:130-194 | the same for a perp position |
| AccountMoves.LiabsFollow | include/MangoAccount.hpp:164-194 | a debt adds its size at the price and the liability weight to the liabilities, and a positive position nothing |
| AccountMoves.HealthOfQuote | include/MangoAccount.hpp:130-178 | without positions the health is the quote, an asset or a liability by its sign |
| AccountMoves.LoneDebt | include/MangoAccount.hpp:130-152 | a lone debt of n units at a whole price p takes n p times the liability weight of the health type from the quote |
| HealthLaws.FormulationsAgree | include/MangoAccount.hpp:130-194 | assets - liabs is at least the health and at most the health plus, for each non-positive position, its rounded-up liability weight and one raw unit |
| HealthLaws.GetHealth | include/MangoAccount.hpp:153-160 | the health of the components, with the same error case |
| HealthLaws.GetHealthRatio | include/MangoAccount.hpp:195-205 | the 128-bit ratio of the weighted assets and liabilities, and 100 without liabilities |
| HealthLaws.RatioIsExact | include/MangoAccount.hpp:200-204 | the ratio is a hundred times the quotient less one exactly when that product fits 128 bits, where the quotient is the one before it is cut, and in any case that product cut to 128 bits |
| HealthLaws.RatioIsClose | include/MangoAccount.hpp:200-204 | it is that of the true quotient, up to a hundred raw units, exactly when the product fits and the division keeps its carry |
| HealthLaws.HealthImpliesRatio | include/MangoAccount.hpp:130-205 | with a non-negative health the ratio is non-negative and right, with no allowance for rounding and even when the division is lossy, exactly while the product fits, as it does for assets of up to (2^127 / 100) / 2^48 times the liabilities; its sign in the other cases is the top bit that is left of the product |
| HealthLaws.RatioOverflowWitness | include/MangoAccount.hpp:195-205 | a deposit worth 2^25 and a quote debt of one raw unit have a non-negative health and a negative ratio |
| HealthLaws.QuotientOverflowWitness | include/MangoAccount.hpp:195-205 | with a deposit worth 2^32 the quotient is cut to zero and the ratio is -100 |
| HealthLaws.InitAtMostMaint | include/MangoAccount.hpp:130-152 | if the Init weights are no more favourable than the Maint weights, Init health is at most Maint health, exactly and for every component vector |
| HealthLaws.IsLiquidatable | include/MangoAccount.hpp:207-213 | then an account is liquidatable exactly when its Init health, if it is being liquidated, or else its Maint health is negative |
| HealthLaws.ScenariosShareValue | include/MangoAccount.hpp:98-122 | both perp scenarios have the same unweighted value |
| HealthLaws.ContributionIs | include/MangoAccount.hpp:98-146 | with weights 1 - delta and 1 + delta a scenario contributes its value less the rounded-up share delta of its size |
| HealthLaws.PerpWorstIsWorst | include/MangoAccount.hpp:111-122 | the scenario chosen by comparing position sizes contributes no more than either of the two |
| HealthLaws.SpotWorstIsWorst | include/MangoAccount.hpp:76-93 | with weights 1 - delta and 1 + delta, a quotient that fits and keeps its carry, and doubles that find the larger of the two sizes up to a blur, the chosen spot scenario contributes no more than either, plus one or two rounded-up prices and the rounded-up share delta of a raw unit and the blur's value |
| HealthLaws.ExactSlack | include/MangoAccount.hpp:87 | without blur that allowance is one or two rounded-up prices and one raw unit |
| HealthLaws.HealthIsWorstCase | include/MangoAccount.hpp:61-160 | with symmetric perp weights, the health of an account is at most the health under any choice of executed side in every perp market, exactly, and under any choice of executed side in the spot markets up to the sum of those allowances |
| HealthLaws.SpotValueConserved | include/MangoAccount.hpp:76-93 | executing all asks instead of all bids changes the value of a spot position by 0 to one rounded-up price in raw units if the division is exact, and by at most one more price unit either way if it is lossy, exactly when the quotient of the locked quote and the price fits and keeps its carry |
| Wire.EncodeU16 | lib/solana.cpp:448-460 | appends the compact-u16 of the number, for all 16-bit numbers |
| Wire.ReadsCompactU16 | lib/solana.cpp:448-460 | the decoder returns n and k on a byte string exactly when the string starts with the encoding of n, of length k: the encoding is inverted and nothing but the shortest form is accepted |
| Wire.CompactU16PrefixFree | lib/solana.cpp:448-460 | no encoding is a prefix of another |
| Wire.CompactU16Examples | lib/solana.cpp:448-460 | the numbers at the ends of the three lengths |
| Wire.ReadsInstruction | lib/solana.cpp:462-489 | an instruction is read exactly from its serialization, provided its vectors are shorter than 65536 |
| Wire.LongVectorIsLost | lib/solana.cpp:462-465 | a vector of 65536 bytes is read back as empty |
| Wire.SerializeTo | lib/solana.cpp:553-570 | appends the serialization of the transaction to what the buffer held |
| Wire.Layout | lib/solana.cpp:553-570 | the parts of the bytes by their offsets: the signers, read-only signers and read-only non-signers of the header, the keys, the blockhash, and the instructions |
| Wire.ReadsMessage | lib/solana.cpp:553-570 | the parser returns a message and a rest exactly on the serialization of that message followed by that rest, so the format is uniquely decodable and every accepted input is a serialization |
| Wire.SerializationRoundTrip | lib/solana.cpp:553-570 | what is written is read back, whatever follows it, exactly when every vector is shorter than 65536 |
| Wire.SignTransaction | lib/solana.cpp:572-583 | the signed transaction is a count of one, the signature and the transaction |
| Wire.SentTransactionReadsBack | lib/solana.cpp:572-591 | the base64 text of a signed transaction decodes to its signature and message |
| Compile.MergeMetas | lib/solana.cpp:504-518 | the merged metas hold every key of the input once, with the union of its privileges |
| Compile.PermutedMerge | lib/solana.cpp:522 | whatever permutation the sort returns, it is still such a merge |
| Compile.OrderIffUnmixed | lib/solana.cpp:146-148 | operator< is a strict weak order on a vector exactly when it does not hold both a read-only signer and a writable non-signer |
| Compile.MixedIsNeverSorted | lib/solana.cpp:520-522 | a vector that holds both is sorted in no arrangement |
| Compile.StdSort | lib/solana.cpp:522 | a permutation, sorted if the comparator is a strict weak order: all that is assumed of std::sort |
| Compile.CountsDelimit | lib/solana.cpp:524-538 | in a sorted vector the three counts delimit the privilege tiers contiguously |
| Compile.PrivilegesAre | lib/solana.cpp:497-518 | merged, the payer signs and is writable, other accounts have exactly what some instruction lists, and running a program grants nothing |
| Compile.MeaningPreserved | lib/solana.cpp:470-483 | looking up the compiled indices restores an instruction exactly when its keys are among the first 256 accounts |
| Compile.FromInstructions | lib/solana.cpp:493-551 | the accounts are the payer and what the instructions list or run, each once; the header counts the tiers modulo 256; and without a mix of the middle tiers the header makes the payer a writable signer and gives every other account what some instruction lists, exactly when the signers, and the read-only accounts that do not sign, are fewer than 256 each |
| Compile.AllRestored | lib/solana.cpp:470-551 | with at most 256 accounts every compiled instruction restores the original program id, keys in order and data |
| Compile.TooManyAccounts | lib/solana.cpp:470-551 | with 258 accounts or more some instruction is not restored |
| Compile.CompiledReadsBack | lib/solana.cpp:470-570 | from instructions to bytes and back: the message read from the serialized transaction restores every instruction, has the blockhash, and its header grants the payer and the accounts the privileges that the instructions list |
| Session.Session.Subscribe | lib/websocket.cpp:66-74 | the request is in the callback map, all else in the maps is unchanged, and one subscription request is written |
| Session.Session.Unsubscribe | lib/websocket.cpp:78-94 | a known request loses the entry of its subscription and one request with the next id is written; an unknown one changes nothing |
| Session.Session.OnRead | lib/websocket.cpp:185-260 | confirmations, ends of subscriptions, notifications and other messages each have their whole effect on the maps and on the calls into user code; nothing happens when disconnected |
| Session.Session.GetCallback | lib/websocket.cpp:264-279 | the callback of the request that the subscription maps to, if both entries exist |
| Session.Subscriber.OnAccountChange | lib/solana.cpp:1113-1133 | every request gets the current id, which then advances by two, and the caller gets that id as an int |
| Session.Subscriber.RemoveAccountChangeListener | lib/solana.cpp:1137-1139 | unsubscribes the request that the value names as a 64-bit id |
| Session.IdSurvivesInt | lib/solana.cpp:1113-1139 | an id comes back unchanged through the int exactly when it is below 2^31 or within 2^31 of the limit |
| SessionRuns.StepKeepsInv | lib/websocket.cpp:66-279 | every step of client, server or reader keeps the agreement of the two maps, the messages under way and the calls made with the history |
| SessionRuns.HistoryIsTrace | lib/websocket.cpp:66-94 | the history kept in the states is what the steps of the run say |
| SessionRuns.NotificationReachesItsRequest | lib/websocket.cpp:246-301 | in every run a notification calls a callback exactly when some request with that callback was confirmed under its id and not unsubscribed since, and otherwise calls nothing |
| SessionRuns.MapsAreConsistent | lib/websocket.cpp:206-278 | in every reachable state an entry w to id has id in the callback map, subscribed as w, and no two entries share an id; the branch for a subscription without its request is never taken |
| SessionRuns.CalledAtMostOnce | lib/websocket.cpp:209-243 | in every run on_subscribe and on_unsubscribe are called at most once per request, with the callback that was given for that request, the first only after its confirmation and the second only after its unsubscription |
| SessionCalls.ConfirmationCalls | lib/websocket.cpp:222-243 | in every run, reading a confirmation calls the on_subscribe that the request was made with, once, or nothing if there is none |
| SessionCalls.HeldUntilAnswered | lib/websocket.cpp:66-221 | in every run a request is held from the step that makes it until an answer to its unsubscription is read |
| SessionCalls.AnswerCalls | lib/websocket.cpp:209-221 | in every run, reading the first answer to an unsubscription calls the on_unsubscribe that the request was made with, once, or nothing if there is none; further answers call nothing |
| SessionCalls.SubscriptionSent | lib/websocket.cpp:66-74 | making a request sends one message under its id |
| SessionCalls.UnsubscriptionSent | lib/websocket.cpp:78-94 | unsubscribing a confirmed request sends one message, with the next id and the subscription it was confirmed as, and nothing once that was answered |
| SessionRuns.IdsNeverCollide | lib/solana.cpp:1122-1130 | in every reachable state every subscription request and confirmation under way has an even id, and every unsubscription and its answer an odd one |
| SessionRuns.KeepsOthersIff | lib/websocket.cpp:78-94 | for arbitrary maps, unsubscribing a request leaves the entries of all others alone exactly when its ws_id has no entry or its own |
| SessionRuns.EarlyUnsubscribe | lib/websocket.cpp:78-94 | in every run that is so exactly when the confirmation of the request was read, or every request confirmed under the value of its ws_id has been unsubscribed |
| SessionRuns.EarlyUnsubscribeWitness | lib/websocket.cpp:84-88 | a run to a state in which unsubscribing an unconfirmed request erases the subscription of another |
| EarlyRuns.EntryIsLastEntered | lib/websocket.cpp:78-94 | in every run that unsubscribes at any time, a subscription maps to a request exactly when the confirmation of that request was the last step to enter or erase it |
| EarlyRuns.EarlyNotification | lib/websocket.cpp:246-301 | in every such run a notification calls a callback exactly when it is that of a request still held and last entered under its id |
| EarlyRuns.LateCallWitness | lib/websocket.cpp:78-94 | a run in which the only request is unsubscribed early and its callback is called all the same |
| Bits.Smear | lib/solana.cpp:113-118 | or-ing a number with itself shifted by t doubles the run of t ones at its top |
| Epochs.NextPowerOfTwo | lib/solana.cpp:108-120 | the smearing gives the least power of two up to 2^63, and 0 above it |
| Epochs.LeastPowerIsLeast | lib/solana.cpp:108-120 | that power is not below its argument, and no smaller power of two is |
| Epochs.TrailingZeros | lib/solana.cpp:99-106 | the loop computes the floor of the logarithm |
| Epochs.TrailingZerosOfPower | lib/solana.cpp:99-106 | that is the number of trailing zero bits exactly on the powers of two |
| Epochs.ShiftsFit | include/solana.hpp:129-147 | with a first normal epoch of at most 26 the int shifts do not overflow |
| Epochs.EpochLengths | include/solana.hpp:129-147 | epochs start at slot 0 with 32 slots and double until the first normal one, from which on all have the normal length |
| Epochs.EpochsTile | include/solana.hpp:129-148 | every epoch ends right before the next begins exactly when firstNormalSlot is 32 (2^firstNormalEpoch - 1) |
| Epochs.SlotIsCovered | include/solana.hpp:102-127 | the epoch and index found for a slot denote a place inside that epoch, and it is that slot |
| Epochs.EpochIsFound | include/solana.hpp:102-127 | the slot at any index of any epoch is mapped back to that epoch and index |

## Left out

- HTTP and JSON-RPC requests, JSON conversion, configuration structs, transaction polling and file loading: input and output.
- Key generation and signing: a signature is any 64 bytes.
- Connecting, the handshake and closing of the socket: the session starts connected or not, and messages arrive one by one. Each locked block is one atomic step.
- The double-based members of `MangoAccount` and `utils.hpp` (values in UI units, leverage, asset and liability values).
- `loadOpenOrders`: the map of open orders is an input, keyed by the text of the account key as in the code.
- The `to_double` comparison of the spot scenarios: the conversion is an arbitrary function parameter, so every law holds for any rounding; those about the worse spot scenario ask how far the comparison resolves two sizes.
- The multiply and divide overloads for types with a wider type, the bitwise and shift operators, and the remainder that `divide` computes and `operator/=` discards.
- The compound operators of `fixed`: they are modelled on raw values, without the update of `data_` in place.
- Packed structs, byte layouts, instruction builders and number printing.
- GetHealthComponents: sums and products of 64-bit quantities and sums of 128-bit raw numbers are unbounded integers, because the code assumes that they do not overflow; Fixed.MultipliedIsMul and Fixed.MulDoesNotOverflow cover single products, and HealthLaws.RatioIsExact the ratio.
- Divide: the negation of -2^127, undefined in C++, is taken to give -2^127 again.
- B58ToBin: an empty buffer is excluded, for which the source reads a limb that does not exist; the explicit length argument, which no caller uses, is not modelled.
- B64Decode: lengths of 1 modulo 4 are excluded unless the last but one character is padding, because the source then reads outside the string.
- SlotIsCovered: slots are below 2^53, so that the conversion to double is exact; 64-bit wrap-around of slot numbers is not modelled.
- EpochIsFound: restricted to slots below 2^53 in the same way.
- EpochsTile: ranges over all epochs in unbounded integers; 64-bit wrap-around is not modelled.
- StepKeepsInv: request ids stay below 2^64 and are unsubscribed by the id itself, not through the int that was returned; and one thread at a time makes requests, as the unlocked counter needs.
- OnRead: a callback that throws is not modelled; the source swallows the exception.
- TooManyAccounts: with exactly 257 accounts the outcome depends on whether the sort puts the payer last; Compile.MeaningPreserved decides each instruction.
