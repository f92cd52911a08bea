# Recto: models and proofs

Recto is a vault launcher and bootloader whose authority rests on owner phones, a passphrase and a signed membership
log. This project models the parts of it where a mistake would be costly and hard to see, and proves what they promise.
Each module follows one part of the program:

| module | what it models |
|---|---|
| GenesisChain, ChainProperties, ChainRules | the genesis membership chain: entries, replay, and what an accepted chain guarantees |
| SealMark | the high-water mark of a sealed chain, and the writer that moves it ahead of the chain |
| Quorum, GenesisAuthority | greedy attribution of signatures to members, k of n, the top-plane gate and tier 3 |
| CodeLimiter | the wrong-code limiter: queues, counters, a heap and sampled marks |
| OwnerReset | the host's owner reset, with a store that may fail at any write |
| Secp256k1, CurvePoints, PrimeOrderGroup, NumberTheory | curve addition, double-and-add, square roots and ECDSA key recovery |
| Rlp | RLP of the Ethereum Yellow Paper, appendix B |
| Bech32, BitGroups | bech32 and bech32m (BIP-173, BIP-350) and the regrouping of bits |
| Base58, StrKey, Digits, Alphabets | base58, base58check, Stellar StrKeys (SEP-0023), positional numerals and their letters |
| TypedData | EIP-712 struct dependencies and type strings |
| Clusters | the cluster lease registry |
| Supervisor | restart loop, backoff and health probe |
| Capability | manifests, resolved actions and the weight shown for a clause |

Loops and objects of the program are methods and classes here; each is proved against a function or a predicate on the
history, and the lemmas are about those.

Hashes and signatures of the membership chain are symbolic: a digest is a constructor over what was hashed and a
signature a constructor over a key, an algorithm and a message, so two different inputs never collide by construction.
The checksum of base58check is an arbitrary function to four bytes. The curve enters with its laws as a hypothesis,
`CurveGroup`: the field size and the group order are prime, addition is associative, and every point has that order.
That sums follow the chord or the tangent, stay on the curve and commute is proved (`CurvePoints`), and so is what of the
hypothesis is arithmetic on the curve's constants (`ConstantsFit`).

## Where the code and its promises part

- `next_delay` documents `min(i * 2 ** (attempt - 1), m)` for every attempt; past attempt 63 the code jumps to the cap.
  `ExponentialExactly` gives the exact condition, `ZeroJumps` the visible case.
- A base58check encoding of an empty payload is refused by the decoder (`CheckExactly`).
- `bech32_decode` accepts six data symbols, which are then both version and checksum; such an address does not re-encode
  (`SixSymbolsDoNotReencode`). `ReencodeExactly` says which accepted addresses do.
- `strkey_decode` does not look at the bits left over in the last symbol (`StrayBitAccepted`), and takes text that
  carries `=` padding of its own (`PaddingAccepted`). `ReencodeExactly` says which accepted texts re-encode to themselves.
- `recover_public_key` refuses every signature over a hash that is zero modulo the group order (`RecoverExactly`,
  `ZeroHashRefused`).
- `_encode_type` does not check the names it joins: with a space in a type two schemas have one type string
  (`SpacedTypesCollide`). `OneMeaning` says when it determines the schema.
- A sweep of the cluster registry shows exactly when an id it has written down is registered again: in the answer
  always, in a listing too unless the lease was negative (`SweepsShowExactly`, `NegativeLeaseHides`).

One bound is not a failure the code can meet: `RoundTripExactly` for RLP holds below payloads of 2^64 bytes, and
`OverlongString` says what the length prefix would do beyond.

## Model

| member | source | states |
|---|---|---|
| GenesisChain.ReplayState | recto/bootloader/genesis_chain.py:310-440 | the replay loop accepts exactly the chains, and yields exactly the state, of the step-by-step reading that the chain lemmas are about |
| GenesisChain.CheckAuthority | recto/bootloader/genesis_chain.py:343-371 | the checks before an entry's effect are those of the step that ChainRules.ExtendsExactly writes out |
| GenesisChain.Apply | recto/bootloader/genesis_chain.py:374-433 | an entry changes no seat but its own kind's; an add or reset is refused exactly for a key another member holds or a seat already taken, a removal exactly when it is not removable, a seal or rotation exactly for a malformed value; seats taken and a device once sealed are never forgotten |
| ChainProperties.HashPinsHistory | recto/bootloader/genesis_chain.py:225-238 | one entry hash shared by two accepted chains, at whatever positions, makes the chains equal up to that entry, signatures aside |
| ChainProperties.TamperEvidence | recto/bootloader/genesis_chain.py:328-341 | accepted chains with one tip hash have one length, agree in every field but signatures, and replay to states that agree |
| ChainProperties.EditIsSeen | recto/bootloader/genesis_chain.py:8-18 | no chain with an entry edited and a later entry left alone is accepted |
| ChainProperties.EffectIgnoresSignatures | recto/bootloader/genesis_chain.py:374-433 | what an entry does depends neither on its signatures nor on those of earlier members |
| ChainProperties.SignatureBindsHistory | recto/bootloader/genesis_chain.py:213-222 | a signature good in two accepted chains is over the same act, at the same place, under the same seal, after the same history |
| ChainProperties.AcceptedIsWellFormed | recto/bootloader/genesis_chain.py:389-396 | in every accepted prefix members stand under their own kind and hold pairwise different keys, and a seated device means one was sealed |
| ChainProperties.SatisfiedExactly | recto/bootloader/genesis_chain.py:570-580 | the kinds satisfied are exactly those of the members that signed, in any order and repetition |
| ChainProperties.ThresholdExactly | recto/bootloader/genesis_chain.py:583-606 | with a passphrase seated the threshold is the passphrase's signature and, once a device was ever sealed, that of a device seated now |
| ChainProperties.MajorityExactly | recto/bootloader/genesis_chain.py:561-567 | without a passphrase the threshold is a strict majority of the members, each counted once |
| ChainProperties.MajoritiesMeet | recto/bootloader/genesis_chain.py:635-647 | any two acts of such a set share a signer |
| ChainProperties.TwoFactorsStay | recto/bootloader/genesis_chain.py:397-426 | once passphrase and device are both seated, every longer accepted prefix seats both kinds of factor |
| ChainProperties.EveryActTakesBothFactors | recto/bootloader/genesis_chain.py:20-36 | from then on every accepted entry carries the then-current passphrase over its own act and a then-current device, or for a reset the fresh key over its bound challenge |
| ChainProperties.SealedOnce | recto/bootloader/genesis_chain.py:356-365 | the id is sealed at most once and never changes |
| ChainProperties.SeatedOnce | recto/bootloader/genesis_chain.py:382-388 | each reset intent seats each slot at most once in an accepted chain |
| ChainProperties.ReplayTells | recto/bootloader/genesis_chain.py:436-440 | the state returned is what the entries say: latest entry per kind unless it removes, latest rotation, intents of the resets |
| ChainProperties.SealIsTold | recto/bootloader/genesis_chain.py:427-429 | the sealed id and operator key are those of the seal entry, the key a point on secp256k1, and a device counts as ever sealed exactly when an entry seated one |
| ChainProperties.NeverEmpty | recto/bootloader/genesis_chain.py:415-420 | no accepted entry leaves the set without members |
| ChainProperties.Repair | recto/bootloader/genesis_chain.py:42-45 | the passphrase and a surviving device can extend an accepted chain to replace any other seat; only a key another member holds is refused |
| ChainRules.ExtendsExactly | recto/bootloader/genesis_chain.py:310-440 | an accepted chain is extended by an entry exactly when it names its place and its predecessor's hash and the rules, written out kind by kind and field by field, allow it; the first entry is an unsigned add |
| ChainRules.SealTakesDevice | recto/bootloader/genesis_chain.py:356-365 | in an accepted chain a seal comes after entry 0, once, with an owner phone seated, and carries a printable id |
| ChainRules.ResetIsBound | recto/bootloader/genesis_chain.py:609-632 | a reset comes after the seal, under the passphrase, with the fresh key's signature over a challenge that names its intent, and seats the phone of its slot |
| ChainRules.EntryIsSigned | recto/bootloader/genesis_chain.py:366-371 | every other later entry is signed by the passphrase, and by a device once one was ever sealed, or by a majority of a set without a passphrase |
| ChainRules.RemovalIsSafe | recto/bootloader/genesis_chain.py:397-426 | a removal never names the passphrase and leaves a member, and a device where one was ever sealed beside a passphrase |
| SealMark.MarkAdmitsExtensions | recto/bootloader/genesis_chain.py:502-516 | the plain mark of a sealed accepted chain passes another accepted chain exactly when that one continues it, and never trips over an index |
| SealMark.DeletedMark | recto/bootloader/genesis_chain.py:458-462 | with no mark recorded exactly the unsealed chains pass |
| SealMark.MalformedMark | recto/bootloader/genesis_chain.py:463-464 | an unreadable mark admits nothing, nor does one whose sides are unreadable or in flight |
| SealMark.PlainExactly | recto/bootloader/genesis_chain.py:502-516 | a plain mark, whoever wrote it, admits exactly the chains sealed under its id, at least as long as it says, with its tip at that length and its seal where it says |
| SealMark.InFlightExactly | recto/bootloader/genesis_chain.py:465-478 | a mark in flight admits what its new side admits or, unless reading that side raised, its old side; an empty side admits exactly the unsealed chains |
| SealMark.SealedBy | recto/bootloader/genesis_chain.py:443-450 | a chain is sealed exactly when a seal-id entry is on it, so the mark's search for it always finds one |
| SealMark.SafeAnswers | recto/bootloader/genesis_chain.py:482-499 | in every state of the invariant the check passes and the mark resolves to a flat mark of the chain itself |
| SealMark.Store.Append | recto/bootloader/state.py:2865-2926 | the append under a fault after any of its file writes leaves exactly the files, and the answer, of the transition the run lemmas are about |
| SealMark.AppendTells | recto/bootloader/state.py:2865-2926 | an append is refused without a write for an entry that does not replay or a chain that has fallen behind; it answers exactly when the longer chain is on disk, never before a sealed candidate's mark is, and three writes complete it |
| SealMark.Store.Settle | recto/bootloader/state.py:2804-2823 | settling never changes the chain nor what the mark resolves to; when it succeeds no mark is left in flight, and it fails only for a faulty write or a chain that has fallen behind |
| SealMark.Store.Read | recto/bootloader/state.py:2825-2836 | the state is given only for a chain that replays and has not fallen behind its mark, and without a mark only for a chain that is not sealed |
| SealMark.EveryRunAnswers | recto/bootloader/genesis_chain.py:453-500 | over every run of appends and restarts, each cut off anywhere, the chain passes its mark, the mark resolves to a flat one, and the chain only grows |
| SealMark.CommittedIsPinned | recto/bootloader/state.py:2908-2926 | after a complete append a swapped-in chain passes exactly when it continues the whole committed chain |
| SealMark.NeverRolledBack | recto/bootloader/genesis_chain.py:453-459 | over every run, once a sealed chain's own mark stands on disk, no later append or restart, wherever it is cut off, lets another accepted chain pass that does not continue the chain as it was then |
| SealMark.RemovalIsSeen | recto/bootloader/genesis_chain.py:458-462 | over every run, with its mark removed the chain is read exactly when nothing on it was ever sealed |
| Quorum.Attribute | recto/quorum.py:152-175 | the two nested loops compute the greedy attribution and the number of unmatched signatures |
| Quorum.Conservation | recto/quorum.py:152-182 | members satisfied plus signatures unmatched is the number of signatures |
| Quorum.Exact | recto/quorum.py:165-175 | when no signature is good for two members, the result is exactly the members some signature is good for |
| Quorum.OrderFree | recto/quorum.py:121-123 | then order and repetition of signatures do not matter |
| Quorum.OrderMatters | recto/quorum.py:168-173 | a key shared by two members makes the order of signatures change the result |
| Quorum.VerifyQuorum | recto/quorum.py:92-182 | an error exactly for a k no signatures could meet; otherwise met exactly when k members are satisfied, each by a non-empty signature its verifier accepted without raising, and by any such signature when no two members share one |
| Quorum.QuorumNeedsSigners | recto/quorum.py:168-175 | a quorum of k takes k signatures and k different members with an accepted signature each |
| GenesisAuthority.VerifyTopPlane | recto/bootloader/genesis_authority.py:145-182 | an error exactly when no passphrase or no device is sealed or one of them has an unsupported algorithm; otherwise who is satisfied and whether the gate is met |
| GenesisAuthority.GateExactly | recto/bootloader/genesis_authority.py:165-182 | the gate's answer depends on exactly who signed |
| GenesisAuthority.GateAgreesWithChain | recto/bootloader/genesis_authority.py:155-182 | with both factors seated the gate is met by exactly the signatures the chain's threshold admits |
| GenesisAuthority.VerifyTier3 | recto/bootloader/genesis_authority.py:185-197 | an error exactly when the set is empty, unusable or too small for k; otherwise satisfied by exactly the members that signed |
| CodeLimiter.CodeAttemptLimiter.Trim | recto/bootloader/owner_slots.py:117-136 | trimming leaves nothing due in any queue and every structure standing for the untrimmed history; over the whole life of the limiter the pops are at most two a failure and one a mint or spend, and at most 61 marks are kept |
| CodeLimiter.CodeAttemptLimiter.Blocked | recto/bootloader/owner_slots.py:155-160 | blocked exactly when a scan of every failure ever recorded finds the limit in the window |
| CodeLimiter.CodeAttemptLimiter.RecordFailure | recto/bootloader/owner_slots.py:174-192 | a public failure joins the history and every structure keeps standing for it; a private one changes nothing |
| CodeLimiter.CodeAttemptLimiter.Stamp | recto/bootloader/owner_slots.py:193-200 | a mint joins the history with the failures seen and the time it is forgotten, re-stamping included |
| CodeLimiter.CodeAttemptLimiter.Exposed | recto/bootloader/owner_slots.py:202-214 | a remembered code is exposed by exactly the failures since its mint; any other by at least those since any moment of the last hour and by none older than an hour and a minute |
| CodeLimiter.CodeAttemptLimiter.RecordSpent | recto/bootloader/owner_slots.py:216-220 | a spend joins the history and every structure keeps standing for it |
| CodeLimiter.CodeAttemptLimiter.WasSpent | recto/bootloader/owner_slots.py:222-225 | spent exactly when a scan of every spend ever recorded finds one in the last hour |
| CodeLimiter.WindowCounted | recto/bootloader/owner_slots.py:117-125 | the bucket counts over the trimmed queue equal a count over the whole history's window |
| CodeLimiter.SampledBound | recto/bootloader/owner_slots.py:126-128 | counting from the oldest mark is at least the failures since any moment of the last hour and at most those of the last hour and a minute |
| CodeLimiter.StampLive | recto/bootloader/owner_slots.py:129-132 | once nothing is due, a stamp is there exactly when the code's latest mint is not forgotten |
| CodeLimiter.LastSpendIs | recto/bootloader/owner_slots.py:133-136 | remembering only a code's latest spend answers for all of them |
| CodeLimiter.MarksFew | recto/bootloader/owner_slots.py:126-128 | after a trim at most 61 marks are kept |
| OwnerReset.Store.OwnerReset | recto/cli.py:1358-1476 | the command on a store that fails after any number of writes leaves exactly the store and the report of the transition that CutByCut, ReportTells and RefusedExactly are about |
| OwnerReset.Store.RemoveEveryTarget | recto/cli.py:1457-1476 | the removal loop, phone by phone, with its progress record |
| OwnerReset.Store.VoidOwnerEnrollsFor | recto/bootloader/owner_slots.py:233-248 | the requests that name a phone are refused one write at a time |
| OwnerReset.RefuseIs | recto/bootloader/owner_slots.py:233-248 | refusing touches only requests that name the phone, only ever refuses, and leaves none of them open if it gets through |
| OwnerReset.ConfirmsExactly | recto/cli.py:1448-1455 | the confirm check passes exactly when every owner row is named, no item repeats and every item names a row |
| OwnerReset.RemoveFromIs | recto/cli.py:1457-1476 | wherever the loop stops, the owners left are the targets not reported removed, genesis is closed unless it finished, and every removed phone's requests are refused |
| OwnerReset.RemoveLastIs | recto/cli.py:1383-1426 | the single removal is refused exactly when the phone is not the one owner there is in that slot, or genesis is not to be reopened |
| OwnerReset.EveryCutKeeps | recto/cli.py:1284-1287 | every path and every cut keeps open genesis meaning no owner phone, leaves members alone, and never removes a phone before its requests were refused |
| OwnerReset.CutByCut | recto/cli.py:1284-1287 | phone by phone and request by request, wherever it was cut off: no phone is added, one in neither owner slot stays, one that is gone has no open request that mentions it, and only requests that mention an owner phone are ever refused |
| OwnerReset.ReportTells | recto/cli.py:1310-1348 | what the report of a failure says is what happened: closed exactly when a write landed, the phones removed and the owners left are the owners there were, the phone in removal is the first one left, and the step it stopped in tells whether every request naming it was refused |
| OwnerReset.RefusedExactly | recto/cli.py:1358-1456 | which commands are carried out, the rest being refused without a write |
| OwnerReset.PastedRef | recto/cli.py:1201-1204 | white space anywhere in a pasted ref makes no difference, and nothing else is left out |
| OwnerReset.RerunFinishes | recto/cli.py:1329-1334 | after a failed removal the refs reported are those of the rows left; the printed command, joined with commas, split and stripped again, is accepted and empties the slots |
| OwnerReset.ReopenFinishes | recto/cli.py:1340-1345 | when only the reopening failed, the reopening alone finishes |
| CurvePoints.AddNeverRaises | recto/ethereum.py:218-236 | on the curve no inverse is ever missing |
| CurvePoints.SumExactly | recto/ethereum.py:218-236 | the sum of two points that are not opposite is the one point that satisfies the line equations of a chord or tangent through them |
| CurvePoints.SumOnCurve | recto/ethereum.py:218-236 | sums stay on the curve |
| CurvePoints.SumCommutes | recto/ethereum.py:218-236 | addition commutes |
| Secp256k1.GroupLaws | recto/ethereum.py:218-236 | with associativity and the order assumed, the points form a commutative group |
| Secp256k1.EcMul | recto/ethereum.py:239-253 | double-and-add is k-fold addition, for zero and negative k too |
| Secp256k1.YFromXExactly | recto/ethereum.py:256-267 | a number comes back exactly when it is a root of the parity asked for, or the root zero |
| Secp256k1.RecoverPublicKey | recto/ethereum.py:352-400 | recovery with the fast multiplication equals recovery with k-fold addition |
| Secp256k1.NamedExactly | recto/ethereum.py:364-381 | a signature names a point exactly when it has 65 bytes, both numbers lie from 1 to n - 1, the last byte is 0, 1, 27 or 28, and the first number is the x-coordinate of a curve point of the parity that byte says |
| Secp256k1.RecoverExactly | recto/ethereum.py:352-400 | 64 bytes come back exactly when they spell a curve point under which the signature verifies with the point it names, the hash has 32 bytes, and it is not zero modulo the order |
| Secp256k1.RecoverSigner | recto/ethereum.py:352-400 | a signature made with nonce k and key d gives back d times the base point |
| Secp256k1.ZeroHashRefused | recto/ethereum.py:385-391 | over a hash that is zero modulo the order such a signature verifies under the key and is refused |
| Secp256k1.ConstantsFit | recto/ethereum.py:206-209 | the arithmetic part of the hypotheses holds of the curve's constants |
| NumberTheory.PrimeInverse | recto/ethereum.py:212-215 | modulo a prime the inverse exists exactly for numbers that are not multiples of it |
| Rlp.RlpDecodeList | recto/ethereum.py:750-758 | the cursor loop meets the recursive reading of a list |
| Rlp.DecodeAt | recto/ethereum.py:705-747 | decoding where an encoding stands gives the item back and stops right behind it |
| Rlp.RoundTripInContext | recto/ethereum.py:648-758 | the same with any bytes before and after |
| Rlp.RoundTripExactly | recto/ethereum.py:648-702 | the round trip holds for exactly the items whose payloads are below 2^64 bytes |
| Rlp.OverlongString | recto/ethereum.py:675-687 | a longer string never comes back as a string |
| Rlp.PrefixFree | recto/ethereum.py:648-672 | no encoding is a proper prefix of another |
| Rlp.Reencode | recto/ethereum.py:690-702 | whatever is accepted re-encodes to no more bytes, to the same item, and to as many only when it was that encoding |
| Rlp.DecodesExactly | recto/ethereum.py:690-758 | bytes decode to an item exactly when they spell it in the grammar of prefixes and lengths, shortest form or not |
| Rlp.TrailingRefused | recto/ethereum.py:700-701 | whatever decodes is refused with any byte behind it |
| Rlp.ShortestSpelling | recto/ethereum.py:648-672 | of all the spellings of an item the encoder writes the one shortest one |
| BitGroups.ConvertBits | recto/bitcoin.py:442-463 | the accumulator loop cuts the stream of bits as its definition on numbers says |
| BitGroups.PadThenCut | recto/bitcoin.py:442-463 | bits cut finer with padding and cut back are unchanged |
| BitGroups.CutThenPad | recto/bitcoin.py:456-462 | values accepted without padding come back when cut finer again |
| Bech32.Bech32Polymod | recto/bitcoin.py:409-418 | the two loops compute the register of the definition |
| Bech32.HrpExpandIs | recto/bitcoin.py:421-422 | a prefix enters the checksum as the high parts of its characters, a zero, and their low five bits |
| Bech32.FoldInjective | recto/bitcoin.py:409-418 | two registers that differ still differ after the same values |
| Bech32.SymbolsEnter | recto/bitcoin.py:425-428 | the last six symbols enter by plain XOR |
| Bech32.ReadSymbols | recto/bitcoin.py:497-502 | the reading loop gives the symbols of the text, or an error at the first character outside the set |
| Bech32.ChecksumExactly | recto/bitcoin.py:425-439 | six symbols complete a checksum exactly when they are the computed ones |
| Bech32.BurstChanges | recto/bitcoin.py:409-418 | any change within six neighbouring symbols changes the register, at any length |
| Bech32.BurstRefused | recto/bitcoin.py:482-517 | an accepted address so changed is refused while it stays under the same constant |
| Bech32.RoundTripExactly | recto/bitcoin.py:466-517 | encoding succeeds exactly for versions 0 to 16, and decoding then inverts it for exactly the addresses with a prefix that are their own lower case and at most 90 characters, and version-0 programs of 20 or 32 bytes |
| Bech32.AsciiPrefix | recto/bitcoin.py:489-491 | an address with an ASCII prefix is its own lower case exactly when the prefix has no capital |
| Bech32.ReadExactly | recto/bitcoin.py:486-502 | exactly these addresses are read: one case, 1 to 90 characters, a prefix, the last separator, and at least six characters of the set behind it |
| Bech32.DecodesExactly | recto/bitcoin.py:503-517 | what is accepted, and as what: the version first, the register at the constant of that version, the rest regrouped to the program, and 20 or 32 bytes under version 0 |
| Bech32.MixedCaseRefused | recto/bitcoin.py:489-491 | an ASCII address with letters of both cases is refused |
| Bech32.ReencodeExactly | recto/bitcoin.py:482-517 | an accepted address re-encodes to its lower case exactly when its version is at most 16 and it has a data symbol besides the checksum |
| Bech32.SixSymbolsDoNotReencode | recto/bitcoin.py:500-517 | an accepted address that does not |
| Base58.DivmodDigits | recto/solana.py:119-141 | the divmod loop writes the shortest numeral |
| Base58.Base58Encode | recto/solana.py:119-141 | leading zero bytes and the divmod loop together spell the base change of the definition |
| Base58.Base58Decode | recto/solana.py:144-176 | so does the accumulating loop of the decoder, with its refusal |
| Base58.TranscodeInverse | recto/solana.py:119-176 | changing the base and back loses nothing, leading zeros included |
| Base58.DecodeEncode | recto/solana.py:119-176 | decoding inverts encoding on all bytes |
| Base58.EncodeDecode | recto/solana.py:144-176 | exactly the strings over the alphabet decode, each the encoding of what it decodes to |
| Base58.SolanaLength | recto/solana.py:179-192 | a 32-byte key spells 32 to 44 characters |
| Base58.SolanaAddress | recto/solana.py:195-208 | an address is accepted for a key exactly when it is that key's |
| Base58.CheckExactly | recto/tron.py:145-217 | a text is accepted for a payload exactly when it is its encoding and the payload is not empty |
| Base58.TronShape | recto/tron.py:225-250 | 21 bytes that start with 0x41 spell 34 characters starting with T, whatever the checksum |
| StrKey.Crc16Xmodem | recto/stellar.py:121-138 | the two loops compute the checksum of the definition |
| StrKey.PairChanges | recto/stellar.py:121-138 | any change within two neighbouring bytes changes the checksum, at any length |
| StrKey.OneByteRefused | recto/stellar.py:190-201 | a StrKey with any one byte of version, payload or checksum changed is refused |
| StrKey.PairRefusedExactly | recto/stellar.py:190-201 | with any two neighbouring bytes changed it is refused, wherever they stand, but for one pair of differences across the border between payload and checksum |
| StrKey.MaskedPairAccepted | recto/stellar.py:190-201 | that pair does occur |
| StrKey.RoundTrip | recto/stellar.py:146-201 | every version byte and payload comes back |
| StrKey.ReencodeExactly | recto/stellar.py:173-201 | accepted text re-encodes to itself, outer white space aside, exactly when it carries no padding of its own and its left-over bits are zero |
| StrKey.StrayBitAccepted | recto/stellar.py:173-201 | accepted text with a stray bit, which re-encodes to another text |
| StrKey.PaddingAccepted | recto/stellar.py:183-189 | accepted text with padding and no stray bit, which re-encodes without the padding |
| StrKey.AccountShape | recto/stellar.py:209-219 | an account key spells 56 characters and starts with G |
| TypedData.Walk.Visit | recto/ethereum.py:521-543 | the walk with its shared set terminates on every schema, adds only what the type reaches, and leaves the new part closed |
| TypedData.FindTypeDependencies | recto/ethereum.py:521-543 | the result is exactly the struct types reachable from the base |
| TypedData.EncodeType | recto/ethereum.py:502-518 | the primary type first, then everything else it reaches in ascending order, each once; an error exactly for an unknown primary type |
| TypedData.OneListing | recto/ethereum.py:509-511 | a set has one sorted listing |
| TypedData.BelowExactly | recto/ethereum.py:511 | the order of names is the dictionary order: a proper prefix first, and otherwise the first difference decides |
| TypedData.TypeRead | recto/ethereum.py:512-522 | a type string reads back as the structs it was built from, every field with first its type and then its name, in order |
| TypedData.OneMeaning | recto/ethereum.py:512-522 | schemas that spell their structs alike name the same structs with the same fields |
| TypedData.SpacedTypesCollide | recto/ethereum.py:518-521 | nothing checks the names: with a space in a type two schemas spell alike |
| TypedData.FieldOrderFree | recto/ethereum.py:502-543 | dependencies do not depend on the order or repetition of fields |
| Clusters.ClusterRegistry.DoRegister | recto/bootloader/clusters.py:181-222 | refused exactly for a misspelled name or an id stored as active, and then nothing changes; otherwise the record has the lower-cased names, reads as active for exactly its lease, stands under this token, and no other record changes |
| Clusters.ClusterRegistry.DoRetire | recto/bootloader/clusters.py:260-269 | refused exactly for an unknown id or another token, and then nothing changes; otherwise the record reads as retired at every later moment and no other record changes |
| Clusters.ClusterRegistry.DoHeartbeat | recto/bootloader/clusters.py:224-258 | refused exactly for an unknown id, another token or a retired record, and then nothing changes; otherwise the lease runs anew, what was sent is merged in, what was not is kept, and no other field or record changes |
| Clusters.ClusterRegistry.DoReap | recto/bootloader/clusters.py:271-283 | the sweep marks and reports exactly the lapsed active records, which then read as orphaned at any time, and changes nothing else |
| Clusters.ListingShows | recto/bootloader/clusters.py:78-97 | a listing has every record, tells nothing of any token, and shows each as stored but for a lapsed lease |
| Clusters.ValidExactly | recto/bootloader/clusters.py:197-199 | a name is valid exactly when something is left of it without its dashes and that is letters and digits only |
| Clusters.LeaseHolds | recto/bootloader/clusters.py:78-91 | an accepted registration or heartbeat reads as active for exactly the length of the lease, and touches no other record |
| Clusters.OnlyTheTokenActs | recto/bootloader/clusters.py:224-232 | over any run, renewing or retiring takes the token that an accepted registration of that id handed out |
| Clusters.SweepsAreInvisible | recto/bootloader/clusters.py:78-91 | erasing every sweep from a run without such a registration leaves every later listing as it was, whatever the leases |
| Clusters.SweepsShowExactly | recto/bootloader/clusters.py:78-91 | over every ordered run, every operation is answered as in the run without its sweeps exactly when no accepted registration meets an id written down as orphaned; every listing then agrees too, and with leases that are not negative some listing differs otherwise |
| Clusters.ReRegistrationTells | recto/bootloader/clusters.py:201-202 | such a registration is accepted after a sweep and refused without one, and unless the lapsed lease was negative the listings differ at once |
| Clusters.NegativeLeaseHides | recto/bootloader/clusters.py:201-222 | with a negative lease every listing may agree although a swept id is registered again |
| Clusters.RetiredStays | recto/bootloader/clusters.py:234-283 | a retired record stays retired until its id is registered again |
| Supervisor.ExponentialCurve | recto/restart.py:121-134 | the documented curve holds for a first delay of a second or more and a cap up to 2^63 |
| Supervisor.ExponentialExactly | recto/restart.py:121-134 | in general it holds exactly up to attempt 63, or where the curve has reached the cap |
| Supervisor.ZeroJumps | recto/restart.py:121-134 | with no first delay the curve stays at zero for 63 attempts and then jumps to the cap |
| Supervisor.DelaysRise | recto/restart.py:106-141 | delays never shrink and never pass the cap |
| Supervisor.DelayExactly | recto/restart.py:106-141 | a limit of N refuses exactly the attempts after the N-th, and any other is delayed by its documented curve or the cap, whichever is less |
| Supervisor.LastExactly | recto/_launcher_run.py:109-134 | where a run ends, policy by policy |
| Supervisor.TraceTells | recto/_launcher_run.py:94-147 | what a run logs, event by event, with the numbers, delays and exit codes |
| Supervisor.Supervise | recto/_launcher_run.py:94-147 | the loop's trace is the rounds before the first exit that stops it, that exit, and one terminal event |
| Supervisor.RunIsBounded | recto/_launcher_run.py:94-147 | with N attempts the run ends after at most N+1 spawns, with a sleep between each two, one terminal event and rising delays |
| Supervisor.HealthzProbe.Tick | recto/healthz.py:192-205 | the restart flag is up exactly when the threshold of consecutive failures was ever reached |
| Supervisor.OneMoreTick | recto/healthz.py:199-204 | one tick completes a run of failures exactly when the history then ends in one |
| Capability.LoadManifest | recto/capability/manifest.py:55-102 | loading succeeds exactly on a well-shaped manifest and yields one whose groups name only known actions |
| Capability.ResolveActions | recto/capability/manifest.py:110-154 | refused exactly for a version mismatch or an unknown name; otherwise everything mentioned and not denied |
| Capability.EvaluateScope | recto/capability/manifest.py:157-207 | permitted exactly when the clause was written for this manifest and fits it, allows the action by name or by a group, and neither it nor the parent profile denies it |
| Capability.ClauseWeightBreakdown | recto/capability/manifest.py:215-310 | refused for exactly the clauses that do not resolve; otherwise the total weighs every mention, and every weight shown is the sum of the lines under it |
| Capability.LinesAddUp | recto/capability/manifest.py:268-310 | every weight shown is the sum of the lines under it, and the lines are the actions in order with the manifest's counts |
| Capability.NeverReadsLow | recto/capability/manifest.py:242-257 | the weight of all mentions is at least that of the resolved set, and equal exactly when every repeated or denied mention weighs nothing |
| Capability.ShownAgainstResolved | recto/capability/manifest.py:242-257 | so the total shown is never below the weight of what is granted |

## Left out

- Real hash functions, Ed25519 and P-256 verification, key decoding and the second payload form a phone signature may
  use: signatures and digests are symbolic. A key's validity checks in `build_entry` are not part of the model.
- The JSON text of signed bytes and metas: the structured record is what is hashed, and a meta carries its text together
  with what the reset reader and the seal reader make of it. Intent ids and slots that are not strings are not modelled.
- Parsing of hexadecimal signatures: the models start from the bytes.
- Text arguments of `rlp_encode` stand for their UTF-8 bytes; Python's recursion limit is not modelled.
- Unicode case mapping, white-space trimming and the class of letters and digits are parameters of the bech32, StrKey
  and cluster models.
- SealMark.Store.Append: a fault is a write that does not happen; a torn file is not modelled, since files are replaced
  whole.
- CodeLimiter.CodeAttemptLimiter.Stamp: the heap is the sequence of its entries by due time; its array layout is not
  modelled. The alert log lines, the refusal counter behind them, and the parsing of addresses into buckets are left out.
- CodeLimiter.CodeAttemptLimiter.Trim: clock readings never go back; a host clock that is set back is not modelled.
- OwnerReset.Store.VoidOwnerEnrollsFor: the withdrawal of approval cards, sessions and queues, and the expiry of requests
  are left out; so is the database store, where a failed write may still have landed.
- Secp256k1.RecoverExactly: associativity, the order of the points and the primality of the two constants are
  hypotheses.
- Supervisor.Supervise: delays are exact numbers, so rounding and overflow of floats are not modelled; a run that no exit
  ever stops is outside the method, as it never returns.
- Clusters: the order of listings, the written files and the projection's time stamps.
- Capability: tiers, ceilings and rate limits, which are copied through.
- TypedData: hashing of values and structs; ABI encoding of single values.
- HTTP, sockets, argument parsing, printing, service managers and the database store.
