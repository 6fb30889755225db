# Verified models of dcrd's protocol components

This project models five self-contained parts of dcrd, the Decred full node, in
Dafny and proves what they promise for every input, every run or every reachable
state. `dafny verify dfyconfig.toml` verifies all of it.

- **StakeShuffle** (`Field`, `Newton`, `SlotReservation`, `DcNet`, `MixPads`,
  `KeyAgreement`, `MixKeys`, `MixSession`, `MixRun`). A mixing session: each pair of messages shares secrets, the pads
  derived from them cancel when all participants' vectors are combined, what is
  left of the slot reservation is a vector of power sums, and Newton's identities
  turn those into a polynomial whose roots are exactly the messages. The chain is
  closed end to end in `MixRun.RunSession`, which starts from key pairs, lets every
  peer run the key exchange and publish its vectors, and ends with the recovered
  roots and slots. What each participant publishes is pinned on its own: every pad,
  and every input of the generators the secrets come from.
- **Golomb-coded set filters** (`BitLists`, `BitStream`, `VarInt`, `Golomb`, `Gcs`,
  `GcsContent`, `GcsQuery`, `GcsSize`, `GcsWorst`). The bit writer and reader with their whole-byte fast paths
  refine a list of bits; on top of that a filter depends on its set of hashes only
  and counts that set, its queries are characterised exactly, serialized filters read back, and the size formula is the maximum, with
  the exact condition under which it bounds every filter when its arithmetic wraps.
- **Bech32** (`Bech32Checksum`, `Bech32Poly`, `Bech32`, `Bech32Errors`, `Bech32RoundTrip`,
  `Bech32Burst`, `BitRegroup`, `Base256`).
  The residue is the remainder of the expanded prefix and the data modulo a polynomial
  of degree six over GF(32), as BIP 173 defines the code. The step is linear over GF(2)
  and injective, which gives uniqueness of the checksum and detection of every burst of
  up to six symbols, in the prefix or the data; decoding and encoding are inverse, and regrouping bits preserves the bit stream.
- **Address manager** (`AddrState`, `AddrSteps`, `AddrOps`, `AddrGood`, `AddrRuns`,
  `AddrOverfull`, `AddrEntries`, `AddrHistory`, `AddrManager`, `AddrSelect`, `AddrPersist`,
  `AddrFile`, `AddrLoad`, `AddrRoundTrip`). Index, buckets, reference counts, statistics
  and totals agree after every run of operations, no run panics, and what is recorded of
  an address is what its history says; selection never meets a missing entry and ends;
  saving and loading restores the manager.
- **getdata flow control** (`GetData`, `GetDataRuns`, `GetDataLookups`). The input handler, the serving
  goroutine and the asynchronous sender as a state machine of atomic steps, with
  properties of every interleaving: no expected-not-to-wait action waits, the
  pending counter is exact, requests are answered once and in order and as the lookups
  say, and serving ends.

Code that works by changing things is modelled by methods, loops and classes, each
proved equal to a function of its inputs or of the old state; the properties are
then proved of those functions.

## Conventions

- Hashes, random generators, ECDH and the key encapsulation are parameters. The mixing
  theorems assume of them only that both sides of an exchange agree (`MixRun.Agree`:
  ECDH is symmetric, decapsulation inverts encapsulation). The modulus is any prime above the number of messages.
- Random numbers are parameters: a stream of draws, reduced to the range asked for.
  So are clocks (a time for each moment one is read) and the order in which Go ranges
  over a map (any enumeration of its keys).
- Fixed-width arithmetic is written out: 64-bit words in the filters, 16-bit bucket
  statistics and the 32-bit pending counter wrap in the model as in the code.
- An operation of the address manager is defined on every state and may panic: on a
  random draw from an empty range, an index out of range, or a bucket's key that has
  no entry. A run is any sequence of operations from a new manager; the invariant is
  proved of runs and is no part of what a run is.
- In the address manager a bucket holds keys and the index holds the one entry of each
  key, where the program shares pointers to it.

## Where the code departs from what it is meant to do

- `MatchAny` bounds its search by the number of query items but searches only the
  non-empty ones. `GcsQuery.MatchAnyRunsOutOfRange` is an input on which it indexes
  out of range, and `GcsQuery.MatchesAnyWithEmptyItems` says exactly when it does.
- The new-bucket check is `>`, so a new bucket can hold 65 addresses where the maximum is
  64. `AddrOverfull.OverfullReachable` reaches such a bucket, and `AddrOverfull.AddOverfull`
  says exactly when an addition leaves one.
- `MaxFilterV2Size` computes in 64 bits. Without overflow it is the maximum it is meant to
  be (`GcsWorst.FormulaIsMaximum`). With overflow it can fall below the size of a filter,
  for a zero modulus factor (`GcsSize.FormulaCanWrap`) and for a large one
  (`GcsWorst.OverflowFails`). `GcsWorst.FitsIff` says for which parameters it bounds every
  filter, and `GcsWorst.ZeroFactor` spells that out for a zero modulus factor.
- `reset` leaves `nNew` and `nTried` alone, so a failed load can leave an empty manager
  that still counts addresses: `AddrFile.TotalsLeftOver`. `AddrPersist.FailedLoad` says
  exactly for which files.
- Loading takes the time an address was last seen and its services from parsing the
  key, not from the saved entry; `AddrRoundTrip.LoadOfSave` states what is restored.
- A requested item of unknown type stays counted for ever: `GetDataRuns.UnknownTypeLeaks`.
  `GetDataRuns.PendingExact` states that this is the only inexactness.

## Model

| member | source | states |
|---|---|---|
| `Field.InverseExists` | mixing/dcnet.go:116-133 | modulo a prime every smaller positive number has the inverse that ModInverse computes, so the recurrence never divides by a missing one |
| `Field.NoZeroDivisors` | mixing/field.go:11-21 | modulo a prime a product vanishes only with one of its factors |
| `Newton.NewtonIdentity` | mixing/dcnet.go:100-133 | Newton's identities over the integers: i times the i-th coefficient is minus the convolution of lower coefficients and power sums, for every list of messages and every i |
| `Newton.RootPolyFactors` | mixing/dcnet.go:100-147 | the polynomial with those coefficients is minus the product of the (x - m) |
| `Newton.ProductZero` | mixing/dcnet.go:137-147 | that product vanishes modulo a prime exactly at the messages |
| `SlotReservation.Coefficients` | mixing/dcnet.go:116-133 | the in-place loop computes the reduced recurrence whenever the inverses exist |
| `SlotReservation.CoefficientsAreRootPoly` | mixing/dcnet.go:100-133 | on power sums of fewer messages than the prime, the recurrence yields exactly the coefficients of minus the product of (x - m), reduced |
| `SlotReservation.IsRoot` | mixing/dcnet.go:137-147 | the loop accepts exactly the zeros of the polynomial |
| `SlotReservation.RootsAreMessages` | mixing/dcnet.go:116-147 | for every integer: accepted if and only if congruent to a message |
| `SlotReservation.FieldRootsAreMessages` | mixing/field.go:11-21 | a field element is accepted if and only if it is one of the messages |
| `DcNet.SRMixPads` | mixing/dcnet.go:17-43 | the nested loops compute the pad vector that MixPads.PadsAre characterises |
| `DcNet.SRMix` | mixing/dcnet.go:48-57 | entry j is the message to the power j+1 plus pad j, reduced; MixPads.PublishedIs says what that is |
| `DcNet.AddVectors` | mixing/dcnet.go:88-98 | the columnwise sum, reduced |
| `MixPads.PadsAre` | mixing/dcnet.go:17-43 | pad j is the sum of the hashes of all earlier positions' secrets minus that of all later ones, at counter j+1, reduced |
| `MixPads.PadReplaced` | mixing/dcnet.go:17-43 | exchanging one secret moves every pad by exactly the difference of its hashes, up or down by position; one's own position has no effect |
| `MixPads.PadsAlone` | mixing/dcnet.go:17-43 | a single position pads with zero |
| `MixPads.PublishedIs` | mixing/dcnet.go:17-57 | what one participant publishes, on its own: the power of the message shifted by that pad, as a field element |
| `DcNet.PadsCancel` | mixing/dcnet.go:17-43 | with symmetric secrets all participants' pads add up to zero, for any number of messages |
| `DcNet.SumsArePowerSums` | mixing/dcnet.go:17-98 | adding all published vectors leaves exactly the power sums of the messages |
| `DcNet.SlotReservationRecoversMessages` | mixing/dcnet.go:17-147 | from symmetric secrets, the roots of the coefficients of the summed vectors are exactly the messages |
| `DcNet.Xor` | mixing/vec.go:59-68 | elementwise XOR, also when the destination is a source |
| `DcNet.XorVectors` | mixing/vec.go:72-78 | the XOR of all vectors |
| `DcNet.DCMixPads` | mixing/dcnet.go:151-160 | the XOR of all secrets but one's own |
| `DcNet.DCMix` | mixing/dcnet.go:165-177 | the pads with the message mixed into one slot |
| `MixPads.DcPadsAre` | mixing/dcnet.go:151-160 | every byte of the pads is the XOR of those of the earlier and of the later positions' secrets |
| `MixPads.DcPublishedIs` | mixing/dcnet.go:149-177 | what one participant publishes, on its own: that pad everywhere, with the message added in its slot only |
| `DcNet.DcNetHoldsSlotXor` | mixing/dcnet.go:149-177 | with symmetric secrets, every slot of the combined vectors holds the XOR of the messages sent to it, for any slots |
| `DcNet.DcNetRecoversMessages` | mixing/dcnet.go:149-177 | with distinct slots every participant's message stands in its slot |
| `KeyAgreement.XorInto` | mixing/keyagreement.go:180-187 | XOR into a buffer in place |
| `KeyAgreement.KX.constructor` | mixing/keyagreement.go:56-74 | the private keys are stored and no cleartext is known yet |
| `KeyAgreement.KX.Encapsulate` | mixing/keyagreement.go:96-110 | succeeds exactly when every encapsulation does and then stores the cleartext of each returned ciphertext; otherwise the cleartexts before the first failure and zero keys from it on |
| `KeyAgreement.KX.PeerKey` | mixing/keyagreement.go:163-191 | the shared key is the XOR of the parts, or none when decapsulation fails |
| `KeyAgreement.KX.FillPeer` | mixing/keyagreement.go:193-232 | the running position advances to the next peer's offset and exactly that peer's cells are written |
| `KeyAgreement.KX.FillRow` | mixing/keyagreement.go:153-233 | one message's row: the first peer whose ciphertext fails, or the complete row |
| `KeyAgreement.KX.Secrets` | mixing/keyagreement.go:130-237 | SharedSecrets: each count error and the first failing peer, otherwise tables in which the cell of peer b and its message j stands at offset(b)+j and only a message's own position is unset |
| `KeyAgreement.RowAt` | mixing/keyagreement.go:153-233 | the position layout: writing on never disturbs a cell already written |
| `MixKeys.SharedKeyBytes` | mixing/keyagreement.go:163-191 | every byte of the shared key is the XOR of the ECDH key, the decapsulated key and, for another peer, the cleartext sent to it |
| `MixKeys.EveryPartCounts` | mixing/keyagreement.go:163-191 | two keys that agree, with two of the three parts equal, agree in the third: no part is ignored |
| `MixKeys.CellInputs` | mixing/keyagreement.go:193-232 | the lower peer's message number selects the generator and the other's the output; within one peer the larger and the smaller |
| `MixKeys.InputsDistinct` | mixing/keyagreement.go:193-232 | no two pairs of messages use the same generator and output, except the two orders of a pair within one peer |
| `MixKeys.FailsOnNeeded` | mixing/keyagreement.go:157-171 | deriving fails at the first peer whose ciphertext does not open, where one's own counts only with several messages |
| `MixKeys.OwnCiphertextUnused` | mixing/keyagreement.go:157-171 | with one message neither the outcome nor the tables depend on the ciphertext sent to oneself |
| `MixSession.HonestDecapsulates` | mixing/keyagreement.go:130-237 | between honest peers no decapsulation fails |
| `MixSession.SharedKeysAgree` | mixing/keyagreement.go:130-237 | both peers of a pair derive the same key |
| `MixSession.SecretsAgree` | mixing/keyagreement.go:130-237 | the secrets a derives for its message i with b's message j equal those b derives for j with i, also within one peer |
| `MixSession.SecretsSymmetric` | mixing/keyagreement.go:130-237 | the session's secret matrices are symmetric, for any message counts |
| `MixSession.SessionRecoversMessages` | mixing/dcnet.go:17-177 | end to end: from the tables honest peers compute, the slot reservation's roots are exactly the messages and every slot of the XOR exchange holds its message |
| `MixRun.Encapsulate` | mixing/keyagreement.go:96-110 | every ciphertext made for a peer opens to the cleartext kept for it |
| `MixRun.SessionHonest` | mixing/keyagreement.go:96-237 | agreement of the primitives makes the session of peers that encapsulated an honest one |
| `MixRun.DeriveSecrets` | mixing/keyagreement.go:130-237 | a peer of such a session gets its tables and sees no error |
| `MixRun.Exchange` | mixing/keyagreement.go:96-237 | all peers encapsulate and derive, and all get their tables |
| `MixRun.ReserveSlots` | mixing/dcnet.go:17-133 | all positions pad, mix and add, and the coefficients are recovered |
| `MixRun.ExchangeMessages` | mixing/dcnet.go:149-177 | all positions pad and mix, and the vectors are combined |
| `MixRun.RunSession` | mixing/dcnet.go:17-177 | the whole session carried out from key pairs: a field element is a root exactly when it is a reservation, and every message stands in its slot, assuming only that the primitives agree |
| `BitStream.UnpackIsPack` | gcs/bits.go:11-86 | bytes whose bits are a list followed by fewer than eight zeros are that list packed |
| `BitStream.PackUnpack` | gcs/bits.go:11-189 | unpacking packed bits returns them and the zero padding |
| `BitStream.BitWriter.constructor` | gcs/bits.go:11-16 | nothing written |
| `BitStream.BitWriter.BytesArePacked` | gcs/bits.go:11-86 | at any time the bytes are the packed, zero-padded list of the bits written |
| `BitStream.BitWriter.WriteOne` | gcs/bits.go:18-28 | appends a one |
| `BitStream.BitWriter.WriteZero` | gcs/bits.go:31-40 | appends a zero |
| `BitStream.BitWriter.WriteNBits` | gcs/bits.go:44-86 | appends the low bits of the value, most significant first, through the bit, byte and tail loops |
| `BitStream.BitReader.constructor` | gcs/bits.go:93-98 | all bits are unread |
| `BitStream.BitReader.ReadUnary` | gcs/bits.go:102-122 | counts and consumes the leading ones and the zero, or EOF exactly when there is no zero |
| `BitStream.BitReader.ReadNBits` | gcs/bits.go:126-189 | returns the value of the next bits from any offset, or EOF exactly when too few remain |
| `VarInt.VarIntRoundTrip` | wire/common.go:742-859 | reading a written number returns it whatever follows, and its size is the size function's |
| `VarInt.VarIntCanonical` | wire/common.go:742-805 | a number is accepted only in the form writing it produces |
| `Golomb.DecodeCode` | gcs/gcs.go:181-287 | decoding inverts the Golomb code of every 64-bit delta at every parameter |
| `Golomb.DecodeZeros` | gcs/gcs.go:274-287 | what decoding makes of zero padding |
| `Golomb.SearchFinds` | gcs/gcs.go:291-325 | the search over an encoded sorted list and any padding finds exactly the values in it |
| `Golomb.MergeFinds` | gcs/gcs.go:333-401 | the sorted merge answers whether the lists meet, and runs out of range exactly when bounded by too large a size and not stopped before |
| `Gcs.ReduceInRange` | gcs/gcs.go:26-56 | both reductions stay below the modulus |
| `GcsWorst.ReduceRemainder` | gcs/gcs.go:26-28 | the version 1 reduction is the remainder of the hash |
| `GcsWorst.ReduceInterval` | gcs/gcs.go:31-56 | the version 2 reduction sends exactly one interval of hashes to each value |
| `GcsWorst.ReduceFair` | gcs/gcs.go:31-56 | and the intervals differ in length by at most one hash |
| `Gcs.HashesAre` | gcs/gcs.go:139-164 | the hashed values are those of the items taken by the version |
| `Gcs.SortSorts` | gcs/gcs.go:181-186 | the sorted permutation |
| `Gcs.HashItems` | gcs/gcs.go:139-164 | the hashing loop computes the hashes; GcsContent.CountV2 and HashesV1 say which those are, with and without repeats |
| `Gcs.WriteDelta` | gcs/gcs.go:206-232 | writes the Golomb code of one delta |
| `Gcs.WriteValues` | gcs/gcs.go:199-233 | the bytes are the packed encoding of the sorted values |
| `Gcs.NewFilter` | gcs/gcs.go:119-259 | too many items, or the filter of the packed encoding; GcsContent.CountV2, CountV1 and Header say its count and its header |
| `Gcs.NewFilterV1` | gcs/gcs.go:431-443 | the parameter error and the version 1 filter with modulus factor two to the P |
| `Gcs.NewFilterV2` | gcs/gcs.go:523-535 | the parameter error and the version 2 filter, whose content GcsContent.SameSetSameFilter determines |
| `GcsContent.CountV2` | gcs/gcs.go:151-188 | the entry count of a version 2 filter is the number of different hashes of its non-empty items |
| `GcsContent.HashesV1` | gcs/gcs.go:144-149 | version 1 hashes every item, in order, empty and repeated ones too |
| `GcsContent.CountV1` | gcs/gcs.go:144-188 | so its entry count is the number of items |
| `GcsContent.SameHashesSameFilter` | gcs/gcs.go:181-256 | inputs whose hashes are the same up to order give the same filter, at either version |
| `GcsContent.SameSetSameFilter` | gcs/gcs.go:151-256 | a version 2 filter is determined by the set of its items' hashes: order, repeats and empty items do not matter |
| `GcsContent.Header` | gcs/gcs.go:235-256 | the serialized form starts with the count, as a big-endian word at version 1 and as a variable-length integer at version 2 |
| `Gcs.FromBytesV1OfBytes` | gcs/gcs.go:447-473 | reading a built version 1 filter's bytes returns the same filter |
| `Gcs.FromBytesV2OfBytes` | gcs/gcs.go:539-566 | reading a built version 2 filter's bytes returns the same filter |
| `GcsContent.FromBytesTakes` | gcs/gcs.go:447-566 | each error of reading exactly where it belongs, and whatever is accepted keeps the bytes and the parameter |
| `GcsQuery.ReadFullUint64` | gcs/gcs.go:274-287 | reads one Golomb code, or EOF |
| `GcsQuery.Match` | gcs/gcs.go:291-325 | the decoding loop computes the search for the item's reduced hash |
| `GcsQuery.MatchesBuilt` | gcs/gcs.go:119-325 | on a built filter a non-empty item matches if and only if its reduced hash is that of some inserted item, padding notwithstanding |
| `GcsQuery.NoFalseNegatives` | gcs/gcs.go:119-325 | every inserted non-empty item matches, also after reading the filter back from its bytes |
| `GcsQuery.MatchAny` | gcs/gcs.go:333-401 | the two-pointer loop computes the merge of the filter and the sorted terms |
| `GcsQuery.MatchesAnyBuilt` | gcs/gcs.go:333-401 | the outcome on every built non-empty filter and every query list |
| `GcsQuery.MatchesAnyIsSomeMatch` | gcs/gcs.go:291-401 | without empty items the answer is whether some item satisfies Match |
| `GcsQuery.MatchesAnyWithEmptyItems` | gcs/gcs.go:352-369 | with them, it is true exactly when some item matches, and indexes out of range exactly under the stated condition |
| `GcsQuery.MatchAnyRunsOutOfRange` | gcs/gcs.go:352-369 | a filter and a query on which it does |
| `GcsSize.EncodeLength` | gcs/gcs.go:181-256 | the encoding has at most one bit and the remainder per value, plus the last value shifted |
| `GcsSize.FilterFits` | gcs/gcs.go:584-623 | every version 2 filter of at most N items is at most MaxFilterV2Size long, without 64-bit overflow |
| `GcsSize.FormulaExact` | gcs/gcs.go:584-623 | without overflow the wrapped arithmetic is the intended formula |
| `GcsSize.FormulaCanWrap` | gcs/gcs.go:584-623 | an input on which it wraps below the size of a filter |
| `GcsWorst.AtMostWorst` | gcs/gcs.go:181-256 | no filter of n entries exceeds the worst size, whatever the modulus wraps to |
| `GcsWorst.EncodeLengthExact` | gcs/gcs.go:199-233 | values that are multiples of the remainder range, up to the last, use every quotient bit |
| `GcsWorst.GridMultiple` | gcs/gcs.go:48-56 | hashes that reduce to such multiples, as many as a filter can have entries |
| `GcsWorst.GridInjective` | gcs/gcs.go:48-56 | and all distinct |
| `GcsWorst.WorstAttained` | gcs/gcs.go:119-259 | for all parameters and every count there is a filter of exactly the worst size |
| `GcsWorst.FitsIff` | gcs/gcs.go:582-623 | the formula bounds every filter of at most N items if and only if it is at least the worst size of every count up to N, with or without overflow |
| `GcsWorst.FormulaIsMaximum` | gcs/gcs.go:582-623 | without overflow it is the maximum size possible: none is larger and one is reached |
| `GcsWorst.ZeroFactor` | gcs/gcs.go:584-623 | for a zero modulus factor it bounds every filter except with no remainder bits and one entry over a whole number of bytes |
| `GcsWorst.OverflowFails` | gcs/gcs.go:584-623 | parameters whose product overflows and for which a filter does not fit |
| `Bech32Checksum.Round` | bech32/bech32.go:41-115 | one round of the generator loop is the step function |
| `Bech32Checksum.Rounds` | bech32/bech32.go:41-115 | a loop over symbols iterates the step |
| `Bech32Checksum.Bech32Polymod` | bech32/bech32.go:41-115 | the loops compute the residue of the prefix, the values and the checksum or six zeros; Bech32Poly.PolymodIsRemainder says which number that is |
| `Bech32Checksum.StepLinear` | bech32/bech32.go:41-115 | the step is linear over GF(2) |
| `Bech32Checksum.StepInjective` | bech32/bech32.go:41-115 | the step without input maps only zero to zero |
| `Bech32Checksum.RunLinear` | bech32/bech32.go:41-115 | so is every run of symbols |
| `Bech32Checksum.RunSix` | bech32/bech32.go:126-150 | six symbols from zero are just packed |
| `Bech32Poly.GeneratorWords` | bech32/bech32.go:17-18 | the five generator words are the generator polynomial times the powers of alpha in GF(32) |
| `Bech32Poly.FeedbackIsMultiple` | bech32/bech32.go:41-115 | so what a round adds is the generator polynomial times the symbol shifted out |
| `Bech32Poly.StepIsDivision` | bech32/bech32.go:41-115 | one round is one step of polynomial division over GF(32) |
| `Bech32Poly.DivisionUnique` | bech32/bech32.go:41-115 | quotient and remainder of a division are unique |
| `Bech32Poly.PolymodIsRemainder` | bech32/bech32.go:41-115 | the residue is the remainder of the expanded prefix followed by the values, as a polynomial, modulo the generator of degree six |
| `Bech32Poly.VerifiesIffRemainderOne` | bech32/bech32.go:145-150 | a checksum verifies if and only if that remainder is one |
| `Bech32Checksum.ChecksumAdds` | bech32/bech32.go:126-150 | putting six symbols in the checksum places adds them to the residue |
| `Bech32Checksum.ChecksumUnique` | bech32/bech32.go:126-150 | exactly one checksum verifies: the one that is written |
| `Bech32Checksum.BurstDetected` | bech32/bech32.go:145-150 | any change within six adjacent symbols of a valid string, at any length, fails verification |
| `Bech32Checksum.BurstDiffers` | bech32/bech32.go:41-115 | runs over symbols that differ within six adjacent places end differently, from any start |
| `Bech32Poly.PrefixBurstDetected` | bech32/bech32.go:41-150 | prefixes that differ within six adjacent symbols of their expansion never verify with the same data |
| `Bech32Burst.BurstInText` | bech32/bech32.go:145-233 | on strings: up to six adjacent characters of the data part of an accepted string, changed to others of the charset, make decoding report an invalid checksum |
| `Bech32Burst.PrefixBurstInText` | bech32/bech32.go:145-233 | on strings: such a change of the prefix of an accepted string makes decoding report an invalid checksum |
| `Bech32Burst.JoinAtSeparator` | bech32/bech32.go:160-233 | a one-case string of prefix, separator and charset characters is decided by its checksum |
| `Bech32.CharRoundTrip` | bech32/bech32.go:12-32 | every symbol's character maps back to it |
| `Bech32.IndexRoundTrip` | bech32/bech32.go:12-32 | every accepted character is its symbol's character |
| `Bech32.CharsetOrder` | bech32/bech32.go:12-15 | the characters are those of the charset, in its order |
| `Bech32.ToBytesLoop` | bech32/bech32.go:22-32 | the symbols of a text, or its first foreign character |
| `Bech32.WriteChecksum` | bech32/bech32.go:126-136 | appends the characters of the checksum |
| `Bech32.Encode` | bech32/bech32.go:253-274 | lower-cased prefix, separator, data and checksum, or the first byte that is no symbol; Bech32RoundTrip.DecodeIffEncoding ties it to decoding |
| `Bech32.ScanLoop` | bech32/bech32.go:167-181 | the character and case checks, in the order the loop meets their failures |
| `Bech32.DecodeNoLimit` | bech32/bech32.go:160-233 | every error in its order, or prefix and data; Bech32Errors says which error each string gets, Bech32RoundTrip.DecodeIffEncoding which strings get none |
| `Bech32.VerifyChecksum` | bech32/bech32.go:208-232 | the payload when the checksum verifies, otherwise the error naming the checksum that would have |
| `Bech32Errors.EarlyErrors` | bech32/bech32.go:160-181 | a short string gets the length error; one that is not printable and of one case gets the error of the one character where it first stops being so; others get neither |
| `Bech32Errors.LateErrors` | bech32/bech32.go:183-229 | then a misplaced last separator is reported with its index, then the first character outside the charset; all others are decided by their checksum |
| `Bech32RoundTrip.ScanMeans` | bech32/bech32.go:167-181 | the checks pass exactly on printable texts of one case |
| `Bech32RoundTrip.DecodeOfEncode` | bech32/bech32.go:160-274 | decoding inverts encoding for every non-empty printable prefix and all data |
| `Bech32RoundTrip.EncodeOfDecode` | bech32/bech32.go:160-274 | every accepted string re-encodes to its lower-case form |
| `Bech32RoundTrip.DecodeIffEncoding` | bech32/bech32.go:160-274 | a string decodes to a result if and only if it is an encoding of it up to case |
| `Bech32RoundTrip.ExpectedChecksumWorks` | bech32/bech32.go:208-229 | the checksum reported as expected, put in place of the actual one, makes the string decode |
| `BitRegroup.ConvertBits` | bech32/bech32.go:278-350 | regrouping the bit stream, with zero padding or the checks on the dropped tail, for all group sizes and all errors |
| `Base256.ConvertPreserves` | bech32/bech32.go:278-350 | the bit stream is kept: padded with fewer zeros than a group, or cut by a tail that must be short and zero; each error exactly where it belongs |
| `Base256.ConvertRoundTrip` | bech32/bech32.go:278-350 | padding conversion and back returns the input exactly when the padding is shorter than a group and at most four bits |
| `Base256.BytesRoundTripFive` | bech32/bech32.go:278-363 | eight to five and back returns all bytes |
| `Base256.FiveRoundTripBytes` | bech32/bech32.go:278-378 | five to eight, where accepted, and back returns all symbols |
| `Base256.EncodeFromBase256` | bech32/bech32.go:357-363 | regroup and encode |
| `Base256.DecodeToBase256` | bech32/bech32.go:368-378 | decode within 90 characters and regroup, with the errors of either |
| `Base256.DecodeBase256OfEncode` | bech32/bech32.go:240-378 | decoding encoded bytes returns them, or the length error exactly over 90 characters |
| `Base256.EncodeBase256OfDecode` | bech32/bech32.go:240-378 | encoding what was decoded returns the lower-case string |
| `AddrState.StatsAdd` | addrmgr/addrmanager.go:246-255 | incrementing tracks an address added to a new bucket, in 16 bits |
| `AddrState.StatsRemove` | addrmgr/addrmanager.go:258-267 | decrementing tracks one removed |
| `AddrState.StatsReplace` | addrmgr/addrmanager.go:1118-1119 | decrement and increment track a replaced tried slot |
| `AddrSteps.LinkKeeps` | addrmgr/addrmanager.go:368-372 | entering a new bucket keeps the invariant and references the address |
| `AddrSteps.UnlinkKeeps` | addrmgr/addrmanager.go:390-393 | leaving a new bucket keeps it, up to the address left without reference |
| `AddrSteps.ForgetKeeps` | addrmgr/addrmanager.go:394-397 | dropping an address with its last reference restores it |
| `AddrSteps.PromoteKeeps` | addrmgr/addrmanager.go:1092-1099 | taking a free tried slot keeps it |
| `AddrSteps.ReplaceKeeps` | addrmgr/addrmanager.go:1115-1128 | taking an occupied tried slot keeps it, up to the address displaced |
| `AddrSteps.AdmitKeeps` | addrmgr/addrmanager.go:344-353 | admitting an unknown address keeps it, up to that address |
| `AddrOps.Oldest` | addrmgr/addrmanager.go:386-405 | none when all are bad, otherwise an address that is not bad and was seen longest ago |
| `AddrOps.VictimsAre` | addrmgr/addrmanager.go:380-420 | expiry removes all bad addresses, only addresses of the bucket, and at least one |
| `AddrEntries.VictimsExact` | addrmgr/addrmanager.go:380-420 | expiry removes exactly the bad addresses and the oldest of the others |
| `AddrEntries.OldestIsLast` | addrmgr/addrmanager.go:399-405 | of several seen equally long ago the last visited counts as oldest |
| `AddrEntries.BadByFailures` | addrmgr/knownaddress.go:87-117 | an address seen within thirty days is bad exactly after three failures without any success, or five and a week since the last one, and not within a minute of an attempt |
| `AddrEntries.BadByAge` | addrmgr/knownaddress.go:87-117 | one seen longer ago or in the future is bad unless tried within a minute |
| `AddrEntries.StaysBad` | addrmgr/knownaddress.go:87-117 | once bad, an address stays bad while its record stays |
| `AddrOps.RemoveAllFrame` | addrmgr/addrmanager.go:380-420 | the bucket loses exactly the victims and no other bucket changes |
| `AddrOps.AddKeeps` | addrmgr/addrmanager.go:300-376 | adding or updating any address keeps the invariant and does not panic, for every draw, order and clock |
| `AddrOps.AddFrame` | addrmgr/addrmanager.go:300-376 | a routable address is known afterwards, with the entry of AddrEntries.AddEntry; others are forgotten only from its own bucket and only when that is over its size; tried addresses stay |
| `AddrEntries.AddEntry` | addrmgr/addrmanager.go:308-353 | the entry of the added address: a known one takes the announced time when that is later or brings a new service, unites the services and keeps its record, with one reference more exactly when it enters; an unknown one starts blank |
| `AddrEntries.AddContents` | addrmgr/addrmanager.go:355-372 | the bucket entered then holds the address and, when it was over its size, exactly the others that are neither bad nor the oldest |
| `AddrGood.UnlinkFirst` | addrmgr/addrmanager.go:1068-1080 | leaving the first n buckets changes those buckets and the reference count only |
| `AddrGood.FirstBucket` | addrmgr/addrmanager.go:1068-1080 | the least bucket that holds the address, or none |
| `AddrGood.OldestIndex` | addrmgr/addrmanager.go:425-436 | the first slot among those seen longest ago |
| `AddrGood.Released` | addrmgr/addrmanager.go:1065-1081 | after leaving all buckets the address has no references |
| `AddrGood.NewIsSomewhere` | addrmgr/addrmanager.go:1083-1086 | the error that an address is not marked as new is unreachable |
| `AddrGood.GoodKeeps` | addrmgr/addrmanager.go:1039-1137 | Good keeps the invariant, does not panic, fails exactly on unknown addresses and leaves the address tried |
| `AddrGood.GoodMoves` | addrmgr/addrmanager.go:1088-1137 | the address takes a slot of its bucket; when full, exactly the oldest gives its slot up and becomes new in one bucket; no address is lost or otherwise changed |
| `AddrHistory.GoodRecords` | addrmgr/addrmanager.go:1039-1063 | success and attempt time are now and the attempts zero; no other record changes, and for a tried address nothing else does |
| `AddrHistory.GoodBuckets` | addrmgr/addrmanager.go:1065-1137 | all new buckets afterwards: without the address, and with the evicted one in its own bucket if there is room, otherwise in the first one the address was in |
| `AddrHistory.GoodNoGrowth` | addrmgr/addrmanager.go:1101-1137 | so Good never takes a new bucket over its size |
| `AddrRuns.FreshOk` | addrmgr/addrmanager.go:1392-1401 | a new manager satisfies the invariant |
| `AddrRuns.StepKeeps` | addrmgr/addrmanager.go:300-1161 | on a state in order no operation panics and every operation leaves one in order |
| `AddrRuns.RunKeeps` | addrmgr/addrmanager.go:300-1161 | in every state of every run of operations from a new manager each known address is tried, in one slot and unreferenced, or new, in as many buckets as it has references, one to eight; statistics and totals are exact; bucket sizes are bounded |
| `AddrRuns.RunNeverPanics` | addrmgr/addrmanager.go:300-1161 | in no state of a run can an operation panic |
| `AddrRuns.CountersExact` | addrmgr/addrmanager.go:246-281 | the totals count every address once and the statistics of a bucket add up to at most 65, far from wrapping |
| `AddrHistory.StepRecords` | addrmgr/addrmanager.go:300-1161 | what each operation does to the record of each address |
| `AddrHistory.RecordsExact` | addrmgr/addrmanager.go:300-1161 | in every run the attempts, times and services of a known address are those that the operations on it since it was admitted determine |
| `AddrHistory.StepMarks` | addrmgr/addrmanager.go:300-1137 | every change of the known addresses or of a bucket is marked for saving, and marks stay |
| `AddrOverfull.AddOverfull` | addrmgr/addrmanager.go:355-372 | an addition leaves its bucket over 64 exactly when it enters one of 64, or one of 65 with nothing bad in it, or does not enter one of 65; no other bucket changes |
| `AddrOverfull.SingleVictim` | addrmgr/addrmanager.go:380-420 | expiry of several addresses removes just one exactly when none is bad |
| `AddrOverfull.OverfullReachable` | addrmgr/addrmanager.go:362-372 | a run of additions puts 65 addresses into one bucket |
| `AddrManager.Manager.constructor` | addrmgr/addrmanager.go:1392-1401 | an empty manager |
| `AddrManager.Manager.Remove` | addrmgr/addrmanager.go:390-397 | drops an address from a bucket, and altogether with its last reference |
| `AddrManager.Manager.ExpireNew` | addrmgr/addrmanager.go:380-420 | the scan removes the bad ones as it meets them and the oldest of the others at the end |
| `AddrManager.Manager.PutInBucket` | addrmgr/addrmanager.go:355-376 | nothing when already there, room made when over the size, then entered |
| `AddrManager.Manager.AddOrUpdateAddress` | addrmgr/addrmanager.go:300-376 | the new state is that of the add operation, and valid; AddrEntries.AddEntry and AddContents say what that is |
| `AddrManager.Manager.OldestTried` | addrmgr/addrmanager.go:425-436 | the loop finds the first oldest slot, zero for an empty bucket |
| `AddrManager.Manager.UnlinkEverywhere` | addrmgr/addrmanager.go:1068-1080 | the loop over all buckets, and the first that held the address |
| `AddrManager.Manager.Settle` | addrmgr/addrmanager.go:1088-1137 | a free slot, or the oldest evicted to its bucket or to the one just left |
| `AddrManager.Manager.Replace` | addrmgr/addrmanager.go:1115-1121 | swaps an address into a tried slot |
| `AddrManager.Manager.Good` | addrmgr/addrmanager.go:1039-1137 | state and outcome are those of the Good operation, and the state is valid |
| `AddrManager.Manager.Attempt` | addrmgr/addrmanager.go:986-1004 | counts the attempt and its time, or reports an unknown address |
| `AddrManager.Manager.Connected` | addrmgr/addrmanager.go:1010-1032 | moves the time seen forward after twenty minutes, or reports an unknown address |
| `AddrManager.Manager.SetServices` | addrmgr/addrmanager.go:1141-1161 | sets the services, or reports an unknown address |
| `AddrSelect.TotalIsWanted` | addrmgr/addrmanager.go:270-289 | a bucket's statistics count exactly its addresses of the wanted types |
| `AddrSelect.StatsEnumerated` | addrmgr/addrmanager.go:246-281 | the statistics of a set are those of any enumeration of it |
| `AddrSelect.Chance` | addrmgr/knownaddress.go:63-78 | between one hundredth and one |
| `AddrSelect.ChanceFalls` | addrmgr/knownaddress.go:63-78 | the least chance if never tried or within ten minutes of an attempt; otherwise one, divided by one and a half for each attempt down to the least |
| `AddrSelect.FilterMeans` | addrmgr/addrmanager.go:291-296 | a filter wants exactly the types it names |
| `AddrSelect.FactorGrows` | addrmgr/addrmanager.go:935-940 | after 26 refusals the factor outweighs the least chance |
| `AddrSelect.MatchingBuckets` | addrmgr/addrmanager.go:887-896 | collects exactly the buckets with a wanted type, each once and in order |
| `AddrSelect.Nth` | addrmgr/addrmanager.go:922-933 | the nth wanted address of the bucket, or none when there are fewer |
| `AddrSelect.Pick` | addrmgr/addrmanager.go:916-933 | the drawn position always exists among the wanted addresses, and the one there is returned |
| `AddrSelect.Try` | addrmgr/addrmanager.go:907-940 | one try: the address that two draws select, accepted exactly when the third falls under its chance times the factor, and always at the 27th |
| `AddrSelect.Choose` | addrmgr/addrmanager.go:907-975 | the candidate of the first try that accepts its own, within 27 tries of three draws each; it is known and wanted |
| `AddrSelect.EveryWantedChosen` | addrmgr/addrmanager.go:907-975 | every wanted address can be chosen: some draws return it at the first try |
| `AddrSelect.ChooseFrom` | addrmgr/addrmanager.go:907-975 | the same over all matching buckets of the tried or of the new table |
| `AddrSelect.Populated` | addrmgr/addrmanager.go:285-289 | some new bucket's statistics show a wanted type exactly when a new address has it, and likewise for tried |
| `AddrSelect.GetAddress` | addrmgr/addrmanager.go:864-976 | returns an address exactly when a wanted one is known; tried or new as the draw says where both exist; it is the one the following draws choose from that table, at most 82 numbers in all |
| `AddrFile.Range` | addrmgr/addrmanager.go:517-530 | ranging over a map visits each key once |
| `AddrFile.SaveAddresses` | addrmgr/addrmanager.go:515-529 | one saved entry for each known address |
| `AddrLoad.SavedTimes` | addrmgr/addrmanager.go:517-529 | the saved times are the recorded ones rounded down to the second, the rest is kept |
| `AddrFile.SaveNew` | addrmgr/addrmanager.go:530-537 | each new bucket's keys |
| `AddrFile.SaveTried` | addrmgr/addrmanager.go:538-545 | each tried bucket's keys in order |
| `AddrFile.SavePeers` | addrmgr/addrmanager.go:501-568 | saves exactly when something changed, and clears the mark unless writing fails |
| `AddrFile.ReadAddresses` | addrmgr/addrmanager.go:616-636 | the address loop, up to the first that does not parse |
| `AddrFile.ReadNew` | addrmgr/addrmanager.go:638-653 | the new buckets, up to the first key not listed |
| `AddrFile.ReadTried` | addrmgr/addrmanager.go:654-667 | the tried buckets, up to the first key not listed |
| `AddrFile.CheckConsistent` | addrmgr/addrmanager.go:669-680 | true exactly when every address is new or tried and none both |
| `AddrLoad.LoadSucceedsIff` | addrmgr/addrmanager.go:592-683 | a file loads if and only if its version is known, its addresses parse, its buckets name listed addresses only and each of those is in new buckets or in tried ones but not in both; references and flags then count the buckets |
| `AddrFile.DeserializePeers` | addrmgr/addrmanager.go:592-683 | state and error of loading, with every failure in its order |
| `AddrFile.LoadPeers` | addrmgr/addrmanager.go:573-590 | the loaded state, or after a failure the emptied one |
| `AddrFile.Reset` | addrmgr/addrmanager.go:805-825 | empty tables, totals kept |
| `AddrFile.TotalsLeftOver` | addrmgr/addrmanager.go:573-683 | a file whose failed load leaves an empty manager that counts one address |
| `AddrPersist.FailedLoad` | addrmgr/addrmanager.go:573-683 | a failed load leaves a valid manager if and only if it failed before listing any known key |
| `AddrPersist.EmptiedOk` | addrmgr/addrmanager.go:805-825 | after a reset the invariant holds exactly when both totals were zero |
| `AddrRoundTrip.ListNewStep` | addrmgr/addrmanager.go:638-653 | listing a key in a new bucket gives the state that the extended buckets determine |
| `AddrRoundTrip.ListTriedStep` | addrmgr/addrmanager.go:654-667 | listing a key in a tried bucket likewise |
| `AddrRoundTrip.FirstOccurrence` | addrmgr/addrmanager.go:654-667 | while loading, a key of a valid manager is listed in a tried bucket only once |
| `AddrRoundTrip.LoadOfSave` | addrmgr/addrmanager.go:501-683 | loading any save of a valid manager into a fresh one succeeds and restores keys, buckets, flags, references, attempts, times to the second, statistics and totals, and the result is valid |
| `GetDataRuns.StepKeeps` | server.go:528-695 | every atomic step of the three parties keeps the invariant |
| `GetDataRuns.RunKeeps` | server.go:528-695 | so it holds in every state of every interleaving: tokens, counter, order and queue bound |
| `GetDataRuns.ProducerKeeps` | server.go:1416-1466 | in particular the input handler's checks, counting and queueing, between which the server runs |
| `GetDataRuns.NeverBlocks` | server.go:633-692 | at most three sends are outstanding, acknowledging never waits for the channel, releasing never for the semaphore, and queueing never for the queue |
| `GetDataRuns.PendingExact` | server.go:1441-1465 | the counter is at most its maximum, positive wherever it is decremented, at least the unserved items, and equal to them if and only if no item of unknown type was skipped |
| `GetDataRuns.RepliesKept` | server.go:606-665 | sent data are the found items in order and notfound messages list exactly the missing ones, unless serving was given up; GetDataLookups.LookupsDecide says which are found |
| `GetDataRuns.RunAnswers` | server.go:528-695 | in every run items are answered according to their type and given up only after quitting |
| `GetDataLookups.LookupsDecide` | server.go:536-665 | in every run each item is answered as its own lookup came out: data if it was found, missing if not |
| `GetDataLookups.RepliesFollowLookups` | server.go:606-665 | where nothing is left to do and nobody quit, data and notfound messages are exactly the accepted items selected by their lookups, in order |
| `GetDataLookups.InventoryFollows` | server.go:652-661 | the inventory message that continues a block request comes directly after that block's data, as often as it is asked for and no more |
| `GetDataLookups.RequestAccepted` | server.go:1416-1466 | a request within the limits passes the checks; it is queued, counted and accepted whole |
| `GetDataLookups.RequestRefused` | server.go:1416-1466 | an empty one, a refused one and one over either limit leave everything as it was |
| `GetDataRuns.WorkShrinks` | server.go:528-695 | every step of the server or the sender uses up a measure |
| `GetDataRuns.ServingEnds` | server.go:675-695 | so between requests only finitely many are possible |
| `GetDataRuns.AllServed` | server.go:528-695 | where none is possible all tokens are back and every accepted item was answered once, in order, by data or notfound; the protocol cannot get stuck earlier |
| `GetDataRuns.UnknownTypeLeaks` | server.go:601-604 | a reachable state with everything served and the counter at one |

## Left out

- Cryptographic primitives (BLAKE-256, SipHash, ChaCha20, secp256k1, the key encapsulation): parameters.
- Primality of the mixing modulus: a premise.
- Anonymity, unpredictability and false-positive rates: not functional properties.
- KeyAgreement.KX.Secrets: message counts are unbounded, so the 32-bit sum of the counts does not wrap.
- GcsSize.FilterFits: one direction, under the simple condition that nothing overflows; the exact condition is that of GcsWorst.FitsIff.
- Gcs.NewFilter: sorting is specified by its result, not as the library's algorithm; buffer size hints and the pool of match buffers have no effect on results.
- Bech32.Encode: letters outside ASCII in the prefix are not lower-cased.
- AddrManager.Manager.Good: buckets refer to addresses by key, so pointer sharing between tables is not represented.
- AddrSelect.GetAddress: probabilities are real numbers, without floating-point rounding.
- AddrFile.SavePeers: JSON and file handling are not modelled, only whether they succeed; the secret bucket key is kept.
- AddrFile.DeserializePeers: the two sanity errors are one.
- AddrRoundTrip.LoadOfSave: the time last seen and the services are those parsing gives, as the code has it.
- AddrRuns.RunKeeps: starts from a new manager, without a failed load; bucket hashing is any function, reduced to the number of buckets; the tried bucket size is any that 16 bits can count.
- GetDataRuns.RunKeeps: the protocol is a state machine over values; ban scores and disconnects are refusals and an arbitrary moment of quitting; looking an item up finds it or not at will, and so is sending the inventory message that continues a block request.
- Address caching, local addresses, network ranges, seeding and Tor lookups of the address manager.
- Wire messages, RPC, consensus, the mempool and the rest of the node.
