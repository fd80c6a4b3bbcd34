# Models and proofs for the zkqes code

This project models the parts of the repository that everything else rests on, and proves what
they are for. `dafny verify dfyconfig.toml` checks all of it.

The models take the source's form: loops over buffers and arrays are methods with invariants,
objects that change are classes, and each such method is proved equal to a function on values.
The theorems are lemmas about those functions.

- **Strict DER** (`Bytes`, `DerContent`, `DerTlv`, `DerStrict`, `DerOctets`, `EcdsaTranscode`,
  `EcdsaSurvival`, `EcdsaReader`, `LeafCertWalk`).
  The guard `isStrictDER` accepts exactly what a DER printer prints, and `DerOctets` says in octets what
  that is. The ECDSA signature transcoder and the certificate walker are measured against it.
- **Merkle trees** (`MerkleSpec`, `MerkleTrees`). Three sparse builders are proved against the full
  tree over padded leaves; proofs recompute the root, and an injective hash makes the tree binding.
- **Encodings** (`Sponge`, `SpongeLayout`, `Limbs`, `ShaPad`, `SpkiCommit`). Injectivity, bounds,
  reconstruction, what exactly is hashed, and agreement of the copies.
- **Ceremony** (`CeremonyStatus`, `CeremonyProtocol`, `CeremonyProgress`, `CeremonyStore`). Contributors,
  verifiers and publishers over one object store, in any interleaving: what is never lost or forged, and
  what goes through.
- **Binding text** (`BindingOffsets`, `BindingScan`, `BindingCore`, `BindingLayout`). What the key scanners
  return on any text, and that they recover every field of a printed binding.
- **Worker protocol** (`ProverProtocol`, `ProverProgress`, `ProverObjects`). Prove calls, aborts, messages,
  finished proofs and crashes in any interleaving: what can never happen, and what each step brings about.
- **Service history** (`ServiceHistory`). Sorting and end times cut time into intervals.

`Arithmetic` and `Results` hold shared helpers.

## What the models assume

- Poseidon, its two-input form and the sponge compression are function parameters. Where a result
  needs them to be injective, or never 0, the lemma says so in a `requires`. No hash into a finite
  field is injective, so each of these results also has a form without hypotheses, from which it
  follows: `ForgeryCollides`, `RootsCollide`, `AbsorbBreaks` and `AcceptedKeysCollide` return or name
  the colliding inputs.
- SHA-256 of a round file is a function parameter of the ceremony model.
- An ETag identifies a stored body: two versions with one tag have the same body (a strong
  validator in the sense of section 8.8.1 of RFC 9110). Runs with this property are
  `CeremonyProtocol.FairRun`. Tags may repeat for equal bodies.
- A printed binding has values without quotes in their printed form, and integers below 10^21, which
  JSON prints as plain digits. A `char` stands for one octet of its UTF-8 text.
- Sponge inputs are shorter than the field order. Raw signatures are short enough that their DER
  lengths stay below 2^31.
- The raw length given to `derToJose` is even; the model takes its half.
- Clocks, command lines and file contents are parameters of the steps that use them.

## Where the code differs from what one might expect

Each point is stated exactly, as an equivalence where one holds.

- An empty BIT STRING with 1 to 7 unused bits is accepted (`DerContent.BitStringRule`).
- A four-octet length with its top bit set is refused as non-minimal, because the accumulator is a
  32-bit integer (`DerTlv.LengthLimit`). Accepted lengths end at 2^31 - 1.
- The strict-DER path is modelled as the list of tag octets; the source renders names from them.
- Constructed forms and other tags carry no rules of their own, as in the code.
- Signature transcoding is a round trip for all signatures of a width exactly up to 252 octets
  (`EcdsaTranscode.RoundTripWidth`). A long-form INTEGER length is read as a length of 0x81 or more,
  and a signature survives exactly when it has none, or only in the one `s` that happens to be read
  back from the wrong place (`EcdsaSurvival.SurvivesIff`).
- Direction bits of a Merkle proof spell the index exactly below 2^31, because the index is halved
  by a 32-bit shift (`MerkleTrees.DirectionsSpellIndex`). Above that a proof can fail to recompute the
  root (`MerkleTrees.LargeIndexFails`, with the exact condition in `MerkleTrees.ProofOpensRootIff`).
- A policy proof for an index without a leaf does not exist: the call throws when it writes the
  undefined leaf in hexadecimal (`MerkleTrees.BuildPolicyInclusionProof`).
- The flattener's `spkiCommit` checks the length and not the prefix. It agrees with the reference
  exactly on canonical keys and wrong lengths (`SpkiCommit.CopiesAgree`).
- The comment on `extractBindingOffsets` lists checks of the leaf hash and of the two numbers. The code
  checks the context only (`BindingScan.ExtractionFails`).
- A phase moves backwards in two ways: an override asks for a lower phase, or an update without one
  follows an override to live that came before the final hash (`CeremonyStatus.PhaseBackwardsIff`,
  with reachable cases of both in `CeremonyStatus.PhaseFallsBack`). Without overrides it never does.
- A state that starts at 0 or 1, or before 1970, leaves its predecessor without an end, since an end
  of 0 counts as none. Histories partition time exactly when no later start is like that
  (`ServiceHistory.HistoryPartitionsTimeIff`).

## Model

| member | source | states |
|---|---|---|
| `DerStrict.StrictIsPrinted` | packages/sdk/src/cert/der-strict.ts:276-352 | the guard accepts a buffer if and only if it is the printed form of some canonical TLV forest |
| `DerStrict.IsStrictDER` | packages/sdk/src/cert/der-strict.ts:340-352 | the guard's verdict is positive exactly on printed buffers, and it is a failure with some reason, offset and path exactly when that is the first failure of the buffer |
| `DerStrict.Walk` | packages/sdk/src/cert/der-strict.ts:276-338 | the recursive walk over a range of the buffer terminates and reports the outcome, reason, offset and path of the specification parser on that range |
| `DerStrict.ParseSound` | packages/sdk/src/cert/der-strict.ts:276-338 | a forest parsed from accepted octets is canonical and encodes to the same octets |
| `DerStrict.ParseComplete` | packages/sdk/src/cert/der-strict.ts:276-338 | every canonical forest is accepted and parsed back, at any offset and under any path |
| `DerStrict.PrinterInjective` | packages/sdk/src/cert/der-strict.ts:276-338 | two canonical forests with the same encoding are the same forest |
| `DerStrict.FailureIsFirst` | packages/sdk/src/cert/der-strict.ts:271-338 | a range fails with this reason, offset and path if and only if it is a printed forest and then a TLV that either fails at its tag (bad header, content rule, or a SET of canonical but unordered TLVs) under the given path, or is constructed and, by the same description, has this first failure in its content, one tag deeper and behind its header |
| `DerStrict.FirstLiesInside` | packages/sdk/src/cert/der-strict.ts:271-275 | such a failure lies inside the range, under the given path and perhaps more tags |
| `DerStrict.CheckSetOrdering` | packages/sdk/src/cert/der-strict.ts:245-269 | the re-walk with its range list and adjacent comparisons decides the ordering predicate on the SET's content |
| `DerStrict.CollectRanges` | packages/sdk/src/cert/der-strict.ts:251-261 | the ranges found by the re-walk are the child encodings in order, and it stops exactly where splitting fails |
| `DerStrict.SplitOfPrinted` | packages/sdk/src/cert/der-strict.ts:245-261 | on printed content the re-walk meets no bad header and finds exactly the children's encodings |
| `DerStrict.OrderingMeansAscending` | packages/sdk/src/cert/der-strict.ts:262-269 | comparing neighbours by the shorter-prefix-first order sorts all pairs by the zero-padded order of section 11.6 of X.690 |
| `DerStrict.CheckContent` | packages/sdk/src/cert/der-strict.ts:292-322 | the per-tag switch, with each check at its place in the buffer, reports the reason the content specification gives |
| `DerOctets.StrictIff` | packages/sdk/src/cert/der-strict.ts:276-352 | told in octets, without the predicates that parser and printer share: a buffer is accepted if and only if it is empty, or a tag, its one minimal length and a content that keeps the rules, and then an accepted buffer |
| `DerOctets.TlvIsStrict` | packages/sdk/src/cert/der-strict.ts:283-335 | of every tag in all four classes: one TLV is accepted if and only if its content keeps the rule of its tag number, is accepted in its turn when bit 5 of the tag is set, and under tag 0x31 has its parts in ascending numeric order |
| `DerOctets.ShapeIsBit5` | packages/sdk/src/cert/der-strict.ts:323-335 | what is parsed is constructed exactly when bit 5 of its tag is set |
| `DerOctets.ReasonByTag` | packages/sdk/src/cert/der-strict.ts:290-322 | the reason reported for a content is that of the rule of its own tag number |
| `DerOctets.HeaderReasons` | packages/sdk/src/cert/der-strict.ts:119-163 | a header is refused as indefinite exactly for the length octet 0x80, and as not minimal exactly for more than four length octets or a value that is below 128, has a leading zero, or is 2^31 and more |
| `DerOctets.MoreOctets` | packages/sdk/src/cert/der-strict.ts:119-163 | more octets behind it change nothing about a header unless it was truncated |
| `DerOctets.PathNamesEnclosing` | packages/sdk/src/cert/der-strict.ts:271-275 | the path of a failure names the tags that stand at ascending positions before it, each of a TLV that reaches beyond the failing octet |
| `DerOctets.LexIsNumeric` | packages/sdk/src/cert/der-strict.ts:227-243 | byte order on strings of one length is the order of their big-endian values |
| `DerContent.CheckIntegerAt` | packages/sdk/src/cert/der-strict.ts:170-178 | the branches on the buffer's octets decide the INTEGER rule on the range |
| `DerContent.CheckBooleanAt` | packages/sdk/src/cert/der-strict.ts:180-184 | the same for the BOOLEAN rule |
| `DerContent.CheckBitStringAt` | packages/sdk/src/cert/der-strict.ts:186-198 | the same for the BIT STRING rule, first and last octet at their places |
| `DerTlv.PrefixFree` | packages/sdk/src/cert/der-strict.ts:227-243 | no canonical encoding is a proper prefix of another, which is why the two SET orders agree |
| `Bytes.LexIsPadded` | packages/sdk/src/cert/der-strict.ts:227-243 | the byte order of the code and the zero-padded order agree on strings of which neither extends the other |
| `Bytes.CompareBytesLex` | packages/sdk/src/cert/der-strict.ts:227-243 | the sign of the result decides the shorter-prefix-first order, and it is zero exactly for equal ranges |
| `DerTlv.ParseHeader` | packages/sdk/src/cert/der-strict.ts:114-164 | the header found in a range, or the reason for none, is that of the header specification |
| `DerTlv.HeaderSound` | packages/sdk/src/cert/der-strict.ts:122-163 | an accepted header is the tag and the one minimal length encoding of its content length, which is below 2^31 |
| `DerTlv.HeaderComplete` | packages/sdk/src/cert/der-strict.ts:122-163 | every tag with the minimal encoding of a length below 2^31 is accepted when the content is there |
| `DerTlv.AccumulateWraps` | packages/sdk/src/cert/der-strict.ts:143-145 | shifting up to four length octets into an int32 gives the big-endian value wrapped to 32 bits |
| `DerTlv.LengthLimit` | packages/sdk/src/cert/der-strict.ts:143-152 | a four-octet minimal length is refused as non-minimal exactly when its top bit is set |
| `DerContent.IntegerCanonical` | packages/sdk/src/cert/der-strict.ts:170-178 | an accepted INTEGER content is the shortest encoding of its two's-complement value, so no two share a value |
| `DerContent.IntegerImage` | packages/sdk/src/cert/der-strict.ts:170-178 | the INTEGER check accepts exactly the contents the encoder writes |
| `DerContent.IntegerRoundTrip` | packages/sdk/src/cert/der-strict.ts:170-178 | every integer has an accepted content that reads back to it |
| `DerContent.CheckOid` | packages/sdk/src/cert/der-strict.ts:204-221 | the nested loops decide the subidentifier rule on the range |
| `DerContent.OidCanonical` | packages/sdk/src/cert/der-strict.ts:204-221 | an accepted OID content re-encodes from its base-128 subidentifiers to the same octets |
| `DerContent.OidRoundTrip` | packages/sdk/src/cert/der-strict.ts:204-221 | every list of subidentifiers encodes to accepted octets that decode to it |
| `DerContent.OidImage` | packages/sdk/src/cert/der-strict.ts:204-221 | the OID check accepts exactly the encodings of non-empty subidentifier lists |
| `DerContent.BitStringRule` | packages/sdk/src/cert/der-strict.ts:186-198 | the BIT STRING check is the canonical rule, except that it also accepts the empty string with 1 to 7 unused bits |
| `DerContent.EmptyBitStringWithUnusedBits` | packages/sdk/src/cert/der-strict.ts:186-198 | a concrete accepted content that is not canonical |
| `DerContent.ContentImage` | packages/sdk/src/cert/der-strict.ts:290-322 | for every tag, no violation is reported exactly when the content is one that the encoder of that type writes |
| `EcdsaTranscode.RoundTripWidth` | packages/lotl-flattener/src/fetch/xmlSignature.ts:183-206 | for an even width w, every signature of w octets survives printing and reading if and only if w is at most 252 |
| `EcdsaSurvival.SurvivesIff` | packages/lotl-flattener/src/fetch/xmlSignature.ts:183-238 | a raw signature comes back if and only if it has two halves, the INTEGER content of r has at most 127 octets, and that of s has too or s is the alternating number 0x82 0x00 ... 0x82 of 129 octets |
| `EcdsaSurvival.PatternSurvives` | packages/lotl-flattener/src/fetch/xmlSignature.ts:183-238 | that number survives as s although its length needs the long form |
| `EcdsaSurvival.WideZerosSurvive` | packages/lotl-flattener/src/fetch/xmlSignature.ts:183-238 | a single signature wider than 252 octets can survive |
| `EcdsaTranscode.RoundTrip` | packages/lotl-flattener/src/fetch/xmlSignature.ts:183-206 | reading back the printed form returns the signature, for every even length up to 252 |
| `EcdsaTranscode.WideFails` | packages/lotl-flattener/src/fetch/xmlSignature.ts:192-193 | the family of wider signatures whose length octet 0x81 is read as a length |
| `EcdsaTranscode.JoseToDerIsStrict` | packages/lotl-flattener/src/fetch/xmlSignature.ts:200-227 | an odd length is refused; otherwise the output is the canonical SEQUENCE of the two unsigned halves, and the strict-DER guard accepts it |
| `EcdsaTranscode.IntegerContentValue` | packages/lotl-flattener/src/fetch/xmlSignature.ts:215-223 | stripping zeros and adding a sign octet writes the shortest two's-complement encoding of the unsigned number |
| `EcdsaTranscode.TranscodeToDer` | packages/lotl-flattener/src/fetch/xmlSignature.ts:200-227 | the printer, with its loops, computes the function the round trip is about |
| `EcdsaTranscode.TranscodeToJose` | packages/lotl-flattener/src/fetch/xmlSignature.ts:183-198 | the reader that advances an offset computes the function the round trip is about, errors included |
| `EcdsaTranscode.DerLength` | packages/lotl-flattener/src/fetch/xmlSignature.ts:229-238 | the digit loop writes the minimal DER length octets |
| `EcdsaTranscode.PadUnsigned` | packages/lotl-flattener/src/fetch/xmlSignature.ts:208-213 | the stripped number right-aligned in the given width, or an error when it is too wide |
| `EcdsaReader.ReaderIs` | packages/lotl-flattener/src/fetch/xmlSignature.ts:183-213 | of any octets: if two INTEGERs stand one after the other where the reader looks, it returns their two values in the given width, or the size error exactly when one does not fit; it finds the input invalid exactly when no such pair stands there |
| `EcdsaReader.PaddedIs` | packages/lotl-flattener/src/fetch/xmlSignature.ts:208-213 | a number is padded to n octets exactly if it is below 256^n, and the octets are its base-256 digits |
| `EcdsaReader.CanonicalIsRead` | packages/lotl-flattener/src/fetch/xmlSignature.ts:183-198 | the DER of any two numbers below 256^w, for w up to 126, is read as these numbers in w octets each |
| `LeafCertWalk.TbsInStrictCert` | packages/circuits/src/leaf-cert-walk.ts:44-56 | on any strict-DER buffer that is one SEQUENCE starting with a SEQUENCE, the walker succeeds and returns exactly the octets of that first child |
| `LeafCertWalk.TbsIsFirstChild` | packages/circuits/src/leaf-cert-walk.ts:44-56 | on the encoding of a canonical certificate the walker's range is the encoding of the first child, right after the outer header |
| `LeafCertWalk.LengthsAgree` | packages/circuits/src/leaf-cert-walk.ts:22-32 | the lighter length reader agrees with the strict header parser on every header that parser accepts |
| `LeafCertWalk.LengthIsWrapped` | packages/circuits/src/leaf-cert-walk.ts:22-32 | on any octets the length is the short form or the value of up to four octets, missing ones taken for zero, wrapped to 32 bits; anything else is refused |
| `LeafCertWalk.WalkIs` | packages/circuits/src/leaf-cert-walk.ts:44-56 | on any octets the walker returns a location exactly when SEQUENCE headers with readable lengths stand at the front and right behind, and the two errors about a missing SEQUENCE are told apart |
| `LeafCertWalk.ReadDerLength` | packages/circuits/src/leaf-cert-walk.ts:22-32 | the accumulation loop computes the length function, missing octets and wrapped values included |
| `LeafCertWalk.FindTbsInCert` | packages/circuits/src/leaf-cert-walk.ts:44-56 | the straight-line walk computes the location function |
| `MerkleTrees.BuildTree` | packages/lotl-flattener/src/tree/merkle.ts:41-68 | a negative depth and too many leaves are told apart as errors; otherwise the root of the full 2^depth tree over the zero-padded leaves, with every layer the filled prefix of that tree's layer, of length ceil(n / 2^level) |
| `MerkleTrees.BuildLayers` | packages/sdk/src/policy/index.ts:117-133 | the same loop in the policy copy: each stored layer is the filled prefix of the full tree's layer, of length ceil(n / 2^level) |
| `MerkleTrees.ZeroHashes` | packages/sdk/src/policy/index.ts:49-55 | entry i is the root of an empty tree of depth i |
| `MerkleTrees.FilledIsCeiling` | packages/lotl-flattener/src/tree/merkle.ts:53-63 | halving and rounding up level times leaves ceil(n / 2^level) entries |
| `MerkleTrees.ProveInclusion` | packages/lotl-flattener/src/tree/merkle.ts:84-109 | path and direction entries level by level, with the errors for no layers and negative indices |
| `MerkleTrees.ProveWithZeros` | packages/sdk/src/policy/index.ts:136-154 | the policy copy's loop writes the same entries, for any index |
| `MerkleTrees.ProofIsSiblings` | packages/lotl-flattener/src/tree/merkle.ts:94-109 | for every index below 2^31, also past the last leaf, the proof consists of the full tree's siblings and the index's bits |
| `MerkleSpec.RootIsFullRoot` | packages/lotl-flattener/src/tree/merkle.ts:65-67 | the node the layers lead to is the root of the full tree over the padded leaves |
| `MerkleSpec.PairsLeadToRoot` | packages/lotl-flattener/src/tree/merkle.ts:53-67 | hashing neighbours pairwise, the left one first, level by level from the leaves up, gives the same root as splitting from the top |
| `MerkleSpec.PathRecomputesRoot` | packages/sdk/src/policy/index.ts:91-106 | the siblings of any index below 2^depth recompute the full root from the padded leaf |
| `MerkleSpec.BitsSpellIndex` | packages/sdk/src/policy/index.ts:145-152 | the direction bits are the binary digits of the index |
| `MerkleTrees.DirectionsSpellIndex` | packages/lotl-flattener/src/tree/merkle.ts:94-109 | with the 32-bit shift of the source the directions spell the index if and only if it is below 2^31 |
| `MerkleTrees.RecomputePolicyRoot` | packages/sdk/src/policy/index.ts:91-106 | the fold over the path, with missing directions read as left |
| `MerkleTrees.BuildPolicyInclusionProof` | packages/sdk/src/policy/index.ts:73-89 | a proof exactly for the indices of leaves, since elsewhere the undefined leaf makes the call throw; it carries the leaf, recomputes the tree's root below 2^31, and its directions spell the index exactly below 2^31 |
| `MerkleTrees.PolicyProofIsSound` | packages/sdk/src/policy/index.ts:136-154 | for every index within capacity and below 2^31, past the last leaf too, the produced proof recomputes the full root and its directions spell the index |
| `MerkleTrees.ProofOpensRootIff` | packages/sdk/src/policy/index.ts:136-154 | for any index, with an injective hash, the produced proof recomputes the full root from a leaf exactly when leaf and path are those of the index that its directions lead to |
| `MerkleTrees.LargeIndexFails` | packages/sdk/src/policy/index.ts:136-154 | at depth 32 with one non-zero leaf, the proof for index 2^31 does not recompute the root |
| `MerkleTrees.PastFilledIsEmpty` | packages/lotl-flattener/src/tree/merkle.ts:53-63 | what a layer leaves out are roots of empty trees only |
| `MerkleSpec.ForgeryCollides` | packages/sdk/src/policy/index.ts:91-134 | of any hash: an opening of the root along any direction array, other than the honest one of the index it leads to, collides with that one at a level that the lemma returns |
| `MerkleSpec.OpeningsCollide` | packages/sdk/src/policy/index.ts:91-106 | of any hash: two different openings with one value along one direction array have a level at which different inputs have the same hash |
| `MerkleSpec.RootsCollide` | packages/sdk/src/policy/index.ts:108-134 | of any hash: two different full leaf lists with one root have nodes whose different children have the same hash |
| `MerkleSpec.TreeIsBinding` | packages/sdk/src/policy/index.ts:91-134 | with an injective hash, every direction array a verifier is given leads to one index of the tree, and along it a leaf and a path recompute the root if and only if they are the padded leaf and the siblings of that index |
| `MerkleSpec.TreeIsBindingAt` | packages/sdk/src/policy/index.ts:91-134 | the same for the direction bits of a given index |
| `MerkleSpec.SpellingIsUnique` | packages/sdk/src/policy/index.ts:145-152 | an array of zeros and ones spells an index exactly when the index is in range and the array is its direction bits |
| `MerkleSpec.FullRootInjective` | packages/sdk/src/policy/index.ts:108-134 | with an injective hash, full trees of one depth with the same root have the same leaves |
| `MerkleSpec.RootsEqualIffPaddedEqual` | packages/sdk/src/policy/index.ts:108-134 | with an injective hash, two leaf lists share a root exactly when they are equal after zero padding |
| `MerkleTrees.FixtureLayers` | packages/contracts/script/generate-merkle-fixtures.ts:65-82 | the fixture builder's layers, with its empty-root shortcut and its own zero seed, also cover the full tree |
| `MerkleTrees.FixtureProof` | packages/contracts/script/generate-merkle-fixtures.ts:85-100 | siblings of the full tree, and pathBits equal to the index itself |
| `MerkleTrees.BuildFixtureTree` | packages/contracts/script/generate-merkle-fixtures.ts:59-102 | root of the full tree and all leaf proofs, or an error exactly above capacity |
| `Sponge.EncodingInjective` | packages/lotl-flattener/src/ca/keyCommit.ts:65-92 | for every rate, distinct byte strings never give the same sequence of zero-filled windows |
| `Sponge.AbsorbBreaks` | packages/lotl-flattener/src/ca/keyCommit.ts:81-91 | of any compression: two different window sequences with one state contain two different rounds with the same outcome, or a round with outcome 0, which the lemma returns |
| `Sponge.ChunkHashBreaks` | packages/lotl-flattener/src/ca/keyCommit.ts:65-92 | the same for two different byte strings with one hash, for every rate |
| `Sponge.KeyCommitBreaks` | packages/lotl-flattener/src/ca/keyCommit.ts:106-112 | two different admissible keys with one commitment collide in the outer hash or break the sponge |
| `Sponge.ChunkHashInjective` | packages/lotl-flattener/src/ca/keyCommit.ts:65-92 | if the compression is injective and never 0, the chunk hash is injective, for every rate |
| `Sponge.KeyCommitInjective` | packages/lotl-flattener/src/ca/keyCommit.ts:106-112 | under the same hypotheses two admissible keys share a commitment exactly when they are equal |
| `Sponge.ChunkBound` | packages/circuits/src/poseidon-chunk-hash.ts:38-60 | every absorbed chunk is below 2^248 and so below the field order |
| `Sponge.RoundCount` | packages/circuits/src/poseidon-chunk-hash.ts:38-60 | the number of absorbed windows is floor(ceil(L / 31) / rate) + 1 |
| `Sponge.AbsorbInjective` | packages/circuits/src/poseidon-chunk-hash.ts:48-58 | with an injective compression that is never 0, the state determines the windows and their number |
| `Sponge.PackChunks` | packages/lotl-flattener/src/ca/keyCommit.ts:70-80 | the packing loop computes the chunk list |
| `Sponge.AbsorbChunks` | packages/lotl-flattener/src/ca/keyCommit.ts:82-90 | the window loop absorbs the zero-filled windows in order |
| `Sponge.PoseidonChunkHashVarT7` | packages/lotl-flattener/src/ca/keyCommit.ts:65-92 | rate 5: an error above 600 octets, the chunk hash below |
| `Sponge.PoseidonChunkHashVar` | packages/circuits/src/poseidon-chunk-hash.ts:38-60 | rate 15: the chunk hash |
| `Sponge.CommitKey` | packages/lotl-flattener/src/ca/keyCommit.ts:106-112 | the domain-separated commitment of the chunk hash |
| `SpongeLayout.WindowsAre` | packages/lotl-flattener/src/ca/keyCommit.ts:70-90 | told in octets of the input: entry k, in window k / rate at place k % rate, is the big-endian value of octets 31k to 31k + 31 for every chunk, then the length, then zeros |
| `SpongeLayout.HashIsLastState` | packages/lotl-flattener/src/ca/keyCommit.ts:81-91 | the hash is the last of the states that start at 0 and each compress the one before with its window |
| `SpongeLayout.CommitmentIs` | packages/lotl-flattener/src/ca/keyCommit.ts:106-112 | the commitment is the outer hash of the domain constant and that state, at rate 5 and up to 600 octets |
| `Limbs.DecomposeByIndex` | packages/lotl-flattener/src/ca/spkiCommit.ts:46-60 | shifting by the limb index, as the reference and the flattener do, computes the six 43-bit digits, or an error for a wrong length |
| `Limbs.DecomposeRunning` | packages/circuits/src/limbs.ts:76-89 | the running shift computes the same six digits, with the same error |
| `Limbs.LimbsReconstruct` | packages/circuits/src/limbs.ts:76-89 | six limbs below 2^43, the top one below 2^41, whose weighted sum is the 256-bit value |
| `Limbs.Limbs643Injective` | packages/sdk/src/core/index.ts:254-267 | different 32-octet values have different limbs |
| `Limbs.PkCoordToLimbs` | packages/circuits/src/limbs.ts:26-40 | the nested loops compute the four 64-bit limbs, least significant first |
| `Limbs.Limbs464Reconstruct` | packages/sdk/src/core/index.ts:236-248 | four limbs below 2^64 whose weighted sum is the 256-bit value |
| `Limbs.SubjectSerialToLimbs` | packages/circuits/src/limbs.ts:50-65 | little-endian limbs of the zero-padded serial, or an error for a refused length |
| `Limbs.SerialReconstruct` | packages/circuits/src/limbs.ts:50-65 | four limbs below 2^64 that spell the serial's little-endian value |
| `Limbs.SerialInjective` | packages/sdk/src/core/index.ts:373-391 | serials are equal exactly when their limbs and their lengths are |
| `Limbs.Bytes32ToHiLo` | packages/sdk/src/core/bytes32ToHiLo.ts:17-26 | the two loops compute the 128-bit halves |
| `Limbs.HiLoToBytes32` | packages/sdk/src/core/bytes32ToHiLo.ts:32-51 | the byte writer computes the joined octets, or the range error |
| `Limbs.HiLoRoundTrip` | packages/sdk/src/core/bytes32ToHiLo.ts:17-51 | joining the halves of 32 octets returns them |
| `Limbs.LoHiRoundTrip` | packages/sdk/src/core/bytes32ToHiLo.ts:17-51 | splitting the joined octets returns the halves |
| `ShaPad.ShaPadCircuits` | packages/circuits/src/build-witness-v5.ts:84-93 | the circuits copy computes the padding function |
| `ShaPad.Sha256PadSdk` | packages/sdk/src/core/index.ts:209-221 | the SDK copy computes the same function |
| `ShaPad.PaddedLayout` | packages/circuits/src/build-witness-v5.ts:84-93 | the layout of section 5.1.1 of FIPS 180-4: message, 0x80, the least number of zero octets that completes a block, and the bit length modulo 2^64 |
| `ShaPad.PaddedLength` | packages/circuits/src/build-witness-v5.ts:84-93 | the output length is the least multiple of 64 that is at least n + 9 |
| `ShaPad.PaddedInjective` | packages/sdk/src/core/index.ts:209-221 | padding is injective, for messages of every length |
| `ShaPad.TrailerIsBitLength` | packages/sdk/src/core/index.ts:209-221 | the last eight octets are the bit length exactly below 2^61 octets |
| `ShaPad.PaddedFits` | packages/sdk/src/core/index.ts:223-230 | the padded form fits an array of whole blocks exactly when nine octets are left |
| `ShaPad.ZeroPadTo` | packages/circuits/src/build-witness-v5.ts:95-104 | the zero-filled copy, or an error exactly when the data is too long |
| `SpkiCommit.AcceptedKeysCollide` | packages/circuits/scripts/spki-commit-ref.ts:99-106 | of any hash: two different accepted keys share a commitment only with a collision of the hash among the inputs that the two commitments hash |
| `SpkiCommit.RefInjective` | packages/circuits/scripts/spki-commit-ref.ts:99-106 | with an injective hash, accepted keys share a commitment exactly when they are equal |
| `SpkiCommit.CopiesAgree` | packages/lotl-flattener/src/ca/spkiCommit.ts:64-77 | the two copies have the same outcome exactly on wrong lengths and on canonical keys |
| `SpkiCommit.CommitmentOfPoint` | packages/circuits/scripts/spki-commit-ref.ts:54-106 | of any hash: the commitment is the hash of the hashes of the two lists of six 43-bit limbs that spell octets 27 to 58 and 59 to 90, in this order |
| `SpkiCommit.Refusals` | packages/circuits/scripts/spki-commit-ref.ts:36-52 | which keys each copy refuses, and for which reason |
| `SpkiCommit.FlattenerInjectiveOnPoint` | packages/lotl-flattener/src/ca/spkiCommit.ts:64-77 | the copy without the prefix check identifies keys exactly when their last 64 octets agree |
| `SpkiCommit.CanonicalSpkiIsStrict` | packages/circuits/scripts/spki-commit-ref.ts:30-52 | every key with the canonical prefix is strict DER |
| `SpkiCommit.SpkiCommitRef` | packages/circuits/scripts/spki-commit-ref.ts:36-106 | parser checks in order, then the hash of the two coordinate hashes |
| `SpkiCommit.SpkiCommitFlattener` | packages/lotl-flattener/src/ca/spkiCommit.ts:64-77 | length check only, then the same hash |
| `CeremonyProtocol.PublishedRoundsChain` | scripts/ceremony-coord/scripts/verify-contribution.ts:124-196 | in every run each published contributor entry names a stored object that passed the R1CS check, its attestation is that object's hash, and its history extends every earlier round's and has (round 0's count) + k entries |
| `CeremonyProtocol.NothingIsLost` | scripts/ceremony-coord/src/r2.ts:69-98 | in every run a stored round object never changes and the history of statuses only grows |
| `CeremonyProtocol.RunsAreSerial` | scripts/ceremony-coord/scripts/publish-status.ts:201-260 | in every interleaving of publishers the stored statuses are one serial replay of the committed updates, each a transform of its direct predecessor |
| `CeremonyProtocol.NoUpdateLost` | scripts/ceremony-coord/src/r2.ts:153-169 | in every run an earlier contributor list is a prefix of every later one |
| `CeremonyProtocol.StepKeeps` | scripts/ceremony-coord/src/r2.ts:118-169 | every step of every process keeps the protocol invariant, stored objects and stored versions |
| `CeremonyProtocol.RunKeeps` | scripts/ceremony-coord/scripts/verify-contribution.ts:157-196 | the invariant over whole runs: what a verifier holds is what is stored, attestations are sound, statuses are consistent and serial |
| `CeremonyProtocol.SerialReplay` | scripts/ceremony-coord/scripts/publish-status.ts:201-260 | a serial log replays from its first version to its last |
| `CeremonyProgress.PublishLandsIff` | scripts/ceremony-coord/scripts/publish-status.ts:201-260 | in every fair run and interleaving: a publication adds its version, the transform of the status current at the write by the requested command under the new tag, exactly when the command is accepted and the tag read is still current; otherwise the store is unchanged |
| `CeremonyProgress.WriteLaw` | scripts/ceremony-coord/src/r2.ts:153-169 | the conditional write extends the log by the transform of the current body when the tag is current, does nothing when it is stale, and ends its publisher |
| `CeremonyProgress.OutOfTurn` | scripts/ceremony-coord/scripts/verify-contribution.ts:157-196 | verifiers and publishers take their steps in order: a step out of turn changes nothing |
| `CeremonyProgress.AttestsIff` | scripts/ceremony-coord/scripts/verify-contribution.ts:157-196 | in every interleaving a verifier attests the hash of the stored file exactly when the file is consistent and one entry longer than the previous round |
| `CeremonyProgress.UploadLandsIff` | scripts/ceremony-coord/src/r2.ts:86-98 | a minted round is uploaded exactly when its key is free |
| `CeremonyProgress.BootstrapLandsIff` | scripts/ceremony-coord/scripts/round-zero.ts:112-187 | the seed and the first status are stored exactly when there is none yet, the status only behind the seed and with at least one round planned |
| `CeremonyProgress.RoundGoesThroughIff` | scripts/ceremony-coord/scripts/publish-status.ts:142-260 | from every reachable state, minting, uploading, verifying and publishing the next round adds exactly one status with exactly that contributor (minted name and profile, hash of the file, time of attestation) if and only if the file is consistent and extends the previous round |
| `CeremonyStatus.ReachableConsistent` | scripts/ceremony-coord/scripts/publish-status.ts:142-199 | every status reachable from round zero has round = contributors + 1, rounds numbered from 1, beacon height and hash together, beacon only on a complete chain, final hash only after the beacon |
| `CeremonyStatus.TransformKeeps` | scripts/ceremony-coord/scripts/publish-status.ts:182-235 | one update keeps all that, only extends the contributor list, and takes back neither beacon nor final hash |
| `CeremonyStatus.RoundAcceptedIffNext` | scripts/ceremony-coord/scripts/publish-status.ts:142-164 | on a consistent status a round is accepted exactly when it is the next one, a published one is refused as such, any other as unexpected, and an accepted one appends one entry made of the pending metadata and the attestation and touches nothing but round and opening time besides |
| `CeremonyStatus.CircuitAcceptedIffNext` | scripts/ceremony-coord/src/types.ts:79-121 | a circuit round is accepted exactly when it is that circuit's next one, and refused with one of two errors otherwise |
| `CeremonyStatus.BeaconAcceptedIffComplete` | scripts/ceremony-coord/scripts/publish-status.ts:182-190 | the beacon is accepted exactly on a complete chain and changes its height and its hash to the given ones, and nothing else |
| `CeremonyStatus.FinalizeAcceptedIffBeacon` | scripts/ceremony-coord/scripts/publish-status.ts:192-199 | the final hash is accepted exactly after the beacon and is set to the given one, and nothing else changes |
| `CeremonyStatus.PublicationIs` | scripts/ceremony-coord/scripts/publish-status.ts:231-235 | a publication is its command and then the phase: the override, or live exactly with a final hash |
| `CeremonyStatus.PublishedFromUpdates` | scripts/ceremony-coord/scripts/publish-status.ts:142-260 | in every run from round zero the published beacon is that of the last beacon update, the final hash that of the last finalizing one, and contributor k that of a round update with number k |
| `CeremonyStatus.PhaseBackwardsIff` | scripts/ceremony-coord/scripts/publish-status.ts:231-235 | an update moves the phase back exactly when its override asks for a lower phase, or it has none, the phase is live without a final hash, and the update does not finalize |
| `CeremonyStatus.PhaseFallsBack` | scripts/ceremony-coord/scripts/publish-status.ts:231-235 | both kinds of fall happen on statuses reachable from round zero |
| `CeremonyStatus.PhaseMonotone` | scripts/ceremony-coord/src/types.ts:131-141 | without overrides the phase never moves backwards between any two points of a run |
| `CeremonyStatus.LiveMeansFinal` | scripts/ceremony-coord/src/types.ts:137-141 | without overrides live means finalised, and recruiting means no contributors |
| `CeremonyStatus.StateAgreesWithPhase` | scripts/ceremony-coord/src/types.ts:123-129 | without overrides the derived state is complete exactly when the phase is live, in progress only in the live ceremony, and planned while recruiting |
| `CeremonyStatus.DerivedIs` | scripts/ceremony-coord/src/types.ts:123-141 | when each derived phase and state is reached, for any status, consistent or not |
| `CeremonyStatus.CircuitsCommute` | scripts/ceremony-coord/src/types.ts:79-121 | updates of different circuits commute |
| `CeremonyStatus.CircuitAndGlobalCommute` | scripts/ceremony-coord/scripts/publish-status.ts:166-180 | a circuit update commutes with every global one |
| `CeremonyStatus.PublicationsCommute` | scripts/ceremony-coord/scripts/publish-status.ts:207-235 | whole publications on different parts commute, the phase included, when they give the same override or none |
| `CeremonyStatus.CircuitIsolated` | scripts/ceremony-coord/src/types.ts:79-121 | a circuit update touches its own entry only, advances it by one, records the contributor and the time, and keeps its final hash |
| `CeremonyStatus.InitialConsistent` | scripts/ceremony-coord/scripts/round-zero.ts:153-164 | the bootstrap status is consistent and recruiting, with nothing in it but the planned rounds and the opening time |
| `CeremonyStore.R2Bucket.PutRoundIfAbsent` | scripts/ceremony-coord/src/r2.ts:86-98 | write-once: the store changes exactly when the key was absent |
| `CeremonyStore.R2Bucket.PutStatusIfAbsent` | scripts/ceremony-coord/scripts/round-zero.ts:165-175 | write-once for the status |
| `CeremonyStore.R2Bucket.ReadStatusWithEtag` | scripts/ceremony-coord/src/r2.ts:126-138 | the current body with its tag, or an error when there is none |
| `CeremonyStore.R2Bucket.WriteStatusConditional` | scripts/ceremony-coord/src/r2.ts:153-169 | compare-and-swap: the store changes exactly when the tag still matches |
| `CeremonyStore.R2Bucket.RoundZero` | scripts/ceremony-coord/scripts/round-zero.ts:112-187 | the bootstrap succeeds exactly on an empty store, and what it leaves behind in each failing case |
| `CeremonyStore.R2Bucket.PublishStatus` | scripts/ceremony-coord/scripts/publish-status.ts:201-260 | one unhindered read-transform-write: the new version is the transform, or nothing changes |
| `CeremonyStore.SnarkjsChainVerify` | scripts/ceremony-coord/scripts/verify-contribution.ts:124-148 | accepts exactly the histories that are the previous one and one more entry |
| `BindingCore.ExtractsPrinted` | packages/circuits/src/binding-offsets.ts:62-131 | on every printed binding the extractor succeeds exactly when the context starts with 0x; then every offset and length denotes exactly the printed field of that name, else the error carries the context's length |
| `BindingCore.JcsFindsExactlyTheKeys` | packages/sdk/src/core/index.ts:287-298 | on every printed binding a key is found exactly if it is one of the seventeen, once, where the extractor's scan ends minus the key literal |
| `BindingLayout.PrintIsBindingJson` | packages/circuits/scripts/emit-zkqes2-fixture.ts:53-74 | the entry-by-entry printer writes the nested canonical layout of the source, object by object |
| `BindingCore.PrintedFieldsUnique` | packages/circuits/scripts/emit-zkqes2-fixture.ts:53-74 | the printer is injective: bindings with the same text are equal, truth values included |
| `BindingCore.KeyOccursOnce` | packages/circuits/scripts/emit-zkqes2-fixture.ts:53-74 | whatever the values, a key literal occurs in the text exactly once, where its member begins |
| `BindingCore.OnlyAtEntries` | packages/circuits/src/binding-offsets.ts:20-27 | in a text of members a key literal occurs only at a member with that key, never inside or across values |
| `BindingCore.OnlyInDocument` | packages/sdk/src/core/index.ts:287-293 | every occurrence of a key literal in the text is the start of a member with that key |
| `BindingCore.DigitsRoundTrip` | packages/circuits/src/binding-offsets.ts:40-48 | decimal digits read back to the number, and none has a zero in front |
| `BindingCore.FlagsArePrinted` | packages/circuits/scripts/emit-zkqes2-fixture.ts:53-74 | behind each of the four assertion keys stands the word true or false that its value asks for |
| `BindingCore.JcsMeansOnlyMatch` | packages/sdk/src/core/index.ts:287-298 | the scanner returns a position exactly when the literal occurs there and nowhere else |
| `BindingScan.ExtractionGives` | packages/circuits/src/binding-offsets.ts:62-131 | of every text: these offsets are returned if and only if each is where its search ends, the policy keys searched behind the policy literal, and the context begins with 0x |
| `BindingScan.ExtractionFails` | packages/circuits/src/binding-offsets.ts:62-131 | of every text: the error names the first search in order that finds nothing, or all find something and the context, whose length it carries, is not hex |
| `BindingScan.JcsErrors` | packages/sdk/src/core/index.ts:287-298 | a key is reported missing exactly when its literal stands nowhere, and duplicate exactly when it stands twice |
| `BindingOffsets.ExtractBindingOffsets` | packages/circuits/src/binding-offsets.ts:62-131 | the sequence of scans, with the first failing key as error, computes the offsets function |
| `BindingOffsets.IndexOf` | packages/sdk/src/core/index.ts:397-405 | the first occurrence at or after the start, or -1 when there is none |
| `BindingOffsets.IndexFrom` | packages/circuits/src/binding-offsets.ts:20-27 | the least position at or after the start where the literal occurs |
| `BindingOffsets.FindJcsKeyValueOffset` | packages/sdk/src/core/index.ts:287-298 | first and second search compute the unique-offset function, errors included |
| `BindingOffsets.LengthOfQuotedValue` | packages/circuits/src/binding-offsets.ts:34-38 | the octets up to the next quote or the end |
| `BindingOffsets.LengthOfNumberValue` | packages/circuits/src/binding-offsets.ts:40-48 | the maximal run of digits |
| `ProverProtocol.SettlesOnceWithOwnProof` | packages/sdk/src/prover/snarkjsWorker.ts:72-114 | in every run a call settles at most once, keeps no listener once settled, and resolves only with the proof found for its own input, uncancelled |
| `ProverProtocol.SettledForGood` | packages/sdk/src/prover/snarkjsWorker.ts:89-114 | once settled, by an abort or otherwise, nothing later in any run touches the call |
| `ProverProtocol.OneTerminalReply` | packages/sdk/src/prover/snarkjsWorkerEntry.ts:56-131 | in every run the inflight map holds exactly the ids taken and not finished, and each finished proof has had exactly one terminal reply |
| `ProverProtocol.NoCallForgotten` | packages/sdk/src/prover/snarkjsWorker.ts:121-134 | in every run an unsettled call has its prove message waiting, its proof in flight, or its terminal reply on the way |
| `ProverProtocol.CancelReachesReply` | packages/sdk/src/prover/snarkjsWorkerEntry.ts:61-65 | a cancel message taken before the proof finished turns its outcome into an error reply |
| `ProverProgress.EveryCallCanSettle` | packages/sdk/src/prover/snarkjsWorker.ts:62-136 | from every point of every run an unsettled call comes to its end when the worker takes what was sent, its proof ends and the replies are read: resolved with that proof or rejected with that error |
| `ProverProgress.CrashRejectsAll` | packages/sdk/src/prover/snarkjsWorker.ts:100-105 | a worker error rejects every unsettled call with its message and leaves the settled ones |
| `ProverProgress.ReplyIsDelivered` | packages/sdk/src/prover/snarkjsWorker.ts:82-98 | a delivered reply ticks or settles the unsettled call with its id, with its proof or message, and no other call |
| `ProverProgress.AbortCancels` | packages/sdk/src/prover/snarkjsWorker.ts:107-114 | an abort cancels an unsettled call and tells the worker, and does nothing to a settled one |
| `ProverProgress.CallBegins` | packages/sdk/src/prover/snarkjsWorker.ts:60-135 | a new call has the next id; it listens with its input sent, or is cancelled at once |
| `ProverProgress.MessageIsTaken` | packages/sdk/src/prover/snarkjsWorkerEntry.ts:59-98 | a prove message puts its id in flight and is answered with ten per cent; a cancel message marks its id if that is in flight |
| `ProverProgress.ProofEndPosts` | packages/sdk/src/prover/snarkjsWorkerEntry.ts:104-130 | the end of a proof takes its id out of flight and posts the one reply that result and cancel flag ask for |
| `ProverProgress.HeartbeatPosts` | packages/sdk/src/prover/snarkjsWorkerEntry.ts:89-96 | a heartbeat posts a tick for an id in flight only |
| `ProverProtocol.StepKeeps` | packages/sdk/src/prover/snarkjsWorkerEntry.ts:58-132 | every action keeps the protocol invariant |
| `ProverProtocol.RunKeeps` | packages/sdk/src/prover/snarkjsWorker.ts:62-136 | the invariant over all runs, with the cause of every outcome |
| `ProverObjects.SnarkjsWorkerProver.Prove` | packages/sdk/src/prover/snarkjsWorker.ts:60-135 | ids are dealt out one by one from the counter that all provers share; the call starts listening with its prove message sent, or cancelled when its signal was aborted |
| `ProverObjects.ProveCall.HandleMessage` | packages/sdk/src/prover/snarkjsWorker.ts:82-98 | the message listener is the transition of the call, id check and settled flag included |
| `ProverObjects.ProveCall.HandleError` | packages/sdk/src/prover/snarkjsWorker.ts:100-105 | the error listener is the transition of the call |
| `ProverObjects.ProveCall.HandleAbort` | packages/sdk/src/prover/snarkjsWorker.ts:107-114 | the abort listener cancels at the worker and rejects, unless settled |
| `ProverObjects.WorkerScope.OnMessage` | packages/sdk/src/prover/snarkjsWorkerEntry.ts:59-98 | the worker's listener on its map of shared records is the transition of the inflight map |
| `ProverObjects.WorkerScope.OnProofEnded` | packages/sdk/src/prover/snarkjsWorkerEntry.ts:104-130 | the continuation removes the id and posts the one terminal reply that its own record's cancel flag asks for |
| `ServiceHistory.PartitionsTimeIff` | packages/lotl-flattener/src/fetch/msTl.ts:240-258 | over a sorted history exactly one state is active at every time from the first start on, if and only if every later start is above 1 |
| `ServiceHistory.HistoryPartitionsTimeIff` | packages/lotl-flattener/src/fetch/msTl.ts:240-258 | the same of the parser's output for every input history |
| `ServiceHistory.ActiveIsInForce` | packages/web/src/lib/qesVerify.ts:298-302 | the active state is the last one that has started, also among equal starts |
| `ServiceHistory.NoneBeforeFirst` | packages/web/src/lib/qesVerify.ts:298-302 | no state is active before the first start |
| `ServiceHistory.FilterKeepsInForce` | packages/lotl-flattener/src/filter/qesServices.ts:40-48 | of the emitted services of any history: keeping some of them, by any test of the emitted fields, leaves an active authority at a time exactly when the state in force is kept, and that authority carries that state |
| `ServiceHistory.SortIsStable` | packages/lotl-flattener/src/fetch/msTl.ts:240-248 | the sort yields the states in starting order, equal starts in their old order |
| `ServiceHistory.StableSortUnique` | packages/lotl-flattener/src/fetch/msTl.ts:240-248 | any stable sort by start gives the same list |
| `ServiceHistory.ParseServiceStates` | packages/lotl-flattener/src/fetch/msTl.ts:240-258 | one service for each state: the emitted states are the stable sort of current state and history, each with its own fields, and each ends one second before the next start, or not at all when there is none or it is 0 |

## Left out

- EcdsaTranscode.RoundTripWidth: widths above 2^31 - 256 octets are not covered, because their DER lengths would leave the 32-bit range of the source's shifts. The same holds of EcdsaSurvival.SurvivesIff.
- CeremonyProtocol.RunsAreSerial: assumes that tags identify bodies; without that no compare-and-swap can keep updates.
- Hash, curve and proof-system internals (Poseidon, SHA-256, Groth16, ECDSA, RSA): library code.
- XML, CMS and certificate parsing through libraries, and XML signature checking around the transcoder.
- R2, network, process and file I/O: only write-once and compare-and-swap semantics of the store are kept. Deleting objects by hand is excluded.
- `validateStatusPayload` and the JSON text of the status: the model works on parsed values.
- `findSubjectSerial` and `extractSubjectSerial`: heuristic searches and library parsing.
- `buildWitnessV5` beyond its encoders: field selection and copying that one reads off the body.
- `worker.terminate()` after a proof (`terminateAfterProve` is off), the spacing of heartbeats and progress percentages: timing.
- Termination of proofs: the worker results are about safety, not about every proof finishing.
- Several workers at once: the runs are those of one worker and all calls on it; only the shared id counter spans provers.
- Optional `display` and `extensions` members of a binding, and string values with a quote in their printed form.
- Non-integer tree depths and indices, and a missing zero list: the types exclude them.
- The web and SDK duplicates of the binding scanner and of the witness builder: same text as the copies modelled.
- React components, configuration, selector tables, ABI encoding and generated data.
