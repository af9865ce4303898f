# Verified model of the membership service

The service enrols agents into Merkle trees, lets them log in with a zero-knowledge proof of
membership, and pays them a share of the revenue.  This project models its stateful core and its
arithmetic in Dafny 4.11 and proves what the design relies on.  `dafny verify dfyconfig.toml` checks all
of it.

**Trees, enrolment and login** (`MerkleSpec`, `IncrementalTree`, `BatchTree`, `Tables`, `Enrolment`,
`EnrolmentRuns`, `RequestOutcome`, `LeafUniqueness`, `WitnessLookup`, `LoginWindow`, `WitnessFreshness`,
`ClientSeparation`, `Database`). The reference tree is a function on whole leaf sequences. The incremental
insertion with its O(depth) frontier and the batch builder are proved against it. The tables are fields of a
class whose methods are the routes; each method is tied to a step function on table values, and the invariant
of the step functions is proved over every run. `RequestOutcome` says what each request is answered on any
reachable tables. Login is proved to accept exactly the newest roots of a client. The pair hash, the zero
hash, the depth and the window are parameters; the source fixes 64 zero digits, 20 and 30.

**Groth16** (`Modular`, `Polynomials`, `Fourier`, `Coset`, `Groth16`, `Groth16Setup`, `Completeness`,
`Groth16Prover`, `Groth16Verifier`, `FinalExponentiation`, `MillerLoop`, `LockedAccumulation`).  A point
is its discrete logarithm modulo the group order, so that group addition is addition and the pairing is
multiplication.  Prover and verifier run as in the source, over arrays in stored (Montgomery) form, and
their composition is proved complete; `Groth16Setup.SetupIsHonest` and `Groth16Verifier.SmallCurve` show
that what is assumed of setup, field and pairing can be met.  The final exponentiation works on logarithms
modulo p^12 - 1, the Miller loop on lines with their powers and on divisors, and the thread pool's
coefficient loop as a state machine over lock, load, add and store steps.

**Keys as text** (`Bech32Checksum`, `BaseConversion`, `Npub`).  The checksum register on 30-bit vectors
(section "Checksum" of BIP 173), also as polynomial arithmetic over 32 elements, the base conversion on bit
strings, the encoder, whose output is characterised exactly, and the decoder.

**Payout ledger** (`Ledger`).  Floor shares, carried-forward rows and payments over any sequence of months:
what each outcome does to an agent, conservation of what each agent earns, and pools that cover what is paid
and owed.

**Smaller cores.**  `Poseidon` with `Euclid`, `Fermat`, `Primality` and `FieldOrder`: the 22-round permutation
is characterised by the law of each round and proved injective, over a field whose order is proved prime.
`FixedBaseTable`: the table of multiples of the secp256k1 base point.  `LittleEndian`, `BinFile`, `ZKey`,
`Witness` and `FileFormat`: the sectioned file format, its two readers, and the round trip through both.

Where the code and its comments differ, the code is modelled:

- `app/routes/enroll.py:12` says that witnesses are updated automatically.  They are saved once.  When one
  stops opening the current root, and when login stops accepting its root, is proved exactly
  (`WitnessFreshness.WitnessFreshIff`, `WitnessFreshness.WitnessAcceptedIff` for a client with one tree and
  `WitnessFreshness.WitnessAcceptedInUnion` for any).
- `app/routes/enroll.py:344-348` describes zero hashes per level.  The level is ignored, so the incremental
  tree and the batch tree agree only under the condition of `BatchTree.BatchAgreesIffPaddingHarmless`.
- Both routes name a tree `client-purpose`, and ids contain dashes, as acme-corp in
  `docs/SDK_QUICK_START.md:92`.  Exactly which clients
  can change each other's accepted roots is `ClientSeparation.SeparatedIff`.
- Both routes compare commitments as text.  Exactly which texts repeat a leaf hash, or the 32 bytes of a
  leaf, is `LeafUniqueness.HashSafeIff` and `LeafUniqueness.BytesSafeIff`.
- The three-gate route stores a commitment as it came, and the witness endpoint looks it up in normalised
  spelling.  Exactly which enrolments it finds is `WitnessLookup.FoundIff`.
- `hash_pair` reads eight digits of each side: `MerkleSpec.OpeningProvesEightDigits` says what an opening then
  proves.
- A decoded npub is not checked: see `Npub.ChecksumIgnored`.
- A "paid" row means that the payment call reported success.  In dry-run mode it does so without paying.

## Model

| member | source | states |
|---|---|---|
| MerkleSpec.SubtreeUnfold | app/routes/enroll.py:396-417 | A non-empty inner node is the pair hash of its two children; an empty subtree is the zero hash at every level. |
| MerkleSpec.TreeAtStable | app/routes/enroll.py:396-417 | Appending leaves never changes a subtree that was already complete. |
| MerkleSpec.PathBitsEntry | app/routes/enroll.py:603-608 | Path bit l is bit l of the leaf index. |
| MerkleSpec.TruePathFolds | app/routes/enroll.py:396-417 | Climbing the true siblings of leaf k passes through every reference node above it, up to the root. |
| MerkleSpec.OpeningBinds | tools/sbm-tree/sbm_tree.py:129-139 | For any tree and any claimed opening at index k, either the opened value reads like leaf k or the lemma returns two inputs of the pair hash that differ, as far as the hash reads them, and hash alike. |
| MerkleSpec.ReadAlikeOpens | app/routes/membership.py:128-136 | The binding goes no further: when the hash reads only part of a value, every value that reads like leaf k opens at index k. |
| MerkleSpec.HashPairReadsEight | app/routes/membership.py:128-136 | Where the external hash never fails, hash_pair depends only on the first eight digits of each side. |
| MerkleSpec.HashPairReads | app/routes/membership.py:128-136 | The external hash gets the first eight digits of the left side and then those of the right; where it fails the other hash gets both strings whole. |
| MerkleSpec.OpeningProvesEightDigits | app/routes/membership.py:128-136 | Under that hash every value with the first eight digits of leaf k opens at index k, and an opened value with others comes with a collision of what is read. |
| IncrementalTree.RunningIsSubtree | app/routes/enroll.py:396-417 | After each round of the insertion loop the running hash is the reference node above the new leaf. |
| IncrementalTree.NextStateAt | app/routes/enroll.py:402-410 | After an insertion every frontier entry at a set bit of the leaf count is the root of the completed left sibling subtree. |
| IncrementalTree.InsertRefines | app/routes/membership.py:148-194 | One O(depth) insertion returns the reference root over all leaves so far and keeps the frontier invariant. |
| IncrementalTree.WitnessFolds | app/routes/enroll.py:396-425 | The siblings and path bits returned by an insertion climb from the new leaf to the returned root. |
| IncrementalTree.IncrementalRefinesFullTree | app/routes/enroll.py:367-425 | For every depth and every sequence of at most 2^depth leaves inserted one by one, the last root returned is the root of the full tree over all of them. |
| BatchTree.ComputeRoot | tools/sbm-tree/sbm_tree.py:129-139 | The loop over a path computes the climb along it. |
| BatchTree.ClimbIsSubtree | tools/sbm-tree/sbm_tree.py:129-139 | Climbing a correct path passes through the reference nodes of the padded tree. |
| BatchTree.HashLayer | tools/sbm-tree/sbm_tree.py:164-172 | One pass over a layer yields exactly the next layer of the reference tree. |
| BatchTree.MerkleTree.constructor | tools/sbm-tree/sbm_tree.py:145-178 | The layers built are all levels of the reference tree over the padded leaves, up to its root. |
| BatchTree.MerkleTree.GetPath | tools/sbm-tree/sbm_tree.py:180-204 | An index of an original leaf gives the siblings and sides of its true path; every other index is refused. |
| BatchTree.MerkleTree.VerifyPaths | tools/sbm-tree/sbm_tree.py:326-337 | The builder's own check of every path against the root never fails. |
| BatchTree.Build | tools/sbm-tree/sbm_tree.py:145-158 | No leaves, or more than 2^depth of them, are refused; otherwise the tree is built. |
| BatchTree.BatchBitsComplementServerBits | tools/sbm-tree/sbm_tree.py:351 | The bits the builder writes (1: sibling on the right) are the complement of the server's path bits. |
| BatchTree.SiblingsOfLastPath | tools/sbm-tree/sbm_tree.py:158-172 | Along the last leaf's path the batch tree and the incremental tree have equal left siblings, and padding against zero on the right. |
| BatchTree.BatchAgreesIffPaddingHarmless | tools/sbm-tree/sbm_tree.py:145-178 | The batch root equals the incremental root exactly when hashing the padding gives the zero hash at each zero bit of the last leaf's index, or else the agreement exhibits a collision. |
| BatchTree.WhenPaddingIsHarmless | tools/sbm-tree/sbm_tree.py:158-172 | The condition holds when H(Z,Z)=Z, and for exactly 2^depth leaves whatever the hash. |
| Tables.LeafHashesPrefix | app/db/__init__.py:198-220 | Earlier leaf rows contribute a prefix of a tree's leaves. |
| Tables.StripFirst | app/routes/membership.py:419 | Removing 0x drops the first occurrence and goes on right after it. |
| Tables.StripNone | app/routes/membership.py:419 | Text without 0x stays as it is. |
| Tables.RootsInAppend | app/db/__init__.py:294-306 | A new root row becomes the newest row of its own tree and of no other. |
| Enrolment.HexHasNoPrefix | app/routes/membership.py:417-423 | A commitment that reads as hex has no 0x left to strip, so normalised text and leaf hash agree. |
| Enrolment.GetOrCreateKeeps | app/routes/membership.py:197-210 | Creating a tree on demand, with the zero root in its history, keeps the invariant. |
| Enrolment.NoConflict | app/db/__init__.py:198-220 | The UNIQUE constraints of the leaf table never fire: the checks before the insertion cover them. |
| Enrolment.AppendKeeps | app/routes/membership.py:438-467 | Insertion, leaf row and witness together keep the invariant; only a full tree is refused. |
| Enrolment.CommitKeeps | app/routes/membership.py:425-467 | Every request on either route, with any outcome, keeps the invariant: counters count leaves, events and commitments stay distinct, root row k is the reference root of the first k leaves, saved witnesses open their recorded roots. |
| Enrolment.RunKeeps | app/routes/membership.py:272-493 | The invariant holds after every sequence of requests, from the empty database. |
| EnrolmentRuns.LeafIndexInjective | app/routes/membership.py:451-457 | No two leaves of a tree share an index. |
| EnrolmentRuns.LeafIndexTaken | app/routes/membership.py:438-457 | Every index below a tree's counter belongs to a stored leaf of it. |
| EnrolmentRuns.WitnessOpensRecordedRoot | app/routes/membership.py:459-467 | After any run, each stored leaf's saved siblings and path bits fold it to the root row recorded right after it, which is the reference root of the leaves up to it. |
| EnrolmentRuns.SecondEnrolled | app/routes/membership.py:425-467 | After one enrolment, a second admissible request for the same tree, with a fresh event, is accepted exactly when its stored text differs; otherwise nothing changes. |
| RequestOutcome.AcceptedIff | app/routes/membership.py:415-467 | After any run, on either route: accepted if and only if the checks pass, the text reads as 32 bytes, the event is stored nowhere, the text is not stored in the request's own tree, and that tree has fewer than 2^depth leaves. |
| RequestOutcome.OutcomeIs | app/routes/membership.py:415-493 | On any reachable tables: a request without a fault is accepted, told its index, root and a witness that folds its leaf to that root, and adds exactly that leaf row and that witness; any other is refused for its first fault, in the route's order, and adds at most an empty tree. |
| RequestOutcome.OtherTreeNoObstacle | app/db/__init__.py:278-286 | The same text in another tree is no obstacle: it is enrolled there as leaf 0. |
| WitnessFreshness.PrefixRoots | app/routes/enroll.py:10-12 | The root of the first k leaves equals the root of all of them exactly if k is all, or the equality exhibits a pair-hash collision or a non-empty subtree with the zero hash. |
| WitnessFreshness.WitnessFreshIff | app/routes/enroll.py:10-12 | After any run, a saved witness opens its tree's current root exactly while no leaf has followed its own, up to the same two exceptions. |
| WitnessFreshness.WitnessGoesStale | app/routes/enroll.py:10-12 | For every hash and every depth of at least one: after two enrolments in one tree the first one's saved witness no longer opens the current root, or the hash exhibits one of the two exceptions. |
| WitnessFreshness.StaleAtDepthOne | app/routes/enroll.py:610-618 | An input where it fails outright: the saved witness does not open the current root, although the hash exhibits exceptions. |
| WitnessFreshness.WitnessAcceptedIff | app/routes/login.py:184-195 | For a client with one tree, login accepts the root of a saved witness exactly while fewer leaves than the window have followed, or when a later root of the window has the same value; such a later root exhibits one of the two exceptions. |
| WitnessFreshness.WitnessAcceptedInUnion | app/routes/login.py:184-195 | For a client with any number of trees: the saved root is one row of the union of its trees, and login accepts it exactly while fewer rows of the union than the window have followed that row, or when one of the last rows has the same value. |
| LeafUniqueness.RunHashesDistinct | app/routes/enroll.py:563-601 | Runs of both routes in which no three-gate text has 0x to remove never put one leaf hash into a tree twice. |
| LeafUniqueness.PrefixRepeatsHash | app/routes/enroll.py:563-601 | Every admissible three-gate text with 0x to remove can be enrolled after the text without it, and repeats its hash. |
| LeafUniqueness.HashSafeIff | app/routes/enroll.py:563-601 | An admissible request never repeats a leaf hash, after any run of requests without 0x, if and only if there is no 0x to remove from its own text. |
| LeafUniqueness.RunLeavesAreBytes | app/routes/membership.py:417-423 | Every leaf of every run spells exactly 32 bytes: the format check agrees with reading the hex. |
| LeafUniqueness.RunBytesDistinct | app/routes/membership.py:417-436 | Runs of plainly spelt requests never put the same 32 bytes into a tree twice. |
| LeafUniqueness.BytesSafeIff | app/routes/membership.py:417-436 | On either route, an admissible request never repeats 32 bytes, after any run of plainly spelt requests, if and only if it is plainly spelt itself. |
| LeafUniqueness.PlainMeans | app/routes/membership.py:417-423 | Plain means, at the door: no blanks on the membership route; no blanks, no 0x and no capitals on the other. |
| LeafUniqueness.BlankAccepted | app/routes/membership.py:417-436 | An input: a text and the same text after a blank are both enrolled by the membership route, for the same bytes. |
| Database.MembershipDb.constructor | app/db/__init__.py:49-68 | A new database is empty and satisfies the invariant. |
| Database.MembershipDb.AddMerkleRoot | app/db/__init__.py:294-306 | Appends one root row and changes nothing else. |
| Database.MembershipDb.CreateMerkleTree | app/db/__init__.py:455-470 | Adds the tree with an all-zero frontier unless it exists. |
| Database.MembershipDb.GetOrCreateTree | app/routes/membership.py:197-210 | Ensures the tree of client and purpose exists, as the step function says. |
| Database.MembershipDb.InsertLeaf | app/routes/membership.py:148-194 | The insertion loop: new state, root row, index and siblings are those of the specification; a full tree is an error that changes nothing. |
| Database.MembershipDb.AddMerkleLeaf | app/db/__init__.py:198-220 | Inserts the row exactly when neither UNIQUE constraint is violated. |
| Database.MembershipDb.AppendLeaf | app/routes/membership.py:438-467 | The shared tail of both routes, tied to the step function on the tables. |
| Database.MembershipDb.EnrollCommitMembership | app/routes/membership.py:415-467 | Accepts exactly the requests without a fault; the answer, the new leaf row and its witness are those of the reference tree, and a refusal names the first fault. |
| Database.MembershipDb.EnrollCommitThreeGate | app/routes/enroll.py:559-618 | The same for the other route, with its own order of checks and raw storage. |
| WitnessLookup.FoundIff | app/routes/membership.py:512-529 | After an accepted request of either route, the witness endpoint finds its commitment exactly if the text was stored in normalised spelling or that spelling was enrolled in the tree before; otherwise whatever it finds is an earlier leaf. |
| WitnessLookup.StoredAsLookedUpMeans | app/routes/enroll.py:565-598 | Every membership request stores the normalised spelling; a three-gate request exactly if its text has no 0x to remove and no capitals. |
| WitnessLookup.EnrolledButNotFound | app/routes/enroll.py:594-600 | The failing input: a first enrolment in another spelling, whose leaf is in the tree and whose witness is not found. |
| Database.MembershipDb.GetWitnessByCommitment | app/db/__init__.py:561-566 | Found exactly for enrolled commitments; it is the row saved for that leaf, with the leaf's index and path bits, folds the leaf to its root, and that root is the tree's recorded root for that index. |
| Database.MembershipDb.GetCurrentRoot | app/db/__init__.py:327-336 | The newest root of a tree is the reference root of all its leaves. |
| Database.MembershipDb.GetMembershipWitness | app/routes/membership.py:497-545 | Succeeds exactly for the client's own tree and an enrolled commitment; the witness folds to its recorded root, shown beside the reference root of all leaves now. |
| Database.MembershipDb.VerifyLogin | app/routes/login.py:157-222 | Accepts exactly well-formed inputs whose root is among the last roots of the client; every accepted attempt is logged under an npub that satisfies the checksum rule and decodes to the key. |
| Database.IsHex64Means | app/routes/login.py:166-176 | The format that login demands of root and key: 64 characters that read as hex and are already in lower case without blanks. |
| LoginWindow.CutoffIsExact | app/db/__init__.py:353-371 | The rows whose id reaches COALESCE(MIN(id),0) of the newest rows are exactly those newest rows. |
| LoginWindow.WindowExact | app/db/__init__.py:339-373 | For every reachable state, client, root and window of at least one: accepted exactly when the root is among the last rows of the union of the client's trees. |
| LoginWindow.AcceptedMeans | app/db/__init__.py:339-373 | The same in terms of the root table alone: some row of a tree of the client has the root, and fewer than the window of the client's rows were added after it. |
| LoginWindow.ZeroWindowAcceptsEveryRoot | app/db/__init__.py:353-371 | With a window of zero the cutoff falls back to 0 and every recorded root of the client is accepted. |
| LoginWindow.PerTreeWindow | app/db/__init__.py:309-324 | The per-tree check accepts exactly the last rows of that tree. |
| LoginWindow.ValidRootsNewestFirst | app/db/__init__.py:309-318 | The list of valid roots is newest first: entry k is the reference root k leaves ago, up to the window or the empty tree. |
| LoginWindow.AcceptedBySomeTree | app/db/__init__.py:321-373 | Acceptance for a client implies that one of its trees accepts the root by itself. |
| LoginWindow.SingleTreeWindow | app/db/__init__.py:321-373 | For a client with one tree the two checks agree. |
| LoginWindow.AcceptedIsRecentPrefix | app/routes/login.py:184-195 | For a client with one tree the accepted roots are exactly the reference roots of the last recorded prefixes of its leaves. |
| LoginWindow.CommitTouchesOnly | app/routes/membership.py:425-467 | A request touches only the tree it names and appends only roots of that tree. |
| ClientSeparation.MeetIff | app/routes/membership.py:199 | Two different clients can name one tree exactly when one id, with a dash after it, begins the other. |
| ClientSeparation.OtherClientCommit | app/db/__init__.py:339-373 | Another client's request leaves a client's recorded roots alone, and with them every answer of the window, exactly unless it is accepted into a tree of that client. |
| ClientSeparation.ClientsSeparated | app/db/__init__.py:339-373 | Clients that cannot meet in a tree name never change what the other's logins accept, after any run. |
| ClientSeparation.SeparatedIff | app/db/__init__.py:339-373 | One client can never change what another's logins accept if and only if neither id, with a dash after it, begins the other. |
| ClientSeparation.ForeignEnrolmentAccepted | app/routes/membership.py:197-210 | Where two clients name one tree, the second one's enrolment changes the first one's recorded roots, and with a window of one row the first one's logins accept that root only. |
| ClientSeparation.AcmeMeetsAcmeCorp | app/routes/membership.py:197-210 | An input: client acme with purpose corp-allowlist does this to client acme-corp with purpose allowlist. |
| ClientSeparation.DashesAreHarmless | app/routes/membership.py:199 | A dash alone does no harm: acme-us and beta-eu are separated both ways. |
| LoginWindow.FreshRootAccepted | app/routes/login.py:184-195 | The root returned by an enrolment is accepted for the tree's client right away. |
| Fourier.GeoVanishes | native/rapidsnark/src/groth16.cpp:131-135 | Orthogonality: the powers of a non-trivial power of a root of unity sum to zero. |
| Fourier.Inversion | native/rapidsnark/src/groth16.cpp:131-135 | Transforming the values back recovers the coefficients, up to the factor n. |
| Fourier.InterpolateValue | native/rapidsnark/src/groth16.cpp:131-135 | The contract of the inverse transform: the interpolated polynomial takes the given values on the domain. |
| Fourier.InterpolateInverts | native/rapidsnark/src/groth16.cpp:131-153 | Transforming forth and back gives the coefficients back. |
| Fourier.LagrangeAtPoints | native/rapidsnark/src/groth16.cpp:211-214 | The Lagrange basis is 1 at its own point and 0 at the other points of the domain. |
| Fourier.VanishingIsZero | native/rapidsnark/src/groth16.cpp:121-202 | A polynomial with n coefficients that vanishes on the domain is zero. |
| Fourier.DivisibleByVanishing | native/rapidsnark/src/groth16.cpp:121-202 | A polynomial with 2n coefficients that vanishes on the domain is divisible by x^n - 1, with its upper half as quotient. |
| Coset.ShiftIsTwist | native/rapidsnark/src/groth16.cpp:141-145 | Multiplying entry i by root(domainPower+1, i) turns p(x) into p(g x). |
| Coset.PipelineOnCoset | native/rapidsnark/src/groth16.cpp:131-190 | For every domain size, inverse transform, shift and transform leave in entry j the value of the interpolating polynomial at the j-th odd power of the 2n-th root. |
| Coset.NumeratorVanishes | native/rapidsnark/src/groth16.cpp:121-129 | A·B - C vanishes on the domain when C interpolates the entrywise product. |
| Coset.PowerOnCoset | native/rapidsnark/src/groth16.cpp:141-145 | x^n is -1 at every coset point, so x^n - 1 is -2 there. |
| Coset.QuotientDivides | native/rapidsnark/src/groth16.cpp:121-202 | A·B - C equals h(x)·(x^n - 1) everywhere, and -2·h on the coset. |
| Coset.CosetValuesDetermine | native/rapidsnark/src/groth16.cpp:211-214 | The coset values of a polynomial vanishing on the domain determine its value at any x through the odd Lagrange basis. |
| Groth16.RowSumsStored | native/rapidsnark/src/groth16.cpp:97-119 | The coefficient loop leaves in a and b the constraint rows against the witness, in stored form. |
| Groth16.Transpose | native/rapidsnark/src/groth16.cpp:97-119 | Summing rows against a basis is summing columns against the witness. |
| Groth16.HScalarsOnCoset | native/rapidsnark/src/groth16.cpp:121-202 | The scalars of the H multiexponentiation are the values of A·B - C on the coset. |
| Completeness.PublicAndPrivate | native/rapidsnark/src/groth16.cpp:55-80 | The public part times gamma and the private part times delta add up to beta·a + alpha·b + o. |
| Completeness.HPart | native/rapidsnark/src/groth16.cpp:211-214 | The H multiexponentiation times delta is a·b minus the interpolated product, at tau. |
| Completeness.ProofValues | native/rapidsnark/src/groth16.cpp:226-260 | The three proof points in terms of the circuit's values at tau and the blinding scalars. |
| Completeness.AcceptedIff | native/rapidsnark/src/groth16.cpp:50-264 | An honestly computed proof is accepted exactly when the interpolated rows A∘B and C agree at tau, whatever the blinding scalars. |
| Completeness.Complete | native/rapidsnark/src/groth16.cpp:50-264 | Completeness: for every honest setup, satisfying witness with w[0]=1, and r and s, the pairing equation holds on the public inputs. |
| Groth16Prover.Prover.MultiMulByScalar | native/rapidsnark/src/groth16.cpp:55-80 | A multiexponentiation is the scalar product of points and scalars. |
| Groth16Prover.Prover.ProcessCoefs | native/rapidsnark/src/groth16.cpp:82-119 | The loop adds each product to its row of a or b; the arrays end as the row sums. |
| Groth16Prover.Prover.ShiftInPlace | native/rapidsnark/src/groth16.cpp:141-145 | The in-place shift is the specified one. |
| Groth16Prover.Prover.ToCoset | native/rapidsnark/src/groth16.cpp:131-190 | Inverse transform, shift and transform of one vector, in place. |
| Groth16Prover.Prover.MultiplyInto | native/rapidsnark/src/groth16.cpp:121-129 | c becomes the stored product of a and b. |
| Groth16Prover.Prover.CombineInPlace | native/rapidsnark/src/groth16.cpp:195-203 | a becomes a·b - c, out of stored form. |
| Groth16Prover.Prover.ComputeH | native/rapidsnark/src/groth16.cpp:82-203 | From the witness to the H scalars. |
| Groth16Prover.Prover.Prove | native/rapidsnark/src/groth16.cpp:50-264 | The proof points are those the algebra speaks about, for every r and s. |
| Groth16Verifier.Verifier.PairingCheck | native/rapidsnark/src/groth16.cpp:733-752 | True exactly when the products of the exponents sum to zero; skipping zero points changes nothing. |
| Groth16Verifier.Verifier.Verify | native/rapidsnark/src/groth16.cpp:375-425 | A wrong number of inputs is an error; otherwise the pairing equation decides. |
| Groth16Verifier.Verifier.UnstoredPublic | native/rapidsnark/src/prover.cpp:85-95 | The public inputs written out are the witness entries 1 to nPublic, and read back as such. |
| Groth16Verifier.Verifier.ProveAndVerify | native/rapidsnark/src/prover.cpp:131-165 | Prover and verifier end to end: accepted exactly when the interpolated rows agree at tau, and always for a satisfying witness. |
| FinalExponentiation.HardTimesOrder | native/rapidsnark/src/groth16.cpp:691-728 | For every curve parameter, the exponent built from y0 to y6 times the group order is p^4 - p^2 + 1. |
| FinalExponentiation.EasyHardOrder | native/rapidsnark/src/groth16.cpp:681-728 | (p^6 - 1)(p^2 + 1) times the chain's exponent times r is p^12 - 1. |
| FinalExponentiation.CurveConstants | native/rapidsnark/src/groth16.cpp:679 | The curve parameter gives the characteristic and the group order of BN254. |
| FinalExponentiation.ConjugateInverts | native/rapidsnark/src/groth16.cpp:707-715 | After the easy part the p^6 power, by which the model defines conjugation, inverts. |
| FinalExponentiation.F12.EasyPart | native/rapidsnark/src/groth16.cpp:681-688 | Conjugate over in, then times its p²-Frobenius, is the power (p^6 - 1)(p^2 + 1). |
| FinalExponentiation.F12.Chain | native/rapidsnark/src/groth16.cpp:717-728 | Four squarings and nine products give y0·y1²·y2^6·y3^12·y4^18·y5^30·y6^36. |
| FinalExponentiation.F12.FinalExponentiation | native/rapidsnark/src/groth16.cpp:672-731 | For every non-zero f the result is f to the easy exponent times the chain's exponent. |
| FinalExponentiation.OneIffOrderDivides | native/rapidsnark/src/groth16.cpp:748-751 | The result is one exactly when the group order divides the logarithm. |
| MillerLoop.SquaredProduct | native/rapidsnark/src/groth16.cpp:613-615 | Squaring the accumulator doubles the power of every line, and is harmless to skip when it is still one. |
| MillerLoop.Round | native/rapidsnark/src/groth16.cpp:609-634 | One round takes the running point and the product of lines from digit i+1 to digit i. |
| MillerLoop.Miller | native/rapidsnark/src/groth16.cpp:583-670 | For any signed-digit array with leading digit one, the final point is the digits' multiple of Q plus the two Frobenius points, and each line has its right power of two. |
| MillerLoop.ProductIsMillerFunction | native/rapidsnark/src/groth16.cpp:607-634 | The divisor of the accumulated product is that of the Miller function of the number the digits make, vertical lines aside. |
| MillerLoop.ClosingDivisor | native/rapidsnark/src/groth16.cpp:636-668 | The two closing lines complete the divisor of the optimal pairing. |
| MillerLoop.NafIsSixUPlus2 | native/rapidsnark/src/groth16.cpp:588-591 | The array in the source makes 6u + 2. |
| LockedAccumulation.StepKeeps | native/rapidsnark/src/groth16.cpp:97-119 | Every atomic step of every worker keeps the invariant on locks, loaded values and cell sums. |
| LockedAccumulation.MutualExclusion | native/rapidsnark/src/groth16.cpp:98-117 | Two workers inside their critical sections never work on the same cell. |
| LockedAccumulation.EveryInterleavingSums | native/rapidsnark/src/groth16.cpp:97-119 | For every split of the coefficients over workers and every interleaving, the finished arrays are those of the sequential loop. |
| LockedAccumulation.SomeoneCanStep | native/rapidsnark/src/groth16.cpp:97-119 | Until all work is done some worker can step. |
| LockedAccumulation.EveryScheduleFinishes | native/rapidsnark/src/groth16.cpp:97-119 | No schedule takes more than five actions a coefficient, and one that can go no further is finished with the sequential sums. |
| Bech32Checksum.Polymod | app/lib/nostr.py:435-444 | The loop computes the shift register over all symbols. |
| Bech32Checksum.Absorb | app/lib/nostr.py:439-443 | One symbol with the five conditional generators is one register step. |
| Bech32Checksum.StepLinear | app/lib/nostr.py:439-443 | The step is linear over the two-element field, in state and symbol together. |
| Bech32Checksum.StepInjective | app/lib/nostr.py:439-443 | The step is a bijection on 30-bit states. |
| Bech32Checksum.StepIsPolynomial | app/lib/nostr.py:439-443 | One symbol multiplies the register, read as six coefficients over the field of 32 elements, by x, adds the symbol and reduces modulo x^6 + 29x^5 + 22x^4 + 20x^3 + 21x^2 + 29x + 18. |
| Bech32Checksum.GeneratorsDouble | app/lib/nostr.py:437 | Each generator constant is the one before times x in that field, and the first holds the coefficients of the reducing polynomial. |
| Bech32Checksum.PolymodLinear | app/lib/nostr.py:435-444 | The whole polymod is linear, at every length. |
| Bech32Checksum.PolymodInjective | app/lib/nostr.py:435-444 | States that differ stay different whatever common symbols follow. |
| Bech32Checksum.PolymodSnoc | app/lib/nostr.py:439-443 | The symbols enter in order, each on top of what the earlier ones left. |
| Bech32Checksum.HrpExpandEntry | app/lib/nostr.py:447-449 | The prefix enters as the high parts of its characters, a zero, and their low five bits. |
| Bech32Checksum.CreateChecksum | app/lib/nostr.py:452-456 | The six symbols returned are the specified checksum. |
| Bech32Checksum.ChecksumValid | app/lib/nostr.py:447-456 | For every prefix and all data, six five-bit symbols bring the polymod to 1 exactly when they are the created checksum. |
| Bech32Checksum.BurstDetected | app/lib/nostr.py:435-444 | Any change confined to six consecutive symbols changes the polymod, at any length and position. |
| BaseConversion.ConvertBits | app/lib/nostr.py:459-479 | The masked-accumulator loop returns what regrouping the whole bit string gives, with and without padding, and None exactly in the source's cases. |
| BaseConversion.ConvertedExactly | app/lib/nostr.py:459-479 | What is returned, by the bits alone: with padding the same bits and fewer zeros than a group; without it the same bits but for zeros fewer than a group of either width, and None otherwise. |
| BaseConversion.ToBytes | app/lib/nostr.py:522-530 | The decoder's loop with an unbounded accumulator gives the complete 8-bit groups of the same bit string. |
| BaseConversion.Push | app/lib/nostr.py:466-470 | Masking loses nothing that is still pending: the value's bits are appended to the pending ones. |
| BaseConversion.Pop | app/lib/nostr.py:471-473 | Shifting out a group removes exactly the first pending group. |
| BaseConversion.PaddingAddsZeros | app/lib/nostr.py:474-476 | Padded regrouping keeps all bits and adds fewer than one group of zeros. |
| BaseConversion.RegroupTwice | app/lib/nostr.py:459-528 | Regrouping with padding to at most the original width and back returns the data. |
| Npub.HexCanonical | app/lib/nostr.py:496-499 | Reading hex and writing it again gives the text without blanks in lower case. |
| Npub.FromHexAt | app/lib/nostr.py:498 | Byte i of text without blanks is spelt by its digits 2i and 2i + 1, the high one first. |
| Npub.FromHexPlain | app/lib/nostr.py:498 | Text without blanks reads exactly if it is an even number of hex digits. |
| Npub.FromHexAtBlank | app/lib/nostr.py:498 | A blank separates: what stands before it and after it is read by itself. |
| Npub.CharsetRows | app/lib/nostr.py:432 | The character set is the table of BIP 173. |
| Npub.EncodeExactly | app/lib/nostr.py:482-489 | The encoder writes the one text with its prefix whose symbols satisfy the checksum rule and, without the last six, are the bytes regrouped by five bits. |
| Npub.NpubExactly | app/lib/nostr.py:496-499 | The npub of a key is the one valid npub whose symbols are the bytes of the key. |
| Npub.Bech32Encode | app/lib/nostr.py:482-489 | Regrouping, checksum and text, with the loops of both helpers, give the specified text. |
| Npub.ConvertPubkey | app/lib/nostr.py:496-499 | A value exactly for text that reads as hex, and then a valid npub with the bytes of the key. |
| Npub.IndicesOfChars | app/lib/nostr.py:516 | Every symbol is found at its own place in the character set. |
| Npub.NpubToPubkey | app/lib/nostr.py:502-536 | The decoder method computes the decoding function, None where the source catches an exception. |
| Npub.DecodeEncode | app/lib/nostr.py:482-530 | The decoder undoes the encoder on every byte string. |
| Npub.NpubRoundTrip | app/lib/nostr.py:496-536 | npub_to_pubkey(pubkey_to_npub(x)) is x without blanks and in lower case, for every x that reads as hex; otherwise the encoder raises. |
| Npub.NpubReturnsSame | app/lib/nostr.py:496-536 | It is x itself exactly when x is lower-case hex without blanks. |
| Npub.LowerHexConverts | app/routes/login.py:166-176 | The key format that login accepts always converts, and back. |
| Npub.ChecksumIgnored | app/lib/nostr.py:518-519 | The decoder drops the last six symbols unread: any six decode alike, although exactly one choice satisfies the checksum. |
| Npub.ShortNpub | app/lib/nostr.py:518-536 | Six symbols or fewer after npub1 decode to the empty key. |
| Ledger.GroupsSum | scripts/payment_allocator.py:91-131 | The counts of a GROUP BY add up to the number of rows. |
| Ledger.LoginCounts | scripts/payment_allocator.py:91-131 | Both groupings of a month's logins add up to the number of logins in its window. |
| Ledger.SharesFillPool | scripts/payment_allocator.py:411-415 | A month's floor shares stay within the agent pool and miss it by less than the number of agents. |
| Ledger.PoolIsFifteenPercent | scripts/payment_allocator.py:407 | The agent pool is 15 per cent of the revenue, rounded down. |
| Ledger.EarnedIsProportional | scripts/payment_allocator.py:411-415 | An agent's share is the pool times its logins over all logins, rounded down. |
| Ledger.PayoutLog.GetCarriedForward | scripts/payment_allocator.py:325-332 | The sum of the recipient's carried-forward rows. |
| Ledger.PayoutLog.ClearCarriedForward | scripts/payment_allocator.py:335-341 | Marks exactly those rows as applied. |
| Ledger.PayoutLog.RecordPayout | scripts/payment_allocator.py:344-352 | Appends one row. |
| Ledger.PayoutLog.RunAllocation | scripts/payment_allocator.py:373-464 | The two loops, with both early returns, leave the rows of one month, of which MonthSettles, AllocatedKeeps and AllocatedExtends say what they hold. |
| Ledger.ClearedSums | scripts/payment_allocator.py:335-341 | Clearing empties the recipient's outstanding balance and nobody else's, and changes no payment. |
| Ledger.AllocatedKeeps | scripts/payment_allocator.py:405-464 | One run moves exactly the agent's share into paid plus outstanding. |
| Ledger.MonthSettles | scripts/payment_allocator.py:405-464 | What a month does to an agent by how its payment ends: paid exactly if it logged in, there is revenue, share and balance reach the minimum, and the payment succeeds, and then all of both; otherwise nothing is paid and the whole share is added to what is owed. |
| Ledger.AllocatedExtends | scripts/payment_allocator.py:344-464 | A run changes no earlier row but to mark a carried-forward one applied, and adds rows of its own month only. |
| Ledger.SharesConserved | scripts/payment_allocator.py:405-464 | Over any sequence of months and any payment outcomes, each agent's shares add up to what it was paid plus what is carried forward. |
| Ledger.PoolsCoverLiabilities | scripts/payment_allocator.py:405-464 | Solvency over any months and outcomes: all that was ever paid and all that is still owed, over all agents, stays within the sum of the agent pools and misses it by less than one sat an agent and month, or by the pool of a month without logins. |
| Ledger.ClearedLiabilities | scripts/payment_allocator.py:335-341 | Clearing takes exactly the recipient's outstanding balance out of what is paid or owed in total. |
| Ledger.NoSmallPayment | scripts/payment_allocator.py:421-427 | No paid row is below the minimum. |
| Ledger.OwedBelowMinimum | scripts/payment_allocator.py:421-440 | While the payments to an agent succeed, whatever happens to others, what it is still owed stays below the minimum. |
| Ledger.MonthsDoNotOverlap | scripts/payment_allocator.py:80-88 | A month's window is the month's days long and shares no second with another month's. |
| Ledger.BoundariesAre | scripts/payment_allocator.py:80-88 | Both ends of every month in closed form, by the Gregorian leap rule counted without looking at single years. |
| Ledger.YearStarts | scripts/payment_allocator.py:80-88 | The epoch is the first second of 1970, and 2026 begins at 1767225600. |
| Ledger.InWindowKeeps | scripts/payment_allocator.py:106-127 | A window keeps every login from its start up to but not at its end, as often as it is there, and no other. |
| Ledger.WindowsAddUp | scripts/payment_allocator.py:106-127 | Consecutive windows neither lose nor repeat a login. |
| Euclid.EgcdBezout | circuits/circom-ecdsa/scripts/compute_secp256k1_math.py:11-16 | egcd terminates for all integers with Bezout coefficients of a common divisor. |
| Euclid.ModInvInverts | circuits/circom-ecdsa/scripts/compute_secp256k1_math.py:18-23 | A returned value is the inverse in range; one is returned exactly for non-negative arguments that have an inverse. |
| FixedBaseTable.GetLong | circuits/circom-ecdsa/scripts/compute_secp256k1_math.py:46-51 | The registers are the base-2^n digits of the coordinate. |
| FixedBaseTable.RegistersHoldAll | circuits/circom-ecdsa/scripts/compute_secp256k1_math.py:46-51 | They hold the whole coordinate exactly when it has at most n·k bits. |
| FixedBaseTable.GetBinary | circuits/circom-ecdsa/scripts/compute_secp256k1_math.py:61-66 | The binary digits, with no leading zero. |
| FixedBaseTable.GetGPows | circuits/circom-ecdsa/scripts/compute_secp256k1_math.py:38-44 | Entry i is [2^i]G. |
| FixedBaseTable.GetGPowVal | circuits/circom-ecdsa/scripts/compute_secp256k1_math.py:69-80 | For every exponent: [exp]G, and nothing for 0, unless for some set bit the power is missing or the lower bits add up to plus or minus that power; then, and only then, it raises. |
| FixedBaseTable.PowValIsMultiple | circuits/circom-ecdsa/scripts/compute_secp256k1_math.py:69-80 | The same of the partial sums, once all binary digits are read. |
| FixedBaseTable.NoClash | circuits/circom-ecdsa/scripts/compute_secp256k1_math.py:69-80 | At an odd order no exponent m·2^a with m below the order clashes, however large the exponent, while the powers suffice. |
| FixedBaseTable.OnlyOrderRaises | circuits/circom-ecdsa/scripts/compute_secp256k1_math.py:69-80 | Among exponents with 2^bits below twice an odd order, the order itself is the only one that raises. |
| FixedBaseTable.Table | circuits/circom-ecdsa/scripts/compute_secp256k1_math.py:82-110 | For every odd order, registers and stride: entry idx of row s is [idx·2^(s·stride)]G, and the script raises exactly if the stride is zero, or there is a row and either an entry number reaches the order or the last row needs more than the 256 + stride powers. |
| FixedBaseTable.ScriptParameters | circuits/circom-ecdsa/scripts/compute_secp256k1_math.py:126-127 | For the order of secp256k1, four registers of 64 bits and stride 8 the table has 32 rows and is built. |
| FixedBaseTable.ThreeRegisters | circuits/circom-ecdsa/circuits/secp256k1_func.circom:44-63 | For three registers of 86 bits and stride 8 it has 33 rows and is built, with no power to spare. |
| FixedBaseTable.LookupIsMultiple | circuits/circom-ecdsa/scripts/compute_secp256k1_math.py:82-110 | For every e the rows can hold, the entries at its base-2^stride digits add up to [e]G. |
| FixedBaseTable.RowsCover | circuits/circom-ecdsa/scripts/compute_secp256k1_math.py:83 | The number of rows covers every scalar of n·k bits. |
| FixedBaseTable.RowsNeeded | circuits/circom-ecdsa/scripts/compute_secp256k1_math.py:83 | With one row less some scalar of n·k bits would not be covered. |
| Fermat.FifthPowerInjective | native/signedby_core/src/membership/poseidon2_bn254.rs:28-32 | x^5 is injective modulo a prime p when 5 does not divide p - 1. |
| Poseidon.MdsMatrix | native/signedby_core/src/membership/poseidon2_bn254.rs:64-89 | The three loops fill the block matrix from the literal rows. |
| Poseidon.MdsIsCirculant | native/signedby_core/src/membership/poseidon2_bn254.rs:64-89 | Entry (i, j) is 0 outside the diagonal blocks and [2, 3, 1, 1][(j - i) mod 4] inside. |
| Poseidon.ExternalMatrixMult | native/signedby_core/src/membership/poseidon2_bn254.rs:92-103 | The matrix product in place is the external layer. |
| Poseidon.InternalMatrixMult | native/signedby_core/src/membership/poseidon2_bn254.rs:107-120 | Sum, scale and add in place is the internal layer. |
| Poseidon.FullRoundInPlace | native/signedby_core/src/membership/poseidon2_bn254.rs:123-136 | Entry i becomes, modulo p, the sum over j of Mds(i, j) times the fifth power of s[j] + rc[j]. |
| Poseidon.PartialRoundInPlace | native/signedby_core/src/membership/poseidon2_bn254.rs:139-150 | Entry i becomes, modulo p, (i + 1)·y_i plus the sum of all y_j, where y_0 is the fifth power of s[0] + rc[0] and y_j is s[j] + rc[j]. |
| Poseidon.Permute | native/signedby_core/src/membership/poseidon2_bn254.rs:153-175 | The three loops produce the end of a chain of 23 states linked by these laws, with the k-th constants at step k and full rounds for the first and the last four. |
| Poseidon.FullRoundLaw | native/signedby_core/src/membership/poseidon2_bn254.rs:123-136 | A full round satisfies its law. |
| Poseidon.PartialRoundLaw | native/signedby_core/src/membership/poseidon2_bn254.rs:139-150 | A partial round satisfies its law. |
| Poseidon.PermutationIsChain | native/signedby_core/src/membership/poseidon2_bn254.rs:153-175 | A state is the permutation of s if and only if a chain of 22 rounds leads from s to it. |
| Poseidon.SboxInjective | native/signedby_core/src/membership/poseidon2_bn254.rs:28-32 | The S-box is injective on residues. |
| Poseidon.ExternalInjective | native/signedby_core/src/membership/poseidon2_bn254.rs:64-103 | The external layer is injective for every prime above 16. |
| Poseidon.InternalInjective | native/signedby_core/src/membership/poseidon2_bn254.rs:107-120 | The internal layer is injective for every prime above 16 that does not divide 3157279. |
| Poseidon.PermutationInjective | native/signedby_core/src/membership/poseidon2_bn254.rs:153-175 | The 22-round permutation maps two states to one exactly when they are equal, for any round constants. |
| FieldOrder.FieldOrderIsPrime | native/signedby_core/src/membership/poseidon2_bn254.rs:7 | The BN254 scalar field order is prime, by a chain of certificates. |
| Primality.PrimeByFactor | native/signedby_core/src/membership/poseidon2_bn254.rs:7 | The criterion behind the certificates: one certified factor q of n - 1 above the cube root, with a condition on the two base-q digits of (n - 1)/q, makes n prime. |
| Poseidon.Bn254IsGood | native/signedby_core/src/membership/poseidon2_bn254.rs:7 | That field meets every condition used. |
| Poseidon.Bn254PermutationInjective | native/signedby_core/src/membership/poseidon2_bn254.rs:153-175 | Over the source's field the permutation maps two states to one exactly when they are equal, for any round constants. |
| BinFile.BinFile.ReadU32LE | native/rapidsnark/src/binfile_utils.cpp:133-143 | A read inside the buffer returns the number whose byte i is the i-th byte read, and advances by four; otherwise it fails and stays. |
| BinFile.BinFile.ReadU64LE | native/rapidsnark/src/binfile_utils.cpp:145-155 | The same for eight bytes. |
| BinFile.U32Bytes | native/rapidsnark/src/binfile_utils.cpp:133-143 | The number read has exactly the four bytes read, least significant first. |
| BinFile.U64Bytes | native/rapidsnark/src/binfile_utils.cpp:145-155 | The same for eight bytes. |
| LittleEndian.ValueBytes | native/signedby_core/src/groth16/witness.rs:383-384 | The same for any number of bytes, as in the 32-byte values. |
| LittleEndian.ValueOfLe | native/signedby_core/src/groth16/witness.rs:383-384 | Bytes at a place are those of v exactly when their value is v. |
| BinFile.BinFile.Read | native/rapidsnark/src/binfile_utils.cpp:157-167 | Returns where the bytes start; the cursor is a 64-bit number that can wrap. |
| BinFile.BinFile.ReadFileData | native/rapidsnark/src/binfile_utils.cpp:28-76 | Succeeds exactly when the specification parses, and then the map groups its sections by id in file order. |
| FileFormat.FileParses | native/rapidsnark/src/binfile_utils.cpp:28-76 | Reading undoes writing: a file written byte for byte with any sections parses to exactly those, each payload in place; another type or a version above the given one is refused. |
| FileFormat.GroupedIs | native/rapidsnark/src/binfile_utils.cpp:53-62 | The map holds, for every id that occurs, the sections of that id in file order. |
| BinFile.SectionsLaidIffExact | native/rapidsnark/src/binfile_utils.cpp:53-71 | Accepted sections lie inside the buffer, in order and disjoint, exactly when the same walk over the file with an unbounded cursor succeeds too. |
| BinFile.WrapIsAccepted | native/rapidsnark/src/binfile_utils.cpp:62-70 | A size that takes the cursor back to its own header is accepted, and the section is read twice. |
| BinFile.BinFile.StartReadSection | native/rapidsnark/src/binfile_utils.cpp:79-96 | Positions the cursor at an existing section when none is being read. |
| BinFile.BinFile.EndReadSection | native/rapidsnark/src/binfile_utils.cpp:98-105 | With the check on, succeeds exactly when the bytes consumed are the section's size. |
| BinFile.BinFile.GetSectionData | native/rapidsnark/src/binfile_utils.cpp:107-118 | The start of an existing section. |
| BinFile.BinFile.GetSectionSize | native/rapidsnark/src/binfile_utils.cpp:120-131 | Its size. |
| ZKey.LoadHeader | native/rapidsnark/src/zkey_utils.cpp:19-53 | Loads exactly under stated conditions on sections 1, 2 and 4; then section 1 is the protocol number alone, the fields of section 2 fill it completely, and nCoefs is the size of section 4 over the record size. |
| FileFormat.KeyReadsBack | native/rapidsnark/src/zkey_utils.cpp:19-46 | Reading undoes writing for section 2 of a key: the fields end where the section does, and the header read has the written counts and finds each prime and each point where it was written. |
| ZKey.CoefficientsCounted | native/rapidsnark/src/groth16.cpp:39 | A section 4 of length 4 + k(12 + n8r) counts as k records, each inside it. |
| ZKey.RecordsFitIff | native/rapidsnark/src/zkey_utils.cpp:50 | For any size, all counted records lie inside the section exactly when at least four bytes are left over or there is no record. |
| Witness.ParseWitnessFile | native/signedby_core/src/groth16/witness.rs:346-391 | The loop with 64-bit offsets, and with its two panics, returns what the specification parses, whichever of the two ends of the size field wraps. |
| Witness.HeaderReadAsSize | native/signedby_core/src/groth16/witness.rs:363-371 | A size of section 1 of 2^64 - 28 to 2^64 - 25 is not refused: the second size is read from the file's own header and the values follow it. |
| Witness.ValuesAt | native/signedby_core/src/groth16/witness.rs:377-388 | Value i is the i-th 32-byte block, reduced. |
| Witness.ReadersAgree | native/signedby_core/src/groth16/witness.rs:346-391 | On two-section files with ids 1 and 2 that the first reader accepts, the second succeeds exactly when the size of section 2 does not wrap the first one's cursor, and returns exactly the whole 32-byte blocks of it. |
| FileFormat.WitnessReadsBack | native/signedby_core/src/groth16/witness.rs:346-391 | Reading undoes writing for witness files: exactly the written values come back, reduced. |

## Left out

- Enrolment.CommitKeeps: signatures, NIP-05 lookups, event parsing and the agreement of the two events enter as one boolean of the request, since they are foreign cryptography and network calls.
- Enrolment.RunKeeps: requests take effect one after another; overlapping threads in the synchronous route and crashes between two table writes are not modelled.
- Database.MembershipDb.VerifyLogin: the window is at least one, as the source's constant 30 is; the zero window is treated by LoginWindow.ZeroWindowAcceptsEveryRoot. Lower-casing covers ASCII only, and the token is not modelled.
- Trees made by the root-publish routes, whose state is not a frontier: the insertion is not meant for them.
- `compute_root_from_state` in app/routes/enroll.py: nothing calls it, and it does not compute the root.
- The depth of a stored tree always equals the configured depth, as in trees made by the enrolment routes.
- Groth16Prover.Prover.ShiftInPlace: the transforms themselves and root() are given by their contracts (values at powers of a root of unity, and the inverse), not by the butterfly code.
- Groth16Verifier.Verifier.PairingCheck: that the Miller value is bilinear up to the final exponentiation is an assumption on the curve, written in Pairing.Valid; the coordinate formulas of the lines are not modelled.
- Groth16Setup: the repository has no key generator; the setup enters as relations on both keys.
- Groth16Prover.Prover.Prove: r and s are parameters; the multiexponentiation is its defining sum, and JSON output is left out.
- MillerLoop.ProductIsMillerFunction: divisors are formal sums on multiples of Q and two further points, with vertical lines dropped, because the final exponentiation removes them.
- LockedAccumulation.EveryInterleavingSums: memory is sequentially consistent and the thread pool is the split of the range only.
- Bech32Checksum.Polymod: symbols are below 2^30, which covers five-bit data and every prefix character.
- BaseConversion.ConvertBits: shifts and masks are written as arithmetic on non-negative numbers, which is what they mean for Python integers.
- Ledger.PayoutLog.RunAllocation: products with 0.15 and with the login weight are read as exact rationals, not as floating point; lightning addresses and payment times are not columns of the model, the retained pool is computed in the source but not recorded, and a failed database write ends its run.
- Ledger.MonthsDoNotOverlap: the month's text is taken as already split into year and month.
- FixedBaseTable.GetGPowVal: the point formulas are given by what they compute on multiples of G and by when they raise.
- FixedBaseTable.Table: the order is odd and above one, as group orders of a curve without points of order two are; the ceiling is taken of the exact quotient, and the text of the generated file is left out, except for its order of entries.
- Poseidon.PermutationInjective: the placeholder constants of the source are one instance of "any constants". The sponge on top of the permutation is left out.
- FinalExponentiation.ConjugateInverts: that conjugation in the field tower is the p^6 power is the model's definition of it, not proved from coordinates.
- MerkleSpec.HashPairReadsEight: a failing external hash is one that returns nothing for its two inputs; timeouts that come and go are not modelled.
- BinFile.BinFile.ReadFileData: the buffer leaves 4 GB of address space above it; addresses are offsets into it.
- Witness.ParseWitnessFile: offsets wrap as in a release build, where a debug build would stop at the overflow; running out of memory for a capacity below the limit is not modelled.
- Witness.ReadersAgree: no slice is longer than isize::MAX bytes, which the language guarantees.
- The enrolment watcher, delegation queries, wallet, mobile bindings, SDKs, website and demo routes: input and output, or simple branches.
- `FullProver` in native/rapidsnark: process and thread plumbing.
- Token signing, JSON parsing and the OIDC code flow: foreign formats.
