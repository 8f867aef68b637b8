# Syzy Shielded Pool: a verified model

The Syzy Shielded Pool keeps collateral behind note commitments in an on-chain Merkle tree, lets owners
swap notes against a YES/NO market and withdraw them, and gates every such step by a zero-knowledge proof.
This project models it from the 64-bit limbs up to whole runs of wallet commands against the contract, and
proves that the layers fit together.

| layer | modules | what is proved |
|---|---|---|
| field and hash | `Limbs`, `FieldBytes`, `Poseidon`, `RoundSchedule` over `ScalarField`, `Bytes` | limb arithmetic with carries and borrows, Montgomery form and the round loops compute the Poseidon permutation over Z_r, written out round by round |
| tree | `PoolTree`, `ClientTree` over `Merkle`; `ByteTree`, `ByteKeys` | the frontier insert, the path builder and the circuit fold all agree with one plain recursive definition; the tree over bytes is the encoding of the tree over Z_r |
| circuits | `Circuits`, `Statements` | each constraint system over Z_r is satisfiable exactly when an integer statement about notes, written out in the hashes, holds |
| contract | `PoolContract` over `Ledger`; `Entrypoints` | every entrypoint is one step of a transition function; for each, when it succeeds, which error it gives otherwise, and what every account and every field hold after it |
| runs | `Bookkeeping`, `PoolSafety`, `PoolTheorems`; `Example`, `ExampleRuns` | conservation, single spend, payability and the market over every run; concrete runs that meet the hypotheses or fall outside a guarantee |
| wallet | `Store`, `Wallet`, `Cli`, `WalletRuns`, `Commands`, `SharedPool` | sync is safe, honest deposits, swaps and withdrawals are submitted and accepted, and the wallet's balances are the chain's over every run; exactly when its mirror survives in a pool others use |
| verifier | `G1Negation` | the byte-wise negation of a curve point |

`contracts/poseidon_probe/src/field.rs` and `contracts/poseidon_probe/src/lib.rs` hold verbatim copies of
the pool's field and hash; `Limbs`, `FieldBytes` and `Poseidon` stand for both.

The circuits and runs take the hashes as arbitrary functions on field elements, one per arity; the contract
hashes and stores bytes. `ByteTree` joins the two: with the two-input hash being the permutation that
`Poseidon2Be` computes, the contract's tree of 32-byte strings is the encoding of the field tree the runs
speak of, whatever the leaves, and a byte root is known exactly when its field root is.

## How runs are modelled

A configuration is contract storage with the token's balances (`Ledger.State`) and a ghost book
(`Bookkeeping.Book`): the note behind each leaf, which positions were spent by which key, and the money and
market totals. An event is a call with its signers, the verifier's answer and the prover's private inputs. A
panic is an error and changes nothing. Token transfers by others, donations to the pool included, are events
too; donations and payouts to the pool itself are the book's `surplus`.

Definitions that the rows below speak about, each with where it is written out in other terms:

- `Ledger.Step` and its parts: contracts/shielded_pool/src/lib.rs:83-357, in the order the code checks (`Entrypoints`)
- `Circuits.Shield`, `Circuits.Unshield`, `Circuits.PrivateSwap`: the three main templates, each constraint a conjunct (`Statements`)
- `Merkle.Node`, `Merkle.Root`: the recursive tree; `Merkle.Fold`: the path fold (`Statements`)
- `Poseidon.Permutation`: constants, S-box and matrix, 4 + 57 + 4 rounds (`RoundSchedule`)
- `Bookkeeping.Inv`: what every call keeps (`PoolTheorems.StorageIs`, `PoolTheorems.OwnersSpend`)
- `Store.IsMerge`: what a sync result is (`Store.ReportedFirst`, `Store.SyncFindsIndex`)
- `WalletRuns.Execute`: one wallet command, throws and aborted calls included (`Commands`)

Four members repeat the functions that specify them line for line and have no row: `SeedReserves`,
`SetDenied` and `CheckSwap` of `PoolContract.ShieldedPool`, and `Cli.RecordUnshield`. `Example` holds the world
of the concrete runs; its hash, shown free of collisions by `Example.ToyIdeal`, models nothing in the source.

## Hypotheses

Each is a named predicate that a theorem requires where it needs it, except the one
that is built into the model's types.

- `NoZeroDivisors`: a product in Z_r is zero only if a factor is. It follows from r being prime.
- `Ideal`: no two inputs hashed in the run collide, arity by arity, and no note commitment is the empty leaf
  0. It speaks of a set of queries: a function from a larger set into Z_r cannot be injective outright.
- `Queried`, `TreeQueried`: the hashing of the run stays among those queries.
- `Sound`, `IdealVerifier`: a proof is accepted only for public inputs that have a witness.
- Built in: roots, nullifiers, commitments and public inputs have the type of canonical field elements.
  `ByteTree` removes this for the tree; for nullifiers kept as raw bytes, `ByteKeys.KeysIdentify` says that it
  is exactly what single spend needs.
- Part of `Legal` and `Admissible`: the pool's own address never signs a call.
- `FreshRho`, for the wallet's runs: randomness drawn for a new note is not that of a note in the tree, and
  nobody else inserts. Fresh commitments follow from it.

None of them excludes the others: `ExampleRuns.Realisable` and `ExampleRuns.WalletRealisable` give a world and
runs, of the pool and of the wallet, that meet them (`NoZeroDivisors` granted), and
`PoolContract.ExactVerifierIsIdeal` gives an ideal verifier that accepts all it should.

## What the proofs found

- The fee of `private_swap` is not among the public inputs (contracts/shielded_pool/src/lib.rs:269-272), and
  nothing is paid in for it. `Solvency` therefore needs swap fees to stay within what swaps brought in;
  `SwapSolventIff` gives the exact condition for each swap, `ExampleRuns.SwapFeeExample` a run where it fails. The
  command-line client always sends fee 0, and then everything stays payable.
- The on-chain insert has no fullness test. After 256 leaves it starts a new tree (`RootOfEpoch`), and the
  nullifier reads only the position within a tree. A note whose key, randomness and slot recur in another
  tree has the same nullifier, and once one is spent the other is locked: `NullifierFresh` and
  `UnspentNotePayable` say exactly when, `ExampleRuns.LockedNote` gives a run that gets there. The client
  refuses a 257th leaf (cli/src/crypto.ts:97), so from then on its own commands throw.
- Byte-wise negation is not its own inverse at y = p: it gives y = 0, which is fixed (`NegateTwice`). No
  canonical point has y = p.
- The comment at cli/src/index.ts:130 says swap-note indices are left alone by sync; the code looks every
  note up in the whole mirror. For distinct leaves that changes nothing (`SyncChangesNothing`).
- The comment at cli/src/index.ts:376-378 says sync establishes a note's true index even when other clients
  also inserted. The command appends at the end of the local mirror without syncing first, and the merge never
  replaces an entry, so one deposit by someone else in between leaves the mirror and the note's index wrong for
  good (`ExampleRuns.ForeignShield`, `NotRepaired`). `SharedPool.MirrorIsPrefix` gives the exact condition.
- contracts/shielded_pool/src/lib.rs:5 still speaks of depth 20; the code, like the circuits, uses 8.

## Model

| member | source | states |
|---|---|---|
| `Limbs.Mac` | contracts/shielded_pool/src/poseidon/field.rs:34-37 | a + b·c + carry never leaves a u128, and the two words are that sum in base 2^64 |
| `Limbs.Adc` | contracts/shielded_pool/src/poseidon/field.rs:40-43 | the two words are the sum in base 2^64 |
| `Limbs.Sbb` | contracts/shielded_pool/src/poseidon/field.rs:47-50 | low − 2^64·borrow is the difference, the borrow is 0 or 1 |
| `Limbs.Borrow4` | contracts/shielded_pool/src/poseidon/field.rs:58-61 | a four-limb borrow chain is integer subtraction plus 2^256 exactly when it borrows |
| `Limbs.Carry4` | contracts/shielded_pool/src/poseidon/field.rs:74-77 | a four-limb carry chain is integer addition, the last carry included |
| `Limbs.ConditionalReduce` | contracts/shielded_pool/src/poseidon/field.rs:57-68 | takes r off exactly when the value is at least r |
| `Limbs.AddFr` | contracts/shielded_pool/src/poseidon/field.rs:71-80 | on reduced operands: the sum modulo r |
| `Limbs.SubFr` | contracts/shielded_pool/src/poseidon/field.rs:84-98 | on reduced operands: the difference modulo r |
| `Limbs.AddRow` | contracts/shielded_pool/src/poseidon/field.rs:109-123 | in place, t and the carry out of it gain exactly a·b[i] |
| `Limbs.ReduceRow` | contracts/shielded_pool/src/poseidon/field.rs:125-140 | in place, t·2^64 becomes t plus a multiple of r: the low word cancels and the shift loses nothing |
| `Limbs.LowWordCancels` | contracts/shielded_pool/src/poseidon/field.rs:126-128 | with INV, the word that is dropped is always zero |
| `Limbs.TopFits` | contracts/shielded_pool/src/poseidon/field.rs:138-140 | t[4] stays at most 1, so the wrapping addition of the two carries never wraps |
| `Limbs.RoundKept` | contracts/shielded_pool/src/poseidon/field.rs:108-143 | the loop invariant of the product: t·2^(64i) = a·(low i limbs of b) + q·r, and t < a + r |
| `Limbs.MulRound` | contracts/shielded_pool/src/poseidon/field.rs:108-143 | one loop iteration keeps that invariant |
| `Limbs.FinalReduce` | contracts/shielded_pool/src/poseidon/field.rs:145-155 | takes r off at most twice, and ends reduced whenever t < 2r |
| `Limbs.MulFr` | contracts/shielded_pool/src/poseidon/field.rs:102-155 | for all operands below 2^256, result·2^256 ≡ a·b (mod r); reduced whenever a·b < r·2^256 |
| `FieldBytes.ProductDecodes` | contracts/shielded_pool/src/poseidon/field.rs:100-155 | Montgomery decoding turns any such product into multiplication in Z_r, whatever the left operand; a reduced right operand gives a reduced result |
| `FieldBytes.SumDecodes` | contracts/shielded_pool/src/poseidon/field.rs:71-80 | decoding turns addition into addition in Z_r |
| `FieldBytes.DifferenceDecodes` | contracts/shielded_pool/src/poseidon/field.rs:84-98 | decoding turns subtraction into subtraction in Z_r |
| `FieldBytes.Pow5Fr` | contracts/shielded_pool/src/poseidon/field.rs:159-163 | decodes to the fifth power in Z_r |
| `FieldBytes.LimbsOf` | contracts/shielded_pool/src/poseidon/field.rs:168-180 | the nested byte loops read the big-endian value |
| `FieldBytes.TimesRadixSquared` | contracts/shielded_pool/src/poseidon/field.rs:19-25 | R2 is reduced, and multiplying by it decodes to the number itself modulo r |
| `FieldBytes.FromBeBytes` | contracts/shielded_pool/src/poseidon/field.rs:167-184 | for every 32 bytes, also those at or above r: reduced, and decodes to the value modulo r |
| `FieldBytes.WriteWord` | contracts/shielded_pool/src/poseidon/field.rs:194-199 | writes one limb big-endian and leaves the other 24 bytes alone |
| `FieldBytes.ToBeBytes` | contracts/shielded_pool/src/poseidon/field.rs:187-203 | the big-endian encoding of the decoded value |
| `FieldBytes.ByteRoundTrip` | contracts/shielded_pool/src/poseidon/field.rs:167-203 | bytes to limbs and back: the encoding of value mod r, so the identity below r |
| `FieldBytes.LimbRoundTrip` | contracts/shielded_pool/src/poseidon/field.rs:167-203 | limbs to bytes and back: the same four limbs, for every reduced element |
| `ScalarField.DecodeEncode` | contracts/shielded_pool/src/poseidon/field.rs:1-9 | decoding after encoding is reduction modulo r |
| `ScalarField.EncodeDecode` | contracts/shielded_pool/src/poseidon/field.rs:1-9 | encoding after decoding is the identity on reduced values |
| `Poseidon.MixFr` | contracts/shielded_pool/src/poseidon/mod.rs:20-34 | the matrix loops decode to the matrix product over Z_r |
| `Poseidon.AddRoundConstants` | contracts/shielded_pool/src/poseidon/mod.rs:51-56 | in place, the three lanes gain the constants of round r |
| `Poseidon.SBoxLayer` | contracts/shielded_pool/src/poseidon/mod.rs:58-67 | in place, fifth powers on every lane in full rounds and on lane 0 in partial ones |
| `Poseidon.Poseidon2Be` | contracts/shielded_pool/src/poseidon/mod.rs:38-75 | for any tables of reduced entries and any two 32-byte inputs: the canonical encoding of the hash over Z_r of the inputs modulo r; RoundSchedule.HashIsDigest writes that hash out |
| `RoundSchedule.HashIsDigest` | contracts/shielded_pool/src/poseidon/mod.rs:38-75 | that hash is lane 0 of four full rounds, 57 partial and four full ones on [0, left, right], each round given lane by lane as fifth powers and row sums |
| `RoundSchedule.ModulusOfCurve` | contracts/shielded_pool/src/poseidon/field.rs:6-17 | r is 36u^4 + 36u^3 + 18u^2 + 6u + 1 at the parameter u of BN254 |
| `Poseidon.DigestCanonical` | contracts/shielded_pool/src/poseidon/mod.rs:36-37 | every digest is a canonical encoding, below r, so byte equality of digests is field equality |
| `ByteTree.NodeHash` | contracts/shielded_pool/src/poseidon/mod.rs:36-75 | the contract's hash on bytes is the byte tree's node hash |
| `ByteTree.NodeTransport` | contracts/shielded_pool/src/merkle.rs:81-124 | for any 32-byte leaves, canonical or not, every node of the byte tree above the leaves is the canonical encoding of the field tree's node over the leaves modulo r |
| `ByteTree.RootTransport` | contracts/shielded_pool/src/merkle.rs:112-115 | the stored root is the canonical encoding of the field tree's root |
| `ByteTree.KnownTransport` | contracts/shielded_pool/src/merkle.rs:134-139 | a byte string is a known root exactly when it is the canonical encoding of a root the run model knows |
| `ByteKeys.KeysIdentify` | contracts/shielded_pool/src/lib.rs:417-428 | with every canonical string a key, a key by raw bytes identifies its field element if and only if no other string is a key |
| `ByteKeys.SpentSetsAgree` | contracts/shielded_pool/src/lib.rs:417-428 | with canonical keys the test on bytes is the run model's test on field elements, and spending keeps the two sets in step |
| `Merkle.Climbed` | contracts/shielded_pool/src/merkle.rs:90-124 | after the climb, for any hash, depth and leaves: the frontier holds the completed left subtree at every set bit, and the last node is the plain recursive root |
| `Merkle.ClimbLeft` | contracts/shielded_pool/src/merkle.rs:96-101 | a left-child step keeps the climb: the cached node and the empty sibling are the tree's |
| `Merkle.ClimbRight` | contracts/shielded_pool/src/merkle.rs:102-109 | a right-child step keeps the climb: the frontier entry is the tree's left sibling |
| `Merkle.RootWithinCapacity` | contracts/shielded_pool/src/merkle.rs:81-124 | up to 2^DEPTH leaves the root is that of the zero-padded complete tree |
| `Merkle.RootOfEpoch` | contracts/shielded_pool/src/merkle.rs:93-110 | beyond it, the root is that of the leaves since the last multiple of 2^DEPTH before the latest insert |
| `PoolTree.Tree.ZeroRoots` | contracts/shielded_pool/src/merkle.rs:43-54 | the loop computes the roots of all empty subtrees |
| `PoolTree.Tree.Init` | contracts/shielded_pool/src/merkle.rs:57-79 | establishes the tree invariant for no leaves |
| `PoolTree.Tree.Insert` | contracts/shielded_pool/src/merkle.rs:82-124 | appends the leaf and returns its index and the plain recursive root; aborts only on u32 overflow |
| `PoolTree.Tree.IsKnownRoot` | contracts/shielded_pool/src/merkle.rs:134-139 | answers yes exactly for the roots of prefixes of the leaves, the empty tree included |
| `PoolTree.KnownRootsGrow` | contracts/shielded_pool/src/merkle.rs:119-121 | an insert adds exactly the new root to the history |
| `ClientTree.MerkleTree.Insert` | cli/src/crypto.ts:95-121 | the same root as the on-chain tree's plain definition; refuses exactly when full |
| `ClientTree.MerkleTree.PathFor` | cli/src/crypto.ts:138-168 | fails exactly out of range; otherwise its elements and bits fold from the leaf to the root, and the bits spell the index |
| `ClientTree.MerkleTree.NextLevel` | cli/src/crypto.ts:158-164 | one level of the rebuild holds the tree's nodes of the next level |
| `ClientTree.PathIndicesToLeafIndex` | cli/src/prover.ts:272-278 | never above the number the path bits spell, and equal to it exactly when no bit from the 31st on is set |
| `Merkle.PathReachesRoot` | circuits/lib/merkle.circom:18-35 | folding a leaf's path gives the root and its bits spell the leaf's index |
| `Merkle.PathIndex` | circuits/private_swap.circom:62-65 | the bits of any path spell the leaf's offset below the node reached |
| `Merkle.FoldBinds` | circuits/lib/merkle.circom:6-36 | without collisions, a fold that reaches a node of the tree starts from the leaf stored at the position its bits spell |
| `Statements.NodeLists` | contracts/shielded_pool/src/merkle.rs:88-115 | joined in order, the leaves under node i of a level are the padded leaves from i*2^level on: children never change places |
| `Statements.FoldIsClimb` | circuits/lib/merkle.circom:18-35 | the fold is the climb from the leaf, the node on the left of its sibling exactly at a bit 0 |
| `Statements.IndexIsSpelled` | circuits/private_swap.circom:62-65 | the derived leaf index is the number whose binary digits are the path bits, lowest first |
| `Circuits.RangeCheck` | circuits/shield.circom:14-15 | Num2Bits over Z_r is satisfiable exactly for values below 2^n |
| `Circuits.ComparisonHolds` | circuits/private_swap.circom:99-102 | the LessThan(252) assertion is implied by the range checks, as the circuit says |
| `Circuits.InclusionMeans` | circuits/lib/merkle.circom:6-36 | the constraints hold for some node values if and only if the indices are bits and the fold from the leaf is the root |
| `Circuits.ShieldExact` | circuits/shield.circom:6-23 | satisfiable exactly when the amount is below 2^64 and the commitment opens to it |
| `Circuits.SpendExact` | circuits/lib/nullifier.circom:5-22 | nullifier, derived leaf index and inclusion constraints together, both directions; the owner key is pinned by Statements.UnshieldStates and PoolTheorems.OwnersSpend |
| `Circuits.UnshieldExact` | circuits/unshield.circom:9-51 | satisfiable exactly when the note with that amount folds to the root under its derived nullifier |
| `Circuits.ValuesSound` | circuits/private_swap.circom:42-56 | the swap's field equations and range checks force the integer relations: amounts, change, both reserves, constant product |
| `Circuits.ValuesComplete` | circuits/private_swap.circom:89-117 | the integer relations satisfy the field equations |
| `Circuits.AssetIsYesOrNo` | circuits/private_swap.circom:117 | the quadratic constraint holds exactly for 1 and 2 |
| `Circuits.SwapSound` | circuits/private_swap.circom:10-133 | any witness over Z_r is an integer swap with two well-formed output notes |
| `Circuits.SwapComplete` | circuits/private_swap.circom:10-133 | every integer swap has a witness |
| `Statements.ShieldStates` | circuits/shield.circom:6-23 | satisfiable exactly when amount < 2^64 and commitment = h4(0, amount, ownerPk, rho) |
| `Statements.UnshieldStates` | circuits/unshield.circom:9-51 | satisfiable exactly when h4(0, amount, h1(sk), rho) climbs to the root by binary path bits and nullifier = h3(sk, rho, the number they spell) |
| `Statements.SwapStates` | circuits/private_swap.circom:10-133 | satisfiable exactly when the integer trade holds, the collateral note is spent as above, and both commitments are h4 of the bought asset with amountOut and of collateral with the rest, under h1(sk) |
| `PoolContract.ScalarEncodings` | contracts/shielded_pool/src/lib.rs:469-482 | both encoders give 32 bytes standing for the field element the ledger uses: the number itself, a negative one plus 2^128 |
| `PoolContract.InputsPresented` | contracts/shielded_pool/src/lib.rs:175-331 | which circuit each call is verified for, and its public inputs in their order: two for shield, four for unshield, nine for a swap with the current root and the asset shifted |
| `PoolContract.VerifiedIsSound` | contracts/shielded_pool/src/lib.rs:453-466 | with a verifier that accepts only satisfiable inputs, the answer to every call the contract makes is sound in the run model |
| `PoolContract.ExactVerifierIsIdeal` | contracts/shielded_pool/src/lib.rs:453-466 | the verifier that accepts exactly the satisfiable inputs is ideal |
| `PoolContract.ShieldedPool.Init` | contracts/shielded_pool/src/lib.rs:83-99 | one ledger step; a second call changes nothing |
| `PoolContract.ShieldedPool.WithdrawFees` | contracts/shielded_pool/src/lib.rs:131-142 | one ledger step, and returns the fees it found |
| `PoolContract.ShieldedPool.Shield` | contracts/shielded_pool/src/lib.rs:155-193 | one ledger step on all error paths and the success path, which Entrypoints.ShieldAnswer and ShieldEffect spell out; returns the new root |
| `PoolContract.ShieldedPool.Unshield` | contracts/shielded_pool/src/lib.rs:208-255 | one ledger step on all error paths and the success path, which Entrypoints.UnshieldAnswer and UnshieldEffect spell out |
| `PoolContract.ShieldedPool.PrivateSwap` | contracts/shielded_pool/src/lib.rs:274-357 | one ledger step on all error paths and the success path; returns the root after both inserts |
| `PoolContract.ShieldedPool.ApplySwap` | contracts/shielded_pool/src/lib.rs:334-356 | stores reserves, nullifier, both leaves and the fee |
| `Entrypoints.ShieldAnswer` | contracts/shielded_pool/src/lib.rs:155-193 | a deposit succeeds exactly with a signature, a positive amount, no denied reference, a valid proof, enough balance and room for the leaf; otherwise the first failing check names the error |
| `Entrypoints.ShieldEffect` | contracts/shielded_pool/src/lib.rs:181-192 | the amount goes from the payer to the pool and no other balance changes; the leaf is appended; nothing else changes |
| `Entrypoints.UnshieldAnswer` | contracts/shielded_pool/src/lib.rs:208-255 | a withdrawal succeeds exactly with a positive amount, a fee within it, a root of a prefix of the leaves, an unused nullifier, a valid proof, enough pool balance and no fee overflow; otherwise the first failing check names the error |
| `Entrypoints.UnshieldEffect` | contracts/shielded_pool/src/lib.rs:240-254 | amount less fee goes from the pool to the recipient and no other balance changes; nullifier and fee are added; nothing else changes |
| `Entrypoints.SwapAnswer` | contracts/shielded_pool/src/lib.rs:274-357 | likewise for a swap: selector, fee sign, reserve signs, nullifier, reserves as stored for that side, proof, room for two leaves, fee overflow |
| `Entrypoints.SwapChanges` | contracts/shielded_pool/src/lib.rs:334-356 | the reserves of the two sides, two leaves in order, nullifier and fee; no balance changes |
| `Entrypoints.SeedAnswer` | contracts/shielded_pool/src/lib.rs:107-115 | only the admin, only nonnegative reserves, and only the reserves change |
| `Entrypoints.DeniedAnswer` | contracts/shielded_pool/src/lib.rs:118-123 | only the admin, and only that reference changes status |
| `Entrypoints.WithdrawFeesAnswer` | contracts/shielded_pool/src/lib.rs:131-142 | only the admin; all fees go to the named account, no other balance changes, and the fees are zero after |
| `PoolSafety.SpendBinds` | contracts/shielded_pool/src/lib.rs:226-231 | a path accepted against any root there has ever been is that of a leaf the pool inserted, at the slot its bits spell |
| `PoolSafety.SpendIsFresh` | contracts/shielded_pool/src/lib.rs:226-243 | a spend with an unused nullifier consumes an unspent position holding exactly the opened note |
| `PoolSafety.SwapAccepted` | contracts/shielded_pool/src/lib.rs:289-332 | an accepted swap moves the contract's own reserves by the witness's integers at constant product |
| `PoolSafety.StepKeeps` | contracts/shielded_pool/src/lib.rs:83-357 | every successful call of every entrypoint keeps the invariant: notes open, nullifiers exact, money conserved, market balanced |
| `PoolSafety.RunKeeps` | contracts/shielded_pool/src/lib.rs:83-357 | every run of calls, successful or not, keeps it |
| `PoolSafety.ReachableHolds` | contracts/shielded_pool/src/lib.rs:83-357 | it holds in every reachable configuration |
| `PoolTheorems.Solvency` | contracts/shielded_pool/src/lib.rs:131-357 | over every run: balance + swap fees = unspent collateral + swaps' amountIn + accrued fees + surplus; solvent if and only if swap fees ≤ amountIn total + surplus, so always with zero swap fees |
| `PoolTheorems.SwapFeeUnbound` | contracts/shielded_pool/src/lib.rs:287 | the swap fee is in no public input: any fee leaves the same proof acceptable |
| `PoolTheorems.SwapSolventIff` | contracts/shielded_pool/src/lib.rs:349 | a swap keeps the pool solvent exactly when its fee fits what swaps brought in |
| `ExampleRuns.SwapFeeExample` | contracts/shielded_pool/src/lib.rs:444-450 | a run in which a swap, proven by a witness and accepted, leaves the pool insolvent |
| `PoolTheorems.SingleSpend` | contracts/shielded_pool/src/lib.rs:298-343 | over every run the successful spends, the consumed positions and the nullifiers are equally many, and nullifiers are the positions' image under an injective map |
| `PoolTheorems.StorageIs` | contracts/shielded_pool/src/lib.rs:177-247 | over every run the leaves are h4 of the notes behind them and the nullifiers are h3 of spending key, randomness and place in the tree of the spent ones |
| `PoolTheorems.OwnersSpend` | circuits/lib/nullifier.circom:5-22 | over every run a note is spent only by a key whose h1 is the note's owner key, and no other hashed key has that image |
| `PoolTheorems.AdminIsPaid` | contracts/shielded_pool/src/lib.rs:131-142 | a solvent pool pays its admin all accrued fees, to the account named |
| `PoolTheorems.NullifierFresh` | contracts/shielded_pool/src/lib.rs:417-428 | a note's nullifier is used if and only if some spent position has the same key, randomness and slot |
| `PoolTheorems.UnspentIsFresh` | contracts/shielded_pool/src/lib.rs:229-231 | within one tree every unspent note's nullifier is unused |
| `PoolTheorems.InTreeFrom` | contracts/shielded_pool/src/merkle.rs:93-115 | a note is under the pool's root exactly from its own insert until its tree is full |
| `PoolTheorems.WithdrawalProvable` | circuits/unshield.circom:9-51 | the owner's path is a witness for the whole note at every root that has it |
| `PoolTheorems.WithdrawalLegal` | circuits/unshield.circom:9-51 | and that witness hashes nothing the tree has not hashed, but the nullifier |
| `PoolTheorems.UnspentNotePayable` | contracts/shielded_pool/src/lib.rs:208-255 | in every solvent reachable state the owner of an unspent note has a proven withdrawal at any such root, and the contract pays it exactly when key, randomness and slot have not been spent in another tree; always within one tree; then amount less fee goes from the pool to the recipient and no other balance changes |
| `ExampleRuns.LockedNote` | contracts/shielded_pool/src/lib.rs:229-231 | a run of 257 deposits and a withdrawal after which the owner's proven withdrawal of an unspent 500 is answered NullifierUsed, in a solvent pool |
| `PoolTheorems.ReachableMintsMatch` | contracts/shielded_pool/src/lib.rs:345-347 | over every run the mint totals are those of the YES and NO notes entered in the tree since the last seeding |
| `PoolTheorems.MarketOverRuns` | contracts/shielded_pool/src/lib.rs:302-347 | between seedings yes·no is constant, positive reserves stay positive, and each leg: reserve + notes of its asset minted = seed + paid in |
| `PoolTheorems.SwapMovesLegs` | contracts/shielded_pool/src/lib.rs:334-347 | the leg that shrinks is the new note's asset, by that note's amount; the other grows by what the input note exceeds its change |
| `PoolTheorems.HistoryGrows` | contracts/shielded_pool/src/merkle.rs:119-139 | along every run leaves are only appended, nullifiers only added, and a known root stays known |
| `PoolTheorems.OnlySignersPay` | contracts/shielded_pool/src/lib.rs:131-255 | over any run, every account but the pool ends with exactly what it had, less what it paid in calls it signed, plus the withdrawals, fees and transfers paid to it |
| `ExampleRuns.Realisable` | contracts/shielded_pool/src/lib.rs:83-255 | the standing assumptions hold together in a world where a deposit and its withdrawal are accepted |
| `ExampleRuns.WalletRealisable` | cli/src/index.ts:378-388 | so do the wallet's, along a run of its shield and unshield commands |
| `Store.FirstUnspent` | cli/src/store.ts:103-105 | the first unspent note of the asset, or that there is none |
| `Store.Overlay` | cli/src/index.ts:115-119 | fills only indices the mirror lacks, each with the leaf reported for it |
| `Store.ReportedFirst` | cli/src/index.ts:116-118 | the leaf reported for an index is that of the first event at that index |
| `Store.Merge` | cli/src/index.ts:120-128 | the mirror extended by reported leaves up to the first unreported index |
| `Store.MergeIsPrefix` | cli/src/index.ts:109-143 | true events: a prefix of the chain, never shorter, ending at the first index no event mentions |
| `Store.MergePrefixIff` | cli/src/index.ts:109-143 | true events keep a mirror a prefix of the chain, and never make it one |
| `Store.MergeUnordered` | cli/src/index.ts:109-143 | neither order nor repetition of the events matters |
| `Store.Files.MarkSpent` | cli/src/store.ts:94-100 | marks exactly the notes of that commitment |
| `Store.Files.AppendLeaf` | cli/src/store.ts:125-131 | appends and returns the index |
| `Store.Files.SyncLeavesAndNotes` | cli/src/index.ts:109-143 | the mirror becomes the merge, every note whose commitment it has gets the first index that holds it, every other note keeps its index, and no other field changes |
| `Store.SyncFindsIndex` | cli/src/index.ts:132-141 | true events into a prefix of a chain of distinct leaves: a note whose leaf is in the mirror ends with its true chain index, whatever the file said before |
| `Store.Files.BuildTree` | cli/src/index.ts:89-93 | a tree of exactly the mirror's leaves; fails exactly when they exceed one tree |
| `Store.Balances` | cli/src/index.ts:196-216 | the totals of unspent notes per asset; fails exactly on an unspent note of an unknown asset |
| `Wallet.PlanSwap` | cli/src/index.ts:419-448 | a plan preserves the product exactly and pays something out |
| `Wallet.PlanExists` | cli/src/index.ts:420-448 | there is a plan exactly when the note covers the amount and some positive output keeps the product; otherwise the command throws |
| `Wallet.InputsAgree` | cli/src/prover.ts:227-236 | the nine public values proven are the vector the contract rebuilds, the asset shift included |
| `Wallet.WitnessSpends` | cli/src/prover.ts:203-209 | in a pool anyone may use, the wallet's path spends its note at the current root under its position's nullifier |
| `Wallet.GuardsPass` | contracts/shielded_pool/src/lib.rs:289-315 | every guard of the contract passes for a planned swap with an unused nullifier |
| `Wallet.HonestSwapAccepted` | cli/src/index.ts:417-502 | whenever the checks pass, values are below 2^64, the mirror is the chain's leaves and the chosen note is the chain's: a full witness exists, the public values agree, and the contract accepts, whoever else has notes there |
| `Wallet.HonestShieldAccepted` | contracts/shielded_pool/src/lib.rs:155-193 | for every amount from 1 to 2^64 - 1, any key and randomness: the note has a witness, the contract accepts the deposit, appends h4(0, amount, h1(sk), rho) and debits the payer |
| `Wallet.HonestUnshieldAccepted` | cli/src/index.ts:606-670 | under the same conditions and in a solvent pool, a whole-note withdrawal has a witness, and the contract accepts it and moves the note's amount from the pool to the recipient |
| `Cli.PathOf` | cli/src/index.ts:456-457 | the rebuilt tree's path is the plain tree's path of the index; fails exactly when the tree is full or the index out of range |
| `Cli.ProvePrivateSwap` | cli/src/prover.ts:203-246 | computes the witness and the claimed inputs of the run model, its integer change being the circuit's field difference |
| `Cli.ProveUnshield` | cli/src/prover.ts:124-147 | computes the witness and nullifier of the run model |
| `Cli.RecordShield` | cli/src/index.ts:378-388 | the files become the run model's wallet after a shield |
| `Cli.RecordSwap` | cli/src/index.ts:527-548 | input struck, two leaves and two notes in the order out, change |
| `WalletRuns.FreshCommitment` | cli/src/index.ts:459-460 | unused randomness gives a commitment that is no leaf yet |
| `WalletRuns.SyncChangesNothing` | cli/src/index.ts:109-143 | a mirror that is already the chain's leaves is left as it is |
| `WalletRuns.UnshieldEventIs` | cli/src/index.ts:606-640 | the unshield command submits the owner's withdrawal of the run model whenever that is provable |
| `Commands.ShieldCommandWorks` | cli/src/index.ts:330-388 | the shield command submits that deposit, hashes written out, and the contract accepts it |
| `Commands.UnshieldCommandWorks` | cli/src/index.ts:606-684 | in a solvent pool the unshield command submits the first unspent collateral note whole, at the current root, with nullifier h3(sk, rho, leaf index) and no fee; the contract accepts and pays the recipient |
| `Commands.SwapCommandWorks` | cli/src/index.ts:417-548 | for any exact trade below 2^64 on the chain's reserves the swap command submits it: nullifier, both commitments, four reserves and selector written out, with a proof for the inputs the contract rebuilds, and the contract accepts |
| `WalletRuns.ShieldMirrors` | cli/src/index.ts:378-388 | an accepted shield leaves the wallet an image of the chain |
| `WalletRuns.SwapMirrors` | cli/src/index.ts:527-548 | an accepted swap leaves it an image of the chain, and a command with a negative amount has no proof |
| `WalletRuns.UnshieldMirrors` | cli/src/index.ts:684 | an accepted withdrawal leaves it an image of the chain: the position spent is the note chosen |
| `WalletRuns.TotalsAgree` | cli/src/index.ts:207-210 | mirrored notes have the chain's unspent totals |
| `WalletRuns.WalletMirrorsPool` | cli/src/index.ts:378-388 | over every run of shields, swaps, withdrawals and syncs by a sole inserter who draws unused randomness, interleaved with note-free calls of others: mirror = chain, every note at its index, balances = unspent totals per asset, and the pool can pay the collateral balance with all fees |
| `SharedPool.MirrorIsPrefix` | cli/src/index.ts:374-378 | in a pool others use too, over every run: the mirror is a prefix of the chain's leaves if and only if every leaf the wallet appended was appended when the mirror was all of them |
| `ExampleRuns.ForeignShield` | cli/src/index.ts:374-378 | a run in which one deposit by someone else leaves the mirror and the note's index wrong |
| `ExampleRuns.NotRepaired` | cli/src/index.ts:109-143 | and no sync with true events repairs them |
| `G1Negation.SubtractFromPrime` | contracts/groth16_verifier/src/lib.rs:149-161 | the 32-step borrow loop computes p − y, plus 2^256 exactly when it ends with a borrow |
| `G1Negation.NegateG1Bytes` | contracts/groth16_verifier/src/lib.rs:137-165 | keeps x, and y = 0; otherwise writes p − y modulo 2^256 |
| `G1Negation.PrimeOfCurve` | contracts/groth16_verifier/src/lib.rs:125-130 | p is 36u^4 + 36u^3 + 24u^2 + 6u + 1 at the parameter u of BN254 |
| `G1Negation.NegatedIs` | contracts/groth16_verifier/src/lib.rs:137-165 | case by case: x kept; y = 0 unchanged; p - y for 0 < y <= p; 2^256 + p - y above p |
| `G1Negation.NegationMeans` | contracts/groth16_verifier/src/lib.rs:137-165 | for 0 < y < p: x untouched, the new y is exactly p − y |
| `G1Negation.NegateTwice` | contracts/groth16_verifier/src/lib.rs:137-165 | for every 64-byte point, negating twice is the identity if and only if y ≠ p |

## Left out

- Groth16.verify: the pairing check, the sum over public inputs and the trusted setup are host calls; an ideal verifier stands for them.
- Poseidon.Poseidon2Be: the 204 literal table entries are not transcribed; the theorem holds for any reduced tables.
- Poseidon hardness: collisions are excluded by hypothesis; the field layer proves functional equality only. The one-, three- and four-input hashes exist only in circomlib, which is not part of this model.
- circomlib: Num2Bits, LessThan and Mux1 are written out as the constraints circomlib documents for them.
- PoolTree.Tree: stored vectors are sequences and the known-root map is a set; storage lifetime and archival are not modelled.
- PoolContract.ShieldedPool.Shield: commitments are field elements. For other 32-byte strings the tree is covered by ByteTree; the screening reference and the verifier's reading of them are not.
- PoolContract.ShieldedPool.Unshield: roots and nullifiers are field elements, while the contract keys its sets by raw 32 bytes; ByteTree covers roots and ByteKeys says what nullifier keys must be; how the host reads a nullifier at or above r is not part of this model.
- PoolContract.ShieldedPool.PrivateSwap: likewise for its nullifier and its two commitments.
- Authorisation: the signers of a call are a set of addresses.
- PoolContract.Token: a balance map whose transfer fails when the payer is short; issuer controls, trust lines and the token's own overflow are not modelled.
- PoolTheorems.UnspentNotePayable: the contract does not tie recipient_field to recipient, and neither does the statement.
- WalletRuns.WalletMirrorsPool: the sync that opens a swap or a withdrawal is a command of its own here; amounts typed on the command line that are not the whole note throw before anything happens.
- Cli.RecordSync: file reading, JSON and the scan for events are inputs; the merge and the index repair are modelled.
- Events, CPU budget, view getters, deploy scripts and hex emitters: no state of their own.
- cli/src/chain.ts, cli/src/api.ts, cli/src/config.ts, cli/src/notes.ts: transport, relaying and encrypted storage.
