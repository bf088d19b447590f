# merkle-drop, modelled in Dafny

This project models the core of merkle-drop, a token airdrop tool. A list of claimants and their token values is committed to by one Merkle root. A claimant proves membership with the sibling hashes on the path from their leaf to the root. The modelled parts are:

- the Merkle tree of `merkle_drop/merkle_tree.py`:
  - `sha`, which sorts its arguments and hashes them with SHA-256;
  - `build_tree` and `_build_leaves`;
  - `compute_merkle_root`;
  - `in_tree`, `create_proof` and `validate_proof`;
- the linear decay of a claimant's tokens, `decay_tokens` in `merkle_drop/server.py`;
- the validation of the rows of an airdrop CSV file, and the dict built from them (`merkle_drop/load_csv.py`);
- the airdrop dict helpers `get_item`, `get_balance` and `to_items` of `src/merkle_drop/airdrop.py`. The `to_items` of `merkle_drop/airdrop.py` (lines 8-9) is the same comprehension, so `Airdrop.ToItems` and its lemmas model it as well;
- the sum of the dropped tokens (`merkle_drop/deploy.py`).

Files and modules:

| file | module | what it models |
|---|---|---|
| `wrappers.dfy` | `Wrappers` | `Option` and `Result` |
| `merkle_hash.dfy` | `MerkleHash` | `sha(*args)`, the 4-byte integer encoding, Python's ordering of arguments |
| `merkle_levels.dfy` | `MerkleLevels` | the tree one level at a time, on hashes: one round of pairing (`Reduce`), the root (`MerkleRoot`), a leaf's proof (`Siblings`), the fold of `validate_proof` (`Fold`) |
| `merkle_tree.dfy` | `MerkleTree` | nodes with `parent`, `left_child` and `right_child` links in an arena; `build_tree` as loops that append parents and set the children's `parent`; `create_proof` as the walk up the `parent` links; `validate_proof`; `in_tree` |
| `decay.dfy` | `Decay` | `decay_tokens` |
| `load_csv.dfy` | `LoadCsv` | `validate_address_value_pairs` and the dict of `load_airdrop_file` |
| `airdrop.dfy` | `Airdrop` | the airdrop dict, `get_item`, `get_balance`, `to_items` |
| `deploy.dfy` | `Deploy` | `sum_of_airdropped_tokens` |

How the model works:

- **The hash is a parameter.** SHA-256 is `h: Hasher`, a function from byte strings to byte strings. Every theorem holds for every such function. `Sha256Shaped(h)` states the 32-byte digest length where it is needed.
- **Values are integers or byte strings.** A value passed to `sha` is `IntArg(n)` or `BytesArg(b)`. The Merkle code raises in three places:
  - sorting a mix of integers and byte strings raises `TypeError`;
  - an integer outside [0, 2^32) raises `OverflowError` at `to_bytes(4, "big")`;
  - `build_tree([])` raises `IndexError` at `current_nodes[0]`.
  These appear in the model as the `Err` cases of `Result`.
- **Nodes live in an arena.** The Python nodes reference each other, so they are modelled as a sequence `nodes` with `Option<nat>` indices for `parent`, `left` and `right`. `build_tree` appends each new parent and then sets the `parent` field of its two children, in that order.
- **Levels are ghost state.** The successive values of `current_nodes` are kept as a ghost list of levels. `Layered` states the shape of a finished tree:
  - each pair of a level is linked to its parent in the next level;
  - that parent's hash is `sha` of the pair;
  - an odd last node is carried up unchanged;
  - the root is alone at the top and has no parent.
- **Leaves keep input order.** The tree keeps the values in the order given. Leaves are not sorted, and the root depends on the order.
- **No rounding flag.** `decay_tokens` has no rounding parameter. It always rounds the payout down, because it subtracts the rounded-up decay.

## Model

| member | source | states |
|---|---|---|
| MerkleHash.Sha | merkle_drop/merkle_tree.py:6-14 | the loop feeding the sorted arguments' encodings into one hasher returns `ShaSpec`: `TypeError` for a mix of integers and byte strings, `OverflowError` for the first integer outside [0, 2^32), otherwise the hash of the concatenated encodings in sorted order |
| MerkleHash.ShaSymmetric | merkle_drop/merkle_tree.py:8-9 | `sha(x, y) == sha(y, x)` for all arguments, including the error cases, because the arguments are sorted first |
| MerkleHash.PairHashSymmetric | merkle_drop/merkle_tree.py:8-9 | the hash of two digests does not depend on their order |
| MerkleHash.ShaOfPair | merkle_drop/merkle_tree.py:6-14 | `sha(a, b)` of two byte strings never fails and hashes the smaller (lexicographic) one first |
| MerkleHash.ShaOfValue | merkle_drop/merkle_tree.py:10-13 | `sha(value)` of a single value is the hash of its encoding, or `OverflowError` when an integer does not fit in 4 bytes |
| MerkleHash.ToBytes4RoundTrip | merkle_drop/merkle_tree.py:11-12 | the 4-byte big-endian encoding of an integer in [0, 2^32) reads back as the integer |
| MerkleHash.ToBytes4Injective | merkle_drop/merkle_tree.py:11-12 | distinct integers in range have distinct encodings |
| MerkleHash.ToBytes4 | merkle_drop/merkle_tree.py:11-12 | `to_bytes(4, "big")` of an integer in [0, 2^32) is 4 bytes long |
| MerkleHash.Encode | merkle_drop/merkle_tree.py:10-13 | an integer becomes 4 bytes that read back as it, or `OverflowError` outside [0, 2^32); a byte string is fed as itself |
| MerkleHash.FeedErrorSticks | merkle_drop/merkle_tree.py:10-13 | once an argument fails to encode, the whole call fails with that error |
| MerkleHash.SortArgsSorted | merkle_drop/merkle_tree.py:8-9 | `args.sort()` on arguments of one kind yields them in ascending order (and `SortArgs` keeps the same multiset) |
| MerkleHash.InsertSorted | merkle_drop/merkle_tree.py:8-9 | inserting into a sorted list of one kind keeps it sorted |
| MerkleHash.ConsSorted | merkle_drop/merkle_tree.py:8-9 | a sorted list with a lower bound of its elements in front stays sorted |
| MerkleHash.InsertAbove | merkle_drop/merkle_tree.py:8-9 | a lower bound of a list and of x stays a lower bound after inserting x |
| MerkleHash.LexTotal | merkle_drop/merkle_tree.py:8-9 | Python's byte-string order is total |
| MerkleHash.LexAntisymmetric | merkle_drop/merkle_tree.py:8-9 | Python's byte-string order is antisymmetric |
| MerkleHash.LexTransitive | merkle_drop/merkle_tree.py:8-9 | Python's byte-string order is transitive |
| MerkleHash.ArgLeqTotal | merkle_drop/merkle_tree.py:8-9 | two integers or two byte strings are always comparable |
| MerkleHash.ArgLeqTransitive | merkle_drop/merkle_tree.py:8-9 | the order `sort` uses on arguments is transitive |
| MerkleHash.ArgLeqAntisymmetric | merkle_drop/merkle_tree.py:8-9 | arguments ordered both ways are equal, so the sorted order is unique |
| MerkleHash.OrderablePair | merkle_drop/merkle_tree.py:8-9 | two arguments can be sorted exactly when both are integers or both byte strings |
| MerkleHash.SortPair | merkle_drop/merkle_tree.py:8-9 | sorting two arguments puts the smaller first |
| MerkleHash.PairHashLength | merkle_drop/merkle_tree.py:14 | with SHA-256's 32-byte digests, every parent hash is 32 bytes |
| MerkleLevels.Reduce | merkle_drop/merkle_tree.py:49-63 | one round maps a level of n hashes to ceil(n/2) hashes |
| MerkleLevels.ReduceAt | merkle_drop/merkle_tree.py:51-60 | entry q of the next level is the pair hash of entries 2q and 2q+1, or the odd last hash carried up |
| MerkleLevels.PairWithPartner | merkle_drop/merkle_tree.py:51-57 | a paired position's hash combined with its partner's is its parent's hash at position p/2 |
| MerkleLevels.CarriedUp | merkle_drop/merkle_tree.py:59-60 | an unpaired position is the odd last one and is carried unchanged to the last position of the next level |
| MerkleLevels.SiblingsFoldToRoot | merkle_drop/merkle_tree.py:109-116 | folding a leaf's sibling hashes into its hash yields the root of the level: the completeness of proofs, on hashes |
| MerkleLevels.SiblingsLength | merkle_drop/merkle_tree.py:94-104 | a proof has one hash per level at which the leaf's ancestor is paired |
| MerkleLevels.FoldSnoc | merkle_drop/merkle_tree.py:113-114 | one more proof hash adds one more `sha(hash, h)` at the end of the fold |
| MerkleLevels.SingleLevel | merkle_drop/merkle_tree.py:49 | a single hash is its own root and has the empty proof |
| MerkleLevels.ReduceDigests | merkle_drop/merkle_tree.py:53 | with 32-byte digests a round of pairing yields 32-byte hashes only |
| MerkleLevels.RootAndProofDigests | merkle_drop/merkle_tree.py:14 | with 32-byte digests the root and every proof entry of a level of 32-byte hashes are 32 bytes |
| MerkleLevels.ExamplePathLengths | merkle_drop/merkle_tree.py:119-135 | with 5 leaves the first leaf's proof has 3 hashes and the last leaf's 1; with 3 leaves the first leaf's has 2 |
| MerkleTree.BuildLeaves | merkle_drop/merkle_tree.py:70-71 | one parentless, childless leaf per value, in input order, holding `sha(value)`, or `OverflowError` exactly when some value cannot be encoded |
| MerkleTree.HashPair | merkle_drop/merkle_tree.py:53 | `sha(node1.hash, node2.hash)` is the pair hash |
| MerkleTree.AddParent | merkle_drop/merkle_tree.py:52-57 | a new parent is appended with both children as its children and hash `sha` of theirs; both children point up to it; no other node changes; every node of the arena that has children still has both and carries `sha` of their hashes |
| MerkleTree.PairUp | merkle_drop/merkle_tree.py:51-57 | the `for` loop over `zip` gives every adjacent pair of the level a parent, in order, and leaves an odd last node parentless; an old node outside the paired prefix of the level is left exactly as it was; every node with children carries `sha` of their hashes |
| MerkleTree.PairLevel | merkle_drop/merkle_tree.py:51-62 | one round links the level to the next (pairs linked, odd last carried), and the next level is again distinct parentless nodes; only the paired nodes of the level change, and every node with children carries `sha` of their hashes |
| MerkleTree.Round | merkle_drop/merkle_tree.py:49-63 | a round keeps the tree-building invariant, strictly shrinks the level, leaves the leaves' hashes unchanged and keeps the leaves childless and every parent hashing its children |
| MerkleTree.PairsLinkedExtend | merkle_drop/merkle_tree.py:51-57 | linking one more pair to a new parent appended to the next level extends the linked prefix by one |
| MerkleTree.LayersExtend | merkle_drop/merkle_tree.py:62 | a finished round's level on top of correctly linked levels keeps them correctly linked |
| MerkleTree.BuildingDone | merkle_drop/merkle_tree.py:63-65 | when the loop ends with one node, that node is the root of a well-formed tree |
| MerkleTree.Rounds | merkle_drop/merkle_tree.py:49-63 | the `while` loop ends with one node exactly when there were leaves, with the invariant holding, the leaves' hashes those of the input leaves, the leaves childless and every node with children carrying `sha` of their hashes |
| MerkleTree.BuildTree | merkle_drop/merkle_tree.py:44-67 | `OverflowError` for an unencodable value, `IndexError` for no values, otherwise a well-formed tree with one leaf per value, in input order, holding `sha(value)`; the leaves have no children, and every node of the arena with children has both and carries `sha` of their hashes |
| MerkleTree.LayeredRoot | merkle_drop/merkle_tree.py:44-67 | the root hash of a well-formed tree is the Merkle root of its leaf hashes |
| MerkleTree.ComputeMerkleRoot | merkle_drop/merkle_tree.py:40-41 | the root returned is parentless and its hash is the Merkle root of the values' leaf hashes; same errors as `build_tree` |
| MerkleTree.LayersGrow | merkle_drop/merkle_tree.py:55-57 | later rounds, which only append nodes and set `parent` fields that were unset, keep the links of earlier rounds |
| MerkleTree.StepHashes | merkle_drop/merkle_tree.py:51-60 | the hashes of the next level of the node graph are one `Reduce` of the hashes of the level below |
| MerkleTree.Climb | merkle_drop/merkle_tree.py:59-60 | a node carried up unpaired keeps its proof until the level where it is paired or the top |
| MerkleTree.CarriedStep | merkle_drop/merkle_tree.py:59-60 | an unpaired node of a level is the odd last one and is the last node of the next level |
| MerkleTree.PairedStep | merkle_drop/merkle_tree.py:51-57 | a paired node's parent is its position halved in the next level, with the node as one child and its partner as the other |
| MerkleTree.LayersTower | merkle_drop/merkle_tree.py:49-63 | the hashes of the levels of a built tree form the chain of `Reduce` rounds |
| MerkleTree.TowerTop | merkle_drop/merkle_tree.py:49-65 | every level of that chain has the same Merkle root as the top one |
| MerkleTree.CarriedRise | merkle_drop/merkle_tree.py:59-60 | a node carried up unpaired keeps the same remaining proof |
| MerkleTree.PairedRise | merkle_drop/merkle_tree.py:95-104 | a paired node's proof is its partner's hash followed by its parent's proof |
| MerkleTree.ParentedBelowTop | merkle_drop/merkle_tree.py:94 | a node that has a parent is not on the top level |
| MerkleTree.ParentlessIsTop | merkle_drop/merkle_tree.py:94 | a node of the tree without a parent is the root, and its remaining proof is empty |
| MerkleTree.ProofStep | merkle_drop/merkle_tree.py:95-102 | a node with a parent is exactly one of the parent's two children, so the `wrong leave` branch is unreachable; the other child's hash is the next proof entry |
| MerkleTree.ProofPath | merkle_drop/merkle_tree.py:89-106 | the walk up the `parent` links from leaf i collects exactly `Siblings` of position i |
| MerkleTree.CreateProof | merkle_drop/merkle_tree.py:85-106 | None when no leaf has hash `sha(value)`, otherwise the sibling path of the first such leaf; `OverflowError` for an unencodable value |
| MerkleTree.ValidateProof | merkle_drop/merkle_tree.py:109-116 | the loop returns whether the fold of the proof into `sha(value)` equals the root hash; `OverflowError` for an unencodable value |
| MerkleTree.InTreeMeansReachable | merkle_drop/merkle_tree.py:74-82 | `in_tree(value, node)` holds exactly when some node reachable from it through child links has hash `sha(value)` |
| MerkleTree.InTree | merkle_drop/merkle_tree.py:74-82 | no node gives False; otherwise `OverflowError` exactly when the value cannot be encoded, and True when the node itself has hash `sha(value)` |
| MerkleTree.ReachesChild | merkle_drop/merkle_tree.py:82 | the children of a reachable node are reachable |
| MerkleTree.LevelsBelowRoot | merkle_drop/merkle_tree.py:44-67 | every node of every level of a built tree is reachable from the root |
| MerkleTree.EveryValueProofValidates | merkle_drop/merkle_tree.py:129-137 | for every value of a non-empty list, its proof from the built tree validates against the root hash |
| MerkleTree.EveryValueInTree | merkle_drop/merkle_tree.py:122-125 | every value of a non-empty list is `in_tree` of the built tree's root |
| MerkleTree.SingleLeafIsRoot | merkle_drop/merkle_tree.py:49-65 | with one leaf the `while` loop does not run: there is one level and the root is the leaf itself |
| MerkleTree.SingleValueTree | merkle_drop/merkle_tree.py:44-67 | one value: the root is the leaf node itself, with hash `sha(value)`, no parent and no children, and its proof is empty |
| MerkleTree.RootAndProofSizes | merkle_drop/merkle_tree.py:40-41 | with SHA-256's 32-byte digests the root of a list of values and every hash of each value's proof are 32 bytes |
| MerkleTree.FiveValueProofs | merkle_drop/merkle_tree.py:119-135 | on the leaf hashes of [1, 2, 3, 4, 5], the proof of 1 has 3 entries and that of 5 has 1 |
| MerkleTree.FiveValueProofLengths | merkle_drop/merkle_tree.py:119-135 | `create_proof` on the tree of [1, 2, 3, 4, 5] gives 3 hashes for 1 and 1 hash for 5 |
| Decay.DecayTokens | merkle_drop/server.py:63-73 | the assertion `decay <= tokens` fails exactly for negative tokens with `now` strictly inside the decay period |
| Decay.CeilDiv | merkle_drop/server.py:71 | `math.ceil(a / b)`: the least integer c with c·b ≥ a |
| Decay.DecayBeforeStart | merkle_drop/server.py:65-66 | up to the start time the full balance is payable |
| Decay.DecayAfterEnd | merkle_drop/server.py:67-68 | from the end of the period on nothing is payable |
| Decay.DecayingDurationPositive | merkle_drop/server.py:67-71 | the division is reached only with a positive duration and 0 < elapsed < duration |
| Decay.DecayRoundsPayoutDown | merkle_drop/server.py:69-73 | inside the period the result is floor(tokens·(start + duration − now)/duration), the rounded-down payout |
| Decay.NegativeDecayExceeds | merkle_drop/server.py:71-72 | inside the period the decay is at most the tokens exactly when the tokens are non-negative |
| Decay.DecayBounded | merkle_drop/server.py:63-73 | for non-negative tokens the call never fails and 0 ≤ result ≤ tokens |
| Decay.DecayNonIncreasing | merkle_drop/server.py:63-73 | for non-negative tokens the payable amount never grows as `now` grows |
| Decay.CeilMonotone | merkle_drop/server.py:71 | rounding up keeps order |
| Decay.FloorUnique | merkle_drop/server.py:69-73 | the floor of a/b is the f with f·b ≤ a < (f+1)·b |
| Decay.HalfwayThirtyThree | merkle_drop/server.py:69-73 | 33 tokens at half the period leave 16, the per-claimant amount of the rounding regression |
| LoadCsv.ValidateAddressValuePairs | merkle_drop/load_csv.py:19-37 | the loop with the set of seen canonical addresses accepts exactly when every row has two fields, an address `is_address` accepts and a decimal value, and no canonical address repeats; otherwise it raises the error of the first failing row. With `AsWritten` a row with the wrong number of values reports the number of lines, as line 24 formats it; `Corrected` reports the row's own count |
| LoadCsv.RefusedAtFirstFault | merkle_drop/load_csv.py:21-37 | the error raised is determined: the one of the first row that fails |
| LoadCsv.CleanIffValid | merkle_drop/load_csv.py:21-37 | passing the checks row by row is the same as all rows being well formed with distinct canonical addresses |
| LoadCsv.RowFault | merkle_drop/load_csv.py:22-32 | a row passes the per-row checks exactly when it is well formed; a wrong field count reports the number of lines under `AsWritten` and the row's own count under `Corrected`; a two-field row with a bad address reports that address |
| LoadCsv.DecimalRoundTrip | merkle_drop/load_csv.py:31 | every natural number in decimal passes `isdigit` and reads back as itself, so values have no upper bound |
| LoadCsv.NonDecimalValues | merkle_drop/load_csv.py:31-32 | "", "-3", "1.2" and "0xaa" are not decimal |
| LoadCsv.DecimalValue | merkle_drop/load_csv.py:14 | `int(value)` of a string of n digits that `isdigit` accepts is below 10^n, and at least 10^(n-1) without a leading zero |
| LoadCsv.SetItem | merkle_drop/load_csv.py:13-16 | storing an existing key replaces its value at its own position and leaves every other entry as it was; storing a new key appends it |
| LoadCsv.SetItemKeys | merkle_drop/load_csv.py:13-16 | storing adds exactly the stored key to the keys |
| LoadCsv.SetItemLookup | merkle_drop/load_csv.py:13-16 | after storing, the key maps to the new value and every other key is unchanged |
| LoadCsv.BuildData | merkle_drop/load_csv.py:13-16 | the dict's keys are exactly the rows' canonical addresses |
| LoadCsv.BuildDataOfValidRows | merkle_drop/load_csv.py:12-16 | for validated rows the dict has one entry per row, in row order, from canonical address to `int(value)` |
| LoadCsv.LoadAirdropRows | merkle_drop/load_csv.py:7-16 | loading succeeds exactly for valid rows and yields that dict; otherwise it raises the first failing row's error, with the arity message as written |
| LoadCsv.LoadedBalance | merkle_drop/load_csv.py:12-16 | each row's claimant has the row's value as balance in the loaded data |
| LoadCsv.AcceptedExamples | merkle_drop/load_csv.py:19-37 | no rows, one row, and one row with value 2^256 − 1 are accepted |
| LoadCsv.ArityExamples | merkle_drop/load_csv.py:22-25 | a one-line file whose line has 1 or 3 values is refused, and as written both messages report 1 |
| LoadCsv.DuplicateExample | merkle_drop/load_csv.py:34-37 | the same address twice is refused at the second row |
| LoadCsv.ValueExamples | merkle_drop/load_csv.py:28-32 | the value "0xaa" is refused as not decimal, and an address in the value column is refused as not an address |
| LoadCsv.ArityMessageMiscounts | merkle_drop/load_csv.py:22-25 | on one line of 3 values the message as written reports 1, the corrected one 3 |
| LoadCsv.ArityErrorReportsRow | merkle_drop/load_csv.py:22-25 | with the corrected message a refused row reports its own field count, never 2 |
| LoadCsv.ArityMessageExamples | merkle_drop/load_csv.py:19-25 | as written, `[[a, "0"], [b]]` is refused with "got 2", the count the check expects, and `[[a, "0", "a third entry"]]` with "got 1"; corrected, they report 1 and 3 |
| Airdrop.Lookup | src/merkle_drop/airdrop.py:9 | a key is found exactly when some entry has it, and the value found is that entry's |
| Airdrop.LookupAt | src/merkle_drop/airdrop.py:9 | with distinct keys the key of entry i finds entry i's value |
| Airdrop.GetItem | src/merkle_drop/airdrop.py:8-9 | `Item(address, d[address])` for a key, and `KeyError` for an absent one |
| Airdrop.GetBalance | src/merkle_drop/airdrop.py:16-17 | the stored value for a key and 0 for an absent address |
| Airdrop.GetBalanceListed | src/merkle_drop/airdrop.py:16-17 | each entry's address has that entry's value as balance |
| Airdrop.ToItemsMatchesDict | src/merkle_drop/airdrop.py:12-13 | `to_items` has one item per entry, each with the value the dict stores for its address, no address twice, and every key present |
| Airdrop.ToItems | merkle_drop/airdrop.py:8-9 | one item per entry of the dict, in its insertion order, with the entry's address and value (the same comprehension as src/merkle_drop/airdrop.py:12-13) |
| Airdrop.GetItemListed | src/merkle_drop/airdrop.py:8-13 | the item `get_item` returns for a key is one of the items of `to_items` |
| Deploy.SumOfAirdroppedTokens | merkle_drop/deploy.py:31-35 | the loop's `sum` after k items is the total of the first k values, so the result is the total of all values |
| Deploy.SumOfNothing | merkle_drop/deploy.py:32-35 | the sum over no items is 0 |
| Deploy.SumConcat | merkle_drop/deploy.py:31-35 | totals add up over a concatenation |
| Deploy.SumFront | merkle_drop/deploy.py:31-35 | the total is also the first value plus the total of the rest |
| Deploy.RemoveOne | merkle_drop/deploy.py:31-35 | taking one item out takes its value off the total |
| Deploy.SumPermutation | merkle_drop/deploy.py:31-35 | the total does not depend on the order of the items |
| Deploy.PremintAmounts | merkle_drop/deploy.py:31-35 | the five test claimants sum to 15,000,000 and the three small ones to 99 |

## Left out

- SHA-256 itself (FIPS 180-4) is not modelled. The hash is a parameter `h`, and `Sha256Shaped` only states the 32-byte digest length.
- Collision resistance is not assumed. So the negative checks at merkle_drop/merkle_tree.py:126 and 138-139 are not modelled: that 6 is not in the tree, and that the proof of 5 or the empty proof does not validate 1.
- MerkleTree.FiveValueProofs and MerkleTree.FiveValueProofLengths: these require that the leaf hashes of 1 to 4 differ from that of 5. Without collision resistance the model cannot derive that; `create_proof` takes the first matching leaf.
- The newer API used by tests/test_merkle_tree.py and tests/conftest.py is not part of this model, because merkle_drop/merkle_tree.py does not have it. That API has `Item` leaves, Keccak-256, `compute_parent_hash` and sorted leaves.
- `Node.__repr__` (merkle_drop/merkle_tree.py:36-37) is not modelled. It prints a node's parent and children, and each of those prints the node again. So for a tree of two or more values it recurses without end, and Python stops it with a RecursionError; merkle_drop/cli.py:23 formats such a root. Node printing is output only, so the model has no counterpart.
- Object identity is modelled by position. `parent.left_child == leave` compares node objects. The model compares arena indices, which identify the nodes.
- Decay.DecayTokens: the float division `tokens * time_decayed / decay_duration_in_seconds` is modelled as exact rational arithmetic. Floats lose precision for large token values, and that loss is not modelled.
- `time.time()`, the module globals set by `init`, Flask routing and the HTTP responses in merkle_drop/server.py are not modelled. The clock and the decay parameters are arguments.
- File reading in merkle_drop/load_csv.py is not modelled: the rows are given as lists of strings. merkle_drop/load_json.py is not part of this model.
- `is_address` and `to_canonical_address` from eth_utils are parameters of the validator, not modelled.
- LoadCsv.IsDecimal: `str.isdigit` is modelled on ASCII digits only. Python also accepts other Unicode digits.
- LoadCsv.BuildData requires two fields and a decimal value in every row, which validation guarantees. `int(value)` on other strings (signs, spaces) is not modelled.
- Web3 deployment (`deploy_merkle_drop`), merkle_drop/status.py, the command line wrapper merkle_drop/cli.py, scripts/pack_contracts.py and setup.py are not modelled. They are I/O and packaging.
- The Solidity contract tested in tests/test_merkle_drop.py is not part of this model. Its round-up burn is therefore left out too.

## Findings

| source | as written | input that shows it | evidently intended | confidence | as-written member | corrected member |
|---|---|---|---|---|---|---|
| merkle_drop/load_csv.py:22-25 | the wrong-arity message reports `len(address_value_pairs)`, the number of lines | one line with three values, `[[address, "0", "a third entry"]]`: the message says "got 1"; `[[a, "0"], [b]]`: it says "got 2", the expected count | report `len(address_value_pair)`, the number of values on the offending line ("got 3", "got 1") | high; not executed | LoadCsv.ArityErrorAsWritten, which LoadCsv.ValidateAddressValuePairs raises under `AsWritten` and LoadCsv.LoadAirdropRows uses (exhibited by LoadCsv.ArityMessageExamples and LoadCsv.ArityMessageMiscounts) | LoadCsv.ArityError, raised under `Corrected` (LoadCsv.ArityErrorReportsRow, LoadCsv.ArityMessageExamples) |
