# A verified model of the zk bridge

The bridge under `zk-bridge/` moves value from a Cosmos EVM chain to Ethereum. A
user locks native tokens in `BridgeSource`; a relayer notices the transaction,
builds a zero-knowledge proof that its hash lies under a Merkle root of the Cosmos
chain, makes that root the trusted one and mints wrapped tokens in
`BridgeDestination`. This project models each of those layers and proves what they
give when they are put together. It also models the dotted-path configuration
overrides of `evmd`, which are independent of the bridge.

The modules follow the program:

| layer | modules |
|---|---|
| bytes, bits, text encodings, sums | `Words`, `Text`, `Sums` |
| the three packings of 32 bytes into uint64 words | `Packing` |
| the circuit and its field gadgets | `Field`, `Merkle`, `Circuit` |
| the RFC 6962 tree, its audit paths, and what a fold proves about it | `Rfc6962`, `Inclusion` |
| the RPC response and the witness builder | `Rpc`, `Prover` |
| the two contracts and the Lock event | `Source`, `Destination`, `Receipt` |
| the proof on its way through the shared file | `ProofWords` |
| the relayer's concurrent runs, and what holds over every run | `Relay`, `Safety`, `Conservation`, `Progress` |
| configuration overrides | `Config` |

Code that changes things in place keeps that form: the circuit's rounds, the
witness arrays, the parsing loops, the log and event scans and the packing loops
are methods with loops, and the contracts and the configuration are classes. Each
is proved against a function of its inputs or old state, and the theorems are about
those functions. SHA-256 is any function from bytes to 32 bytes, so every result
holds for every hash function; where collisions matter they are named inputs out of
a finite set that is actually hashed.

The main results:

* Through all 32 masked rounds the circuit's constraints hold for any field elements
  exactly when the plain fold over the first min(depth, 32) levels gives the root,
  whatever the hash gadget does on wires that are not bytes; on byte rows, or with a
  gadget that checks its wires, that is the fold of SHA-256 (`Circuit.Define`,
  `Circuit.SatisfiesIsAccepts`).
* The witness builder reads left and right off the bits of the leaf index and never
  looks at the tree size. That agrees with RFC 6962 exactly when the index is below
  2 to the number of aunts, which is exactly when every right turn at a node with
  split 2^j is taken at level j (`Rfc6962.IndexBitsAreDirections`). The third of
  three leaves is the smallest failure (`Rfc6962.ThirdOfThreeDisagrees`).
* A node's response is a few strings, and not every honest one can be relayed.
  Barring collisions among the inputs hashed, the witness is built and accepted
  exactly when the path has at most 32 hashes, the index is below 2 to their number,
  and neither the leaf hash nor an aunt is base64 that begins with "0x"
  (`Prover.HonestWitnessExact`). `DecodeHash` cuts such a "0x" off and then fails:
  an aunt crashes the builder, a leaf hash becomes zeros and the circuit rejects it
  (`Prover.HonestWitnessBuilt`, `Prover.HonestWitnessShape`,
  `Prover.UnreadableLeafFails`). One hash in 4096, those that begin D3 1_, is of
  that kind (`Rpc.SpellingDecodes`). With a lock to find and a proof of its inputs,
  an honest transaction is relayable exactly when it is in that domain and its
  response names a hash in `hash` or `result.hash`
  (`Progress.HonestTransactionRelayableExactlyWhen`); one that has it in `txhash`
  alone is skipped, although `GenerateProof` would take it from there
  (`Progress.TxhashAloneIsNotRelayed`).
* An accepted witness is about the tree: its leaf value is the hash of the subtree
  its helper bits lead to (`Prover.AcceptedIffInTree`). The circuit takes the leaf
  hash as given, so in general that is a subtree and not necessarily a leaf; in a
  full tree of the witness's depth it is leaf sum(helper_i * 2^i), or two different
  65-byte inputs collide, and the lemma returns them (`Prover.AcceptedInFullTree`).
* The eight proof words reach the verifier unchanged exactly when every exported
  coordinate is zero or more than 65535 below the field modulus
  (`ProofWords.ProofWordsSurvive`). The library prints the others as small negative
  numbers, which arrive as words near 2^256 (`ProofWords.LargestCoordinateIsLost`).
* Under every interleaving of any number of relayer runs, duplicated deliveries,
  failures, panics that end the process, root changes and overwrites of the shared
  proof file, each mint has a proof of exactly its own root and hash and pays the
  first Lock of one transaction, to the destination and over the value of its first
  paid `lock` call (`Safety.EveryMintIsJustified`); mints map injectively to locks,
  so no more is minted than the first locks of all transactions hold, and no more
  than is locked (`Conservation.MintedAtMostLocked`). Whatever happens between a
  run's submission and the mining of its mint, the mint goes through under exactly
  one condition on the file then and the contract's state now
  (`Progress.MintGoesThroughExactlyWhen`).
* A run of a relayable transaction that no other overlaps, with any transactions,
  deliveries, lock lookups and abandoned runs between its steps, credits its lock
  exactly when it still can be credited, its root update succeeds or its root was
  trusted already, and its proof prints plainly (`Progress.UndisturbedRunCredits`);
  another run for it, after any steps at all, moves no token
  (`Progress.SecondRunAddsNothing`).
* An override of the configuration sets a leaf to exactly what its text means, by
  tag or by name in any letter case, the last one winning (`Config.ResolveExact`,
  `Config.LeafGetsMeaning`, `Config.LastWriterWins`).

Where the repository disagrees with itself the code is followed.
`zk-bridge/guides/ARCHITECTURE.md` describes `lock(recipient, amount)` and a
`Locked` event, the contract has `lock(ethDestination)`, payable, and `Lock`. The
circuit tests hash nodes without the 0x01 prefix and pack bytes in reverse; the
circuit and the witness builder use the prefix and big-endian words.

## Model

| member | source | states |
|---|---|---|
| Packing.UnpackInvertsPack | zk-bridge/pkg/circuits/bridge.go:78-90 | The circuit's bit slicing gives back the 32 bytes that the big-endian packing was made from; the words fit a uint64. |
| Packing.PackInvertsUnpack | zk-bridge/pkg/circuits/bridge.go:78-90 | For any four naturals, unpacking then packing is the identity if and only if all are uint64 words. |
| Packing.BigEndianOfBits | zk-bridge/pkg/circuits/bridge.go:82-87 | Taking little-endian bits in groups of eight from the top gives bytes whose big-endian value is the number itself. |
| Packing.ShiftOrAppends | zk-bridge/contracts/BridgeDestination.sol:82-84 | One turn of the 64-bit shift/or loop loses no bit and overlaps none: the accumulator goes from the value of j bytes to that of j + 1. |
| Packing.SolidityWord | zk-bridge/contracts/BridgeDestination.sol:81-85 | The uint64 shift/or loop computes the same word as Go's big-endian reading. |
| Packing.GetPackedInputs | zk-bridge/contracts/BridgeDestination.sol:78-96 | The eight inputs are the root's four words, then the transaction hash's. |
| Packing.PackedInputsInjective | zk-bridge/contracts/BridgeDestination.sol:78-96 | Two pairs (root, lockTxHash) pack to the same inputs if and only if they are the same pair. |
| Field.BooleanConstraintExact | zk-bridge/pkg/circuits/bridge.go:51-52 | The field equation b(1 - b) = 0 that selecting on a helper imposes holds exactly for 0 and 1, for any prime modulus. |
| Field.DecompositionExact | zk-bridge/pkg/circuits/bridge.go:81-81 | For a prime p above 2^64, the constraints of an n-bit decomposition (n up to 64) are met by exactly the binary digits of a value below 2^n, and by nothing else. |
| Field.DecompositionExists | zk-bridge/pkg/circuits/bridge.go:81-81 | A decomposition exists if and only if the field element is below 2^n. |
| Field.ToBinary | zk-bridge/pkg/circuits/bridge.go:81-81 | Peeling bits succeeds exactly when the constraints can be met, and then gives the only solution. |
| Circuit.ByteFromBits | zk-bridge/pkg/circuits/bridge.go:83-87 | The slice of bits [8k, 8k + 8) is the byte k places from the end of the word. |
| Circuit.WordBytes | zk-bridge/pkg/circuits/bridge.go:83-87 | The inner loop yields the word's bytes from the most significant down. |
| Circuit.Unpack | zk-bridge/pkg/circuits/bridge.go:78-90 | The constraints can be satisfied if and only if the four inputs are uint64 words, and then the 32 output bytes are determined by them. |
| Circuit.SelectChildren | zk-bridge/pkg/circuits/bridge.go:46-57 | In an active round a helper of 1 puts the sibling left, 0 puts it right; in an inactive round both children are zeros whatever the path and helper hold. |
| Circuit.Overwrite | zk-bridge/pkg/circuits/bridge.go:63-66 | In place: the running hash becomes the round's result if active, and stays otherwise. |
| Circuit.Round | zk-bridge/pkg/circuits/bridge.go:37-67 | An active round replaces the running hash by the gadget's digest of the 65 wires 1, left, right; an inactive one leaves it. |
| Circuit.WireFoldOfBytes | zk-bridge/pkg/circuits/bridge.go:37-67 | On byte rows the fold through the gadget is the fold of SHA-256 over the same levels. |
| Circuit.CheckedRowsAreBytes | zk-bridge/pkg/circuits/bridge.go:43-61 | If the gadget checks its wires, a row that is not made of bytes leaves no digest from its level on. |
| Circuit.SatisfiesIsAccepts | zk-bridge/pkg/circuits/bridge.go:25-75 | On byte rows, or with a gadget that checks its wires, the constraints mean the plain fold of SHA-256. |
| Circuit.RunRounds | zk-bridge/pkg/circuits/bridge.go:37-67 | The 32 rounds, in place, succeed if and only if the helpers are bits and the fold of the active levels exists, and leave its digest. |
| Circuit.Define | zk-bridge/pkg/circuits/bridge.go:25-75 | Through all 32 rounds, for any field elements and any depth, the constraints hold if and only if the inputs are uint64 words, the helpers bits, and folding the first min(depth, 32) levels from the leaf gives the root, whatever the other levels hold. |
| Rfc6962.SplitExponentIs | zk-bridge/guides/ARCHITECTURE.md:34-37 | The split of a tree of n leaves is the one power of two with 2^j < n <= 2^(j+1) (section 2.1 of RFC 6962). |
| Rfc6962.PathFoldsToTreeHash | zk-bridge/guides/ARCHITECTURE.md:34-37 | Folding a leaf's audit path bottom-up along its own directions gives the recursively defined tree hash (sections 2.1 and 2.1.1 of RFC 6962). |
| Rfc6962.PathLengthBound | zk-bridge/pkg/prover/prover.go:91-94 | A tree of at most 2^j leaves has audit paths of at most j hashes. |
| Rfc6962.FullTreeDirections | zk-bridge/pkg/prover/prover.go:94-101 | In a tree of 2^j leaves the j directions spell the index in binary, lowest bit at the leaf. |
| Rfc6962.IndexBitsAreDirections | zk-bridge/pkg/prover/prover.go:94-101 | For every tree size and index, the bits from index & 1 and index >>= 1 are the audit path's directions if and only if the index is below 2^(number of aunts), if and only if every right turn at a node with split 2^j is taken at level j. |
| Rfc6962.FullTreesAndLeftHalvesFit | zk-bridge/pkg/prover/prover.go:94-101 | That domain holds every index of a tree of 2^j leaves, and every index left of the top split of any tree. |
| Rfc6962.SiblingSizesGrow | zk-bridge/pkg/prover/prover.go:94-101 | Along any audit path the subtrees beside it grow strictly from the leaf up, with one exception at most. |
| Rfc6962.ThirdOfThreeDisagrees | zk-bridge/pkg/prover/prover.go:94-101 | Leaf 2 of 3: the path turns right, the index bit says left. |
| Inclusion.TreeHashDeterminesLeaves | zk-bridge/guides/ARCHITECTURE.md:34-37 | With the 0x00 and 0x01 prefixes, and no collision among the inputs hashed, two trees have the same hash if and only if they have the same leaves, sizes included. |
| Inclusion.TopLevel | zk-bridge/pkg/circuits/bridge.go:43-61 | A node input equals the input at the top of a tree if and only if the tree has an inner node there and both children agree with it. |
| Inclusion.LandingFolds | zk-bridge/pkg/circuits/bridge.go:37-72 | The hash of any subtree, folded along the hashes beside the descent to it, gives the root. |
| Inclusion.LandsOrCollides | zk-bridge/pkg/circuits/bridge.go:37-72 | A fold that reaches a tree's hash lands in the tree, or the walk down its levels returns a fold input and a tree input that differ and have the same hash. |
| Inclusion.FoldReachesRootIffInTree | zk-bridge/pkg/circuits/bridge.go:37-72 | Barring collisions among those inputs, a fold reaches the root if and only if it starts at the hash of the subtree its directions lead to, along exactly the hashes beside that descent. |
| Inclusion.DescendToLeaf | zk-bridge/pkg/prover/prover.go:94-101 | The directions of leaf m lead to that leaf alone, and what lies beside them is its audit path. |
| Inclusion.FullTreeDirectionsOfBits | zk-bridge/pkg/prover/prover.go:94-101 | In a full tree every sequence of k bits is the directions of the leaf it spells. |
| Inclusion.FullTreeBindsOrCollides | zk-bridge/pkg/circuits/bridge.go:37-72 | In a tree of 2^k leaves, k levels that reach the root start at leaf sum(b_i * 2^i) and run along its audit path, or two different 65-byte inputs with one hash are returned. |
| Inclusion.IndexBitsPassingThePath | zk-bridge/pkg/prover/prover.go:94-101 | If descending by index bits passes exactly the audit path of leaf m, the bits are the path's own directions. |
| Inclusion.LongerPathNeverLands | zk-bridge/pkg/circuits/bridge.go:37-72 | Barring collisions, two or more of the lowest hashes of an audit path, short of all of it, are never what lies beside a descent from the root. |
| Inclusion.WalkIsTheWholePath | zk-bridge/pkg/prover/prover.go:94-101 | Barring collisions, walking the lowest n hashes of the audit path of leaf m (all, or at least two) by the bits of m reaches the root only from that leaf's hash, along the whole path, with an index that fits. |
| Inclusion.HonestPathExact | zk-bridge/pkg/prover/prover.go:94-101 | Barring collisions, walking the honest audit path of leaf m by the bits of m reaches the root if and only if m is below 2^(number of aunts). |
| Text.HexDecodeExact | zk-bridge/pkg/rpc/cosmos.go:101-103 | A string decodes as hex to given bytes if and only if it is their hex in some mix of letter cases. |
| Text.LowerExact | zk-bridge/pkg/rpc/cosmos.go:119-123 | Lower-casing makes two strings equal if and only if they differ in the case of ASCII letters at most. |
| Text.TrimPrefixExact | zk-bridge/pkg/rpc/cosmos.go:99-99 | One prefix is cut off if it is there, and nothing otherwise. |
| Text.Base64RoundTrip | zk-bridge/pkg/rpc/cosmos.go:105-107 | Decoding the standard base64 (section 4 of RFC 4648) of any bytes gives them back. |
| Text.DecodeCleanExact | zk-bridge/pkg/rpc/cosmos.go:105-107 | A string without line breaks decodes to given bytes if and only if it spells their quanta, padding at the end included; only the unused bits of the last character are free. |
| Text.LineBreaksDoNotCount | zk-bridge/pkg/rpc/cosmos.go:105-107 | A line break anywhere in a base64 string changes nothing. |
| Text.DecodedLength | zk-bridge/pkg/rpc/cosmos.go:105-107 | A decodable base64 string without line breaks is whole quanta, three bytes each when nothing is padded. |
| Text.DecimalRoundTrip | zk-bridge/pkg/prover/prover.go:240-248 | Printing any natural in decimal and parsing it is the identity. |
| Text.ParseDecimalExact | zk-bridge/pkg/prover/prover.go:240-248 | A string parses to n if and only if it is a sign or none, zeros, and the decimal of the magnitude of n; every other string is an error. |
| Text.ScanIntReads | zk-bridge/pkg/prover/prover.go:70-72 | Blanks are skipped, a number within int64 is read, and what follows it is ignored. |
| Text.NoIntToScan | zk-bridge/pkg/prover/prover.go:70-72 | What does not begin with a number leaves the index at 0. |
| Text.ScanIntOfDecimal | zk-bridge/pkg/prover/prover.go:68-72 | Scanning a printed index gives it back if it fits an int64, and leaves 0 otherwise. |
| Rpc.NeverBoth | zk-bridge/pkg/rpc/cosmos.go:98-109 | No string is accepted by both the hex and the base64 branch. |
| Rpc.DecodeHashExact | zk-bridge/pkg/rpc/cosmos.go:98-109 | The result is d if and only if the string less a leading 0x is the hex or the base64 of d; every other string is an error. |
| Rpc.DecodeHashOfHex | zk-bridge/pkg/rpc/cosmos.go:98-109 | The hex of 32 bytes in any letter case, with or without 0x, decodes to them. |
| Rpc.Base64StartsWith0x | zk-bridge/pkg/rpc/cosmos.go:99-99 | The base64 of 32 bytes begins with 0x if and only if the first byte is 0xD3 and the next has high nibble 1. |
| Rpc.DecodeHashOfBase64 | zk-bridge/pkg/rpc/cosmos.go:98-109 | The base64 of 32 bytes decodes to them unless it begins with 0x, when it is an error. |
| Rpc.SpellingDecodes | zk-bridge/pkg/rpc/cosmos.go:98-109 | A hash spelled in hex or base64 is read back if and only if the string does not begin with 0x, which only the base64 of a hash beginning D3 1_ does. |
| Rpc.DecodeStringOfBase64 | zk-bridge/pkg/rpc/cosmos.go:138-152 | The base64 of any printable ASCII string is read back as that string. |
| Rpc.DecodeStringExact | zk-bridge/pkg/rpc/cosmos.go:138-152 | A string is read as the printable text it is the base64 of, in whole quanta, and is left as it is otherwise. |
| Rpc.EvmEventExact | zk-bridge/pkg/rpc/cosmos.go:119-120 | An event counts if and only if its kind is ethereum_tx, ethereum-tx or evm in any letter case, plain or in base64. |
| Rpc.HashAttributeExact | zk-bridge/pkg/rpc/cosmos.go:122-125 | An attribute counts if and only if its key is ethereumtxhash, txhash or eth_tx_hash in any letter case, plain or in base64, and its value has 64 characters or more. |
| Rpc.FirstHashAttribute | zk-bridge/pkg/rpc/cosmos.go:121-132 | The inner loop finds the first qualifying attribute of an event, or that there is none. |
| Rpc.FirstEvmHashFound | zk-bridge/pkg/rpc/cosmos.go:118-134 | When attribute j of event i qualifies and nothing before it does, it is the answer, and the answer is not empty. |
| Rpc.GetEvmHash | zk-bridge/pkg/rpc/cosmos.go:112-136 | The answer is the first qualifying attribute in the order of concatenation, 0x-prefixed, and empty exactly when there is none. |
| Rpc.OneEventAnswer | zk-bridge/pkg/rpc/cosmos.go:112-136 | For one event of one attribute, wherever it stands, the answer is the text of its value, with 0x in front if it is not there, when kind, key and length are right, and empty otherwise. |
| Rpc.UsualEventAnswers | zk-bridge/pkg/rpc/cosmos.go:112-136 | The usual ethereum_tx event with a txhash of 0x and 64 digits is answered with that hash. |
| Rpc.EventsByPlace | zk-bridge/pkg/rpc/cosmos.go:113-116 | Top-level events are asked first, then those of the result, then those of its execution. |
| Rpc.EvmHashIgnoresEncoding | zk-bridge/pkg/rpc/cosmos.go:112-152 | When types, keys and values are printable ASCII that decodeStringIfSmall leaves alone, base64-encoding all of them does not change the answer. |
| Source.ApplyLockKeeps | zk-bridge/contracts/BridgeSource.sol:22-35 | One call keeps the invariant: keys are 0..nextNonce-1, each record holds its key as nonce and a positive amount, and the balance is the sum of the amounts; events only grow. |
| Source.LockRecordsItsCall | zk-bridge/contracts/BridgeSource.sol:22-35 | With value sent and room in the counter a call adds exactly one record, with its own sender, value and destination under the old nonce, as the last event; otherwise nothing changes. |
| Source.EventsRecordPaidCalls | zk-bridge/contracts/BridgeSource.sol:22-35 | Over any calls the new events are, one by one and in order, those of the calls that sent something, with their senders, values and destinations under consecutive nonces, until the counter is full. |
| Source.RunLocksKeeps | zk-bridge/contracts/BridgeSource.sol:19-35 | Over every sequence of calls the invariant stays and no record once written changes. |
| Source.RunLocksFromEmpty | zk-bridge/contracts/BridgeSource.sol:19-35 | So it holds after every sequence of calls on a new contract. |
| Source.BridgeSource.constructor | zk-bridge/contracts/BridgeSource.sol:19-20 | A new contract has no records, nonce 0 and no balance. |
| Source.BridgeSource.Lock | zk-bridge/contracts/BridgeSource.sol:22-35 | The call goes through if and only if value is sent and the counter can still grow; then the record under the old nonce and the last event hold exactly the sender, value and destination given, balance and nonce grow, and nothing else changes; else nothing does. |
| Receipt.ScanStopsAtFirst | zk-bridge/pkg/prover/prover.go:275-282 | The scan's answer is decided by the first log that has no topics (a crash) or matches, and is an error when no log does. |
| Receipt.FetchLockDetails | zk-bridge/pkg/prover/prover.go:274-282 | The loop returns what the first matching log holds, and reports nothing found exactly when every log has a topic and none matches. |
| Receipt.LockTopicMatches | zk-bridge/pkg/prover/prover.go:274-276 | The hex of the 32 topic bytes is the string the scan compares with. |
| Receipt.IsLockFromExact | zk-bridge/pkg/prover/prover.go:276-276 | A log matches if and only if its first topic is exactly those 32 bytes and the bridge emitted it. |
| Receipt.ReadLockExact | zk-bridge/pkg/prover/prover.go:277-279 | Whatever follows the first 64 bytes of data, the amount is the first word and the recipient the last 20 bytes of the second, padding unread; less data crashes. |
| Receipt.LockLogCarries | zk-bridge/contracts/BridgeSource.sol:5-10 | The event's log holds signature and sender as topics and amount, destination and nonce as three words of data. |
| Receipt.AddressSurvivesPrinting | zk-bridge/pkg/prover/prover.go:278-279 | A recipient printed in any mix of letter cases is parsed back to the same 20 bytes for mint. |
| Receipt.LockRoundTrip | zk-bridge/pkg/prover/prover.go:276-279 | For every record, the log that lock emits matches and decodes to its own 20-byte destination, which survives printing, and amount. |
| Prover.PackWords | zk-bridge/pkg/prover/prover.go:79-82 | The four big-endian words of the 32 bytes. |
| Prover.HelpersStep | zk-bridge/pkg/prover/prover.go:99-100 | Writing index & 1 at level i after i shifts extends the helper bits by bit i of the index, leaving zeros above. |
| Prover.FillPath | zk-bridge/pkg/prover/prover.go:84-101 | The first 32 aunts become byte rows and the index bits helpers, with zeros above; an aunt that does not decode crashes. |
| Prover.BuildWitness | zk-bridge/pkg/prover/prover.go:43-101 | A missing root is an error, an undecodable aunt a crash; otherwise the witness, root and transaction hash are the specified ones. |
| Prover.BuiltFromFields | zk-bridge/pkg/prover/prover.go:43-98 | The builder fails on the root exactly when root_hash is empty and crashes exactly when one of the first 32 aunts does not decode; the leaf is read from leaf_hash, or if that is empty from result.hash, else hash, else txhash, and is 32 zeros exactly when that does not decode, as for the root. |
| Prover.LeafFromResultHash | zk-bridge/pkg/prover/prover.go:44-65 | Without leaf_hash the hash of the result is the leaf and the key of the mint. |
| Prover.EmptyLevelsAreZero | zk-bridge/pkg/prover/prover.go:84-92 | Levels no aunt fills hold zeros, and the depth is the number of aunts. |
| Prover.BuiltIsWellFormed | zk-bridge/pkg/prover/prover.go:77-101 | Every witness built has words, byte rows and bits as the circuit wants them, unpacks to the root and leaf it was built from, and carries the decoded aunts and the index bits at its active levels. |
| Prover.HonestWitnessBuilt | zk-bridge/pkg/prover/prover.go:94-98 | For an honest response the builder crashes if and only if one of the first 32 aunts begins with 0x; otherwise it builds a witness. |
| Prover.HonestWitnessShape | zk-bridge/pkg/prover/prover.go:62-101 | What it builds has the tree hash as root, the leaf hash as leaf, or 32 zeros if that begins with 0x, the first 32 hashes of the audit path and the bits of the index. |
| Prover.HonestWitnessWalksPath | zk-bridge/pkg/prover/prover.go:43-101 | The circuit accepts it if and only if walking those hashes by the index bits gives the tree hash. |
| Prover.HonestWitnessAccepted | zk-bridge/pkg/prover/prover.go:43-101 | Completeness: for every tree and index with at most 32 aunts, the index below 2^(number of aunts) and no hash beginning with 0x, the witness satisfies the circuit with the RFC 6962 tree hash as root. |
| Prover.HonestWitnessExact | zk-bridge/pkg/prover/prover.go:43-101 | Barring collisions among the inputs hashed, an honest response gives an accepted witness if and only if all of these hold; a path of more than 32 hashes never does. |
| Prover.UnreadableLeafFails | zk-bridge/pkg/prover/prover.go:63-65 | A concrete failure: a leaf with hash D3 10 00 ..., alone in its tree and in base64, is rejected although its index fits. |
| Prover.PathsFitCircuit | zk-bridge/pkg/circuits/bridge.go:10-10 | A tree of at most 2^32 leaves has paths of at most 32 levels. |
| Prover.AcceptedIffInTree | zk-bridge/pkg/circuits/bridge.go:25-75 | Barring collisions, a witness with a tree's hash as root is accepted if and only if its leaf value is the hash of the subtree its helpers lead to and its path lies beside that descent. |
| Prover.AcceptedInFullTree | zk-bridge/pkg/circuits/bridge.go:25-75 | In a tree of 2^k leaves with k active levels, an accepted witness has as leaf the leaf hash at sum(helper_i * 2^i) and as path its audit path, or two different colliding 65-byte inputs are returned. |
| ProofWords.ParseArray | zk-bridge/pkg/prover/prover.go:240-248 | Every string of the array is parsed to its own position, and one that is no number is noticed. |
| ProofWords.ParseProof | zk-bridge/pkg/prover/prover.go:234-255 | The mint arguments are the file's strings position by position, and cannot be encoded when one is no number. |
| ProofWords.WordExact | zk-bridge/pkg/prover/prover.go:240-248 | A word is the number its string spells, in two's complement, and there is none exactly when it spells no number. |
| ProofWords.ParseFileExact | zk-bridge/pkg/prover/prover.go:240-248 | A file parses if and only if all twelve strings do, each to the word at its own place. |
| ProofWords.WordArrives | zk-bridge/pkg/prover/prover.go:187-192 | A printed coordinate arrives as itself if and only if it is zero or more than 65535 below the modulus, else as a word that is no field element. |
| ProofWords.ExportArrives | zk-bridge/pkg/prover/prover.go:187-192 | Export and parsing always succeed, with every coordinate in its own place as it arrives. |
| ProofWords.ProofWordsSurvive | zk-bridge/pkg/prover/prover.go:187-192 | After export, parsing and flattening the eight words are Ar.X, Ar.Y, Bs.X.A1, Bs.X.A0, Bs.Y.A1, Bs.Y.A0, Krs.X, Krs.Y, with the first commitment (zeros if none) and the proof of knowledge, if and only if every exported coordinate is printed plainly. |
| ProofWords.LargestCoordinateIsLost | zk-bridge/pkg/prover/prover.go:187-192 | The modulus less one prints as -1 and arrives as 2^256 - 1. |
| Destination.AfterMintKeeps | zk-bridge/contracts/BridgeDestination.sol:71-74 | Crediting a fresh hash within the supply limit keeps the invariant of the whole contract. |
| Destination.MintOutcomeExact | zk-bridge/contracts/BridgeDestination.sol:44-72 | Exactly when a mint goes through, and for each reason exactly when it reverts for it, in the order of the checks. |
| Destination.RootUpdates | zk-bridge/contracts/BridgeDestination.sol:99-101 | A root update sets the root and nothing else, and no mint changes it. |
| Destination.RunCallsAppend | zk-bridge/contracts/BridgeDestination.sol:33-101 | Calls take effect one after the other. |
| Destination.ApplyCallKeeps | zk-bridge/contracts/BridgeDestination.sol:33-101 | Any mint or root update keeps: the processed set is the set of minted hashes, none twice; each balance is what was minted to it; the supply is the sum of balances and of minted amounts. Nothing processed is forgotten. |
| Destination.RunCallsKeeps | zk-bridge/contracts/BridgeDestination.sol:33-101 | The same over every sequence of mints and root updates in any order. |
| Destination.RunFromDeployment | zk-bridge/contracts/BridgeDestination.sol:25-28 | So the invariant holds in every state a deployed contract reaches. |
| Destination.BridgeDestination.constructor | zk-bridge/contracts/BridgeDestination.sol:25-28 | A deployed contract trusts the initial root and has processed and minted nothing. |
| Destination.BridgeDestination.MintTokens | zk-bridge/contracts/BridgeDestination.sol:72-72 | The inherited _mint: reverts on the zero address and on supply overflow, else adds to supply and to one balance. |
| Destination.BridgeDestination.CallVerifier | zk-bridge/contracts/BridgeDestination.sol:51-68 | The verifier is asked about the eight proof words in order, the commitments and the packed root and hash. |
| Destination.BridgeDestination.Mint | zk-bridge/contracts/BridgeDestination.sol:33-75 | Which of the six outcomes occurs, in the order of the checks; any revert leaves the state as it was, and the invariant is kept. |
| Destination.BridgeDestination.MarkAndMint | zk-bridge/contracts/BridgeDestination.sol:70-74 | Marking, crediting and emitting happen together or not at all. |
| Destination.BridgeDestination.UpdateTrustedRoot | zk-bridge/contracts/BridgeDestination.sol:99-101 | Only the trusted root changes. |
| Relay.IdealVerifierExists | zk-bridge/contracts/BridgeDestination.sol:6-13 | Whatever statements proofs carry, a verifier that accepts exactly the provable ones exists, so assuming one excludes nothing. |
| Relay.AwaitIndexed | zk-bridge/cmd/relayer/main.go:147-164 | The five attempts end with the first reply with error code 0 and a hash in result.hash or hash; failing that with the last one if one of the two is not empty; else with nothing. |
| Relay.ExecuteEmits | zk-bridge/contracts/BridgeSource.sol:22-35 | A transaction mixing any lock calls with other contracts' logs keeps the source invariant and leaves, among its logs, exactly the Lock logs of its records in order. |
| Relay.ExecuteRecordsCalls | zk-bridge/contracts/BridgeSource.sol:22-35 | A transaction's records are those of its paid lock calls in order, with their senders, values and destinations, all of them while the counter can grow. |
| Relay.ExecuteEmitsOtherLogs | zk-bridge/pkg/prover/prover.go:275-276 | Its logs that are not the bridge's are those its actions emit, in order. |
| Relay.TransactionsAreRecorded | zk-bridge/contracts/BridgeSource.sol:22-35 | A new transaction joins the chain with its actions, records, logs, hash and response, and touches nothing else. |
| Relay.FindReceiptExact | zk-bridge/pkg/prover/prover.go:269-272 | A receipt is found if and only if a transaction has the hash, and is that transaction's. |
| Relay.OutsideSteps | zk-bridge/cmd/relayer/main.go:105-107 | Delivery starts a run, giving up ends it, and a new root or new file contents change only that. |
| Relay.MiningEndsRun | zk-bridge/pkg/prover/prover.go:255-261 | Once its mint is mined, for good or bad, a run is over. |
| Relay.EndingEndsAll | zk-bridge/cmd/relayer/main.go:125-141 | When the process ends every run is over but those whose mint is submitted. |
| Relay.LogWithoutTopicsEndsProcess | zk-bridge/pkg/prover/prover.go:275-276 | A run that meets a log without topics before any log of the bridge ends the process. |
| Relay.FailedUpdateLeavesContract | zk-bridge/cmd/relayer/main.go:195-202 | A failed root update leaves the contract as it was, and the run goes on with the same recipient, amount, root and key. |
| Relay.ScanFindsFirstLock | zk-bridge/pkg/prover/prover.go:275-281 | Scanning such a transaction crashes if and only if a log without topics stands before the bridge's first; otherwise it finds the recipient and amount of the first lock, or nothing when there is no lock. |
| Relay.OtherStepsKeepRun | zk-bridge/cmd/relayer/main.go:201-207 | Once a run has submitted or is over, no steps but its own change it, not even the end of the process. |
| Relay.StepsOnlyGrow | zk-bridge/contracts/BridgeDestination.sol:44-75 | No sequence of steps removes a transaction, a processed hash or a minted event. |
| Relay.WithoutMinesNoTokenMoves | zk-bridge/contracts/BridgeDestination.sol:44-75 | Without a mint being mined, only the trusted root of the destination can change. |
| Safety.ScanForFindsFirstLock | zk-bridge/cmd/relayer/main.go:161-180 | From a response that names a hash through the EVM hash to the receipt, a run that finds a lock finds the first of its own transaction. |
| Safety.ProveKeeps | zk-bridge/cmd/relayer/main.go:188-193 | A run proving, and overwriting the shared file, keeps the world invariant. |
| Safety.UpdateRootKeeps | zk-bridge/cmd/relayer/main.go:195-199 | A root update, mined or failed and ignored, keeps it. |
| Safety.SubmitKeeps | zk-bridge/cmd/relayer/main.go:201-207 | Submitting whatever proof the file holds by then keeps it. |
| Safety.MineKeeps | zk-bridge/contracts/BridgeDestination.sol:44-75 | The mint being mined at any later moment, against the root trusted by then, keeps it. |
| Safety.EndAllKeeps | zk-bridge/cmd/relayer/main.go:105-107 | A panic or the end of the process, which ends every run and leaves submitted mints to be mined, keeps it. |
| Safety.NextKeeps | zk-bridge/cmd/relayer/main.go:105-208 | Every step of the world keeps the invariant: each run's recipient and amount are its transaction's first lock, its root and key that transaction's, and each minted event has a delivery the verifier accepted. |
| Safety.ReachableKeeps | zk-bridge/cmd/relayer/main.go:105-208 | So it holds in every world reachable from deployment by any steps in any order. |
| Safety.EveryMintIsJustified | zk-bridge/contracts/BridgeDestination.sol:44-75 | In every reachable world each minted event has a proof whose statement is exactly its root and hash and is provable by the circuit; its recipient and amount are the destination and value of the first paid lock call of one transaction, and its root and hash what is built from that transaction's record. |
| Safety.MintedHashIsInTree | zk-bridge/contracts/BridgeDestination.sol:44-75 | If a mint's root is the hash of a tree, an accepted witness exists for its hash that, barring collisions, places the hash in that tree. |
| Conservation.DifferentMintsDifferentTransactions | zk-bridge/contracts/BridgeDestination.sol:48-48 | Two mints never deliver the same transaction. |
| Conservation.MintsInjectIntoLocks | zk-bridge/contracts/BridgeSource.sol:22-35 | Each mint has a recorded lock with its recipient and amount, and different mints have different nonces. |
| Conservation.MintedAtMostLocked | zk-bridge/contracts/BridgeDestination.sol:71-74 | In every reachable world the total supply is the sum of the amounts of distinct locks, each the first of its transaction; so at most the sum of all first locks, and that at most the balance locked at the source. |
| Progress.StepsReachable | zk-bridge/cmd/relayer/main.go:105-107 | Any steps from a reachable world lead to a reachable world, so all of this applies again after them. |
| Progress.OwnStepAdvances | zk-bridge/cmd/relayer/main.go:161-208 | For a response that passes the guards, each step of a run on its course succeeds and takes it to its next stage, with its proof in the file and then its root trusted. |
| Progress.QuietKeepsCourse | zk-bridge/cmd/relayer/main.go:105-107 | Transactions, deliveries, lock lookups that do not panic, abandoned runs and the mining of earlier mints keep a run on its course at every stage. |
| Progress.UndisturbedRunMinesOwnCall | zk-bridge/cmd/relayer/main.go:161-208 | However such steps fall between its own, a run of a relayable transaction, whose response names a hash and an EVM hash, ends with its own call applied, while its own root is trusted if its update succeeded and the old one if not. |
| Progress.OwnProofAccepted | zk-bridge/contracts/BridgeDestination.sol:68-68 | The verifier accepts a run's own proof, after its way through the file, if and only if all its coordinates print plainly. |
| Progress.UndisturbedRunCreditsWhenMined | zk-bridge/cmd/relayer/main.go:161-207 | With mints of earlier runs mined meanwhile, the mint of such a run credits its lock exactly when it can be credited as it is mined, its root update succeeded or its root was trusted already, and the proof prints plainly; it changes nothing otherwise. |
| Progress.UndisturbedRunCredits | zk-bridge/cmd/relayer/main.go:161-207 | From any reachable world a run of a relayable transaction, not overlapped by another, credits exactly the lock's amount to its recipient and nothing to anyone else, if and only if the hash is unprocessed, the recipient nonzero, the supply has room, the root update succeeds or its root was trusted already, and the proof prints plainly; else at most the trusted root changes. |
| Progress.RepeatedRunChangesNothing | zk-bridge/contracts/BridgeDestination.sol:48-48 | Once the hash is processed, the mint of a further run changes nothing, whatever is mined meanwhile. |
| Progress.SecondRunAddsNothing | zk-bridge/cmd/relayer/main.go:175-207 | After a crediting run and any steps at all, another run for the transaction, with whatever proof, moves no token. |
| Progress.MintGoesThroughExactlyWhen | zk-bridge/cmd/relayer/main.go:182-206 | For any steps of others between submission and mining, a mint credits its recipient, and no one else, if and only if the file held a proof of its own root and hash at submission and, when mined, its root is trusted, its hash unprocessed, its recipient nonzero and the supply has room; else nothing changes. |
| Progress.OverwrittenProofMintsNothing | zk-bridge/cmd/relayer/main.go:182-206 | A run that submits another run's proof, for another root or hash, mints nothing, whatever happens before it is mined. |
| Progress.MisfitNeverProves | zk-bridge/pkg/prover/prover.go:94-152 | Barring collisions, an honest response outside the exact domain never gets past proving: nothing changes, or an unreadable aunt ends the process. |
| Progress.HonestTransactionRelayableExactlyWhen | zk-bridge/cmd/relayer/main.go:161-193 | An honest transaction with an EVM hash, a lock to find and a proof of its inputs is relayable if and only if its response names a hash and is in that domain; it is keyed by its leaf hash. |
| Progress.UnnamedIsSkipped | zk-bridge/cmd/relayer/main.go:161-164 | A run whose response names no hash in result.hash or hash finds nothing. |
| Progress.LocklessIsSkipped | zk-bridge/cmd/relayer/main.go:166-179 | Neither does one without a known transaction, an EVM hash, a receipt for it or a lock in that receipt. |
| Progress.EitherHashIsRelayed | zk-bridge/cmd/relayer/main.go:161-180 | In a reachable world with one lock, an honest response with its hash in result.hash, in hash or in both is relayable and its run finds the lock; with neither it is not. |
| Progress.TxhashAloneIsNotRelayed | zk-bridge/cmd/relayer/main.go:161-164 | A concrete failure: an honest response with an accepted witness and an EVM hash, its hash in txhash alone, is skipped. |
| Config.FieldIndexIsFirst | evmd/cmd/evmd/cmd/testnet_utils.go:93-110 | The field found answers to the part and no earlier one does; nothing is found only when none answers. |
| Config.FieldIndexExact | evmd/cmd/evmd/cmd/testnet_utils.go:93-110 | A part means field i if and only if i is the first field that answers to it. |
| Config.FieldIndexNamed | evmd/cmd/evmd/cmd/testnet_utils.go:93-110 | A field is found by its tag, if it has one, and by its name in any letter case; the first so named is meant, and none is found exactly when none is. |
| Config.SplitExact | evmd/cmd/evmd/cmd/testnet_utils.go:29-29 | The parts joined again are the path, and none contains a dot. |
| Config.SplitOfJoin | evmd/cmd/evmd/cmd/testnet_utils.go:151-151 | Parts or items without the separator are got back from their join. |
| Config.TrimExact | evmd/cmd/evmd/cmd/testnet_utils.go:149-154 | Trimming gives the text without the white space at both ends, and only that. |
| Config.ValueExact | evmd/cmd/evmd/cmd/testnet_utils.go:113-163 | A string sets a value if and only if it means it: the six spellings each of true and false, the decimal of an int64, the string itself, the trimmed items of a comma-separated list or none for blanks, a parsed duration; all else is an error. |
| Config.ResolveExact | evmd/cmd/evmd/cmd/testnet_utils.go:59-89 | A path of two or more parts resolves to a leaf if and only if its parts lead there, each naming the first field that answers to it, through pointers or not. |
| Config.LeafGetsMeaning | evmd/cmd/evmd/cmd/testnet_utils.go:166-187 | The override path=v gives the leaf the path resolves to what v means, and is an invalid value exactly when v means nothing. |
| Config.TwoPartOverride | evmd/cmd/evmd/cmd/testnet_utils.go:59-89 | The override a.b=v writes what v means to leaf b of field a, both by tag or name. |
| Config.TwoPartErrors | evmd/cmd/evmd/cmd/testnet_utils.go:59-87 | How a.b=v fails: no field a, nothing that has fields, no field b, or a field that cannot be set. |
| Config.OnePartOverride | evmd/cmd/evmd/cmd/testnet_utils.go:34-57 | The override a=v is about the leaf of BaseConfig named a, or failing that the top-level one, or is an unknown field. |
| Config.FirstEqualsIs | evmd/cmd/evmd/cmd/testnet_utils.go:166-172 | An override is split at its first equals sign, and is malformed exactly when it has none. |
| Config.UnwrittenLeafKeeps | evmd/cmd/evmd/cmd/testnet_utils.go:175-187 | A leaf no override writes keeps its value, also when an error ends the run. |
| Config.LastWriterWins | evmd/cmd/evmd/cmd/testnet_utils.go:175-187 | When all succeed, each leaf holds the parse of the last override that resolves to it, by whatever name. |
| Config.ErrorStopsThere | evmd/cmd/evmd/cmd/testnet_utils.go:175-187 | On an error at position k the leaves are those after exactly the k overrides before it, and that error is the outcome. |
| Config.ResolvedLeafHasItsPointers | evmd/cmd/evmd/cmd/testnet_utils.go:61-76 | The walk to a leaf passes exactly the pointer fields above that leaf. |
| Config.ConfigTree.SetFieldValue | evmd/cmd/evmd/cmd/testnet_utils.go:113-163 | Sets exactly the leaf addressed to the value the string means, or reports an invalid value and changes nothing when it means none. |
| Config.ConfigTree.UpdateConfigField | evmd/cmd/evmd/cmd/testnet_utils.go:28-90 | The cursor walk writes exactly the leaf the path resolves to, or nothing on an error; it creates exactly the nil pointers it passes, errors included, so no written leaf is behind a nil pointer. |
| Config.ConfigTree.ApplyConfigOverrides | evmd/cmd/evmd/cmd/testnet_utils.go:175-187 | The loop has the leaves and outcome of applying the overrides one by one up to the first error, and never leaves a written leaf behind a nil pointer. |
| Config.ConfigTree.ApplyOverride | evmd/cmd/evmd/cmd/testnet_utils.go:177-184 | One turn of it: one write, or one error and no write. |

## Left out

- Circuit.Define: the SHA-256 gadget is a function of its input wires, SHA-256 on bytes and anything elsewhere; how gnark's gadget constrains wires that are not bytes is not part of this model.
- Relay.Provable: what a proof attests is acceptance with byte rows at the active levels, which is what the constraints say when the rows are bytes or the gadget checks its wires.
- Circuit.IsLess: compares canonical representatives; the constraints `cmp.IsLess` compiles to belong to gnark.
- Groth16, Pedersen commitments, key setup and the generated verifier: a proof carries its statement, and the ideal verifier accepts exactly a proof of the very inputs given when they are provable (`Relay.IdealVerifier`).
- Config.ConfigTree: `time.ParseDuration` is a parameter; all fields are exported ones, as those of the CometBFT configuration are; letter case is that of ASCII; a leaf that is absent holds its zero value.
- Prover.HonestResponse: the index is an int64, as a node's is; the root is in hex, the leaf hash and aunts in hex or base64, as nodes write them.
- Prover.AcceptedIffInTree: places a subtree hash, not a leaf, in the tree, because the circuit does not hash the leaf itself; the full-tree lemma gives the leaf when the depth is the tree's.
- Relay.FindReceipt: hashes identify transactions. The position in the chain stands for the Tendermint hash, a response names its own transaction's EVM hash or none, and a transaction's record is the same whenever it is asked for: in both calls of `GetTxDetails` of one run and in every run for it, duplicate deliveries included. Conservation needs that, too.
- Receipt.LockTopicMatches: the event signature's Keccak hash is the constant in the scan; Keccak is not modelled, so neither is which letter case a checksummed address has.
- ProofWords.ElementString: the printing of field elements is that of gnark-crypto's `Text` in base 10, a library that is not part of this model.
- Relay.IdealVerifier: words that are no field elements are no proof, as the EVM's curve precompiles have it (EIP-196 and EIP-197).
- Progress.UndisturbedRunCredits: runs that prove, update the root or submit while this one does are not undisturbed; what they can do to a mint is said by the exact condition for any run.
- Conservation.MintedAtMostLocked: all mints come from the relayer; who else may call `mint` or `updateTrustedRoot` is a question of access. Root changes by anyone are steps of the model.
- ERC20 transfers and allowances, the `DebugInputs` event, `getLockDetails`, gas, and native balance arriving other than through `lock`.
- HTTP, WebSocket, JSON, dialling, key and `.env` handling and logging: their failures are the steps that abandon a run, stop the process, leave a root update unmined, or put any contents in the proof file.
- Strings are byte strings, one character a byte; lower-casing and white space are those of ASCII.
- `zk-bridge/cmd/setup`, `zk-bridge/cmd/deployer`, the wiring of `evmd` over SDK keepers, genesis export, scripts and tests.
