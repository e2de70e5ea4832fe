# Verified model of a small Bitcoin toolkit

This project models the hard core of a Bitcoin toolkit written in C, the programs of
`protocols/kyk_block` and the transaction reader `parse_txout_script_pbk.c`, and proves what
their parts promise each other: printers and parsers that undo each other, two independent
serialisers that agree, a pointer stack that refines a list stack, a tree built in place that
matches its definition from the top, text that decodes to what was encoded.

`dafny verify dfyconfig.toml` checks everything.

## The files

| file | models |
|---|---|
| `Bytes.dfy` | bytes, digests, little- and big-endian numbers, stores into a buffer |
| `KykUtils.dfy` | reversing and copying bytes, hexadecimal text |
| `Varint.dfy` | variable-length integers |
| `Float754.dfy` | the float packer, over the reals |
| `BeejPack.dfy` | the format interpreters `beej_pack` and `beej_unpack` |
| `Tx.dfy`, `Ser.dfy` | the two transaction serialisers |
| `Base58.dfy`, `Address.dfy` | radix-58 text, addresses and the scripts made from them |
| `Script.dfy`, `ScriptStack.dfy` | the script machine: a list-stack interpreter, and the pointer stack with its heap blocks |
| `MerkleTree.dfy`, `MklTree.dfy` | Merkle trees: what the root means, and the levels built on the heap |
| `Block.dfy`, `ParseBlock.dfy`, `Files.dfy` | block headers, and reading blocks back from a file |
| `HashNonce.dfy` | targets, difficulty and the nonce search |
| `GensBlock.dfy` | from a transaction to a mined block: all writers, one behind the other |
| `TxOutReader.dfy` | reading outputs and disassembling their scripts |
| `Message.dfy` | protocol messages and receiving them in chunks |

## How it is modelled

* Code that works in place stays in place: buffers are arrays written through a moving offset,
  structs whose fields are assigned are classes, loops keep their guards and their order. Each
  such method is proved equal to a function of its inputs, and the theorems are about those
  functions. A serialiser's contract is `buf[..] == Splice(old(buf[..]), at, x)`: the bytes `x`
  at `at`, and every other byte as it was.
* SHA-256, hash160 and signature verification are function parameters, so every theorem holds
  for all of them; only the lengths of the digests are fixed. What would need collision
  freedom is stated by exhibiting a collision instead.
* `BIGNUM` and `mpz_t` values are natural numbers. `long double` is a real number; the 24-bit
  rounding of the constant `(1LL<<s) + 0.5f` is kept as the multiplier `2^s + d`.
* A file is its bytes and a cursor. A socket is a list of pieces that the network has ready: a call
  of `recv` takes from the first as much as it has room for, and fails when none is left.
* An entry of a disassembled script is what the source stores: text of its own for a push, else a
  pointer to a slot of the table of opcode names or to the one text for unknown opcodes.
* Heap blocks of the script machine are numbered. A block must be live to be read or freed,
  and its number is never used again, so no block is freed twice.
* Unsigned arithmetic wraps where the source can reach it: shifts in `beej_pack`, the nonce, the
  difficulty, the maximal string length. `unsigned long` has 64 bits there. Stores of `"<L"`
  into a `uint32_t` field are taken as 32-bit stores. The transaction count that
  `kyk_varint_fread` fills is eight bytes wide, so there both sizes of `unsigned long` are
  covered (parameter `lng`).
* The host is little-endian, `malloc` succeeds, loop counters stay below 2^31, and struct fields
  do not overlap.

## Where the code and its description differ

The model follows the code, and says exactly how far the expected property goes.

* `beej_pack` forgets the byte order after each field and `beej_unpack` keeps it, so a format
  round-trips every value vector if and only if it has no strings and no multi-byte field without
  a mark of its own follows a most recent `<` (`BeejPack.RoundTripIffMarked`). Two words under one
  mark are an example that fails (`BeejPack.SecondFieldSwapped`).
* The comment above `beej_pack` says that a string is stored behind its length. The code stores no
  length, but the reader expects one (`BeejPack.StringsOverrun`, `BeejPack.StringRecoveredIff`,
  `BeejPack.ShortStringLost`).
* A maximal length in front of `s` is off by one: a string of exactly that length still gets its
  terminating zero behind it (`BeejPack.StringLimit`).
* `pack754` joins its fields with `|`: a scaled fraction of exactly `2^s` runs into the exponent,
  where it is added if the exponent is even and lost if it is odd (`Float754.CarryLost`).
* `pack754` has no exponent reserved for zero and does not check the range: a positive number of the
  lowest exponent without a fraction gets the word of zero (`Float754.ZeroLost`), and an exponent
  that does not fit its field is cut and spills into the sign (`Float754.ExponentLost`).
  `Float754.UnpackOfPack` says exactly which numbers come back.
* `kyk_ser.c` writes sequence numbers big-endian and `kyk_tx.c` little-endian
  (`Ser.PlainColumnsAgreeIff`, `Ser.PlainDisagrees`).
* `kyk_varint_fread` overwrites only the low bytes of the count, so a struct that is used again
  keeps high bytes of the count before (`ParseBlock.CountsRightIff`, `ParseBlock.StaleCount`).
* `OP_CHECKSIG` pushes no result, and a run that reaches the end succeeds whatever is on the
  stack, even with a false item on top (`Script.FalseOnTop`). How many items are left is what the
  opcodes alone compute (`Script.DoneDepth`), and which ones, script and hash alone
  (`Script.DoneStack`): none for pay to public key hash (`Script.P2pkhAccepts`).
* A `scriptSig` that ends inside a push swallows the start of `scriptPubKey`
  (`Script.CutPushSwallows`); combined scripts compose exactly when the run of `scriptSig` reaches no
  such push (`Script.CompositionIff`).
* `btc_parsed_sc_pbk` reads an opcode even of an empty script, and all bytes of a push that the script
  cuts off: exactly for these scripts it leaves the cursor past the end (`TxOutReader.ScanEndsIff`),
  and exactly for lists without them `read_tx_out_list` reads back what was written
  (`TxOutReader.ListReadBackIff`, `TxOutReader.EmptyScriptMisplaces`).
* The opcodes that the table of names lacks all get the same name, so different scripts can have
  the same entries (`TxOutReader.SameTokensIff`, `TxOutReader.UnlistedAlike`).

## Model

| member | source | states |
|---|---|---|
| MklTree.CreateMklTree | protocols/kyk_block/kyk_mkl_tree.c:29-44 | For every list of at least one leaf the loop ends; level k of the levels it links has n/2^k nodes rounded up and holds the digests k levels above the leaves, byte-reversed; the root level is numbered ceil(log2 n) above the leaf level and its only node holds the reversed top-down root |
| MklTree.CreateMklLeafs | protocols/kyk_block/kyk_mkl_tree.c:47-69 | The leaf level has number 1 and as many nodes as transactions, node i holding the reversed hash of transaction i; a single leaf is marked as the root |
| MklTree.TxTreeIsTopDown | protocols/kyk_block/kyk_mkl_tree.c:57-62 | The top-down tree over transactions, cut at the same places, is the one over their hashes in the same order |
| MklTree.SmallRoots | protocols/kyk_block/kyk_mkl_tree.c:121-158 | The roots of one, two and three transactions written out in hashes of concatenations |
| MklTree.HashMklLeaf | protocols/kyk_block/kyk_mkl_tree.c:79-83 | A leaf's body is the hash of the transaction, reversed |
| MklTree.CreateParentMklLevel | protocols/kyk_block/kyk_mkl_tree.c:86-103 | A root level is its own parent; above any other level stands a finished level over the paired digests, numbered one more and linked down |
| MklTree.HashMkltreeLevel | protocols/kyk_block/kyk_mkl_tree.c:114-119 | Every node's body becomes the reversed hash of its pair, without touching the links |
| MklTree.HashMkltreeNode | protocols/kyk_block/kyk_mkl_tree.c:121-131 | The two reversals of the children's bodies cancel: what is hashed is the two raw digests, what is stored is the reversed hash |
| MklTree.UpMkltreeLevel | protocols/kyk_block/kyk_mkl_tree.c:133-158 | Node i of the new level has children 2i and 2i+1, an odd last node is its own sibling, and all nodes are distinct |
| MklTree.KykCpyMklRootValue | protocols/kyk_block/kyk_mkl_tree.c:217-220 | The root's 32 bytes are copied to the front of the buffer and nothing else changes |
| MklTree.LevelWidth | protocols/kyk_block/kyk_mkl_tree.c:133-148 | For every n and k, k levels above n leaves there are ceil(n/2^k) digests |
| MklTree.TransactionsBound | protocols/kyk_block/kyk_mkl_tree.c:47-83 | Equally long transaction lists with the same root are equal, or a collision is read off them: two transactions at the same place, or two different 64-byte strings with the same hash, one hashed inside each of the two trees |
| MerkleTree.HeightIsCeilLog2 | protocols/kyk_block/kyk_mkl_tree.c:133-148 | The number of times a level of n nodes can be halved, rounding up, is the rounded-up logarithm of n to base 2 |
| MerkleTree.TopDownUp | protocols/kyk_block/kyk_mkl_tree.c:133-158 | Pairing neighbours once takes exactly one level off the top-down recursion, lone halves included |
| MerkleTree.RootIsTopDown | protocols/kyk_block/kyk_mkl_tree.c:29-44 | The bottom-up root equals the recursion that splits at the largest power of two and hashes a lone half with itself |
| MerkleTree.TopDownIsComplete | protocols/kyk_block/kyk_mkl_tree.c:148-157 | Hashing a lone half with itself gives the root of the complete tree in which the half is written twice |
| MerkleTree.FindCollision | protocols/kyk_block/kyk_mkl_tree.c:121-131 | Two complete trees with equal roots and different leaves yield different 64-byte inputs, one hashed in each tree, with the same hash |
| MerkleTree.InputIsNode | protocols/kyk_block/kyk_mkl_tree.c:121-131 | The strings a collision is found among are inputs of nodes and nothing else: the roots of two neighbouring blocks of 2^j leaves, the first at a multiple of 2^(j+1) |
| MerkleTree.SameRoot | protocols/kyk_block/kyk_mkl_tree.c:121-158 | For lists of equal height: equal padded lists have equal roots, and equal roots mean equal padded lists or a collision among the inputs of the two trees |
| MerkleTree.Binding | protocols/kyk_block/kyk_mkl_tree.c:121-158 | Equally long leaf lists with the same root are equal, or a collision is extracted from the two trees |
| MerkleTree.DuplicatedTail | protocols/kyk_block/kyk_mkl_tree.c:137-157 | If n is an odd multiple, above one, of 2^k, appending a copy of the last 2^k leaves keeps the root |
| MerkleTree.WholeDuplicated | protocols/kyk_block/kyk_mkl_tree.c:137-157 | Appending a copy of all of 2^k leaves instead gives the hash of the old root with itself |
| MerkleTree.SamePaddedIff | protocols/kyk_block/kyk_mkl_tree.c:133-158 | For different leaves, a list at least as long is padded to the same complete tree if and only if its length fits, told from the two numbers alone, and it is cut from the padded form |
| MerkleTree.SameRootIff | protocols/kyk_block/kyk_mkl_tree.c:121-158 | So any list of equal height has the same root as a list of different leaves if it is at least as long, of a fitting length and cut from the padded form; and if the roots are equal otherwise, a collision is found, one string hashed inside each of the two trees |
| MerkleTree.TailOfTwoCopies | protocols/kyk_block/kyk_mkl_tree.c:137-157 | A concrete case beyond copied blocks: five leaves and two more copies of the last have the same root |
| MerkleTree.RootOfLevel | protocols/kyk_block/kyk_mkl_tree.c:29-44 | Every level of a tree has the tree's root, as many levels nearer |
| MerkleTree.SameRootAnyHeight | protocols/kyk_block/kyk_mkl_tree.c:121-158 | For trees k levels apart in height: equal padded forms of the higher one's k-th level and the other's leaves mean equal roots, and equal roots mean that or a collision, one string hashed in each |
| MerkleTree.LevelAboveHasRoot | protocols/kyk_block/kyk_mkl_tree.c:121-131 | Leaves and inner nodes are hashed alike, so the root does not fix the number of leaves: the level above is a shorter list with the same root |
| Script.DepthSafeNotStuck | protocols/kyk_block/kyk_script.c:132-195 | A script whose depth, computed from opcodes alone, never underflows or passes 20 and whose pushes end inside it never leaves the stack or the signature buffers, whatever hashes and signature checks answer |
| Script.Composition | protocols/kyk_block/kyk_script.c:111-189 | If the walk over scriptSig ends on its last byte, running the combined script is running scriptPubKey from the stack and count scriptSig leaves, or stopping as scriptSig stopped |
| Script.CompositionIff | protocols/kyk_block/kyk_script.c:111-189 | A scriptSig composes with every scriptPubKey if and only if its run reaches no push that goes past its last byte |
| Script.RunThrough | protocols/kyk_block/kyk_script.c:132-189 | Composition from any point of the first script, with any stack, as long as the run reaches no cut push |
| Script.CutSwallows | protocols/kyk_block/kyk_script.c:140-147 | If it does, the script alone reads past its end, and some scriptPubKey makes the combined script succeed |
| Script.RunInSecond | protocols/kyk_block/kyk_script.c:132-189 | A run that has reached the second script no longer depends on the first |
| Script.CutPushSwallows | protocols/kyk_block/kyk_script.c:140-147 | A concrete scriptSig that ends inside a push makes a combined script succeed although the scriptPubKey alone is refused |
| Script.ExecutedArePrefix | protocols/kyk_block/kyk_script.c:140-184 | The opcodes a run executes are a prefix of those the bytes alone mark out, and all of them if the run ends |
| Script.PushTwoRuns | protocols/kyk_block/kyk_script.c:140-147 | A script that pushes a signature and a key of 1 to 75 bytes ends exactly and leaves the two on the stack |
| Script.P2pkhRuns | protocols/kyk_block/kyk_script.c:80-108 | Run on any signature and key, the locking script fails at the hash comparison, succeeds with an empty stack, or fails at the signature, decided by exactly these two tests |
| Script.P2pkhAccepts | protocols/kyk_block/kyk_script.c:132-284 | For every signature and key of 1 to 75 bytes, 20-byte hash and transaction of at most 1996 bytes, with the combined script and the call written out in bytes: it succeeds if and only if the key has the hash and verification says at least 1 on the transaction followed by the last byte of the signature and three zeros, the signature without that byte, and the key; a success leaves nothing on the stack, and the run never leaves its buffers |
| Script.SigChecksIs | protocols/kyk_block/kyk_script.c:224-232 | Which call OP_CHECKSIG makes, in bytes |
| Script.Limits | protocols/kyk_block/kyk_script.c:214-229 | In numbers: pushes take 1 to 75 bytes, and signatures of 1 to 101 bytes over transactions of at most 1996 fit the buffers |
| Script.P2pkhBytes | protocols/kyk_block/kyk_script.c:76-108 | The locking script in bytes: 76 a9 14, the hash, 88 ac |
| Script.TwentyPushes | protocols/kyk_block/kyk_script.c:317-333 | A script of n pushes runs to its end if and only if n is at most 20, and overruns the stack otherwise |
| Script.DoneDepth | protocols/kyk_block/kyk_script.c:140-187 | A run that ends leaves exactly as many items as the opcodes alone compute, whatever hashes and signature checks answer |
| Script.DoneStack | protocols/kyk_block/kyk_script.c:140-187 | Which items they are is a function of the script and the hash alone; signature checks and the transaction have no part in it |
| Script.FalseOnTop | protocols/kyk_block/kyk_script.c:170-187 | A concrete run that succeeds with a false item on top of the stack |
| ScriptStack.ScStack.Init | protocols/kyk_block/kyk_script.c:191-195 | The stack starts empty with nothing allocated |
| ScriptStack.ScStack.Push | protocols/kyk_block/kyk_script.c:317-333 | The items grow by the pushed bytes in one new block; `top` is slot hgt-1 again, also when it was NULL or one before the first slot |
| ScriptStack.ScStack.PopStack | protocols/kyk_block/kyk_script.c:297-306 | The top item leaves the stack and its block stays live until it is freed |
| ScriptStack.ScStack.FreeItem | protocols/kyk_block/kyk_script.c:352-355 | Frees one block that is no longer on the stack and leaves all items as they are |
| ScriptStack.ScStack.OpDup | protocols/kyk_block/kyk_script.c:308-314 | The top item is there twice, in a block of its own |
| ScriptStack.ScStack.OpHash160 | protocols/kyk_block/kyk_script.c:242-250 | The top item is replaced by its hash; one block is freed and one allocated |
| ScriptStack.ScStack.OpEqVerify | protocols/kyk_block/kyk_script.c:259-295 | Returns 1 exactly for equal top items, which are dropped with their blocks left allocated; different items stay |
| ScriptStack.CheckSig | protocols/kyk_block/kyk_script.c:224-232 | The call made from copies in the two local buffers is the one on the transaction with the hash type as four little-endian bytes and the signature without its last byte |
| ScriptStack.ScStack.OpChecksig | protocols/kyk_block/kyk_script.c:207-239 | At least 1 exactly when verification says so on the transaction followed by the hash type as four little-endian bytes, the signature without its last byte, and the key; both items are dropped, nothing is pushed |
| ScriptStack.ScStack.FreeScStack | protocols/kyk_block/kyk_script.c:344-355 | Frees every block on the stack once, and only those |
| ScriptStack.ExecOp | protocols/kyk_block/kyk_script.c:149-182 | Every opcode on the pointer stack does what the list-stack run does, keeps `top` at slot hgt-1, and keeps mallocs = frees + hgt + 2 * dropped pairs |
| ScriptStack.ExecPush | protocols/kyk_block/kyk_script.c:142-147 | So does a push |
| ScriptStack.KykRunSc | protocols/kyk_block/kyk_script.c:132-189 | Returns 1 exactly when the list-stack run reaches the end and 0 otherwise, terminates, and leaves exactly two blocks for each dropped pair allocated, plus the stack after an unknown opcode |
| ScriptStack.KykCombineSc | protocols/kyk_block/kyk_script.c:111-130 | Writes one script behind the other and returns the number of bytes |
| ScriptStack.BuildP2pkhScPubk | protocols/kyk_block/kyk_script.c:80-108 | Writes the locking script, length cut to a byte, and returns its size |
| Base58.DecodeDigit | protocols/kyk_block/kyk_base58.c:142-148 | Every one of the 58 digits is found at its own place of the alphabet |
| Base58.DigitIs | protocols/kyk_block/kyk_base58.c:7 | Every digit by its number: 1-9, A-H, J-N, P-Z, a-k, m-z |
| Base58.AlphabetIs | protocols/kyk_block/kyk_base58.c:7 | The digits are exactly the digits 1 to 9 and the letters without capital I and O and small l |
| Base58.DecodableIff | protocols/kyk_block/kyk_base58.c:89-148 | A text decodes if and only if it consists of these characters, or of zeros, which count 58 |
| Base58.EncodeChars | protocols/kyk_block/kyk_base58.c:48-56 | Everything written consists of these characters |
| Base58.SixteenIsH | protocols/kyk_block/kyk_base58.c:10-67 | A concrete case: the byte 16 is written as H |
| Base58.DigitsPerByte | protocols/kyk_block/kyk_base58.c:18 | Any power of 58 below a power of 256 has an exponent below 138/100 of the other |
| Base58.EncodeFits | protocols/kyk_block/kyk_base58.c:18-57 | The text of any byte string and its terminating zero fit into len * 138 / 100 + 2 characters |
| Base58.DecodeOfEncode | protocols/kyk_block/kyk_base58.c:10-114 | Decoding the text of any byte string gives its big-endian value |
| Base58.EncodeInjective | protocols/kyk_block/kyk_base58.c:10-67 | Different byte strings of any lengths have different texts, leading zero bytes included |
| Base58.SameValueIff | protocols/kyk_block/kyk_base58.c:89-114 | Two texts of the alphabet decode to the same number if and only if they agree without their leading digits `1` |
| Base58.FillDigits | protocols/kyk_block/kyk_base58.c:34-50 | The division loop terminates and leaves the radix-58 digits of the value, lowest first, inside the buffer |
| Base58.FillOnes | protocols/kyk_block/kyk_base58.c:51-57 | One digit `1` is added for each leading zero byte |
| Base58.KykBase58 | protocols/kyk_block/kyk_base58.c:10-67 | The buffer holds the text followed by zero characters, with no store outside it |
| Base58.KykBase58Check | protocols/kyk_block/kyk_base58.c:69-87 | The same of the data followed by the first four bytes of its hash |
| Base58.RawDecodeBase58 | protocols/kyk_block/kyk_base58.c:89-114 | 1 and the positional value of the text if every character decodes, else -1 |
| Base58.ValidateBase58Checksum | protocols/kyk_block/kyk_base58.c:117-140 | 1 exactly when bytes 21 to 24 are the first four of the hash of the given front part |
| Address.PaddedIsBE | protocols/kyk_block/kyk_script.c:59-61 | The minimal bytes of a number, right-aligned in zeros, are its fixed-width big-endian form |
| Address.AddressRoundTrip | protocols/kyk_block/kyk_address.c:70-100 | For every 20-byte hash and every version byte the address decodes to exactly that hash with a good checksum and a number that fits 25 bytes, whatever zero bytes the hash starts with |
| Address.AddressInjective | protocols/kyk_block/kyk_address.c:70-100 | Different hashes or versions have different addresses |
| Address.LeadingOnesIgnored | protocols/kyk_block/kyk_script.c:49-74 | Writing more digits `1` in front of an address does not change what is read from it |
| Address.PaidKeySpends | protocols/kyk_block/kyk_script.c:35-189 | The locking script read from the address of a key accepts exactly keys with the same hash and a good signature |
| Address.SetVersionByte | protocols/kyk_block/kyk_address.c:109-115 | The version byte followed by the digest |
| Address.GetAddrChecksum | protocols/kyk_block/kyk_address.c:117-122 | The front of the digest fills the checksum |
| Address.SetChksumByte | protocols/kyk_block/kyk_address.c:125-139 | The extended digest followed by the checksum |
| Address.MakeAddress | protocols/kyk_block/kyk_address.c:67-100 | Steps 4 to 9 give, zero-terminated, the text of the 25 bytes 0, digest and the first four bytes of SHA-256 twice over both, whose value is their big-endian number |
| Address.MadeAddressReads | protocols/kyk_block/kyk_address.c:67-100 | A reader that hashes with SHA-256 twice finds the digest in that text |
| Address.PubkHashFromAddress | protocols/kyk_block/kyk_script.c:49-74 | 1 and the hash in the address if its checksum is right, else -1 |
| Address.P2pkhScFromAddress | protocols/kyk_block/kyk_script.c:35-47 | 25 and the locking script of the hash in the address, or -1 and an untouched buffer |
| Float754.PackOfUnpack | protocols/kyk_block/beej_pack.c:46-99 | For every layout up to 64 bits, every bit pattern and every multiplier 2^s + d with 0 <= d <= 1/2, packing the number a pattern stands for gives the pattern back |
| Float754.UnpackOfPack | protocols/kyk_block/beej_pack.c:46-99 | For every nonzero number: it comes back within one unit of the last place if and only if its biased exponent fits the field, it is not a positive number of the lowest exponent without a fraction, and its scaled fraction stays below 2^s or its biased exponent is even |
| Float754.ZeroWordIff | protocols/kyk_block/beej_pack.c:65-72 | A number whose exponent fits gets the word of zero exactly if it is positive, of the lowest exponent and without a fraction |
| Float754.OutOfRangeIsFar | protocols/kyk_block/beej_pack.c:46-99 | A number whose biased exponent does not fit its field never comes back within one unit of the last place |
| Float754.PackFields | protocols/kyk_block/beej_pack.c:65-72 | The stored word is sign, biased exponent and fraction in their fields, and a fraction of exactly 2^s sets the lowest exponent bit |
| Float754.CarryLost | protocols/kyk_block/beej_pack.c:65-72 | A concrete loss: in 16 bits 1.999755859375, which is 8191/4096, is stored as 1 |
| Float754.ZeroLost | protocols/kyk_block/beej_pack.c:65-82 | A concrete loss: in 16 bits 2^-15 is stored as zero |
| Float754.ExponentLost | protocols/kyk_block/beej_pack.c:65-99 | A concrete loss: in 16 bits 2^17 comes back as -2^-15 |
| Float754.UnpackWord | protocols/kyk_block/beej_pack.c:75-99 | A nonzero word stands for sign, 1 + m / 2^s and exponent of its three fields |
| Float754.UnpackIs | protocols/kyk_block/beej_pack.c:75-99 | The number of every nonzero word as the standard's formula for normal numbers gives it, from its three fields |
| Float754.Words16 | protocols/kyk_block/beej_pack.c:9-10 | In 16 bits, 1 and -2 get the words of the standard |
| Float754.Words32 | protocols/kyk_block/beej_pack.c:10-13 | The same in 32 bits |
| Float754.Words64 | protocols/kyk_block/beej_pack.c:12-14 | The same in 64 bits |
| Float754.NoCarryIn32 | protocols/kyk_block/beej_pack.c:65-72 | Where the half in the multiplier is rounded away, 2 - 2^-25 does not carry |
| Float754.Pack754 | protocols/kyk_block/beej_pack.c:46-73 | Both normalising loops terminate, at the exponent k with 2^k <= abs(f) < 2^(k+1), and the word joins the fields found there |
| Float754.Unpack754 | protocols/kyk_block/beej_pack.c:75-99 | Both scaling loops terminate and give the value of the word's fields |
| BeejPack.ShiftedByte | protocols/kyk_block/beej_pack.c:115-167 | Shifting a word left and back right and masking selects one byte of it, for any word size |
| BeejPack.PackI16 | protocols/kyk_block/beej_pack.c:105-119 | The low 16 bits in the byte order asked for |
| BeejPack.PackI32 | protocols/kyk_block/beej_pack.c:124-140 | The low 32 bits in the byte order asked for |
| BeejPack.PackI64 | protocols/kyk_block/beej_pack.c:145-167 | The 64 bits in the byte order asked for |
| BeejPack.UnpackU16 | protocols/kyk_block/beej_pack.c:214-234 | The number the two bytes spell in that order |
| BeejPack.UnpackU32 | protocols/kyk_block/beej_pack.c:286-314 | The number the four bytes spell in that order |
| BeejPack.UnpackU64 | protocols/kyk_block/beej_pack.c:384-425 | The number the eight bytes spell in that order |
| BeejPack.UnpackI8 | protocols/kyk_block/beej_pack.c:652-657 | Re-signing a byte is its two's complement reading |
| BeejPack.UnpackI16 | protocols/kyk_block/beej_pack.c:172-208 | So is re-signing 16 bits |
| BeejPack.UnpackI32 | protocols/kyk_block/beej_pack.c:239-281 | So is re-signing 32 bits |
| BeejPack.UnpackI64 | protocols/kyk_block/beej_pack.c:319-381 | So is re-signing 64 bits |
| BeejPack.FieldRoundTrip | protocols/kyk_block/beej_pack.c:487-574 | Any in-range value of any field type comes back when read in the order it was written in |
| BeejPack.PackedSize | protocols/kyk_block/beej_pack.c:471-591 | The returned size is the sum of the field widths, whatever the values |
| BeejPack.PackedSizeIs | protocols/kyk_block/beej_pack.c:487-574 | In numbers: one byte for each c and C, two for h, H and f, four for l, L and d, eight for q, Q and g |
| BeejPack.FieldWordIs | protocols/kyk_block/beej_pack.c:549-574 | Each float field packs with its own layout, 16 bits with 5 for the exponent, 32 with 8, 64 with 11, and its own multiplier |
| BeejPack.Ranges | protocols/kyk_block/beej_pack.c:436-441 | What each integer field may hold, in numbers |
| BeejPack.MarkedRecovers | protocols/kyk_block/beej_pack.c:477-739 | Every in-range vector comes back if no multi-byte field without its own mark follows a most recent `<`, from any state of writer and reader |
| BeejPack.UnmarkedFails | protocols/kyk_block/beej_pack.c:505-650 | For every other format the vector of words 1 does not come back |
| BeejPack.RoundTripIffMarked | protocols/kyk_block/beej_pack.c:447-742 | Any format round-trips all in-range vectors if and only if it has no strings and is marked that way |
| BeejPack.SecondFieldSwapped | protocols/kyk_block/beej_pack.c:505-650 | A concrete case: two words 1 in format `<HH` come back as 1 and 256 |
| BeejPack.StringsOverrun | protocols/kyk_block/beej_pack.c:576-730 | Under every format with a string, empty strings make the reader run past the bytes written |
| BeejPack.StringRecoveredIff | protocols/kyk_block/beej_pack.c:576-730 | A string comes back, with its terminating zero, if and only if it and the two bytes behind it are nothing but repetitions of the two bytes of its length |
| BeejPack.ShortStringLost | protocols/kyk_block/beej_pack.c:576-730 | No C string of 1 to 256 characters comes back |
| BeejPack.LimitEnds | protocols/kyk_block/beej_pack.c:732-738 | A maximal length counts for a string right behind its digits only: any other character ends it |
| BeejPack.StringLimit | protocols/kyk_block/beej_pack.c:721-738 | A string read with a maximal length n takes, its zero included, at most n bytes if and only if its stored length is not n itself |
| BeejPack.PackField | protocols/kyk_block/beej_pack.c:487-574 | A field stores the low bytes of its value, or of the float's word, in the current order |
| BeejPack.PackStep | protocols/kyk_block/beej_pack.c:478-586 | One turn of the format loop stores the next piece of the specified bytes and leaves the specification of the rest |
| BeejPack.BeejPack | protocols/kyk_block/beej_pack.c:447-592 | The buffer receives exactly the specified bytes of the format and the size returned is their number |
| BeejPack.UnpackOneField | protocols/kyk_block/beej_pack.c:652-719 | Each field type reads the value its bytes stand for |
| BeejPack.UnpackStep | protocols/kyk_block/beej_pack.c:641-738 | One turn of the format loop stores the next specified values and leaves the specification of the rest |
| BeejPack.BeejUnpack | protocols/kyk_block/beej_pack.c:613-742 | The values stored are the specified ones, strings with their terminating zero, and no byte outside the buffer is read |
| BeejPack.PackL | protocols/kyk_block/beej_pack.c:525-531 | Format `<L` writes four bytes, lowest first |
| BeejPack.PackBigL | protocols/kyk_block/kyk_ser.c:101 | Format `>L` writes four bytes, highest first |
| BeejPack.PackQ | protocols/kyk_block/beej_pack.c:541-547 | Format `<Q` writes eight bytes, lowest first |
| BeejPack.UnpackL | protocols/kyk_block/beej_pack.c:682-686 | Format `<L` reads the number of the first four bytes, lowest first |
| Varint.UnpackIsLE | protocols/kyk_block/varint.c:34-63 | A long encoding carries its value little-endian behind the marker |
| Varint.VarintRoundTrip | protocols/kyk_block/varint.c:4-63 | Every 64-bit value and its encoded length come back, whatever follows |
| Varint.VarintPrefixFree | protocols/kyk_block/varint.c:4-32 | No encoding starts another, and equal encodings have equal values |
| Varint.RepackIffShortest | protocols/kyk_block/varint.c:4-63 | Writing back what was read restores the bytes if and only if the encoding was the shortest for its value |
| Varint.KykPackVarint | protocols/kyk_block/varint.c:4-32 | The encoding is stored and its length returned |
| Varint.VarintBytes | protocols/kyk_block/varint.c:4-32 | The four kinds of encoding byte by byte |
| Tx.TxUnambiguous | protocols/kyk_block/kyk_tx.c:17-127 | Two byte strings that are equal and start with serialised transactions start with the same one, whatever follows |
| Tx.TxPrefixFree | protocols/kyk_block/kyk_tx.c:17-127 | A transaction whose bytes start another's bytes is that one, for any numbers of inputs and outputs and any script lengths |
| Tx.TxInPrefixFree | protocols/kyk_block/kyk_tx.c:81-107 | The same for one input |
| Tx.TxOutPrefixFree | protocols/kyk_block/kyk_tx.c:109-127 | The same for one output |
| Tx.TxInListPrefixFree | protocols/kyk_block/kyk_tx.c:50-63 | The same for lists of as many inputs |
| Tx.TxOutListPrefixFree | protocols/kyk_block/kyk_tx.c:65-78 | The same for lists of as many outputs |
| Tx.KykSeriTxIn | protocols/kyk_block/kyk_tx.c:81-107 | Writes reversed id, index, script behind its length and sequence number; the total is the number of bytes written |
| Tx.KykSeriTxOut | protocols/kyk_block/kyk_tx.c:109-127 | Writes value and script behind its length; the total is the number of bytes written |
| Tx.KykSeriTxInList | protocols/kyk_block/kyk_tx.c:50-63 | Writes the inputs in order; the total is the number of bytes written |
| Tx.KykSeriTxOutList | protocols/kyk_block/kyk_tx.c:65-78 | Writes the outputs in order; the total is the number of bytes written |
| Tx.KykSeriTx | protocols/kyk_block/kyk_tx.c:17-48 | Writes the whole transaction and changes no byte outside it; the total is exactly the bytes written |
| Tx.ValidIff | protocols/kyk_block/kyk_tx.h:7-28 | The transactions of all these statements in numbers: what the fields of the structs can hold |
| Tx.TxInBytes | protocols/kyk_block/kyk_tx.c:81-107 | An input byte by byte, its id from the last place to the first |
| Tx.TxOutBytes | protocols/kyk_block/kyk_tx.c:109-127 | An output byte by byte |
| Tx.TxOfOneBytes | protocols/kyk_block/kyk_tx.c:17-48 | A transaction of one input and one output byte by byte |
| Tx.SeriTxInListSplit | protocols/kyk_block/kyk_tx.c:50-63 | Any list of inputs is the bytes of its front followed by those of its rest |
| Tx.SeriTxOutListSplit | protocols/kyk_block/kyk_tx.c:65-78 | The same for outputs |
| Ser.TxColumns | protocols/kyk_block/kyk_ser.c:80-126 | For every transaction and every way to feed sequence numbers, the columns give the bytes of kyk_seri_tx if and only if each fed number, big-endian, has the bytes of the sequence number, little-endian |
| Ser.ColumnsAgree | protocols/kyk_block/kyk_ser.c:80-126 | With ids fed reversed and sequence numbers byte-swapped, both serialisers emit the same bytes for every transaction |
| Ser.PlainColumnsAgreeIff | protocols/kyk_block/kyk_ser.c:100-101 | With sequence numbers fed as they are, they agree exactly when each of them reads the same in both orders |
| Ser.PlainDisagrees | protocols/kyk_block/kyk_ser.c:100-101 | A concrete case: a transaction with sequence number 0xfffffffe fed as it is |
| Ser.KykValistSer | protocols/kyk_block/kyk_ser.c:80-126 | Each column name stores its argument in its own format; an unknown name stores nothing |
| Ser.ColumnBytes | protocols/kyk_block/kyk_ser.c:80-126 | What every column stores, byte by byte |
| Ser.ColsBytesAppend | protocols/kyk_block/kyk_ser.c:56-64 | Columns fed later are stored behind those fed earlier |
| Ser.KykSerByteVal | protocols/kyk_block/kyk_ser.c:129-137 | Copies raw bytes |
| Ser.KykSerByteHex | protocols/kyk_block/kyk_ser.c:139-150 | Stores the bytes that hexadecimal text stands for |
| Ser.Cursor.KykIncSer | protocols/kyk_block/kyk_ser.c:41-53 | Stores one column at the caller's cursor and moves the cursor just past it |
| Ser.Cursor.SerAll | protocols/kyk_block/kyk_ser.c:56-64 | Columns fed one after the other are stored one behind the other |
| KykUtils.KykReverse | protocols/kyk_block/kyk_utils.c:86-97 | The window is reversed in place and nothing else changes |
| KykUtils.KykReversePackChars | protocols/kyk_block/kyk_utils.c:138-149 | The bytes are stored backwards and counted |
| KykUtils.KykPackChars | protocols/kyk_block/kyk_utils.c:152-163 | The bytes are stored and counted |
| KykUtils.KykAllocHex | protocols/kyk_block/kyk_utils.c:65-82 | A fresh buffer of one byte for every two characters, unknown characters read as zero |
| KykUtils.FromHexOfToHex | protocols/kyk_block/kyk_utils.c:21-43 | Reading the text that "%02x" prints gives the bytes back |
| KykUtils.HexDigitsAre | protocols/kyk_block/kyk_utils.c:21-30 | The sixteen digits in order, and zero for every other character |
| Block.ParseOfSeri | protocols/kyk_block/parse_block.c:90-100 | Reading a serialised header gives every field back |
| Block.SeriOfParse | protocols/kyk_block/parse_block.c:90-100 | Writing a read header gives any 80 bytes back |
| Block.HeaderSlices | protocols/kyk_block/kyk_block.c:10-40 | Which bytes of the 80 hold which field, in which order |
| Block.RootInHashOrder | protocols/kyk_block/kyk_block.c:23 | The reversals of tree and header cancel: bytes 36 to 67 of a header over a tree's root are the root as the hash gives it |
| Block.KykSeriBlkHdWithoutNonce | protocols/kyk_block/kyk_block.c:42-68 | Writes the first 76 bytes of the header |
| Block.KykSeriBlkHd | protocols/kyk_block/kyk_block.c:10-40 | Writes the 80 bytes of the header |
| ParseBlock.StoreLowRightIff | protocols/kyk_block/parse_block.c:135-144 | Overwriting the low bytes of a field leaves the right value if and only if the field's high bytes were zero |
| ParseBlock.KykVarintFread | protocols/kyk_block/parse_block.c:120-149 | Reads one encoded count and moves the cursor past it; in numbers, what the field holds after each marker and which part of it stays: all but the lowest byte, all but the lowest four, all but those of a long, or nothing |
| ParseBlock.VarintCellStores | protocols/kyk_block/parse_block.c:130-149 | The same of the specification of the field, for every old value |
| ParseBlock.CountOverOld | protocols/kyk_block/parse_block.c:139-140 | A concrete case: a count of 300 read over 70000 is 300 |
| ParseBlock.KykParseBlkHeader | protocols/kyk_block/parse_block.c:90-100 | The header of the next 80 bytes, with both hashes turned around in place |
| ParseBlock.KykParseBlk | protocols/kyk_block/parse_block.c:74-88 | Fields as in the file; the cursor ends where the size field says the block ends, even for a size smaller than what was read |
| ParseBlock.ParseRecord | protocols/kyk_block/parse_block.c:74-88 | On a well-formed record, every written field comes back, the count over the old one, and the cursor stands just past the record |
| ParseBlock.ParseBlks | protocols/kyk_block/parse_block.c:61-69 | After k calls on any concatenation of well-formed records the cursor is on the k-th boundary and all reports are as specified |
| ParseBlock.CountsRightIff | protocols/kyk_block/parse_block.c:130-149 | Magic numbers and headers always come back, and all counts if and only if the field is below 2^8, 2^32 or 2^64 before each count, by the count's size |
| ParseBlock.StaleCount | protocols/kyk_block/parse_block.c:135-138 | A concrete case: a count of 5 after one of 300 is reported as 261 |
| HashNonce.TargetBytes | protocols/kyk_block/kyk_difficulty.c:36-43 | A target is the three mantissa bytes followed by zeros, as many bytes in all as the exponent says |
| HashNonce.Dlt1Bytes | protocols/kyk_block/kyk_difficulty.c:7 | The difficulty-1 target is the 32 bytes 00000000FFFF00..., the target of 1D00FFFF |
| HashNonce.KykBts2Target | protocols/kyk_block/kyk_difficulty.c:36-43 | Computes that target for every exponent of at least 3 |
| HashNonce.CeilQuotientBounds | protocols/kyk_block/kyk_difficulty.c:23 | The rounded-up quotient is the least factor that reaches the dividend |
| HashNonce.KykBts2Dlt | protocols/kyk_block/kyk_difficulty.c:9-34 | The difficulty-1 target divided by the target, rounded up and cut to 32 bits |
| HashNonce.MeetsDifficulty | protocols/kyk_block/kyk_difficulty.c:9-43 | A hash up to the target, times the difficulty less one, is below the difficulty-1 target, also when the difficulty was cut |
| HashNonce.HashWithNonce | protocols/kyk_block/kyk_hash_nonce.c:30-35 | After the patch the buffer starts with the full serialisation of the header with this nonce, and its hash is read little-endian |
| HashNonce.SearchEndsIff | protocols/kyk_block/kyk_hash_nonce.c:30-42 | Counting on from any start, all nonces fail if and only if there is none that meets the target, so the search ends exactly when there is one |
| HashNonce.ReadHash | protocols/kyk_block/kyk_hash_nonce.c:34-35 | Reversing the digest and importing it highest byte first reads it little-endian |
| HashNonce.KykHshNonce | protocols/kyk_block/kyk_hash_nonce.c:12-49 | Ends whenever a good nonce exists, at the first one counting up from the start modulo 2^32: the hash of the serialised header, read little-endian, is at most the target, and above it for every nonce passed over; no other field changes |
| GensBlock.MakeMklTreeRoot | protocols/kyk_block/kyk_gens_block.c:91-100 | Leaves and tree over any transactions end in one node that holds the reversed top-down root |
| GensBlock.SetMrkRoot | protocols/kyk_block/kyk_gens_block.c:61-62 | The header's field receives that node's bytes and no other field changes |
| GensBlock.SeriHdOver | protocols/kyk_block/kyk_gens_block.c:61-70 | From any transactions to the bytes of a header: bytes 36 to 67 are the top-down root in the order the hash gives it |
| GensBlock.WriteBlock | protocols/kyk_block/kyk_gens_block.c:75-77 | The columns raw-buf, tx-count, raw-buf give header, count 1 and transaction one behind the other |
| GensBlock.MakeGensBlock | protocols/kyk_block/kyk_gens_block.c:54-77 | For every transaction: the written block byte by byte is version 1, no parent, the hash of the transaction, the program's time and bits, the nonce, count 1 and the transaction; the nonce is the first good one from 0 on, and the hash of the written header meets the target |
| GensBlock.GensBytes | protocols/kyk_block/kyk_gens_block.c:59-70 | The header of the block byte by byte |
| GensBlock.BlockUnambiguous | protocols/kyk_block/kyk_gens_block.c:70-77 | The bytes of a block tell its header and its transaction, whatever follows them |
| TxOutReader.TrOpcodeToName | parse_txout_script_pbk.c:339-358 | The linear search finds the first slot with the opcode, or no slot exactly if the table lacks it |
| TxOutReader.TableIs | parse_txout_script_pbk.c:199-203 | The table of opcodes by runs |
| TxOutReader.SlotIff | parse_txout_script_pbk.c:339-358 | An opcode is given a slot exactly if it is the one the table has there |
| TxOutReader.TokensSpell | parse_txout_script_pbk.c:292-316 | The entries of a script spell it with every opcode that the table lacks replaced by one |
| TxOutReader.SameTokensIff | parse_txout_script_pbk.c:292-358 | Two scripts that end exactly have the same entries if and only if they agree after that replacement |
| TxOutReader.UnlistedAlike | parse_txout_script_pbk.c:339-358 | A concrete pair: the scripts of one byte 0xba and 0xbb have the same entry |
| TxOutReader.TokensAtCuts | parse_txout_script_pbk.c:292-316 | Entry k is the one at the k-th opcode offset of the script machine's walk |
| TxOutReader.ScanExact | parse_txout_script_pbk.c:300-312 | For a nonempty script the cursor ends at its end if and only if its walk ends there, and then the entries are its tokens |
| TxOutReader.ScanEndsIff | parse_txout_script_pbk.c:300-312 | For any script the cursor ends at its end if and only if it is not empty and its walk ends there, and past it otherwise |
| TxOutReader.BtcUint | parse_txout_script_pbk.c:372-398 | A little-endian number read into memory |
| TxOutReader.BtcVarint | parse_txout_script_pbk.c:400-425 | Agrees with kyk_unpack_varint on value and length |
| TxOutReader.CpSigHexToStr | parse_txout_script_pbk.c:499-510 | Two lower-case digits for each byte and a terminating zero |
| TxOutReader.ReadHex | parse_txout_script_pbk.c:488-496 | The next bytes as hexadecimal text |
| TxOutReader.ReadToken | parse_txout_script_pbk.c:301-310 | One turn of the loop makes one entry, text for a push and a table slot or the one unknown name for any other opcode, and moves the cursor behind it |
| TxOutReader.BtcParsedScPbk | parse_txout_script_pbk.c:292-316 | Stores exactly the scanned entries, at most 100, and leaves the cursor where the scan ends |
| TxOutReader.ReadTxOut | parse_txout_script_pbk.c:281-286 | From whatever bytes are there: value, length, text, the seek back, entries, and the cursor where the scan ends |
| TxOutReader.ReadTxOutList | parse_txout_script_pbk.c:274-290 | That for each output in turn, each starting where the one before left the cursor |
| TxOutReader.OneReadBack | parse_txout_script_pbk.c:281-286 | Value, length and text of a serialised output always come back; the cursor is just past it if and only if its script is nonempty and ends exactly, and further on otherwise |
| TxOutReader.ListReadBackIff | parse_txout_script_pbk.c:274-290 | For every serialised list that is read inside the file: the lengths come back and the cursor is just past the list if and only if every script is nonempty and ends exactly |
| TxOutReader.ListReadBack | parse_txout_script_pbk.c:274-290 | Then, with at most 100 tokens a script, reading stays inside the file and undoes kyk_seri_txout_list: values, lengths, texts and tokens |
| TxOutReader.EmptyScriptMisplaces | parse_txout_script_pbk.c:281-312 | A concrete case: an output with an empty script takes 9 bytes and the cursor ends at 10 |
| Message.MsgSlices | protocols/kyk_block/btc_message.c:136-164 | Which bytes of a message hold which field |
| Message.MsgBytesAre | protocols/kyk_block/btc_message.c:136-164 | A message byte by byte |
| Message.UnpackOfPack | protocols/kyk_block/btc_message.c:13-164 | Unpacking a packed message gives magic, command, length, checksum and payload back, whatever follows |
| Message.PackBtcMessage | protocols/kyk_block/btc_message.c:136-164 | Writes the message into the body and reports its length |
| Message.UnpackRespBuf | protocols/kyk_block/btc_message.c:13-39 | Reads the message at the front of a body |
| Message.EnoughIff | protocols/kyk_block/kyk_socket.c:131-139 | On a stream that starts with a message the loop has enough exactly at its length |
| Message.ReceiveFirstBoundary | protocols/kyk_block/kyk_socket.c:125-146 | For every split into chunks, receiving ends at the first chunk boundary at or past 24 + payload length, or fails if the stream is shorter |
| Message.AnyChunking | protocols/kyk_block/kyk_socket.c:117-151 | A message alone in the stream is received whole under every chunking, and unpacks to what was packed |
| Message.MessageFirst | protocols/kyk_block/kyk_socket.c:117-151 | With more behind it in the stream it still unpacks to what was packed |
| Message.Socket.Recv | protocols/kyk_block/kyk_socket.c:126 | One call takes the front of what is ready, no more than it has room for, and what remains stays ready |
| Message.JoinChop | protocols/kyk_block/kyk_socket.c:125-132 | However small the room, the chunks taken are the bytes delivered, in order |
| Message.AnyDelivery | protocols/kyk_block/kyk_socket.c:117-151 | A message alone in the stream, delivered in any pieces and taken with any room, is received whole and unpacks to what was packed |
| Message.KykRecvBtcMsg | protocols/kyk_block/kyk_socket.c:117-151 | Returns the number of bytes taken, which are in the body, and the announced payload length, or -1 if recv fails first; empty pieces, for which recv returns 0, are passed over |
| Message.ReadPldLen | protocols/kyk_block/kyk_socket.c:153-161 | The little-endian number of the four bytes at the index |

## Left out

- ScriptStack.KykRunSc: scripts that take from an empty stack, push beyond 20 items or past the memory behind the script, or hand an over-long signature or transaction to the signature buffers are excluded; the C code then reads or writes outside its objects. `Script.DepthSafeNotStuck` says how to rule them out.
- Address.PubkHashFromAddress: texts with a character outside the alphabet are excluded, because the caller ignores the error and goes on with a freed BIGNUM; so are numbers of more than 25 bytes, which overrun its buffer.
- Address.P2pkhScFromAddress: the same texts are excluded.
- Base58.RawDecodeBase58: a zero character inside the text, which `strchr` finds as digit 58, is kept as the code has it; callers pass strings that contain none.
- HashNonce.KykHshNonce: requires that some nonce meets the target, since the loop does not end otherwise, and an exponent of at least 3, since a smaller one turns into a huge power.
- HashNonce.KykBts2Dlt: a zero mantissa is excluded; the division by zero aborts.
- GensBlock.MakeGensBlock: the transaction is an argument; the coinbase text, the key file and the output file of the program are not modelled. It has to fit the program's buffer of 2000 bytes, and some nonce has to be good.
- MklTree.CreateMklTree: requires a leaf; with none the loop does not end.
- TxOutReader.ReadTxOutList: reading past the end of the file and scripts of more than 100 tokens, which overrun the array of entries, are excluded. The texts of the opcode names are not part of the model; an entry is the slot it points to.
- Message.KykRecvBtcMsg: what arrives has to fit the body, which the C code overruns otherwise; a closed connection, where recv returns 0 for ever and the loop spins, is not expressed.
- Float754.UnpackOfPack: arithmetic is exact; rounding of `long double`, `double` and `float` values and of the scaled fraction is not modelled. A negative exponent is shifted as gcc does, in two's complement.
- ParseBlock.KykParseBlk: reading past the end of the file is excluded.
- Socket set-up, servers, name lookup, `kyk_send_btc_msg_buf`, `version` messages.
- SHA-256, RIPEMD-160, elliptic curves, key files and the internals of OpenSSL and GMP.
- Printing, `main` programs and the Ruby and Python scripts.
- `create_txin`, `create_txout` and `create_mkl_leafs_from_txid_hexs`, which copy hexadecimal arguments into the structs modelled here.
- The input half of `parse_txout_script_pbk.c`.
- Failure of `malloc`, memory that is never released outside the script machine, and counters above 2^31.
