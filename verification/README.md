# BoAT robots: a verified model

This project models four parts of the BoAT firmware and of the two robots built on it, and proves
properties of them in Dafny.

1. **The record stores** (`Bytes`, `Tlv`, `Nvram`, `RecordChain`, `Fields`, `Keypair*`, `Keystore`,
   `Network*`, `Runs`, `RecordUnique`). A file is one flat region of octets: a count header, then packed
   records of variable length, found by walking. `Nvram.Device` is that region; every read, write
   and allocation may fail without changing anything, and a log records which did. The predicates
   `Holds...` say that a region holds a list of records, `RecordUnique` that it holds only one.
   `Keystore.Store` and `NetworkRegistry.Registry` run whole sequences of operations, and say what is
   left after every pattern of failures.
2. **The generator of contract calls** (`AbiTypes`, `AbiGen`) and **the C code it emits** (`AbiRun`,
   `AbiPointers`, `AbiMachine`), against the Contract ABI Specification (`AbiSpec`, `AbiWords`, `AbiArgs`). The
   generator's loops produce a program of sizing, measuring and writing statements; a machine
   executes it in 32-bit arithmetic on a buffer through a moving cursor. `AbiEncode`, `AbiProgram`,
   `AbiOutput` and `AbiEncoder` prove that the three passes agree and what the bytes are.
3. **Signing of raw transactions** (`Rlp`, `RawTx`).
4. **The robots**: `SensorPoll` and `PaymentLimiter` for housekeeping, `RevenueShare` and `Erc20`
   for air conditioning.

`dafny verify dfyconfig.toml` checks everything.

## What turned out to be false

Each of these, but for the last one, has a statement that says exactly when the code does what it
should, or exactly what it does instead.

- A store whose header read fails takes the file for empty and writes over its first record. If it
  goes through, the new record is the only one (`KeypairStore.StoreData`, `NetworkStore.StoreData`). If
  it fails behind its first write, the file still holds its list exactly if what was written is what
  stood there (`KeypairStore.LeftBlindMeaning`, `NetworkStore.LeftBlindMeaning`); a network store that
  fails behind the tag has handed the first network over to another protocol.
- A free-index search cut short by a failing read may return an index in use: for keypairs exactly if
  one of those it did not come to know has it (`KeypairIndex.ChosenInUse`), for networks exactly if
  the header could not be read and 1 is in use (`NetworkStore.FreeIndex`).
- A creation whose private key can neither be stored nor be deleted again reports an error and leaves
  the keypair in the file (`Keystore.CreateMeaning`).
- A deletion whose private key is still there stores the keypair once more. If that fails, the keypair
  is gone; if it cannot read the header, all others are gone (`Keystore.Store.DeletePersistent`).
- A keypair delete loses the last record, not the one to be deleted, exactly if the count was lowered
  and the last operation, the recovery write, failed (`KeypairStore.DeleteEntry`,
  `Keystore.LossExactly`).
- A network delete loses the last record, possibly of another protocol, exactly if the count was
  lowered and the last operation failed; unlike for keypairs, most failures are not followed by a
  recovery (`NetworkDelete.DeleteEntry`, `NetworkDelete.LossExactly`, `NetworkDelete.LossInRegion`).
  For the last record the recovery writes the header at the record's offset, so the record stays deleted.
- The emitted code reverses scalar arguments passed by pointer in the caller's memory. A pointer that
  is passed twice, as in allowance(a, a), is sent the wrong way round the second time
  (`AbiEncoder.AliasedExactly`, `Erc20.SelfAllowance`).
- Negative int128 values, and negative elements of intN[k] with N < 256, are not sign-extended
  (`AbiWords.WordCorrect`, `AbiEncoder.Delivered`).
- v wraps around for large chain ids (`RawTx.VRecoverable`), and shares wrap around for large amounts
  (`RevenueShare.PortionExact`).
- Income that arrives between the two balance readings of a turn that shares is never shared
  (`RevenueShare.LaterIncomeShared`).
- The housekeeping robot ignores the sign octet: 40 degrees or more below zero count as heat
  (`PaymentLimiter.HotMeaning`).
- The summary of the RLP rules in `boatrlp.h` leaves out the prefix of a single octet from 0x80 on
  (`Rlp.SummaryDiffers`); the model follows Appendix B of the Ethereum Yellow Paper.
- The comment beside the threshold 100000 calls it 0.01 USDC; with the six decimals named elsewhere in
  the same file it is 0.1 USDC. The model uses the number.

## Conventions

- Octets are `byte`; numbers are unbounded and 32-bit wrap-around is written out with `% U32` where
  the C type wraps. The host is little-endian.
- The bodies of the L helpers, the count-header helpers, `UtilityTrimBin`, `UtilityUint32ToBigend`
  and `UtilityChangeEndian` are not part of the repository. The model takes the minimal definite form
  of sections 8.1.3 and 10.1 of ITU-T X.690 for lengths (one to three octets), and the documented
  behaviour for the others, with zero trimmed to the empty string.
- Records of keypairs hold enum fields as their four-octet memory images.
- The three network sources are the same code with different tags, so they are one model with a
  protocol parameter.

## Model

| member | source | states |
|---|---|---|
| `Tlv.DecodeEncoded` | BoAT-SupportLayer/include/boatutility.h:681-719 | the length octets of every value up to 65535 decode to that value and take the width that is recomputed from it, whatever follows |
| `Tlv.LengthForm` | BoAT-SupportLayer/include/boatutility.h:681-719 | the definite form in its own terms: one octet below 128; from 128 on, 128 plus the number of length octets, then the length, highest octet first and without leading zeros |
| `Tlv.AddLength` | BoAT-SupportLayer/include/boatutility.h:705-719 | inserts the minimal length octets in front of a value in place: the field becomes length and value, everything before and behind stays; -1 and no change when the length needs more than three octets |
| `CMemory.ChangeEndian` | ac_robot/ac_robot.c:207-223 | reverses an array of any length in place |
| `RecordChain.CheckHeader` | BoAT-SupportLayer/include/boatutility.h:739-771 | accepts exactly the four octets AA 55 num crc, and returns num |
| `RecordChain.HeaderCrc` | BoAT-SupportLayer/include/boatutility.h:739-771 | a header is accepted exactly if it starts with AA 55 and its last octet is the exclusive or of the other three, and then its third octet is the count |
| `RecordChain.ReadHeader` | BoAT-SupportLayer/keypair/boatkeypair.c:272-297 | the count read from a file that holds a list is its length, -1 when there is no valid header, and a failing read changes nothing |
| `RecordChain.SkipEntry` | BoAT-SupportLayer/keypair/boatkeypair.c:326-341 | one step of a walk ends at the start of the next record, because the width of L follows from its value |
| `RecordChain.FindEnd` | BoAT-SupportLayer/keypair/boatkeypair.c:868-887 | the walk of a store ends behind the last record |
| `RecordChain.Appended` | BoAT-SupportLayer/keypair/boatkeypair.c:888-912 | a region holds list + record after the record is written at the end and the count is raised |
| `RecordChain.Truncated` | BoAT-SupportLayer/keypair/boatkeypair.c:1186-1196 | a lowered count drops the last record and nothing else |
| `RecordChain.Compacted` | BoAT-SupportLayer/keypair/boatkeypair.c:1229-1285 | lowering the count and moving the tail down over record i leaves exactly the list without record i, in order, octet for octet |
| `RecordChain.Tombstoned` | BoAT-SupportLayer/keypair/boatkeypair.c:1201-1213 | with the count lowered, nothing written over the last record is seen |
| `RecordChain.MoveTail` | BoAT-SupportLayer/keypair/boatkeypair.c:1229-1285 | the walk over the tail, its allocation, read and write: either the tail has moved down, or a failure at any point has changed nothing |
| `RecordChain.Commit` | BoAT-SupportLayer/keypair/boatkeypair.c:888-916 | record first, count second: on success the list has grown by the record; on failure the octets written are nothing or the record, and behind the last record they leave the list as it was |
| `RecordChain.HoldsUnique` | BoAT-SupportLayer/keypair/boatkeypair.c:825-916 | a region cannot hold two different lists of records |
| `RecordUnique.KeypairsUnique` | BoAT-SupportLayer/keypair/boatkeypair.c:49-230 | the octets of the file determine the list of keypairs |
| `RecordUnique.NetworksUnique` | BoAT-Engine/network/ethereum/network_ethereum.c:47-190 | the octets of the file determine the list of networks of all protocols |
| `RecordUnique.LvUnique` | BoAT-SupportLayer/include/boatutility.h:681-719 | the length-value form is prefix-free |
| `KeypairRecord.DataLen` | BoAT-SupportLayer/keypair/boatkeypair.c:672-715 | the length computed beforehand is that of the record that serialisation produces |
| `KeypairRecord.Serialize` | BoAT-SupportLayer/keypair/boatkeypair.c:734-811 | building the record in place inside a buffer of that length produces L and five LVs and fills the buffer exactly; an error exactly when the name is too long |
| `KeypairRecord.EntryOctets` | BoAT-SupportLayer/keypair/boatkeypair.c:745-800 | the octets of a record: length, index, name, private-key format, key type and public key, in this order |
| `KeypairRecord.StorableNames` | BoAT-SupportLayer/keypair/boatkeypair.c:734-811 | a keypair can be stored exactly when its name has at most 65455 octets |
| `KeypairRecord.FromNvram` | BoAT-SupportLayer/keypair/boatkeypair.c:49-230 | parsing a stored record gives back the keypair and the exact length of the record; fails exactly when a read fails |
| `Fields.PutField` | BoAT-SupportLayer/keypair/boatkeypair.c:745-800 | memcpy of a value and insertion of its length append one LV |
| `Fields.ReadField` | BoAT-SupportLayer/keypair/boatkeypair.c:75-120 | reads back one LV and moves to the next; the length checks never reject a stored record |
| `KeypairStore.GetByIndex` | BoAT-SupportLayer/keypair/boatkeypair.c:244-448 | returns exactly the first keypair with the index, and fails for an absent index; an index above the maximum is refused |
| `KeypairStore.Locate` | BoAT-SupportLayer/keypair/boatkeypair.c:326-365 | the search loop stops at the first record with the index |
| `KeypairStore.StoreData` | BoAT-SupportLayer/keypair/boatkeypair.c:825-916 | whether a store goes through, and what the file then holds, as a function of the outcomes of its operations, for both stores: the list and the new keypair, or the new keypair alone; after a failure the old list, or the new record in the place of the first one; the exact error codes without device failures |
| `KeypairStore.LeftBlindMeaning` | BoAT-SupportLayer/keypair/boatkeypair.c:840-916 | when a store that took the file for empty fails behind its first write, the file still holds its list if and only if that was empty or started with the same keypair; whatever list it holds starts with the new keypair, and it holds one if there was only one record or the two have the same length |
| `KeypairStore.DeleteEntry` | BoAT-SupportLayer/keypair/boatkeypair.c:1186-1288 | what the file holds is a function of the outcomes of the operations: the list without the record if all went through, the whole list if the count was never lowered or the recovery went through, and otherwise the list without its LAST record; behind a lowered count exactly one operation, the recovery, follows the first failure |
| `Keystore.LossExactly` | BoAT-SupportLayer/keypair/boatkeypair.c:1186-1288 | a deletion of another keypair loses the last one if and only if the count was lowered and the last operation failed; the one to be deleted is gone if and only if everything went through |
| `KeypairStore.Remove` | BoAT-SupportLayer/keypair/boatkeypair.c:1080-1288 | a deletion by index: the file afterwards in terms of the outcomes from the write of the count on, whose position in the log is given, and which of these operations are performed; the removed keypair is handed back unchanged |
| `KeypairStore.FindForRemoval` | BoAT-SupportLayer/keypair/boatkeypair.c:1100-1185 | finds position, offset and length of the record, or the error codes for an empty file and an absent index |
| `KeypairIndex.LoadAll` | BoAT-SupportLayer/keypair/boatkeypair.c:484-540 | all records are parsed into consecutive slots; a failure leaves the other slots alone and never invents an index |
| `KeypairIndex.List` | BoAT-SupportLayer/keypair/boatkeypair.c:460-542 | persistent keypairs first, then the one-time keypair, and their numbers |
| `KeypairIndex.FirstFree` | BoAT-SupportLayer/keypair/boatkeypair.c:632-655 | the nested search returns the least index no listed keypair has |
| `KeypairIndex.Pigeonhole` | BoAT-SupportLayer/keypair/boatkeypair.c:632-655 | fewer than the maximum number of keypairs leave an index free |
| `KeypairIndex.FreeIndex` | BoAT-SupportLayer/keypair/boatkeypair.c:610-656 | the result is the least index that none of the first m keypairs has, where m is the number the search came to know before a read failed; it is a function of the number of flash operations, and all keypairs are known without flash failures |
| `KeypairIndex.ChosenInUse` | BoAT-SupportLayer/keypair/boatkeypair.c:610-656 | the index chosen is in use after all if and only if one of the keypairs the search did not come to know has it, also in a full file |
| `Keystore.Store.CreatePersistent` | BoAT-SupportLayer/keypair/boatkeypair.c:980-1066 | answer and list after a creation, with the index chosen, as functions of the outcomes of its operations: after a success the last keypair has the index that was answered, the name asked for or "keypair" and the index digit, and the format, type and public key that were delivered; also what is left when the private key cannot be stored and the restoring delete fails as well, and what the octets are where no list is known; the exact result without flash failures |
| `Keystore.Store.CreateAndGet` | BoAT-SupportLayer/keypair/boatkeypair.c:1018-1043 | without flash failures, what has been created is read back under the index that was answered: the format, type and public key that were delivered, and the name |
| `Keystore.Store.CreateOnetime` | BoAT-SupportLayer/keypair/boatkeypair.c:980-1066 | when a one-time keypair is created, holding the key that was delivered and the name, and which one is left after every pattern of failures: the new one, although the creation failed, if its record was written over an earlier one before the count failed; none, if its private key could not be stored and its deletion went through |
| `Keystore.Store.DeletePersistent` | BoAT-SupportLayer/keypair/boatkeypair.c:1080-1288 | the list after a deletion as a function of the outcomes of its operations; if the private key is still there the keypair is stored once more at the end: it is lost if that store fails, and is the only one left if that store cannot read the header; what the octets are if it cannot and fails half-way |
| `Keystore.Store.DeleteOnetime` | BoAT-SupportLayer/keypair/boatkeypair.c:1080-1288 | deleting the one-time keypair empties its file or leaves it |
| `Keystore.Store.Get` | BoAT-SupportLayer/keypair/boatkeypair.c:244-448 | index 0 reads the one-time file, others the persistent one, and a successful read returns what the map binds to the index; without failures it succeeds exactly for indices in use |
| `Keystore.Store.Run` | BoAT-SupportLayer/keypair/boatkeypair.c:980-1288 | over every run of creations and deletions, with any failures, each command changes the list as its answer says, causes one of the named losses, or, if its private-key operation fails, leaves one of the named lists; the run stops at a store that leaves no list, with the octets it leaves; after an undisturbed run the octets hold exactly the list that the abstract commands give |
| `Runs.LosslessRun` | BoAT-SupportLayer/keypair/boatkeypair.c:980-1288 | unless one of the named losses occurred, what a file holds after a run is what it held before with the successful commands applied, whatever else failed; for the keypair rules and the network rules alike |
| `Keystore.CreateMeaning` | BoAT-SupportLayer/keypair/boatkeypair.c:980-1066 | a creation binds the least free index to the new keypair in the map and changes no other binding exactly when there is room, the name fits and the private key is stored or cannot be deleted again, and changes nothing otherwise; it reports the index exactly if the private key is stored too, and then the map binds it to the key that was delivered and the name asked for |
| `Keystore.DeleteMeaning` | BoAT-SupportLayer/keypair/boatkeypair.c:1080-1288 | a deletion removes exactly one binding; if only the private-key delete fails, the map is what it was |
| `Keystore.RunSound` | BoAT-SupportLayer/keypair/boatkeypair.c:980-1288 | over every undisturbed run: at most five keypairs, indices in 1..5 and distinct |
| `Keystore.RunMeaning` | BoAT-SupportLayer/keypair/boatkeypair.c:980-1288 | over every undisturbed run the file stands for the map that results from the commands applied to the map of the start |
| `Keystore.MapSize` | BoAT-SupportLayer/keypair/boatkeypair.c:632-655 | a list with distinct indices has as many keypairs as its map has bindings |
| `Keystore.MapUnique` | BoAT-SupportLayer/keypair/boatkeypair.c:244-448 | a list with distinct indices stands for exactly one map |
| `NetworkRecord.TagInjective` | BoAT-Engine/include/boatEngine.h:19-26 | the three protocol tags differ in their octets |
| `NetworkRecord.TagValue` | BoAT-Engine/include/boatEngine.h:19-26 | each tag is the little-endian image of the enumeration value: 1, 3 and 9 |
| `NetworkRecord.EntryOctets` | BoAT-Engine/network/ethereum/network_ethereum.c:553-577 | the octets of an entry: tag, index, length, and the fields index, chain id, EIP-155 flag and URL with its zero, in this order |
| `NetworkRecord.Serialize` | BoAT-Engine/network/ethereum/network_ethereum.c:537-595 | builds length and four length-value fields in place in a buffer of exactly the computed length: index, chain id, EIP-155 flag and URL, in this order, octet for octet |
| `NetworkRecord.DataLen` | BoAT-Engine/network/ethereum/network_ethereum.c:488-518 | the computed length is that of the record |
| `NetworkRecord.FromNvram` | BoAT-Engine/network/ethereum/network_ethereum.c:47-190 | parsing a stored record gives back the network and the exact length |
| `NetworkStore.GetByIndex` | BoAT-Engine/network/ethereum/network_ethereum.c:1007-1098 | returns exactly the network with this protocol and index; records of other protocols are stepped over |
| `NetworkStore.List` | BoAT-Engine/network/platon/network_platon.c:203-334 | lists exactly the networks of the protocol, persistent ones in stored order and then the one-time network, while the number returned counts all records; exactly which read failures it reports |
| `NetworkStore.FreeIndex` | BoAT-Engine/network/ethereum/network_ethereum.c:395-472 | the least index unused by any of the three protocols, one exists unless the file is full; 1 when the header cannot be read, so that the index is in use after all if and only if the header could not be read and 1 is in use |
| `NetworkStore.StoreData` | BoAT-Engine/network/ethereum/network_ethereum.c:628-738 | tag, index, record and count are written in this order: whether a store goes through, and what the file then holds, as a function of the outcomes of its operations, for both stores; after a failure the old list, or the octets of so many of the writes in the place of the first record |
| `NetworkStore.LeftBlindMeaning` | BoAT-Engine/network/ethereum/network_ethereum.c:690-738 | what is left when a store that took the file for empty fails: the list if and only if the octets written are those that stood there; with the tag written, the list whose first network has the new protocol; with tag and index octet, that one if the index is the same and otherwise no list; with the whole entry, a list that starts with the new network if it fits there |
| `NetworkStore.WriteParts` | BoAT-Engine/network/ethereum/network_ethereum.c:690-730 | three writes at consecutive offsets: what has reached the region is a prefix of the entry, also when a write fails |
| `NetworkStore.Create` | BoAT-Engine/network/quorum/network_quorum.c:754-793 | free index and store together: the new network has the least free index of all protocols, or 1 when the header could not be read; exactly when it succeeds, and what the file then holds, in terms of the operations of the store, also for a failing store that could not read the header |
| `NetworkDelete.Delete` | BoAT-Engine/network/ethereum/network_ethereum.c:805-993 | index 0 drops the one-time network whatever its protocol and leaves the flash file alone; otherwise the flash file afterwards is a function of the outcomes of the operations, a success removes exactly that record, and without failures it succeeds exactly when the pair exists |
| `NetworkDelete.DeletePersistent` | BoAT-Engine/network/ethereum/network_ethereum.c:843-990 | result and file afterwards as functions of the outcomes from the write of the count on, whose position in the log is given, and which of these operations are performed |
| `NetworkDelete.DeleteEntry` | BoAT-Engine/network/ethereum/network_ethereum.c:895-990 | the file after every pattern of failures: all records, all but the one to be deleted, or all but the LAST one, which happens when a failure behind the lowering of the count is not recovered from; the last record itself is gone once the count is lowered; the old count is written back exactly if the write over the last record or the write of the tail failed |
| `NetworkDelete.ListsAfterRemoval` | BoAT-Engine/network/platon/network_platon.c:858-992 | deleting for one protocol leaves the lists of the others what they were |
| `NetworkDelete.SearchAfterRemoval` | BoAT-Engine/network/quorum/network_quorum.c:857-991 | every search for another pair finds the same network as before |
| `NetworkDelete.GoneAfterRemoval` | BoAT-Engine/network/ethereum/network_ethereum.c:895-990 | with distinct indices the deleted pair is no longer found |
| `NetworkDelete.LossExactly` | BoAT-Engine/network/ethereum/network_ethereum.c:945-973 | the last network is no longer found if and only if the count was lowered and the last operation failed; the network to be deleted is no longer found if and only if everything went through |
| `NetworkDelete.LossInRegion` | BoAT-Engine/network/ethereum/network_ethereum.c:945-973 | in every region with a network behind the one to be deleted: when the first read of the tail fails, the last network is gone, whatever its protocol, and the one to be deleted is still there |
| `NetworkRegistry.Registry.Run` | BoAT-Engine/network/ethereum/network_ethereum.c:753-993 | over every run by the three protocols, with any failures, each command changes the list as its answer says or causes one of the named losses; the run stops at a store that leaves no list, with the octets it leaves; after an undisturbed run the octets hold exactly the list the abstract run gives |
| `NetworkRegistry.Registry.DeleteNetwork` | BoAT-Engine/network/ethereum/network_ethereum.c:805-993 | a deletion as a change of the list of all protocols, exactly, for every pattern of failures |
| `NetworkRegistry.Registry.CreateNetwork` | BoAT-Engine/network/ethereum/network_ethereum.c:753-793 | a creation as a change of that list, exactly, in terms of the operations of its store: the file is reduced to the new network, or its first network has another protocol, or no list is left, only if the store could not read the header |
| `NetworkRegistry.RunSound` | BoAT-Engine/network/ethereum/network_ethereum.c:395-472 | over every undisturbed run indices stay in range and distinct across protocols, and a free one is found while there is room |
| `NetworkRegistry.OtherProtocolsUnmovedOverRuns` | BoAT-Engine/network/quorum/network_quorum.c:857-991 | no run of commands of other protocols changes what a protocol lists, whatever fails, unless one of the named losses occurs |
| `AbiTypes.Classified` | BoAT-Engine/tools/eth2c.py:395-434 | the five predicates on type names put every supported type into its own class and no other |
| `AbiTypes.LengthRead` | BoAT-Engine/tools/eth2c.py:385-388 | the length of a fixed array is read back from its name |
| `AbiWords.WordCorrect` | BoAT-Engine/tools/eth2c.py:710-722 | for every element type and use, the emitted word is the specified one exactly when no sign is lost |
| `AbiWords.LostWord` | BoAT-Engine/tools/eth2c.py:710-722 | where the sign is lost, the emitted word is the octets of the element under zeros |
| `AbiWords.SignLostExample` | BoAT-Engine/tools/eth2c.py:362-383 | an int16[2] element -1 is zero-extended: thirty zeros and FF FF |
| `AbiGen.GenSizeTerms` | BoAT-Engine/tools/eth2c.py:508-535 | the loop collects the byte string arguments, whose lengths are known to the size expression |
| `AbiGen.GenHeadWords` | BoAT-Engine/tools/eth2c.py:537-552 | the loop counts the head words |
| `AbiGen.GenOffset` | BoAT-Engine/tools/eth2c.py:556-597 | the two loops sum all heads and the tails in front of an argument |
| `AbiGen.GenMeasures` | BoAT-Engine/tools/eth2c.py:653-684 | the measuring statements |
| `AbiGen.GenHeads` | BoAT-Engine/tools/eth2c.py:873-933 | one statement per head |
| `AbiGen.GenTails` | BoAT-Engine/tools/eth2c.py:935-1054 | the statements of each tail |
| `AbiGen.Generate` | BoAT-Engine/tools/eth2c.py:807-1064 | the whole generated program is a function of the argument types |
| `AbiEncode.RoundupPads` | BoAT-SupportLayer/include/boatutility.h:164 | without overflow BOAT_ROUNDUP pads to a multiple of 32, also for 0, where it wraps around twice |
| `AbiEncode.BlobHeads` | BoAT-Engine/tools/eth2c.py:979-990 | the inner offsets, computed from measured lengths, are those of the specification: each hits its element |
| `AbiEncode.BlobsEnc` | BoAT-Engine/tools/eth2c.py:964-1008 | offsets and elements of bytes[], string[], bytes[k] and string[k] make up the specified encoding |
| `AbiEncode.WordsEnc` | BoAT-Engine/tools/eth2c.py:897-933 | the words written for T, T[k] and T[] make up the specified encoding |
| `AbiEncode.BytesEnc` | BoAT-Engine/tools/eth2c.py:1010-1023 | length word and padded contents of bytes and string are the specified encoding |
| `AbiProgram.AllMeasured` | BoAT-Engine/tools/eth2c.py:653-684 | measuring finds the length of every tail that is not in the size expression, and adds them all up in 32-bit arithmetic |
| `AbiProgram.SizeIsExact` | BoAT-Engine/tools/eth2c.py:508-552 | size expression and measuring together allocate exactly selector, heads and tails |
| `AbiOutput.OffsetIsExact` | BoAT-Engine/tools/eth2c.py:556-597 | an offset expression has the value all heads + tails before the argument |
| `AbiOutput.TailStep` | BoAT-Engine/tools/eth2c.py:941-1054 | the statements of one tail write its encoding, although the measured lengths are overwritten on the way |
| `AbiOutput.ProgramCorrect` | BoAT-Engine/tools/eth2c.py:807-1064 | for all argument lists the generated program fills its buffer exactly and outputs the encoding of the Contract ABI Specification |
| `AbiMachine.Cursor.Put` | BoAT-Engine/tools/eth2c.py:700-722 | memset, memcpy and the move of the cursor append one padded field and touch nothing before it |
| `AbiMachine.Cursor.PutOffsets` | BoAT-Engine/tools/eth2c.py:979-990 | the loop over the array of offsets writes a word per element |
| `AbiMachine.Cursor.PutPointee` | BoAT-Engine/tools/eth2c.py:713-723 | an argument passed by pointer: its octets are reversed in the caller's memory, and the word is formed from them |
| `AbiMachine.Call.WritePointee` | BoAT-Engine/tools/eth2c.py:948-959 | the same within a call: what every pointer points to afterwards, also if several arguments have the same pointer |
| `AbiMachine.Call.Run` | BoAT-Engine/tools/eth2c.py:864-1064 | executing a program whose size is exact never writes outside the buffer and ends with the cursor at its end |
| `AbiEncoder.Encode` | BoAT-Engine/tools/eth2c.py:807-1064 | generator and emitted code together deliver selector + specified encoding of the arguments as each stands in the caller's memory when its turn comes, for every supported argument list whose call data fits 32 bits; and how the call leaves that memory |
| `AbiEncoder.DistinctPointers` | BoAT-Engine/tools/eth2c.py:713-723 | if no pointer is passed twice, that is the encoding of the arguments as given |
| `AbiEncoder.AliasedExactly` | BoAT-Engine/tools/eth2c.py:713-723 | in general it is if and only if every argument whose memory an odd number of earlier arguments has reversed reads the same both ways |
| `AbiEncoder.Delivered` | BoAT-Engine/tools/eth2c.py:901-1064 | the standard decoder returns the intended arguments exactly when no negative number lost its sign |
| `AbiEncoder.OffsetsHit` | BoAT-Engine/tools/eth2c.py:922-927 | the offset expression has the value in the head word, and the tail stands at that distance behind the selector |
| `AbiSpec.RoundTrip` | BoAT-Engine/tools/eth2c.py:901-1064 | the decoder of the Contract ABI Specification recovers every argument list from its encoding |
| `Rlp.DecEnc` | BoAT-SupportLayer/include/boatrlp.h:288-320 | every nested item is decoded from its encoding, whatever follows |
| `Rlp.EncDec` | BoAT-SupportLayer/include/boatrlp.h:288-320 | the decoder accepts canonical encodings only: re-encoding gives back the octets |
| `Rlp.EncInjective` | BoAT-SupportLayer/include/boatrlp.h:288-320 | different items have different encodings |
| `Rlp.EncForm` | BoAT-SupportLayer/include/boatrlp.h:288-320 | the rules in full: which octets stand in front of a string or a list, for every length |
| `Rlp.SummaryDiffers` | BoAT-SupportLayer/include/boatrlp.h:297-301 | the summary of the rules, read literally, is wrong exactly for one octet from 0x80 on, and ambiguous there |
| `RawTx.RlpList.Append` | BoAT-SupportLayer/include/boatrlp.h:163-181 | appends and returns the position; refuses when 15 objects are in the list |
| `RawTx.RlpList.Replace` | BoAT-SupportLayer/include/boatrlp.h:184-210 | replaces one object in place |
| `RawTx.Tx.Send` | BoAT-Engine/protocol/boatethereum/boatethereum.c:32-430 | signs the hash of the encoded six or nine fields and sends the encoded nine fields with v, r and s at 6..8; the exact outcome when hash or signature fail |
| `RawTx.Tx.Store` | BoAT-Engine/protocol/boatethereum/boatethereum.c:299-322 | takes over and trims r and s; without a native signature the earlier octets are used |
| `RawTx.PreimageInjective` | BoAT-Engine/protocol/boatethereum/boatethereum.c:88-268 | two transactions have equal signing preimages exactly when nonce, gas price, gas limit, recipient, value and data agree, the mode agrees and, under EIP-155, the chain ids agree |
| `RawTx.PreimageDecodes` | BoAT-Engine/protocol/boatethereum/boatethereum.c:88-268 | the hashed octets decode to nonce, gas price, gas limit, recipient, value and data, in this order, and under EIP-155 to the chain id and two empty strings behind them |
| `RawTx.FinalDecodes` | BoAT-Engine/protocol/boatethereum/boatethereum.c:324-427 | the sent octets decode to nine items: nonce, gas price, gas limit, recipient, value, data, then v modulo 2^32, and the numbers r and s |
| `RawTx.VRecoverable` | BoAT-Engine/protocol/boatethereum/boatethereum.c:189-254 | chain id and parity can be recovered from v exactly when v does not wrap around; below the documented bound it does not and v is neither 27 nor 28 |
| `RawTx.VPlain` | BoAT-Engine/protocol/boatethereum/boatethereum.c:333-337 | without EIP-155 v is 27 or 28 |
| `RawTx.WrapCollision` | BoAT-Engine/protocol/boatethereum/boatethereum.c:189-254 | every v stands for a second chain id as well, 2^31 away, and one of the two is beyond the bound |
| `RawTx.TrimValue` | BoAT-SupportLayer/include/boatutility.h:204-234 | trimming keeps the number |
| `RawTx.ScalarsEqual` | BoAT-SupportLayer/include/boatutility.h:204-234 | trimmed scalars are equal octet strings exactly when they are equal numbers |
| `SensorPoll.Scan` | housekeeping_robot/fibocom_uart_temperature.c:303-322 | the comparison loop finds the first match at or behind the window edge |
| `SensorPoll.Take` | housekeeping_robot/fibocom_uart_temperature.c:278-336 | one read of octets: the buffer holds everything received and is never overrun |
| `SensorPoll.Poll` | housekeeping_robot/fibocom_uart_temperature.c:243-344 | for every stream, however it is cut, the verdict is the first of match, stop, failure and exhausted buffer; the command is sent at the beginning and once more behind every silent read, until it cannot be sent |
| `SensorPoll.OutcomeUnique` | housekeeping_robot/fibocom_uart_temperature.c:250-344 | stream and results of sending determine verdict, events used and commands tried |
| `SensorPoll.SilenceExample` | housekeeping_robot/fibocom_uart_temperature.c:250-291 | behind a silent read the response is waited for only if the command can be sent again |
| `SensorPoll.FoundAtOnce` | housekeeping_robot/fibocom_uart_temperature.c:243-344 | when a piece completes the response before anything else stopped the search, the verdict is a match at that piece |
| `PaymentLimiter.Robot.Sample` | housekeeping_robot/fibocom_uart_temperature.c:375-403 | the two counters pay exactly at the third, fifth... sample of a hot run with no payment in the 119 samples before |
| `PaymentLimiter.ScheduleUnique` | housekeeping_robot/fibocom_uart_temperature.c:375-403 | the samples determine the payments |
| `PaymentLimiter.HotMeaning` | housekeeping_robot/fibocom_uart_temperature.c:359-384 | a frame of decimal digits is hot exactly if it is 40 degrees or more away from zero; that is heat unless it is 40 degrees or more below zero |
| `PaymentLimiter.PaymentsApart` | housekeeping_robot/fibocom_uart_temperature.c:197-201 | two payments are at least 120 samples apart |
| `PaymentLimiter.PaidForHeat` | housekeeping_robot/fibocom_uart_temperature.c:379-392 | every payment ends three hot samples in a row |
| `PaymentLimiter.PaidSoon` | housekeeping_robot/fibocom_uart_temperature.c:375-403 | in sustained heat a payment comes with the first or second sample at which none is recent |
| `PaymentLimiter.PaymentsBounded` | housekeeping_robot/fibocom_uart_temperature.c:375-403 | any n samples in a row hold at most (n + 119) / 120 payments |
| `PaymentLimiter.ConstantHeat` | housekeeping_robot/fibocom_uart_temperature.c:375-403 | under constant heat the payments come at samples 3, 123, 243... |
| `RevenueShare.Robot.Turn` | ac_robot/ac_robot.c:522-629 | one turn: when it shares, what it shares, the new baseline, the fan; TurnBaseline and NextTurn say what these are worth |
| `RevenueShare.TurnBaseline` | ac_robot/ac_robot.c:515-595 | the baseline behind every turn: behind one that shares it is the balance modulo 2^32 as it is then, or 0 if that cannot be read |
| `RevenueShare.LaterIncomeShared` | ac_robot/ac_robot.c:515-595 | an income of at least the threshold behind a turn that shared is shared in full, although payouts have taken effect during that turn; what came in between its two readings is never shared |
| `RevenueShare.CheckBalanceLoop` | ac_robot/ac_robot.c:510-629 | the loop, as long as there are readings, shares and switches the fan off as the turns say |
| `RevenueShare.StepCovered` | ac_robot/ac_robot.c:515-595 | every event keeps: what was shared, and what the balance has grown above the baseline, has come in |
| `RevenueShare.SharesAreCovered` | ac_robot/ac_robot.c:510-595 | over every run with readable balances David is sent at most 50% and Charlie at most 30% of the income since start, whatever transfers come late or never |
| `RevenueShare.PortionExact` | ac_robot/ac_robot.c:569-582 | a share is exact if and only if the amount is at most 85899345 (143165576 for 30%), and otherwise too small |
| `RevenueShare.PortionValue` | ac_robot/ac_robot.c:569-582 | the value of a share in general: the product less its multiples of 2^32; 0 at the smallest amounts that wrap around |
| `RevenueShare.SmallPaymentsAccumulate` | ac_robot/ac_robot.c:530-535 | payments below the threshold add up until their total is shared |
| `RevenueShare.LargeBalance` | ac_robot/ac_robot.c:315-322 | for every starting balance and every withdrawal: the withdrawal is shared as if it were income if and only if the readings before and after, each modulo 2^32, rise by the threshold, which needs a balance from 2^32 on; and what is shared then |
| `RevenueShare.NextTurn` | ac_robot/ac_robot.c:600-626 | the counter and the switching after one more turn |
| `RevenueShare.FanRunsSevenTurns` | ac_robot/ac_robot.c:600-626 | over every run the switching commands leave the fan on exactly when one of the last seven turns shared |
| `RevenueShare.NoMoreOffsThanShares` | ac_robot/ac_robot.c:600-626 | over every run, attempts to switch off never outnumber the shares at least seven turns back |
| `Erc20.AmountOctets` | ac_robot/ac_robot.c:215-223 | the amount is laid out lowest octet first in 32 octets |
| `Erc20.TransferData` | ac_robot/erc20Transfer.c:317-343 | reversed twice, the address stands unchanged in the low 20 octets of word 1; word 2 is the amount, big-endian |
| `Erc20.TransferIsGenerated` | ac_robot/erc20Transfer.c:317-343 | these octets are what the generator model gives for transfer(address,uint256) |
| `Erc20.SelfAllowance` | ac_robot/erc20Transfer.c:394-402 | allowance with the same pointer for owner and spender sends the address with its octets reversed in the second word |
| `Erc20.DecodeBalance` | ac_robot/ac_robot.c:315-322 | the decoder returns the value of any 32-octet word modulo 2^32 |
| `Erc20.AmountRoundTrip` | ac_robot/ac_robot.c:207-223 | an encoded amount decodes to itself |

## Left out

- Fields.ReadField: assumes a well-formed field at the offset; what the length helper answers for other octets is declared nowhere in the repository.
- KeypairRecord.FromNvram: assumes a record that a store wrote; the checks for malformed lengths then never fire, and what they do with other octets is not modelled (the `-1` of the length helper is converted to an unsigned number before it is compared with 0).
- NetworkRecord.FromNvram: the same for networks.
- KeypairIndex.LoadAll: the allocation of the name in boatkeypair.c:125 is not checked there, so it is taken to succeed; that of boatkeypair.c:344 is checked and may fail.
- Keystore.Store.CreatePersistent: the dispatch on the store type is split over one method per store, and results of key generation, private-key storage and private-key deletion are parameters.
- Keystore.Store.Run: stops at a store that fails behind its first write after it could not read the header, as the file then need not hold a list; for a command whose private-key operation fails it names the lists that may be left, and CreatePersistent and DeletePersistent say which.
- NetworkRegistry.Registry.Run: covers the persistent file only, so a command to delete has an index from 1 on, and stops where a store that could not read the header fails behind its second write; NetworkDelete.Delete covers index 0.
- AbiEncoder.Encode: arrays and byte strings are values, so an array that overlaps with a scalar passed by pointer is not covered; it also assumes that the call data fits a BUINT32, that pointers are not NULL and that the buffer can be allocated; strlen is taken as a 32-bit number.
- An empty T[], bytes[] or string[] makes the emitted code declare C arrays of length 0, which the C standard leaves undefined; the model takes them for arrays without elements.
- AbiGen.Generate: produces statements, not C text; prototypes, return values, nonce handling and the calls after the buffer is filled are not modelled.
- AbiTypes.Classified: covers the names of supported types only; names that the generator refuses are not modelled.
- RawTx.Tx.Send: the list holds values, not pointers to string objects, so that re-initialising an object that is already in the list is not captured; hex conversion, the call to the node and the transaction hash are left out.
- SensorPoll.Poll: opening the port, the delays, and what the driver holds besides the given octets are left out.
- PaymentLimiter.Robot.Sample: frames are delivered whole; the partial-transfer loops of ReadUART and WriteUART are not modelled, and a failing read simply ends the run.
- RevenueShare.Robot.Turn: the HTTP requests to the smart plug and their answers are left out, as they change nothing that is modelled.
- The functions that free lists and initialise or tear down modules, wallet setters, logging, threads, modem and network activation.
- platon2c.py, quorum2c.py, boatplaton.c and the second copy of erc20Transfer.c, which repeat what is modelled.
- erc20Transfer_transferFrom and the other calls of the generated contract file, which the theorem about the generator covers by their argument types.
- Hash, signature and private-key internals: arbitrary functions or parameters here.
