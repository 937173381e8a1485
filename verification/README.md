# Verified models of four programs of the Solana program library

Four stateful cores are modelled and proved in Dafny: the on-chain reference database of the
farms project (RefDB) with the two accounts built on it, the binary option pool, the binary
oracle pair, and the index of latest versions in the farm client. `dafny verify dfyconfig.toml`
checks everything.

## What is modelled

**RefDB** (`Bytes`, `Pack`, `Records`, `Layout`, `StorageSpec`, `RefDB`, `RefDBMap`, `RefDBHistory`).
The database edits one byte array in place: a 73-byte header, then fixed-size slots. The methods of
module `RefDB` work on an `array<byte>` with the offsets of the source. `Layout.Decode` gives what
the bytes mean (an update counter, a reference type, a storage name and a list of slots, each free or
holding an entry) and `Layout.WellFormed` is the invariant: positive update counter, header count equal to
the number of live slots, and in every slot a valid name followed by zeros, with no name bytes
at all in a free slot. Every method is proved to do to the decoded slots what `StorageSpec` says. `RefDBMap`
then proves that the slots are a finite map: each call is one map operation or nothing, over
whole histories, and a name stays in its slot until it is removed. `RefDBHistory` carries this to the bytes, and to an
account under the main router with any number of initializations and drops.
What callers must not do is not just assumed. Each of these has its exact condition and an instance:
a write that stores a name twice (`WriteKeepsDistinct`, `DuplicateExample`), a name with bytes after a NUL
(`Write`, `LostName`, `NulNameExample`), deleting or updating with a larger reference type than the storage's (`ErasureIsLocal`,
`OversizedDeleteExample`, `UpdateIsLocal`, `OversizedUpdateExample`), and initializing over
bytes that are not free slots (`InitWellFormed`, on the bytes handed in, and `InitOverOldBytesExample`).

**UserInfo and VaultInfo** (`Cells`, `UserInfos`, `VaultInfos`, `Floats`) are rows of 64-bit cells over RefDB;
the proofs go down to the bytes of their storages, and initialization is specified for any bytes. Fees are floating point
numbers kept as their bits.

**Binary option** (`OptionPool`, `OptionProgram`, `OptionRuns`). `OptionProgram.Program` has the fields of the option
account and of the token ledger; its methods follow the instructions step by step, and failed instructions
are rolled back in `OptionRuns.Process`. The four-way case split of a trade is proved equal to one
netting rule (`OptionPool.Netted`), with the exact condition for success. The pool's invariant is full
collateralization together with the ledger (supplies are the sums of the balances, and all cash fits in 64 bits). Runs mix
the instructions with transfers between holders and gifts to the escrow: the escrow is exactly the collateral unless
something was given to it, and on top of that are the payoff of whole runs and the arithmetic of collections.
Promises of the documentation that turn out false have their exact conditions and reachable instances:
a trade larger than each party's opposite position but smaller than both together is refused
(`InGap`, `GapIsRefused`, `GapExample`; the code subtracts unsigned in the branch meant for a decrease); a winner cannot
collect when tokens times escrow exceeds 64 bits (`CollectFailsOnlyByOverflow`, `LockedForever`, `LockedExample`), until it
sends some tokens away (`SplitUnlocks`) and, for the whole, gets them back later (`Recovery`); and whoever received tokens by
transfer cannot collect, because a collection burns through a delegation that only a trade gives (`CollectableAfterRun`,
`ReceivedIsNotCollectable`, and the receiver in `LockedExample`). `TradeExecuted` says exactly which trades are executed and
`FirstSettlementWins` who wins.

**Oracle pair** (`OraclePair`, `OracleProgram`): deposits, one decision and withdrawals against a clock, mixed with transfers
of all three tokens and gifts to the deposit account. A withdrawal before the decision burns the full amount of FAIL but only as
much PASS as the account holds. PASS stays backed if and only if every such withdrawal names an account that holds the PASS
(`BackingOfFreshRun`); otherwise it is under-backed by exactly the amounts not burned (`BackingOverRun`, `UnbackedExample`).

**Version index** (`LatestIndex`, `VersionIndex`): parsing of versioned names and the index from stripped names to latest versions, for
every iteration order of the hash maps. The keys that stop the program are characterised by their text (`PanicNames`, `PanicExample`).

`Basics` and `Sums` hold what the models share: optional values, integer ranges and sums over a row of accounts.

Some products and quotients are written as recursive functions so that proofs stay linear: `OptionPool.Times`,
`Layout.SlotOffset` and `Layout.RecordsIn`; `TimesIsProduct`, `SlotOffsetIsLinear` and `RecordsInIsQuotient` prove them equal to
`n * price`, `73 + i * size` and `len / size`.

## Assumptions

- Checked arithmetic: an overflow or underflow of a 64-bit value fails the instruction.
- A storage has at most u32::MAX slots and fewer than 68 bytes left behind the last one, as the sizes computed by the source have.
- In the histories of the map, names have no NUL byte, updates address live slots with the storage's type, as their documentation demands, and deletes use a type no larger than the storage's. The methods themselves are specified without this.
- A token owner has one account per mint, addressed by the owner's number; the mints of a pool are distinct; owners sign for their own tokens.
- Clock readings and the default parameters of a vault are parameters.

## Model

| member | source | states |
|---|---|---|
| Pack.PackArrayString64 | farms/farm-sdk/src/pack.rs:82-86 | exactly the string's own bytes are overwritten, the tail of the field keeps its old bytes |
| Pack.UnpackArrayString64 | farms/farm-sdk/src/pack.rs:88-94 | the result is the field up to its first NUL; it fails exactly when those bytes are not UTF-8 |
| Pack.NameRoundTrip | farms/farm-sdk/src/pack.rs:82-94 | a packed name reads back if and only if it has no NUL and the byte after it in the field was zero |
| Pack.PaddedReads | farms/farm-sdk/src/pack.rs:82-94 | any name in a zero-padded field reads back up to its first NUL, and is told from that by its bytes unless only NULs follow |
| Pack.SequencesAreCharacters | farms/farm-sdk/src/pack.rs:88-94 | the well-formed byte sequences are exactly the encodings of single Unicode characters |
| Pack.ValidTexts | farms/farm-sdk/src/pack.rs:88-94 | a byte string is a valid name text if and only if it is the UTF-8 encoding of a sequence of Unicode characters |
| Records.TypeCodes | farms/farm-sdk/src/refdb.rs:122-148 | the code and the record size of each of the seven reference types, in numbers |
| Records.PackedBytes | farms/farm-sdk/src/refdb.rs:330-400 | byte k of a packed number is its k-th digit in base 256, lowest first; keys and floats are their own bytes |
| Records.ReferenceRoundTrip | farms/farm-sdk/src/refdb.rs:346-519 | unpacking the packed bytes of a reference of any type gives the reference back |
| Records.ReferenceBytesRoundTrip | farms/farm-sdk/src/refdb.rs:346-519 | packing what was unpacked gives the same bytes, for every byte string of the right size |
| Records.PackRecord | farms/farm-sdk/src/refdb.rs:285-300 | fails exactly when the record does not fit; otherwise only its bytes change, to counter, tag, overlaid name and reference |
| Records.RecordRoundTrip | farms/farm-sdk/src/refdb.rs:285-328 | a record packed over a clean name field unpacks to itself, whatever bytes follow |
| Records.RecordLayout | farms/farm-sdk/src/refdb.rs:285-300 | counter, tag, name and reference of a packed record are at bytes 0, 2, 4 and 68 |
| Layout.StorageSizeIsExact | farms/farm-sdk/src/refdb.rs:191-200 | a buffer of the computed size has exactly the requested number of slots |
| Layout.SlotsFit | farms/farm-sdk/src/refdb.rs:640-647 | all slots lie inside the buffer and the rest behind them is shorter than a record |
| Layout.SlotReplaced | farms/farm-sdk/src/refdb.rs:977-982 | buffers that differ only inside slot i decode to slot lists that differ only at i |
| RefDB.GetOffsetIs | farms/farm-sdk/src/refdb.rs:977-982 | the offset of a slot or of the end of the slots, and an error for any larger index |
| RefDB.HeaderValues | farms/farm-sdk/src/refdb.rs:594-654 | on a well-formed storage the accessors give the decoded counter, live count, slot count and type |
| Layout.InitializedMeans | farms/farm-sdk/src/refdb.rs:575-588 | a buffer counts as initialized if and only if its counter is not zero, its type code and name are valid and its records fit |
| RefDB.GetFreeRecords | farms/farm-sdk/src/refdb.rs:633-637 | free plus active records is the total, by the arithmetic on the buffer length |
| RefDB.FindIndex | farms/farm-sdk/src/refdb.rs:900-923 | the early-exit scan equals a full scan for the first live slot with the name, and never errors |
| StorageSpec.FindNameSpec | farms/farm-sdk/src/refdb.rs:899-923 | the full scan finds the least live slot with the name, and nothing exactly when there is none |
| RefDB.FindLastIndex | farms/farm-sdk/src/refdb.rs:927-947 | one past the last live slot, never an error |
| RefDB.FindNextIndex | farms/farm-sdk/src/refdb.rs:950-972 | the first free slot, or the slot count when full, never an error |
| RefDB.FindWriteOffset | farms/farm-sdk/src/refdb.rs:984-1015 | the offset of the target slot, including for empty and full storages |
| StorageSpec.TargetSpec | farms/farm-sdk/src/refdb.rs:984-1015 | the target is the name's own slot if stored, else the first free slot or the end |
| RefDB.ReadAtSpec | farms/farm-sdk/src/refdb.rs:673-682 | reading a slot gives its record with its index, nothing for a free slot, an error past the slots |
| RefDB.Read | farms/farm-sdk/src/refdb.rs:664-670 | the record of the slot the full scan finds, none exactly when no live slot has the name |
| RefDB.ReadAll | farms/farm-sdk/src/refdb.rs:713-729 | exactly the live records in slot order, never an error |
| StorageSpec.LiveIndicesSpec | farms/farm-sdk/src/refdb.rs:713-729 | the list of live slots is increasing and complete, as long as the live count |
| RefDB.Write | farms/farm-sdk/src/refdb.rs:746-792 | the result and all bytes, on any buffer when the slot is given or no record is counted; on a well-formed storage, for every name, the slots and the result of the write rule, all bytes kept on failure, and well-formedness kept exactly when it failed or nothing follows a NUL in the name |
| RefDB.StoredRecordDecodes | farms/farm-sdk/src/refdb.rs:770-791 | the bytes a write stores decode, for any name, to the record under the next counter with its name up to the first NUL, also over a reused slot; the storage is well formed if and only if nothing follows that NUL |
| RefDB.RecordOnBytes | farms/farm-sdk/src/refdb.rs:746-792 | the bytes a write leaves at their places in the buffer: both header counters, the record at the offset of its slot, and no other byte changed |
| RefDB.OffsetInFigures | farms/farm-sdk/src/refdb.rs:977-982 | slot i starts at byte 73 + i * (68 + size) |
| RefDB.UpdateAt | farms/farm-sdk/src/refdb.rs:816-841 | for a reference of any type: the result and the bytes in every case; a free slot fails after the storage counter has moved; with the storage's type it stays well formed and only the slot's reference and counter change |
| RefDB.Update | farms/farm-sdk/src/refdb.rs:799-809 | for a reference of any type, updates the slot of the name, or fails with 404 or for lack of room leaving all bytes |
| RefDB.UpdateIsLocal | farms/farm-sdk/src/refdb.rs:816-841 | an update changes only its slot if and only if the reference is no longer than the storage's, the slot is the last, or the bytes past it go unnoticed in the next slot |
| RefDB.Delete | farms/farm-sdk/src/refdb.rs:846-883 | the result and all bytes, on any buffer when the slot is given or no record is counted; on a well-formed storage the result for a record of any size, which bytes are erased, and the delete rule when the record is no longer than a slot |
| RefDB.DeleteWithName | farms/farm-sdk/src/refdb.rs:886-897 | frees the slot of the name, keeping the storage well formed |
| RefDB.ErasureIsLocal | farms/farm-sdk/src/refdb.rs:854-882 | a delete frees only its slot if and only if its record is no longer than a slot, the slot is the last, or the next slot would not notice |
| RefDB.OversizedErasure | farms/farm-sdk/src/refdb.rs:854-882 | a delete that reaches into a live next slot frees that record too and leaves it counted |
| RefDB.Init | farms/farm-sdk/src/refdb.rs:527-545 | succeeds exactly on a large enough buffer that is not initialized, writing the header and nothing else |
| RefDB.HeaderOnBytes | farms/farm-sdk/src/refdb.rs:527-545 | the bytes init leaves at their places in the buffer: counter 1, no record, type code, name |
| RefDB.InitWellFormed | farms/farm-sdk/src/refdb.rs:527-545 | the initialized storage is usable if and only if the buffer fits whole slots and every one has zero counter and name bytes |
| RefDB.InitOverOldBytesExample | farms/farm-sdk/src/refdb.rs:527-545 | a buffer that is initialized without error and then has a live slot that is not counted |
| RefDB.InitFresh | farms/farm-sdk/src/refdb.rs:527-556 | a zeroed buffer, such as a dropped one, becomes an empty storage |
| RefDB.InitZeroed | farms/farm-sdk/src/refdb.rs:191-200 | a zeroed buffer of the computed size becomes a storage with that many free slots |
| RefDB.Drop | farms/farm-sdk/src/refdb.rs:548-556 | zeroes buffers up to 2000 bytes, refuses longer and too short ones unchanged |
| RefDBMap.ContentsSpec | farms/farm-sdk/src/refdb.rs:522-523 | slots with distinct names are a finite map with one entry per live slot |
| RefDBMap.WriteKeepsDistinct | farms/farm-sdk/src/refdb.rs:755-765 | a successful write of any name keeps names distinct if and only if it does not go to a free slot while what it keeps of the name is stored |
| RefDBMap.NulNamesAreLost | farms/farm-sdk/src/refdb.rs:746-792 | a name written with a NUL is stored up to the NUL and not found under the name that was written |
| RefDBMap.StepRefines | farms/farm-sdk/src/refdb.rs:746-883 | each call is exactly the matching insert, modify or remove when it takes effect and changes nothing otherwise |
| RefDBMap.NamedOutcome | farms/farm-sdk/src/refdb.rs:746-883 | the result of every call by name, with each error, from the map, its capacity, the type and the counters |
| RefDBMap.IndexedOutcome | farms/farm-sdk/src/refdb.rs:746-883 | a call by index takes effect if and only if its slot is free or is where its name is found under the counter it gives |
| RefDBMap.ReadAfterWrite | farms/farm-sdk/src/refdb.rs:664-792 | after a successful write the name is found in the slot written, with the next counter, and all other names are found where they were |
| RefDBMap.ReadAfterUpdate | farms/farm-sdk/src/refdb.rs:799-841 | an update of a stored name takes effect and leaves the new value under the next counter in the same slot, all else unchanged |
| RefDBMap.ReadAfterDelete | farms/farm-sdk/src/refdb.rs:846-883 | after a delete the name is not found and all other names are found where they were |
| RefDBMap.SlotStays | farms/farm-sdk/src/refdb.rs:746-883 | a call that does not remove a name leaves it in its slot |
| RefDBMap.SlotsAreStable | farms/farm-sdk/src/refdb.rs:746-897 | over any history that never removes a name it stays in its slot |
| RefDBMap.RunRefines | farms/farm-sdk/src/refdb.rs:746-897 | after any history the contents are the map run of the calls that took effect and the storage counter has counted them cyclically |
| RefDBMap.NamedRunIsDictionary | farms/farm-sdk/src/refdb.rs:746-897 | any history of calls by name, each sound in itself whatever is stored, is the run of a bounded dictionary with optimistic counters |
| RefDBMap.StaleWriteRefused | farms/farm-sdk/src/refdb.rs:754-791 | a writer with an old counter, with or without the slot number it read, is refused with 409, and so is a delete, unless a multiple of 65535 changes happened since it read |
| RefDBHistory.Perform | farms/farm-sdk/src/refdb.rs:746-883 | each of write, update, update_at and delete is one step on the bytes: decoded as specified, all bytes kept on failure |
| RefDBHistory.FreshHistory | farms/farm-sdk/src/refdb.rs:527-897 | for every history from a fresh storage the last bytes are well formed, decode to the map run, and the header counts live and free slots |
| RefDBHistory.FreshNamedHistory | farms/farm-sdk/src/refdb.rs:527-897 | for every history of sound calls by name from a fresh storage the last bytes decode to the run of the bounded dictionary |
| RefDBHistory.Dispatch | farms/router-main/src/refdb_instruction.rs:32-73 | each instruction is one step of the account, zeroed or initialized: its result, what the bytes mean afterwards, all bytes kept on failure, and a failed drop not reported |
| RefDBHistory.InitEffect | farms/router-main/src/refdb_instruction.rs:32-58 | exactly when an account is initialized, and that it is then empty |
| RefDBHistory.DropEffect | farms/router-main/src/refdb_instruction.rs:59-65 | a drop never fails, zeroes an account of 73 to 2000 bytes and leaves what any other holds |
| RefDBHistory.WriteEffect | farms/router-main/src/refdb_instruction.rs:66-68 | a write that succeeds stores tag and value under its name and changes no other name |
| RefDBHistory.DeleteEffect | farms/router-main/src/refdb_instruction.rs:69-71 | a delete that succeeds changes no other name and, by name, leaves the name absent |
| RefDBHistory.AccountAlwaysExplained | farms/router-main/src/refdb_instruction.rs:32-73 | after every history of a zeroed account, with any initializations and drops, it is zeroed or holds the map run of the changes since its last initialization, counted by its counter |
| RefDBHistory.LostName | farms/farm-sdk/src/refdb.rs:746-792 | after a successful write of a name with a NUL the bytes hold it up to the NUL and it is not found under the name written |
| RefDBHistory.NulNameExample | farms/farm-sdk/src/refdb.rs:746-792 | a storage and a name with a letter after a NUL for which the write succeeds |
| RefDBHistory.DuplicateExample | farms/farm-sdk/src/refdb.rs:755-765 | a storage and a write by index that succeeds and stores a name twice |
| RefDBHistory.OversizedDeleteExample | farms/farm-sdk/src/refdb.rs:854-880 | a storage and a delete with a larger reference type that succeeds, after which both slots are free and one is still counted |
| RefDBHistory.OversizedUpdateExample | farms/farm-sdk/src/refdb.rs:816-841 | an update with a larger reference type that is not local |
| Cells.InitField | farms/vaults/src/user_info.rs:331-348 | the outcome of writing one more field, on any bytes |
| Cells.CellsInitOutcome | farms/vaults/src/user_info.rs:42-87 | an account that is not in use is initialized if and only if every field has room and its slot is free or has its name already, in the bytes at the start |
| Cells.CellsInitFills | farms/vaults/src/user_info.rs:42-87 | an account of the right size with free slots, such as a zeroed one, becomes the row of cells with the given names and values |
| Cells.SetCell | farms/vaults/src/user_info.rs:89-98 | changes one cell and no other |
| Cells.CellAt | farms/vaults/src/user_info.rs:231-238 | reading a cell gives the value last stored in it |
| UserInfos.UserInfo.Init | farms/vaults/src/user_info.rs:42-87 | for any account the result and all bytes: an account in use is refused, any other is initialized exactly when its fields are free, and one with free slots becomes eight cells |
| UserInfos.AccountLayout | farms/vaults/src/user_info.rs:25-87 | a user account has 681 bytes and its eight fields in the order of the source |
| UserInfos.UserInfo.AddLiquidity | farms/vaults/src/user_info.rs:111-146 | the two added totals and the deposit time change as specified, all other cells stay |
| UserInfos.UserInfo.RemoveLiquidity | farms/vaults/src/user_info.rs:148-189 | the two removed totals and the withdrawal time change as specified, all other cells stay |
| UserInfos.UserInfo.AddLpTokensDebt | farms/vaults/src/user_info.rs:191-206 | the debt grows, or the call fails with 999 on overflow and nothing changes |
| UserInfos.UserInfo.RemoveLpTokensDebt | farms/vaults/src/user_info.rs:208-229 | the debt falls, not below zero |
| UserInfos.UserInfo.Get | farms/vaults/src/user_info.rs:258-292 | a getter of a total returns the value of its cell |
| UserInfos.UserInfo.GetTime | farms/vaults/src/user_info.rs:240-256 | the two times are their cells as signed numbers |
| UserInfos.UserInfo.GetUserBump | farms/vaults/src/user_info.rs:294-301 | the bump is the low byte of its cell |
| UserInfos.TotalsAreSums | farms/vaults/src/user_info.rs:111-189 | over any run each total is the sum of its inputs modulo 2^64 |
| UserInfos.DebtIsBalance | farms/vaults/src/user_info.rs:191-229 | over any run in which no removal exceeds the debt and no addition overflows, the debt is additions minus removals |
| UserInfos.DebtIsReflected | farms/vaults/src/user_info.rs:191-229 | over any run without overflow the debt is the largest of the start plus all changes and of the changes since any later moment |
| UserInfos.DebtEdges | farms/vaults/src/user_info.rs:191-229 | an overflowing addition fails with 999 and changes nothing; a removal of more than the debt leaves none |
| UserInfos.TimesAreLast | farms/vaults/src/user_info.rs:142-145 | over any run the deposit time is that of the last call that added a nonzero amount, the withdrawal time that of the last that removed one |
| UserInfos.BumpIsFixed | farms/vaults/src/user_info.rs:80-86 | no call changes the bump |
| VaultInfos.VaultInfo.Init | farms/vaults/src/vault_info.rs:45-124 | for any account the result and all bytes: an account in use is left alone, any other is initialized exactly when its fields are free, and one with free slots becomes thirteen cells with the defaults |
| VaultInfos.AccountLayout | farms/vaults/src/vault_info.rs:45-124 | a vault account has 1061 bytes and its thirteen fields in the order of the source |
| VaultInfos.VaultInfo.UpdateCrankTime | farms/vaults/src/vault_info.rs:126-135 | stores the time and changes no other cell |
| VaultInfos.VaultInfo.SetCrankStep | farms/vaults/src/vault_info.rs:137-144 | stores the step and changes no other cell |
| VaultInfos.VaultInfo.SetMinCrankInterval | farms/vaults/src/vault_info.rs:146-155 | stores the interval and changes no other cell |
| VaultInfos.VaultInfo.AllowDeposit | farms/vaults/src/vault_info.rs:185-201 | stores 1 or 0 in the deposit switch and changes no other cell |
| VaultInfos.VaultInfo.AllowWithdrawal | farms/vaults/src/vault_info.rs:203-219 | stores 1 or 0 in the withdrawal switch and changes no other cell |
| VaultInfos.SettingsAreLast | farms/vaults/src/vault_info.rs:126-219 | over any run a cell that is not a total holds what was last stored in it |
| Floats.MagnitudeValue | farms/vaults/src/vault_info.rs:358-374 | every finite number is exactly the whole number of units of 2^-1074 that its exponent and fraction fields give |
| Floats.SomeValues | farms/vaults/src/vault_info.rs:157-160 | the bits of 1.0 and of 0.5 |
| Floats.BitsAreOrdered | farms/vaults/src/vault_info.rs:157-160 | positive numbers are ordered as their bits |
| Floats.UnitRangeBits | farms/vaults/src/vault_info.rs:157-160 | a number is between 0.0 and 1.0 if and only if its bits are at most those of 1.0 or those of the negative zero; infinities and NaN are not |
| VaultInfos.VaultInfo.SetFee | farms/vaults/src/vault_info.rs:157-183 | a fee between 0.0 and 1.0 is stored by its bits, any other number is refused with nothing changed |
| VaultInfos.VaultInfo.GetFee | farms/vaults/src/vault_info.rs:358-374 | a fee reads as the number with the bits of its cell |
| VaultInfos.FeesStayInRange | farms/vaults/src/vault_info.rs:157-183 | over any run of calls a fee that starts between 0.0 and 1.0 stays there |
| VaultInfos.VaultInfo.AddLiquidity | farms/vaults/src/vault_info.rs:221-253 | the two added totals grow, wrapping around |
| VaultInfos.VaultInfo.RemoveLiquidity | farms/vaults/src/vault_info.rs:255-293 | the two removed totals grow, wrapping around |
| VaultInfos.VaultInfo.AddRewards | farms/vaults/src/vault_info.rs:295-329 | the two reward totals grow, wrapping around |
| VaultInfos.VaultInfo.Get | farms/vaults/src/vault_info.rs:394-446 | a getter of a total returns the value of its cell |
| VaultInfos.VaultInfo.GetTime | farms/vaults/src/vault_info.rs:331-356 | crank time and interval are their cells as signed numbers |
| VaultInfos.VaultInfo.IsAllowed | farms/vaults/src/vault_info.rs:376-392 | deposits or withdrawals are allowed exactly when their cell is not zero |
| VaultInfos.CellsAreIndependent | farms/vaults/src/vault_info.rs:126-446 | over any run each cell is its last assigned value plus what was added since, modulo 2^64, whatever happened to the others |
| OptionProgram.Program.IncrementSupply | binary-option/program/src/state.rs:31-33 | circulation grows, or fails on overflow unchanged |
| OptionProgram.Program.DecrementSupply | binary-option/program/src/state.rs:35-41 | circulation falls, or fails with an invalid supply unchanged |
| OptionProgram.Program.SplBurn | binary-option/program/src/spl_utils.rs:90-117 | balance and supply fall together, or nothing changes |
| OptionProgram.Program.SplBurnSigned | binary-option/program/src/spl_utils.rs:119-149 | as a burn, and only within the delegated amount, which it uses up |
| OptionProgram.Program.SplMintTo | binary-option/program/src/spl_utils.rs:151-178 | balance and supply grow together, or nothing changes |
| OptionProgram.Program.SplTokenTransfer | binary-option/program/src/spl_utils.rs:180-207 | cash moves from an owner to the escrow, or nothing changes |
| OptionProgram.Program.SplTokenTransferSigned | binary-option/program/src/spl_utils.rs:209-238 | cash moves from the escrow to an owner, or nothing changes |
| OptionProgram.Program.SplApprove | binary-option/program/src/spl_utils.rs:58-88 | the delegated amount of one position account is set |
| OptionProgram.Program.CloseBoth | binary-option/program/src/processor.rs:303-338 | case 1 never fails and leads to the balances in figures |
| OptionProgram.Program.OpenBoth | binary-option/program/src/processor.rs:347-418 | case 2 succeeds exactly when both can pay and the trade is not in the gap, and leads to the balances in figures |
| OptionProgram.Program.CountOpened | binary-option/program/src/processor.rs:413-417 | the unsigned difference goes through exactly when circulation does not fall |
| OptionProgram.Program.OpenSeller | binary-option/program/src/processor.rs:426-477 | case 3 succeeds exactly when the seller can pay |
| OptionProgram.Program.OpenBuyer | binary-option/program/src/processor.rs:485-536 | case 4 succeeds exactly when the buyer can pay |
| OptionProgram.Program.Delegate | binary-option/program/src/processor.rs:540-575 | the delegated amounts of all four position accounts are set |
| OptionProgram.Program.ProcessTrade | binary-option/program/src/processor.rs:183-578 | a trade succeeds if and only if it is allowed, its result is the netting rule, and it never ends in an empty escrow or an invalid supply |
| OptionProgram.FiguresSound | binary-option/program/src/processor.rs:303-535 | under the invariant every payment out of escrow is covered and every amount of a funded trade fits in 64 bits |
| OptionProgram.RebalancedIsNetted | binary-option/program/src/processor.rs:297-537 | the balances of the four cases are those of the one netting rule |
| OptionPool.NettingRule | binary-option/program/src/processor.rs:288-537 | the rule in figures: cash, net positions, circulation and escrow of a trade, and that no other wallet changes |
| OptionPool.NettedKeepsInvariant | binary-option/README.md:76 | a netted trade keeps the pool fully collateralized, exactly if it was exact, and conserves cash |
| OptionProgram.Program.ProcessSettle | binary-option/program/src/processor.rs:580-609 | settles once, for the owner's signature and one of the two mints, and changes nothing otherwise |
| OptionProgram.Program.ProcessCollect | binary-option/program/src/processor.rs:611-723 | a collection succeeds if and only if it is allowed, burns all positions and pays the rounded share |
| OptionPool.ShareBounds | binary-option/program/src/processor.rs:709-719 | rounding down never lowers the claim of each remaining token, never exceeds the escrow, and the last tokens take all of it |
| OptionPool.ShareOfExact | binary-option/program/src/processor.rs:709-719 | with exact collateral the share is exactly the payout per token |
| OptionPool.CollectedKeepsInvariant | binary-option/program/src/processor.rs:693-720 | a collection keeps the remaining winning tokens collateralized and conserves cash |
| OptionPool.MovedKeepsInvariant | binary-option/README.md:76 | transfers between holders and gifts to the escrow keep the invariant and conserve cash; transfers between holders keep an exact escrow exact |
| OptionRuns.TradeExecuted | binary-option/program/src/processor.rs:183-578 | a trade of nonzero size is executed if and only if prices add up, both can pay for what they open and the size is not in the gap; it then moves both net positions by its size, and otherwise nothing changes |
| OptionRuns.FirstSettlementWins | binary-option/program/src/processor.rs:580-609 | a run is settled if and only if it holds a settlement, and the side named first wins for good |
| OptionRuns.CollectionInFigures | binary-option/program/src/processor.rs:685-720 | a collection pays the rounded-down share of any escrow, burns both positions and changes no other wallet |
| OptionRuns.Process | binary-option/program/src/processor.rs:30-60 | an instruction is one step of the run machine, and a failed one changes nothing |
| OptionRuns.AlwaysCollateralized | binary-option/README.md:76 | in every reachable state escrow is at least circulation times 10^decimals and the supplies agree with circulation |
| OptionRuns.ExactlyCollateralized | binary-option/README.md:76 | in every reachable state without gifts escrow is exactly circulation times 10^decimals, whatever was traded, collected and transferred; while nothing is collected it is that plus exactly the gifts |
| OptionRuns.NextSurplus | binary-option/program/src/processor.rs:183-723 | only a gift adds to what the escrow holds beyond the collateral, and only a collection takes from it |
| OptionRuns.ClosedRunsAreTidy | binary-option/program/src/processor.rs:540-575 | without outside transfers no wallet holds both sides and the delegations equal the balances |
| OptionRuns.CollectFailsOnlyByOverflow | binary-option/program/src/processor.rs:693-720 | in a settled closed run a collection is possible if and only if tokens times escrow fits in 64 bits, and pays exactly tokens times 10^decimals |
| OptionRuns.FinalPayoff | binary-option/program/src/processor.rs:288-720 | over any settled run without gifts the first settlement names the winner, and cash and uncollected payout are starting cash plus, for each executed trade, size times payout if the side won less the price, plus what holders sent each other, whatever was netted and in whatever order collected |
| OptionRuns.GainInFigures | binary-option/program/src/processor.rs:288-537 | the gain of one trade is size times payout if the side won, less the price |
| OptionRuns.NothingLeftOver | binary-option/program/src/processor.rs:693-720 | when no winning token is left after a run without gifts the escrow is empty and the participants hold together the cash they brought |
| OptionRuns.CollectedStaysEmpty | binary-option/program/src/processor.rs:685-720 | a wallet that has collected stays without positions, so its cash is final |
| OptionRuns.CollectionKeepsClaim | binary-option/program/src/processor.rs:709-719 | with any surplus in escrow a collection does not lower the escrow per remaining token, and the last collector empties it |
| OptionRuns.ClaimNeverDrops | binary-option/program/src/processor.rs:693-720 | over any run after settlement the escrow per remaining winning token never drops |
| OptionRuns.GapIsRefused | binary-option/program/src/processor.rs:413-417 | every funded trade in the gap is refused although netting it would keep the pool collateralized |
| OptionRuns.GapExample | binary-option/program/src/processor.rs:413-417 | such trades exist, in pools reached from a fresh one by one trade |
| OptionRuns.LockedForever | binary-option/program/src/processor.rs:693-720 | a sole winner whose share overflows cannot collect in any continuation without outside transfers |
| OptionRuns.SplitUnlocks | binary-option/program/src/processor.rs:685-720 | after sending winning tokens away a holder can collect for the rest if and only if that product fits in 64 bits |
| OptionRuns.ExcessOverRun | binary-option/program/src/processor.rs:693-708 | over any run after settlement, what a wallet holds beyond its delegation changes only by what it receives and sends |
| OptionRuns.CollectableAfterRun | binary-option/program/src/processor.rs:685-720 | after any run from a settled pool a wallet can collect if and only if, of each side, it received no more than it sent and is still delegated, and the product of tokens and escrow fits in 64 bits |
| OptionRuns.ReceivedIsNotCollectable | binary-option/program/src/processor.rs:693-708 | a wallet that has received more of a side than it sent since all its tokens were delegated cannot collect at any later time |
| OptionRuns.Recovery | binary-option/program/src/processor.rs:685-720 | sending tokens away, collecting, getting them back and collecting again pays everything, if each product fits |
| OptionRuns.LockedExample | binary-option/program/src/processor.rs:709-711 | a reachable, exactly collateralized settled pool whose only winner cannot collect in any closed continuation; after sending half away it can for the rest and the receiver cannot, and by the detour it gets everything |
| OracleProgram.Program.ProcessDeposit | binary-oracle-pair/program/src/processor.rs:308-377 | a deposit succeeds if and only if it is allowed, moving cash in and minting both tokens |
| OracleProgram.Program.ProcessWithdraw | binary-oracle-pair/program/src/processor.rs:380-520 | a withdrawal succeeds if and only if it is allowed, burning by decision and paying the amount |
| OracleProgram.Program.ProcessDecide | binary-oracle-pair/program/src/processor.rs:523-561 | decides exactly once, for the signing decider, within the decision term |
| OracleProgram.Process | binary-oracle-pair/program/src/processor.rs:564-594 | an instruction is one step of the run machine, and a failed one changes nothing |
| OraclePair.MovedKeepsLedger | binary-oracle-pair/README.md:8-13 | transfers of any token and gifts to the deposit account keep supplies equal to balances |
| OraclePair.DepositBalances | binary-oracle-pair/program/src/processor.rs:343-377 | every balance after a deposit: cash from the payer, PASS and FAIL to the accounts named, nothing else |
| OraclePair.WithdrawBalances | binary-oracle-pair/program/src/processor.rs:421-516 | every balance after a withdrawal: cash to the account named, tokens burned by decision from the two others, nothing else |
| OracleProgram.DepositsAllowed | binary-oracle-pair/program/src/processor.rs:326-377 | exactly when a deposit is made, up to and including the last slot of the mint term |
| OracleProgram.WithdrawalsMade | binary-oracle-pair/program/src/processor.rs:380-520 | exactly when a withdrawal is made, by decision and slot |
| OracleProgram.RefusedInTerm | binary-oracle-pair/program/src/processor.rs:471-515 | before the decision every withdrawal inside the decision term is refused and changes nothing |
| OracleProgram.NothingPaidInTerm | binary-oracle-pair/program/src/processor.rs:471-515 | over any run inside the decision term before the decision no cash leaves the deposit account and no token is burned |
| OracleProgram.FreshTerms | binary-oracle-pair/program/src/processor.rs:292-303 | what a new pool holds, who decides it and between which slots |
| OracleProgram.WithdrawalsAllowed | binary-oracle-pair/program/src/processor.rs:380-520 | the program's own checks suffice: the supplies always cover what a withdrawal burns |
| OracleProgram.BackingOverRun | binary-oracle-pair/program/src/processor.rs:343-517 | over any run, FAIL and the gifts are backed one to one until PASS wins, and PASS up to exactly the PASS not burned by undecided withdrawals |
| OracleProgram.CareAvoidsShortfall | binary-oracle-pair/program/src/processor.rs:471-490 | as much PASS as FAIL is burned in every undecided withdrawal of a run if and only if each named an account holding the amount of PASS |
| OracleProgram.BackingOfFreshRun | binary-oracle-pair/README.md:8-13 | in every reachable state FAIL is backed unless PASS won, and PASS is backed unless FAIL won if and only if every undecided withdrawal named an account holding the amount of PASS; then PASS, FAIL and the deposits are equal until the decision |
| OracleProgram.FailIsRedeemable | binary-oracle-pair/program/src/processor.rs:446-516 | outside the decision term and unless PASS won, a FAIL holder can redeem exactly up to what it holds |
| OracleProgram.PassIsRedeemable | binary-oracle-pair/program/src/processor.rs:421-445 | after PASS won, a PASS holder can redeem exactly up to what it holds and the gap leaves, and all it holds when there is no gap |
| OracleProgram.UnbackedExample | binary-oracle-pair/program/src/processor.rs:471-512 | a run in which PASS wins with nothing in the deposit account |
| OracleProgram.TermsAreFixed | binary-oracle-pair/program/src/processor.rs:292-303 | the two terms and the decider never change after initialization |
| OracleProgram.DecisionIsFinal | binary-oracle-pair/program/src/processor.rs:544-546 | a decision once made is never revised |
| OracleProgram.DecidedWithinTerm | binary-oracle-pair/program/src/processor.rs:536-557 | a run decides if and only if it holds a signed decision of the decider within the decision term, and then as the first of these says |
| OracleProgram.UndecidedForever | binary-oracle-pair/program/src/processor.rs:548-551 | undecided past the decision term, a pool stays undecided |
| OracleProgram.NoMintAfterTerm | binary-oracle-pair/program/src/processor.rs:333-335 | after the mint term neither supply grows |
| VersionIndex.VersionTexts | farms/farm-client/src/client.rs:3015-3022 | a text reads as a version if and only if it is V or v, an optional plus, any zeros and that version in decimal, which fits in 16 bits; it stops the program exactly when it is empty or starts with a character of several bytes |
| VersionIndex.VersionRoundTrip | farms/farm-client/src/client.rs:3015-3022 | a decimal version after V or v, with or without plus, reads back exactly when it fits in 16 bits |
| VersionIndex.VersionedNames | farms/farm-client/src/client.rs:3024-3036 | a key reads as stripped name and version if and only if it is that name, a dash and a version text without dots or dashes |
| VersionIndex.PanicNames | farms/farm-client/src/client.rs:3015-3036 | a key stops the program if and only if it is a dotted name, a dash and a text that is empty or starts with a character of several bytes |
| VersionIndex.PanicExample | farms/farm-client/src/client.rs:3015-3036 | such a key |
| LatestIndex.CollectLatest | farms/farm-client/src/client.rs:3043-3054 | for every order of the keys each stripped name ends with a key of its greatest version |
| LatestIndex.InsertAll | farms/farm-client/src/client.rs:3055-3057 | the entries are put over the destination |
| VersionIndex.ReinsertLatestVersions | farms/farm-client/src/client.rs:3039-3058 | stops the program exactly if some key has no version text or one that starts with a character of several bytes, otherwise puts an index of latest versions over the destination |
| LatestIndex.ReinsertedMeans | farms/farm-client/src/client.rs:3038-3058 | into an empty destination the result is exactly the index; names without a versioned key keep their entries |
| LatestIndex.IndexIsUnique | farms/farm-client/src/client.rs:3043-3057 | all iteration orders give the same names and versions |

## Left out

- Account keys, signatures, rent, program addresses and the creation of accounts: accounts are numbered owners, and initialization is its final state.
- Several accounts of one owner for the same mint: the netting of a trade only sees the accounts passed to it.
- The order of the two burns and of the two payments inside cases 3 and 4 of a trade: neither can fail, so the balances do not depend on it.
- Buffers with 68 or more bytes behind the last slot, and more than u32::MAX slots: the computed storage sizes exclude them.
- `read_if_changed`, `read_at_if_changed`, `read_all_if_changed`, `is_updated`, `is_empty`, `is_full` and the default storage sizes: comparisons over members that are modelled.
- Floating point arithmetic: an f64 reference is its eight bytes, a fee is the number its bits spell.
- RefDBHistory.Dispatch: the creation and closing of accounts.
- Scans for a name in a buffer that counts records but is not well formed.
- Direct burns of tokens by their holders, and approvals given outside a trade.
- Failure of the clock inside an update.
- `validate_account` of a user account.
- The byte layouts of pools, farms, vaults and tokens, the routers, and the rest of the farm client.
- Deposits to an oracle pool whose accounts are not the pool's own.
