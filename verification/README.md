# Verified core of the wallet firmware

A Dafny model of the self-contained cores of a hardware-wallet firmware, with the
properties they rest on proved for all inputs and all runs. `dafny verify dfyconfig.toml`
checks everything.

- **Flash key-value store** (`NorcowLayout`, `NorcowEdits`, `Norcow`): the log-structured
  store on NOR flash, where a write can only clear bits, refines a plain map of bounded size
  over every run of set, get, delete, update, iteration and restart, with compaction whenever
  a sector is full. Sector count, sector size and header length are parameters.
- **PIN log** (`HammingWeights`, `PinLogWords`, `GuardKeys`, `FlashWords`, `PinLog`): the guard-bit-encoded
  attempt log, in an entry of that store, refines a plain fail counter over every run of
  unlock attempts; no fault branch is reachable, at most ten attempts are compared between
  successes, and the log is never exhausted.
- **Counters** (`TallyCounter`): successive increments of an entry of that store are
  consecutive integers.
- **Sealed storage** (`StorageAuth`, `SealedEntries`, `SealedSpec`, `KeyRules`, `SealedStorage`): the
  XOR-of-HMAC authentication sum and the IV/tag/ciphertext layout, on that store. Every run of
  set, get, delete, lock, unlock and restart acts as a specification on plaintexts and the
  sum. A run that refuses no stored protected key for lack of space answers as a plain map of
  bounded size with a lock and never halts; one that does skews the sum, restarts do not
  repair it, what the next read then does is stated exactly, and a device that has halted
  never unlocks again short of a wipe.
- **Limb arithmetic** (`Limbs`, `BignumBasic`, `BignumMultiply`, `BignumPower`, `Congruence`,
  `AlmostInverse`, `BignumInverse`): nine 29-bit limbs with a value function, C's wrap-around
  written out. Partial reduction, multiplication, exponentiation and the constant-time
  almost-Montgomery inverse.
- **Secret sharing** (`Gf256`, `Fields`, `GfField`, `Interpolation`, `MachineWords`,
  `Shamir`): bitsliced arithmetic acts in 32 lanes as the field GF(2^8), and interpolation
  is exact.
- **ECDSA** (`Recoding`, `ScalarMultiply`, `ModularRing`, `Ecdsa`): signed odd-digit
  recoding, both scalar multiplications, signing, verification and recovery. A point is
  represented by its coefficient of the generator.
- **BIP-32** (`Bip32`, `Bip32Cache`): private and public child derivation agree, and the
  derivation cache is transparent.
- **Encodings** (`Radix`, `Base58`, `Base58Decode`, `Polymod`, `ConvertBits`, `Bech32`,
  `Bip173`, `Segwit`): Base58 and segwit addresses, both round trips.
- **Hashing** (`Sha256`, `HmacSha256`, `OctetStrings`, `PaddingLaws`, `HmacDrbg`, `Rfc6979`): streaming SHA-256 over an
  uninterpreted compression function, HMAC and HMAC-DRBG, and the deterministic nonces of
  RFC 6979.

Conventions. 32-bit words on which the program does bit tricks are boxed bit-vectors; words
on which it does arithmetic are integers with the reduction modulo 2^32 or 2^64 written out.
Where C joins disjoint bits with `|`, the model adds them. Masks that C keeps as all-ones or
zero words are booleans. The hash modules keep a word as its four bytes, most significant
first. Randomness (guard keys, nonces, blinding factors, IVs), HMAC-SHA512, the compression
function, the cipher and the curve group are parameters; what is required of them is stated
in `ValidSha`, `ValidAead`, `ValidCurve`, `ValidGroup`, `Inverts` and `CheckGuardKey`, and
`SmallestCurve`, `IntegersAreGroup` and `SomeGuardKey` show that the last ones can be met.

Where the code and its comments or documents differ, the model follows the code:

- `bn_fast_mod` asks for a normalised argument, but `bn_addmod` and `bn_mult_k` call it with
  unnormalised limbs; `FastMod` is proved for any nine 32-bit limbs.
- `inverse_mod_power_two` promises a reduced result; for n = 1 the loop does not run and
  2 - a is returned unmasked. `InverseModPowerTwo` states exactly when the result is reduced.
- `update_k` ignores its domain argument when there is no data, and `hmac_drbg_reseed` skips
  its second round when there is no entropy even if there is additional input; `UpdateK` and
  `Reseed` say so.
- `point_multiply` returns 1 for a zero scalar and `scalar_multiply` returns 0.
- A failed in-place attempt of `norcow_set_ex` has already cleared bits of the old value;
  the old item is then deleted, and if the new one does not fit the key is gone.
- `auth_set` promises to keep the storage tag up to date, but when `norcow_set_ex` refuses a
  stored key it has already deleted the entry while the authentication sum still counts it.
  `StepAgrees` says exactly when the sum stays right, `LossHalts` what follows when it does
  not, and `LoseEntry` is a small device on which it happens.

## Model

| member | source | states |
|---|---|---|
| `NorcowLayout.ReadAt` | storage/norcow.c:144-166 | read_item at the offset of the i-th item of a sector returns that item's key and data and the offset of the next one |
| `NorcowLayout.ReadFree` | storage/norcow.c:144-166 | read_item at the free offset finds no item, so scans end exactly there |
| `NorcowLayout.ItemByExample` | storage/norcow.c:72-104 | key and length lie least significant byte first, then the data, then zeros up to a word boundary, by an example |
| `NorcowStore.Le32ByExample` | storage/norcow.c:129-136 | the least significant byte of the magic and version words comes first, by an example |
| `NorcowEdits.HoldsReplace` | storage/norcow.c:434-446 | overwriting one item's bytes with an item of the same length leaves the sector holding the same items with that one replaced |
| `NorcowEdits.HoldsAppend` | storage/norcow.c:171-177 | writing an item's record at the free offset of erased flash leaves the sector holding the items and the new one |
| `NorcowEdits.LiveMap` | storage/norcow.c:258-296 | dropping the deleted items changes nothing in the map that a sector stands for |
| `NorcowEdits.LiveSize` | storage/norcow.c:258-296 | the live items take exactly the sum of the aligned sizes of the map's entries |
| `NorcowStore.Norcow.WriteByte` | storage/norcow.h:68-79 | a flash byte write succeeds exactly when it lies in the sector and turns no bit from 0 to 1, and changes nothing else |
| `NorcowStore.Norcow.Write` | storage/norcow.c:72-104 | a record is written completely (prefix, data or left erased, zero padding) exactly when it fits the sector; otherwise the flash is untouched |
| `NorcowStore.Norcow.EraseSector` | storage/norcow.c:109-137 | erasing keeps the image header, and with magic set leaves an empty marked sector |
| `NorcowStore.Norcow.FindItem` | storage/norcow.c:206-231 | the scan finds the key exactly when the map has it, at the position of its only live item |
| `NorcowStore.Norcow.FindFreeOffset` | storage/norcow.c:236-253 | the scan ends at the end of the last item |
| `NorcowStore.Norcow.Get` | storage/norcow.c:351-353 | returns exactly the map's value for the key |
| `NorcowStore.Norcow.GetNext` | storage/norcow.c:359-403 | passes deleted items only: each call adds the next live entry, new to the map passed so far, and the end comes when the map passed is the whole map |
| `NorcowStore.Norcow.Entries` | storage/norcow.c:359-403 | iterating norcow_get_next lists the entries of the map one to one: keys pairwise different, as many as the map has, each with the map's value, in order |
| `NorcowStore.Norcow.Delete` | storage/norcow.c:486-520 | removes exactly the key from the map; succeeds exactly when it was there; never needs a 0-to-1 bit |
| `NorcowStore.Norcow.UpdateBytes` | storage/norcow.c:550-571 | replaces the bytes exactly when the range lies in the value and no bit must be set; halts exactly when one must, after writing the bytes before it and nothing else |
| `NorcowStore.Norcow.UpdateWord` | storage/norcow.c:526-545 | replaces one aligned word of the value, exactly when the offset is aligned and inside; halts with nothing written exactly when a bit must be set, padding behind the value included |
| `NorcowStore.Norcow.TryInPlace` | storage/norcow.c:434-446 | the in-place attempt succeeds exactly when no bit must be set; when it fails it has written a prefix of the new value and nothing else |
| `NorcowStore.Norcow.CopyLive` | storage/norcow.c:258-291 | copying the live items to an erased sector writes exactly them, in order, and always fits |
| `NorcowStore.Norcow.Compact` | storage/norcow.c:258-296 | compaction keeps the map, drops the deleted items, and leaves the free offset at the start plus the sum of the live sizes |
| `NorcowStore.Norcow.Append` | storage/norcow.c:468-479 | appending a new key, with compaction when the sector is full, succeeds exactly when the live sizes and the new item fit one sector |
| `NorcowStore.Norcow.RewriteFits` | storage/norcow.c:449-479 | a value no longer than the one stored under its key always fits, so rewriting an entry of fixed length never fails |
| `NorcowStore.Norcow.SetEx` | storage/norcow.c:415-481 | succeeds exactly when the other live items and the new one fit one sector, in place or not; then only that key changes; on failure every other key keeps its value and this one is gone |
| `NorcowStore.Norcow.Wipe` | storage/norcow.c:334-346 | leaves the empty map in the active sector |
| `NorcowStore.Norcow.Init` | storage/norcow.c:301-329 | on flash in the steady state recovers the same sector, items and free offset; on blank flash, and on flash written by a newer version, starts empty |
| `NorcowStore.Norcow.Execute` | storage/norcow.c:301-571 | each operation acts on the map as the operation of a plain map of bounded size does, with the same answer, halting updates included |
| `NorcowStore.Norcow.Run` | storage/norcow.c:301-571 | every run of set, get, delete, byte and word updates, iteration and restart answers as a plain map of bounded size does |
| `FlashWords.BytesRoundTrip` | storage/norcow.c:526-545 | a word read back from its four flash bytes, least significant first, is the word |
| `FlashWords.BytesByExample` | storage/norcow.c:526-545 | the least significant byte of a word comes first, by an example |
| `FlashWords.WordClears` | storage/norcow.h:68-79 | the bytes of a word can be programmed over those of another exactly when every bit of the new word is set in the old one |
| `FlashWords.UpdateWord` | storage/norcow.c:526-545 | on an entry of words, norcow_update_word replaces word i exactly when it only clears bits, and halts otherwise with the entry unchanged |
| `HammingWeights.WeightIsCount` | storage/storage.c:841-848 | hamming_weight is the number of set bits of every 32-bit word |
| `PinLogWords.KeyGuards` | storage/storage.c:645-655 | expand_guard_key picks one bit of every pair as guard and places the guard value inside the mask |
| `GuardKeys.GuardBits` | storage/storage.c:645-655 | the lower bit of each pair of the key says which bit of the pair is the guard, and the upper one its value |
| `GuardKeys.GuardKeyMeans` | storage/storage.c:604-632 | check_guard_key passes exactly the keys with the given residue, two of the odd bits of every byte set, and no five consecutive bits equal |
| `PinLogWords.LogWordGuard` | storage/storage.c:871-888 | a log word with k data bits cleared passes the guard check, equals the guard exactly when full and the unused word exactly when k is 0 |
| `PinLogWords.LogWordAdvance` | storage/storage.c:820-836 | the increase turns a log word with k cleared bits into the one with k + 1, and the data bits always have the form 0*1* |
| `PinLogWords.LogWordClears` | storage/storage.c:771-783 | moving a log word forward only clears bits |
| `PinLogWords.LogWordDistance` | storage/storage.c:917-920 | the weight of the difference of two log words is the number of attempts between them |
| `PinLogWords.ShiftedOnesIsRest` | storage/storage.c:681-684 | the first entry word written by pin_logs_init is the log word with that many bits cleared |
| `PinLog.PinLogs.PinLogsInit` | storage/storage.c:657-687 | succeeds exactly for fewer than ten fails and room for the entry, and leaves a log of that many entries and no successes in the flash store |
| `PinLog.PinLogs.Increase` | storage/storage.c:787-839 | adds one entry to the log in the flash store, clearing bits only and touching no other key; fails exactly when all 256 entry bits are used |
| `PinLog.PinLogs.GetFails` | storage/storage.c:850-922 | passes every format check and returns the entries since the last success that the last two words can show; faults exactly when the log is exhausted |
| `PinLog.SeenExact` | storage/storage.c:913-920 | that count is the true number of fails exactly when the last success is no further back than the word before the current one, which the bounds kept by every run guarantee |
| `PinLog.PinLogs.CopyWord` | storage/storage.c:772-783 | one pass of the reset loop makes success word i equal to entry word i, clearing bits only |
| `PinLog.PinLogs.Reset` | storage/storage.c:752-785 | always succeeds and leaves no fails; once the last word is touched the log starts afresh with a new guard key, for which the store always has room; before that only bits are cleared |
| `PinLog.PinLogs.GetPinRem` | storage/storage.c:1459-1469 | the attempts left are ten less the fails |
| `PinLog.PinLogs.Unlock` | storage/storage.c:1053-1177 | compares the PIN exactly when fewer than ten fails are recorded; unlocks exactly when it is compared, right and the version matches, and then no fails remain; wipes exactly when it is not compared or wrong on the tenth fail; every other attempt is one more fail; no fault branch is reached |
| `PinLog.PinLogs.Run` | storage/storage.c:1053-1177 | every run of unlock attempts on the flash store answers as a plain fail counter, and each attempt is answered by its PIN and the fails since the last success; no other key changes |
| `PinLog.RunAnswers` | storage/storage.c:1149-1176 | the counter unlocks exactly the compared attempts with the right PIN and version, wipes on a wrong tenth one and after it, and ends with the fails at the start, or none after the last success, and the comparisons since |
| `PinLog.ComparisonsAreLimited` | storage/storage.h:44-47 | without a success exactly the attempts that the limit of ten leaves are compared, each counted once, and none faults |
| `PinLog.WindowIsLimited` | storage/storage.h:44-47 | in every run, between any two moments with no success in between, exactly the attempts that the limit then leaves are compared, so never more than ten |
| `PinLog.ExhaustedStaysExhausted` | storage/storage.c:1080-1088 | after ten fails no later attempt is compared |
| `TallyCounter.WeightOfTally` | storage/storage.c:1433-1434 | the weight of the complement of a tally word is the number of increments it records |
| `TallyCounter.HalfOfTally` | storage/storage.c:1439-1439 | shifting a tally word right records one more increment and only clears a bit |
| `TallyCounter.NextCount` | storage/storage.c:1422-1438 | finds the tally word with a bit left and the next count; reports exactly the overflow of 32 bits |
| `TallyCounter.Counter.SetCounter` | storage/storage.c:1384-1396 | whatever the key holds, sets the value and no other key, exactly when three words have room; otherwise the entry is gone |
| `TallyCounter.Counter.NextCounter` | storage/storage.c:1398-1443 | for a tally of any length returns one more than the last value, across full tally words and the rewritten entry in the flash store; fails exactly at 2^32 and on a bad length with nothing changed, and when a new entry has no room, which costs the old one |
| `TallyCounter.Counter.OwnEntryHasRoom` | storage/storage.c:1384-1396 | a counter that the program itself wrote always has room to be written again |
| `TallyCounter.Counter.Run` | storage/storage.c:1398-1443 | successive increments return consecutive integers and change no other key |
| `StorageAuth.SumRemove` | storage/storage.c:289-302 | an entry's share can be taken out of the authentication sum, in whatever order the sum was formed |
| `StorageAuth.SumToggle` | storage/storage.c:289-302 | one exclusive or adds the share of a new key and takes away that of a key that goes |
| `StorageAuth.PaddedKey` | storage/storage.c:336-366 | the hand-made block is the padded two-byte key |
| `StorageAuth.KeyMac` | storage/storage.c:364-367 | two compressions with hand-made padding compute HMAC(SAK, key), and the block keeps its padding for the next key |
| `SealedEntries.OpenSealed` | storage/storage.c:1294-1342 | a sealed value is the 12 bytes of the IV, the 16 of the tag and the ciphertext, carries its tag and opens to the plaintext |
| `SealedEntries.SizeOfView` | storage/norcow.c:468-479 | the store takes the sizes of the storage's own entries and, for each entry of the application, that of its plaintext with the overhead of the seal |
| `SealedStorage.Storage.AuthUpdate` | storage/storage.c:289-302 | toggles the key's share in the sum and rewrites the tag, which always finds room |
| `SealedStorage.Storage.AuthSet` | storage/storage.c:308-318 | succeeds exactly when the entry fits; a new key toggles the sum and the tag, a stored one leaves them, and a refused one is gone from the store with sum and tag as they were |
| `SealedStorage.Storage.AuthGet` | storage/storage.c:324-413 | recomputes the sum over all entries of the flash store; faults exactly when the stored tag is not that of this sum, and otherwise returns exactly the stored value |
| `SealedStorage.Storage.WriteBlocks` | storage/storage.c:1315-1334 | the ciphertext written block by block is the encryption of the whole value, and every flash write succeeds |
| `SealedStorage.Storage.SetEncrypted` | storage/storage.c:1294-1342 | succeeds exactly when the length is allowed and the sealed entry fits; then IV, tag and ciphertext lie in the store; a refused new key changes nothing and a refused stored key is lost with the sum unchanged |
| `SealedStorage.Storage.Set` | storage/storage.c:1344-1363 | the same for every key: own entries are refused, public values are stored as they are, and while locked only the keys open for writing are accepted |
| `SealedStorage.Storage.GetEncrypted` | storage/storage.c:1204-1248 | halts exactly when the tag of the running sum differs from that of the entries' sum; otherwise sets the sum right and returns the plaintext last set, exactly when there is one that fits the buffer |
| `SealedStorage.Storage.Get` | storage/storage.c:1259-1287 | the same for every key: public values can be read while locked, protected ones cannot |
| `SealedStorage.Storage.Delete` | storage/storage.c:1365-1382 | removes exactly the key and its share of the sum, while locked only keys open for writing |
| `SealedStorage.Storage.Lock` | storage/storage.c:932-936 | locks and forgets the sum; the flash keeps its tag |
| `SealedStorage.Storage.Restart` | storage/storage.c:720-727 | a power cycle finds the same entries and tag again, with the storage locked and the sum forgotten |
| `SealedStorage.Storage.Unlock` | storage/storage.c:1147-1173 | with the right PIN recomputes the sum from the entries; halts exactly when the tag in the flash is not that of this sum |
| `SealedStorage.Storage.constructor` | storage/storage.c:278-284 | a fresh storage has no entries, the zero sum, and its tag |
| `SealedStorage.Storage.Run` | storage/storage.c:720-1382 | every run of set, get, delete, lock, unlock and restart on the flash store acts as the specification on plaintexts and the sum; one that refuses no stored protected key never halts and answers as a plain map of bounded size with a lock; while locked no entry below key 0xC000 changes and none below 0x8000 is read |
| `SealedStorage.LoseEntry` | storage/storage.c:1294-1305 | on a device with two 64-byte sectors, setting a stored key to a longer value is refused, and after a restart the right PIN halts the device |
| `SealedSpec.StepAgrees` | storage/storage.c:308-318 | from a state with the right sum, an operation keeps it right exactly when it does not refuse a stored protected key for lack of space, or that key's HMAC is zero, and it answers as the plain map with a lock |
| `SealedSpec.RunIsMap` | storage/storage.c:720-1382 | every run, restarts included, that refuses no stored protected key for lack of space keeps the sum right, never halts and answers as a plain map of bounded size with a lock |
| `SealedSpec.LossSkews` | storage/storage.c:308-318 | refusing a stored protected key leaves its HMAC in the sum although the entry is gone |
| `SealedSpec.SkewStays` | storage/storage.c:289-318 | nothing that neither loses more nor calls auth_get sets the sum right again: not writing the lost key anew, not locking, not a restart |
| `SealedSpec.LossHalts` | storage/storage.c:324-413 | after such a loss and any operations, restarts included, that neither lose more nor call auth_get, the next protected read or unlocking halts exactly when the tags of the sum with and without the lost key's HMAC differ |
| `SealedSpec.HaltIsStuck` | storage/storage.c:394-403 | when auth_get halts the device the tag in the flash is not that of the entries |
| `SealedSpec.StuckForever` | storage/storage.c:394-403 | from then on, over every run of operations and restarts, the right PIN always halts the device and no protected entry is read |
| `SealedSpec.Losing` | storage/storage.c:1294-1305 | with room for 36 bytes: a key is set, set again to five bytes and refused, and after a restart unlocking halts, whenever the two tags differ |
| `KeyRules.KeyFlags` | storage/storage.c:270-273 | in bits of the app byte: protected, the application's, and open for writing while locked |
| `KeyRules.LockedRun` | storage/storage.c:1344-1382 | over every run while locked, restarts and wrong PINs included, no entry below key 0xC000 is changed and none below 0x8000 is read |
| `KeyRules.SetAnswer` | storage/storage.c:1344-1363 | in numbers: which keys, lengths, lock and room a write needs, and what it leaves |
| `KeyRules.GetAnswer` | storage/storage.c:1259-1287 | in numbers: which entries a read returns |
| `KeyRules.DeleteAnswer` | storage/storage.c:1365-1382 | in numbers: which entries a deletion removes |
| `KeyRules.LockAnswer` | storage/storage.c:932-936 | locking and restarting close the lock, and only the right PIN opens it |
| `KeyRules.SizeGrows` | storage/norcow.c:72-104 | an entry takes four bytes of prefix, its value and 28 bytes of seal below key 0x8000, up to a word boundary |
| `KeyRules.KeyTagMeans` | storage/storage.c:289-302 | a key contributes the HMAC of its two bytes, the lower one first |
| `KeyRules.StorageTagMeans` | storage/storage.c:289-302 | the stored tag is the first 16 bytes of the HMAC of the sum |
| `Limbs.ValInjective` | crypto/bignum.c:86-102 | a normalised number has only one representation |
| `Limbs.ChainVal` | crypto/bignum.c:1553-1592 | a carry loop conserves the value it is fed |
| `BignumBasic.IsLess` | crypto/bignum.c:248-256 | compares the values |
| `BignumBasic.IsZero` | crypto/bignum.c:228-234 | tests the value for zero |
| `BignumBasic.IsOne` | crypto/bignum.c:238-244 | tests the value for one |
| `BignumBasic.Cmov` | crypto/bignum.c:272-283 | selects one of two numbers, also in place |
| `BignumBasic.LShift` | crypto/bignum.c:372-378 | doubles modulo 2^261 |
| `BignumBasic.RShift` | crypto/bignum.c:385-391 | halves, rounding down |
| `BignumBasic.Add` | crypto/bignum.c:1374-1398 | adds, for sums below 2^261 |
| `BignumBasic.Subtract` | crypto/bignum.c:1553-1592 | subtracts in place or not, and wraps by 2^261 when the result is negative |
| `BignumBasic.Mod` | crypto/bignum.c:514-522 | reduces a number below twice the prime completely |
| `BignumMultiply.FastMod` | crypto/bignum.c:712-801 | reduces any nine 32-bit limbs, normalised or not, to a normalised number below twice the prime in the same class |
| `BignumMultiply.AddMod` | crypto/bignum.c:1404-1415 | adds limb by limb without normalising and still ends normalised, congruent and below twice the prime |
| `BignumMultiply.MultK` | crypto/bignum.c:496-507 | multiplies by k up to 8 without normalising and still ends normalised, congruent and below twice the prime |
| `BignumMultiply.ColumnsAreProduct` | crypto/bignum.c:528-572 | the column sums of the schoolbook method make up the product |
| `BignumMultiply.AddColumn` | crypto/bignum.c:534-571 | one column is accumulated without 64-bit overflow |
| `BignumMultiply.MultiplyLong` | crypto/bignum.c:528-572 | computes the exact product in eighteen limbs |
| `BignumMultiply.ReduceStep` | crypto/bignum.c:579-668 | subtracts floor(res / 2^(256+29d)) * prime * 2^(29d), keeps res below 2 * prime * 2^(29d), and the 64-bit accumulator neither overflows nor underflows |
| `BignumMultiply.Reduce` | crypto/bignum.c:675-693 | nine steps bring any product below 2^519 below twice the prime in the same class |
| `BignumMultiply.Multiply` | crypto/bignum.c:699-706 | for every product below 2^519 the result is normalised, congruent and below twice the prime |
| `BignumPower.BitStep` | crypto/bignum.c:810-845 | squaring and multiplying by one exponent bit keeps the power still to be computed |
| `BignumPower.PowerMod` | crypto/bignum.c:810-845 | computes x^e modulo the prime for every exponent, below twice the prime |
| `BignumInverse.MultHalf` | crypto/bignum.c:439-490 | divides by 2 modulo the odd prime |
| `BignumInverse.InverseModPowerTwo` | crypto/bignum.c:880-901 | inverts every odd word modulo 2^n; the result is reduced exactly when n is at least 2 or the word is 1 |
| `BignumInverse.UnreducedInverse` | crypto/bignum.c:880-901 | inverse_mod_power_two at a = 3 and n = 1 returns an inverse that is not below 2^1 |
| `BignumInverse.DivideBase` | crypto/bignum.c:909-969 | divides by 2^29 modulo the odd prime and keeps the bounds prime and twice the prime |
| `AlmostInverse.StepKeeps` | crypto/bignum.c:1104-1178 | every step keeps u*s + v*r = p, x*s congruent to v*2^k, x*r congruent to -u*2^k, the bounds, and a Bezout pair for u and v |
| `AlmostInverse.EndsInTime` | crypto/bignum.c:1104-1150 | u*v*2^k stays below p*x, so fewer than 512 steps are taken before v is 1 |
| `AlmostInverse.DividedOut` | crypto/bignum.c:1181-1197 | dividing out 2^k leaves the inverse |
| `BignumInverse.Iterate` | crypto/bignum.c:1150-1179 | one constant-time iteration on limbs is one step, and once finished leaves s alone |
| `BignumInverse.AlmostInverseLoop` | crypto/bignum.c:1135-1179 | the 522 fixed iterations end with x*s congruent to 2^k, k being where v reached 1 |
| `BignumInverse.DivideWhole` | crypto/bignum.c:1181-1187 | divides by 2^29 exactly k / 29 times |
| `BignumInverse.DivideRest` | crypto/bignum.c:1189-1195 | divides by 2 exactly k mod 29 times |
| `BignumInverse.InverseFast` | crypto/bignum.c:1099-1203 | returns the fully reduced inverse of every x coprime to the odd modulus, so of every x that is not a multiple when the modulus is prime, and 0 for multiples of it |
| `Gf256.MulComm` | crypto/shamir.c:84-90 | multiplication modulo x^8 + x^4 + x^3 + x + 1 is commutative |
| `Gf256.MulAssoc` | crypto/shamir.c:84-90 | and associative |
| `Gf256.MulAddLeft` | crypto/shamir.c:84-90 | and distributes over addition |
| `Gf256.SqIsSquare` | crypto/shamir.c:199-239 | the freshman's-dream formula is the square |
| `Gf256.Frobenius` | crypto/shamir.c:241-261 | x^256 = x |
| `Gf256.MulInv` | crypto/shamir.c:241-261 | x * x^254 = 1 for every nonzero x, and 0^254 = 0 |
| `GfField.GfIsField` | crypto/shamir.c:84-261 | the operations make up a field of characteristic two with x^254 for the inverse |
| `Fields.NoZeroDivisors` | crypto/shamir.c:305-316 | in a field a product is zero exactly when a factor is |
| `Interpolation.DivideByRoot` | crypto/shamir.c:263-335 | f(t) = f(z) + (t + z) q(t) for every polynomial |
| `Interpolation.DifferencesVanish` | crypto/shamir.c:263-335 | the divided difference of a polynomial of too low a degree is zero |
| `Interpolation.DenominatorZero` | crypto/shamir.c:296-316 | a denominator is zero exactly when its share index occurs twice |
| `Interpolation.SecretAtShare` | crypto/shamir.c:294-303 | at a share index only that share's value is added |
| `Interpolation.InterpolationIsExact` | crypto/shamir.c:288-321 | the accumulated sum is f at the requested point for every polynomial f with at most as many coefficients as shares through all of them |
| `Interpolation.InterpolantFits` | crypto/shamir.c:263-335 | through any shares with distinct indices there is such a polynomial |
| `Shamir.BitSlice` | crypto/shamir.c:43-54 | lane i of the slice is byte i, lanes beyond the length are zero |
| `Shamir.UnBitSlice` | crypto/shamir.c:56-67 | byte i of the result is lane i, other bytes are untouched |
| `Shamir.SetAll` | crypto/shamir.c:69-74 | every lane is the given byte |
| `Shamir.GfAdd` | crypto/shamir.c:79-82 | the sliced sum |
| `Shamir.AddLane` | crypto/shamir.c:79-82 | it adds in every lane |
| `Shamir.GfMul` | crypto/shamir.c:90-197 | the unrolled rounds with rotating words are eight peasant rounds; r may be a |
| `Shamir.MulLane` | crypto/shamir.c:90-197 | they multiply in every lane |
| `Shamir.GfSquare` | crypto/shamir.c:202-239 | the straight-line squaring, also in place |
| `Shamir.SqLane` | crypto/shamir.c:202-239 | it squares every lane |
| `Shamir.GfInv` | crypto/shamir.c:244-261 | the addition chain on slices |
| `Shamir.InvLane` | crypto/shamir.c:244-261 | it raises every lane to the power 254, its inverse |
| `Shamir.UniformZero` | crypto/shamir.c:311-312 | the or of the eight words is zero exactly when the common element of all lanes is |
| `Shamir.AddShare` | crypto/shamir.c:295-321 | one share adds its scaled basis polynomial in every lane, or is refused exactly when its denominator is zero |
| `Shamir.ProductByExample` | crypto/shamir.c:90-163 | the product {57} {83} = {c1} of section 4.2 of FIPS 197, with bytes read as the program reads them |
| `Shamir.ShamirInterpolate` | crypto/shamir.c:263-335 | true exactly when the length is at most 32 and the indices are distinct; then every byte is, at the result index, the value of every polynomial of degree below the share count through that byte of the shares; otherwise the result is untouched |
| `Recoding.DigitsSum` | crypto/ecdsa.c:450-462 | the 64 digits of the offset scalar, all odd and between -15 and 15, add up to it less 2^256 |
| `Recoding.MakeOdd` | crypto/ecdsa.c:428-442 | computes k + 2^256, less the order when k is even, in limbs without wrap-around, and detects k = 0 |
| `ScalarMultiply.NextWindow` | crypto/ecdsa.c:499-511 | the shifts over limb boundaries read exactly the five bits from bit 4i on |
| `ScalarMultiply.OddMultiples` | crypto/ecdsa.c:463-472 | the table holds P, 3P, ..., 15P |
| `ScalarMultiply.PointMultiply` | crypto/ecdsa.c:407-530 | from the top with deferred signs the accumulator ends at k or k less the order; the status is 1 for zero and for scalars not below the order |
| `ScalarMultiply.ShiftFour` | crypto/ecdsa.c:599-604 | shifting the limbs divides by 16 |
| `ScalarMultiply.SignChange` | crypto/ecdsa.c:605-613 | the folded window is even exactly when the sign changes |
| `ScalarMultiply.ScalarMultiply` | crypto/ecdsa.c:537-624 | from the bottom with deferred signs the accumulator ends at k or k less the order; zero is answered with status 0 |
| `ScalarMultiply.CoefficientIsScalar` | crypto/ecdsa.c:407-624 | both results are k modulo the order |
| `Ecdsa.Blinding` | crypto/ecdsa.c:734-742 | multiplying the nonce by a random number before inverting and again after changes nothing |
| `Ecdsa.TryNonce` | crypto/ecdsa.c:702-763 | one pass of the loop yields the signature with s = k^-1 (r d + z), low s and matching recovery byte, a retry, or a bad key |
| `Ecdsa.SignDigest` | crypto/ecdsa.c:679-782 | the answer is that of the first attempt not rejected among 10000, and every earlier one was rejected for its nonce, x-coordinate, a zero s or the filter; the status tells zero digest, key out of range and exhaustion apart; a signature passes the filter and solves the equation |
| `Ecdsa.AttemptOutcome` | crypto/ecdsa.c:702-763 | an attempt is retried exactly when the nonce is out of range, x or x d + z is 0 modulo the order, or the filter refuses the low s, r and recovery byte that solve the signature equation; it blames the key exactly when that is out of range |
| `Ecdsa.SignatureEquation` | crypto/ecdsa.c:702-763 | the emitted r, s and recovery byte satisfy s k = r d + z for the nonce up to sign, whose x-coordinate and parity they record |
| `Ecdsa.VerifyDigest` | crypto/ecdsa.c:1079-1143 | accepts exactly the signatures in range whose reconstructed point has r for its reduced x-coordinate, with the exact status for unreadable keys, zero digests, ranges and the point at infinity |
| `Ecdsa.SignatureVerifies` | crypto/ecdsa.c:679-782 | every emitted signature is accepted under the matching public key |
| `Ecdsa.RecoverPub` | crypto/ecdsa.c:1022-1076 | returns r^-1 (s R - z G) for the point that r and the recovery byte name: exactly the key under which verification reconstructs that point, so for z != 0 a key that accepts the signature, and nothing when there is none |
| `Ecdsa.RecoveryIsExact` | crypto/ecdsa.c:1022-1076 | a key is recovered if and only if verification under it reconstructs the point with the x-coordinate and parity that r and the recovery byte name |
| `Ecdsa.SignatureRecovers` | crypto/ecdsa.c:1022-1076 | the emitted recovery byte leads back to the public key |
| `Ecdsa.SignVerifyRecover` | crypto/ecdsa.c:679-1143 | signing, then verifying and recovering, with the three procedures |
| `Bip32.PrivateCkd` | crypto/bip32.c:207-279 | on an ECDSA curve the first HMAC is that of the private key for an index of at least 2^31 and of the public key below, each further one that of the right half before, and the child adds the first usable left half; a zero key has hardened children only; on another curve hardened children take the left half and others are refused |
| `Bip32.PublicCkd` | crypto/bip32.c:292-329 | the same from the public key, for indices below 2^31 only: the first HMAC output that leads to a point, and its right half as chain code |
| `Bip32.SameAcceptance` | crypto/bip32.c:239-322 | private and public derivation accept the same candidates |
| `Bip32.DeriveBothWays` | crypto/bip32.c:207-329 | the public key of the private child is the public child, with the same chain code, through any number of retries |
| `Bip32.PathsAgree` | crypto/bip32.c:207-352 | and so along every path of non-hardened indices |
| `Bip32Cache.Cache.Clear` | crypto/bip32.c:391-396 | empties the cache |
| `Bip32Cache.Cache.Find` | crypto/bip32.c:422-436 | a hit is what the path derives from the root |
| `Bip32Cache.Cache.CkdCached` | crypto/bip32.c:398-462 | returns the node, status and fingerprint of the derivation without a cache, through changes of root and overwritten slots |
| `Bip32Cache.AnswerAlong` | crypto/bip32.c:398-462 | by the nodes along the path: the fingerprint is that of the last child's parent, and the child is derived from the parent with its public key filled in |
| `Bip32Cache.AnswerOnFailure` | crypto/bip32.c:439-443 | a step that fails on the way ends the call with that node and no fingerprint |
| `Bip32Cache.Cache.Run` | crypto/bip32.c:379-462 | every sequence of calls is answered as if there were no cache |
| `Base58.AlphabetBijection` | crypto/base58.c:31-42 | the two alphabet tables are inverse to each other, and 1 is the digit zero |
| `Base58.AlphabetIs` | crypto/base58.c:31-32 | the digits are the characters of the alphabet in order |
| `Base58.DecodeEncode` | crypto/base58.c:52-186 | decoding inverts encoding for every byte string |
| `Base58.EncodeDecode` | crypto/base58.c:52-186 | every string that decodes is the encoding of what it decodes to |
| `Base58.BufferIsLargeEnough` | crypto/base58.c:156-156 | m * 138 / 100 + 1 base-58 digits hold every m-byte number |
| `Base58.FirstDigitFree` | crypto/base58.c:160-170 | until the last byte the first digit of the buffer stays zero, so the loop that skips it loses nothing |
| `Base58.AddByte` | crypto/base58.c:161-169 | the inner loop multiplies the buffer by 256 and adds the byte, and its final carry is zero |
| `Base58.Convert` | crypto/base58.c:154-170 | the buffer ends up with the value of the bytes |
| `Base58.B58Enc` | crypto/base58.c:148-186 | writes the encoding and a terminator; fails, reporting the size needed, exactly when it does not fit |
| `Base58Decode.FitsExactly` | crypto/base58.c:67-98 | the carry and mask tests detect exactly the numbers that do not fit the buffer |
| `Base58Decode.AddDigit` | crypto/base58.c:86-91 | the inner loop multiplies the words by 58 and adds the digit, and carries out exactly what does not fit |
| `Base58Decode.WriteWords` | crypto/base58.c:100-112 | the bytes written have the value of the words |
| `Base58Decode.B58ToBin` | crypto/base58.c:52-128 | succeeds exactly when the buffer is not empty and the string decodes to no more bytes than it has; those are then its last bytes |
| `Base58Decode.RoundTrip` | crypto/base58.c:52-186 | encoding and decoding on buffers returns every byte string, in every buffer that holds it |
| `Sha256.Context.Update` | crypto/sha2.c:839-895 | appends to the message, whatever the buffer holds |
| `Sha256.Context.Final` | crypto/sha2.c:897-949 | the digest is the compression of the padded message |
| `PaddingLaws.WordSpells` | crypto/sha2.c:931-932 | the four octets of a word spell it, most significant first |
| `PaddingLaws.PadMeans` | crypto/sha2.c:897-932 | section 5.1.1 of FIPS 180-4: the message, 0x80, zeros, and eight octets that spell the length in bits, in the fewest blocks |
| `Sha256.Digest` | crypto/sha2.c:839-949 | however a message is split into updates, the digest is that of the whole |
| `HmacSha256.HmacContext.Final` | crypto/hmac.c:53-60 | the result is the HMAC of everything fed in |
| `HmacSha256.HmacSha256` | crypto/hmac.c:62-68 | HMAC for keys of any length |
| `PaddingLaws.HmacMeans` | crypto/hmac.c:28-60 | section 2 of RFC 2104 in literals: 0x36 and 0x5c over the key, which is hashed first when longer than 64 octets |
| `HmacSha256.Prepare` | crypto/hmac.c:70-102 | the outer and inner state after the padded key |
| `HmacSha256.HmacPrepared` | crypto/hmac.c:70-102 | HMAC of a short message is two compressions from the prepared states with hand-made padding |
| `HmacDrbg.PaddedZero` | crypto/hmac_drbg.c:34-39 | the two words patched into v turn the padding of V into that of V and a zero byte, and back |
| `HmacDrbg.Drbg.UpdateK` | crypto/hmac_drbg.c:28-79 | K becomes HMAC(K, V, domain, data); without data the domain byte is always zero |
| `HmacDrbg.Drbg.UpdateV` | crypto/hmac_drbg.c:81-84 | V becomes HMAC(K, V) |
| `HmacDrbg.Drbg.Reseed` | crypto/hmac_drbg.c:108-115 | with entropy two rounds as in section 3.2 of RFC 6979, without entropy one round whatever the additional input |
| `HmacDrbg.Drbg.constructor` | crypto/hmac_drbg.c:86-106 | K of zeros and V of ones, then the seed: steps b to g of section 3.2 of RFC 6979 for nonempty entropy |
| `HmacDrbg.Drbg.Generate` | crypto/hmac_drbg.c:117-130 | the first bytes of the chain of V, then one update without data |
| `OctetStrings.OctetsOfNumber` | crypto/rfc6979.c:33-42 | writing the number of some octets out again gives the octets |
| `Rfc6979.Init` | crypto/rfc6979.c:30-48 | one conditional subtraction reduces the hash modulo an order of 256 bits, and the generator starts as steps b to g of section 3.2 of RFC 6979 say |
| `Rfc6979.GenerateK` | crypto/rfc6979.c:57-62 | the n-th call returns candidate n of step h of section 3.2 of RFC 6979 and prepares the next one |
| `Rfc6979.Nonces` | crypto/rfc6979.c:30-62 | every run of the generator yields the first candidates of section 3.2 of RFC 6979, in order |
| `Bip173.StepMultiplies` | crypto/segwit_addr.c:27-35 | one step multiplies by x modulo the generator x^6 + 29x^5 + 22x^4 + 20x^3 + 21x^2 + 29x + 18 over the field with 32 elements |
| `Bip173.Charset` | crypto/segwit_addr.c:43-43 | the symbols are the characters of the charset in order |
| `Bip173.Limits` | crypto/segwit_addr.c:56-71 | the human-readable part has up to 83 characters from ! to ~, and lower case is 32 behind upper case |
| `Bip173.EmptyPlain` | crypto/segwit_addr.c:56-90 | the test vector a12uel5l of BIP-173 |
| `Bip173.EmptyModified` | crypto/segwit_addr.c:56-90 | the test vector a1lqfn3a of BIP-350 |
| `Polymod.StepXor` | crypto/segwit_addr.c:27-35 | the checksum step is linear |
| `Polymod.StepInjective` | crypto/segwit_addr.c:27-35 | and injective on 30-bit words |
| `Polymod.OneSymbolDetected` | crypto/segwit_addr.c:27-35 | changing one symbol always changes the checksum |
| `Polymod.ChecksumCloses` | crypto/segwit_addr.c:81-87 | the six checksum symbols bring every state to the final constant |
| `Polymod.ChecksumUnique` | crypto/segwit_addr.c:81-87 | and are the only ones that do |
| `ConvertBits.Regroup` | crypto/segwit_addr.c:155-166 | the loops keep the bits of the input, in order, at any length |
| `ConvertBits.ToSymbols` | crypto/segwit_addr.c:155-175 | from eight to five bits with padding: the bits of the bytes, filled up with zeros |
| `ConvertBits.ToBytes` | crypto/segwit_addr.c:155-175 | from five to eight bits without padding: succeeds exactly on what the other direction produces, and inverts it |
| `ConvertBits.SpreadUnique` | crypto/segwit_addr.c:155-175 | bytes and symbols determine each other |
| `Bech32.Closes` | crypto/segwit_addr.c:81-87 | a string's checksum is accepted exactly when it is the one that encoding writes |
| `Bech32.Encode` | crypto/segwit_addr.c:56-90 | writes the human-readable part, the separator, the data and the checksum; fails exactly on bad characters, symbols or length |
| `Bech32.AcceptsUnique` | crypto/segwit_addr.c:92-153 | an input has at most one decoding |
| `Bech32.Decode` | crypto/segwit_addr.c:92-153 | accepts exactly the inputs of one case that are, in lower case, the encoding of some human-readable part and data, and returns those |
| `Segwit.AddrEncode` | crypto/segwit_addr.c:177-189 | encodes exactly the versions up to 16 with programs of 2 to 40 bytes, 20 or 32 for version 0, with the checksum of the version |
| `Segwit.ProgramRule` | crypto/segwit_addr.c:177-189 | version 0 takes 20 or 32 bytes and the first checksum, versions 1 to 16 take 2 to 40 bytes and the second |
| `Segwit.AddrDecode` | crypto/segwit_addr.c:191-209 | finds the only version and program that the address stands for, or there is none |
| `Segwit.EncodeThenDecode` | crypto/segwit_addr.c:177-209 | decoding inverts encoding for every nonempty lower-case human-readable part |
| `Segwit.DecodeThenEncode` | crypto/segwit_addr.c:177-209 | every accepted address is, in lower case, the encoding of what it decodes to |

## Left out

- Power loss in the middle of an operation: the store does not promise atomicity.
- norcow during a version upgrade: two marked sectors, an older version and version-0 sectors, and key 0x0000.
- unlock before the counter check (legacy PIN formats, wipe code) and key derivation; whether decrypt_dek and the version check succeed is an input of each attempt.
- The effect of storage_wipe, which is empty outside the emulator build.
- SealedStorage.Storage.Unlock: whether the PIN is right is an input, and the version entries are taken to match; the PIN fails that unlocking and handle_fault record, and the wipe that ten of them lead to, are not part of the sealed storage.
- storage_has and storage_get without a buffer, which differ from storage_get in copying nothing.
- Constant-time behaviour, random delays, fault injection and wiping of memory.
- generate_guard_key and the retry loops of BIP-32 are given that an acceptable value exists, since the program loops until it finds one.
- Shamir.GfMul: keeps the words of a2 and r in local variables until the end, because r never is b and a is copied first.
- Ecdsa.SignDigest: reduces completely after every product; the partial reduction of bn_multiply is covered by the limb modules.
- Ecdsa.RecoverPub: decompression of the point is a parameter (square roots are not modelled).
- Affine and Jacobian point formulas, bn_sqrt, bn_cnegate, bn_subtractmod, bn_long_division, bn_format and the byte conversions of bignum.c: they would add easier members.
- Cardano derivation, BIP-32 nodes on ECDSA curves whose key is not below the order, and base58check: thin layers over what is modelled.
- Internals of SHA-256, HMAC-SHA512, ChaCha20-Poly1305 and the coin-specific address formats.
