# Verified model of the Precursor host tools

A Dafny model, with proofs, of the host-side tools and two emulated bus controllers of the Xous repository:

- **AES-GCM-SIV** (`Gf2`, `Field`, `PolyvalHash`, `GcmSiv`): the reference implementation of RFC 8452 used to
  read PDDB images. Carry-less arithmetic on unbounded integers is built up from bits to the laws of products
  modulo the field polynomial, to POLYVAL as a sum of powers, to the mode's round trip.
- **bcrypt** (`Blowfish`, `BcryptImpl`, `BcryptBase64`): the key schedule as implemented, on integers that are
  never masked, simulates 32-bit bcrypt and returns the same 24 bytes; Blowfish is a permutation; the base64
  codec round-trips.
- **PDDB image decoding** (`Murmur`, `MurmurAnswers`, `PageTable`, `Fscb`, `KeyData`, `DictScan`, `Bip39`):
  checksums that detect any change of one word, page tables rebuilt from entries that may conflict, journalled
  replay of free-space updates, reassembly of values over pages, the dictionary scan with its page cache,
  recovery phrases.
- **Flash programming** (`Nor`, `Spinor`, `FlashProgrammer`): the host's loops, through packed command words and
  the controller's FIFOs, down to the bytes of a NOR flash.
- **Gateware re-encryption** (`Bitstream`): bit reversal, the search for IV and ciphertext, and what survives
  re-encryption.
- **Two protocols** (`I2c`, `Uf2`): every run of the emulated I2C master, and the UF2 sender against every
  device behaviour.

`Bits`, `Bytes`, `Words` and `Image` hold what these share. Integers are unbounded; bytes and words are
subranges, and masking is written out where the source masks. AES, CBC, SHA-256, page decryption, text decoding
and the devices are parameters, so each theorem holds for all of them; where a theorem needs a property of one
(CBC decryption inverts encryption, a device acknowledges only what it wrote), the property is a hypothesis.

## Where the code and its promise differ

- `PageTable.NewestCanLose`: a conflict that "evicts" the older page leaves the older page mapped, and the slot
  after it is given the wrong physical page. `PageTable.OwnPageIffOnlyTies` and `PageTable.NewestMappedIff` say,
  from entries and data pages alone, exactly when a slot gets its own page and when the newest page is mapped.
- `KeyData.ValueCanLoseItsEnd`: a value that starts within a page can lose its end, because the number of pages
  read ignores where in the first page the value starts; exactly when is `KeyData.CompleteIff`.
- `DictScan.RereadHidesLoss`: after a page that does not decrypt, the last record of the page before is counted
  again, and all keys may count as found although one was never read. `DictScan.ScanSoundIff` says exactly when
  the shortcut for decrypting does no harm.
- `FlashProgrammer.IdealIffAligned`: only when the start is a multiple of 4096 do the loops, with every flash,
  leave the data, blanks to the end of its last sector, and all else unchanged.
- `I2c.BytesCanStray`: a byte written while no slave is selected is later delivered to the next slave
  addressed. `I2c.DeliveredRightIff` says that this is the only way.
- `I2c.ToldFirstIff`: a slave is told that the transmission is over before it is given its bytes exactly when a
  STOP hands them over; those handed over by a repeated START come first.
- `I2c.TimerIsIdle`: the deferred interrupt sets a status that is not among those evaluated, so it never changes
  the line.
- `Bitstream.SearchCanStray`: an IV that holds a marker misleads the search. `Bitstream.SearchFindsIff` has the
  exact condition, which `Bitstream.DeviceUnambiguousIff` reduces to one on the IV for the device's own header.
- `Uf2.AckCanBeCut`: a correct report that comes in two polls, cut within its address, is taken for a mismatch and
  the block is sent again; exactly when is `Uf2.AckUnderstoodIff`.
- `BcryptBase64.ForeignCanRaise`: a character outside the alphabet ends decoding, but raises as the fourth of its
  group, and the character with code 128, which passes the range test and overruns the table, raises anywhere;
  exactly when is `BcryptBase64.DecodingRaisesIff`. The decoder's bytes are modelled as intended: under Python 3
  its last line, which makes a `bytearray` of a `str`, raises.
- `PageTable.CommitmentEndsDecoding`: a failed key commitment raises a plain `Exception` and not the `ValueError`
  that conflict resolution catches (tools/pddbcommon.py:145-147, 556-566), and so ends the decoding.
  `PageTable.DecodingEndsIff` says exactly when decoding ends in an error.

## Model

| member | source | states |
|---|---|---|
| Gf2.Commutes | tools/rfc8452.py:39-47 | the carry-less product commutes |
| Gf2.Associates | tools/rfc8452.py:39-47 | and associates |
| Gf2.DistributesRight | tools/rfc8452.py:33-47 | and distributes over xor |
| Gf2.DegreeOfProduct | tools/rfc8452.py:39-47 | degrees add, so there are no zero divisors |
| Gf2.Division | tools/rfc8452.py:56-68 | every integer is a carry-less multiple of the modulus, xor its remainder |
| Gf2.RemUnique | tools/rfc8452.py:56-68 | at most one value below the modulus' degree is congruent to a |
| Gf2.RemMul | tools/rfc8452.py:49-49 | a factor may be reduced before multiplying |
| Field.ReduceLoop | tools/rfc8452.py:56-68 | shift-and-subtract terminates for every a and modulus with the remainder, below the modulus' degree and congruent to a |
| Field.MulLoop | tools/rfc8452.py:39-49 | the product modulo the field polynomial, reduced; bits of y from 128 on are not looked at |
| Field.DotLoop | tools/rfc8452.py:52-53 | two products give the reduced dot product |
| Field.MulCommutes | tools/rfc8452.py:39-49 | field product commutes |
| Field.MulAssociates | tools/rfc8452.py:39-49 | field product associates |
| Field.MulDistributes | tools/rfc8452.py:33-49 | field product distributes over addition |
| Field.MulOne | tools/rfc8452.py:39-49 | 1 is its unit on reduced values |
| Field.InverseIsInverse | tools/rfc8452.py:25-30 | the constant _INV times x^128 is 1 |
| Field.DotIsDivision | tools/rfc8452.py:52-53 | dot(a, b) is the one reduced d with d * x^128 = a * b, as section 3 of RFC 8452 defines it |
| Field.DotAssociates | tools/rfc8452.py:52-53 | dot associates |
| Field.DotCommutes | tools/rfc8452.py:52-53 | dot commutes |
| Field.DotDistributes | tools/rfc8452.py:52-53 | dot distributes over addition |
| Field.DotByPower | tools/rfc8452.py:52-53 | dot with x^(128 + n) is a shift by n, reduced |
| Field.DotDoubles | tools/rfc8452.py:25-53 | dot with the literal x^129 doubles every value below 2^127 |
| PolyvalHash.PolyvalLoop | tools/rfc8452.py:71-78 | the iteration S_j = dot(S_(j-1) + X_j, H); bits of H from 128 on are not looked at |
| PolyvalHash.PolyvalIsSum | tools/rfc8452.py:71-78 | POLYVAL is the sum of X_j times H^(s-j+1) under dot, for every input |
| PolyvalHash.PolyvalConcat | tools/rfc8452.py:93-107 | hashing in pieces is hashing the concatenation |
| PolyvalHash.PolyvalReduced | tools/rfc8452.py:125-126 | the hash always fits 16 bytes |
| PolyvalHash.RightPadTo16 | tools/rfc8452.py:101-104 | zero padding to the next multiple of 16 |
| PolyvalHash.BytesToInt | tools/rfc8452.py:117-122 | little-endian value |
| PolyvalHash.PolyvalIuf.constructor | tools/rfc8452.py:85-88 | the hash starts from 0 with the value of the key, of whatever length |
| PolyvalHash.PolyvalIuf.Update | tools/rfc8452.py:93-107 | an update of any length advances the state by the padded blocks of its input, with the low 128 bits of the key |
| PolyvalHash.PolyvalIuf.GetDigest | tools/rfc8452.py:109-114 | nonce xored into the first 12 bytes, top bit cleared; an error for a shorter nonce |
| PolyvalHash.BlocksAreDigits | tools/rfc8452.py:93-107 | the padded blocks of a string are the digits of its little-endian value to the base 2^128, one for every 16 bytes begun |
| PolyvalHash.DigestIs | tools/rfc8452.py:109-114 | as a number the digest is the sum xored with the nonce, modulo 2^127 |
| GcmSiv.KeysByIdentity | tools/rfc8452.py:158-175 | key derivation seen through a cipher that does nothing: counters 0 and 1 give the authentication key, 2 and 3 the encryption key, 4 and 5 more of it for a long key |
| GcmSiv.AesCtr | tools/rfc8452.py:182-199 | byte n is xored with byte n mod 16 of the encrypted counter block n div 16, the counter wrapping at 2^32 |
| GcmSiv.CtrInvolution | tools/rfc8452.py:182-199 | counter mode undoes itself |
| GcmSiv.CounterBlocksRepeat | tools/rfc8452.py:191-191 | two counter blocks are equal exactly 2^32 blocks apart, so never within one message |
| GcmSiv.CounterBlockIs | tools/rfc8452.py:191-191 | as a number block j is the starting block with j added in its low 32 bits |
| GcmSiv.LengthBlockIs | tools/rfc8452.py:222-223 | the last block is 8 times the length of the data plus 2^64 times 8 times that of the plaintext |
| GcmSiv.InitialCounterIs | tools/rfc8452.py:243-244 | counting starts from the tag with bit 127 set |
| GcmSiv.WorkedExample | tools/rfc8452.py:201-245 | ciphertext and tag, byte by byte, of a message and data small enough to work out by hand |
| GcmSiv.PolyvalCalc | tools/rfc8452.py:201-226 | three incremental updates give the digest of one POLYVAL over padded data, padded plaintext and the length block |
| GcmSiv.Encrypt | tools/rfc8452.py:228-245 | encryption as sections 4 and 5 of RFC 8452, and the two size errors |
| GcmSiv.Decrypt | tools/rfc8452.py:247-276 | decryption accepts exactly on equal tags, and the size errors |
| GcmSiv.DecryptInvertsEncrypt | tools/rfc8452.py:228-276 | decrypt(c) = p if and only if encrypt(p) = c, for every key, nonce and data |
| GcmSiv.RoundTrip | tools/rfc8452.py:157-276 | under every key and nonce encryption fails exactly beyond the limits, and every other message decrypts to itself |
| Blowfish.DecipherEncipher | tools/bcrypt.py:527-545 | on 32-bit words the network with its subkeys reversed undoes encipherment |
| Blowfish.EncipherDecipher | tools/bcrypt.py:527-545 | and the other way round, so encipherment is a permutation of word pairs |
| Blowfish.FourthBox | tools/bcrypt.py:541-541 | adding a table to the fourth S-box adds its entry at the lowest octet to the round function |
| Blowfish.ThirdBox | tools/bcrypt.py:541-541 | with the fourth box 0, xoring a table into the third xors its entry at the next octet in |
| Blowfish.SecondBox | tools/bcrypt.py:541-541 | with both 0, adding a table to the second box adds its entry at the octet above |
| Blowfish.FirstBox | tools/bcrypt.py:541-541 | with only the first box left the function is its entry at the top octet |
| Blowfish.OuterKeys | tools/bcrypt.py:532-545 | xoring a word into subkey 0, 1, 16 or 17 is xoring it into one half of the input or of the output |
| Blowfish.StreamBytes | tools/bcrypt.py:448-457 | byte j of word k is byte 4k + j of the data, which starts again at its end |
| Blowfish.MixedBytes | tools/bcrypt.py:512-513 | what a key changes in the 18 subkeys is, as 72 bytes, the key, which starts again at its end |
| Blowfish.ExpandIsOneLoop | tools/bcrypt.py:497-525 | the two filling loops are one over a single table of 1042 words, a pair at a time, each the encipherment of the one before |
| Blowfish.TakingTurns | tools/bcrypt.py:572-574 | password and salt take turns, the password first |
| Blowfish.SetupLaws | tools/bcrypt.py:564-574 | the schedule of cost 0, and one more unit of cost repeats all turns so far |
| Blowfish.OutputHidesText | tools/bcrypt.py:547-589 | deciphered 64 times with the tables of password and salt, the 24 bytes are the text "OrpheanBeholderScryDoubt" |
| BcryptImpl.StreamToWord | tools/bcrypt.py:448-457 | from any position, the next four bytes, big-endian, of the data repeated without end, and the offset after them |
| BcryptImpl.WideRound | tools/bcrypt.py:541-542 | one unmasked round has the low words of one 32-bit round |
| BcryptImpl.BCrypt.EncipherAt | tools/bcrypt.py:527-545 | in place, the low words of the two halves are those of 32-bit encipherment, and nothing else changes |
| BcryptImpl.BCrypt.Key | tools/bcrypt.py:473-495 | low words of P and S become those of the unsalted key schedule |
| BcryptImpl.BCrypt.EksKey | tools/bcrypt.py:497-525 | low words of P and S become those of the salted key schedule |
| BcryptImpl.BCrypt.EncipherMagic | tools/bcrypt.py:576-578 | 64 encipherments of each of the three pairs |
| BcryptImpl.BCrypt.Output | tools/bcrypt.py:580-589 | the 24 bytes are the low words, big-endian |
| BcryptImpl.BCrypt.CryptRaw | tools/bcrypt.py:547-589 | the same bytes as bcrypt on 32-bit words, for every password, salt and number of rounds, and the errors |
| BcryptBase64.EncodeBase64 | tools/bcrypt.py:352-388 | groups of three bytes to four characters, a short last group to fewer; length error |
| BcryptBase64.DecodeBase64 | tools/bcrypt.py:391-445 | decoding up to the limit or the end, stopped or broken by a foreign character |
| BcryptBase64.DecodingRaisesIff | tools/bcrypt.py:339-445 | it raises exactly if a character that is looked up has code 128, or is foreign and the fourth of its group |
| BcryptBase64.ForeignCanRaise | tools/bcrypt.py:339-445 | strings that end decoding and strings that break it |
| BcryptBase64.CodeChar64 | tools/bcrypt.py:313-349 | the two tables are inverse on the alphabet |
| BcryptBase64.Char64Code | tools/bcrypt.py:313-349 | and a character that decodes is the code of its value |
| BcryptBase64.EncodedLength | tools/bcrypt.py:352-388 | n bytes take 4n/3 characters, rounded up |
| BcryptBase64.CodeIsAlphabet | tools/bcrypt.py:313-320 | the code of i is character i of the alphabet spelled out |
| BcryptBase64.GroupIsRadix64 | tools/bcrypt.py:352-388 | a group is the big-endian value of its bytes to the base 64, filled up with zero bits |
| BcryptBase64.RoundTrip | tools/bcrypt.py:352-445 | decoding an encoding gives the bytes back |
| Murmur.Mm3Hash | tools/pddbcommon.py:50-106 | the loop computes the block-wise hash, for every length |
| Murmur.FmixInjective | tools/pddbcommon.py:55-61 | finalization is injective |
| Murmur.BlockInjective | tools/pddbcommon.py:72-85 | the hash is injective in any one aligned block |
| Murmur.TailInjective | tools/pddbcommon.py:88-103 | and in the tail |
| Murmur.SeedInjective | tools/pddbcommon.py:66-85 | and in the seed |
| Murmur.ZeroTail | tools/pddbcommon.py:87-106 | fewer than four zeros leave no trace but their number: they hash as nothing does under the seed xored with it |
| MurmurAnswers.KnownAnswers | tools/pddbcommon.py:50-106 | the published hashes of nothing under seed 1, of four zeros, and of the word 0x87654321 |
| Murmur.PteDetectsWord | tools/pddbcommon.py:489-496 | two valid page-table entries cannot differ in word 0, 1 or 3 only |
| Murmur.SpaceUpdateDetectsWord | tools/pddbcommon.py:690-698 | two valid space updates cannot differ in word 0, 2 or 3 only |
| PageTable.FindMbbb | tools/pddbcommon.py:505-518 | the one page of the buffer that is not blank, nothing if there are none or several |
| PageTable.BufferedIff | tools/pddbcommon.py:505-518 | a page is taken exactly if it is the only one that is not blank |
| PageTable.SlotIs | tools/pddbcommon.py:526-540 | slot i is bytes 16i to 16i + 16 of the region, or those of the buffered page at the same place if its own page is blank |
| PageTable.TakeSlot | tools/pddbcommon.py:541-602 | one entry: skipped, mapped, or resolved against an earlier claim |
| PageTable.DecodeBasis | tools/pddbcommon.py:526-603 | the tables are those of the run over all slots, blank pages replaced from the buffer |
| PageTable.NeverRewritten | tools/pddbcommon.py:546-597 | an address once mapped keeps its page through every later conflict |
| PageTable.AlwaysConsistent | tools/pddbcommon.py:541-602 | after every run v2p is injective and p2v inverts it |
| PageTable.MappedAddresses | tools/pddbcommon.py:543-597 | mapped are exactly the addresses of valid entries |
| PageTable.NextIsSlotLessStalls | tools/pddbcommon.py:561-602 | the page counter is the slot number less the conflicts left by `continue` |
| PageTable.FirstSlotDecides | tools/pddbcommon.py:545-602 | an address is mapped to 4096 times the number of its first slot less the stalls before it |
| PageTable.NoStallsIffOnlyTies | tools/pddbcommon.py:546-602 | the page counter keeps up with the slots exactly if every repeated slot, its own page set against that of the first claim, is a tie |
| PageTable.OwnPageIffOnlyTies | tools/pddbcommon.py:545-602 | an address is mapped to its first slot's own page exactly if all earlier conflicts, told from entries and pages, are ties |
| PageTable.LastWriterWins | tools/pddbcommon.py:560-600 | p2v holds for each page the address of the last slot that recorded it |
| PageTable.NoRepeatsExact | tools/pddbcommon.py:541-602 | without repeated addresses slot i is page i and the tables are inverse to each other |
| PageTable.ConflictKeepsMapping | tools/pddbcommon.py:546-595 | a conflict never changes v2p |
| PageTable.ConflictComparesJournals | tools/pddbcommon.py:567-595 | the outcome of a conflict of readable pages, by their journals; the page mapped before stays mapped |
| PageTable.TieIff | tools/pddbcommon.py:549-595 | a conflict is a tie exactly if there is no data or both pages open with equal journals |
| PageTable.NewestMappedIff | tools/pddbcommon.py:541-602 | after any run an address is mapped to a page with the greatest journal of all claiming it exactly if the first claimant is such a page and no earlier conflict is anything but a tie |
| PageTable.NewestCanLose | tools/pddbcommon.py:587-602 | an image whose newer page is not the one mapped, and whose next slot is misplaced |
| PageTable.DecodingEndsIff | tools/pddbcommon.py:541-590 | decoding ends in an error exactly if some slot is short, or its page and that of the first claim to its address meet in a way that nothing catches |
| PageTable.OnlyTiesDecode | tools/pddbcommon.py:541-602 | whole slots that meet only ties decode, each counted |
| PageTable.CommitmentEndsDecoding | tools/pddbcommon.py:145-147 | two claims to the root page that end the decoding |
| Fscb.FreeSpace.constructor | tools/pddbcommon.py:644-655 | the pool holds the last valid record of each page, filed under that page |
| Fscb.FieldsReadBack | tools/pddbcommon.py:606-638 | a record put together from number, flags, state and journal reads back field by field |
| Fscb.SealedUpdateReads | tools/pddbcommon.py:688-704 | an update sealed for a record is valid and holds that record |
| Fscb.LoadedIsLast | tools/pddbcommon.py:644-655 | a page is tracked exactly if some valid record is for it, and then by the last one |
| Fscb.RecordsAre | tools/pddbcommon.py:650-650 | record i is bytes 4i to 4i + 4 |
| Fscb.FreeSpace.TryReplace | tools/pddbcommon.py:670-682 | a sound update with a greater journal replaces the record of a tracked page; nothing else does anything |
| Fscb.ReplayKeepsNewest | tools/pddbcommon.py:670-682 | after any updates each page holds the record with the greatest journal, the earliest on ties |
| Fscb.NewestUnique | tools/pddbcommon.py:670-682 | and only one record is that |
| Fscb.ReplayKeepsPages | tools/pddbcommon.py:670-682 | the set of tracked pages and the filing of records never change |
| Fscb.OrderDoesNotMatter | tools/pddbcommon.py:754-761 | if equal journals mean equal records, only the set of updates counts |
| Fscb.ReplayRawIsReplay | tools/pddbcommon.py:753-761 | replaying encrypted entries is replaying what they decrypt to, and raises exactly on a partial block |
| Fscb.Classify | tools/pddbcommon.py:713-732 | update pages in order, and the first page of the pool |
| Fscb.PoolStartIsFirst | tools/pddbcommon.py:713-732 | the pool starts at the first page written from its start |
| Fscb.ImageReads | tools/pddbcommon.py:713-761 | an image put together from unused pages, logs and pool pages gives back every update logged, in order, and the first page of the pool |
| Fscb.WrittenImageDecodes | tools/pddbcommon.py:707-763 | decoding such an image replays exactly those updates, in that order, onto the pool stored |
| Fscb.DecodeFscb | tools/pddbcommon.py:707-763 | the pool of the region with all written updates replayed, each update page read to its first blank entry |
| Fscb.DecodedIsNewest | tools/pddbcommon.py:707-763 | the pool of a decoded image tracks the stored pages and holds for each the newest of the stored record and all updates in the image |
| KeyData.ReadValue | tools/pddbcommon.py:185-215 | the loop reads the value page by page, passing over pages that do not decrypt |
| KeyData.ValueOfOpenPages | tools/pddbcommon.py:185-215 | with no visited page unmapped, the value is cut from the joined pages that open, so that bytes after a page that does not move down over the gap |
| KeyData.ValueIsPrefix | tools/pddbcommon.py:185-215 | if its pages open, the value is the prefix of its range that the visited pages reach |
| KeyData.CompleteIff | tools/pddbcommon.py:187-215 | it is the whole range exactly if it is empty or fits the visited pages |
| KeyData.ValueCanLoseItsEnd | tools/pddbcommon.py:187-215 | two bytes on a page boundary of which one is read |
| KeyData.FailsIffUnmapped | tools/pddbcommon.py:191-198 | reading fails exactly if a visited page is unmapped |
| KeyData.CheckDetectsWord | tools/pddbcommon.py:217-225 | two values with right checksums cannot differ in one word of their bodies only |
| KeyData.CheckedPasses | tools/pddbcommon.py:217-225 | a body of any length followed by the hash of its padding passes |
| DictScan.SlotsFitPages | tools/pddbcommon.py:319-345 | pages hold 32 whole slots; address and offset of a slot agree |
| DictScan.SlotsStayInDict | tools/pddbcommon.py:318-319 | all slots tried lie in the dictionary's own addresses |
| DictScan.ParseDescriptor | tools/pddbcommon.py:163-198 | a record laid out from address, length and name is a key of that name with that value, unless its flag is clear or a page of it is unmapped |
| DictScan.ScanTallies | tools/pddbcommon.py:317-361 | in every scan the count is that of the keys among the records visited, and each name has the value of the last key visited under it |
| DictScan.FreshVisits | tools/pddbcommon.py:318-356 | decrypting afresh, every slot of a readable page is visited once, in order, up to the stop |
| DictScan.StepKeepsCache | tools/pddbcommon.py:318-356 | what every state of a scan keeps, and that a step differs from a fresh one only at the last slot of a page that does not decrypt |
| DictScan.CachedScanIsFreshIff | tools/pddbcommon.py:317-356 | from any such state the shortcut gives the same keys, count and visits exactly if no slot up to the stop is the last of such a page |
| DictScan.ScanSoundIff | tools/pddbcommon.py:314-361 | from the header page on: same result, and exactly the readable slots before the stop visited, if and only if no page whose last slot comes before the stop is broken |
| DictScan.BrokenPageRereads | tools/pddbcommon.py:336-356 | whenever a scan comes to a broken page, 31 slots are passed over and the last one rereads the page at hand |
| DictScan.RereadHidesLoss | tools/pddbcommon.py:336-361 | a dictionary in which all keys count as found although one was never read |
| DictScan.ScanKeys | tools/pddbcommon.py:314-361 | the loop is the cached scan and terminates; all keys found or not |
| DictScan.BasisDict | tools/pddbcommon.py:276-367 | valid exactly if the header page opens; keys are those of the scan; whether all were found is left unset for no keys |
| Bip39.Repack | tools/pddbcommon.py:1179-1189 | bytes followed by at most seven left-over bits have the value of the words in base 2048 |
| Bip39.ToBits | tools/pddbcommon.py:1168-1206 | entropy e is returned exactly if the phrase is the BIP-39 mnemonic of e |
| Bip39.PhraseHolds | tools/pddbcommon.py:1191-1206 | the mnemonic of e, and no other words, pack to e and its checksum |
| Bip39.MnemonicValue | tools/pddbcommon.py:1191-1206 | in plain arithmetic the words are, to the base 2048, the entropy times 2^c plus the first c bits of its hash, c a quarter of its length |
| Bip39.LookupLoop | tools/pddbcommon.py:1171-1177 | the indices found are the only ones that spell the phrase |
| Spinor.UnpackPack | tools/usb_update.py:499-506 | the controller reads back every field the host packs, cut to its width |
| Spinor.PackSum | tools/usb_update.py:499-506 | fields within their widths add up, each times its own power of two |
| Spinor.PackedCommands | tools/usb_update.py:499-506 | the command words of write enable, of a status reading and of programming a page |
| Spinor.Controller.WriteTx | emulation/peripherals/BetrustedSpinor.cs:151-155 | a word enters the FIFO low byte first |
| Spinor.Controller.ReadRx | emulation/peripherals/BetrustedSpinor.cs:157-177 | up to four bytes leave the FIFO, first byte lowest |
| Spinor.Controller.WriteCommand | emulation/peripherals/BetrustedSpinor.cs:41-107 | the frame the chip receives, what is taken from one FIFO and what enters the other |
| FlashProgrammer.BurstWrite | tools/usb_update.py:459-493 | all bytes reach the FIFO in order, whatever the packets |
| FlashProgrammer.WriteEnable | tools/usb_update.py:678-682 | repeated until it shows: whatever was under way is then over and the chip is enabled, after any latency |
| FlashProgrammer.WaitReady | tools/usb_update.py:690-691 | the chip is no longer busy |
| FlashProgrammer.EraseAt | tools/usb_update.py:541-551 | the command erases the aligned sector or block around its address |
| FlashProgrammer.ProgramAt | tools/usb_update.py:553-557 | the command programs the chunk waiting in the FIFO |
| FlashProgrammer.ErasesAligned | tools/usb_update.py:671-688 | from an aligned start every erase is aligned to its own size and within the region |
| FlashProgrammer.EraseRegionAt | tools/usb_update.py:596-641 | for every start, exactly as many sectors as the length takes are erased, from the sector the start lies in; a chip with another ID is left alone |
| FlashProgrammer.AlignedIsIdeal | tools/usb_update.py:668-728 | from an aligned start: the data, 0xFF to the end of its last sector, all else unchanged |
| FlashProgrammer.IdealIffAligned | tools/usb_update.py:668-728 | and for every flash only from an aligned start |
| FlashProgrammer.FlashProgram | tools/usb_update.py:648-732 | the commands issued, decoded and applied to a chip that ignores commands while busy, have that outcome; out-of-bounds data and another ID are refused |
| Bitstream.BitflipLoop | tools/usb_update.py:768-779 | every word is reversed; a partial last word becomes a whole one |
| Bitstream.BitflipInvolution | tools/encrypt-bitstream.py:188-199 | reversal undoes itself exactly on whole words |
| Bitstream.BitflipConcat | tools/encrypt-bitstream.py:188-199 | reversal distributes over word-aligned concatenation |
| Bitstream.BitflipLength | tools/encrypt-bitstream.py:188-199 | length rounded up to whole words |
| Bitstream.FlipBit | tools/usb_update.py:775-777 | bit i of the reversed word is bit 31 - i of the word |
| Bitstream.FlipEnds | tools/usb_update.py:775-777 | the top bit of the first byte is the low bit of the last, and the other way round |
| Bitstream.XorBytesLoop | tools/usb_update.py:782-789 | bytewise xor |
| Bitstream.Search | tools/usb_update.py:815-823 | the first ciphertext marker, and the last IV marker before it |
| Bitstream.SearchFindsIff | tools/usb_update.py:815-863 | the search finds what was written exactly if header and IV hold no stray marker |
| Bitstream.SearchCanStray | tools/usb_update.py:815-863 | an IV, in an image for the device, within which the search stops |
| Bitstream.DeviceUnambiguousIff | tools/usb_update.py:842-863 | with the device's header that is so exactly if the reversed IV holds neither marker |
| Bitstream.ParseWritten | tools/usb_update.py:815-833 | reading back recovers IV, ciphertext and postamble |
| Bitstream.HashedInPieces | tools/usb_update.py:878-884 | the first hash is fed the reversal of one prefix, 16 bytes at a time |
| Bitstream.PlaintextKeeps | tools/usb_update.py:865-904 | the rebuilt plaintext has the old length and the old body |
| Bitstream.CoveredIsShort | tools/usb_update.py:881-881 | of whole 16-byte pieces all but the last 320 bytes are hashed |
| Bitstream.PlaintextAuthentic | tools/usb_update.py:865-904 | the rebuilt plaintext authenticates: both keys unmask to the new one, and the hash at its end is that of the two footers as they stand there and of the hash of what they cover |
| Bitstream.ReencryptionKeepsBody | tools/usb_update.py:800-920 | the new image has the new IV, a ciphertext of the same length, the same postamble and, decrypted with the new key, the same body, and it authenticates under the new key |
| Bitstream.EncryptToEfuse | tools/usb_update.py:800-920 | the image returned, and exactly when none is, by lengths of the input's parts |
| I2c.I2cMaster.UpdateInterrupts | emulation/peripherals/BetrustedEcI2C.cs:203-227 | the status latches and the line follows |
| I2c.I2cMaster.SendDataToSlave | emulation/peripherals/BetrustedEcI2C.cs:284-294 | the whole queue goes to the selected slave in one call, or nothing happens |
| I2c.I2cMaster.FinishTransmission | emulation/peripherals/BetrustedEcI2C.cs:94-96 | the selected slave, if any, is told that the transmission is over |
| I2c.I2cMaster.HandleWriteToSlave | emulation/peripherals/BetrustedEcI2C.cs:296-307 | a byte is queued only within a transaction |
| I2c.I2cMaster.HandleReadFromSlave | emulation/peripherals/BetrustedEcI2C.cs:251-282 | the slave's answer queues up and its first byte is read |
| I2c.I2cMaster.HandleStart | emulation/peripherals/BetrustedEcI2C.cs:80-102 | a repeated START delivers first, then the slave is chosen |
| I2c.I2cMaster.WriteCommand | emulation/peripherals/BetrustedEcI2C.cs:65-144 | the register's whole effect is one step of the model |
| I2c.I2cMaster.WritePending | emulation/peripherals/BetrustedEcI2C.cs:152-157 | pending events are cleared |
| I2c.I2cMaster.WriteEnable | emulation/peripherals/BetrustedEcI2C.cs:159-164 | events are enabled |
| I2c.I2cMaster.FinishTransaction | emulation/peripherals/BetrustedEcI2C.cs:171-183 | the deferred interrupt |
| I2c.I2cMaster.DoReset | emulation/peripherals/BetrustedEcI2C.cs:185-191 | registers and queues are cleared, the transaction is not |
| I2c.LineAlwaysFollows | emulation/peripherals/BetrustedEcI2C.cs:203-227 | in every run the line is on exactly if some event is pending and enabled |
| I2c.AlwaysSettled | emulation/peripherals/BetrustedEcI2C.cs:152-164 | in every run evaluating the interrupts once more changes nothing, so callbacks on changed bits only do as well as callbacks on every write |
| I2c.TimerIsIdle | emulation/peripherals/BetrustedEcI2C.cs:171-183 | in every run the deferred interrupt changes neither line nor bus |
| I2c.ReadsInOrder | emulation/peripherals/BetrustedEcI2C.cs:251-282 | reads in a row show the slave's bytes in order, and what is not yet shown is what is queued |
| I2c.NackTells | emulation/peripherals/BetrustedEcI2C.cs:237-249 | in every run without reset the acknowledge flag is negated exactly if the last START found no slave |
| I2c.RunSound | emulation/peripherals/BetrustedEcI2C.cs:65-144 | in every run without reset the bytes queued are those delivered and then those waiting, in order, and a byte queued for a slave goes to that slave under the same START |
| I2c.RunOrderly | emulation/peripherals/BetrustedEcI2C.cs:65-144 | in every run, resets included, bytes are handed over at most once for each START, in the order of STARTs, to the slave it selected, and not before its transfer ends |
| I2c.RunStray | emulation/peripherals/BetrustedEcI2C.cs:65-144 | whether a byte queued for no slave is delivered can be told from the guards met by the operations |
| I2c.DeliveredRightIff | emulation/peripherals/BetrustedEcI2C.cs:65-144 | delivered bytes all reach the slave they were queued for exactly if no write accepted with no slave selected is followed by a command that hands over |
| I2c.EveryBatchArrives | emulation/peripherals/BetrustedEcI2C.cs:65-144 | if every START names a registered slave: bytes arrive in order; each START has at most one batch, all that was queued under it, for its slave; after STOP nothing waits and every START with bytes has its batch |
| I2c.ToldFirstIff | emulation/peripherals/BetrustedEcI2C.cs:80-140 | in every run, resets included, some slave is told of the end of a START's transmission before its bytes exactly if some STOP hands over bytes |
| I2c.BytesCanStray | emulation/peripherals/BetrustedEcI2C.cs:80-140 | a run in which a byte goes astray, and its slave is told of the end first |
| Uf2.ParseFields | bao1x-boot/uf2send.py:49-89 | a block laid out with its magic numbers and fields reads back address, size, number and data |
| Uf2.ParseRefuses | bao1x-boot/uf2send.py:66-74 | and a block is refused exactly if it is not 512 bytes with both magic numbers |
| Uf2.WaitForResponse | bao1x-boot/uf2send.py:92-140 | success exactly if the first report in the earliest text that has one is the expected one |
| Uf2.OpeningMatches | bao1x-boot/uf2send.py:120-123 | a line with a report, whole or cut within its address, matches with the digits that are there |
| Uf2.OpeningIsQuiet | bao1x-boot/uf2send.py:120-121 | and does not match before the first of them |
| Uf2.HeardInPolls | bao1x-boot/uf2send.py:108-132 | what is heard of a report, all or the beginning of it, however it is divided into polls |
| Uf2.AckUnderstoodIff | bao1x-boot/uf2send.py:108-132 | it is heard as sent exactly if the poll with the first digit of the address brings all of them, or the address is 0 |
| Uf2.AckCanBeCut | bao1x-boot/uf2send.py:108-132 | a correct report heard as another |
| Uf2.SendBlock | bao1x-boot/uf2send.py:143-194 | success at the first acknowledged attempt, failure after all of them, and nothing else sent |
| Uf2.SendFile | bao1x-boot/uf2send.py:264-318 | every block examined is counted once, sends and retries add up, no block is sent too often, and sending stops with the failure that reaches the limit |
| Uf2.SuccessMeansWritten | bao1x-boot/uf2send.py:264-318 | if what is heard names a block only after such a block was written, and blocks are distinguishable, a run without failures wrote every block |
| Uf2.TruthfulIsHonest | bao1x-boot/uf2send.py:108-132 | so it is with every device that prints reports only of blocks it wrote, however its text is divided and cut, if no block's address cut short is another's |

## Left out

- AES, CBC, SHA-256, HKDF, key wrapping: parameters of the theorems; the AES call without a mode in tools/rfc8452.py:239 is taken as ECB, as the one in line 264.
- Field.InverseIsInverse: the only inverse proved is that of x^128; that the field polynomial is irreducible, so that every element but 0 has one, is not.
- The literal Blowfish tables and the BIP-39 word list: the theorems hold for all tables and for all lists of 2048 different words.
- `hashpw`, `gensalt` and `checkpw` of tools/bcrypt.py: string formatting around `crypt_raw` and the codec.
- The outer loop of `decode_pagetable` over bases, `extract_keys`, `Basis` and all printing: each basis is decoded alone.
- Murmur.PteDetectsWord: says nothing of word 2, the nonce, which is both hashed and the seed; the same goes for word 1 in Murmur.SpaceUpdateDetectsWord.
- KeyData.ReadValue: a page that decrypts has 4068 bytes of plaintext, as a whole page does; images cut off within a page are not covered.
- The patch mode, frame dump and file output of tools/encrypt-bitstream.py: the re-encryption without patches is that of `encrypt_to_efuse`.
- FlashProgrammer.BurstWrite: data of odd length, which the callers never pass, has no counterpart in 16-bit words.
- FlashProgrammer.FlashProgram: the two words of the chip's ID are a parameter; the security register, disabling writes again and reading back are left out.
- `burst_read` and the read-back of tools/usb_update.py: packets of a read, with nothing to prove beyond their concatenation.
- The switch of the chip to its eight-line mode (emulation/peripherals/BetrustedSpinor.cs:208-246): the chip of the model is in that mode.
- I2c.I2cMaster.WriteCommand: logging and the clock source are left out; register fields follow Renode's rule that a write callback runs on every write.
- Uf2.WaitForResponse: time is a finite sequence of polls, and the pattern a parameter; in `Uf2.SearchLine`, which is the pattern written out, text is ASCII.
- The emulated SoC I2C controller and the copies of the flash code in tools/backup.py and tools/restore.py: near copies.
- The Rust sources of kernel, services and applications are not part of this model.
