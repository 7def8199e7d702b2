# steam_api core in Dafny

This project models the pure logic of the `steam_api` Rust crate, a client for the Steam Web API, and proves properties of it. The crate has two layouts. The older one is the crate-root modules: `steam_id.rs`, `steam_id_friend_code.rs`, `player_bans.rs` and the rest. The newer one is the `src/model/**` tree. Logic they share is modelled once; each divergence has its own function and a lemma saying how the two differ.

What is modelled:

- **Steam ids.** A `SteamId` is a `u64` split into the fields of Valve's SteamID layout: `Y`, account number, instance, account type and universe. On top of them sit `W`, the `STEAM_X:Y:Z` and `[L:1:W]` text forms, the account-type and universe tables, and decimal parsing and printing. Serde's string-or-integer visitor is modelled too (`SteamIds`, `SteamIdLegacy`, `AccountTypes`, `Universes`, `Decimal`).
- **Friend codes.** The least-significant-first chunk iterators `ChunksU4/U5/U6` (`BitChunks`). The 32-symbol alphabet. The dashed base-32 form of a byte-swapped word. The accumulator that interleaves nibbles with digest bits, and the decoder (`FriendCodes`, `FriendCodeLegacy`, `ByteOrder`).
- **The HTTP client.** The `ClientOptions` builder, the normalisation `build` performs, the `get_json` retry loop over a sequence of attempt outcomes with its shared retry counter, and session-id extraction from a cookie header (`Clients`).
- **Endpoint rules:**
  - id batches: limit, sort and dedup versus rejecting duplicates, joining (`Batches`, `BatchesLegacy`, `SteamIdExt`);
  - merging responses into maps (`Maps`, `PlayerBans`, `PlayerSummaries`, `PlayerFriends` and their legacy copies);
  - enum decoders (`PersonaStates`, `VisibilityStates`, `EconomyBans`, `ProfileStates`, `LegacyEnums`);
  - vanity-URL resolution (`VanityUrls`);
  - the legacy friends retry loop (`PlayerFriendsLegacy`);
  - user search: page-number normalisation, profile-URL and avatar rewriting, alias filtering, and the order of checks (`UserSearch`, `UserSearchHtml`, `UserSearchLegacy`).

Machine integers are bounded naturals: `u8`, `u32` and `u64` in module `Bits`, with `i32` and `i64` as bounded integers. Bitwise `&` and `|` are defined bit by bit. `>>` is division by a power of two and `<<` is multiplication modulo the word size. Lemmas in `Bits` turn masks and shifts into `%`, `/` and `+`.

Network access is a parameter `net: nat -> Attempt<T>` that says how attempt number `k` goes. MD5 is a parameter `md5: Digest`, a function from the hashed word to the digest word; examples instead put `requires` on the digest values they need.

## Model

| member | source | states |
|---|---|---|
| `AccountTypes.TryFrom` | src/model/primitives/account_type.rs:19-37 | a code decodes exactly when it is at most 10, to the variant whose `as_u64` is that code; any other code fails with `Unknown(code)` |
| `AccountTypes.TryFromAsU64` | src/model/primitives/account_type.rs:19-68 | `try_from(t.as_u64())` gives `t` back for every account type |
| `AccountTypes.LetterDeterminesType` | src/model/primitives/account_type.rs:40-53 | two account types with the same letter are the same type |
| `AccountTypes.FromLetter` | src/model/primitives/account_type.rs:40-53 | the inverse of `to_letter`: a found type has the letter, and no type has a letter that is not found |
| `Universes.TryFrom` | src/model/primitives/universe.rs:14-27 | a code decodes exactly when it is at most 5, to the universe whose `as_u64` is that code; otherwise `Unknown(code)` |
| `Universes.TryFromAsU64` | src/model/primitives/universe.rs:14-39 | `try_from(u.as_u64())` gives `u` back for every universe |
| `PersonaStates.TryFrom` | src/model/primitives/persona_state.rs:19-34 | an `i64` decodes exactly when it is in 0..=7, to the state with that discriminant; otherwise `Unknown(value)` |
| `PersonaStates.TryFromCode` | src/model/primitives/persona_state.rs:8-34 | every state's discriminant decodes to that state |
| `PersonaStates.Deserialize` | src/model/primitives/persona_state.rs:45-68 | a JSON integer is accepted exactly when its value is in 0..=7 and gives the state with that discriminant; a rejection is `invalid_value` reporting the value as signed, or as unsigned when it does not fit `i64` |
| `PersonaStates.UnsignedAsSigned` | src/model/primitives/persona_state.rs:52-59 | a `u64` that fits `i64` is decoded exactly as the same signed value |
| `PersonaStates.DeserializeAll` | src/model/primitives/persona_state.rs:78-100 | the list 0..7 decodes to the eight states in declaration order |
| `VisibilityStates.TryFrom` | src/model/primitives/community_visibility_state.rs:14-24 | an `i64` decodes exactly when it is in 1..=3, to the state with that discriminant; otherwise `Unknown(value)` |
| `VisibilityStates.TryFromCode` | src/model/primitives/community_visibility_state.rs:8-24 | every state's discriminant decodes to that state |
| `VisibilityStates.Deserialize` | src/model/primitives/community_visibility_state.rs:35-58 | a JSON integer is accepted exactly when its value is in 1..=3; a rejection is `invalid_value` with the reported value |
| `VisibilityStates.UnsignedAsSigned` | src/model/primitives/community_visibility_state.rs:42-49 | a `u64` that fits `i64` is decoded exactly as the same signed value |
| `VisibilityStates.DeserializeAll` | src/model/primitives/community_visibility_state.rs:68-85 | `[1, 2, 3]` decodes to private, friends-only, public |
| `EconomyBans.TryFrom` | src/model/primitives/economy_ban.rs:14-24 | exactly the words `none`, `probation` and `banned` decode, each to its variant; anything else is `Unknown(text)` |
| `EconomyBans.TryFromWord` | src/model/primitives/economy_ban.rs:8-24 | each variant's word decodes to that variant |
| `EconomyBans.CaseMatters` | src/model/primitives/economy_ban.rs:17-21 | the match is exact: capitalised or padded words are rejected |
| `EconomyBans.VisitStr` | src/model/primitives/economy_ban.rs:35-40 | the string visitor accepts what `try_from` accepts, with the same variant, and otherwise reports `invalid_value(Str(text))` |
| `EconomyBans.DeserializeAll` | src/model/primitives/economy_ban.rs:59-76 | the fixture's three words decode to none, probation, banned |
| `ProfileStates.Deserialize` | src/model/primitives/profile_state.rs:19-57 | an absent value is `NotConfigured`, the integer 1 is `Configured`, and any other integer is an `invalid_value` error reporting it |
| `ProfileStates.ConfiguredIffPresent` | src/model/primitives/profile_state.rs:19-40 | a successfully decoded state is `Configured` exactly when a value was present |
| `ProfileStates.Examples` | src/model/primitives/profile_state.rs:67-95 | `1` decodes to `Configured` and a missing field to `NotConfigured` |
| `LegacyEnums.PersonaFrom` | src/enums.rs:13-28 | an `i32` in 0..=7 decodes to the state with that discriminant; anything else fails with `"invalid persona state"` |
| `LegacyEnums.VisibilityFrom` | src/enums.rs:37-47 | an `i32` in 1..=3 decodes to the state with that discriminant; anything else fails with `"invalid community visibility state"` |
| `LegacyEnums.DecodersAgree` | src/enums.rs:13-47 | on every `i32` the legacy decoders accept and reject the same values, with the same states, as the newer `i64` decoders |
| `LegacyEnums.DecodeCodes` | src/enums.rs:2-47 | every state's discriminant decodes to that state |
| `BitChunks.NextStep` | src/util/bit_chunks.rs:17-24 | one `next` in arithmetic terms: the mask takes the value modulo `2^CHUNK_BITS`, which fits a `u8`, and the shift takes the quotient |
| `BitChunks.NextShrinks` | src/util/bit_chunks.rs:17-24 | `next` on a non-zero value leaves a strictly smaller one, so iteration ends |
| `BitChunks.YieldedLength` | src/util/bit_chunks.rs:25-29 | `size_hint` is exact: iterating to the first `None` yields exactly `div_ceil(significant bits, CHUNK_BITS)` chunks |
| `BitChunks.YieldedAtMostMaxChunks` | src/util/bit_chunks.rs:12 | no `u64` yields more than `MAX_CHUNKS` chunks |
| `BitChunks.ReassembleYielded` | src/util/bit_chunks.rs:17-24 | the yielded chunks, least significant first, add back up to the value |
| `BitChunks.LastChunkNonZero` | src/util/bit_chunks.rs:18-21 | for a non-zero value the last chunk yielded is non-zero: no high zero chunks are produced |
| `BitChunks.YieldedNth` | src/util/bit_chunks.rs:17-24 | the `i`-th call of `next` returns the `i`-th yielded chunk |
| `BitChunks.NthChunk` | src/util/bit_chunks.rs:17-24 | the `k`-th call of `next`, read with `unwrap_or(0)`, is `(v >> k*CHUNK_BITS) & CHUNK_MASK`, and from `MAX_CHUNKS` on it is `None` |
| `BitChunks.MaxChunksValues` | src/util/bit_chunks.rs:12 | `MAX_CHUNKS` is 16, 13 and 11 for the 4-, 5- and 6-bit iterators |
| `BitChunks.MaxChunksCover` | src/util/bit_chunks.rs:12 | `MAX_CHUNKS` chunks are the fewest that cover 64 bits |
| `BitChunks.ChunksOfFfff` | src/util/bit_chunks.rs:55-57 | `0xFFFF` yields `F,F,F,F`, `1F,1F,1F,01` and `3F,3F,0F` for the three widths |
| `BitChunks.PulledIsLowDigits` | src/util/bit_chunks.rs:17-24 | pulling `m` chunks with `unwrap_or(0)` gives the low `m` digits of the value in base `2^CHUNK_BITS` |
| `ByteOrder.SwapBytes` | src/model/steam_id/friend_code.rs:44 | `swap_bytes` reverses the eight bytes of a `u64` |
| `ByteOrder.SwapSwap` | src/model/steam_id/friend_code.rs:44 | swapping the bytes twice gives the value back |
| `ByteOrder.BytesDetermine` | src/model/steam_id/friend_code.rs:44 | the eight bytes, most significant first, denote the value |
| `FriendCodes.ToSymbol` | src/model/steam_id/friend_code.rs:10-18 | an index has a symbol exactly when it is below 32 |
| `FriendCodes.SymbolsSpellAlphabet` | src/model/steam_id/friend_code.rs:10-18 | index `i` below 32 is spelled by the `i`-th letter of `ABCDEFGHJKLMNPQRSTUVWXYZ23456789` |
| `FriendCodes.FromSymbol` | src/model/steam_id/friend_code.rs:20-28 | a decoded symbol is the one `to_symbol` writes for that index, and a rejected byte is written by no index |
| `FriendCodes.FromSymbolAccepts` | src/model/steam_id/friend_code.rs:20-28 | `from_symbol` accepts exactly the 32 bytes of the alphabet |
| `FriendCodes.SymbolBijection` | src/model/steam_id/friend_code.rs:164-178 | `to_symbol(i) == Some(c)` exactly when `from_symbol(c) == Some(i)` |
| `FriendCodes.SymbolRejects` | src/model/steam_id/friend_code.rs:173-177 | `I`, `O`, `0`, `1` and `-` decode to nothing and indices from 32 on have no symbol |
| `FriendCodes.EncodeU64` | src/model/steam_id/friend_code.rs:30-43 | the encoder never fails and writes the 15-byte dashed spelling of the byte-swapped number |
| `FriendCodes.SpelledLayout` | src/model/steam_id/friend_code.rs:34-40 | positions 4 and 10 hold `-` and every other position holds the alphabet symbol of the next 5-bit chunk of the swapped number |
| `FriendCodes.DecodeU64` | src/model/steam_id/friend_code.rs:45-63 | decoding succeeds exactly when every position it reads holds a symbol; the result is the byte-swapped value of the 13 digits read, least significant first, truncated to 64 bits |
| `FriendCodes.DecodeEncode` | src/model/steam_id/friend_code.rs:30-63 | with the second skip at index 9, decoding the encoding of any `u64` gives it back |
| `FriendCodes.DecodeAsWrittenRejectsEncoded` | src/model/steam_id/friend_code.rs:50-54 | with the second skip at index 10, as written, decoding the encoding of ANY `u64` fails, because the read at index 9 lands on the dash |
| `FriendCodes.ChunksValue` | src/model/steam_id/friend_code.rs:31-38 | the 13 five-bit chunks of a `u64` denote it again |
| `FriendCodes.Join32` | src/model/steam_id/friend_code.rs:6-8 | `u32x2_to_u64(low, high)` is `high * 2^32 + low` |
| `FriendCodes.FriendAccValue` | src/model/steam_id/friend_code.rs:76-86 | the accumulator is the base-32 number whose digits, most significant first, are `2 * nibble + hash bit` for the id's low eight nibbles and the hash's low eight bits |
| `FriendCodes.FriendAccDigits` | src/model/steam_id/friend_code.rs:76-86 | the accumulator is below `2^40` and its eight base-32 digits are those groups |
| `FriendCodes.AccPrefix` | src/model/steam_id/friend_code.rs:88-89 | the encoding of any accumulator starts with `AAAA-`, so stripping the prefix never fails |
| `FriendCodes.ToFriendCode` | src/model/steam_id/friend_code.rs:76-92 | the code always exists and is the spelling of the swapped accumulator without its first five bytes |
| `FriendCodes.FriendCodeShape` | src/model/steam_id/friend_code.rs:76-92 | every friend code is ten bytes, a dash at position 5 and alphabet symbols elsewhere |
| `FriendCodes.HashInput` | src/model/steam_id/friend_code.rs:66-71 | the hashed word is `CSGO` in the high four bytes over the id's low 32 bits |
| `FriendCodes.FillerBytes` | src/model/steam_id/friend_code.rs:68 | `FILLER` is the big-endian bytes `C S G O 0 0 0 0` |
| `FriendCodes.FriendCode` | src/model/steam_id/friend_code.rs:66-92 | `to_friend_code` with the digest taken of the filler and the low word |
| `FriendCodes.FriendCodeOfLowWord` | src/model/steam_id/friend_code.rs:66-92 | two ids with the same low 32 bits get the same friend code |
| `FriendCodes.NibbleOfChunk` | src/model/steam_id/friend_code.rs:111-113 | `(chunk & 0b11110) >> 1` is the chunk halved, modulo 16 |
| `FriendCodes.IdOfDecoded` | src/model/steam_id/friend_code.rs:107-117 | the rebuilt id has universe 1, type 1 and instance 1, with the nibbles read back in its low word |
| `FriendCodes.DefaultFields` | src/model/steam_id/friend_code.rs:95-115 | or-ing a low word into `DEFAULT_STEAM_ID` adds it and sets universe, type and instance to 1 |
| `FriendCodes.FromFriendCode` | src/model/steam_id/friend_code.rs:94-118 | `None` exactly when the code is not ten bytes or `AAAA-` plus the code does not decode; a result is always in the public universe, individual type, instance 1 |
| `FriendCodes.FriendCodeRoundTrip` | src/model/steam_id/friend_code.rs:76-118 | with the skip at index 9, decoding an id's friend code gives its low word over the default id |
| `FriendCodes.FromFriendCodeAsWritten` | src/model/steam_id/friend_code.rs:50-54 | with the skip at index 10, as written, no ten-byte code with a dash in the middle decodes |
| `FriendCodes.FriendCodeAsWrittenRejectsEncoded` | src/model/steam_id/friend_code.rs:50-118 | as written, `from_friend_code` rejects every code `to_friend_code` produces |
| `FriendCodes.FriendCodeExample` | src/model/steam_id/friend_code.rs:126-140 | with digest word `0x890c9498`, 76561197960287930 encodes as `SUCVS-FADA`, which the corrected decoder turns back into the id and the decoder as written rejects |
| `FriendCodeLegacy.ToSymbol` | src/steam_id_friend_code.rs:19-27 | the `char` version writes the same symbol as the byte version for every index |
| `FriendCodeLegacy.FromSymbol` | src/steam_id_friend_code.rs:30-38 | the `char` version decodes what the byte version decodes and rejects every non-ASCII `char` |
| `FriendCodeLegacy.SymbolBijection` | src/steam_id_friend_code.rs:19-114 | `to_symbol` and `from_symbol` invert each other, spell the alphabet, and reject `I`, `O`, `0`, `1` and index 32 |
| `FriendCodeLegacy.Base32Encode` | src/steam_id_friend_code.rs:40-50 | pushing a dash before chunks 4 and 9 produces the same text as the newer encoder's dashes at positions 4 and 10 |
| `FriendCodeLegacy.LegacyAcc` | src/steam_id_friend_code.rs:60-67 | reading hash bit `i` with `(hash >> i) & 1` builds the same accumulator as shifting the hash each round |
| `FriendCodeLegacy.HashInput` | src/steam_id_friend_code.rs:53-57 | the legacy hash input is `CSGO` over the 31-bit account number |
| `FriendCodeLegacy.HashInputsDiffer` | src/steam_id_friend_code.rs:53-57 | the legacy and newer hash inputs agree exactly when the id's low word is zero |
| `FriendCodeLegacy.EncodingHasPrefix` | src/steam_id_friend_code.rs:68-72 | the encoded accumulator always starts with `AAAA-`, and dropping it leaves the newer encoder's code |
| `FriendCodeLegacy.DropPrefix` | src/steam_id_friend_code.rs:69-71 | the prefix is removed only when present |
| `FriendCodeLegacy.ToFriendCode` | src/steam_id_friend_code.rs:53-73 | the legacy code is the newer codec's code computed from the digest of the account-number input |
| `FriendCodeLegacy.FriendCodeShape` | src/steam_id_friend_code.rs:59-73 | the legacy code is ten characters with a dash at position 5 |
| `FriendCodeLegacy.LegacyExample` | src/steam_id_friend_code.rs:53-84 | with the digest word of the account-number input, 76561197960287930 encodes as `SUC5S-FADC`, not the `SUCVS-FADA` the test expects |
| `FriendCodeLegacy.ToFriendCodeCorrected` | src/steam_id_friend_code.rs:53-73 | the corrected legacy code, hashing the low word, is the newer codec's code |
| `FriendCodeLegacy.CorrectedExample` | src/steam_id_friend_code.rs:80-84 | the corrected legacy encoder gives the expected `SUCVS-FADA` |
| `SteamIds.SteamId.AccType` | src/model/steam_id/mod.rs:97-100 | the account type is absent exactly when the type code is 11 or more, and otherwise is the type with that code |
| `SteamIds.SteamId.Universe` | src/model/steam_id/mod.rs:102-105 | the universe is absent exactly when the universe code is 6 or more, and otherwise is the universe with that code |
| `SteamIds.SteamId.ToSteamId` | src/model/steam_id/mod.rs:112-118 | `STEAM_X:Y:Z` exists exactly when the universe is known, and reads back as the universe code, `Y` and the account number |
| `SteamIds.SteamId.ToSteamId3` | src/model/steam_id/mod.rs:121-126 | `[L:1:W]` exists exactly when the type is known and has a letter; it reads back as `W` and a letter that names the id's type |
| `SteamIds.Partition` | src/model/steam_id/mod.rs:55-69 | the five fields put back at their shifts rebuild the word: the fields partition the 64 bits |
| `SteamIds.FieldsOfParts` | src/model/steam_id/mod.rs:55-105 | fields within their widths put together come back out of the accessors unchanged |
| `SteamIds.Steam2Parses` | src/model/steam_id/mod.rs:112-118 | the text `STEAM_X:Y:Z` reads back as `(X, Y, Z)` |
| `SteamIds.Steam2Unique` | src/model/steam_id/mod.rs:112-118 | `STEAM_X:Y:Z` is the only text that reads back as `(X, Y, Z)` |
| `SteamIds.Steam3Parses` | src/model/steam_id/mod.rs:121-126 | the text `[L:1:W]` reads back as `(L, W)` |
| `SteamIds.Steam3Unique` | src/model/steam_id/mod.rs:121-126 | `[L:1:W]` is the only text that reads back as `(L, W)` |
| `SteamIds.Display` | src/model/steam_id/mod.rs:35-78 | `Display` prints a canonical decimal numeral of the word, at most `MAX_DIGITS_FOR_U64` long |
| `SteamIds.FromStr` | src/model/steam_id/mod.rs:47-53 | parsing succeeds exactly when the text is an optional `+` and digits worth less than `2^64`, giving that number |
| `SteamIds.FromStrDisplay` | src/model/steam_id/mod.rs:35-53 | parsing what `Display` prints gives the id back |
| `SteamIds.DisplayFromStr` | src/model/steam_id/mod.rs:35-53 | a canonical numeral that parses is what `Display` prints for the result |
| `SteamIds.FromStrRejectsNonDigit` | src/model/steam_id/mod.rs:47-53 | a character other than a digit, except a leading `+`, makes parsing fail |
| `SteamIds.FromStrRejectsOverflow` | src/model/steam_id/mod.rs:47-53 | digits worth `2^64` or more make parsing fail |
| `SteamIds.Deserialize` | src/model/steam_id/mod.rs:131-169 | a JSON integer is the id itself; a JSON string is accepted exactly when it parses, giving that id, and is otherwise reported as `invalid_value` with the text |
| `SteamIds.DeserializeDisplay` | src/model/steam_id/mod.rs:177-245 | both serialized shapes of an id, the integer and the decimal string, read back as the id |
| `SteamIds.Example` | src/model/steam_id/mod.rs:247-257 | 76561198805665689 is `STEAM_1:1:422699980` and `[U:1:845399961]` |
| `Decimal.ParseU64Accepts` | src/model/steam_id/mod.rs:50 | exactly which strings `str::parse::<u64>` accepts: an optional `+`, at least one digit, nothing else, value below `2^64` |
| `Decimal.ParseDisplay` | src/model/steam_id/mod.rs:37-50 | parsing the decimal form of a `u64` gives it back |
| `Decimal.ParseRejectsMinus` | src/model/steam_id/mod.rs:50 | a leading `-` is never accepted by the unsigned parse |
| `Decimal.U64Length` | src/model/steam_id/mod.rs:71-78 | no `u64` needs more than 20 decimal digits |
| `SteamIdLegacy.TypeOfCode` | src/steam_id.rs:96-111 | the inline type table decodes exactly the codes 0 to 10 |
| `SteamIdLegacy.UniverseOfCode` | src/steam_id.rs:113-123 | the inline universe table decodes exactly the codes 0 to 5 |
| `SteamIdLegacy.TypeToLetter` | src/steam_id.rs:165-179 | only chat and super-seeder accounts lack a letter, and a letter names its type |
| `SteamIdLegacy.TablesRoundTrip` | src/steam_id.rs:96-218 | the legacy `as_u64` tables and the decoding tables invert each other |
| `SteamIdLegacy.TablesAgree` | src/steam_id.rs:96-218 | the legacy tables decode, number and letter exactly as the newer primitives do |
| `SteamIdLegacy.ToSteamId` | src/steam_id.rs:130-137 | `STEAM_X:Y:Z` exists exactly when the universe code is below 6 and reads back as the three numbers |
| `SteamIdLegacy.ToSteamId3` | src/steam_id.rs:140-146 | `[L:1:W]` is absent exactly for type codes 8, 9 and 11 or more; it reads back as `W` and the type's letter |
| `SteamIdLegacy.TextFormsAgree` | src/steam_id.rs:130-146 | the legacy text forms are those of the newer id |
| `SteamIdLegacy.FromStr` | src/steam_id.rs:41-46 | parsing succeeds exactly when the `u64` parse does; the error wraps the parse error in `InvalidString` |
| `SteamIdLegacy.FromStrDisplay` | src/steam_id.rs:35-46 | the legacy parser inverts `Display` and accepts the same strings, with the same ids, as the newer one |
| `SteamIdLegacy.VisitStrAccepts` | src/steam_id.rs:237-245 | the deserializer accepts exactly the strings the `u64` parse accepts, and otherwise reports the text |
| `SteamIdLegacy.Example` | src/steam_id.rs:339-349 | 76561198805665689 is `STEAM_1:1:422699980` and `[U:1:845399961]` in the legacy copy too |
| `SteamIdExt.ToSteamIdString` | src/steam_id_ext.rs:11-27 | the result is the ids' decimal forms joined by the separator |
| `SteamIdExt.ToSteamIdStringWith` | src/steam_id_ext.rs:34-50 | the result is `f` of each id, in order, joined by the separator |
| `SteamIdExt.FitsCapacity` | src/steam_id_ext.rs:16-18 | with an exact size hint, the reserved capacity is never smaller than the string built |
| `SteamIdExt.TestCapacity` | src/steam_id_ext.rs:82-88 | two ids with `", "` reserve 42 bytes |
| `SteamIdExt.CommaJoinParsesAll` | src/steam_id_ext.rs:11-27 | joined with `,`, the string splits into one piece per id, each parsing back into its id |
| `SteamIdExt.NoCommaInDisplay` | src/model/steam_id/mod.rs:35-39 | a decimal form never contains a comma |
| `SteamIdExt.JoinExample` | src/steam_id_ext.rs:58-108 | the tests' two ids join as `76561197960287930, 76561197985607672`, `STEAM_1:0:11101, STEAM_1:0:12670972` and `[U:1:22202], [U:1:25341944]` |
| `SteamIdExt.PublicIndividual` | src/steam_id.rs:130-146 | a public individual id with `Y = 0` prints as `STEAM_1:0:Z` and `[U:1:W]` |
| `Clients.ConfigureKeys` | src/client.rs:61-70 | the built-up options have no api key exactly when no setting added one, and the first key is the first one any setting added |
| `Clients.ConfigureCodes` | src/client.rs:71-85 | a status code is on the no-retry list exactly when some setting added it |
| `Clients.ConfigureTimeout` | src/client.rs:47-55 | the retry timeout is unset exactly when no setting set it, and otherwise is the last one set |
| `Clients.ConfigureLimit` | src/client.rs:56-60 | the retry limit is unset exactly when no setting set it, and otherwise is the last one set |
| `Clients.ConfigureCookies` | src/client.rs:86-96 | the cookie store stays on exactly when `no_cookie_store` was never used; the session id is fetched exactly when neither `no_cookie_store` nor `no_session_id` was used, so it implies the cookie store |
| `Clients.SortedCodes` | src/client.rs:158-159 | after `sort_unstable` and `dedup` the no-retry codes are strictly increasing and are the same set |
| `Clients.Build` | src/client.rs:131-170 | `build` panics exactly when there is no api key, or the session id is wanted without a cookie store or cannot be fetched, naming the first failed assertion; otherwise the timeout defaults to 1000 ms, the limit to 3, the codes are sorted and deduplicated, the session id is the fetched one or empty, and the counter starts at 0 |
| `Clients.BuildConfigured` | src/client.rs:35-170 | options built only through the builder methods never trip the cookie-store assertion, miss the api key exactly when none was added, and default what was never set |
| `Clients.ResetRetries` | src/client.rs:209-214 | `reset_retries` sets the counter to 0 and changes nothing else |
| `Clients.RetryLoop` | src/client.rs:178-197 | the loop makes one more attempt than sleeps, never more than `max_retries` sleeps; every attempt before the last failed in a retryable way; the last one succeeded, hit a no-retry status, or used up the retries; the result is the last attempt's |
| `Clients.StopIndex` | src/client.rs:178-197 | the attempt the loop stops at meets the stopping condition |
| `Clients.GetJson` | src/client.rs:174-202 | the result is that of the attempt where the loop stops, and the shared counter grows by the number of sleeps, except when a successful body fails to decode and `?` returns first |
| `Clients.StopsOnce` | src/client.rs:178-197 | the stopping attempt is unique, so the outcome of `get_json` is determined by the attempts |
| `Clients.SingleAttempt` | src/client.rs:187-189 | with `max_retries` 0 exactly one attempt is made and the counter does not move |
| `Clients.DontRetryStops` | src/client.rs:190-194 | a first response whose error status is on the no-retry list ends the call with that status and no retry |
| `Clients.TransportRetried` | src/client.rs:185-196 | send failures are always retried while retries remain: the loop never stops before them |
| `Clients.ResetAfterCall` | src/client.rs:198-214 | resetting after a call gives the same client as resetting before it |
| `Clients.CookieValue` | src/client.rs:120-126 | a value is found exactly when some `;`-separated piece, with leading whitespace trimmed, starts with the prefix |
| `Clients.CookieValueOf` | src/client.rs:120-126 | the value after the first piece that carries the prefix is returned, however much whitespace precedes it |
| `Clients.SessionIdOfCookies` | src/client.rs:109-128 | a cookie header holding `sessionid=<id>` as its first such piece yields `<id>` |
| `PlayerFriendsLegacy.ParseFriend` | src/player_friends.rs:55-67 | a friend parses exactly when its id text parses as a `u64`, keeping the id and the time; otherwise the error carries the text |
| `PlayerFriendsLegacy.ParseFriendsSpec` | src/player_friends.rs:103-108 | the list parses exactly when every id does, giving one friend per entry in order with that entry's id and friendship time; otherwise the error names the first entry that fails |
| `PlayerFriendsLegacy.FetchLoop` | src/player_friends.rs:83-101 | the loop makes at most `RETRIES + 1` attempts, retries only error statuses other than 401, and stops at the first attempt that is not retried |
| `PlayerFriendsLegacy.GetPlayerFriends` | src/player_friends.rs:72-109 | a 401 gives `Ok(None)` at once; a send failure is returned at once; an error status other than 401 is retried until the budget of `RETRIES + 1` attempts is spent and then returned; a success parses the friends, and a body that does not decode is the decode error |
| `PlayerFriendsLegacy.UnauthorizedAtOnce` | src/player_friends.rs:88-91 | a 401 on the first attempt ends the call with `Ok(None)` after one attempt |
| `PlayerFriendsLegacy.SendFailureNotRetried` | src/player_friends.rs:86 | a send failure is returned at once by `?`, however many retries remain |
| `PlayerFriendsLegacy.ServerErrorsExhaust` | src/player_friends.rs:92-98 | a server that keeps answering 503 gets `RETRIES + 1` attempts and the last error back |
| `PlayerFriendsLegacy.ClientGetPlayerFriends` | src/player_friends.rs:115-136 | through `get_json`, a 401 where the loop stops gives `Ok(None)`; any other error status, a send failure or an undecodable body is passed on as that error; a success parses the friends; the counter moves as `get_json` moves it |
| `PlayerFriendsLegacy.ClientUnauthorizedAtOnce` | src/player_friends.rs:122-128 | with 401 on the no-retry list, a first 401 gives `Ok(None)` and leaves the client untouched |
| `PlayerFriendsLegacy.ClientUnauthorizedRetried` | src/player_friends.rs:122-128 | without 401 on the no-retry list, persistent 401s use up every retry and still give `Ok(None)` |
| `PlayerFriends.FromResponseSpec` | src/model/api/player_friends.rs:52-67 | the map has an entry exactly for each listed id, holding the last friend with that id, and is absent exactly when the list is |
| `PlayerFriends.AccessorsAgree` | src/model/api/player_friends.rs:69-76 | `into_inner` and `as_inner_ref` both give the map |
| `PlayerFriends.GetPlayerFriends` | src/model/api/player_friends.rs:82-98 | a 401 where the loop stops reaches the `todo!`; any other error status, a transport failure or an undecodable body is passed on as that error; a success converts the response; the counter moves as `get_json` moves it |
| `PlayerFriends.UnauthorizedPanics` | src/model/api/player_friends.rs:88-93 | with 401 on the no-retry list, a first 401 reaches the `todo!` |
| `Batches.SortDedupIds` | src/model/api/player_bans.rs:80-82 | `sort_unstable` then `dedup` leaves the distinct ids, strictly increasing by raw word |
| `Batches.RawsInjective` | src/model/steam_id/mod.rs:32-33 | ids with the same raw words are the same ids |
| `Batches.SteamIdsQuerySpec` | src/model/api/player_bans.rs:78-91 | the query is refused exactly when there are more distinct ids than the limit; otherwise it splits on `,` into the sorted distinct ids |
| `Batches.QueryIgnoresOrderAndRepeats` | src/model/api/player_bans.rs:80-91 | two id lists with the same members give the same query |
| `Batches.Request` | src/model/api/player_bans.rs:78-98 | a request is refused exactly when there are more distinct ids than the limit; otherwise it is one `get_json` with the joined ids |
| `Batches.RequestIgnoresOrderAndRepeats` | src/model/api/player_summary.rs:110-129 | order and repetition of the ids do not change the request made |
| `PlayerBans.FromResponseSpec` | src/model/api/player_bans.rs:66-72 | the map has an entry exactly for each player in the response, holding the last ban listed for that id |
| `PlayerBans.GetPlayerBans` | src/model/api/player_bans.rs:78-98 | more than 100 distinct ids give `TooManyIds` without a request; otherwise the request's error is passed on as `Reqwest`, and its success gives exactly the map of its response, keyed by the ids the response reports; the counter moves as `get_json` moves it |
| `PlayerBans.GetPlayerBansIgnoresOrderAndRepeats` | src/model/api/player_bans.rs:80-91 | the result depends only on which ids are asked for, not their order or repetition |
| `PlayerSummaries.FromResponseSpec` | src/model/api/player_summary.rs:93-104 | the map has an entry exactly for each player in the response, holding the last summary listed for that id |
| `PlayerSummaries.GetPlayerSummaries` | src/model/api/player_summary.rs:110-129 | more than 100 distinct ids give `TooManyIds` without a request; otherwise the request's error is passed on as `Reqwest`, and its success gives exactly the map of its response, keyed by the ids the response reports; the counter moves as `get_json` moves it |
| `PlayerSummaries.GetPlayerSummariesIgnoresOrderAndRepeats` | src/model/api/player_summary.rs:114-123 | the result depends only on which ids are asked for, not their order or repetition |
| `BatchesLegacy.FirstRepeatUnique` | src/player_bans.rs:112-117 | at most one position is the first repeat of an id |
| `BatchesLegacy.Placeholders` | src/player_bans.rs:112-117 | inserting `None` for each id fails exactly when an id repeats, reporting the first repeated one; otherwise every id, and only those, maps to `None` |
| `BatchesLegacy.SnocFacts` | src/player_bans.rs:112-117 | adding an id to the end keeps the list unique exactly when the id is new, and keeps any earlier first repeat |
| `BatchesLegacy.Fetch` | src/player_bans.rs:107-130 | too many ids, then a repeated id, are reported before any request and leave the client as it was; otherwise one request is made with the ids in the caller's order, its error is passed on, the first response entry that fails to parse fails the whole call with that error, and when all parse the result is the placeholder map with the entries merged in |
| `BatchesLegacy.MergedSpec` | src/player_bans.rs:112-127 | the merged map covers the asked ids and the returned ones; an id the response omits maps to `None`, a returned one to its last item |
| `BatchesLegacy.FetchOk` | src/player_bans.rs:107-130 | a request whose items all parse gives the merged map and the client `get_json` leaves |
| `BatchesLegacy.QueryInCallerOrder` | src/player_bans.rs:119 | the legacy query lists the ids in the caller's order, each parsing back |
| `PlayerBansLegacy.ParseBan` | src/player_bans.rs:74-88 | a ban parses exactly when its id text is a `u64`, copying the other fields and keeping the economy-ban word raw; otherwise the error carries the text |
| `PlayerBansLegacy.GetPlayerBans` | src/player_bans.rs:107-130 | more than 100 ids give `TooManyIds`; then a repeat gives `NonUniqueIds` naming the first repeated id, both before any request; then the request's error is `Reqwest`, the first entry whose id text is not a `u64` gives `InvalidSteamId` with that text, and otherwise the merged map comes back |
| `PlayerBansLegacy.TooManyFirst` | src/player_bans.rs:108-110 | the size check comes before the uniqueness check |
| `PlayerBansLegacy.RepeatReported` | src/player_bans.rs:112-117 | a list within the limit with a first repeat at `j` reports `ids[j]` |
| `PlayerSummariesLegacy.ParseSummary` | src/player_summary.rs:121-177 | a summary parses exactly when its times, visibility, persona state, clan id and id all parse, and each failure is reported in the source's order with the offending value; a parsed summary copies every other field of the raw entry unchanged |
| `PlayerSummariesLegacy.GetPlayerSummaries` | src/player_summary.rs:204-228 | more than 100 ids give `TooManyIds`; then a repeat gives `NonUniqueIds` naming the first repeated id, both before any request; then the request's error is `Reqwest`, the first summary that fails to parse fails the call with its error, and otherwise the merged map comes back |
| `VanityUrls.ParseResponse` | src/vanity_url.rs:30-39 | no id means `Ok(None)`; an id parses exactly when it is a `u64`, otherwise the error carries the text |
| `VanityUrls.ParseDisplayed` | src/vanity_url.rs:30-39 | a response carrying an id's decimal form gives that id back |
| `VanityUrls.ResolveVanityUrl` | src/vanity_url.rs:43-47 | a failed request is passed on as `Reqwest`, a successful one is parsed, and the counter moves as `get_json` moves it |
| `UserSearchHtml.SteamIdOf` | src/model/html/user_search.rs:39-42 | an id exists exactly when the profile URL starts with the prefix and the rest is a `u64` numeral |
| `UserSearchHtml.SteamIdOfProfile` | src/model/html/user_search.rs:39-42 | a profile URL made of the prefix and an id's decimal form gives that id back |
| `UserSearchHtml.FullAvatar` | src/model/html/user_search.rs:64-89 | the full-size avatar exists exactly when the medium URL is at least as long as `_medium.jpg`; it keeps everything before the last 11 characters and ends in `_full.jpg` |
| `UserSearchHtml.FullAvatarOf` | src/model/html/user_search.rs:79-89 | whatever the last 11 characters are, they are replaced by `_full.jpg`, so a medium avatar URL becomes its full one |
| `UserSearchHtml.AliasDivs` | src/model/html/user_search.rs:91-100 | a single div contributes its spans exactly when it is an alias div, and a div still counts when whitespace precedes "Also known as" |
| `UserSearchHtml.AliasesAppend` | src/model/html/user_search.rs:91-100 | the aliases of two runs of divs are the aliases of each, concatenated |
| `UserSearchHtml.ParseRow` | src/model/html/user_search.rs:64-108 | a row fails for missing profile info first, then for a missing avatar, then for an avatar URL too short to slice; otherwise the entry carries the link's text and target, the full avatar and the aliases |
| `UserSearchHtml.Parse` | src/model/html/user_search.rs:110-115 | the page parses exactly when every row does, giving one entry per row in order; otherwise the error is that of the first failing row |
| `UserSearch.PageNumber` | src/model/api/user_search.rs:59-66 | the page is read exactly from a non-negative JSON integer or a string that parses as a `u64` |
| `UserSearch.PageForms` | src/model/api/user_search.rs:59-66 | a page given as an integer or as its decimal string is the same page; negative, float and other JSON values and negative strings are refused |
| `UserSearch.TryFrom` | src/model/api/user_search.rs:49-76 | `success != 1` gives `NoSuccess`; then a failing HTML payload gives `ParseError` with the row's error; then an unreadable page gives `InvalidSearchPage`; otherwise the fields are copied |
| `UserSearch.TryFromPageForms` | src/model/api/user_search.rs:59-66 | the conversion does not care which of the two page forms the server used |
| `UserSearch.SearchQuery` | src/model/api/user_search.rs:78-90 | the query sends `filter=users`, the text, the session id and the page number in decimal |
| `UserSearch.GetSearchPage` | src/model/api/user_search.rs:78-90 | a failed request is passed on as `Reqwest`, a successful one is converted, and the counter moves as `get_json` moves it |
| `UserSearchLegacy.SteamIdOf` | src/user_search.rs:62-65 | an id exists exactly when the URL contains `/profiles/` and the text after the first one parses |
| `UserSearchLegacy.VanityUrl` | src/user_search.rs:67-75 | a vanity name exists exactly when the URL contains `/id/`, and it is what follows the first occurrence |
| `UserSearchLegacy.AfterFirst` | src/user_search.rs:62-75 | splitting at the first occurrence gives the text before and after it |
| `UserSearchLegacy.UrlsRoundTrip` | src/user_search.rs:62-75 | `<host>/profiles/<id>` gives the id and `<host>/id/<name>` the name back |
| `UserSearchLegacy.ParseResponse` | src/user_search.rs:87-110 | `success != 1`, then an unbuilt parser, then an unreadable page, then a failing HTML payload are reported in this order; success copies the fields as the newer conversion does |
| `UserSearchLegacy.ParseSteamJson` | src/user_search.rs:112-139 | this conversion checks the page before the parser, otherwise reporting as `parse_response` |
| `UserSearchLegacy.ConversionsAgree` | src/user_search.rs:87-139 | the two legacy conversions agree exactly when the parser was built, `success` is not 1, or the page reads; with a built parser they always agree |
| `UserSearchLegacy.OrderDiffers` | src/user_search.rs:87-110 | with an unreadable page and a failing payload, the legacy code reports the page and the newer code the payload |
| `UserSearchLegacy.SameAsNewer` | src/user_search.rs:87-110 | the legacy and newer conversions succeed on the same responses, and report a payload error together whenever the order of checks does not decide |
| `UserSearchLegacy.GetSearchPage` | src/user_search.rs:227-238 | a failed request is passed on, a successful one is converted by `parse_response`, and the call succeeds exactly when the newer one does, with the same page |
| `Decimal.NatToStringOfValue` | src/model/steam_id/mod.rs:35-53 | a canonical numeral is the decimal form of its own value |
| `Strings.StripPrefix` | src/model/html/user_search.rs:39-42 | stripping succeeds exactly when the text starts with the prefix, and the prefix put back gives the text |
| `Strings.SplitOnce` | src/user_search.rs:62-75 | there is no split exactly when the pattern never occurs; otherwise the parts around the first occurrence rebuild the text |
| `Strings.TrimStart` | src/client.rs:124 | `trim_start` removes exactly the leading whitespace: a suffix that does not start with whitespace, preceded only by whitespace |
| `Strings.TrimStartPad` | src/client.rs:124 | trimming whitespace in front of a text that starts with something else gives that text |
| `Strings.Split` | src/client.rs:122-123 | splitting on a character gives at least one piece, none containing the character |
| `Strings.SplitJoin` | src/client.rs:122-123 | joining the pieces with the separator rebuilds the text |
| `Strings.SplitJoinPieces` | src/steam_id_ext.rs:11-27 | splitting pieces that do not contain the separator after joining them gives the pieces back |
| `Wrappers.TryMap` | src/player_friends.rs:103-106 | collecting `Result`s succeeds exactly when every element does, with the values in order, and otherwise returns the first error |
| `Wrappers.TryMapFirstErr` | src/player_bans.rs:124-127 | the `?` in the parsing loop returns the error of the first element that fails, whatever follows it |
| `Wrappers.FlatMapAppend` | src/model/html/user_search.rs:91-100 | `flat_map` over two runs of elements gives the results for each run, concatenated |
| `Wrappers.Position` | src/client.rs:125 | `find` returns the first position satisfying the predicate, or none when no element does |
| `SortedSets.Insert` | src/client.rs:158-159 | inserting into a strictly increasing list keeps it strictly increasing and adds exactly the new value |
| `SortedSets.SortDedup` | src/client.rs:158-159 | sorting then deduplicating gives a strictly increasing list of the same values |
| `SortedSets.IncreasingUnique` | src/client.rs:158-159 | two strictly increasing lists of the same values are equal, so the sorted deduplicated list is determined |
| `SortedSets.IncreasingCard` | src/client.rs:158-159 | a strictly increasing list has no repeats: its length is the number of its values |
| `SortedSets.SortDedupCanonical` | src/client.rs:158-159 | lists with the same values sort and deduplicate to the same list |
| `SortedSets.SortDedupIncreasing` | src/client.rs:158-159 | a list already strictly increasing is left as it is |
| `Maps.InsertAllSpec` | src/model/api/player_bans.rs:66-72 | inserting pairs into a map adds exactly their keys, keeps other entries, and leaves each key with its last value |
| `Maps.CollectSpec` | src/model/api/player_bans.rs:66-72 | collecting pairs into a map keeps exactly their keys, each with its last value |
| `Maps.IndexBySpec` | src/model/api/player_summary.rs:93-104 | indexing by a key function keeps exactly the keys of the elements, each with its last element |
| `SteamIdLegacy.AccType` | src/steam_id.rs:96-111 | the legacy account type is absent exactly for codes 11 and up, and agrees with the newer accessor |
| `SteamIdLegacy.Universe` | src/steam_id.rs:113-123 | the legacy universe is absent exactly for codes 6 and up, and agrees with the newer accessor |
| `SteamIdExt.PushRestJoin` | src/steam_id_ext.rs:34-50 | the push loop builds the first text followed by each further text after a separator: exactly the join |
| `SteamIdExt.TwoIds` | src/steam_id_ext.rs:92-107 | two ids give their texts around one separator |
| `SteamIdExt.CommaJoinParses` | src/steam_id_ext.rs:11-27 | joined with `,`, the string splits into one piece per id, and piece `i` parses back to id `i` |


## Left out

- HTTP and async plumbing: reqwest requests, the tokio sleep and the cookie jar are not modelled. A request is the sequence of attempt outcomes `net`, a sleep is a count, and the cookie header is a string parameter. `build`'s session-id fetch is the parameter `fetched` of `Clients.Build`.
- The atomic retry counter is a plain field of an immutable `Client`. Memory ordering is not modelled.
- MD5 (RFC 1321) is not computed. The encoders take it as a parameter. The examples state the digest words they need as `requires`, so `FriendCodes.FriendCodeExample` and `FriendCodeLegacy.LegacyExample` hold for any hash with those values.
- Host endianness: `to_be()` is modelled with its meaning on a little-endian host, a byte swap (`ByteOrder.SwapBytes`).
- `usize` is treated as unbounded where it only counts (`max_retries`, retries, lengths). Capacities in `SteamIdExt` assume a 64-bit `usize`, so `saturating_sub` is the only truncation that matters.
- chrono timestamps (`src/steam_time.rs`, the `Utc.timestamp` conversions in `src/player_friends.rs` and `src/player_summary.rs`): a timestamp's validity is the parameter `validTime` of `PlayerSummariesLegacy.ParseSummary`, and friends keep the raw `friends_since` number. This drops two things in `src/player_friends.rs`: the `as i64` cast there wraps values above `i64::MAX` to negative seconds, and `Utc.timestamp` panics on seconds outside chrono's range. Neither the wrap nor that panic is modelled.
- `src/rate_limit.rs` is about wall-clock pacing with an `f64` delay and is not part of this model.
- serde and scraper machinery: JSON is a small `Json`/`JsonValue` datatype carrying what the visitors branch on. An HTML search row is a record of the optional anchor, image source and alias divs the CSS selectors would find. Floating-point and null JSON paths are single constructors.
- `Parser::new` in `src/model/html/user_search.rs` compiles constant selectors and is taken to succeed. Its legacy counterpart's `Option` is the parameter `built` of `UserSearchLegacy.ParseResponse` and `UserSearchLegacy.ParseSteamJson`.
- Text is `seq<char>`, and byte slicing is modelled as character slicing. The char-boundary panic of `&src[..len - 11]` on non-ASCII input is not modelled; the panic on a source shorter than 11 is `UserSearchHtml.AvatarPanic`.
- The api key and `PLAYER_*_API` URLs are not part of the queries modelled. A request is identified by the id string or search query it carries.
- The JSON fixtures of the user-search tests are not part of this model, and neither are their expected entries. Their HTML is outside what the model abstracts.
- Stale references:
  - `RETRIES`, used by `src/player_friends.rs` but absent from `src/constants.rs`, is the parameter `limit`;
  - the `::new` calls in `src/player_summary.rs` on enums without one are modelled by the `try_from(..).ok()` of `src/enums.rs`;
  - `PROFILE_URL_ID64_PREFIX` is the parameter `prefix` of `UserSearchHtml.SteamIdOf`.
- `PlayerBansLegacy.ParseBan`: keeps the economy-ban word as the raw string, because the `crate::enums::EconomyBan` that `src/player_bans.rs` converts it through does not exist in `src/enums.rs`.
- `SteamIdQueryExt`, which `src/model/steam_id/mod.rs` imports from a file that is not part of this model, is taken to be the crate-root `to_steam_id_string` (`Batches.SteamIdsQuery`).
- `SteamIdStr`, the string form of an id in the newer player-summaries and player-friends responses, is taken to be an already-parsed `SteamId`. A malformed id there is therefore the generic decode failure `Reqwest(Decode)` of the response, not a separate error.
- `src/bit_chunks.rs`, imported by `src/steam_id_friend_code.rs`, is not part of this model. The legacy encoder uses the iterator of `src/util/bit_chunks.rs`.
- `src/steam_level.rs`, `src/model/api/steam_level.rs`, `src/model/api/vanity_url.rs`, `src/util/visibility.rs` and `src/request_helper.rs` only move fields or are unused, and are not part of this model.
- Module wiring (`src/lib.rs`, the `mod.rs` files), `src/parse_response.rs` and `src/test_util.rs` are not part of this model. From `src/constants.rs` only the two limits of 100 are used.
- `PlayerFriends.GetPlayerFriends`: the `todo!` on a 401 is the result `Todo` rather than a panic.

## Findings

| source | as written | input that shows it | evidently intended | confidence | as-written member | corrected member |
|---|---|---|---|---|---|---|
| src/model/steam_id/friend_code.rs:49-55 | `base32_decode_u64` skips the characters at decoding positions 4 and 10. The encoder puts its second `-` where the decoder's position 9 falls, so the decoder reads that dash as a symbol and returns `None`. | `from_friend_code("SUCVS-FADA")`, and every other code `to_friend_code` produces, returns `None` | skip positions 4 and 9, so that `from_friend_code(to_friend_code(id))` keeps the low 32 bits of `id` under the default high word | not executed | `FriendCodes.FriendCodeAsWrittenRejectsEncoded` | `FriendCodes.FriendCodeRoundTrip` |
| src/steam_id_friend_code.rs:53-57 | the legacy hash input is `acc_nr() \| 0x4353474F00000000`, the account number without `Y`, where the newer module hashes the low 32 bits | id 76561197960287930: the digest of the legacy input gives `SUC5S-FADC`, not the `SUCVS-FADA` its test expects | hash the low word `W`, as `src/model/steam_id/friend_code.rs` does | not executed | `FriendCodeLegacy.LegacyExample` | `FriendCodeLegacy.CorrectedExample` |
