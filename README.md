# CREATE2 hook-address salt miner, modelled in Dafny

A Uniswap v4 hook's permissions live in the low 14 bits of its contract
address. The salt miner `0xCamax/hookminerScript` finds a CREATE2 salt
whose address carries the wanted permission bits and has no code deployed
yet. It has two cooperating parts, and this project models both:

- **Flag codec and selector scan** (`utils.ts`, module `HookFlags`).
  This covers the `HookFlag` enumeration of 15 capability flags.
  `encodeFlags` turns a list of flags into a bitmask. The flag-to-callback
  table (`FunctionName`) and the callback-to-selector table (the constant
  `HookSelectors`, utils.ts:22-33) say which flags have a callback and what
  its selector is. `verifyHooksInBytecode` and
  `hasSelectorInBytecode` test a bytecode hex string for those selectors
  with a substring test. `checkExtraFlags` is a list difference.
  `flagToString` is the reverse name lookup.
- **Salt search** (`HookMiner.ts`, module `HookMiner`). `computeAddress`
  is the CREATE2 formula of EIP-1014. `encodeCreationCode` appends the
  constructor arguments. `matchesFlags` is the low-14-bit test. `find`
  walks salts upward from `startSalt` and returns the first salt whose
  address matches and holds no code.

Supporting modules:

- `Wrappers` holds `Option`.
- `Text` holds ASCII lower-casing, the `/^0x/` strip, `String.prototype.includes` and decimal rendering.
- `Hex` holds bytes, lower-case hex rendering, hex parsing and fixed-width big-endian encoding.
- `Bits` holds `|`, `&`, `1 << k` and bit tests on non-negative integers of unbounded width, which is what JavaScript's `bigint` does.

These are outside the model and become parameters:

- keccak256 is a parameter of type `Keccak256 = seq<Byte> -> Digest` and stays uninterpreted.
- The `eth_getCode` request is a parameter of type `CodeOracle = string -> CodeReply`. It returns the code, or an RPC or transport error.

With both as parameters, the search is deterministic. The loop of `find`
is a `method` with a `while` loop (`SearchSalts`), as in the source, and so is
`verifyHooksInBytecode`, a `for` loop that pushes onto `found`. The rest
are functions.

Where the model had to choose a reading:

- `Object.entries(hookFlagToFunctionName)` visits the record's
  integer-like keys in ascending numeric order. `found` therefore comes out
  in ascending order of flag value, and the model proves this.
- `Object.entries(HookFlag)` also yields the enum's reverse entries, such
  as key `"14"` with value `"ALL_HOOK_MASK"`. Their values are strings, so
  `v === flag` never selects them. `flagToString` therefore returns the
  first forward entry that holds the number, or `Unknown(<v>)`.
- `/^0x/` strips only a lower-case prefix, and it runs *before*
  `toLowerCase()`. A selector written `0X...` keeps its `0x`, so it is not
  found in a bytecode that carries a lower-case `0x` prefix or none and is
  otherwise hex digits. `UpperCasePrefixNormalize` and `UpperCasePrefixSelector` state this
  for every string, and `UpperCasePrefixIsKept` on a concrete selector.
- `ALL_HOOK_MASK = 14` puts bit 14 into the mask. `matchesFlags` compares
  against `addr & 0x3fff`, which never has bit 14. So a named flag list
  that contains `ALL_HOOK_MASK` can never be matched, and `find` cannot
  return `Found` for it. This is proved (`TargetFlags`, `WideTargetSkipsAll`,
  `Find`).
- `find` does not check selectors before searching. It only encodes the
  mask (HookMiner.ts:81). `verifyHooksInBytecode` takes only the bytecode
  and returns only `found`.

## Model

| member | source | states |
|---|---|---|
| HookFlags.DeclaredFlags | utils.ts:1-17 | the 15 members in declaration order carry the values 14 down to 0 |
| HookFlags.AscendingFlags | utils.ts:38-57 | the order in which `Object.entries` visits the table: position i holds the flag of value i |
| HookFlags.FunctionName | utils.ts:38-57 | a flag has no callback exactly when it is `ALL_HOOK_MASK` or one of the four return-delta flags (value at most 3); every callback name is a key of the selector table |
| HookFlags.HasSelectorIff | utils.ts:98-106 | `hasSelectorInBytecode` holds exactly when the normalized selector occurs at some position of the normalized bytecode |
| HookFlags.HasSelectorInBytecode | utils.ts:98-106 | `hasSelectorInBytecode`: the normalized selector is a substring of the normalized bytecode; its meaning is given by `HasSelectorIff` and the lemmas below |
| HookFlags.HasSelectorIgnoresPrefix | utils.ts:102-105 | adding one leading lower-case `0x` to an unprefixed bytecode, or to an unprefixed selector, does not change the answer, whatever the other argument is |
| HookFlags.HasSelectorBothPrefixed | utils.ts:102-105 | the usual call, with `0x` on both bytecode and selector, answers as if neither carried it |
| HookFlags.NormalizeIgnoresCase | utils.ts:63 | strings equal up to letter case, and agreeing on whether they carry a `0x` prefix, normalize to the same string |
| HookFlags.HasSelectorIgnoresCase | utils.ts:102-105 | letter case does not change the answer, on either argument, provided both versions of that argument agree on carrying a lower-case `0x` prefix |
| HookFlags.UpperCasePrefixIsKept | utils.ts:103-105 | a concrete case: the selector is found in itself, but written with `0X` it is not found |
| HookFlags.UpperCasePrefixNormalize | utils.ts:103-104 | for every s, `"0X" + s` normalizes to `"0x"` followed by s lower-cased: the upper-case prefix is not stripped |
| HookFlags.UpperCasePrefixSelector | utils.ts:102-105 | a selector written `"0X" + s` is searched for as `"0x"` followed by s lower-cased |
| HookFlags.ImplementedRange | utils.ts:42 | a flag counted as implemented has a callback, so its value lies in 4..13 (never `ALL_HOOK_MASK` or a return-delta flag) |
| HookFlags.Implements | utils.ts:68-75 | the condition under which the scan pushes a flag: it has a callback name, and that callback's selector is found in the bytecode |
| HookFlags.ScanStep | utils.ts:67-78 | visiting the flag of value k keeps the scan invariant: the list holds exactly the wanted flags of value below k+1, strictly ascending |
| HookFlags.VerifyHooksInBytecode | utils.ts:62-81 | a flag is in `found` exactly when it has a callback whose selector occurs in the bytecode after normalization; `found` is strictly ascending by value (so it has no duplicates), and its values lie in 4..13 |
| HookFlags.CheckExtraFlags | utils.ts:89-94 | the result holds exactly the members of `found` that are not in `flags`, each as often as in `found`, and is a subsequence of `found` |
| HookFlags.EncodeFromBit | utils.ts:112 | the `reduce` from accumulator `acc` sets exactly the bits of `acc` together with the values of the listed flags |
| HookFlags.EncodeFrom | utils.ts:112 | the `reduce` step, or-ing `1n << BigInt(flag)` into the accumulator, left to right; its meaning is `EncodeFromBit` and `EncodeFromBound` |
| HookFlags.EncodeFlags | utils.ts:111-113 | `encodeFlags`: the `reduce` from 0n; its meaning is given by the `EncodeFlags...` lemmas below |
| HookFlags.EncodeFlagsBit | utils.ts:111-113 | bit p of `encodeFlags(flags)` is set exactly when some listed flag has value p |
| HookFlags.EncodeFlagsMember | utils.ts:111-113 | the bit of flag g is set exactly when g is in the list |
| HookFlags.EncodeFlagsZero | utils.ts:111-113 | the mask is 0 exactly when the list is empty |
| HookFlags.EncodeFromBound | utils.ts:112 | folding the flags into an accumulator below 2^15 stays below 2^15 |
| HookFlags.EncodeFlagsBound | utils.ts:1-17 | every mask is below 2^15 = 0x8000 |
| HookFlags.EncodeFlagsSameMembers | utils.ts:112 | lists with the same members give the same mask, whatever their order and repetitions |
| HookFlags.EncodeFlagsPermutation | utils.ts:112 | any permutation of a list gives the same mask |
| HookFlags.EncodeFlagsDuplicate | utils.ts:112 | inserting another copy of a listed flag anywhere does not change the mask |
| HookFlags.EncodeFlagsWithAllHookMask | utils.ts:2 | a list holding `ALL_HOOK_MASK` has a mask of at least 0x4000 |
| HookFlags.EnumEntries | utils.ts:84 | the numeric entries of the enum object, in declaration order: the i-th pairs the i-th member's name with the value 14 - i |
| HookFlags.FindKey | utils.ts:84 | `entries.find(([_, v]) => v === flag)?.[0]`; its meaning is `FindKeyFirst` and `FindKeyAbsent` |
| HookFlags.FlagToString | utils.ts:82-87 | `flagToString`: the found key, or `Unknown(<v>)`; its meaning is `FlagToStringCanonical` and `FlagToStringUnknown` |
| HookFlags.FindKeyFirst | utils.ts:84 | `find` over the entries returns the key of the first entry holding the value |
| HookFlags.FindKeyAbsent | utils.ts:84 | `find` returns nothing when no entry holds the value |
| HookFlags.FlagToStringCanonical | utils.ts:82-87 | every member's value maps back to that member's own name |
| HookFlags.FlagToStringUnknown | utils.ts:82-87 | every value outside 0..14 maps to `Unknown(<decimal value>)` |
| Bits.Pow2 | utils.ts:112 | `1n << BigInt(flag)`; its meaning is `Pow2Bit` (exactly bit k set) |
| Bits.Or | utils.ts:112 | the bitwise or of the `reduce` step; its meaning is `OrBit` (bit p set exactly when set in either operand) and `OrBelow` |
| Bits.OrBit | utils.ts:112 | bit p of the bitwise or of a and b is set exactly when it is set in a or in b |
| Bits.Pow2Bit | utils.ts:112 | `1n << k` has bit k set and no other |
| Bits.OrBelow | utils.ts:112 | or-ing two numbers below 2^k gives a number below 2^k |
| Bits.BitsDetermineValue | utils.ts:112 | two non-negative integers with the same bits are equal |
| Bits.AndBit | HookMiner.ts:69 | bit p of `a & b` is set exactly when it is set in both |
| Bits.AndLowMask | HookMiner.ts:69 | and-ing with 2^k - 1 gives the remainder modulo 2^k |
| Bits.And | HookMiner.ts:69 | the `&` of `matchesFlags`; its meaning is `AndBit` (bit p set exactly when set in both) and `AndLowMask` |
| Text.StripHexPrefix | utils.ts:63 | `replace(/^0x/, '')` removes a leading lower-case `0x` and nothing else, and leaves a string without one unchanged |
| Text.Lower | utils.ts:63 | `toLowerCase()` on ASCII: same length, each upper-case letter mapped to its lower-case letter and every other character kept |
| Text.Normalize | utils.ts:63 | `replace(/^0x/, '').toLowerCase()`; its properties are `NormalizeIgnoresCase`, `UpperCasePrefixNormalize` and the `HasSelector...` lemmas |
| Text.Includes | utils.ts:75 | `String.prototype.includes`; its meaning is `IncludesIff` |
| Text.IncludesIff | utils.ts:75 | `includes` holds exactly when the needle occurs at some position of the haystack |
| Text.NatToDecimal | utils.ts:85 | the decimal rendering of n is non-empty digits that denote n, with no leading zero unless n is 0 |
| Text.IntToDecimal | utils.ts:85 | `${v}` for a safe integer (magnitude at most 2^53 - 1): a leading `-` exactly for negative values, then decimal digits that denote the magnitude, with no leading zero unless the value is 0 |
| Hex.DigitChar | HookMiner.ts:24 | each nibble renders as a lower-case hex digit that parses back to the nibble |
| Hex.ToHex | HookMiner.ts:18 | the `0x`-prefixed hex string keccak256 returns for a digest (`HexDigits` and `HexValueOfDigits` give its shape and value) |
| Hex.HexValue | HookMiner.ts:69 | `BigInt` of a hex string; `HexValueOfDigits` ties it to `BEValue` |
| Hex.BEValue | HookMiner.ts:20 | the number a byte string denotes, big-endian; `BEValueBound`, `BigEndianValue` and `BigEndianOfValue` relate it to `BigEndian` |
| Hex.BigEndian | HookMiner.ts:20 | the fixed-width big-endian encoding of `uint256` and of `toBeHex(salt, 32)`: exactly `len` bytes, read back by `BEValue` |
| Hex.HexDigits | HookMiner.ts:18-24 | the hex rendering of n bytes has 2n digits, all lower-case |
| Hex.HexDigitsAppend | HookMiner.ts:24 | rendering distributes over concatenation, so the last 40 digits of a digest are the rendering of its last 20 bytes |
| Hex.HexValueOfDigits | HookMiner.ts:69 | `BigInt` of a hex rendering is the big-endian value of the bytes |
| Hex.BEValueBound | HookMiner.ts:20 | a k-byte string denotes a number below 256^k |
| Hex.BigEndianValue | HookMiner.ts:20 | a number that fits in k bytes, encoded big-endian and read back, is itself |
| Hex.BigEndianOfValue | HookMiner.ts:98 | a byte string, read and re-encoded at the same width, is itself |
| Hex.BigEndianInjective | HookMiner.ts:98 | distinct numbers that fit the width have distinct encodings |
| HookMiner.SaltLimitIs32Bytes | HookMiner.ts:20 | the salt bound 2^256 is 256^32, the range of a `uint256` field |
| HookMiner.PackCreate2 | HookMiner.ts:19-22 | the packed preimage is 85 bytes: 0xff, the 20 deployer bytes, the 32-byte big-endian salt, then the init-code hash |
| HookMiner.ComputeAddress | HookMiner.ts:13-26 | the address is `0x` and 40 lower-case hex digits, 42 characters in all |
| HookMiner.ComputeAddressIsLow20Bytes | HookMiner.ts:18-25 | the address renders the last 20 bytes of the outer digest (EIP-1014's `[12:]`) |
| HookMiner.FlagMaskIsLow14Bits | HookMiner.ts:7 | `x & 0x3fff` is x modulo 2^14 |
| HookMiner.AddressValue | HookMiner.ts:69 | `BigInt(addr)`; `AddressOfValue` shows every 160-bit value arises |
| HookMiner.MatchesFlags | HookMiner.ts:68-70 | `matchesFlags`: `BigInt(addr) & 0x3fff === flags`; its meaning is `FlagMaskIsLow14Bits`, `MatchesFlagsRange`, `MatchesFlagsOfDigest` and `MatchableTargets` |
| HookMiner.MatchesFlagsRange | HookMiner.ts:68-70 | a target that some address matches lies in 0..0x3fff, so a target with a bit at 14 or above, or a negative one, never matches |
| HookMiner.LowBitsOfBytes | HookMiner.ts:69 | the value of a byte string modulo 2^14 is read from its last two bytes |
| HookMiner.MatchesFlagsOfDigest | HookMiner.ts:68-70 | a derived address matches exactly when the low 6 bits of digest byte 30, followed by byte 31, spell the target |
| HookMiner.AddressOfValue | HookMiner.ts:69 | every number below 2^160 is the value of some address string |
| HookMiner.MatchableTargets | HookMiner.ts:68-70 | some address matches a target exactly when the target lies in 0..0x3fff |
| HookMiner.EncodeCreationCode | HookMiner.ts:56-66 | no constructor arguments: the creation code unchanged; otherwise the creation code followed by the arguments |
| HookMiner.TargetFlags | HookMiner.ts:81 | a named list gives its `encodeFlags` mask, which lies in 0..0x7fff and is above 0x3fff when the list holds `ALL_HOOK_MASK`; a raw mask is used as given |
| HookMiner.IsEmptyCode | HookMiner.ts:95 | `code.length <= 2`: the oracle's answer is at most the bare `0x` |
| HookMiner.Search.Candidate | HookMiner.ts:88 | the candidate address of a salt, `computeAddress(deployer, salt, fullCode)`; shape and digest bytes are given by `ComputeAddress` and `MatchesFlagsOfDigest` |
| HookMiner.Search.Matches | HookMiner.ts:90-92 | the mask test of a salt's candidate; `exceptions` is always empty there, so the test is `matchesFlags` alone. Its use is stated by `SearchSalts` and `MatchesFlagsOfDigest` |
| HookMiner.Search.Free | HookMiner.ts:90-101 | a salt `find` returns: below 2^256, its candidate matches, and `getCode` answers with code of at most 2 characters. `SearchSalts` states that `Found` returns exactly such a salt, the first one |
| HookMiner.Search.Skipped | HookMiner.ts:90-108 | a salt `find` moves past: below 2^256, and its candidate fails the mask or holds code. `SearchSalts` states that every salt before the final one is skipped, and `WideTargetSkipsAll` that a target outside 0..0x3fff skips all of them |
| HookMiner.Search.Queries | HookMiner.ts:90-94 | the addresses the oracle is asked about while a range of salts is tried: the matching candidates, in salt order; `QueriesMatch` and `Find` state its use |
| HookMiner.QueriesMatch | HookMiner.ts:90-94 | every address the oracle is asked about is well-formed and passes the mask test |
| HookMiner.WideTargetSkipsAll | HookMiner.ts:90-91 | with a target outside 0..0x3fff every salt is skipped and none is free |
| HookMiner.SkipStep | HookMiner.ts:86-108 | skipping one salt keeps the search invariant: all earlier salts skipped, and the query log runs up to the next salt |
| HookMiner.SearchSalts | HookMiner.ts:85-109 | the `while` loop for fixed inputs: the final salt lies between `startSalt` and `startSalt + maxAttempts`, and every salt tried before it was skipped (mask failed, or code present). `NotFound` comes exactly when the bound runs out: it is given at `startSalt + maxAttempts`, and every other outcome at a salt below it. `Found` means the salt is free and the result is its address with the salt as 32-byte big-endian hex. An oracle failure on a matching address ends the search with that error, with no retry. Reaching salt 2^256 ends it with `SaltOutOfRange`. The oracle was asked about exactly the matching addresses, in order. A target outside 0..0x3fff never gives `Found` |
| HookMiner.SearchFor | HookMiner.ts:81-83 | the search inputs `find` sets up: the target `TargetFlags` gives and the creation code `EncodeCreationCode` gives; `Find` states its outcome through it |
| HookMiner.Find | HookMiner.ts:73-114 | the same outcome, with `NotFound` exactly when the bound runs out, for the target `encodeFlags` or the raw mask gives and the creation code with its arguments appended; a named list holding `ALL_HOOK_MASK` never gives `Found` |
| HookMiner.SaltEncoding | HookMiner.ts:98 | the reported salt is `0x` and 64 hex digits whose value is the numeric salt |

## Left out

- `main.ts` is the process entry point: environment loading, the `API` endpoint check, hard-coded arguments and `Deno.exit`. It is wiring, not logic.
- The body of `getCode` (HookMiner.ts:28-54) is a `fetch`/JSON-RPC transport with random request ids. It is replaced by the `CodeOracle` parameter. The error-message text it builds (`[code] message`) is kept only as the `RpcError(code, message)` fields.
- keccak256 is uninterpreted. `solidityPacked` is modelled as concatenation of fixed-width fields, and `toBeHex(salt, 32)` as the 32-byte big-endian encoding rendered in lower-case hex.
- Logging and `async`/`await` are left out. The search is sequential.
- `find` is bounded by `maxAttempts` and returns `NotFound` when the bound runs out. The source loops forever. `Find` says nothing about salts past the bound.
- `find` returns `SaltOutOfRange` once the salt reaches 2^256. At that point the source's packing as `uint256` throws.
- `startSalt` and `salt` are JavaScript `number`s in the source. The model takes them as natural numbers of unbounded size. Negative and fractional values are not modelled. Neither is what happens above 2^53 - 1: integers stop being exact there, and the packing library would likely reject such a number before the 2^256 bound is reached (that library's code is not part of this model).
- `Find` and `SearchSalts`: besides the result, they return the final salt and the list of addresses the oracle was asked about, so that their contracts can speak of them. The source returns only `{ address, salt }` or throws.
- `SearchSalts`: the per-iteration `exceptions` list is kept as in the source. It is re-created empty on each pass, so it never excludes a candidate. There is no lemma about it. Instead, the contracts of `SearchSalts` and `Find` describe the queries and the outcome without reference to it.
- `VerifyHooksInBytecode` returns the `found` list itself, not the `{ found }` wrapper object.
- Lower-casing is modelled for ASCII letters only. `toLowerCase` also folds other Unicode letters, and those cannot occur in a hex string.
- A `HookFlag` argument to `flagToString` is taken as any integer; its rendering agrees with JavaScript for safe integers (magnitude at most 2^53 - 1). Non-integer JavaScript numbers are not modelled.
- FlagToStringUnknown: renders the value as its exact decimal digits for every integer. Above 2^53 in magnitude, JavaScript prints the shortest digits that read back to the same double, padded with zeros (2^64 gives `Unknown(18446744073709552000)`), and from 10^21 on it prints exponent form (`Unknown(1e+21)`). Neither is modelled.
- FlagToString: the same gap. For values of magnitude above 2^53 the model's `Unknown(...)` string differs from the source's, which rounds the digits and, from 10^21 on, uses exponent form.
- IntToDecimal: is `${v}` only for safe integers (magnitude at most 2^53 - 1). Above that, JavaScript prints rounded digits (2^64 gives `18446744073709552000`), and from 10^21 on exponent form; the model always gives the exact digits.
- `constants.ts` and `types.ts` are not part of this model. The flag enumeration is taken from utils.ts:1-17, and addresses and byte strings are plain strings and byte sequences.
- The checksum casing of addresses is not modelled. The source compares and returns addresses in the lower-case form its own `computeAddress` produces.
