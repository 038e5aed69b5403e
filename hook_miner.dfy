/**
 * The CREATE2 salt miner (HookMiner.ts): derivation of the deployment
 * address from deployer, salt and creation code, the test of an address's
 * low 14 bits against a target flag mask, and the upward search for the
 * first salt whose address matches and holds no code.
 *
 * keccak256 is left uninterpreted (a parameter of type `Keccak256`) and
 * the `eth_getCode` request is an injected oracle (a parameter of type
 * `CodeOracle`), so the search itself is deterministic.
 */
module HookMiner {
  import opened Wrappers
  import opened Hex
  import opened Bits
  import opened HookFlags

  /** `FLAG_MASK`: the address bits the protocol reads as hook permissions. */
  const FlagMask: nat := 0x3fff

  /** A keccak256 digest. */
  type Digest = s: seq<Byte> | |s| == 32 witness seq(32, _ => 0)

  /** The 20 bytes of an account address. */
  type Address20 = s: seq<Byte> | |s| == 20 witness seq(20, _ => 0)

  /** keccak256 over byte strings, left uninterpreted. */
  type Keccak256 = seq<Byte> -> Digest

  /** Salts are packed as `uint256`; 2^256 and above cannot be encoded. */
  const SaltLimit: nat := 0x1_0000_0000_0000_0000_0000_0000_0000_0000_0000_0000_0000_0000_0000_0000_0000_0000

  /** The salt bound is 256^32, the numbers a 32-byte field holds. */
  lemma SaltLimitIs32Bytes()
    ensures SaltLimit == Pow256(32)
  {
    assert Pow256(8) == 0x1_0000_0000_0000_0000;
    Pow256Add(8, 8);
    assert Pow256(16) == 0x1_0000_0000_0000_0000_0000_0000_0000_0000;
    Pow256Add(16, 16);
  }

  /** An address as the search produces it: "0x" and 40 lower-case hex digits. */
  predicate IsHexAddress(a: string)
  {
    |a| == 42 && a[..2] == "0x" && forall i :: 2 <= i < 42 ==> IsLowerHexDigit(a[i])
  }

  /**
   * `solidityPacked(['bytes1', 'address', 'uint256', 'bytes32'], ['0xFF',
   * deployer, salt, initCodeHash])`: fixed-width fields, concatenated.
   */
  function PackCreate2(deployer: Address20, salt: nat, initCodeHash: Digest): (packed: seq<Byte>)
    requires salt < SaltLimit
    ensures |packed| == 85
    ensures packed[0] == 0xff && packed[1..21] == deployer && packed[53..] == initCodeHash
    ensures BEValue(packed[21..53]) == salt
  {
    SaltLimitIs32Bytes();
    BigEndianValue(salt, 32);
    var head := [0xff] + deployer;
    var body := head + BigEndian(salt, 32);
    var packed := body + initCodeHash;
    assert packed[..53] == body && packed[53..] == initCodeHash;
    assert body[..21] == head && body[21..] == BigEndian(salt, 32);
    assert head[1..] == deployer;
    assert packed[1..21] == body[1..21] == head[1..];
    assert packed[21..53] == body[21..];
    packed
  }

  /**
   * `computeAddress`: "0x" followed by the last 40 hex digits of
   * keccak256(0xff ++ deployer ++ salt ++ keccak256(creationCode)).
   */
  function ComputeAddress(keccak: Keccak256, deployer: Address20, salt: nat, creationCode: seq<Byte>): (addr: string)
    requires salt < SaltLimit
    ensures IsHexAddress(addr)
  {
    var hash := ToHex(keccak(PackCreate2(deployer, salt, keccak(creationCode))));
    "0x" + hash[|hash| - 40..]
  }

  /** The address is the low 20 bytes of the outer digest, in hex (EIP-1014's `[12:]`). */
  lemma ComputeAddressIsLow20Bytes(keccak: Keccak256, deployer: Address20, salt: nat, creationCode: seq<Byte>)
    requires salt < SaltLimit
    ensures ComputeAddress(keccak, deployer, salt, creationCode)
         == "0x" + HexDigits(keccak(PackCreate2(deployer, salt, keccak(creationCode)))[12..])
  {
    var digest := keccak(PackCreate2(deployer, salt, keccak(creationCode)));
    assert digest == digest[..12] + digest[12..];
    HexDigitsAppend(digest[..12], digest[12..]);
    var hash := ToHex(digest);
    assert hash[|hash| - 40..] == HexDigits(digest[12..]);
  }

  /** `BigInt(addr)`: the number an address string denotes. */
  function AddressValue(addr: string): nat
    requires IsHexAddress(addr)
  {
    HexValue(addr[2..])
  }

  /** `matchesFlags`: `BigInt(addr) & BigInt(FLAG_MASK) === flags`. */
  predicate MatchesFlags(addr: string, flags: int)
    requires IsHexAddress(addr)
  {
    And(AddressValue(addr), FlagMask) == flags
  }

  /** And-ing with `FLAG_MASK` = 2^14 - 1 keeps the remainder modulo 2^14. */
  lemma FlagMaskIsLow14Bits(x: nat)
    ensures And(x, FlagMask) == x % 0x4000
  {
    assert Pow2(14) == 0x4000;
    AndLowMask(x, 14);
  }

  /** A matching target lies in 0..0x3fff: a target with a bit at 14 or above never matches. */
  lemma MatchesFlagsRange(addr: string, flags: int)
    requires IsHexAddress(addr) && MatchesFlags(addr, flags)
    ensures 0 <= flags <= FlagMask
  {
    FlagMaskIsLow14Bits(AddressValue(addr));
  }

  /** The big-endian value of a byte string of at least two bytes, modulo 2^14, reads only its last two bytes. */
  lemma LowBitsOfBytes(bs: seq<Byte>)
    requires |bs| >= 2
    ensures BEValue(bs) % 0x4000 == (bs[|bs| - 2] as int % 64) * 256 + bs[|bs| - 1] as int
  {
    var n := |bs|;
    var init := bs[..n - 1];
    assert init[..n - 2] == bs[..n - 2];
    var high := BEValue(bs[..n - 2]);
    var hi, lo := bs[n - 2] as int, bs[n - 1] as int;
    assert BEValue(bs) == (high * 256 + hi) * 256 + lo;
    assert hi == 64 * (hi / 64) + hi % 64;
    var q, r := high * 4 + hi / 64, (hi % 64) * 256 + lo;
    assert BEValue(bs) == 0x4000 * q + r;
    DivisionUnique(BEValue(bs), 0x4000, q, r);
  }

  /**
   * A derived address matches `flags` exactly when the low six bits of the
   * digest's byte 30 and all of byte 31 spell `flags`.
   */
  lemma MatchesFlagsOfDigest(keccak: Keccak256, deployer: Address20, salt: nat, creationCode: seq<Byte>, flags: int)
    requires salt < SaltLimit
    ensures var digest := keccak(PackCreate2(deployer, salt, keccak(creationCode)));
            MatchesFlags(ComputeAddress(keccak, deployer, salt, creationCode), flags)
            <==> (digest[30] as int % 64) * 256 + digest[31] as int == flags
  {
    var digest := keccak(PackCreate2(deployer, salt, keccak(creationCode)));
    var addr := ComputeAddress(keccak, deployer, salt, creationCode);
    ComputeAddressIsLow20Bytes(keccak, deployer, salt, creationCode);
    assert addr[2..] == HexDigits(digest[12..]);
    HexValueOfDigits(digest[12..]);
    LowBitsOfBytes(digest[12..]);
    FlagMaskIsLow14Bits(AddressValue(addr));
  }

  /** Every number below 2^160 is the value of some address string. */
  lemma AddressOfValue(v: nat) returns (addr: string)
    requires v < Pow256(20)
    ensures IsHexAddress(addr) && AddressValue(addr) == v
  {
    var bs := BigEndian(v, 20);
    addr := "0x" + HexDigits(bs);
    assert addr[2..] == HexDigits(bs);
    HexValueOfDigits(bs);
    BigEndianValue(v, 20);
  }

  /** Exactly the targets 0..0x3fff are matched by some address. */
  lemma MatchableTargets(flags: int)
    ensures (exists addr :: IsHexAddress(addr) && MatchesFlags(addr, flags)) <==> 0 <= flags <= FlagMask
  {
    if exists addr :: IsHexAddress(addr) && MatchesFlags(addr, flags) {
      var addr :| IsHexAddress(addr) && MatchesFlags(addr, flags);
      MatchesFlagsRange(addr, flags);
    }
    if 0 <= flags <= FlagMask {
      assert flags < Pow256(20) by {
        assert Pow256(2) == 0x10000;
        Pow256Monotonic(2, 20);
      }
      var addr := AddressOfValue(flags);
      FlagMaskIsLow14Bits(flags);
      DivisionUnique(flags, 0x4000, 0, flags);
      assert MatchesFlags(addr, flags);
    }
  }

  /**
   * `encodeCreationCode`: the creation code, followed by the constructor
   * arguments when any are given (`solidityPacked(['bytes', 'bytes'], ...)`
   * is plain concatenation).
   */
  function EncodeCreationCode(creationCode: seq<Byte>, constructorArgs: Option<seq<Byte>>): (fullCode: seq<Byte>)
    ensures constructorArgs.None? ==> fullCode == creationCode
    ensures constructorArgs.Some? ==> |fullCode| == |creationCode| + |constructorArgs.value|
    ensures constructorArgs.Some? ==> fullCode[..|creationCode|] == creationCode
    ensures constructorArgs.Some? ==> fullCode[|creationCode|..] == constructorArgs.value
  {
    match constructorArgs
    case None => creationCode
    case Some(args) => creationCode + args
  }

  // ---------------------------------------------------------------------
  // The code oracle
  // ---------------------------------------------------------------------

  /** Why an `eth_getCode` request failed. */
  datatype OracleError =
    | RpcError(code: int, message: string)   // the response carried an `error` member
    | TransportError(message: string)        // the request or its decoding failed

  /** What `getCode` yields for an address: the deployed code as a hex string, or an error. */
  datatype CodeReply = Code(code: string) | Failure(error: OracleError)

  /** `getCode`, as a function of the address. */
  type CodeOracle = string -> CodeReply

  /** `code.length <= 2`: no code beyond the "0x" that denotes the empty byte string. */
  predicate IsEmptyCode(code: string)
  {
    |code| <= 2
  }

  // ---------------------------------------------------------------------
  // The search
  // ---------------------------------------------------------------------

  /** How `find` was asked to describe the permissions: named flags, or a raw mask. */
  datatype FlagsArg = Named(flags: seq<HookFlag>) | RawMask(mask: int)

  /** `Array.isArray(flags) ? encodeFlags(flags) : flags`. */
  function TargetFlags(flags: FlagsArg): (target: int)
    ensures flags.Named? ==> target == EncodeFlags(flags.flags) && 0 <= target < 0x8000
    ensures flags.RawMask? ==> target == flags.mask
    ensures flags.Named? && AllHookMask in flags.flags ==> target > FlagMask
  {
    match flags
    case Named(fs) =>
      EncodeFlagsBound(fs);
      EncodeFlagsWithAllHookMask(fs);
      EncodeFlags(fs)
    case RawMask(m) => m
  }

  /** What a `find` call ends in. */
  datatype FindResult =
    | Found(address: string, salt: string)
    | NotFound                                // the attempt bound ran out
    | OracleFailed(error: OracleError)        // `getCode` failed; the search is abandoned
    | SaltOutOfRange                          // the salt no longer fits a uint256

  /** The fixed inputs of one search. */
  datatype Search = Search(keccak: Keccak256, getCode: CodeOracle, deployer: Address20, target: int, fullCode: seq<Byte>)
  {
    /** The address salt `s` deploys to. */
    function Candidate(s: nat): string
      requires s < SaltLimit
    {
      ComputeAddress(keccak, deployer, s, fullCode)
    }

    /** The address of salt `s` carries the target flags. */
    predicate Matches(s: nat)
      requires s < SaltLimit
    {
      MatchesFlags(Candidate(s), target)
    }

    /** Salt `s` is what `find` looks for: its address matches and holds no code. */
    predicate Free(s: nat)
    {
      s < SaltLimit && Matches(s)
      && getCode(Candidate(s)).Code? && IsEmptyCode(getCode(Candidate(s)).code)
    }

    /** Salt `s` is skipped: its address fails the mask, or holds code. */
    predicate Skipped(s: nat)
    {
      s < SaltLimit
      && (!Matches(s) || (getCode(Candidate(s)).Code? && !IsEmptyCode(getCode(Candidate(s)).code)))
    }

    /** The addresses the oracle is asked about while salts `lo` up to `hi` are tried, in order. */
    function Queries(lo: nat, hi: nat): seq<string>
      requires lo <= hi
      decreases hi - lo
    {
      if lo == hi then []
      else Queries(lo, hi - 1) + (if hi - 1 < SaltLimit && Matches(hi - 1) then [Candidate(hi - 1)] else [])
    }
  }

  /** The search `find` runs for its arguments. */
  function SearchFor(keccak: Keccak256, getCode: CodeOracle, deployer: Address20, flags: FlagsArg,
                     creationCode: seq<Byte>, constructorArgs: Option<seq<Byte>>): Search
  {
    Search(keccak, getCode, deployer, TargetFlags(flags), EncodeCreationCode(creationCode, constructorArgs))
  }

  /** Every address in the query log passes the mask test. */
  lemma {:induction false} QueriesMatch(p: Search, lo: nat, hi: nat, a: string)
    requires lo <= hi && a in p.Queries(lo, hi)
    ensures IsHexAddress(a) && MatchesFlags(a, p.target)
    decreases hi - lo
  {
    if lo < hi {
      var h: nat := hi - 1;
      var prev := p.Queries(lo, h);
      if a in prev {
        QueriesMatch(p, lo, h, a);
      } else {
        assert a == p.Candidate(h);
      }
    }
  }

  /** A target above 0x3fff, such as any named list holding `ALL_HOOK_MASK`, skips every salt. */
  lemma WideTargetSkipsAll(p: Search, s: nat)
    requires p.target < 0 || p.target > FlagMask
    requires s < SaltLimit
    ensures p.Skipped(s) && !p.Free(s)
  {
    if p.Matches(s) {
      MatchesFlagsRange(p.Candidate(s), p.target);
    }
  }

  /**
   * Where `find` stands before trying salt `salt`: every salt from `start`
   * on was skipped, and `queried` lists the addresses asked about so far.
   */
  predicate Searched(p: Search, start: nat, salt: nat, queried: seq<string>)
  {
    start <= salt && (start < salt ==> salt <= SaltLimit)
    && (forall s :: start <= s < salt ==> p.Skipped(s))
    && queried == p.Queries(start, salt)
  }

  /** Skipping salt `salt` moves the search on by one salt. */
  lemma SkipStep(p: Search, start: nat, salt: nat, queried: seq<string>)
    requires Searched(p, start, salt, queried) && p.Skipped(salt)
    ensures Searched(p, start, salt + 1, queried + (if p.Matches(salt) then [p.Candidate(salt)] else []))
  {
    assert p.Queries(start, salt + 1) == queried + (if p.Matches(salt) then [p.Candidate(salt)] else []);
  }

  /**
   * The loop of `find` (HookMiner.ts:85-109) for fixed inputs `p`: tries
   * salts upward from `startSalt`, at most `maxAttempts` of them. Besides
   * the result, the final salt and the addresses the oracle was asked
   * about are returned.
   */
  method SearchSalts(p: Search, startSalt: nat, maxAttempts: nat)
    returns (result: FindResult, salt: nat, queried: seq<string>)
    ensures startSalt <= salt <= startSalt + maxAttempts
    ensures forall s :: startSalt <= s < salt ==> p.Skipped(s)
    ensures result.Found? ==>
      p.Free(salt) && result == Found(p.Candidate(salt), ToHex(BigEndian(salt, 32)))
      && queried == p.Queries(startSalt, salt + 1)
    ensures result.NotFound? ==> salt == startSalt + maxAttempts && queried == p.Queries(startSalt, salt)
    ensures !result.NotFound? ==> salt < startSalt + maxAttempts
    ensures result.OracleFailed? ==>
      salt < SaltLimit && p.Matches(salt) && p.getCode(p.Candidate(salt)) == Failure(result.error)
      && queried == p.Queries(startSalt, salt + 1)
    ensures result.SaltOutOfRange? ==>
      salt >= SaltLimit && (startSalt < salt ==> salt == SaltLimit) && queried == p.Queries(startSalt, salt)
    ensures (p.target < 0 || p.target > FlagMask) ==> !result.Found?
  {
    salt := startSalt;
    queried := [];
    while salt < startSalt + maxAttempts
      invariant salt <= startSalt + maxAttempts
      invariant Searched(p, startSalt, salt, queried)
    {
      if salt >= SaltLimit {
        return SaltOutOfRange, salt, queried;
      }
      ghost var before := queried;
      var exceptions: seq<string> := [];
      var candidate := ComputeAddress(p.keccak, p.deployer, salt, p.fullCode);
      if MatchesFlags(candidate, p.target) && candidate !in exceptions {
        var reply := p.getCode(candidate);
        queried := queried + [candidate];
        match reply {
          case Failure(e) =>
            return OracleFailed(e), salt, queried;
          case Code(code) =>
            if IsEmptyCode(code) {
              if p.target < 0 || p.target > FlagMask {
                WideTargetSkipsAll(p, salt);
              }
              return Found(candidate, ToHex(BigEndian(salt, 32))), salt, queried;
            }
        }
        exceptions := exceptions + [candidate];
      }
      SkipStep(p, startSalt, salt, before);
      salt := salt + 1;
    }
    return NotFound, salt, queried;
  }

  /**
   * `find`: computes the target mask and the full creation code, then
   * searches upward from `startSalt`; the first salt whose address matches
   * the target and holds no code is returned with the salt as a 32-byte
   * big-endian hex string. At most `maxAttempts` salts are tried.
   */
  method Find(keccak: Keccak256, getCode: CodeOracle, deployer: Address20, flags: FlagsArg,
              creationCode: seq<Byte>, constructorArgs: Option<seq<Byte>>, startSalt: nat, maxAttempts: nat)
    returns (result: FindResult, salt: nat, queried: seq<string>)
    ensures var p := SearchFor(keccak, getCode, deployer, flags, creationCode, constructorArgs);
      && startSalt <= salt <= startSalt + maxAttempts
      && (forall s :: startSalt <= s < salt ==> p.Skipped(s))
      && (result.Found? ==>
            p.Free(salt) && result == Found(p.Candidate(salt), ToHex(BigEndian(salt, 32)))
            && queried == p.Queries(startSalt, salt + 1))
      && (result.NotFound? ==> salt == startSalt + maxAttempts && queried == p.Queries(startSalt, salt))
      && (result.OracleFailed? ==>
            salt < SaltLimit && p.Matches(salt) && p.getCode(p.Candidate(salt)) == Failure(result.error)
            && queried == p.Queries(startSalt, salt + 1))
      && (result.SaltOutOfRange? ==>
            salt >= SaltLimit && (startSalt < salt ==> salt == SaltLimit) && queried == p.Queries(startSalt, salt))
    ensures !result.NotFound? ==> salt < startSalt + maxAttempts
    ensures flags.Named? && AllHookMask in flags.flags ==> !result.Found?
  {
    var targetFlags := TargetFlags(flags);
    var fullCode := EncodeCreationCode(creationCode, constructorArgs);
    var p := Search(keccak, getCode, deployer, targetFlags, fullCode);
    result, salt, queried := SearchSalts(p, startSalt, maxAttempts);
  }

  /** The reported salt string is "0x" and 64 hex digits whose value is the numeric salt. */
  lemma SaltEncoding(salt: nat)
    requires salt < SaltLimit
    ensures |ToHex(BigEndian(salt, 32))| == 66
    ensures var h := ToHex(BigEndian(salt, 32)); IsHexString(h[2..]) && HexValue(h[2..]) == salt
  {
    var h := ToHex(BigEndian(salt, 32));
    assert h[2..] == HexDigits(BigEndian(salt, 32));
    HexValueOfDigits(BigEndian(salt, 32));
    SaltLimitIs32Bytes();
    BigEndianValue(salt, 32);
  }
}
