/**
 * The hook capability flags of a hook contract and what can be computed
 * from them (utils.ts): the flag enumeration, the bitmask a list of flags
 * encodes to, the table of callback selectors, the scan of a bytecode
 * string for those selectors, the difference of two flag lists, and the
 * reverse lookup from a numeric value to its name.
 */
module HookFlags {
  import opened Wrappers
  import opened Text
  import opened Bits

  /** The members of the `HookFlag` enum; `Value()` is the number each member stands for. */
  datatype HookFlag =
    | AllHookMask
    | BeforeInitialize
    | AfterInitialize
    | BeforeAddLiquidity
    | AfterAddLiquidity
    | BeforeRemoveLiquidity
    | AfterRemoveLiquidity
    | BeforeSwap
    | AfterSwap
    | BeforeDonate
    | AfterDonate
    | BeforeSwapReturnsDelta
    | AfterSwapReturnsDelta
    | AfterAddLiquidityReturnsDelta
    | AfterRemoveLiquidityReturnsDelta
  {
    /** The enum value, which is also the flag's bit position in a hook address. */
    function Value(): (v: nat)
      ensures v < 15
    {
      match this
      case AllHookMask => 14
      case BeforeInitialize => 13
      case AfterInitialize => 12
      case BeforeAddLiquidity => 11
      case AfterAddLiquidity => 10
      case BeforeRemoveLiquidity => 9
      case AfterRemoveLiquidity => 8
      case BeforeSwap => 7
      case AfterSwap => 6
      case BeforeDonate => 5
      case AfterDonate => 4
      case BeforeSwapReturnsDelta => 3
      case AfterSwapReturnsDelta => 2
      case AfterAddLiquidityReturnsDelta => 1
      case AfterRemoveLiquidityReturnsDelta => 0
    }

    /** The member's name as the enum declares it. */
    function Name(): string
    {
      match this
      case AllHookMask => "ALL_HOOK_MASK"
      case BeforeInitialize => "BEFORE_INITIALIZE"
      case AfterInitialize => "AFTER_INITIALIZE"
      case BeforeAddLiquidity => "BEFORE_ADD_LIQUIDITY"
      case AfterAddLiquidity => "AFTER_ADD_LIQUIDITY"
      case BeforeRemoveLiquidity => "BEFORE_REMOVE_LIQUIDITY"
      case AfterRemoveLiquidity => "AFTER_REMOVE_LIQUIDITY"
      case BeforeSwap => "BEFORE_SWAP"
      case AfterSwap => "AFTER_SWAP"
      case BeforeDonate => "BEFORE_DONATE"
      case AfterDonate => "AFTER_DONATE"
      case BeforeSwapReturnsDelta => "BEFORE_SWAP_RETURNS_DELTA"
      case AfterSwapReturnsDelta => "AFTER_SWAP_RETURNS_DELTA"
      case AfterAddLiquidityReturnsDelta => "AFTER_ADD_LIQUIDITY_RETURNS_DELTA"
      case AfterRemoveLiquidityReturnsDelta => "AFTER_REMOVE_LIQUIDITY_RETURNS_DELTA"
    }
  }

  /** No two members share a value. */
  lemma ValueInjective(f: HookFlag, g: HookFlag)
    requires f.Value() == g.Value()
    ensures f == g
  {
  }

  /** The members in declaration order, values 14 down to 0. */
  function DeclaredFlags(): (fs: seq<HookFlag>)
    ensures |fs| == 15
    ensures forall i :: 0 <= i < 15 ==> fs[i].Value() == 14 - i
  {
    [AllHookMask, BeforeInitialize, AfterInitialize, BeforeAddLiquidity, AfterAddLiquidity,
     BeforeRemoveLiquidity, AfterRemoveLiquidity, BeforeSwap, AfterSwap, BeforeDonate,
     AfterDonate, BeforeSwapReturnsDelta, AfterSwapReturnsDelta, AfterAddLiquidityReturnsDelta,
     AfterRemoveLiquidityReturnsDelta]
  }

  /**
   * The members in the order `Object.entries` visits the keys of a record
   * indexed by them: integer-like keys come first, in ascending numeric order.
   */
  function AscendingFlags(): (fs: seq<HookFlag>)
    ensures |fs| == 15
    ensures forall i :: 0 <= i < 15 ==> fs[i].Value() == i
  {
    var d := DeclaredFlags();
    seq(15, i requires 0 <= i < 15 => d[14 - i])
  }

  // ---------------------------------------------------------------------
  // Selector table
  // ---------------------------------------------------------------------

  /** `hookSelectors`: callback function name to its 4-byte selector. */
  const HookSelectors: map<string, string> := map[
    "beforeInitialize" := "0xdc98354e",
    "afterInitialize" := "0x6fe7e6eb",
    "beforeAddLiquidity" := "0x259982e5",
    "afterAddLiquidity" := "0x9f063efc",
    "beforeRemoveLiquidity" := "0x21d0ee70",
    "afterRemoveLiquidity" := "0x6c2bbe7e",
    "beforeSwap" := "0x575e24b4",
    "afterSwap" := "0x23570d03",
    "beforeDonate" := "0xb6a8b0fa",
    "afterDonate" := "0xe1b4af69"
  ]

  /**
   * `hookFlagToFunctionName`: the callback a flag stands for. The mask flag
   * and the four return-delta flags have none.
   */
  function FunctionName(f: HookFlag): (name: Option<string>)
    ensures name.None? <==> f == AllHookMask || f.Value() <= 3
    ensures name.Some? ==> name.value in HookSelectors
  {
    match f
    case AllHookMask => None
    case BeforeInitialize => Some("beforeInitialize")
    case AfterInitialize => Some("afterInitialize")
    case BeforeAddLiquidity => Some("beforeAddLiquidity")
    case AfterAddLiquidity => Some("afterAddLiquidity")
    case BeforeRemoveLiquidity => Some("beforeRemoveLiquidity")
    case AfterRemoveLiquidity => Some("afterRemoveLiquidity")
    case BeforeSwap => Some("beforeSwap")
    case AfterSwap => Some("afterSwap")
    case BeforeDonate => Some("beforeDonate")
    case AfterDonate => Some("afterDonate")
    case BeforeSwapReturnsDelta => None
    case AfterSwapReturnsDelta => None
    case AfterAddLiquidityReturnsDelta => None
    case AfterRemoveLiquidityReturnsDelta => None
  }

  /** `hasSelectorInBytecode`: the normalized selector is a substring of the normalized bytecode. */
  predicate HasSelectorInBytecode(bytecode: string, selector: string)
  {
    Includes(Normalize(bytecode), Normalize(selector))
  }

  /** `HasSelectorInBytecode` holds exactly when some window of the normalized bytecode is the normalized selector. */
  lemma HasSelectorIff(bytecode: string, selector: string)
    ensures HasSelectorInBytecode(bytecode, selector)
        <==> exists i: nat :: OccursAt(Normalize(bytecode), Normalize(selector), i)
  {
    IncludesIff(Normalize(bytecode), Normalize(selector));
  }

  /** One leading "0x" on either argument makes no difference (unless the rest starts with "0x" again). */
  lemma HasSelectorIgnoresPrefix(bytecode: string, selector: string)
    ensures !HasHexPrefix(bytecode) ==>
      HasSelectorInBytecode("0x" + bytecode, selector) == HasSelectorInBytecode(bytecode, selector)
    ensures !HasHexPrefix(selector) ==>
      HasSelectorInBytecode(bytecode, "0x" + selector) == HasSelectorInBytecode(bytecode, selector)
  {
    assert ("0x" + bytecode)[2..] == bytecode;
    assert ("0x" + selector)[2..] == selector;
  }

  /** The usual call, with both arguments prefixed, answers as if neither were. */
  lemma HasSelectorBothPrefixed(bytecode: string, selector: string)
    requires !HasHexPrefix(bytecode) && !HasHexPrefix(selector)
    ensures HasSelectorInBytecode("0x" + bytecode, "0x" + selector) == HasSelectorInBytecode(bytecode, selector)
  {
    HasSelectorIgnoresPrefix(bytecode, selector);
    HasSelectorIgnoresPrefix("0x" + bytecode, selector);
  }

  /** Arguments that differ only in letter case normalize alike, provided they agree on carrying a "0x" prefix. */
  lemma NormalizeIgnoresCase(s: string, t: string)
    requires Lower(s) == Lower(t) && HasHexPrefix(s) == HasHexPrefix(t)
    ensures Normalize(s) == Normalize(t)
  {
    if HasHexPrefix(s) {
      LowerDrop(s, 2);
      LowerDrop(t, 2);
    }
  }

  /** `hasSelectorInBytecode` ignores letter case on both arguments. */
  lemma HasSelectorIgnoresCase(bytecode: string, bytecode': string, selector: string, selector': string)
    requires Lower(bytecode) == Lower(bytecode') && HasHexPrefix(bytecode) == HasHexPrefix(bytecode')
    requires Lower(selector) == Lower(selector') && HasHexPrefix(selector) == HasHexPrefix(selector')
    ensures HasSelectorInBytecode(bytecode, selector) == HasSelectorInBytecode(bytecode', selector')
  {
    NormalizeIgnoresCase(bytecode, bytecode');
    NormalizeIgnoresCase(selector, selector');
  }

  /**
   * The prefix pattern is case-sensitive and runs before lower-casing: an
   * upper-case "0X" prefix is not stripped, and comes out as "0x".
   */
  lemma UpperCasePrefixNormalize(s: string)
    ensures Normalize("0X" + s) == "0x" + Lower(s)
  {
    LowerAppend("0X", s);
    assert Lower("0X") == "0x";
  }

  /** So a selector written "0X..." is searched for with "0x" still in front. */
  lemma UpperCasePrefixSelector(bytecode: string, s: string)
    ensures HasSelectorInBytecode(bytecode, "0X" + s) == Includes(Normalize(bytecode), "0x" + Lower(s))
  {
    UpperCasePrefixNormalize(s);
  }

  /**
   * A concrete case: the selector is found in itself, but not when written
   * with "0X", since the normalized bytecode has no "0x" left in it.
   */
  lemma UpperCasePrefixIsKept()
    ensures HasSelectorInBytecode("0xdc98354e", "0xdc98354e")
    ensures !HasSelectorInBytecode("0xdc98354e", "0XDC98354E")
  {
    assert Normalize("0xdc98354e") == "dc98354e";
    assert Normalize("0XDC98354E") == "0xdc98354e";
    assert Includes("dc98354e", "dc98354e");
  }

  /** A flag counts as implemented when it has a callback and its selector occurs in the bytecode. */
  predicate Implements(bytecode: string, f: HookFlag)
  {
    FunctionName(f).Some? && HasSelectorInBytecode(bytecode, HookSelectors[FunctionName(f).value])
  }

  /** Only flags with a callback can be implemented: the mask flag and the return-delta flags never are. */
  lemma ImplementedRange(bytecode: string, f: HookFlag)
    requires Implements(bytecode, f)
    ensures 4 <= f.Value() <= 13
  {
    if f.Value() == 14 {
      ValueInjective(f, AllHookMask);
    }
  }

  /**
   * What a scan in ascending order of value has established after visiting
   * the flags with values below `k`: `found` holds exactly those among them
   * that satisfy `wanted`, in ascending order of value.
   */
  predicate Collected(wanted: HookFlag -> bool, found: seq<HookFlag>, k: nat)
  {
    && (forall f :: f in found <==> f.Value() < k && wanted(f))
    && (forall i, j :: 0 <= i < j < |found| ==> found[i].Value() < found[j].Value())
    && (forall i :: 0 <= i < |found| ==> found[i].Value() < k)
  }

  /** Visiting the flag with value `k` extends the scan by one position. */
  lemma ScanStep(wanted: HookFlag -> bool, found: seq<HookFlag>, k: nat, flag: HookFlag)
    requires Collected(wanted, found, k) && flag.Value() == k
    ensures Collected(wanted, if wanted(flag) then found + [flag] else found, k + 1)
  {
    forall f: HookFlag | f.Value() == k
      ensures f == flag
    {
      ValueInjective(f, flag);
    }
  }

  /**
   * `verifyHooksInBytecode`: walks the flag-to-function table in key order
   * and collects every flag whose selector occurs in the bytecode.
   */
  method VerifyHooksInBytecode(bytecode: string) returns (found: seq<HookFlag>)
    ensures forall f :: f in found <==> Implements(bytecode, f)
    ensures forall i, j :: 0 <= i < j < |found| ==> found[i].Value() < found[j].Value()
    ensures forall i :: 0 <= i < |found| ==> 4 <= found[i].Value() <= 13
  {
    ghost var implemented := f => Implements(bytecode, f);
    var normalizedBytecode := Normalize(bytecode);
    found := [];
    var entries := AscendingFlags();
    for k := 0 to |entries|
      invariant Collected(implemented, found, k)
    {
      var flag := entries[k];
      ScanStep(implemented, found, k, flag);
      var functionName := FunctionName(flag);
      if functionName.None? {
        continue;
      }
      var selector := Normalize(HookSelectors[functionName.value]);
      if Includes(normalizedBytecode, selector) {
        found := found + [flag];
      }
    }
    forall i | 0 <= i < |found|
      ensures 4 <= found[i].Value() <= 13
    {
      ImplementedRange(bytecode, found[i]);
    }
  }

  // ---------------------------------------------------------------------
  // Flag list difference
  // ---------------------------------------------------------------------

  /** `a` can be obtained from `b` by deleting elements. */
  predicate IsSubsequence<T(==)>(a: seq<T>, b: seq<T>)
    decreases |b|
  {
    a == [] || (b != [] && if a[0] == b[0] then IsSubsequence(a[1..], b[1..]) else IsSubsequence(a, b[1..]))
  }

  /**
   * `checkExtraFlags`: the flags of `found` that are not in `flags`, in the
   * order and with the multiplicity they have in `found`.
   */
  function CheckExtraFlags(found: seq<HookFlag>, flags: seq<HookFlag>): (extra: seq<HookFlag>)
    ensures forall f :: f in extra <==> f in found && f !in flags
    ensures forall f :: multiset(extra)[f] == if f in flags then 0 else multiset(found)[f]
    ensures IsSubsequence(extra, found)
  {
    if found == [] then []
    else
      var rest := CheckExtraFlags(found[1..], flags);
      assert found == [found[0]] + found[1..];
      if found[0] !in flags then [found[0]] + rest else rest
  }

  // ---------------------------------------------------------------------
  // Bitmask encoding
  // ---------------------------------------------------------------------

  /** Some member of `flags` has value `p`. */
  predicate ListsValue(flags: seq<HookFlag>, p: nat)
  {
    exists f :: f in flags && f.Value() == p
  }

  /** The `reduce` step: or-ing in `1n << BigInt(flag)` for each flag, left to right. */
  function EncodeFrom(acc: nat, flags: seq<HookFlag>): nat
    decreases |flags|
  {
    if flags == [] then acc else EncodeFrom(Or(acc, Pow2(flags[0].Value())), flags[1..])
  }

  /** `encodeFlags`: the bitmask of a flag list, starting from 0. */
  function EncodeFlags(flags: seq<HookFlag>): nat
  {
    EncodeFrom(0, flags)
  }

  /** Folding from `acc` sets exactly the bits of `acc` and the values of the listed flags. */
  lemma {:induction false} EncodeFromBit(acc: nat, flags: seq<HookFlag>, p: nat)
    ensures TestBit(EncodeFrom(acc, flags), p) <==> TestBit(acc, p) || ListsValue(flags, p)
    decreases |flags|
  {
    if flags != [] {
      var h, tail := flags[0], flags[1..];
      EncodeFromBit(Or(acc, Pow2(h.Value())), tail, p);
      OrBit(acc, Pow2(h.Value()), p);
      Pow2Bit(h.Value(), p);
      assert flags == [h] + tail;
      if ListsValue(tail, p) {
        var f :| f in tail && f.Value() == p;
        assert f in flags;
      }
      if ListsValue(flags, p) && h.Value() != p {
        var f :| f in flags && f.Value() == p;
        assert f in tail;
      }
    } else {
      assert !ListsValue(flags, p);
    }
  }

  /** Bit `p` of the mask is set exactly when some listed flag has value `p`. */
  lemma EncodeFlagsBit(flags: seq<HookFlag>, p: nat)
    ensures TestBit(EncodeFlags(flags), p) <==> ListsValue(flags, p)
  {
    EncodeFromBit(0, flags, p);
    ZeroHasNoBits(p);
  }

  /** The bit of a flag is set in the mask exactly when the flag occurs in the list. */
  lemma EncodeFlagsMember(flags: seq<HookFlag>, g: HookFlag)
    ensures TestBit(EncodeFlags(flags), g.Value()) <==> g in flags
  {
    EncodeFlagsBit(flags, g.Value());
    if ListsValue(flags, g.Value()) {
      var f :| f in flags && f.Value() == g.Value();
      ValueInjective(f, g);
    }
  }

  /** Every mask is below 2^15: no flag sits above bit 14. */
  lemma {:induction false} EncodeFromBound(acc: nat, flags: seq<HookFlag>)
    requires acc < Pow2(15)
    ensures EncodeFrom(acc, flags) < Pow2(15)
    decreases |flags|
  {
    if flags != [] {
      var v := flags[0].Value();
      assert Pow2(v) <= Pow2(15) by {
        Pow2Monotonic(v, 15);
      }
      if Pow2(v) == Pow2(15) {
        Pow2Bit(15, v);
        Pow2Bit(v, v);
      }
      OrBelow(acc, Pow2(v), 15);
      EncodeFromBound(Or(acc, Pow2(v)), flags[1..]);
    }
  }

  /** The mask of any list lies in 0..0x7fff. */
  lemma EncodeFlagsBound(flags: seq<HookFlag>)
    ensures EncodeFlags(flags) < 0x8000
  {
    assert Pow2(15) == 0x8000;
    EncodeFromBound(0, flags);
  }

  /** The empty list encodes to 0, and only the empty list does. */
  lemma EncodeFlagsZero(flags: seq<HookFlag>)
    ensures EncodeFlags(flags) == 0 <==> flags == []
  {
    if flags != [] {
      EncodeFlagsMember(flags, flags[0]);
      ZeroHasNoBits(flags[0].Value());
    }
  }

  /** Lists with the same members encode alike, whatever their order and repetitions. */
  lemma EncodeFlagsSameMembers(a: seq<HookFlag>, b: seq<HookFlag>)
    requires forall f :: f in a <==> f in b
    ensures EncodeFlags(a) == EncodeFlags(b)
  {
    forall p: nat
      ensures TestBit(EncodeFlags(a), p) == TestBit(EncodeFlags(b), p)
    {
      EncodeFlagsBit(a, p);
      EncodeFlagsBit(b, p);
      if ListsValue(a, p) {
        var f :| f in a && f.Value() == p;
        assert f in b;
      }
      if ListsValue(b, p) {
        var f :| f in b && f.Value() == p;
        assert f in a;
      }
    }
    BitsDetermineValue(EncodeFlags(a), EncodeFlags(b));
  }

  /** Any permutation of a list gives the same mask. */
  lemma EncodeFlagsPermutation(a: seq<HookFlag>, b: seq<HookFlag>)
    requires multiset(a) == multiset(b)
    ensures EncodeFlags(a) == EncodeFlags(b)
  {
    assert forall f :: f in a <==> f in multiset(a);
    assert forall f :: f in b <==> f in multiset(b);
    EncodeFlagsSameMembers(a, b);
  }

  /** Repeating a flag that is already listed does not change the mask. */
  lemma EncodeFlagsDuplicate(a: seq<HookFlag>, f: HookFlag, k: nat)
    requires f in a && k <= |a|
    ensures EncodeFlags(a[..k] + [f] + a[k..]) == EncodeFlags(a)
  {
    var b := a[..k] + [f] + a[k..];
    assert a == a[..k] + a[k..];
    assert forall g :: g in b <==> g in a;
    EncodeFlagsSameMembers(b, a);
  }

  /** Listing `ALL_HOOK_MASK` sets bit 14, so the mask is at least 0x4000. */
  lemma EncodeFlagsWithAllHookMask(flags: seq<HookFlag>)
    ensures AllHookMask in flags ==> EncodeFlags(flags) >= 0x4000
  {
    EncodeFlagsMember(flags, AllHookMask);
    if EncodeFlags(flags) < 0x4000 {
      assert Pow2(14) == 0x4000;
      NoBitsAbove(EncodeFlags(flags), 14, 14);
    }
  }

  // ---------------------------------------------------------------------
  // Reverse lookup of names
  // ---------------------------------------------------------------------

  /**
   * The (name, value) entries of the enum object that carry a number, in
   * declaration order. The object's reverse entries (key "14", value
   * "ALL_HOOK_MASK", ...) carry strings and never equal a number.
   */
  function EnumEntries(): (es: seq<(string, int)>)
    ensures |es| == 15
    ensures forall i :: 0 <= i < 15 ==> es[i] == (DeclaredFlags()[i].Name(), 14 - i)
  {
    var d := DeclaredFlags();
    seq(15, i requires 0 <= i < 15 => (d[i].Name(), d[i].Value()))
  }

  /** `entries.find(([_, v]) => v === flag)?.[0]`: the key of the first entry holding `v`. */
  function FindKey(entries: seq<(string, int)>, v: int): Option<string>
  {
    if entries == [] then None
    else if entries[0].1 == v then Some(entries[0].0)
    else FindKey(entries[1..], v)
  }

  /** The first entry holding `v` is the one `FindKey` reports. */
  lemma {:induction false} FindKeyFirst(entries: seq<(string, int)>, i: nat)
    requires i < |entries|
    requires forall j :: 0 <= j < i ==> entries[j].1 != entries[i].1
    ensures FindKey(entries, entries[i].1) == Some(entries[i].0)
  {
    if i > 0 {
      FindKeyFirst(entries[1..], i - 1);
    }
  }

  /** No entry holds `v`, so `FindKey` finds nothing. */
  lemma {:induction false} FindKeyAbsent(entries: seq<(string, int)>, v: int)
    requires forall j :: 0 <= j < |entries| ==> entries[j].1 != v
    ensures FindKey(entries, v) == None
  {
    if entries != [] {
      FindKeyAbsent(entries[1..], v);
    }
  }

  /** `flagToString`: the member name of a value, or "Unknown(<value>)". */
  function FlagToString(flag: int): string
  {
    match FindKey(EnumEntries(), flag)
    case Some(name) => name
    case None => "Unknown(" + IntToDecimal(flag) + ")"
  }

  /** Every member's value maps back to the member's own name. */
  lemma FlagToStringCanonical(f: HookFlag)
    ensures FlagToString(f.Value()) == f.Name()
  {
    var es := EnumEntries();
    var i := 14 - f.Value();
    ValueInjective(DeclaredFlags()[i], f);
    FindKeyFirst(es, i);
  }

  /** Every value outside 0..14 maps to the placeholder. */
  lemma FlagToStringUnknown(v: int)
    requires v < 0 || v > 14
    ensures FlagToString(v) == "Unknown(" + IntToDecimal(v) + ")"
  {
    FindKeyAbsent(EnumEntries(), v);
  }
}
