/** Conversion between the native token's decimals and the 18 decimals of Ethereum. */
module Decimals {
  import opened Outcomes
  import opened Numbers
  import opened Arithmetic

  const EVM_DECIMALS: nat := 18
  const NATIVE_DECIMALS: nat := 15

  function Pow10(k: nat): (p: nat)
    ensures p > 0
  {
    if k == 0 then 1 else 10 * Pow10(k - 1)
  }

  function SaturatingMul(a: nat, b: nat, limit: nat): (r: nat)
    requires limit > 0
    ensures r < limit
  {
    if a * b < limit then a * b else limit - 1
  }

  /** The runtime: native to Ethereum, in 128 bits. */
  function ToEvm(ratio: u64, native: u128): u128 {
    if native == 0 then native else SaturatingMul(native, ratio, U128_LIMIT)
  }

  /** The runtime: Ethereum to native; an amount with a remainder is refused. */
  function FromEvm(ratio: u64, evm: u128): Option<u128> {
    if evm == 0 then Some(evm)
    else if ratio == 0 then None
    else if evm % ratio != 0 then None
    else Some(evm / ratio)
  }

  /** The server: the ratio for the decimals that the node reports; more than 18 aborts. */
  function NativeToEvmRatio(nativeDecimals: u64): Outcome<nat, ()> {
    if nativeDecimals > EVM_DECIMALS then Panic else Ok(Pow10(EVM_DECIMALS - nativeDecimals))
  }

  /** The server: native to Ethereum, in 256 bits. */
  function NativeToEvmDecimals(ratio: u256, native: u256): u256 {
    SaturatingMul(native, ratio, U256_LIMIT)
  }

  lemma {:induction false} Pow10Bound(k: nat)
    requires k <= EVM_DECIMALS
    ensures Pow10(k) <= 1_000_000_000_000_000_000 < U64_LIMIT
    decreases EVM_DECIMALS - k
  {
    if k == EVM_DECIMALS {
      assert Pow10(9) == 1_000_000_000;
      assert Pow10(18) == 1_000_000_000_000_000_000;
    } else {
      Pow10Bound(k + 1);
    }
  }

  /** Converting back from Ethereum is exact: an amount is accepted exactly when it is a multiple of
      the ratio, and then converting it again gives the same amount. With a ratio of zero, only nothing is. */
  lemma FromEvmIsExact(ratio: u64, evm: u128)
    ensures ratio > 0 ==> (FromEvm(ratio, evm).Some? <==> evm % ratio == 0)
    ensures ratio == 0 ==> (FromEvm(ratio, evm).Some? <==> evm == 0)
    ensures FromEvm(ratio, evm).Some? ==> ToEvm(ratio, FromEvm(ratio, evm).value) == evm
  {
    if ratio > 0 {
      assert evm == evm / ratio * ratio + evm % ratio;
    }
  }

  /** Converting to Ethereum gives the product, or the largest amount if that is more. */
  lemma ToEvmSaturates(ratio: u64, native: u128)
    ensures ToEvm(ratio, native) <= native * ratio
    ensures ToEvm(ratio, native) == native * ratio || (ToEvm(ratio, native) == U128_LIMIT - 1 < native * ratio)
  {
  }

  /** The saturated amount is no multiple of ten, so it never converts back. */
  lemma SaturatedIsNoMultiple(k: nat)
    requires k > 0
    ensures (U128_LIMIT - 1) % Pow10(k) != 0
  {
    if (U128_LIMIT - 1) % Pow10(k) == 0 {
      DividesFactor(U128_LIMIT - 1, 10, Pow10(k - 1));
    }
  }

  lemma ConvertsBack(ratio: u64, native: u128)
    requires ratio > 0 && native * ratio < U128_LIMIT
    ensures FromEvm(ratio, ToEvm(ratio, native)) == Some(native)
  {
    DivModUnique(native * ratio, ratio, native, 0);
  }

  /** For every ratio 10^k with k <= 18 and every native balance: there and back again gives the same
      balance, or nothing, and nothing exactly when the conversion saturated. No wrong amount. */
  lemma DecimalsRoundTrip(k: nat, native: u128)
    requires k <= EVM_DECIMALS
    ensures Pow10(k) < U64_LIMIT
    ensures FromEvm(Pow10(k), ToEvm(Pow10(k), native))
         == if native * Pow10(k) < U128_LIMIT then Some(native) else None
  {
    hide Pow10;
    Pow10Bound(k);
    if native * Pow10(k) < U128_LIMIT {
      ConvertsBack(Pow10(k), native);
    } else {
      OneDoesNotSaturate(k, native);
      SaturatedIsNoMultiple(k);
    }
  }

  lemma OneDoesNotSaturate(k: nat, native: u128)
    requires native * Pow10(k) >= U128_LIMIT
    ensures k > 0 && native > 0
  {
  }

  /** The server never saturates on a native balance, and shows the amount that the runtime computes
      exactly when the runtime does not saturate. */
  lemma ServerAgreesWithRuntime(nativeDecimals: u64, native: u128)
    requires NativeToEvmRatio(nativeDecimals).Ok?
    ensures NativeToEvmRatio(nativeDecimals).value < U64_LIMIT
    ensures var ratio := NativeToEvmRatio(nativeDecimals).value;
            && NativeToEvmDecimals(ratio, native) == native * ratio
            && (NativeToEvmDecimals(ratio, native) == ToEvm(ratio, native) <==> native * ratio < U128_LIMIT)
  {
    hide Pow10;
    Pow10Bound(EVM_DECIMALS - nativeDecimals);
    BalanceTimesRatioFits(NativeToEvmRatio(nativeDecimals).value, native);
  }

  lemma BalanceTimesRatioFits(ratio: u64, native: u128)
    ensures native * ratio < U128_LIMIT * U64_LIMIT < U256_LIMIT
  {
    ProductStep(native, U128_LIMIT, ratio);
    ProductStep(ratio, U64_LIMIT, U128_LIMIT);
  }

  /** The runtime: the ratio that is compiled in. */
  function RuntimeRatio(): u64 {
    Pow10Bound(EVM_DECIMALS - NATIVE_DECIMALS);
    Pow10(EVM_DECIMALS - NATIVE_DECIMALS)
  }

  lemma {:induction false} Pow10Increases(j: nat, k: nat)
    requires j < k
    ensures Pow10(j) < Pow10(k)
  {
    if j == k - 1 {
    } else {
      Pow10Increases(j, k - 1);
    }
  }

  /** Server and runtime use the same ratio exactly when the node reports the decimals that the runtime
      was compiled for; with any other number the server shows a wrong amount for every balance but zero
      that the runtime can convert. */
  lemma RatiosAgree(nativeDecimals: u64, native: u128)
    requires NativeToEvmRatio(nativeDecimals).Ok? && native > 0 && native * RuntimeRatio() < U128_LIMIT
    ensures NativeToEvmRatio(nativeDecimals).value < U64_LIMIT && RuntimeRatio() == 1000
    ensures NativeToEvmRatio(nativeDecimals).value == RuntimeRatio() <==> nativeDecimals == NATIVE_DECIMALS
    ensures NativeToEvmDecimals(NativeToEvmRatio(nativeDecimals).value, native) == ToEvm(RuntimeRatio(), native)
       <==> nativeDecimals == NATIVE_DECIMALS
  {
    assert Pow10(3) == 1000;
    hide Pow10;
    var server, runtime := EVM_DECIMALS - nativeDecimals, EVM_DECIMALS - NATIVE_DECIMALS;
    if server < runtime {
      Pow10Increases(server, runtime);
      StrictProduct(native, Pow10(server), Pow10(runtime));
    } else if runtime < server {
      Pow10Increases(runtime, server);
      StrictProduct(native, Pow10(runtime), Pow10(server));
    }
    ServerAgreesWithRuntime(nativeDecimals, native);
  }

  lemma StrictProduct(n: nat, a: nat, b: nat)
    requires n > 0 && a < b
    ensures n * a < n * b
  {
  }

  /** The server starts exactly with nodes of at most 18 decimals, and its ratio restores the others. */
  lemma ServerRatio(nativeDecimals: u64)
    ensures NativeToEvmRatio(nativeDecimals) == Panic <==> nativeDecimals > 18
    ensures nativeDecimals <= 18 ==>
              NativeToEvmRatio(nativeDecimals).Ok?
              && NativeToEvmRatio(nativeDecimals).value * Pow10(nativeDecimals) == Pow10(18)
  {
    hide Pow10;
    if nativeDecimals <= 18 {
      Pow10Adds(EVM_DECIMALS - nativeDecimals, nativeDecimals);
    }
  }

  lemma {:induction false} Pow10Adds(j: nat, k: nat)
    ensures Pow10(j) * Pow10(k) == Pow10(j + k)
  {
    if k == 0 {
    } else {
      Pow10Adds(j, k - 1);
      assert Pow10(j) * (10 * Pow10(k - 1)) == 10 * (Pow10(j) * Pow10(k - 1));
    }
  }
}
