/** The gas estimate that the server quotes, and the gas that a receipt reports. */
module Fees {
  import opened Outcomes
  import opened Numbers
  import opened Arithmetic
  import opened Runtime

  /** The fixed gas price of the server. */
  const GAS_PRICE: u128 := 1

  /** The gas limit quoted for a total fee at a gas price: a 256-bit number. */
  function Quote(totalFee: u128, gasPrice: nat): u256
    requires gasPrice > 0
  {
    totalFee / gasPrice + 1
  }

  /** The fee of the dry run's weight plus the deposit it charges, at the server's price. */
  function GasEstimate(env: Environment, weight: Weight, deposit: Option<u128>): Outcome<u256, ValidityError> {
    var totalFee :- U128(env.overflow, env.weightToFee(weight) + OrZero(deposit));
    Ok(Quote(totalFee, GAS_PRICE))
  }

  /** What the payment event says was paid, in units of the gas price; a price of zero gives zero. */
  function GasUsed(tip: u128, actualFee: u128, gasPrice: u64): u128 {
    var paid := if tip + actualFee < U128_LIMIT then tip + actualFee else U128_LIMIT - 1;
    if gasPrice == 0 then 0 else paid / gasPrice
  }

  lemma QuoteBounds(total: u128, price: nat)
    requires price > 0
    ensures Quote(total, price) * price == total / price * price + price
    ensures total < Quote(total, price) * price <= total + price
    ensures Quote(total, price) <= Quote(total, price) * price
  {
    QuotientBounds(total, price);
    if price > 1 {
      ProductStep(1, price, Quote(total, price));
    }
  }

  /** The quote passes the fee check at its price exactly when quote times price fits 128 bits. */
  lemma QuoteIsSufficient(env: Environment, gasPrice: u64, weight: Weight, deposit: u128)
    requires gasPrice > 0 && env.weightToFee(weight) + deposit < U128_LIMIT
    ensures var quote := Quote(env.weightToFee(weight) + deposit, gasPrice);
            quote < U128_LIMIT && ValidateFee(env, gasPrice, quote, weight, deposit).Ok?
            <==> quote * gasPrice < U128_LIMIT
  {
    var total := env.weightToFee(weight) + deposit;
    var quote := Quote(total, gasPrice);
    QuoteBounds(total, gasPrice);
    var offered := quote * gasPrice;
    if offered < U128_LIMIT {
      ValidateFeeExact(env, gasPrice, quote, weight, deposit);
    } else if quote < U128_LIMIT {
      WrappedOfferFails(env, gasPrice, quote, weight, deposit);
    }
  }

  lemma WrappedOfferFails(env: Environment, gasPrice: u64, gasLimit: u128, weight: Weight, deposit: u128)
    requires U128_LIMIT <= gasLimit * gasPrice <= env.weightToFee(weight) + deposit + gasPrice
    requires env.weightToFee(weight) + deposit < U128_LIMIT
    ensures !ValidateFee(env, gasPrice, gasLimit, weight, deposit).Ok?
  {
    DivModUnique(gasLimit * gasPrice, U128_LIMIT, 1, gasLimit * gasPrice - U128_LIMIT);
  }

  /** No limit that passes is more than one below the quote. */
  lemma QuoteIsTight(env: Environment, gasPrice: u64, gasLimit: u128, weight: Weight, deposit: u128)
    requires gasPrice > 0 && env.weightToFee(weight) + deposit < U128_LIMIT
    requires ValidateFee(env, gasPrice, gasLimit, weight, deposit).Ok?
    ensures Quote(env.weightToFee(weight) + deposit, gasPrice) <= gasLimit + 1
  {
    var total := env.weightToFee(weight) + deposit;
    AcceptedOfferCovers(env, gasPrice, gasLimit, weight, deposit);
    QuotientAtMost(total, gasPrice, gasLimit);
  }

  /** The server's own estimate, used as gas limit at the server's gas price with the same weight and
      deposit, is accepted by the runtime, and exceeds the least limit that is by exactly one. It aborts
      or wraps around exactly when the sum does not fit 128 bits. */
  lemma EstimateIsAccepted(env: Environment, weight: Weight, deposit: Option<u128>)
    requires env.weightToFee(weight) + OrZero(deposit) < U128_LIMIT - 1
    ensures var estimate := GasEstimate(env, weight, deposit);
            && estimate.Ok? && 1 <= estimate.value < U128_LIMIT
            && forall limit: u128 ::
                 ValidateFee(env, GAS_PRICE, limit, weight, OrZero(deposit)).Ok? <==> limit >= estimate.value - 1
  {
    QuoteIsSufficient(env, GAS_PRICE, weight, OrZero(deposit));
    hide ValidateFee;
    forall limit: u128
      ensures ValidateFee(env, GAS_PRICE, limit, weight, OrZero(deposit)).Ok?
         <==> limit >= env.weightToFee(weight) + OrZero(deposit)
    {
      ValidateFeeExact(env, GAS_PRICE, limit, weight, OrZero(deposit));
      DivModUnique(limit, U128_LIMIT, 0, limit);
      DivModUnique(env.weightToFee(weight) + OrZero(deposit), U128_LIMIT, 0, env.weightToFee(weight) + OrZero(deposit));
    }
  }

  lemma EstimateOverflows(env: Environment, weight: Weight, deposit: Option<u128>)
    requires env.weightToFee(weight) + OrZero(deposit) >= U128_LIMIT
    ensures GasEstimate(env, weight, deposit)
         == if env.overflow.Abort? then Panic else Ok(env.weightToFee(weight) + OrZero(deposit) - U128_LIMIT + 1)
  {
    var sum := env.weightToFee(weight) + OrZero(deposit);
    DivModUnique(sum, U128_LIMIT, 1, sum - U128_LIMIT);
  }

  /** The gas of a receipt at its price never exceeds what was paid, up to the largest amount of 128 bits, and
      misses it by less than one unit of gas. A price of zero gives no gas. */
  lemma GasUsedNeverExceedsPayment(tip: u128, actualFee: u128, gasPrice: u64)
    ensures var paid := if tip + actualFee < U128_LIMIT then tip + actualFee else U128_LIMIT - 1;
            && GasUsed(tip, actualFee, gasPrice) * gasPrice <= paid <= tip + actualFee
            && (gasPrice > 0 ==> paid < (GasUsed(tip, actualFee, gasPrice) + 1) * gasPrice)
            && (gasPrice == 0 ==> GasUsed(tip, actualFee, gasPrice) == 0)
  {
    if gasPrice > 0 {
      QuoteBounds(if tip + actualFee < U128_LIMIT then tip + actualFee else U128_LIMIT - 1, gasPrice);
    }
  }
}
