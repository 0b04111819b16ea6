/** Results of the model layer's calculations. Every IllegalArgumentException the
    model layer throws becomes an Err carrying the condition that caused it. */
module Outcomes {

  /** One constructor per distinct validation failure (and message) of the model layer. */
  datatype Invalid =
    | NegativePrincipal        // fixedInvestor, variableInvestor: principal < 0
    | NegativeYears            // fixedInvestor: years < 0
    | RateBelowMinusOne        // fixedInvestor, variableInvestor, maximumExpensed: rate <= -1
    | EmptyRates               // variableInvestor: no rates given
    | NegativeBalance          // finallyRetired: starting balance < 0
    | NonPositiveWithdrawal    // finallyRetired: withdrawal <= 0
    | GrowthRateBelowMinusOne  // finallyRetired: interest rate <= -1
    | NonPositiveYears         // maximumExpensed: years <= 0 with a positive principal

  datatype Result<T> = Ok(value: T) | Err(error: Invalid)
}
