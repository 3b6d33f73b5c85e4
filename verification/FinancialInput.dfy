/** The two supported financial input policies. */
module FinancialInput {
  const LEGACY := "legacy-financial-input-v1"
  const STRICT := "strict-financial-input-v2"

  predicate Supported(policy: string) { policy == LEGACY || policy == STRICT }
}
