/** The credentials the setup screens may write, and the two keys they may not. */
module ManagedKeys {
  import opened SecretsFile

  const ADMIN_HASH := "DRADIS_ADMIN_HASH"
  const SESSION_KEY := "DRADIS_SESSION_KEY"

  const VENUE_KEYS := [
    "POLYMARKET_PRIVATE_KEY", "POLYGON_RPC_URL", "POLYMARKET_US_KEY_ID", "POLYMARKET_US_SECRET_KEY",
    "KALSHI_API_KEY_ID", "KALSHI_PRIVATE_KEY", "KALSHI_DEMO"
  ]
  const RAPTOR_KEYS := ["ALPACA_API_KEY_ID", "ALPACA_API_SECRET_KEY", "ODDS_API_KEY", "LIVETENNIS_API_KEY"]
  const INTEGRATION_KEYS := [
    "TELEGRAM_BOT_TOKEN", "TELEGRAM_CHAT_ID", "LLM_PROVIDER", "OLLAMA_URL", "OLLAMA_MODEL",
    "LLM_API_BASE", "ENABLE_LLM_ADVISOR", "LLM_API_KEY", "LLM_MODEL"
  ]

  const MANAGED_KEYS := VENUE_KEYS + RAPTOR_KEYS + INTEGRATION_KEYS

  predicate IsManaged(k: string) { k in MANAGED_KEYS }

  const PEM_KEY := "KALSHI_PRIVATE_KEY"

  /** A key another writer uses never starts like the two internal ones, and starts before Z. */
  predicate Ordinary(k: string) { IsEnvKey(k) && k[0] != 'D' && k[0] < 'Z' }

  lemma VenueKeysAreOrdinary(k: string)
    requires k in VENUE_KEYS
    ensures Ordinary(k)
  {
  }

  lemma RaptorKeysAreOrdinary(k: string)
    requires k in RAPTOR_KEYS
    ensures Ordinary(k)
  {
  }

  lemma IntegrationKeysAreOrdinary(k: string)
    requires k in INTEGRATION_KEYS
    ensures Ordinary(k)
  {
  }
}
