/** Static configuration constants shared by the loader (config.py). */
module Config {

  /** Column the spatial import orders rows by inside a partition. */
  const SortColumn: string := "obs_id"

  /** Right-ascension column, in decimal degrees. */
  const RaColumn: string := "s_ra"

  /** Declination column, in decimal degrees. */
  const DecColumn: string := "s_dec"
}
