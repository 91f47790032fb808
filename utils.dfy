/**
 * The timezone helpers `validate_timezone` and `convert_timezone`. They
 * wrap the zone database of a foreign library and calendar arithmetic,
 * so the model takes them as an abstract zone database: which zone names
 * exist, and how a stored timestamp is rendered in a zone.
 */
module Utils {
  import opened Wrappers

  datatype Zones = Zones(
    known: string -> bool,                 // validate_timezone succeeds
    convert: (string, string) -> string    // convert_timezone(timestamp, zone)
  )

  /** The zone used when a request names none. */
  const DefaultZone: string := "Asia/Kolkata"

  function ZoneOrDefault(tz: Option<string>): string {
    match tz
    case None => DefaultZone
    case Some(z) => z
  }
}
