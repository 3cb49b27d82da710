/** The calendar helpers of atl/time.h. Their results depend on the local
    time zone and locale, so the model leaves them uninterpreted: every
    operation that needs them receives a Calendar holding the three. */
module Time {
  import opened Wrappers

  /** `format`: FormatTime(t) with the format "%Y-%m-%d".
      `parse`: ParseTime(text) with the same format followed by
      UnixTimestamp, None where ParseTime reports failure.
      `isValid`: IsValidTimestamp(t). */
  datatype Calendar = Calendar(format: nat -> string, parse: string -> Option<nat>, isValid: nat -> bool)
}
