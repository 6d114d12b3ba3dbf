/** Errors of the license layer. */
module LicenseErrors {
  import opened Bytes

  datatype LicenseError =
    | MalformedToken
    | Truncated
    | BadMagic(magic: seq<Byte>)
    | PayloadVersion(found: Byte)
    | UnknownLicenseType(code: Byte)
    | EmailNotUtf8
    | SerialNotAscii

  datatype Outcome<+T> = Ok(value: T) | Err(error: LicenseError)
}
