/** The exceptions the client raises, as values. */
module Faults {
  import opened Text

  datatype Error =
      /** `ODSecurityException(operation)`: a write on a read-only record. */
      Security(operation: Str)
      /** `ODWebException`: the request to `url` failed at the transport or HTTP level. */
    | Web(url: Str)
      /** `NullReferenceException`: a missing element or field was dereferenced. */
    | NullReference
      /** The plain `Exception` of the find constructor: nothing was found at the
          item path `path`, `Collection(guid'…')`. */
    | NotFound(path: Str)
      /** `ArgumentOutOfRangeException`: a time span or instant beyond its range. */
    | OutOfRange
      /** A field key is not an XML name without colon, which `XName` refuses:
          an `XmlException`, or an argument exception for the empty key. */
    | InvalidName
      /** `InvalidCastException`: a feed has a child node that is not an element. */
    | InvalidCast
}
