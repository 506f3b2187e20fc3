/** Records stored by the parcel index (project.cpp:19-26). */
module Records {

  /** One byte of a C string. */
  newtype byte = b: int | 0 <= b < 256

  /**
   * A parcel record: its destination text, its integer weight (the search
   * key of every tree) and its floating-point valuation, which the model
   * carries through every operation as an uninterpreted payload.
   */
  datatype Parcel = Parcel(destination: seq<byte>, weight: int, valuation: real)
}
