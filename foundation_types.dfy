/**
 * The Foundation values the document carries. A URL is identified by its text;
 * how Foundation parses and normalises URLs is outside this model.
 */
module FoundationTypes {

  datatype URL = URL(absoluteString: string)

  newtype Byte = b: int | 0 <= b < 256

  /** Foundation's `Data`: a byte string. */
  type Data = seq<Byte>

  /** A divisor or denominator: a positive integer. */
  type Positive = n: int | n > 0 witness 1
}
