/** The unit in which files and checksums are modelled. */
module Bytes {

  type Byte = bv8
}
