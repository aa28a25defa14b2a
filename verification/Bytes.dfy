/**
 Octets as numbers below 256.
 */
module Bytes {

  type Octet = x: nat | x < 256
}
