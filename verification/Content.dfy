/** Values that the storage layers pass around. */
module Content {

  /** File and block contents. */
  type Data = seq<bv8>

  /** A 32-byte random block identifier, read as a number. */
  datatype Rid = Rid(id: nat)

  /** A content hash: equal exactly for equal contents. */
  datatype Hash = Blake3(content: Data)
}
