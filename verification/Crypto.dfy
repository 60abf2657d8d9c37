/** Hash values: SHA-256 is any function to 32 bytes; the comparison loops are the source's. */
module Crypto {
  import opened Bytes

  const SHA256_DIGEST_LENGTH := 32

  type Hasher = h: Text -> Text | forall b :: |h(b)| == SHA256_DIGEST_LENGTH
    witness (b: Text) => seq(SHA256_DIGEST_LENGTH, i => 0)

  /** hash_compare. */
  method HashCompare(left: array<Byte>, right: array<Byte>, size: nat) returns (same: bool)
    requires size <= left.Length && size <= right.Length
    ensures same <==> left[..size] == right[..size]
  {
    for i := 0 to size
      invariant left[..i] == right[..i]
    {
      if left[i] != right[i] {
        assert left[..size][i] != right[..size][i];
        return false;
      }
    }
    return true;
  }

  /** hash_bytes_match and hash_hash_t_match: equal sizes, then equal bytes. */
  method HashMatch(left: array<Byte>, right: array<Byte>) returns (same: bool)
    ensures same <==> left[..] == right[..]
  {
    if left.Length != right.Length {
      assert |left[..]| != |right[..]|;
      return false;
    }
    same := HashCompare(left, right, left.Length);
    assert left[..left.Length] == left[..] && right[..left.Length] == right[..];
  }
}
