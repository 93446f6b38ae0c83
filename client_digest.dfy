/**
 * Snapshot digests in the client crate (`client/src/digest.rs`): the same
 * Base32 codec and streaming digest as the library crate, with the decoder
 * returning the SHA-1 value itself.
 */
module ClientDigest {
  import opened Wrappers
  import opened Text
  import opened Base32
  import Digest

  /** `string_to_bytes`: a 32-character text is decoded into a 20-byte
      buffer; the result is present exactly for valid digests, and then it
      re-encodes to the text it came from. */
  method StringToBytes(digest: string) returns (r: Option<Digest.Sha1Value>)
    ensures r.Some? <==> Digest.IsValidDigest(digest)
    ensures r.Some? ==> Digest.BytesToString(r.value) == digest
  {
    Digest.ValidDigestSymbols(digest);
    if |digest| == 32 {
      var output := new U8[20](_ => 0);
      var count := Digest.DecodeMut(digest, output, 4);
      if count == Some(20) {
        Digest.BytesToStringOfDecode(digest);
        return Some(output[..]);
      } else {
        return None;
      }
    } else {
      return None;
    }
  }

  /** `compute_digest`: the Base32 form of the SHA-1 value of everything
      the reader yields, or its first read failure. */
  method ComputeDigest(results: seq<Digest.ReadResult>, sha1: seq<U8> -> Digest.Sha1Value)
    returns (r: Result<string, Digest.IoError>)
    ensures r == Digest.DigestOfStream(results, sha1)
    ensures r.Success? ==> Digest.IsValidDigest(r.value)
  {
    r := Digest.ComputeDigest(results, sha1);
  }

  /** `compute_digest_gz`: `compute_digest` of the decompressed stream. */
  method ComputeDigestGz(results: seq<Digest.ReadResult>,
                         gunzip: seq<Digest.ReadResult> -> seq<Digest.ReadResult>,
                         sha1: seq<U8> -> Digest.Sha1Value)
    returns (r: Result<string, Digest.IoError>)
    ensures r == Digest.DigestOfStream(gunzip(results), sha1)
  {
    r := ComputeDigest(gunzip(results), sha1);
  }
}
