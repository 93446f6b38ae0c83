/**
 * Snapshot digests (`src/digest.rs`): the Base32 form of a SHA-1 value as
 * the Wayback Machine's CDX index lists it, its validity check, the decoder
 * into a 20-byte buffer, and the streaming digest computation. SHA-1 and
 * gzip decompression are parameters of the model.
 */
module Digest {
  import opened Wrappers
  import opened Text
  import opened Base32

  /** A SHA-1 value: 20 bytes. */
  type Sha1Value = b: seq<U8> | |b| == 20
    witness [0, 0, 0, 0, 0, 0, 0, 0, 0, 0, 0, 0, 0, 0, 0, 0, 0, 0, 0, 0]

  /** `DIGEST_CHARS`: the 32 symbols a digest may use, in ascending order. */
  const DIGEST_CHARS: string := "234567ABCDEFGHIJKLMNOPQRSTUVWXYZ"

  /** The symbol at position `i` of `DIGEST_CHARS`. */
  function DigestCharAt(i: nat): char
    requires i < 32
  {
    if i < 6 then ('2' as int + i) as char else ('A' as int + i - 6) as char
  }

  lemma DigestCharsLayout()
    ensures |DIGEST_CHARS| == 32
    ensures forall i :: 0 <= i < 32 ==> DIGEST_CHARS[i] == DigestCharAt(i)
  {
  }

  /** The listed symbols are strictly ascending (hence distinct) and are
      exactly the symbols of the Base32 alphabet. */
  lemma DigestCharsAreTheAlphabet()
    ensures |DIGEST_CHARS| == 32
    ensures forall i, j :: 0 <= i < j < 32 ==> DIGEST_CHARS[i] < DIGEST_CHARS[j]
    ensures forall c :: c in DIGEST_CHARS <==> IsSymbol(c)
  {
    DigestCharsLayout();
    forall c | IsSymbol(c)
      ensures c in DIGEST_CHARS
    {
      if 'A' <= c <= 'Z' {
        assert DIGEST_CHARS[c as int - 'A' as int + 6] == c;
      } else {
        assert DIGEST_CHARS[c as int - '2' as int] == c;
      }
    }
  }

  /** `is_valid_digest`: 32 characters, each in `2`-`7` or `A`-`Z`. */
  predicate IsValidDigest(s: string) {
    |s| == 32 && forall i :: 0 <= i < |s| ==> ('2' <= s[i] <= '7') || ('A' <= s[i] <= 'Z')
  }

  /** A valid digest is exactly 32 symbols of the Base32 alphabet. */
  lemma ValidDigestSymbols(s: string)
    ensures IsValidDigest(s) <==> |s| == 32 && AllSymbols(s)
  {
  }

  /** The bytes a digest stands for; `None` for any text that is not a
      valid digest. */
  function DecodeDigest(s: string): (r: Option<seq<U8>>)
    ensures r.Some? <==> IsValidDigest(s)
    ensures r.Some? ==> |r.value| == 20
  {
    if IsValidDigest(s) then Some(Decode(s, 4)) else None
  }

  /** `bytes_to_string`: the Base32 encoding of a SHA-1 value. */
  function BytesToString(bytes: Sha1Value): (s: string)
    ensures |s| == 32
  {
    Encode(bytes, 4)
  }

  /** Every encoded value is a valid digest, and decodes back to the value. */
  lemma DecodeBytesToString(bytes: Sha1Value)
    ensures IsValidDigest(BytesToString(bytes))
    ensures DecodeDigest(BytesToString(bytes)) == Some(bytes)
  {
    var s := BytesToString(bytes);
    DecodeEncode(bytes, 4);
    ValidDigestSymbols(s);
    assert IsValidDigest(s);
  }

  /** Every valid digest is the encoding of what it decodes to. */
  lemma BytesToStringOfDecode(s: string)
    requires IsValidDigest(s)
    ensures DecodeDigest(s).Some? && BytesToString(DecodeDigest(s).value) == s
  {
    EncodeDecode(s, 4);
  }

  lemma ConcatAssoc(x: seq<U8>, y: seq<U8>, z: seq<U8>)
    ensures x + (y + z) == (x + y) + z
  {
  }

  lemma SliceSplit(x: seq<U8>, i: nat, j: nat)
    requires i <= j <= |x|
    ensures x[..j] == x[..i] + x[i..j]
  {
  }

  /** The suffix of a symbol string from quantum `k` on is quantum `k`
      followed by the suffix from quantum `k + 1` on. */
  lemma DecodeSuffixCons(input: string, n: nat, k: nat, next: nat)
    requires |input| == 8 * n && k < n && next == k + 1 && AllSymbols(input[8 * k..])
    ensures AllSymbols(input[8 * k..8 * k + 8]) && AllSymbols(input[8 * next..])
    ensures Decode(input[8 * k..], n - k)
         == DecodeQuantum(input[8 * k..8 * k + 8]) + Decode(input[8 * next..], n - next)
  {
    var at := 8 * k;
    assert |input[at..]| == 8 * (n - k) && at + 8 == 8 * next;
    DecodeAt(input, at, n - k);
  }

  /** `DecodeCons` on the suffix of `input` from `at` on. */
  lemma DecodeAt(input: string, at: nat, m: nat)
    requires at <= |input| && |input[at..]| == 8 * m && m >= 1 && AllSymbols(input[at..])
    ensures AllSymbols(input[at..at + 8]) && AllSymbols(input[at + 8..])
    ensures Decode(input[at..], m) == DecodeQuantum(input[at..at + 8]) + Decode(input[at + 8..], m - 1)
  {
    SplitSuffix(input, at, 8);
    DecodeCons(input[at..], m);
  }

  /** The first `m` characters of the suffix from `at` on, and the rest. */
  lemma SplitSuffix(s: string, at: nat, m: nat)
    requires at + m <= |s|
    ensures s[at..][..m] == s[at..at + m] && s[at..][m..] == s[at + m..]
  {
  }

  /** Copies `bytes` into `output` from position `at` on. */
  method CopyInto(output: array<U8>, at: nat, bytes: seq<U8>)
    requires at + |bytes| <= output.Length
    modifies output
    ensures output[..at] == old(output[..at])
    ensures output[at..at + |bytes|] == bytes
  {
    var m := 0;
    while m < |bytes|
      invariant 0 <= m <= |bytes|
      invariant output[..at] == old(output[..at])
      invariant output[at..at + m] == bytes[..m]
    {
      output[at + m] := bytes[m];
      m := m + 1;
    }
  }

  /** `decode_mut` of the RFC 4648 section 6 codec on `n` whole quanta:
      fails on a character outside the alphabet, and otherwise fills
      `output` with the decoded bytes and returns how many it wrote. */
  method DecodeMut(input: string, output: array<U8>, n: nat) returns (r: Option<nat>)
    requires |input| == 8 * n && output.Length == 5 * n
    modifies output
    ensures r.Some? <==> AllSymbols(input)
    ensures r.Some? ==> r.value == 5 * n && output[..] == Decode(input, n)
  {
    if !AllSymbols(input) {
      return None;
    }
    var k := 0;
    assert input[0..] == input;
    while k < n
      invariant 0 <= k <= n
      invariant AllSymbols(input[8 * k..])
      invariant output[..5 * k] + Decode(input[8 * k..], n - k) == Decode(input, n)
    {
      var next := k + 1;
      var quantum := input[8 * k..8 * k + 8];
      DecodeSuffixCons(input, n, k, next);
      ghost var rest := Decode(input[8 * next..], n - next);
      var bytes := DecodeQuantum(quantum);
      ghost var before := output[..5 * k];
      CopyInto(output, 5 * k, bytes);
      assert output[..5 * next] == before + bytes by {
        SliceSplit(output[..], 5 * k, 5 * next);
      }
      ConcatAssoc(before, bytes, rest);
      k := next;
    }
    assert output[..5 * n] == output[..];
    assert output[..] + Decode(input[8 * n..], 0) == output[..];
    return Some(5 * n);
  }

  /** `string_to_bytes`: text of length 32 is decoded into a 20-byte
      buffer, which is returned when all 20 bytes were written; any other
      text is rejected. */
  method StringToBytes(s: string) returns (r: Option<seq<U8>>)
    ensures r == DecodeDigest(s)
  {
    ValidDigestSymbols(s);
    if |s| == 32 {
      var output := new U8[20](_ => 0);
      var count := DecodeMut(s, output, 4);
      if count == Some(20) {
        return Some(output[..]);
      } else {
        return None;
      }
    } else {
      return None;
    }
  }

  // ------------------------------------------------------ digest of a stream

  /** An I/O error, identified by its kind. */
  datatype IoError = IoError(kind: nat)

  /** One call of `Read::read`: some bytes (none meaning end of input), an
      interruption to retry, or a failure. */
  datatype ReadResult = Data(bytes: seq<U8>) | Interrupted | ReadFailed(error: IoError)

  /** What `std::io::copy` collects from a reader whose successive `read`
      calls return `results`; running out of results is end of input. */
  function ReadToEnd(results: seq<ReadResult>): Result<seq<U8>, IoError>
  {
    if results == [] then Success([])
    else match results[0]
      case Data(b) =>
        if b == [] then Success([]) else Prepend(b, ReadToEnd(results[1..]))
      case Interrupted => ReadToEnd(results[1..])
      case ReadFailed(e) => Failure(e)
  }

  function Prepend(prefix: seq<U8>, r: Result<seq<U8>, IoError>): Result<seq<U8>, IoError> {
    match r
    case Success(data) => Success(prefix + data)
    case Failure(e) => Failure(e)
  }

  lemma PrependPrepend(a: seq<U8>, b: seq<U8>, r: Result<seq<U8>, IoError>)
    ensures Prepend(a, Prepend(b, r)) == Prepend(a + b, r)
  {
    if r.Success? {
      assert a + (b + r.value) == (a + b) + r.value;
    }
  }

  /** The digest of the content of a reader. */
  function DigestOfStream(results: seq<ReadResult>, sha1: seq<U8> -> Sha1Value): Result<string, IoError> {
    match ReadToEnd(results)
    case Success(data) => Success(BytesToString(sha1(data)))
    case Failure(e) => Failure(e)
  }

  /** `compute_digest`: copies the reader into a SHA-1 hasher (modelled by
      the bytes fed to it), then encodes the hash. Fails with the first
      read failure. */
  method ComputeDigest(results: seq<ReadResult>, sha1: seq<U8> -> Sha1Value) returns (r: Result<string, IoError>)
    ensures r == DigestOfStream(results, sha1)
    ensures r.Success? ==> IsValidDigest(r.value)
  {
    var hashed: seq<U8> := [];
    var i := 0;
    assert results[0..] == results;
    assert Prepend([], ReadToEnd(results)) == ReadToEnd(results) by {
      if ReadToEnd(results).Success? {
        assert [] + ReadToEnd(results).value == ReadToEnd(results).value;
      }
    }
    while i < |results|
      invariant 0 <= i <= |results|
      invariant ReadToEnd(results) == Prepend(hashed, ReadToEnd(results[i..]))
    {
      assert results[i..][1..] == results[i + 1..];
      match results[i] {
        case Data(b) =>
          if b == [] {
            break;
          }
          PrependPrepend(hashed, b, ReadToEnd(results[i + 1..]));
          hashed := hashed + b;
        case Interrupted =>
        case ReadFailed(e) =>
          assert ReadToEnd(results[i..]) == Failure(e);
          assert ReadToEnd(results) == Failure(e);
          return Failure(e);
      }
      i := i + 1;
    }
    assert ReadToEnd(results) == Success(hashed) by {
      assert hashed + [] == hashed;
      if i == |results| {
        assert results[i..] == [];
      }
    }
    var output := "";
    output := output + BytesToString(sha1(hashed));
    assert output == BytesToString(sha1(hashed));
    DecodeBytesToString(sha1(hashed));
    return Success(output);
  }

  /** `compute_digest_gz`: the digest of the decompressed stream, where
      `gunzip` turns the reads of the compressed input into the reads of
      the decoder. */
  method ComputeDigestGz(results: seq<ReadResult>, gunzip: seq<ReadResult> -> seq<ReadResult>,
                         sha1: seq<U8> -> Sha1Value) returns (r: Result<string, IoError>)
    ensures r == DigestOfStream(gunzip(results), sha1)
  {
    r := ComputeDigest(gunzip(results), sha1);
  }
}
