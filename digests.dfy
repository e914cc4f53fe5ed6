/** The running message digest shared by the reader and the manifest builder.
    The hash itself is uninterpreted: it is whatever function the security
    provider computes for an algorithm name. */
module Digests {
  import opened Base

  /** `Hash(algorithm, bytes)`: the digest the provider computes. */
  type HashFunction = (string, seq<byte>) -> seq<byte>

  /** A digest algorithm as the container names it: the name the security
      provider knows it by and the URI written into manifests. */
  datatype MessageDigestAlgorithm = MessageDigestAlgorithm(algorithm: string, uri: string)

  /** The security provider behind `MessageDigest.getInstance`: the algorithm
      names it supports and the hash function it computes. */
  datatype Provider = Provider(algorithms: set<string>, hash: HashFunction)

  /** Message of the IllegalStateException raised for an unsupported algorithm. */
  function NotSupported(alg: MessageDigestAlgorithm): string
  {
    "Algorithm " + alg.algorithm + " not supported"
  }

  /** A `java.security.MessageDigest`: a fixed algorithm and the bytes fed to
      it since it was last reset or finalized. */
  class MessageDigest {
    const algorithm: string
    const hash: HashFunction
    var input: seq<byte>

    constructor (algorithm: string, hash: HashFunction)
      ensures this.algorithm == algorithm && this.hash == hash
      ensures input == []
    {
      this.algorithm := algorithm;
      this.hash := hash;
      input := [];
    }

    /** `MessageDigest.getInstance(algorithm)`: a fresh digest, or nothing
        (NoSuchAlgorithmException) when the provider lacks the algorithm. */
    static method GetInstance(algorithm: string, provider: Provider) returns (r: Option<MessageDigest>)
      ensures r.None? <==> algorithm !in provider.algorithms
      ensures r.Some? ==> fresh(r.value) && r.value.input == []
      ensures r.Some? ==> r.value.algorithm == algorithm && r.value.hash == provider.hash
    {
      if algorithm !in provider.algorithms {
        return None;
      }
      var md := new MessageDigest(algorithm, provider.hash);
      return Some(md);
    }

    /** `reset()`: forget every byte fed so far. */
    method Reset()
      modifies this`input
      ensures input == []
    {
      input := [];
    }

    /** `update(bytes)`, as done by a DigestOutputStream for each byte written. */
    method Update(bytes: seq<byte>)
      modifies this`input
      ensures input == old(input) + bytes
    {
      input := input + bytes;
    }

    /** `digest()`: the hash of everything fed since the last reset; the
        digest is reset afterwards. */
    method Digest() returns (d: seq<byte>)
      modifies this`input
      ensures d == hash(algorithm, old(input))
      ensures input == []
    {
      d := hash(algorithm, input);
      input := [];
    }
  }
}
