/** The ASiC manifest builder (AsicManifest) of the write path: an
    append-only list of data-object records plus one overwritable signature
    reference, digested with an algorithm fixed at construction.
    GetMessageDigest, Add and SetSignature are proved equal to
    ManifestModel.Step with the matching call; Create is proved to give
    ManifestModel.Empty(), and the function GetASiCManifestType reads the
    current document. */
module Manifest {
  import opened Base
  import opened Digests
  import opened ManifestModel

  class AsicManifest {
    const messageDigestAlgorithm: MessageDigestAlgorithm
    /** The digest handed out to the writer and finalized by `add`. */
    const messageDigest: MessageDigest
    var asicManifestType: ASiCManifestType

    ghost predicate Valid()
    {
      messageDigest.algorithm == messageDigestAlgorithm.algorithm
    }

    /** The builder as a value of the model. */
    function State(): BuilderState
      reads this, messageDigest
    {
      BuilderState(messageDigest.input, asicManifestType)
    }

    constructor (alg: MessageDigestAlgorithm, md: MessageDigest)
      requires md.algorithm == alg.algorithm && md.input == []
      ensures Valid() && messageDigestAlgorithm == alg && messageDigest == md
      ensures State() == Empty()
    {
      messageDigestAlgorithm := alg;
      messageDigest := md;
      asicManifestType := ASiCManifestType([], None);
    }

    /** `new AsicManifest(algorithm)`: fails with an IllegalStateException
        when the provider lacks the algorithm; otherwise an empty manifest
        whose digest has seen nothing. */
    static method Create(alg: MessageDigestAlgorithm, provider: Provider) returns (r: Result<AsicManifest>)
      ensures r.Failure? <==> alg.algorithm !in provider.algorithms
      ensures r.Failure? ==> r.error == IllegalStateException(NotSupported(alg))
      ensures r.Success? ==>
        fresh(r.value) && fresh(r.value.messageDigest) && r.value.Valid() &&
        r.value.messageDigestAlgorithm == alg && r.value.messageDigest.hash == provider.hash &&
        r.value.State() == Empty()
    {
      var md := MessageDigest.GetInstance(alg.algorithm, provider);
      if md.None? {
        return Failure(IllegalStateException(NotSupported(alg)));
      }
      md.value.Reset();
      var manifest := new AsicManifest(alg, md.value);
      return Success(manifest);
    }

    /** `getMessageDigest()`: the builder's own digest, reset. */
    method GetMessageDigest() returns (md: MessageDigest)
      requires Valid()
      modifies messageDigest
      ensures md == messageDigest && md.input == []
      ensures asicManifestType == old(asicManifestType)
      ensures State() == Step(messageDigestAlgorithm, messageDigest.hash, old(State()), BuilderCall.GetMessageDigest)
    {
      messageDigest.Reset();
      return messageDigest;
    }

    /** `add(filename, mimeType)`: appends one record holding the file name,
        the MIME type, the digest of the bytes fed since the last reset and
        the algorithm's URI; finalizing resets the digest. */
    method Add(filename: string, mimeType: string)
      requires Valid()
      modifies this`asicManifestType, messageDigest
      ensures asicManifestType.dataObjectReference == old(asicManifestType.dataObjectReference) +
        [DataObjectReference(filename, mimeType,
           messageDigest.hash(messageDigestAlgorithm.algorithm, old(messageDigest.input)),
           messageDigestAlgorithm.uri)]
      ensures asicManifestType.sigReference == old(asicManifestType.sigReference)
      ensures messageDigest.input == []
      ensures State() == Step(messageDigestAlgorithm, messageDigest.hash, old(State()), BuilderCall.Add(filename, mimeType))
    {
      var digestValue := messageDigest.Digest();
      var dataObject := DataObjectReference(filename, mimeType, digestValue, messageDigestAlgorithm.uri);
      asicManifestType := asicManifestType.(dataObjectReference := asicManifestType.dataObjectReference + [dataObject]);
    }

    /** `setSignature(filename, mimeType)`: replaces the signature
        reference; the records and the digest are untouched. */
    method SetSignature(filename: string, mimeType: string)
      requires Valid()
      modifies this`asicManifestType
      ensures asicManifestType.sigReference == Some(SigReference(filename, mimeType))
      ensures asicManifestType.dataObjectReference == old(asicManifestType.dataObjectReference)
      ensures State() == Step(messageDigestAlgorithm, messageDigest.hash, old(State()), BuilderCall.SetSignature(filename, mimeType))
    {
      asicManifestType := asicManifestType.(sigReference := Some(SigReference(filename, mimeType)));
    }

    /** `getASiCManifestType()`: the document built so far. */
    function GetASiCManifestType(): (m: ASiCManifestType)
      reads this
      ensures m == State().manifest
    {
      asicManifestType
    }
  }
}
