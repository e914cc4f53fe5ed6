/** The ASiC archive reader (AbstractAsicReader): a forward cursor over the
    archive that hides trust entries, digests payload entries as they are
    copied out, and reports everything to the manifest verifier. ReadEntry,
    SpecialFile, GetNextFile and WriteFile are proved equal to their
    ReaderModel functions; Create is proved to give ReaderModel.Initial, and
    Close is specified directly. */
module Reader {
  import opened Base
  import opened Digests
  import opened EntryNames
  import opened ReaderModel

  class AbstractAsicReader {
    const messageDigestAlgorithm: MessageDigestAlgorithm
    /** The digest reused, after a reset, for every payload entry. */
    const messageDigest: MessageDigest
    /** `SignatureHelper.validate`, used on detached CAdES signatures. */
    const validate: Validator

    /** The archive stream; None once closed. */
    var zipInputStream: Option<ZipCursor>
    var currentZipEntry: Option<ZipEntry>
    /** The bytes of the manifest read most recently, if any. */
    var manifestStream: Option<seq<byte>>
    /** The calls made so far into the manifest verifier. */
    var verifierCalls: seq<VerifierCall>

    ghost predicate Valid()
      reads this
    {
      messageDigest.algorithm == messageDigestAlgorithm.algorithm && Consistent(Snapshot())
    }

    /** The reader's fields as a value of the model. */
    function Snapshot(): ReaderState
      reads this
    {
      ReaderState(zipInputStream, currentZipEntry, manifestStream, verifierCalls)
    }

    constructor (alg: MessageDigestAlgorithm, md: MessageDigest, validate: Validator, archive: seq<ZipEntry>)
      requires md.algorithm == alg.algorithm
      ensures messageDigestAlgorithm == alg && messageDigest == md && this.validate == validate
      ensures Valid() && Snapshot() == Initial(archive)
    {
      messageDigestAlgorithm := alg;
      messageDigest := md;
      this.validate := validate;
      zipInputStream := Some(ZipCursor(archive, []));
      currentZipEntry := None;
      manifestStream := None;
      verifierCalls := [];
    }

    /** `new AbstractAsicReader(algorithm, inputStream)`: fails with an
        IllegalStateException when the provider lacks the algorithm;
        otherwise a reader positioned before the first entry with an empty
        digest. */
    static method Create(alg: MessageDigestAlgorithm, provider: Provider, validate: Validator, archive: seq<ZipEntry>)
      returns (r: Result<AbstractAsicReader>)
      ensures r.Failure? <==> alg.algorithm !in provider.algorithms
      ensures r.Failure? ==> r.error == IllegalStateException(NotSupported(alg))
      ensures r.Success? ==>
        fresh(r.value) && fresh(r.value.messageDigest) && r.value.Valid() &&
        r.value.Snapshot() == Initial(archive) && r.value.messageDigest.input == [] &&
        r.value.messageDigestAlgorithm == alg && r.value.validate == validate &&
        r.value.messageDigest.hash == provider.hash
    {
      var md := MessageDigest.GetInstance(alg.algorithm, provider);
      if md.None? {
        return Failure(IllegalStateException(NotSupported(alg)));
      }
      md.value.Reset();
      var reader := new AbstractAsicReader(alg, md.value, validate, archive);
      return Success(reader);
    }

    /** `IOUtils.copy(zipInputStream, buffer)`: everything left of the
        current entry. */
    method ReadEntry() returns (bytes: seq<byte>)
      requires zipInputStream.Some?
      modifies this`zipInputStream
      ensures (bytes, Snapshot()) == ReaderModel.ReadEntry(old(Snapshot()))
    {
      bytes := zipInputStream.value.unread;
      zipInputStream := Some(zipInputStream.value.(unread := []));
    }

    /** `specialFile()`: true for a trust entry, which it also handles. */
    method SpecialFile() returns (special: bool)
      requires Valid() && zipInputStream.Some? && currentZipEntry.Some?
      modifies this`zipInputStream, this`manifestStream, this`verifierCalls
      ensures Valid()
      ensures (special, Snapshot()) == ReaderModel.SpecialFile(old(Snapshot()), validate)
    {
      ghost var s := Snapshot();
      SpecialFileCalls(s, validate);
      var name := currentZipEntry.value.name;
      match Classify(name)
      case Payload =>
        return false;
      case CadesManifest =>
        var bytes := ReadEntry();
        manifestStream := Some(bytes);
        verifierCalls := verifierCalls + [CadesExtractAndVerify(bytes)];
        return true;
      case CadesSignature =>
        if manifestStream.Some? {
          var signature := ReadEntry();
          var certificate := Certificate(validate(manifestStream.value, signature), name);
          verifierCalls := verifierCalls + [AddCertificate(certificate)];
        }
        return true;
      case XadesManifest =>
        var bytes := ReadEntry();
        manifestStream := Some(bytes);
        verifierCalls := verifierCalls + [XadesExtractAndVerify(bytes)];
        return true;
      case InertSignature =>
        return true;
    }

    /** `getNextFile()`: the name of the next payload entry, or None (Java
        null) once the entries run out, after final verification. */
    method GetNextFile() returns (r: Result<Option<string>>)
      requires Valid()
      modifies this`zipInputStream, this`currentZipEntry, this`manifestStream, this`verifierCalls
      ensures Valid()
      ensures (r, Snapshot()) == NextFile(old(Snapshot()), validate)
    {
      if zipInputStream.None? {
        return Failure(NullPointerException);
      }
      ghost var goal := NextFile(Snapshot(), validate);
      while true
        invariant Valid() && zipInputStream.Some?
        invariant NextFile(Snapshot(), validate) == goal
        decreases |zipInputStream.value.rest|
      {
        ghost var before := Snapshot();
        var (entry, cursor) := GetNextEntry(zipInputStream.value);
        currentZipEntry, zipInputStream := entry, Some(cursor);
        if currentZipEntry.None? {
          AppendCall(verifierCalls, VerifyAllVerified);
          verifierCalls := verifierCalls + [VerifyAllVerified];
          return Success(None);
        }
        // A trust entry is handled by SpecialFile and skipped; keep looking.
        var special := SpecialFile();
        if !special {
          return Success(Some(currentZipEntry.value.name));
        }
        assert NextFile(before, validate) == NextFile(Snapshot(), validate);
      }
    }

    /** `writeFile(out)`: copies the rest of the current entry to `out`
        (returned here), digesting it on the way, and reports the digest to
        the verifier under the entry's name. */
    method WriteFile() returns (r: Result<seq<byte>>)
      requires Valid()
      modifies this`zipInputStream, this`verifierCalls, messageDigest
      ensures Valid()
      ensures (r, Snapshot()) ==
        ReaderModel.WriteFile(old(Snapshot()), messageDigest.algorithm, messageDigest.hash)
      ensures old(currentZipEntry).Some? ==> messageDigest.input == []
      ensures old(currentZipEntry).None? ==> messageDigest.input == old(messageDigest.input)
    {
      WriteFileConsistent(Snapshot(), messageDigest.algorithm, messageDigest.hash);
      if currentZipEntry.None? {
        return Failure(IllegalStateException("No file to read."));
      }
      messageDigest.Reset();
      if zipInputStream.None? {
        return Failure(NullPointerException);
      }
      var bytes := ReadEntry();
      messageDigest.Update(bytes);
      assert messageDigest.input == bytes;
      var digest := messageDigest.Digest();
      verifierCalls := verifierCalls + [Update(currentZipEntry.value.name, digest)];
      return Success(bytes);
    }

    /** `close()`: releases the archive stream the first time; later calls
        do nothing. */
    method Close()
      requires Valid()
      modifies this`zipInputStream
      ensures Valid()
      ensures zipInputStream.None?
      ensures old(zipInputStream).None? ==> unchanged(this)
    {
      if zipInputStream.Some? {
        zipInputStream := None;
      }
    }
  }
}
