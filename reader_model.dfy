/** The reader's state machine on values: what `getNextFile`, `specialFile`
    and `writeFile` of AbstractAsicReader do to the reader's fields, with the
    ZIP codec replaced by a sequence of entries and the ManifestVerifier
    replaced by the log of calls the reader makes into it. */
module ReaderModel {
  import opened Base
  import opened EntryNames
  import opened Digests

  /** An archive entry: its name and its stored bytes. */
  datatype ZipEntry = ZipEntry(name: string, content: seq<byte>)

  /** The position of the archive stream: the entries not reached yet and
      the bytes of the current entry that have not been read yet. */
  datatype ZipCursor = ZipCursor(rest: seq<ZipEntry>, unread: seq<byte>)

  /** A signer certificate found by signature validation, tagged with the
      name of the signature entry it came from. */
  datatype Certificate = Certificate(certificate: seq<byte>, cert: string)

  /** `SignatureHelper.validate(manifest, signature)`: the signer certificate
      of a detached signature over the manifest bytes. Uninterpreted. */
  type Validator = (seq<byte>, seq<byte>) -> seq<byte>

  /** A call the reader makes into the manifest verifier or hands it over to
      a signature-format extractor. */
  datatype VerifierCall =
    | CadesExtractAndVerify(manifest: seq<byte>)
    | XadesExtractAndVerify(manifest: seq<byte>)
    | AddCertificate(certificate: Certificate)
    | Update(filename: string, digest: seq<byte>)
    | VerifyAllVerified

  /** The reader's fields: `zipInputStream` (None once closed),
      `currentZipEntry`, `manifestStream` and the verifier's call log. */
  datatype ReaderState = ReaderState(
    zip: Option<ZipCursor>,
    current: Option<ZipEntry>,
    manifest: Option<seq<byte>>,
    calls: seq<VerifierCall>)

  /** A freshly constructed reader over an archive. */
  function Initial(archive: seq<ZipEntry>): ReaderState
  {
    ReaderState(Some(ZipCursor(archive, [])), None, None, [])
  }

  // ---------------------------------------------------------------------
  // Facts about the verifier log

  /** The manifest bytes most recently handed to CAdES or XAdES extraction. */
  function LastManifest(calls: seq<VerifierCall>): Option<seq<byte>>
  {
    if calls == [] then None
    else
      match calls[|calls| - 1]
      case CadesExtractAndVerify(m) => Some(m)
      case XadesExtractAndVerify(m) => Some(m)
      case _ => LastManifest(calls[..|calls| - 1])
  }

  /** Every certificate in the log was added after some manifest had been
      handed to extraction. */
  predicate CertificatesBacked(calls: seq<VerifierCall>)
  {
    calls == [] ||
    (CertificatesBacked(calls[..|calls| - 1]) &&
     (calls[|calls| - 1].AddCertificate? ==> LastManifest(calls[..|calls| - 1]).Some?))
  }

  /** The reader invariant: the manifest buffer holds exactly the bytes last
      handed to extraction, and no certificate was added without one. */
  predicate Consistent(s: ReaderState)
  {
    s.manifest == LastManifest(s.calls) && CertificatesBacked(s.calls)
  }

  /** How many times final verification was triggered. */
  function CountVerifyAll(calls: seq<VerifierCall>): nat
  {
    if calls == [] then 0
    else CountVerifyAll(calls[..|calls| - 1]) + (if calls[|calls| - 1].VerifyAllVerified? then 1 else 0)
  }

  lemma AppendCall(calls: seq<VerifierCall>, c: VerifierCall)
    ensures (calls + [c])[..|calls|] == calls
    ensures LastManifest(calls + [c]) ==
      (match c
       case CadesExtractAndVerify(m) => Some(m)
       case XadesExtractAndVerify(m) => Some(m)
       case _ => LastManifest(calls))
    ensures CertificatesBacked(calls + [c]) <==>
      CertificatesBacked(calls) && (c.AddCertificate? ==> LastManifest(calls).Some?)
    ensures CountVerifyAll(calls + [c]) == CountVerifyAll(calls) + (if c.VerifyAllVerified? then 1 else 0)
  {
    assert (calls + [c])[..|calls|] == calls;
  }

  // ---------------------------------------------------------------------
  // The operations

  /** `zipInputStream.getNextEntry()`: the next entry, positioned at its
      first byte, or None once the entries run out. */
  function GetNextEntry(c: ZipCursor): (Option<ZipEntry>, ZipCursor)
  {
    if c.rest == [] then (None, ZipCursor([], []))
    else (Some(c.rest[0]), ZipCursor(c.rest[1..], c.rest[0].content))
  }

  /** Reads everything left of the current entry out of the stream. */
  function ReadEntry(s: ReaderState): (r: (seq<byte>, ReaderState))
    requires s.zip.Some?
    ensures r.0 == s.zip.value.unread
    ensures r.1.zip == Some(ZipCursor(s.zip.value.rest, []))
    ensures r.1.current == s.current && r.1.manifest == s.manifest && r.1.calls == s.calls
  {
    (s.zip.value.unread, s.(zip := Some(s.zip.value.(unread := []))))
  }

  /** `specialFile()`: whether the current entry is a trust entry, and what
      handling it does to the reader. A manifest (CAdES or XAdES) is read in
      full into the buffer and handed to extraction; a detached signature is
      validated against the buffered manifest, if there is one, and its
      certificate added; every other trust entry is left alone. */
  function SpecialFile(s: ReaderState, validate: Validator): (r: (bool, ReaderState))
    requires s.zip.Some? && s.current.Some?
    ensures r.1.zip.Some? && r.1.zip.value.rest == s.zip.value.rest
    ensures r.1.current == s.current
  {
    var name := s.current.value.name;
    match Classify(name)
    case Payload => (false, s)
    case CadesManifest =>
      var (bytes, t) := ReadEntry(s);
      (true, t.(manifest := Some(bytes), calls := s.calls + [CadesExtractAndVerify(bytes)]))
    case CadesSignature =>
      if s.manifest.Some? then
        var (signature, t) := ReadEntry(s);
        var certificate := Certificate(validate(s.manifest.value, signature), name);
        (true, t.(calls := s.calls + [AddCertificate(certificate)]))
      else (true, s)
    case XadesManifest =>
      var (bytes, t) := ReadEntry(s);
      (true, t.(manifest := Some(bytes), calls := s.calls + [XadesExtractAndVerify(bytes)]))
    case InertSignature => (true, s)
  }

  /** `getNextFile()`: advance past every trust entry, handling each; return
      the name of the next payload entry, or None (Java null) after
      triggering final verification when the entries run out. A closed
      reader fails with a NullPointerException and is left as it was. */
  function NextFile(s: ReaderState, validate: Validator): (r: (Result<Option<string>>, ReaderState))
    ensures r.0.Failure? <==> s.zip.None?
    ensures r.0.Failure? ==> r == (Failure(NullPointerException), s)
    ensures r.0.Success? ==> r.1.zip.Some?
    decreases if s.zip.Some? then |s.zip.value.rest| else 0
  {
    if s.zip.None? then (Failure(NullPointerException), s)
    else
      var (entry, cursor) := GetNextEntry(s.zip.value);
      var t := s.(zip := Some(cursor), current := entry);
      if entry.None? then (Success(None), t.(calls := t.calls + [VerifyAllVerified]))
      else
        var (special, u) := SpecialFile(t, validate);
        if !special then (Success(Some(entry.value.name)), u)
        else NextFile(u, validate)
  }

  /** `writeFile(out)`: the bytes copied to `out`, and the new state. The
      digest is reset first and then sees exactly the copied bytes. */
  function WriteFile(s: ReaderState, algorithm: string, hash: HashFunction): (r: (Result<seq<byte>>, ReaderState))
    ensures s.current.None? ==> r == (Failure(IllegalStateException("No file to read.")), s)
    ensures s.current.Some? && s.zip.None? ==> r == (Failure(NullPointerException), s)
    ensures r.0.Success? <==> s.current.Some? && s.zip.Some?
    ensures r.0.Success? ==> r.0.value == s.zip.value.unread
    ensures r.0.Success? ==> r.1 == s.(zip := Some(ZipCursor(s.zip.value.rest, [])),
      calls := s.calls + [Update(s.current.value.name, hash(algorithm, s.zip.value.unread))])
  {
    if s.current.None? then (Failure(IllegalStateException("No file to read.")), s)
    else if s.zip.None? then (Failure(NullPointerException), s)
    else
      var (bytes, t) := ReadEntry(s);
      (Success(bytes), t.(calls := s.calls + [Update(s.current.value.name, hash(algorithm, bytes))]))
  }

  // ---------------------------------------------------------------------
  // Properties of one call

  /** What one successful `getNextFile` did, relative to the entries `rest`
      that were still ahead of it: either every one of them was a trust entry
      and the reader is exhausted, or it stopped at the first payload entry,
      which is now current, unread, and whose name it returned. */
  ghost predicate Returned(rest: seq<ZipEntry>, result: Option<string>, t: ReaderState)
  {
    t.zip.Some? &&
    match result
    case None =>
      t.current.None? && t.zip.value == ZipCursor([], []) &&
      forall j :: 0 <= j < |rest| ==> IsTrustEntry(Classify(rest[j].name))
    case Some(name) =>
      var q := t.zip.value.rest;
      |q| < |rest| && q == rest[|rest| - |q|..] &&
      var k := |rest| - |q| - 1;
      t.current == Some(rest[k]) && rest[k].name == name &&
      Classify(name) == Payload && t.zip.value.unread == rest[k].content &&
      forall j :: 0 <= j < k ==> IsTrustEntry(Classify(rest[j].name))
  }

  /** `getNextFile` never returns the name of a trust entry: it returns the
      first payload entry ahead, and returns null only when every remaining
      entry was a trust entry. */
  lemma {:induction false} NextFileReturnsPayload(s: ReaderState, validate: Validator)
    requires s.zip.Some?
    ensures NextFile(s, validate).0.Success?
    ensures Returned(s.zip.value.rest, NextFile(s, validate).0.value, NextFile(s, validate).1)
    decreases |s.zip.value.rest|
  {
    var rest := s.zip.value.rest;
    if rest != [] {
      var t := s.(zip := Some(ZipCursor(rest[1..], rest[0].content)), current := Some(rest[0]));
      var (special, u) := SpecialFile(t, validate);
      if special {
        NextFileReturnsPayload(u, validate);
        var r := NextFile(u, validate);
        assert NextFile(s, validate) == r;
        ReturnedAfterTrustEntry(rest, r.0.value, r.1);
      }
    }
  }

  /** Skipping one more trust entry in front keeps `Returned`. */
  lemma ReturnedAfterTrustEntry(rest: seq<ZipEntry>, result: Option<string>, t: ReaderState)
    requires rest != [] && IsTrustEntry(Classify(rest[0].name))
    requires Returned(rest[1..], result, t)
    ensures Returned(rest, result, t)
  {
    match result
    case None =>
      TrustPrefixGrows(rest, |rest|);
    case Some(name) =>
      ReturnedNameAfterTrustEntry(rest, name, t);
  }

  /** The case of `ReturnedAfterTrustEntry` where a name was returned. */
  lemma ReturnedNameAfterTrustEntry(rest: seq<ZipEntry>, name: string, t: ReaderState)
    requires rest != [] && IsTrustEntry(Classify(rest[0].name))
    requires Returned(rest[1..], Some(name), t)
    ensures Returned(rest, Some(name), t)
  {
    var q := t.zip.value.rest;
    assert rest[1..][|rest| - 1 - |q|..] == rest[|rest| - |q|..];
    var k := |rest| - |q| - 1;
    assert rest[1..][k - 1] == rest[k];
    TrustPrefixGrows(rest, k);
  }

  /** If the first entry and the `k - 1` entries after it are trust
      entries, so are the first `k`. */
  lemma TrustPrefixGrows(rest: seq<ZipEntry>, k: nat)
    requires 0 < k <= |rest| && IsTrustEntry(Classify(rest[0].name))
    requires forall j :: 0 <= j < k - 1 ==> IsTrustEntry(Classify(rest[1..][j].name))
    ensures forall j :: 0 <= j < k ==> IsTrustEntry(Classify(rest[j].name))
  {
    forall j | 0 < j < k ensures IsTrustEntry(Classify(rest[j].name)) {
      assert rest[1..][j - 1] == rest[j];
    }
  }

  /** Final verification is triggered once when `getNextFile` runs out of
      entries, and not at all when it returns a name or fails. */
  lemma {:induction false} NextFileVerifiesAtEnd(s: ReaderState, validate: Validator)
    ensures var r := NextFile(s, validate);
      CountVerifyAll(r.1.calls) == CountVerifyAll(s.calls) + (if r.0 == Success(None) then 1 else 0)
    ensures var r := NextFile(s, validate);
      r.0 == Success(None) ==> r.1.calls[|r.1.calls| - 1] == VerifyAllVerified
    decreases if s.zip.Some? then |s.zip.value.rest| else 0
  {
    if s.zip.Some? {
      var (entry, cursor) := GetNextEntry(s.zip.value);
      var t := s.(zip := Some(cursor), current := entry);
      if entry.None? {
        AppendCall(s.calls, VerifyAllVerified);
      } else {
        var (special, u) := SpecialFile(t, validate);
        SpecialFileCalls(t, validate);
        if special {
          NextFileVerifiesAtEnd(u, validate);
        }
      }
    }
  }

  /** `specialFile` adds at most one call to the log, never a final
      verification, and keeps the reader invariant. */
  lemma SpecialFileCalls(s: ReaderState, validate: Validator)
    requires s.zip.Some? && s.current.Some?
    ensures var r := SpecialFile(s, validate);
      CountVerifyAll(r.1.calls) == CountVerifyAll(s.calls) &&
      (Consistent(s) ==> Consistent(r.1)) &&
      s.calls <= r.1.calls && |r.1.calls| <= |s.calls| + 1
  {
    var r := SpecialFile(s, validate);
    if r.1.calls != s.calls {
      AppendCall(s.calls, r.1.calls[|s.calls|]);
      assert r.1.calls == s.calls + [r.1.calls[|s.calls|]];
    }
  }

  /** `getNextFile` keeps the reader invariant and only ever appends to the
      verifier log. */
  lemma {:induction false} NextFileConsistent(s: ReaderState, validate: Validator)
    ensures var r := NextFile(s, validate);
      (Consistent(s) ==> Consistent(r.1)) && s.calls <= r.1.calls
    decreases if s.zip.Some? then |s.zip.value.rest| else 0
  {
    if s.zip.Some? {
      var (entry, cursor) := GetNextEntry(s.zip.value);
      var t := s.(zip := Some(cursor), current := entry);
      if entry.None? {
        AppendCall(s.calls, VerifyAllVerified);
      } else {
        var (special, u) := SpecialFile(t, validate);
        SpecialFileCalls(t, validate);
        if special {
          NextFileConsistent(u, validate);
        }
      }
    }
  }

  /** Once exhausted, the reader stays exhausted, and each further
      `getNextFile` returns null and triggers final verification again. */
  lemma NextFileAfterEnd(s: ReaderState, validate: Validator)
    requires NextFile(s, validate).0 == Success(None)
    ensures var t := NextFile(s, validate).1;
      var u := NextFile(t, validate);
      u.0 == Success(None) && u.1.calls == t.calls + [VerifyAllVerified] &&
      CountVerifyAll(u.1.calls) == CountVerifyAll(t.calls) + 1
  {
    NextFileReturnsPayload(s, validate);
    NextFileVerifiesAtEnd(NextFile(s, validate).1, validate);
  }

  /** `writeFile` keeps the reader invariant. */
  lemma WriteFileConsistent(s: ReaderState, algorithm: string, hash: HashFunction)
    requires Consistent(s)
    ensures Consistent(WriteFile(s, algorithm, hash).1)
  {
    if s.current.Some? && s.zip.Some? {
      AppendCall(s.calls, Update(s.current.value.name, hash(algorithm, s.zip.value.unread)));
    }
  }

  /** How `specialFile` handles each role. Payload entries are left alone and
      surfaced; every other role is hidden. A manifest replaces the buffer
      with the entry's unread bytes (all of it right after `getNextFile`
      opens the entry, see `OpenedManifestReadInFull`) and goes to
      extraction. A detached
      signature adds exactly one certificate, tagged with the entry's name,
      when and only when a manifest is buffered, and leaves the buffer as it
      was. Other signature entries have no effect. */
  lemma SpecialFileByRole(s: ReaderState, validate: Validator)
    requires s.zip.Some? && s.current.Some?
    ensures var r, name, bytes := SpecialFile(s, validate), s.current.value.name, s.zip.value.unread;
      && (r.0 <==> IsTrustEntry(Classify(name)))
      && (Classify(name) == Payload ==> r.1 == s)
      && (Classify(name) == CadesManifest ==>
            r.1.manifest == Some(bytes) && r.1.calls == s.calls + [CadesExtractAndVerify(bytes)])
      && (Classify(name) == XadesManifest ==>
            r.1.manifest == Some(bytes) && r.1.calls == s.calls + [XadesExtractAndVerify(bytes)])
      && (Classify(name) == CadesSignature && s.manifest.Some? ==>
            r.1.manifest == s.manifest &&
            r.1.calls == s.calls + [AddCertificate(Certificate(validate(s.manifest.value, bytes), name))])
      && (Classify(name) == CadesSignature && s.manifest.None? ==> r.1 == s)
      && (Classify(name) == InertSignature ==> r.1 == s)
  {
  }

  /** As `getNextFile` calls it, right after the entry was opened, a
      manifest entry is buffered and handed to extraction in full: its
      stored content, not only some remaining part of it. */
  lemma OpenedManifestReadInFull(s: ReaderState, validate: Validator)
    requires s.zip.Some? && s.zip.value.rest != []
    ensures var e := s.zip.value.rest[0];
      var t := s.(zip := Some(GetNextEntry(s.zip.value).1), current := Some(e));
      var r := SpecialFile(t, validate).1;
      && (Classify(e.name) == CadesManifest ==>
            r.manifest == Some(e.content) && r.calls == s.calls + [CadesExtractAndVerify(e.content)])
      && (Classify(e.name) == XadesManifest ==>
            r.manifest == Some(e.content) && r.calls == s.calls + [XadesExtractAndVerify(e.content)])
  {
    var e := s.zip.value.rest[0];
    SpecialFileByRole(s.(zip := Some(GetNextEntry(s.zip.value).1), current := Some(e)), validate);
  }

  /** A certificate reaches the verifier only while a manifest is buffered:
      in a consistent reader every AddCertificate in the log follows some
      manifest handed to extraction. */
  lemma CertificateNeedsManifest(s: ReaderState, validate: Validator)
    requires s.zip.Some? && s.current.Some?
    requires Consistent(s)
    ensures var r := SpecialFile(s, validate);
      |r.1.calls| > |s.calls| && r.1.calls[|s.calls|].AddCertificate? ==> LastManifest(s.calls).Some?
  {
  }

  /** Right after `getNextFile` returned a name, `writeFile` copies that
      entry's stored bytes unchanged and reports their hash under that name. */
  lemma WriteAfterNextFile(s: ReaderState, validate: Validator, algorithm: string, hash: HashFunction)
    requires s.zip.Some?
    requires NextFile(s, validate).0.Success? && NextFile(s, validate).0.value.Some?
    ensures var t, name := NextFile(s, validate).1, NextFile(s, validate).0.value.value;
      t.current.Some? && t.current.value in s.zip.value.rest && t.current.value.name == name &&
      var w := WriteFile(t, algorithm, hash);
      w.0 == Success(t.current.value.content) &&
      w.1.calls == t.calls + [Update(name, hash(algorithm, t.current.value.content))]
  {
    NextFileReturnsPayload(s, validate);
  }

  /** A second `writeFile` on the same entry finds the entry already read:
      it copies nothing and reports the hash of no bytes. */
  lemma SecondWriteFileIsEmpty(s: ReaderState, algorithm: string, hash: HashFunction)
    requires s.zip.Some? && s.current.Some?
    ensures var t := WriteFile(s, algorithm, hash).1;
      var w := WriteFile(t, algorithm, hash);
      w.0 == Success([]) && w.1.calls == t.calls + [Update(s.current.value.name, hash(algorithm, []))]
  {
  }

  // ---------------------------------------------------------------------
  // Reading a whole archive

  /** The names of the payload entries among `entries`, in their order. */
  function PayloadNames(entries: seq<ZipEntry>): seq<string>
  {
    if entries == [] then []
    else (if Classify(entries[0].name) == Payload then [entries[0].name] else []) + PayloadNames(entries[1..])
  }

  /** A caller that calls `getNextFile` until it returns null: the names it
      receives and the final state. */
  ghost function ReadAll(s: ReaderState, validate: Validator): (seq<string>, ReaderState)
    requires s.zip.Some?
    decreases |s.zip.value.rest|
  {
    NextFileReturnsPayload(s, validate);
    var (res, t) := NextFile(s, validate);
    match res.value
    case None => ([], t)
    case Some(name) =>
      var (names, u) := ReadAll(t, validate);
      ([name] + names, u)
  }

  lemma {:induction false} PayloadNamesAllTrust(entries: seq<ZipEntry>)
    requires forall j :: 0 <= j < |entries| ==> IsTrustEntry(Classify(entries[j].name))
    ensures PayloadNames(entries) == []
  {
    if entries != [] {
      assert forall j :: 0 <= j < |entries| - 1 ==> entries[1..][j] == entries[j + 1];
      PayloadNamesAllTrust(entries[1..]);
    }
  }

  lemma {:induction false} PayloadNamesSkip(entries: seq<ZipEntry>, k: nat)
    requires k < |entries| && Classify(entries[k].name) == Payload
    requires forall j :: 0 <= j < k ==> IsTrustEntry(Classify(entries[j].name))
    ensures PayloadNames(entries) == [entries[k].name] + PayloadNames(entries[k + 1..])
  {
    if k > 0 {
      assert forall j :: 0 <= j < k - 1 ==> entries[1..][j] == entries[j + 1];
      assert entries[1..][k - 1] == entries[k];
      assert entries[1..][k..] == entries[k + 1..];
      PayloadNamesSkip(entries[1..], k - 1);
    }
  }

  /** Draining the reader yields exactly the payload names ahead, in archive
      order, and triggers final verification exactly once, at the end. */
  lemma {:induction false} ReadAllYieldsPayloadNames(s: ReaderState, validate: Validator)
    requires s.zip.Some?
    ensures var r := ReadAll(s, validate);
      r.0 == PayloadNames(s.zip.value.rest) &&
      CountVerifyAll(r.1.calls) == CountVerifyAll(s.calls) + 1 &&
      r.1.current.None? && (Consistent(s) ==> Consistent(r.1))
    decreases |s.zip.value.rest|
  {
    var rest := s.zip.value.rest;
    NextFileReturnsPayload(s, validate);
    NextFileVerifiesAtEnd(s, validate);
    NextFileConsistent(s, validate);
    var (res, t) := NextFile(s, validate);
    match res.value
    case None =>
      PayloadNamesAllTrust(rest);
    case Some(name) =>
      var q := t.zip.value.rest;
      PayloadNamesSkip(rest, |rest| - |q| - 1);
      ReadAllYieldsPayloadNames(t, validate);
  }

  /** From a freshly opened archive: the caller sees the payload entries'
      names in order, never a trust entry, and verification runs once. */
  lemma ReadArchive(archive: seq<ZipEntry>, validate: Validator)
    ensures var r := ReadAll(Initial(archive), validate);
      r.0 == PayloadNames(archive) && CountVerifyAll(r.1.calls) == 1 && Consistent(r.1)
  {
    ReadAllYieldsPayloadNames(Initial(archive), validate);
  }
}
