# ASiC container engine: reader cursor and manifest builder

A Dafny model of two sequential parts of an ETSI ASiC container library (ETSI TS 102 918 / EN 319 162), together with proofs about them.

- **The archive reader** (`AbstractAsicReader`). It walks the ZIP archive's entries one at a time. Entries under `META-INF/` with a known stem are trust entries (`asicmanifest*`, `signature*.p7s`, `signature*.xml`, other `signature*`). The stem test ignores case. Trust entries are handled and never shown to the caller. Every other entry is a payload entry: the reader returns its name, copies its bytes out while digesting them, and reports the digest to the manifest verifier. When the entries run out, the reader triggers final verification.
- **The manifest builder** (`AsicManifest`). This is the write-path accumulator. Each `add` appends one data-object record: the URI, the MIME type, the digest of the bytes fed since the last reset, and the digest-method URI of the algorithm fixed at construction. `setSignature` sets the single signature reference, replacing any earlier one.

Layout, one module per file:
- `base.dfy` (`Base`): bytes, `Option` (Java null), `Result`, and the two exceptions the code throws itself.
- `digests.dfy` (`Digests`): `MessageDigest` as a class. Its running input is the bytes fed since the last reset. The hash is an uninterpreted function value supplied by the security provider.
- `entry_names.dfy` (`EntryNames`): the pure entry-name classifier.
- `reader_model.dfy` (`ReaderModel`): the reader's fields as a value and each operation as a function, with the lemmas.
- `reader.dfy` (`Reader`): class `AbstractAsicReader`. `ReadEntry`, `SpecialFile`, `GetNextFile` and `WriteFile` are proved equal to their `ReaderModel` functions. `Create` is proved to give `ReaderModel.Initial`, and `Close` is specified directly, since it has no `ReaderModel` counterpart.
- `manifest_model.dfy` (`ManifestModel`): the builder's state, the effect of one call (`Step`) and of a call sequence (`Run`), with the lemmas.
- `manifest.dfy` (`Manifest`): class `AsicManifest`. `GetMessageDigest`, `Add` and `SetSignature` are proved equal to `Step` with the matching call. `Create` is proved to give `Empty()`. The function `GetASiCManifestType` reads the current document.

Modelling choices:
- The ZIP archive is a sequence of (name, bytes) entries. The stream position is a `ZipCursor`: the entries still ahead, plus the unread bytes of the current entry.
- `ManifestVerifier` is modelled only by the calls the reader makes into it: `update`, `addCertificate` and `verifyAllVerified`. The log also records the manifest bytes handed to CAdES and XAdES `extractAndVerify`.
- `SignatureHelper.validate` is an uninterpreted function value (`Validator`).
- The output stream of `writeFile` is the method's return value: the bytes written to it.
- Java constructors that can throw are modelled as static `Create` methods that return a `Result`.

Behaviours of the code worth knowing:
- A detached `.p7s` signature does **not** clear the manifest buffer (`AbstractAsicReader.java:119-128`). A second signature entry is therefore validated against the same manifest (`SpecialFileByRole`).
- Final verification is not computed only once. Each `getNextFile` call that finds no more entries calls `verifyAllVerified` again (`NextFileAfterEnd`). "Exactly once" holds for a caller that stops at the first null (`ReadAllYieldsPayloadNames`, `ReadArchive`).
- Only the `META-INF/` prefix test is case-sensitive. `meta-inf/asicmanifest.xml` is a payload entry (`ClassifyExamples`).
- Trust-namespace entries with no known stem, such as `META-INF/manifest.xml`, are returned to the caller as payload.

## Model

| member | source | states |
|---|---|---|
| `Digests.MessageDigest.GetInstance` | src/main/java/no/difi/asic/AsicManifest.java:40-45 | fails exactly when the provider lacks the algorithm name; otherwise returns a fresh digest for that algorithm with no accumulated input |
| `Digests.MessageDigest.Digest` | src/main/java/no/difi/asic/AsicManifest.java:66 | returns `Hash(algorithm, bytes fed since the last reset)` and leaves the digest reset |
| `Digests.MessageDigest.Update` | src/main/java/no/difi/asic/AbstractAsicReader.java:77-78 | appends the bytes streamed through the digest to its accumulated input |
| `Digests.MessageDigest.Reset` | src/main/java/no/difi/asic/AbstractAsicReader.java:76 | afterwards no bytes are accumulated, so the next digest covers only what is fed from then on |
| `EntryNames.Lower` | src/main/java/no/difi/asic/AbstractAsicReader.java:107 | the lower-cased string has the same length and is the character-wise lower case of the input |
| `EntryNames.Classify` | src/main/java/no/difi/asic/AbstractAsicReader.java:103-141 | only names starting with `META-INF/` can be trust entries |
| `EntryNames.OutsideNamespaceIsPayload` | src/main/java/no/difi/asic/AbstractAsicReader.java:104-105 | any name not starting with `META-INF/` is a payload entry |
| `EntryNames.ClassifyTrustName` | src/main/java/no/difi/asic/AbstractAsicReader.java:107-141 | for a `META-INF/` name, each of the five roles holds if and only if the characters after the 9-character prefix match the stem `asicmanifest` or `signature` and the suffix `.p7s` or `.xml`, ignoring case, in the code's order of tests |
| `EntryNames.ClassifyIgnoresStemCase` | src/main/java/no/difi/asic/AbstractAsicReader.java:107-119 | two `META-INF/` names that agree after the prefix up to case get the same role (only that part is looked at, and case does not matter there) |
| `EntryNames.ClassifyExamples` | src/main/java/no/difi/asic/AbstractAsicReader.java:104-141 | the role of concrete names: mixed-case manifest and signature stems are recognised, a lower-case `meta-inf/` prefix is payload, and `META-INF/manifest.xml` is payload |
| `ReaderModel.ReadEntry` | src/main/java/no/difi/asic/AbstractAsicReader.java:113 | copying out of the entry stream yields exactly the current entry's unread bytes, leaves none unread, keeps the entries ahead, and touches no other field |
| `ReaderModel.SpecialFile` | src/main/java/no/difi/asic/AbstractAsicReader.java:103-142 | the stream stays open at the same position among the entries and the current entry is unchanged; the per-role effect is given by `SpecialFileByRole` |
| `ReaderModel.SpecialFileByRole` | src/main/java/no/difi/asic/AbstractAsicReader.java:103-142 | an entry is hidden iff it is a trust entry; a payload entry changes nothing; a manifest (CAdES or XAdES) replaces the buffer with the entry's unread bytes and goes to the matching extraction; a `.p7s` adds exactly one certificate, tagged with the entry name, iff a manifest is buffered, and keeps the buffer; any other `signature*` entry has no effect |
| `ReaderModel.OpenedManifestReadInFull` | src/main/java/no/difi/asic/AbstractAsicReader.java:53-57 | when `getNextFile` has just opened a manifest entry, the buffer and the bytes handed to CAdES or XAdES extraction are that entry's whole stored content |
| `ReaderModel.SpecialFileCalls` | src/main/java/no/difi/asic/AbstractAsicReader.java:103-142 | `specialFile` appends at most one verifier call, never a final verification, and keeps the reader invariant |
| `ReaderModel.CertificateNeedsManifest` | src/main/java/no/difi/asic/AbstractAsicReader.java:119-128 | a certificate reaches the verifier only when some manifest has already been handed to extraction |
| `ReaderModel.NextFile` | src/main/java/no/difi/asic/AbstractAsicReader.java:52-64 | fails with a NullPointerException, leaving the state unchanged, exactly when the stream is closed |
| `ReaderModel.NextFileReturnsPayload` | src/main/java/no/difi/asic/AbstractAsicReader.java:52-64 | `getNextFile` returns the name of the first payload entry ahead, which becomes current and unread, after skipping only trust entries; it returns null only when every remaining entry was a trust entry |
| `ReaderModel.NextFileVerifiesAtEnd` | src/main/java/no/difi/asic/AbstractAsicReader.java:52-64 | `verifyAllVerified` is called once, as the last call, when the result is null, and not at all otherwise |
| `ReaderModel.NextFileConsistent` | src/main/java/no/difi/asic/AbstractAsicReader.java:52-64 | `getNextFile` only appends to the verifier log and keeps the invariant that the buffer holds the manifest last handed to extraction |
| `ReaderModel.NextFileAfterEnd` | src/main/java/no/difi/asic/AbstractAsicReader.java:52-64 | after the entries are exhausted, each further call returns null again and calls `verifyAllVerified` again |
| `ReaderModel.WriteFile` | src/main/java/no/difi/asic/AbstractAsicReader.java:71-87 | with no current entry it fails with IllegalStateException("No file to read.") and changes nothing; with a current entry on a closed stream it fails with a NullPointerException and changes nothing; it succeeds exactly when there is a current entry and an open stream, and then outputs exactly the unread bytes, leaves none unread, and appends `update(name, Hash(alg, those bytes))` to the verifier log |
| `ReaderModel.WriteFileConsistent` | src/main/java/no/difi/asic/AbstractAsicReader.java:86 | reporting a digest keeps the reader invariant |
| `ReaderModel.WriteAfterNextFile` | src/main/java/no/difi/asic/AbstractAsicReader.java:71-87 | after `getNextFile` returned a name, `writeFile` copies that archive entry's stored bytes unchanged and reports `Hash(alg, bytes)` under that name |
| `ReaderModel.SecondWriteFileIsEmpty` | src/main/java/no/difi/asic/AbstractAsicReader.java:76-83 | a second `writeFile` on the same entry copies nothing and reports the hash of no bytes |
| `ReaderModel.ReadAllYieldsPayloadNames` | src/main/java/no/difi/asic/AbstractAsicReader.java:52-64 | a caller draining the reader receives exactly the payload names ahead, in archive order, and final verification is triggered exactly once |
| `ReaderModel.ReadArchive` | src/main/java/no/difi/asic/AbstractAsicReader.java:32-64 | on a freshly opened archive: the returned names are the archive's payload names in order, with verification triggered exactly once, and the invariant holds at the end |
| `Reader.AbstractAsicReader.Create` | src/main/java/no/difi/asic/AbstractAsicReader.java:32-44 | throws IllegalStateException("Algorithm … not supported") iff the algorithm is unsupported; otherwise the reader is positioned before the first entry, with an empty buffer and log and an empty digest |
| `Reader.AbstractAsicReader.ReadEntry` | src/main/java/no/difi/asic/AbstractAsicReader.java:113 | copying out of the entry stream yields exactly the entry's unread bytes and leaves none |
| `Reader.AbstractAsicReader.SpecialFile` | src/main/java/no/difi/asic/AbstractAsicReader.java:103-142 | result and new fields equal `ReaderModel.SpecialFile` of the old fields; the invariant is kept |
| `Reader.AbstractAsicReader.GetNextFile` | src/main/java/no/difi/asic/AbstractAsicReader.java:52-64 | the `while` loop's result and new fields equal `ReaderModel.NextFile` of the old fields; the invariant is kept |
| `Reader.AbstractAsicReader.WriteFile` | src/main/java/no/difi/asic/AbstractAsicReader.java:71-87 | result and new fields equal `ReaderModel.WriteFile` with the reader's digest; the digest is reset after a read and untouched when there is no current entry |
| `Reader.AbstractAsicReader.Close` | src/main/java/no/difi/asic/AbstractAsicReader.java:94-99 | afterwards the stream is null; on an already closed reader nothing changes (idempotent) |
| `ManifestModel.Step` | src/main/java/no/difi/asic/AsicManifest.java:52-80 | one call: `getMessageDigest` empties the digest input; a streamed chunk is appended to it; `add` keeps every earlier record and appends exactly one with the given URI and MIME type, `Hash(alg, input since the last reset)` and the algorithm's URI, then empties the input; only `setSignature` changes the signature reference, to the given one; nothing else changes the records |
| `ManifestModel.Run` | src/main/java/no/difi/asic/AsicManifest.java:62-73 | over any sequence of calls, earlier records are never changed: the old record list is a prefix of the new one |
| `ManifestModel.RunAddsInOrder` | src/main/java/no/difi/asic/AsicManifest.java:62-73 | the (URI, MIME type) pairs of the records added by a sequence of calls are those of its `add` calls, in call order |
| `ManifestModel.RunDigestMethod` | src/main/java/no/difi/asic/AsicManifest.java:68-70 | every record carries the digest-method URI of the construction-time algorithm |
| `ManifestModel.RunSignature` | src/main/java/no/difi/asic/AsicManifest.java:75-80 | the signature reference is the one set by the last `setSignature` (the last call wins), so `add` and the digest never change it |
| `ManifestModel.WriteEntry` | src/main/java/no/difi/asic/AsicManifest.java:52-73 | fetching the digest, streaming bytes through it in any chunks and then calling `add` appends one record whose digest value is `Hash(alg, exactly those bytes)`, and leaves the digest empty for the next entry |
| `Manifest.AsicManifest.Create` | src/main/java/no/difi/asic/AsicManifest.java:36-46 | throws IllegalStateException("Algorithm … not supported") iff the algorithm is unsupported; otherwise an empty manifest with the algorithm fixed and an empty digest |
| `Manifest.AsicManifest.GetMessageDigest` | src/main/java/no/difi/asic/AsicManifest.java:52-55 | hands back the builder's own digest (the same object) with empty accumulated input; the manifest is untouched |
| `Manifest.AsicManifest.Add` | src/main/java/no/difi/asic/AsicManifest.java:62-73 | appends exactly one record (URI, MIME type, `Hash(alg, bytes fed since the last reset)`, the algorithm's URI), keeps earlier records and the signature reference, and resets the digest |
| `Manifest.AsicManifest.SetSignature` | src/main/java/no/difi/asic/AsicManifest.java:75-80 | the signature reference becomes (URI, MIME type), replacing any earlier one; the record list is unchanged |
| `Manifest.AsicManifest.GetASiCManifestType` | src/main/java/no/difi/asic/AsicManifest.java:82-84 | returns the manifest document as built: the records in `add` order and the current signature reference |

## Left out

- `AsicManifest.toBytes` (src/main/java/no/difi/asic/AsicManifest.java:86-99): XML marshalling by an external library.
- The ZIP codec (`AsicInputStream`, `ZipEntry`, `closeEntry`): replaced by a sequence of entries and a cursor.
- `getAsicManifest` (src/main/java/no/difi/asic/AbstractAsicReader.java:149-151): it only delegates to the verifier, whose class is not part of this model.
- The internals of `ManifestVerifier`, `CadesAsicManifest.extractAndVerify`, `XadesAsicManifest.extractAndVerify` and `SignatureHelper.validate`: only the calls made to them are recorded. The exceptions they throw (integrity and trust failures) are not modelled, so neither is the partial state such an exception leaves behind.
- `IOException` from the streams, logging, and the Base64 debug output.
- The third argument (`null`) of `manifestVerifier.update` is not recorded.
- `EntryNames.Lower`: lower-cases ASCII letters only. Java's `toLowerCase` also maps other Unicode letters and depends on the default locale. Names with non-ASCII letters, or any name under a Turkish default locale (where `I` lower-cases to a dotless i), may be classified differently by the Java code.
- `Manifest.AsicManifest.GetASiCManifestType`: returns the document as a value. The Java method returns the live JAXB object, which a caller could mutate.
- Closing the underlying transport in `close` is modelled only as the stream field becoming null.
- `src/main/java/no/difi/asic/api/AsicConfig.java`: configuration constants with no behaviour.
