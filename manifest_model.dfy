/** The manifest builder (AsicManifest) on values: the records it holds, the
    bytes its digest has seen since the last reset, and what a sequence of
    calls on it produces. */
module ManifestModel {
  import opened Base
  import opened Digests

  /** One data-object record of the ASiC manifest. */
  datatype DataObjectReference =
    DataObjectReference(uri: string, mimeType: string, digestValue: seq<byte>, digestMethod: string)

  /** The reference to the signature entry covering the manifest. */
  datatype SigReference = SigReference(uri: string, mimeType: string)

  /** The ASiCManifest document: the records in order and one optional
      signature reference. */
  datatype ASiCManifestType =
    ASiCManifestType(dataObjectReference: seq<DataObjectReference>, sigReference: Option<SigReference>)

  /** The bytes the builder's digest has seen since its last reset, and the
      document built so far. */
  datatype BuilderState = BuilderState(pending: seq<byte>, manifest: ASiCManifestType)

  /** A call on the builder, or (DigestUpdate) on the digest it hands out. */
  datatype BuilderCall =
    | GetMessageDigest
    | DigestUpdate(bytes: seq<byte>)
    | Add(filename: string, mimeType: string)
    | SetSignature(filename: string, mimeType: string)

  /** A freshly constructed builder. */
  function Empty(): BuilderState
  {
    BuilderState([], ASiCManifestType([], None))
  }

  /** The effect of one call, for a builder created with `alg` under a
      provider computing `hash`: `getMessageDigest` resets the digest, bytes
      streamed through it accumulate, `add` appends one record holding the
      hash of those bytes and resets the digest, and `setSignature` replaces
      the signature reference. */
  function Step(alg: MessageDigestAlgorithm, hash: HashFunction, s: BuilderState, c: BuilderCall): (r: BuilderState)
    ensures var before, after := s.manifest.dataObjectReference, r.manifest.dataObjectReference;
      |after| == |before| + (if c.Add? then 1 else 0) && after[..|before|] == before &&
      Entries(after) == Entries(before) + (if c.Add? then [(c.filename, c.mimeType)] else [])
    ensures c.Add? ==> var last := r.manifest.dataObjectReference[|s.manifest.dataObjectReference|];
      last.uri == c.filename && last.mimeType == c.mimeType &&
      last.digestValue == hash(alg.algorithm, s.pending) && last.digestMethod == alg.uri
    ensures r.pending == (if c.DigestUpdate? then s.pending + c.bytes else if c.SetSignature? then s.pending else [])
    ensures r.manifest.sigReference == (if c.SetSignature? then Some(SigReference(c.filename, c.mimeType)) else s.manifest.sigReference)
  {
    match c
    case GetMessageDigest => s.(pending := [])
    case DigestUpdate(bytes) => s.(pending := s.pending + bytes)
    case Add(filename, mimeType) =>
      var record := DataObjectReference(filename, mimeType, hash(alg.algorithm, s.pending), alg.uri);
      EntriesAppend(s.manifest.dataObjectReference, [record]);
      assert Entries([record]) == [(filename, mimeType)];
      BuilderState([], s.manifest.(dataObjectReference := s.manifest.dataObjectReference + [record]))
    case SetSignature(filename, mimeType) =>
      s.(manifest := s.manifest.(sigReference := Some(SigReference(filename, mimeType))))
  }

  /** The state after making `calls`, in order. `add` only appends: earlier
      records are never changed. */
  function Run(alg: MessageDigestAlgorithm, hash: HashFunction, s: BuilderState, calls: seq<BuilderCall>): (r: BuilderState)
    ensures var before, after := s.manifest.dataObjectReference, r.manifest.dataObjectReference;
      |before| <= |after| && after[..|before|] == before
    decreases |calls|
  {
    if calls == [] then s
    else
      var t := Step(alg, hash, s, calls[0]);
      var r := Run(alg, hash, t, calls[1..]);
      PrefixOfPrefix(s.manifest.dataObjectReference, t.manifest.dataObjectReference, r.manifest.dataObjectReference);
      r
  }

  /** A prefix of a prefix is a prefix. */
  lemma PrefixOfPrefix<T>(a: seq<T>, b: seq<T>, c: seq<T>)
    requires |a| <= |b| <= |c| && b[..|a|] == a && c[..|b|] == b
    ensures c[..|a|] == a
  {
    assert c[..|a|] == c[..|b|][..|a|];
  }

  /** The (URI, MIME type) pairs of some records, in order. */
  function Entries(records: seq<DataObjectReference>): seq<(string, string)>
  {
    if records == [] then [] else [(records[0].uri, records[0].mimeType)] + Entries(records[1..])
  }

  /** The (file name, MIME type) pairs passed to `add`, in call order. */
  function Added(calls: seq<BuilderCall>): seq<(string, string)>
  {
    if calls == [] then []
    else (if calls[0].Add? then [(calls[0].filename, calls[0].mimeType)] else []) + Added(calls[1..])
  }

  /** The signature reference set by the last `setSignature` among `calls`,
      or `initial` when there is none. */
  function LastSignature(calls: seq<BuilderCall>, initial: Option<SigReference>): Option<SigReference>
  {
    if calls == [] then initial
    else match calls[|calls| - 1]
      case SetSignature(filename, mimeType) => Some(SigReference(filename, mimeType))
      case _ => LastSignature(calls[..|calls| - 1], initial)
  }

  /** The feeding of a sequence of chunks through the digest. */
  function Updates(chunks: seq<seq<byte>>): (calls: seq<BuilderCall>)
  {
    if chunks == [] then [] else [DigestUpdate(chunks[0])] + Updates(chunks[1..])
  }

  function Concat(chunks: seq<seq<byte>>): seq<byte>
  {
    if chunks == [] then [] else chunks[0] + Concat(chunks[1..])
  }

  lemma {:induction false} EntriesAppend(a: seq<DataObjectReference>, b: seq<DataObjectReference>)
    ensures Entries(a + b) == Entries(a) + Entries(b)
  {
    if a == [] {
      assert a + b == b;
    } else {
      assert (a + b)[0] == a[0];
      assert (a + b)[1..] == a[1..] + b;
      EntriesAppend(a[1..], b);
    }
  }

  lemma {:induction false} RunAppend(alg: MessageDigestAlgorithm, hash: HashFunction, s: BuilderState, a: seq<BuilderCall>, b: seq<BuilderCall>)
    ensures Run(alg, hash, s, a + b) == Run(alg, hash, Run(alg, hash, s, a), b)
    decreases |a|
  {
    if a == [] {
      assert a + b == b;
    } else {
      assert (a + b)[1..] == a[1..] + b;
      RunAppend(alg, hash, Step(alg, hash, s, a[0]), a[1..], b);
    }
  }

  /** The records added by a sequence of calls are those of its `add`
      calls, in call order. */
  lemma {:induction false} RunAddsInOrder(alg: MessageDigestAlgorithm, hash: HashFunction, s: BuilderState, calls: seq<BuilderCall>)
    ensures Entries(Run(alg, hash, s, calls).manifest.dataObjectReference) ==
      Entries(s.manifest.dataObjectReference) + Added(calls)
    decreases |calls|
  {
    if calls != [] {
      var t := Step(alg, hash, s, calls[0]);
      RunAddsInOrder(alg, hash, t, calls[1..]);
      assert Run(alg, hash, s, calls) == Run(alg, hash, t, calls[1..]);
      assert Added(calls) == (if calls[0].Add? then [(calls[0].filename, calls[0].mimeType)] else []) + Added(calls[1..]);
    }
  }

  /** Every record `add` creates carries the digest-method URI of the
      algorithm fixed at construction. */
  lemma {:induction false} RunDigestMethod(alg: MessageDigestAlgorithm, hash: HashFunction, s: BuilderState, calls: seq<BuilderCall>)
    requires forall i :: 0 <= i < |s.manifest.dataObjectReference| ==>
      s.manifest.dataObjectReference[i].digestMethod == alg.uri
    ensures forall i :: 0 <= i < |Run(alg, hash, s, calls).manifest.dataObjectReference| ==>
      Run(alg, hash, s, calls).manifest.dataObjectReference[i].digestMethod == alg.uri
    decreases |calls|
  {
    if calls != [] {
      var t := Step(alg, hash, s, calls[0]);
      var before, mid := s.manifest.dataObjectReference, t.manifest.dataObjectReference;
      forall i | 0 <= i < |mid| ensures mid[i].digestMethod == alg.uri {
        if i < |before| {
          assert mid[i] == mid[..|before|][i];
        }
      }
      RunDigestMethod(alg, hash, t, calls[1..]);
      assert Run(alg, hash, s, calls) == Run(alg, hash, t, calls[1..]);
    }
  }

  /** The signature reference is the one set by the last `setSignature`;
      `add` and the digest never change it. */
  lemma {:induction false} RunSignature(alg: MessageDigestAlgorithm, hash: HashFunction, s: BuilderState, calls: seq<BuilderCall>)
    ensures Run(alg, hash, s, calls).manifest.sigReference == LastSignature(calls, s.manifest.sigReference)
    decreases |calls|
  {
    if calls != [] {
      var n := |calls| - 1;
      assert calls == calls[..n] + [calls[n]];
      RunAppend(alg, hash, s, calls[..n], [calls[n]]);
      RunSignature(alg, hash, s, calls[..n]);
    }
  }

  lemma {:induction false} RunUpdates(alg: MessageDigestAlgorithm, hash: HashFunction, s: BuilderState, chunks: seq<seq<byte>>)
    ensures Run(alg, hash, s, Updates(chunks)) == s.(pending := s.pending + Concat(chunks))
    decreases |chunks|
  {
    if chunks != [] {
      var t := s.(pending := s.pending + chunks[0]);
      RunFirstUpdate(alg, hash, s, chunks);
      RunUpdates(alg, hash, t, chunks[1..]);
      assert (s.pending + chunks[0]) + Concat(chunks[1..]) == s.pending + Concat(chunks);
    }
  }

  /** Streaming the first chunk, then the rest. */
  lemma RunFirstUpdate(alg: MessageDigestAlgorithm, hash: HashFunction, s: BuilderState, chunks: seq<seq<byte>>)
    requires chunks != []
    ensures Run(alg, hash, s, Updates(chunks)) ==
      Run(alg, hash, s.(pending := s.pending + chunks[0]), Updates(chunks[1..]))
  {
    var calls := Updates(chunks);
    assert calls[0] == DigestUpdate(chunks[0]) && calls[1..] == Updates(chunks[1..]);
  }

  /** The write path for one entry: fetch the reset digest, stream the
      entry's bytes through it in any chunks, then `add`. The new record, at
      the end of the list, holds the hash of exactly those bytes, and the
      digest starts the next entry from empty input. */
  lemma WriteEntry(alg: MessageDigestAlgorithm, hash: HashFunction, s: BuilderState,
                   chunks: seq<seq<byte>>, filename: string, mimeType: string)
    ensures Run(alg, hash, s, [GetMessageDigest] + Updates(chunks) + [Add(filename, mimeType)]) ==
      BuilderState([], s.manifest.(dataObjectReference := s.manifest.dataObjectReference +
        [DataObjectReference(filename, mimeType, hash(alg.algorithm, Concat(chunks)), alg.uri)]))
  {
    var reset := s.(pending := []);
    RunAppend(alg, hash, s, [GetMessageDigest] + Updates(chunks), [Add(filename, mimeType)]);
    RunAppend(alg, hash, s, [GetMessageDigest], Updates(chunks));
    RunUpdates(alg, hash, reset, chunks);
    assert Run(alg, hash, s, [GetMessageDigest]) == reset;
    var fed := reset.(pending := Concat(chunks));
    assert reset.pending + Concat(chunks) == Concat(chunks);
    assert Run(alg, hash, s, [GetMessageDigest] + Updates(chunks)) == fed;
    assert Run(alg, hash, fed, [Add(filename, mimeType)]) == Step(alg, hash, fed, Add(filename, mimeType));
  }
}
