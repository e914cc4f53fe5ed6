/** Classification of archive entry names into the roles the reader gives
    them (the pure name test inside `AbstractAsicReader.specialFile`). */
module EntryNames {

  /** Namespace of the trust entries; the test on it is case-sensitive. */
  const TrustPrefix: string := "META-INF/"
  const ManifestStem: string := "asicmanifest"
  const SignatureStem: string := "signature"
  const CadesSuffix: string := ".p7s"
  const XadesSuffix: string := ".xml"

  /** `Character.toLowerCase` restricted to ASCII letters. */
  function LowerChar(c: char): char
  {
    if 'A' <= c <= 'Z' then (c as int - 'A' as int + 'a' as int) as char else c
  }

  /** `String.toLowerCase`, character by character. */
  function Lower(s: string): (r: string)
    ensures |r| == |s|
    ensures forall i :: 0 <= i < |s| ==> r[i] == LowerChar(s[i])
  {
    if s == [] then [] else [LowerChar(s[0])] + Lower(s[1..])
  }

  predicate StartsWith(s: string, p: string)
  {
    |p| <= |s| && s[..|p|] == p
  }

  predicate EndsWith(s: string, p: string)
  {
    |p| <= |s| && s[|s| - |p|..] == p
  }

  /** The role of an entry. Everything but Payload is a trust entry, hidden
      from the caller. */
  datatype Role =
    | Payload          // surfaced to the caller and digested
    | CadesManifest    // META-INF/asicmanifest*
    | CadesSignature   // META-INF/signature*.p7s
    | XadesManifest    // META-INF/signature*.xml
    | InertSignature   // any other META-INF/signature*

  predicate IsTrustEntry(r: Role)
  {
    r != Payload
  }

  /** The role `specialFile` gives to an entry name: a case-sensitive prefix
      test, then prefix and suffix tests on the lower-cased rest of the name. */
  function Classify(name: string): (r: Role)
    ensures IsTrustEntry(r) ==> StartsWith(name, TrustPrefix)
  {
    if !StartsWith(name, TrustPrefix) then Payload
    else
      var filename := Lower(name[|TrustPrefix|..]);
      if StartsWith(filename, ManifestStem) then CadesManifest
      else if StartsWith(filename, SignatureStem) then
        if EndsWith(filename, CadesSuffix) then CadesSignature
        else if EndsWith(filename, XadesSuffix) then XadesManifest
        else InertSignature
      else Payload
  }

  /** The rest of `name` after the trust prefix begins with the lower-case
      word `p`, ignoring the case of `name`. */
  predicate StemStartsWith(name: string, p: string)
  {
    |TrustPrefix| + |p| <= |name| &&
    forall i :: 0 <= i < |p| ==> LowerChar(name[|TrustPrefix| + i]) == p[i]
  }

  /** The rest of `name` after the trust prefix ends with the lower-case
      word `p`, ignoring the case of `name`. */
  predicate StemEndsWith(name: string, p: string)
  {
    |TrustPrefix| + |p| <= |name| &&
    forall i :: 0 <= i < |p| ==> LowerChar(name[|name| - |p| + i]) == p[i]
  }

  lemma LowerRest(name: string)
    requires |TrustPrefix| <= |name|
    ensures var f := Lower(name[|TrustPrefix|..]);
      |f| == |name| - |TrustPrefix| &&
      forall i :: 0 <= i < |f| ==> f[i] == LowerChar(name[|TrustPrefix| + i])
  {
    var rest := name[|TrustPrefix|..];
    assert forall i :: 0 <= i < |rest| ==> rest[i] == name[|TrustPrefix| + i];
  }

  lemma StemStartsWithLower(name: string, p: string)
    requires |TrustPrefix| <= |name|
    ensures StartsWith(Lower(name[|TrustPrefix|..]), p) <==> StemStartsWith(name, p)
  {
    var f := Lower(name[|TrustPrefix|..]);
    LowerRest(name);
    if StemStartsWith(name, p) {
      assert f[..|p|] == p by {
        forall i | 0 <= i < |p| ensures f[..|p|][i] == p[i] {
          assert f[i] == LowerChar(name[|TrustPrefix| + i]);
        }
      }
    }
    if StartsWith(f, p) {
      forall i | 0 <= i < |p| ensures LowerChar(name[|TrustPrefix| + i]) == p[i] {
        assert f[..|p|][i] == f[i];
      }
    }
  }

  lemma StemEndsWithLower(name: string, p: string)
    requires |TrustPrefix| <= |name|
    ensures EndsWith(Lower(name[|TrustPrefix|..]), p) <==> StemEndsWith(name, p)
  {
    LowerRest(name);
    SuffixOfLowered(name, Lower(name[|TrustPrefix|..]), p);
  }

  /** For any `f` that is the lower-cased rest of `name`: `f` ends with `p`
      iff the rest of `name` ends with `p` ignoring case. */
  lemma SuffixOfLowered(name: string, f: string, p: string)
    requires |TrustPrefix| <= |name| && |f| == |name| - |TrustPrefix|
    requires forall i :: 0 <= i < |f| ==> f[i] == LowerChar(name[|TrustPrefix| + i])
    ensures EndsWith(f, p) <==> StemEndsWith(name, p)
  {
    if |p| <= |f| {
      var start := |f| - |p|;
      var g := f[start..];
      assert forall i :: 0 <= i < |p| ==> g[i] == f[start + i];
      assert forall i :: 0 <= i < |p| ==> g[i] == LowerChar(name[|name| - |p| + i]);
      if StemEndsWith(name, p) {
        assert g == p;
      }
    }
  }

  /** The roles of the trust namespace, each stated on the characters of the
      name itself: case-insensitive stems and suffixes after the prefix. */
  lemma ClassifyTrustName(name: string)
    requires StartsWith(name, TrustPrefix)
    ensures Classify(name) == CadesManifest <==> StemStartsWith(name, ManifestStem)
    ensures Classify(name) == CadesSignature <==>
      !StemStartsWith(name, ManifestStem) && StemStartsWith(name, SignatureStem) &&
      StemEndsWith(name, CadesSuffix)
    ensures Classify(name) == XadesManifest <==>
      !StemStartsWith(name, ManifestStem) && StemStartsWith(name, SignatureStem) &&
      !StemEndsWith(name, CadesSuffix) && StemEndsWith(name, XadesSuffix)
    ensures Classify(name) == InertSignature <==>
      !StemStartsWith(name, ManifestStem) && StemStartsWith(name, SignatureStem) &&
      !StemEndsWith(name, CadesSuffix) && !StemEndsWith(name, XadesSuffix)
    ensures Classify(name) == Payload <==>
      !StemStartsWith(name, ManifestStem) && !StemStartsWith(name, SignatureStem)
  {
    StemStartsWithLower(name, ManifestStem);
    StemStartsWithLower(name, SignatureStem);
    StemEndsWithLower(name, CadesSuffix);
    StemEndsWithLower(name, XadesSuffix);
  }

  /** Names outside the trust namespace are payload, whatever follows. */
  lemma OutsideNamespaceIsPayload(name: string)
    requires !StartsWith(name, TrustPrefix)
    ensures Classify(name) == Payload
  {
  }

  /** Only the part after the prefix is looked at, and its case does not
      matter: two trust-namespace names of the same length that agree on
      that part up to case get the same role. */
  lemma ClassifyIgnoresStemCase(a: string, b: string)
    requires StartsWith(a, TrustPrefix) && StartsWith(b, TrustPrefix)
    requires |a| == |b|
    requires forall i :: |TrustPrefix| <= i < |a| ==> LowerChar(a[i]) == LowerChar(b[i])
    ensures Classify(a) == Classify(b)
  {
    var n := |TrustPrefix|;
    assert Lower(a[n..]) == Lower(b[n..]) by {
      forall i | 0 <= i < |a| - n ensures Lower(a[n..])[i] == Lower(b[n..])[i] {
        assert a[n..][i] == a[n + i] && b[n..][i] == b[n + i];
      }
    }
  }

  /** The trust prefix itself is case-sensitive while the stem is not, and
      trust-namespace names with no known stem (such as the ODF-style
      manifest) are surfaced as payload. */
  lemma ClassifyExamples()
    ensures Classify("META-INF/ASiCManifest.xml") == CadesManifest
    ensures Classify("meta-inf/asicmanifest.xml") == Payload
    ensures Classify("META-INF/signature.p7s") == CadesSignature
    ensures Classify("META-INF/Signature-1.XML") == XadesManifest
    ensures Classify("META-INF/signatures.txt") == InertSignature
    ensures Classify("META-INF/manifest.xml") == Payload
    ensures Classify("invoice.xml") == Payload
  {
    CadesManifestExample();
    LowerCasePrefixExample();
    CadesSignatureExample();
    XadesManifestExample();
    InertSignatureExample();
    OtherMetadataExample();
    PlainNameExample();
  }

  lemma CadesManifestExample()
    ensures Classify("META-INF/ASiCManifest.xml") == CadesManifest
  {
    var n := "META-INF/ASiCManifest.xml";
    assert StartsWith(n, TrustPrefix) by { }
    assert StemStartsWith(n, ManifestStem) by { }
    ClassifyTrustName(n);
  }

  lemma LowerCasePrefixExample()
    ensures Classify("meta-inf/asicmanifest.xml") == Payload
  {
    assert "meta-inf/asicmanifest.xml"[..9][0] == 'm';
  }

  lemma CadesSignatureExample()
    ensures Classify("META-INF/signature.p7s") == CadesSignature
  {
    var n := "META-INF/signature.p7s";
    assert StartsWith(n, TrustPrefix) by { }
    assert !StemStartsWith(n, ManifestStem) by { assert LowerChar(n[9]) != ManifestStem[0]; }
    assert StemStartsWith(n, SignatureStem) by { }
    assert StemEndsWith(n, CadesSuffix) by { }
    ClassifyTrustName(n);
  }

  lemma XadesManifestExample()
    ensures Classify("META-INF/Signature-1.XML") == XadesManifest
  {
    var n := "META-INF/Signature-1.XML";
    assert StartsWith(n, TrustPrefix) by { }
    assert !StemStartsWith(n, ManifestStem) by { assert LowerChar(n[9]) != ManifestStem[0]; }
    assert StemStartsWith(n, SignatureStem) by { }
    assert !StemEndsWith(n, CadesSuffix) by { assert LowerChar(n[|n| - 3]) != CadesSuffix[1]; }
    assert StemEndsWith(n, XadesSuffix) by { }
    ClassifyTrustName(n);
  }

  lemma InertSignatureExample()
    ensures Classify("META-INF/signatures.txt") == InertSignature
  {
    var n := "META-INF/signatures.txt";
    assert StartsWith(n, TrustPrefix) by { }
    assert !StemStartsWith(n, ManifestStem) by { assert LowerChar(n[9]) != ManifestStem[0]; }
    assert StemStartsWith(n, SignatureStem) by { }
    assert !StemEndsWith(n, CadesSuffix) by { assert LowerChar(n[|n| - 3]) != CadesSuffix[1]; }
    assert !StemEndsWith(n, XadesSuffix) by { assert LowerChar(n[|n| - 3]) != XadesSuffix[1]; }
    ClassifyTrustName(n);
  }

  lemma OtherMetadataExample()
    ensures Classify("META-INF/manifest.xml") == Payload
  {
    var n := "META-INF/manifest.xml";
    assert StartsWith(n, TrustPrefix) by { }
    assert !StemStartsWith(n, ManifestStem) by { assert LowerChar(n[9]) != ManifestStem[0]; }
    assert !StemStartsWith(n, SignatureStem) by { assert LowerChar(n[9]) != SignatureStem[0]; }
    ClassifyTrustName(n);
  }

  lemma PlainNameExample()
    ensures Classify("invoice.xml") == Payload
  {
    assert "invoice.xml"[..9][0] == 'i';
  }
}
