/** The file-name suffixes shared across the system: metadata documents produced for a book
    (publisher metadata, characterization output, catalogue records) and the epub content suffix. */
module Constants {
  import opened Strings

  /** The suffix of XML files; private in Constants.java. */
  const XML_SUFFIX: string := ".xml"

  /** Publisher metadata retrieved from the Publizon service. */
  const PUBHUB_METADATA_SUFFIX: string := ".pubhub" + XML_SUFFIX
  /** FITS characterization output. */
  const FITS_METADATA_SUFFIX: string := ".fits" + XML_SUFFIX
  /** epubcheck characterization output. */
  const EPUBCHECK_METADATA_SUFFIX: string := ".epubcheck" + XML_SUFFIX

  /** Temporary MARC21 record. */
  const MARC_METADATA_SUFFIX: string := ".marc" + XML_SUFFIX
  /** Temporary Aleph DanMarc2 record. */
  const ALEPH_METADATA_SUFFIX: string := ".aleph" + XML_SUFFIX
  /** MODS record. */
  const MODS_METADATA_SUFFIX: string := ".mods" + XML_SUFFIX

  /** epub content files. */
  const EPUB_FILE_SUFFIX: string := ".epub"

  /** The public metadata suffixes, in declaration order. */
  function MetadataSuffixes(): (r: seq<string>)
    ensures |r| == 6
    ensures forall i :: 0 <= i < |r| ==> EndsWith(r[i], XML_SUFFIX)
  {
    [PUBHUB_METADATA_SUFFIX, FITS_METADATA_SUFFIX, EPUBCHECK_METADATA_SUFFIX,
     MARC_METADATA_SUFFIX, ALEPH_METADATA_SUFFIX, MODS_METADATA_SUFFIX]
  }

  /** The concatenations spell out the literal suffixes. */
  lemma MetadataSuffixValues()
    ensures PUBHUB_METADATA_SUFFIX == ".pubhub.xml"
    ensures FITS_METADATA_SUFFIX == ".fits.xml"
    ensures EPUBCHECK_METADATA_SUFFIX == ".epubcheck.xml"
    ensures MARC_METADATA_SUFFIX == ".marc.xml"
    ensures ALEPH_METADATA_SUFFIX == ".aleph.xml"
    ensures MODS_METADATA_SUFFIX == ".mods.xml"
  {
  }

  /** A string without any '.' in it. */
  predicate DotFree(s: string) {
    forall k :: 0 <= k < |s| ==> s[k] != '.'
  }

  /** Two suffixes of the shape "." + stem + ".xml", with dot-free stems, only end with each
      other when they are equal: the leading dot of the shorter one would have to fall inside
      the longer one's stem. */
  lemma {:induction false} DottedXmlSuffixesNest(p: string, q: string)
    requires DotFree(p) && DotFree(q)
    requires EndsWith("." + p + XML_SUFFIX, "." + q + XML_SUFFIX)
    ensures p == q
  {
    var a, b := "." + p + XML_SUFFIX, "." + q + XML_SUFFIX;
    var k := |a| - |b|;
    assert a[k..][0] == b[0] == '.';
    if k > 0 {
      assert false;  // a[k] is a character of p, and p has no dot
    }
    assert p == a[1..|a| - 4] == b[1..|b| - 4] == q;
  }

  /** The stems of the six metadata suffixes. */
  function MetadataStems(): (r: seq<string>)
    ensures |r| == 6
    ensures forall i :: 0 <= i < 6 ==> DotFree(r[i]) && MetadataSuffixes()[i] == "." + r[i] + XML_SUFFIX
  {
    ["pubhub", "fits", "epubcheck", "marc", "aleph", "mods"]
  }

  /** No metadata suffix ends with another one, so they are pairwise distinct and a file name
      ends with at most one of them: classifying by suffix is unambiguous. */
  lemma MetadataSuffixesUnambiguous()
    ensures forall i, j :: 0 <= i < 6 && 0 <= j < 6 && i != j ==>
      MetadataSuffixes()[i] != MetadataSuffixes()[j] && !EndsWith(MetadataSuffixes()[i], MetadataSuffixes()[j])
  {
    var m, st := MetadataSuffixes(), MetadataStems();
    forall i, j | 0 <= i < 6 && 0 <= j < 6 && i != j
      ensures !EndsWith(m[i], m[j])
    {
      assert st[i] != st[j];
      if EndsWith(m[i], m[j]) {
        DottedXmlSuffixesNest(st[i], st[j]);
      }
    }
    forall i, j | 0 <= i < 6 && 0 <= j < 6 && i != j
      ensures m[i] != m[j]
    {
      EndsWithSelf(m[i]);
    }
  }

  /** Any name ending with a metadata suffix ends with ".xml", and an epub name does not. */
  lemma EpubIsNotMetadata(name: string)
    requires EndsWith(name, EPUB_FILE_SUFFIX)
    ensures !EndsWith(name, XML_SUFFIX)
    ensures forall i :: 0 <= i < 6 ==> !EndsWith(name, MetadataSuffixes()[i])
  {
    forall i | 0 <= i < 6
      ensures !EndsWith(name, MetadataSuffixes()[i])
    {
      if EndsWith(name, MetadataSuffixes()[i]) {
        EndsWithTrans(name, MetadataSuffixes()[i], XML_SUFFIX);
      }
    }
    assert name[|name| - |EPUB_FILE_SUFFIX|..] == ".epub";
    assert name[|name| - 1] == 'b';
  }
}
