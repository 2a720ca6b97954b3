/** The file-suffix validator: a file is accepted when its extracted suffix ends with one of a
    fixed list of valid suffixes (the ebook formats or the audio formats of the configuration). */
module SuffixValidator {
  import opened Strings

  class FileSuffixValidator {
    /** The validator's own copy of the valid suffixes, fixed at construction. */
    const validSuffices: seq<string>

    /** Copies the caller's list: later writes to `suffixes` do not reach the validator. */
    constructor (suffixes: array<string>)
      ensures validSuffices == suffixes[..]
    {
      validSuffices := suffixes[..];
    }

    /** Whether the file at `path` has a valid suffix. The suffix extraction of the file name is
        not part of this model and is passed in as `getSuffix`. */
    function HasValidSuffix(getSuffix: string -> string, path: string): (r: bool)
      ensures r <==> exists s :: s in validSuffices && EndsWith(getSuffix(path), s)
    {
      EndsWithAnyMembers(getSuffix(path), validSuffices);
      EndsWithAny(getSuffix(path), validSuffices)
    }
  }

  /** With no valid suffixes every file is rejected. */
  lemma EmptyListRejects(v: FileSuffixValidator, getSuffix: string -> string, path: string)
    requires v.validSuffices == []
    ensures !v.HasValidSuffix(getSuffix, path)
  {
  }

  /** The verdict depends only on the set of listed suffixes: neither their order nor
      repetitions matter. */
  lemma VerdictIgnoresOrderAndDuplicates(v: FileSuffixValidator, w: FileSuffixValidator,
                                         getSuffix: string -> string, path: string)
    requires forall s :: s in v.validSuffices <==> s in w.validSuffices
    ensures v.HasValidSuffix(getSuffix, path) == w.HasValidSuffix(getSuffix, path)
  {
  }

  /** Listing more suffixes never turns an accepted file into a rejected one. */
  lemma MoreSuffixesAcceptMore(v: FileSuffixValidator, w: FileSuffixValidator,
                               getSuffix: string -> string, path: string)
    requires forall s :: s in v.validSuffices ==> s in w.validSuffices
    requires v.HasValidSuffix(getSuffix, path)
    ensures w.HasValidSuffix(getSuffix, path)
  {
  }

  /** Matching is endsWith and not equality: a longer extracted suffix ending with a listed one
      is accepted. */
  lemma LongerSuffixAccepted(v: FileSuffixValidator, getSuffix: string -> string, path: string)
    requires v.validSuffices == ["xml"]
    requires getSuffix(path) == "fits.xml"
    ensures v.HasValidSuffix(getSuffix, path)
  {
    assert EndsWith("fits.xml", "xml") by {
      assert "fits.xml"[5..] == "xml";
    }
  }

  /** The ebook validator over formats [pdf, epub]: epub and pdf files pass; XML
      characterization output, mp3 files and names without a suffix do not. */
  lemma EbookValidatorExamples(v: FileSuffixValidator, getSuffix: string -> string, path: string)
    requires v.validSuffices == ["pdf", "epub"]
    ensures getSuffix(path) in {"epub", "pdf"} ==> v.HasValidSuffix(getSuffix, path)
    ensures getSuffix(path) in {"xml", "fits.xml", "mp3", ""} ==> !v.HasValidSuffix(getSuffix, path)
  {
    var x := getSuffix(path);
    if x == "epub" {
      EndsWithSelf("epub");
      assert "epub" in v.validSuffices;
    } else if x == "pdf" {
      EndsWithSelf("pdf");
      assert "pdf" in v.validSuffices;
    } else if x in {"xml", "fits.xml", "mp3", ""} {
      assert !EndsWith(x, "pdf") && !EndsWith(x, "epub") by {
        assert x == "xml" || x == "fits.xml" || x == "mp3" || x == "";
        assert "fits.xml"[5..] == "xml" && "fits.xml"[4..] == ".xml";
      }
    }
  }

  /** The audio validator over formats [mp3] accepts only mp3 files. */
  lemma AudioValidatorExamples(v: FileSuffixValidator, getSuffix: string -> string, path: string)
    requires v.validSuffices == ["mp3"]
    ensures getSuffix(path) == "mp3" ==> v.HasValidSuffix(getSuffix, path)
    ensures getSuffix(path) in {"epub", "pdf", "xml", "fits.xml", ""} ==> !v.HasValidSuffix(getSuffix, path)
  {
    var x := getSuffix(path);
    if x == "mp3" {
      EndsWithSelf("mp3");
      assert "mp3" in v.validSuffices;
    } else if x in {"epub", "pdf", "xml", "fits.xml", ""} {
      assert !EndsWith(x, "mp3") by {
        assert x == "epub" || x == "pdf" || x == "xml" || x == "fits.xml" || x == "";
        assert "fits.xml"[5..] == "xml";
      }
    }
  }

  /** A caller that changes its list after constructing a validator does not change what the
      validator accepts. */
  method ConstructorCopiesList(suffixes: array<string>, i: nat, replacement: string)
    returns (v: FileSuffixValidator)
    requires i < suffixes.Length
    modifies suffixes
    ensures suffixes[i] == replacement
    ensures v.validSuffices == old(suffixes[..])
  {
    v := new FileSuffixValidator(suffixes);
    suffixes[i] := replacement;
  }
}
