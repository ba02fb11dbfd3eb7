/**
  The crawler's file-extension classification: the high-value document
  extensions that stage 3 downloads, the general web assets it skips, and
  their concatenation, which discovery uses to route a URL to the download
  list instead of the scrape list.  All tests are `url.lower().endswith(...)`.
 */
module Extensions {
  import opened Strings

  const HighValueDataExtensions: seq<string> :=
    [".pdf", ".doc", ".docx", ".xls", ".xlsx", ".ppt", ".pptx", ".txt"]

  const GeneralAssetExtensions: seq<string> :=
    [".jpg", ".jpeg", ".png", ".gif", ".svg", ".zip", ".tar", ".gz", ".mp4", ".mp3",
     ".css", ".js", ".ico", ".xml"]

  const FileExtensionsToSave: seq<string> := HighValueDataExtensions + GeneralAssetExtensions

  /** `url.lower().endswith(FILE_EXTENSIONS_TO_SAVE)`: routed to the download
      list.  Since the tuple is the concatenation of the other two, a URL is
      an asset exactly when it is a high-value document or a general web asset. */
  predicate IsAsset(url: string)
    ensures IsAsset(url) <==> IsHighValue(url) || IsGeneralAsset(url)
  {
    EndsWithAnyConcat(ToLower(url), HighValueDataExtensions, GeneralAssetExtensions);
    EndsWithAny(ToLower(url), FileExtensionsToSave)
  }

  /** `url.lower().endswith(HIGH_VALUE_DATA_EXTENSIONS)`: kept by the stage-3
      filter.  No URL is both a high-value document and a general web asset,
      so the filter never keeps an image, archive, stylesheet or script. */
  predicate IsHighValue(url: string)
    ensures IsHighValue(url) ==> !IsGeneralAsset(url)
  {
    DisjointEndings(ToLower(url));
    EndsWithAny(ToLower(url), HighValueDataExtensions)
  }

  predicate IsGeneralAsset(url: string)
  {
    EndsWithAny(ToLower(url), GeneralAssetExtensions)
  }

  /** The last two characters of every extension in `exts`. */
  function Endings(exts: seq<string>): set<string>
    requires forall k :: 0 <= k < |exts| ==> |exts[k]| >= 2
  {
    set k | 0 <= k < |exts| :: exts[k][|exts[k]| - 2..]
  }

  /** A string that ends with an extension of `exts` ends with one of its endings. */
  lemma EndingOf(s: string, exts: seq<string>)
    requires forall k :: 0 <= k < |exts| ==> |exts[k]| >= 2
    requires EndsWithAny(s, exts)
    ensures |s| >= 2 && s[|s| - 2..] in Endings(exts)
  {
    var k :| 0 <= k < |exts| && EndsWith(s, exts[k]);
    var e := exts[k];
    assert s[|s| - |e|..] == e;
    assert s[|s| - 2..] == e[|e| - 2..];
  }

  /** No string ends both with a high-value extension and with a general asset extension. */
  lemma DisjointEndings(s: string)
    ensures !(EndsWithAny(s, HighValueDataExtensions) && EndsWithAny(s, GeneralAssetExtensions))
  {
    if EndsWithAny(s, HighValueDataExtensions) && EndsWithAny(s, GeneralAssetExtensions) {
      EndingOf(s, HighValueDataExtensions);
      EndingOf(s, GeneralAssetExtensions);
      assert false;
    }
  }

  /** The tests ignore case: a URL and its lower-case form are classified alike. */
  lemma ClassificationIgnoresCase(url: string)
    ensures IsAsset(ToLower(url)) == IsAsset(url)
    ensures IsHighValue(ToLower(url)) == IsHighValue(url)
  {
    ToLowerIdempotent(url);
  }
}
