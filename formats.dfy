/**
 * The format resolver: the requested output kind and the list of extra
 * renditions asked of the conversion service.
 */
module Formats {
  import opened PyText
  import opened Records

  /** The rendition list used when the caller gives none. */
  const DefaultExtraFormats: seq<string> := ["html"]

  datatype FormatError = UnsupportedOutputFormat(given: string)

  /** `normalize_output_format`: trim, lower, read "md" as "markdown", and
      accept only "html" and "markdown". */
  function NormalizeOutputFormat(outputFormat: string): (r: Result<string, FormatError>)
    ensures r.Ok? ==> r.value == "html" || r.value == "markdown"
    ensures r == Ok("html") <==> Lower(Strip(outputFormat)) == "html"
    ensures r == Ok("markdown") <==> Lower(Strip(outputFormat)) == "markdown" || Lower(Strip(outputFormat)) == "md"
    ensures r.Err? ==> r.error == UnsupportedOutputFormat(outputFormat)
  {
    var lowered := Lower(Strip(outputFormat));
    var normalized := if lowered == "md" then "markdown" else lowered;
    if normalized == "html" || normalized == "markdown" then Ok(normalized)
    else Err(UnsupportedOutputFormat(outputFormat))
  }

  lemma NormalizeHtml()
    ensures NormalizeOutputFormat("html") == Ok("html")
  {
    StripNoSpace("html");
    LowerNoCapitals("html");
  }

  lemma NormalizeMarkdown()
    ensures NormalizeOutputFormat("markdown") == Ok("markdown")
  {
    StripNoSpace("markdown");
    LowerNoCapitals("markdown");
  }

  /** Normalizing an already normalized format changes nothing. */
  lemma NormalizeOutputFormatIdempotent(outputFormat: string)
    requires NormalizeOutputFormat(outputFormat).Ok?
    ensures NormalizeOutputFormat(NormalizeOutputFormat(outputFormat).value) == NormalizeOutputFormat(outputFormat)
  {
    NormalizeHtml();
    NormalizeMarkdown();
  }

  /** The spellings the repository's tests reject. */
  lemma NormalizeOutputFormatRejectsTxt()
    ensures NormalizeOutputFormat("txt").Err?
  {
    StripNoSpace("txt");
    LowerNoCapitals("txt");
  }

  lemma NormalizeOutputFormatRejectsEmpty()
    ensures NormalizeOutputFormat("").Err?
  {
  }

  /** Whitespace around a format name does not change how it is read. */
  lemma NormalizeOutputFormatIgnoresPadding(pre: string, name: string, post: string)
    requires forall i :: 0 <= i < |pre| ==> IsSpace(pre[i])
    requires forall i :: 0 <= i < |post| ==> IsSpace(post[i])
    requires name != [] && !IsSpace(name[0]) && !IsSpace(name[|name| - 1])
    ensures var padded := NormalizeOutputFormat(pre + name + post);
      (padded.Ok? <==> NormalizeOutputFormat(name).Ok?)
      && (padded.Ok? ==> padded == NormalizeOutputFormat(name))
  {
    StripPadded(pre, name, post);
    StripNoSpace(name);
  }

  /** One entry of the comprehension: nothing for a blank entry, else the
      entry stripped and lowered. */
  function NormalizeEntry(x: string): (r: seq<string>)
    ensures |r| <= 1
    ensures forall i :: 0 <= i < |r| ==> |r[i]| > 0 && Lower(r[i]) == r[i]
  {
    var stripped := Strip(x);
    if stripped == [] then []
    else
      LowerIdempotent(stripped);
      [Lower(stripped)]
  }

  /** `[fmt.strip().lower() for fmt in formats if fmt and fmt.strip()]`. */
  function NormalizeEntries(formats: seq<string>): (r: seq<string>)
    ensures |r| <= |formats|
    ensures forall i :: 0 <= i < |r| ==> |r[i]| > 0 && Lower(r[i]) == r[i]
  {
    if formats == [] then []
    else NormalizeEntries(formats[..|formats| - 1]) + NormalizeEntry(formats[|formats| - 1])
  }

  /** One entry: kept, stripped and lowered, when it is not blank. */
  lemma NormalizeEntriesSingle(x: string)
    ensures NormalizeEntries([x]) == if Strip(x) == [] then [] else [Lower(Strip(x))]
  {
    assert [x][..0] == [];
  }

  /** The comprehension keeps the input's order: it distributes over `+`. */
  lemma {:induction false} NormalizeEntriesAppend(xs: seq<string>, ys: seq<string>)
    ensures NormalizeEntries(xs + ys) == NormalizeEntries(xs) + NormalizeEntries(ys)
    decreases |ys|
  {
    if ys == [] {
      assert xs + ys == xs;
    } else {
      var init := ys[..|ys| - 1];
      assert (xs + ys)[..|xs + ys| - 1] == xs + init;
      assert (xs + ys)[|xs + ys| - 1] == ys[|ys| - 1];
      NormalizeEntriesAppend(xs, init);
      assert NormalizeEntries(ys) == NormalizeEntries(init) + NormalizeEntry(ys[|ys| - 1]);
    }
  }

  /** `list(extra_formats) if extra_formats else list(DEFAULT_EXTRA_FORMATS)`. */
  function BaseFormats(extraFormats: Option<seq<string>>): (r: seq<string>)
    ensures r != []
    ensures extraFormats.Some? && extraFormats.value != [] ==> r == extraFormats.value
  {
    if extraFormats.Some? && extraFormats.value != [] then extraFormats.value else DefaultExtraFormats
  }

  /** What the appending step adds, in its order: "html" unless present,
      then "markdown" for Markdown output unless present. */
  function RequiredTail(normalized: seq<string>, outputFormat: string): seq<string> {
    (if "html" in normalized then [] else ["html"])
      + (if outputFormat == "markdown" && "markdown" !in normalized then ["markdown"] else [])
  }

  /** Each required format is added at most once, "html" first. */
  lemma RequiredTailOnce(normalized: seq<string>, outputFormat: string)
    ensures var tail := RequiredTail(normalized, outputFormat);
      Distinct(tail) && ("html" in tail ==> tail[0] == "html")
  {
    assert "html" != "markdown" by { assert "html"[0] != "markdown"[0]; }
  }

  /** The appending half of `build_extra_formats`: "html" if it is
      missing, then "markdown" if the output is Markdown and it is missing. */
  function AddRequiredFormats(normalized: seq<string>, outputFormat: string): (r: seq<string>)
    ensures "html" in r
    ensures outputFormat == "markdown" ==> "markdown" in r
    ensures |normalized| <= |r| && r[..|normalized|] == normalized
    ensures |r| <= |normalized| + 2
    ensures forall i :: |normalized| <= i < |r| ==> r[i] == "html" || r[i] == "markdown"
    ensures forall x :: x in r[|normalized|..] ==> x !in normalized
    ensures "markdown" in r[|normalized|..] ==> outputFormat == "markdown"
    ensures r[|normalized|..] == RequiredTail(normalized, outputFormat)
  {
    var first: seq<string> := if "html" in normalized then [] else ["html"];
    var withHtml := normalized + first;
    var second: seq<string> := if outputFormat == "markdown" && "markdown" !in withHtml then ["markdown"] else [];
    assert withHtml + second == normalized + (first + second);
    withHtml + second
  }

  /** `build_extra_formats`: the normalized entries in their order, then
      the required formats that are missing. */
  function BuildExtraFormats(extraFormats: Option<seq<string>>, outputFormat: string): (r: seq<string>)
    ensures "html" in r
    ensures outputFormat == "markdown" ==> "markdown" in r
    ensures var n := NormalizeEntries(BaseFormats(extraFormats));
      |n| <= |r| && r[..|n|] == n
      && (forall x :: x in r[|n|..] ==> x !in n)
      && r[|n|..] == RequiredTail(n, outputFormat)
      && |r| <= |n| + 2
      && (forall i :: |n| <= i < |r| ==> r[i] == "html" || r[i] == "markdown")
      && ("markdown" in r[|n|..] ==> outputFormat == "markdown")
  {
    var n := NormalizeEntries(BaseFormats(extraFormats));
    AddRequiredFormats(n, outputFormat)
  }

  /** No blank name reaches the request: every entry is a stripped,
      lowered caller entry or one of the required formats. */
  lemma BuildExtraFormatsNoBlank(extraFormats: Option<seq<string>>, outputFormat: string)
    ensures var r := BuildExtraFormats(extraFormats, outputFormat);
      forall i :: 0 <= i < |r| ==> |r[i]| > 0
  {
    var n := NormalizeEntries(BaseFormats(extraFormats));
    var r := AddRequiredFormats(n, outputFormat);
    forall i | 0 <= i < |r| ensures |r[i]| > 0 {
      if i < |n| {
        assert r[i] == n[i];
      } else {
        assert r[i] == "html" || r[i] == "markdown";
      }
    }
  }

  /** With no list, or an empty one, the result starts from ["html"]. */
  lemma BuildExtraFormatsDefault(extraFormats: Option<seq<string>>, outputFormat: string)
    requires extraFormats == None || extraFormats == Some([])
    ensures BuildExtraFormats(extraFormats, outputFormat)
      == if outputFormat == "markdown" then ["html", "markdown"] else ["html"]
  {
    assert BaseFormats(extraFormats) == ["html"];
    NormalizeEntriesHtml();
    AddRequiredToHtml(outputFormat);
  }

  lemma AddRequiredToHtml(outputFormat: string)
    ensures AddRequiredFormats(["html"], outputFormat)
      == if outputFormat == "markdown" then ["html", "markdown"] else ["html"]
  {
    assert "html" in ["html"];
    if outputFormat == "markdown" {
      assert "markdown" !in ["html"] by { assert "markdown"[0] != "html"[0]; }
    }
  }

  lemma NormalizeEntriesHtml()
    ensures NormalizeEntries(["html"]) == ["html"]
  {
    StripNoSpace("html");
    LowerNoCapitals("html");
    NormalizeEntriesSingle("html");
  }
}
