/** The failure hook of the test suite (tests/conftest.py, `pytest_runtest_makereport`,
    lines 45-77): when a test's call phase fails, save a screenshot named after the
    test's node id and attach an HTML snippet showing it to the report's extras.
    The driver, the file-existence check and the HTML plugin are inputs. */
module ScreenshotHook {
  import opened Wrappers

  /** The characters the pattern `[\[\]\/\\:]` matches. */
  predicate Forbidden(ch: char)
  {
    ch == '[' || ch == ']' || ch == '/' || ch == '\\' || ch == ':'
  }

  /** `re.sub(r'[\[\]\/\\:]', '_', nodeid)`: every forbidden character becomes `_`,
      every other character stays where it is. */
  function SafeNodeId(nodeid: string): (safe: string)
    ensures |safe| == |nodeid|
    ensures forall i :: 0 <= i < |nodeid| ==>
      safe[i] == (if Forbidden(nodeid[i]) then '_' else nodeid[i])
  {
    if nodeid == [] then []
    else [if Forbidden(nodeid[0]) then '_' else nodeid[0]] + SafeNodeId(nodeid[1..])
  }

  /** `f"{safe_nodeid}.png"`: the sanitised id followed by `.png`, four characters
      longer than the node id and free of forbidden characters. */
  function ScreenshotFileName(nodeid: string): (f: string)
    ensures |f| == |nodeid| + 4
    ensures f[..|nodeid|] == SafeNodeId(nodeid) && f[|nodeid|..] == ".png"
    ensures forall i :: 0 <= i < |f| ==> !Forbidden(f[i])
  {
    var f := SafeNodeId(nodeid) + ".png";
    assert forall i :: 0 <= i < |f| ==> !Forbidden(f[i]) by {
      forall i | 0 <= i < |f| ensures !Forbidden(f[i]) {
        if i < |nodeid| {
          assert f[i] == SafeNodeId(nodeid)[i];
        } else {
          assert f[i] == ".png"[i - |nodeid|];
        }
      }
    }
    f
  }

  const ImgPrefix: string := "<div><img src=\""
  /** What follows the file name's closing quote. */
  const ImgRest: string :=
    " alt=\"screenshot\" style=\"width:400px;height:200px;\" onclick=\"window.open(this.src)\" align=\"right\"/></div>"

  /** The HTML snippet that shows the screenshot in the report. For a file name
      without `"`, the `src` attribute a browser reads from it is that file name. */
  function ScreenshotHtml(fileName: string): (html: string)
    ensures '"' !in fileName ==> SrcAttribute(html) == Some(fileName)
  {
    var html := ImgPrefix + fileName + "\"" + ImgRest;
    assert html[..|ImgPrefix|] == ImgPrefix;
    assert html[|ImgPrefix|..] == fileName + "\"" + ImgRest;
    assert '"' !in fileName ==> SrcAttribute(html) == Some(fileName) by {
      if '"' !in fileName {
        UpToQuoteStopsAtQuote(fileName, ImgRest);
      }
    }
    html
  }

  /** The raw `src` text of a snippet that starts like ours: the characters after
      `<div><img src="` up to the next `"`, with no character references or URL
      syntax decoded. */
  function SrcAttribute(html: string): Option<string>
  {
    if |ImgPrefix| <= |html| && html[..|ImgPrefix|] == ImgPrefix then Some(UpToQuote(html[|ImgPrefix|..]))
    else None
  }

  /** The longest prefix of `s` without `"`. */
  function UpToQuote(s: string): (r: string)
    ensures |r| <= |s| && r == s[..|r|]
    ensures forall i :: 0 <= i < |r| ==> r[i] != '"'
    ensures |r| == |s| || s[|r|] == '"'
  {
    if s == [] || s[0] == '"' then [] else [s[0]] + UpToQuote(s[1..])
  }

  /** Reading up to the next `"` recovers a text that contains none. */
  lemma {:induction false} UpToQuoteStopsAtQuote(t: string, rest: string)
    requires '"' !in t
    ensures UpToQuote(t + "\"" + rest) == t
  {
    var s := t + "\"" + rest;
    if t == [] {
      assert s[0] == '"';
    } else {
      assert s[0] == t[0] && s[1..] == t[1..] + "\"" + rest;
      UpToQuoteStopsAtQuote(t[1..], rest);
    }
  }

  /** A report attachment. `HtmlExtra` is what `pytest_html.extras.html` builds;
      attachments added by others are kept as they are. */
  datatype Extra = HtmlExtra(content: string) | OtherExtra(payload: string)

  /** The fields of the test report the hook reads. `extra` is the report's `extra`
      attribute, `None` when the report has none. */
  datatype Report = Report(when: string, failed: bool, nodeid: string, extra: Option<seq<Extra>>)

  datatype Exception = WebDriverException(message: string) | OtherException(message: string)

  /** What the capture inside the `try` block did: raised an exception (looking up
      the driver, or `save_screenshot`), or saved and then found the file present or
      absent. */
  datatype Capture = Raised(exc: Exception) | Saved(fileExists: bool)

  /** How the hook ends: it sets `report.extras` to a list, or an exception escapes. */
  datatype HookOutcome = ExtrasSet(extras: seq<Extra>) | Propagated(exc: Exception)

  /** `getattr(report, 'extra', [])`: the report's `extra` list, or an empty list when
      the report has no such attribute. */
  function ExistingExtras(report: Report): (extra: seq<Extra>)
    ensures report.extra.None? ==> extra == []
    ensures report.extra.Some? ==> extra == report.extra.value
  {
    if report.extra.Some? then report.extra.value else []
  }

  predicate FailedCall(report: Report)
  {
    report.when == "call" && report.failed
  }

  /** The hook's effect on the report. `htmlPluginLoaded` says whether the global
      `pytest_html` holds the plugin; when it is `None`, using it raises an
      `AttributeError`, which the `except WebDriverException` clause does not catch. */
  function MakeReportExtras(report: Report, capture: Capture, htmlPluginLoaded: bool): (r: HookOutcome)
    ensures r.ExtrasSet? ==>
      r.extras == ExistingExtras(report) ||
      r.extras == ExistingExtras(report) + [HtmlExtra(ScreenshotHtml(ScreenshotFileName(report.nodeid)))]
    ensures r.Propagated? ==> FailedCall(report) && r.exc.OtherException?
    ensures r.Propagated? <==>
      FailedCall(report) &&
      ((capture.Raised? && capture.exc.OtherException?) || (capture == Saved(true) && !htmlPluginLoaded))
    ensures FailedCall(report) && capture == Saved(true) && htmlPluginLoaded ==>
      r == ExtrasSet(ExistingExtras(report) + [HtmlExtra(ScreenshotHtml(ScreenshotFileName(report.nodeid)))])
  {
    var extra := ExistingExtras(report);
    if !FailedCall(report) then ExtrasSet(extra)
    else
      match capture
      case Raised(WebDriverException(_)) => ExtrasSet(extra)
      case Raised(other) => Propagated(other)
      case Saved(fileExists) =>
        if !fileExists then ExtrasSet(extra)
        else if !htmlPluginLoaded then
          Propagated(OtherException("'NoneType' object has no attribute 'extras'"))
        else ExtrasSet(extra + [HtmlExtra(ScreenshotHtml(ScreenshotFileName(report.nodeid)))])
  }

  /** The sanitised id contains none of `[`, `]`, `/`, `\` and `:`. */
  lemma SafeNodeIdHasNoForbiddenChars(nodeid: string)
    ensures forall i :: 0 <= i < |SafeNodeId(nodeid)| ==> !Forbidden(SafeNodeId(nodeid)[i])
  {
  }

  /** Sanitising is idempotent. */
  lemma SafeNodeIdIdempotent(nodeid: string)
    ensures SafeNodeId(SafeNodeId(nodeid)) == SafeNodeId(nodeid)
  {
    var once := SafeNodeId(nodeid);
    assert forall i :: 0 <= i < |once| ==> SafeNodeId(once)[i] == once[i];
  }

  /** An id without forbidden characters is left as it is. */
  lemma SafeNodeIdKeepsCleanIds(nodeid: string)
    requires forall i :: 0 <= i < |nodeid| ==> !Forbidden(nodeid[i])
    ensures SafeNodeId(nodeid) == nodeid
  {
  }

  /** Ids that differ only in which forbidden character stands at a position get the
      same screenshot file: parametrised ids such as `t[a:b]` and `t[a/b]` collide. */
  lemma SafeNodeIdMergesForbiddenChars(a: string, b: string)
    requires |a| == |b|
    requires forall i :: 0 <= i < |a| ==> a[i] == b[i] || (Forbidden(a[i]) && Forbidden(b[i]))
    ensures ScreenshotFileName(a) == ScreenshotFileName(b)
  {
    assert SafeNodeId(a) == SafeNodeId(b);
  }

  /** A `"` in the node id survives sanitising, and the `src` attribute of the snippet
      then stops at it: the browser looks for a shorter name than the saved file. */
  lemma QuoteInNodeIdCutsSrc(nodeid: string, k: int)
    requires 0 <= k < |nodeid| && nodeid[k] == '"'
    ensures ScreenshotFileName(nodeid)[k] == '"'
    ensures SrcAttribute(ScreenshotHtml(ScreenshotFileName(nodeid))).Some?
    ensures |SrcAttribute(ScreenshotHtml(ScreenshotFileName(nodeid))).value| <= k
    ensures SrcAttribute(ScreenshotHtml(ScreenshotFileName(nodeid))) != Some(ScreenshotFileName(nodeid))
  {
    var f := ScreenshotFileName(nodeid);
    assert f[k] == SafeNodeId(nodeid)[k];
    SrcStopsAtQuote(f, k);
  }

  /** In the snippet for a file name with a `"` at position k, the `src` attribute is
      at most k characters long. */
  lemma SrcStopsAtQuote(f: string, k: int)
    requires 0 <= k < |f| && f[k] == '"'
    ensures SrcAttribute(ScreenshotHtml(f)).Some?
    ensures |SrcAttribute(ScreenshotHtml(f)).value| <= k
  {
    var html := ScreenshotHtml(f);
    assert html == ImgPrefix + (f + "\"" + ImgRest);
    assert html[..|ImgPrefix|] == ImgPrefix;
    var tail := html[|ImgPrefix|..];
    assert tail == f + "\"" + ImgRest;
    assert tail[k] == '"';
    UpToQuoteCutsAtQuote(tail, k);
  }

  /** The text read up to the next `"` ends no later than any `"` of the input. */
  lemma UpToQuoteCutsAtQuote(s: string, k: int)
    requires 0 <= k < |s| && s[k] == '"'
    ensures |UpToQuote(s)| <= k
  {
  }

  /** Outside a failed `call` phase nothing is captured: the extras are the report's
      existing `extra` list, whatever the driver or the plugin would do. */
  lemma NoCaptureUnlessFailedCall(report: Report, capture: Capture, htmlPluginLoaded: bool)
    requires !FailedCall(report)
    ensures MakeReportExtras(report, capture, htmlPluginLoaded) == ExtrasSet(ExistingExtras(report))
  {
  }

  /** When the hook completes, the existing extras keep their order and at most one
      HTML snippet is appended; it is appended exactly when the call phase failed, the
      screenshot was saved and exists, and the plugin is loaded. */
  lemma AtMostOneExtraAppended(report: Report, capture: Capture, htmlPluginLoaded: bool)
    requires MakeReportExtras(report, capture, htmlPluginLoaded).ExtrasSet?
    ensures var extras := MakeReportExtras(report, capture, htmlPluginLoaded).extras;
      var shot := HtmlExtra(ScreenshotHtml(ScreenshotFileName(report.nodeid)));
      (extras == ExistingExtras(report) + [shot] <==>
         FailedCall(report) && capture == Saved(true) && htmlPluginLoaded) &&
      (extras != ExistingExtras(report) + [shot] ==> extras == ExistingExtras(report))
  {
    var extras := MakeReportExtras(report, capture, htmlPluginLoaded).extras;
    var shot := HtmlExtra(ScreenshotHtml(ScreenshotFileName(report.nodeid)));
    assert |ExistingExtras(report) + [shot]| == |ExistingExtras(report)| + 1;
  }

  /** A `WebDriverException` raised while capturing is swallowed: the hook still sets
      `report.extras`, to the existing list. */
  lemma WebDriverFailureIsSwallowed(report: Report, message: string, htmlPluginLoaded: bool)
    ensures MakeReportExtras(report, Raised(WebDriverException(message)), htmlPluginLoaded) ==
      ExtrasSet(ExistingExtras(report))
  {
  }

  /** An exception escapes the hook only from a failed `call` phase, and only one that
      is not a `WebDriverException`. */
  lemma OnlyOtherExceptionsEscape(report: Report, capture: Capture, htmlPluginLoaded: bool)
    requires MakeReportExtras(report, capture, htmlPluginLoaded).Propagated?
    ensures FailedCall(report)
    ensures MakeReportExtras(report, capture, htmlPluginLoaded).exc.OtherException?
    ensures capture.Raised? ==> MakeReportExtras(report, capture, htmlPluginLoaded).exc == capture.exc
  {
  }
}
