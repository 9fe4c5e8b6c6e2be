/**
 * The content script (Extension/content.js): when the page shows an accepted
 * submission, it collects the problem's title, URL segment, code and
 * language and sends them to the background script.
 *
 * The DOM is replaced by the results of the queries the script makes: a
 * `querySelector` becomes an optional text, a `querySelectorAll` a sequence of
 * texts in document order.
 */
module Content {
  import opened Wrappers
  import opened Text
  import Naming
  import Sync

  /** What `handleAcceptedSubmission` and `getSubmissionLanguage` read from the page. */
  datatype Page = Page(
    heading: Option<string>,                // text of `.css-v3d350`
    title: Option<string>,                  // text of `title`
    pathname: string,                       // `window.location.pathname`
    href: string,                           // `window.location.href`
    aceLines: Option<seq<string>>,          // `.ace_line` texts, when `.ace_content` exists
    codeBlocks: seq<string>,                // texts of `pre, code, .CodeMirror`
    containerCode: seq<Option<string>>,     // per result container, the text of its first `pre, code`
    selectedValue: Option<string>,          // text of `.ant-select-selection-selected-value`
    selectLangData: Option<string>,         // text of `[data-cy="select-lang"]`
    selectLang: Option<string>)             // text of `.select-lang`

  const Fallback := "Unknown Problem"
  const TitleSuffix := " - LeetCode"

  /** Lines 34-36: the first non-empty of the heading and the page title without its suffix, else a fixed title. */
  function ProblemTitle(heading: Option<string>, title: Option<string>): (r: string)
    ensures r != ""
    ensures heading.Some? && heading.value != "" ==> r == heading.value
    ensures (heading.None? || heading.value == "") && title.Some? && ReplaceFirst(title.value, TitleSuffix, "") != ""
            ==> r == ReplaceFirst(title.value, TitleSuffix, "")
    ensures r == Fallback <==>
            (heading.None? || heading.value == "" || heading.value == Fallback) &&
            (title.None? || ReplaceFirst(title.value, TitleSuffix, "") in {"", Fallback} || (heading.Some? && heading.value == Fallback))
  {
    if heading.Some? && heading.value != "" then heading.value
    else if title.Some? && ReplaceFirst(title.value, TitleSuffix, "") != "" then ReplaceFirst(title.value, TitleSuffix, "")
    else Fallback
  }

  /** Line 38: element 2 of the path split at '/', `undefined` when the path has fewer than two slashes. */
  function ProblemNumber(pathname: string): (r: Option<string>)
    ensures r.Some? <==> Count(pathname, '/') >= 2
    ensures r.Some? ==> '/' !in r.value
  {
    var parts := Split(pathname, '/');
    SplitLength(pathname, '/');
    if |parts| > 2 then Some(parts[2]) else None
  }

  /** A segment followed by nothing or by a '/' is the first piece of the split. */
  lemma FirstPiece(c: string, rest: string)
    requires '/' !in c
    requires rest == [] || rest[0] == '/'
    ensures Split(c + rest, '/')[0] == c
  {
    if rest == [] {
      assert c + rest == c;
    } else {
      assert c + rest == c + ['/'] + rest[1..];
      SplitCons(c, '/', rest[1..]);
    }
  }

  /** For a path "a/b/c" or "a/b/c/...", the value is the third segment `c`. */
  lemma ProblemNumberIsThirdSegment(a: string, b: string, c: string, rest: string)
    requires '/' !in a && '/' !in b && '/' !in c
    requires rest == [] || rest[0] == '/'
    ensures ProblemNumber(a + "/" + b + "/" + c + rest) == Some(c)
  {
    var path := a + "/" + b + "/" + c + rest;
    var s1 := c + rest;
    var s2 := b + ['/'] + s1;
    assert path == a + ['/'] + s2 by {
      assert path == a + ("/" + (b + ("/" + (c + rest))));
    }
    var parts := Split(path, '/');
    assert parts == [a] + ([b] + Split(s1, '/')) by {
      SplitCons(a, '/', s2);
      SplitCons(b, '/', s1);
    }
    FirstPiece(c, rest);
    assert parts[2] == c;
  }

  /** On a LeetCode problem URL the "number" is the problem's slug, not its number. */
  lemma ProblemNumberOfTwoSum()
    ensures ProblemNumber("/problems/two-sum/") == Some("two-sum")
  {
    assert "/problems/two-sum/" == "" + "/" + "problems" + "/" + "two-sum" + "/";
    ProblemNumberIsThirdSegment("", "problems", "two-sum", "/");
  }

  /** Lines 90-99: the `.ace_line` texts in document order, joined with "\n". */
  method ExtractCodeFromAceEditor(rows: seq<string>) returns (code: string)
    ensures code == Join(rows, '\n')
    ensures rows == [] ==> code == ""
    ensures rows != [] ==> Count(code, '\n') == CountAll(rows, '\n') + |rows| - 1
    ensures rows != [] && (forall k :: 0 <= k < |rows| ==> '\n' !in rows[k]) ==> Split(code, '\n') == rows
  {
    var lines: seq<string> := [];
    for i := 0 to |rows|
      invariant lines == rows[..i]
    {
      lines := lines + [rows[i]];
    }
    assert lines == rows;
    code := Join(lines, '\n');
    if rows != [] {
      JoinSeparators(rows, '\n');
      if forall k :: 0 <= k < |rows| ==> '\n' !in rows[k] {
        SplitJoin(rows, '\n');
      }
    }
  }

  /**
   * `r` is what a scan keeping the first strictly longer text picks: no text
   * is longer, and unless it is empty it is a text with every earlier one
   * strictly shorter.
   */
  predicate IsLongestPick(texts: seq<string>, r: string)
  {
    (forall k :: 0 <= k < |texts| ==> Utf16Length(texts[k]) <= Utf16Length(r)) &&
    (r == "" || exists w :: 0 <= w < |texts| && texts[w] == r && forall k :: 0 <= k < w ==> Utf16Length(texts[k]) < Utf16Length(r))
  }

  /** The pick is determined by the texts. */
  lemma LongestPickUnique(texts: seq<string>, r1: string, r2: string)
    requires IsLongestPick(texts, r1) && IsLongestPick(texts, r2)
    ensures r1 == r2
  {
    if r1 != "" && r2 != "" {
      var w1 :| 0 <= w1 < |texts| && texts[w1] == r1 && forall k :: 0 <= k < w1 ==> Utf16Length(texts[k]) < Utf16Length(r1);
      var w2 :| 0 <= w2 < |texts| && texts[w2] == r2 && forall k :: 0 <= k < w2 ==> Utf16Length(texts[k]) < Utf16Length(r2);
      assert Utf16Length(r1) == Utf16Length(r2);
    }
  }

  /** The same pick, defined on the last text. */
  function Longest(texts: seq<string>): (r: string)
    ensures IsLongestPick(texts, r)
  {
    if texts == [] then ""
    else
      var init := texts[..|texts| - 1];
      var r := Longest(init);
      assert forall k :: 0 <= k < |init| ==> texts[k] == init[k];
      var last := texts[|texts| - 1];
      if Utf16Length(last) > Utf16Length(r) then
        assert forall k :: 0 <= k < |texts| - 1 ==> Utf16Length(texts[k]) < Utf16Length(last);
        last
      else r
  }

  /**
   * Lengths are `.length`, in UTF-16 code units: a character outside the Basic
   * Multilingual Plane counts twice, so it ties with two ASCII letters and the
   * earlier text is kept.
   */
  lemma LongestCountsCodeUnits()
    ensures Longest(["\U{1F600}", "ab"]) == "\U{1F600}"
  {
    assert Utf16Length("\U{1F600}") == 2 && Utf16Length("ab") == 2;
  }

  /** Lines 53-58: the first code block of maximal length, '' when there is none. */
  method LongestCodeBlock(codeElements: seq<string>) returns (largestCode: string)
    ensures largestCode == Longest(codeElements)
    ensures IsLongestPick(codeElements, largestCode)
  {
    largestCode := "";
    for i := 0 to |codeElements|
      invariant largestCode == Longest(codeElements[..i])
    {
      var el := codeElements[i];
      assert codeElements[..i + 1][..i] == codeElements[..i];
      if Utf16Length(el) > Utf16Length(largestCode) {
        largestCode := el;
      }
    }
    assert codeElements[..|codeElements|] == codeElements;
  }

  /** The texts of the containers that hold a `pre` or `code` element. */
  function Present(found: seq<Option<string>>): (texts: seq<string>)
    ensures |texts| <= |found|
  {
    if found == [] then []
    else Present(found[..|found| - 1]) + (if found[|found| - 1].Some? then [found[|found| - 1].value] else [])
  }

  /** Lines 65-71: among the containers' first `pre, code` texts, the first strictly longest. */
  method LongestContainerCode(found: seq<Option<string>>) returns (code: string)
    ensures code == Longest(Present(found))
    ensures IsLongestPick(Present(found), code)
  {
    code := "";
    for i := 0 to |found|
      invariant code == Longest(Present(found[..i]))
    {
      var possibleCode := found[i];
      LongestPresentStep(found, i);
      if possibleCode.Some? && Utf16Length(possibleCode.value) > Utf16Length(code) {
        code := possibleCode.value;
      }
    }
    assert found[..|found|] == found;
  }

  /** One more container changes the pick only when its code is strictly longer. */
  lemma LongestPresentStep(found: seq<Option<string>>, i: nat)
    requires i < |found|
    ensures var before := Longest(Present(found[..i]));
      Longest(Present(found[..i + 1])) ==
        if found[i].Some? && Utf16Length(found[i].value) > Utf16Length(before) then found[i].value else before
  {
    assert found[..i + 1][..i] == found[..i];
    var before := Present(found[..i]);
    if found[i].Some? {
      var after := before + [found[i].value];
      assert Present(found[..i + 1]) == after;
      assert after[..|after| - 1] == before;
    } else {
      assert Present(found[..i + 1]) == before;
    }
  }

  /** Lines 41-72: the Ace lines if the editor exists, else the longest block; the containers only if that is empty. */
  function SelectedCode(page: Page): string
  {
    var primary := if page.aceLines.Some? then Join(page.aceLines.value, '\n') else Longest(page.codeBlocks);
    if primary != "" then primary else Longest(Present(page.containerCode))
  }

  /** With an Ace editor on the page the code blocks are never consulted, even when the editor is empty. */
  lemma AceEditorIgnoresCodeBlocks(page: Page, others: seq<string>)
    requires page.aceLines.Some?
    ensures SelectedCode(page) == SelectedCode(page.(codeBlocks := others))
  {
  }

  /** The containers are consulted only when the first choice found no code. */
  lemma ContainersOnlyWhenEmpty(page: Page, others: seq<Option<string>>)
    requires SelectedCode(page.(containerCode := [])) != ""
    ensures SelectedCode(page) == SelectedCode(page.(containerCode := others))
  {
  }

  /** Without an editor, the code is the first longest block, or the first longest container code if all blocks are empty. */
  lemma SelectedCodeWithoutEditor(page: Page)
    requires page.aceLines.None?
    ensures var code := SelectedCode(page);
      (exists k :: 0 <= k < |page.codeBlocks| && page.codeBlocks[k] != "") ==> IsLongestPick(page.codeBlocks, code)
    ensures (forall k :: 0 <= k < |page.codeBlocks| ==> page.codeBlocks[k] == "") ==>
      IsLongestPick(Present(page.containerCode), SelectedCode(page))
  {
    var primary := Longest(page.codeBlocks);
    if exists k :: 0 <= k < |page.codeBlocks| && page.codeBlocks[k] != "" {
      var k :| 0 <= k < |page.codeBlocks| && page.codeBlocks[k] != "";
      assert Utf16Length(page.codeBlocks[k]) <= Utf16Length(primary);
    }
  }

  /** Lines 101-120: the first language selector found, lower-cased; else a language named in the URL; else ''. */
  function SubmissionLanguage(selectedValue: Option<string>, selectLangData: Option<string>, selectLang: Option<string>, href: string): (language: string)
    ensures selectedValue.Some? ==> language == Lower(selectedValue.value)
    ensures selectedValue.None? && selectLangData.Some? ==> language == Lower(selectLangData.value)
    ensures selectedValue.None? && selectLangData.None? && selectLang.Some? ==> language == Lower(selectLang.value)
  {
    var languageSelector := if selectedValue.Some? then selectedValue else if selectLangData.Some? then selectLangData else selectLang;
    if languageSelector.Some? then Lower(languageSelector.value)
    else if Contains(href, "/python/") then "python"
    else if Contains(href, "/javascript/") then "javascript"
    else if Contains(href, "/java/") then "java"
    else if Contains(href, "/cpp/") then "cpp"
    else ""
  }

  /**
   * Lines 111-119: without a language selector, the first of "/python/",
   * "/javascript/", "/java/", "/cpp/" found in the URL names the language,
   * which has an extension of its own; with none of them the language is ''.
   */
  lemma LanguageFromUrl(href: string)
    ensures var language := SubmissionLanguage(None, None, None, href);
      var ext := Naming.FileExtension(language);
      (Contains(href, "/python/") ==> language == "python" && ext == "py") &&
      (!Contains(href, "/python/") && Contains(href, "/javascript/") ==> language == "javascript" && ext == "js") &&
      (!Contains(href, "/python/") && !Contains(href, "/javascript/") && Contains(href, "/java/") ==>
        language == "java" && ext == "java") &&
      (!Contains(href, "/python/") && !Contains(href, "/javascript/") && !Contains(href, "/java/") && Contains(href, "/cpp/") ==>
        language == "cpp" && ext == "cpp") &&
      (!Contains(href, "/python/") && !Contains(href, "/javascript/") && !Contains(href, "/java/") && !Contains(href, "/cpp/") ==>
        language == "")
  {
    Naming.ExtensionsOfUrlLanguages();
  }

  /**
   * When the page names no language at all, the '' of line 119 makes
   * `data.language || settings.language` (background.js line 47) fall back to
   * the configured language, which then decides the extension.
   */
  lemma UnnamedLanguageUsesSettings(page: Page, settings: Sync.Settings)
    requires page.selectedValue.None? && page.selectLangData.None? && page.selectLang.None?
    requires !Contains(page.href, "/python/") && !Contains(page.href, "/javascript/")
    requires !Contains(page.href, "/java/") && !Contains(page.href, "/cpp/")
    ensures PageLanguage(page) == ""
    ensures Sync.SolutionFileName(settings, SolutionOf(page)) ==
      Naming.FileName(ProblemNumber(page.pathname), ProblemTitle(page.heading, page.title), Naming.FileExtension(settings.language))
  {
  }

  /** A language read from a selector is already lower case, so the extension lookup sees it unchanged. */
  lemma SelectorLanguageIsLowerCase(selectedValue: Option<string>, selectLangData: Option<string>, selectLang: Option<string>, href: string)
    requires selectedValue.Some? || selectLangData.Some? || selectLang.Some?
    ensures var language := SubmissionLanguage(selectedValue, selectLangData, selectLang, href);
      Lower(language) == language
  {
    var selector := if selectedValue.Some? then selectedValue else if selectLangData.Some? then selectLangData else selectLang;
    LowerIdempotent(selector.value);
  }

  function PageLanguage(page: Page): string
  {
    SubmissionLanguage(page.selectedValue, page.selectLangData, page.selectLang, page.href)
  }

  /** The message `handleAcceptedSubmission` sends for a page. */
  function SolutionOf(page: Page): Sync.Solution
  {
    Sync.Solution(ProblemNumber(page.pathname), ProblemTitle(page.heading, page.title), SelectedCode(page), PageLanguage(page))
  }

  /** Lines 32-87. */
  method HandleAcceptedSubmission(page: Page) returns (data: Sync.Solution)
    ensures data == SolutionOf(page)
    ensures data.problemTitle != ""
  {
    var problemTitle := ProblemTitle(page.heading, page.title);
    var problemNumber := ProblemNumber(page.pathname);
    var code := "";
    if page.aceLines.Some? {
      code := ExtractCodeFromAceEditor(page.aceLines.value);
    } else {
      if |page.codeBlocks| > 0 {
        var largestCode := LongestCodeBlock(page.codeBlocks);
        code := largestCode;
      }
    }
    if code == "" {
      code := LongestContainerCode(page.containerCode);
    }
    var language := SubmissionLanguage(page.selectedValue, page.selectLangData, page.selectLang, page.href);
    data := Sync.Solution(problemNumber, problemTitle, code, language);
  }

  /** A node added to the page: only elements are searched. */
  datatype Node =
    | NonElement
    | Element(notifications: seq<string>, successMarkers: nat)   // `.notification-content` texts; count of success indicators

  /** How many notification texts contain "Accepted". */
  function AcceptedCount(notifications: seq<string>): nat
  {
    if notifications == [] then 0
    else AcceptedCount(notifications[..|notifications| - 1]) +
         (if Contains(notifications[|notifications| - 1], "Accepted") then 1 else 0)
  }

  /**
   * The calls one node makes: one per accepted notification (the `return` at
   * line 15 only ends the `forEach` callback), plus one when it has a success
   * indicator.
   */
  function NodeFires(node: Node): nat
  {
    match node
    case NonElement => 0
    case Element(notifications, markers) => AcceptedCount(notifications) + (if markers > 0 then 1 else 0)
  }

  predicate HasSuccess(node: Node) { node.Element? && node.successMarkers > 0 }

  /** The calls one mutation makes: the `return` at line 23 skips the nodes after the first with a success indicator. */
  function MutationFires(nodes: seq<Node>): nat
  {
    if nodes == [] then 0
    else if HasSuccess(nodes[0]) then NodeFires(nodes[0])
    else NodeFires(nodes[0]) + MutationFires(nodes[1..])
  }

  /** The calls of one invocation of the observer callback. */
  function Fires(mutations: seq<seq<Node>>): nat
  {
    if mutations == [] then 0
    else Fires(mutations[..|mutations| - 1]) + MutationFires(mutations[|mutations| - 1])
  }

  /** Lines 12-17: one call per notification text that contains "Accepted". */
  method NotifyAccepted(page: Page, notificationElements: seq<string>) returns (sent: seq<Sync.Solution>)
    ensures |sent| == AcceptedCount(notificationElements)
    ensures forall k :: 0 <= k < |sent| ==> sent[k] == SolutionOf(page)
  {
    sent := [];
    for k := 0 to |notificationElements|
      invariant |sent| == AcceptedCount(notificationElements[..k])
      invariant forall m :: 0 <= m < |sent| ==> sent[m] == SolutionOf(page)
    {
      assert notificationElements[..k + 1][..k] == notificationElements[..k];
      if Contains(notificationElements[k], "Accepted") {
        var data := HandleAcceptedSubmission(page);
        sent := sent + [data];
      }
    }
    assert notificationElements[..|notificationElements|] == notificationElements;
  }

  /** Lines 4-27: the callback for one mutation, which stops at the first node with a success indicator. */
  method MutationCallback(page: Page, nodes: seq<Node>) returns (sent: seq<Sync.Solution>)
    ensures |sent| == MutationFires(nodes)
    ensures forall k :: 0 <= k < |sent| ==> sent[k] == SolutionOf(page)
  {
    sent := [];
    var j := 0;
    while j < |nodes|
      invariant 0 <= j <= |nodes|
      invariant |sent| + MutationFires(nodes[j..]) == MutationFires(nodes)
      invariant forall k :: 0 <= k < |sent| ==> sent[k] == SolutionOf(page)
    {
      var node := nodes[j];
      assert nodes[j..][1..] == nodes[j + 1..];
      if node.Element? {
        var accepted := NotifyAccepted(page, node.notifications);
        sent := sent + accepted;
        if node.successMarkers > 0 {
          var data := HandleAcceptedSubmission(page);
          sent := sent + [data];
          return;
        }
      }
      j := j + 1;
    }
  }

  /** Lines 3-28: each call of `handleAcceptedSubmission` sends the page's solution once more. */
  method ObserverCallback(page: Page, mutations: seq<seq<Node>>) returns (sent: seq<Sync.Solution>)
    ensures |sent| == Fires(mutations)
    ensures forall k :: 0 <= k < |sent| ==> sent[k] == SolutionOf(page)
  {
    sent := [];
    for i := 0 to |mutations|
      invariant |sent| == Fires(mutations[..i])
      invariant forall k :: 0 <= k < |sent| ==> sent[k] == SolutionOf(page)
    {
      var more := MutationCallback(page, mutations[i]);
      sent := sent + more;
      assert mutations[..i + 1][..i] == mutations[..i];
    }
    assert mutations[..|mutations|] == mutations;
  }

  /** Handling two batches of mutations in one callback fires as often as handling them in two. */
  lemma {:induction false} FiresAppend(a: seq<seq<Node>>, b: seq<seq<Node>>)
    ensures Fires(a + b) == Fires(a) + Fires(b)
    decreases |b|
  {
    if b == [] {
      assert a + b == a;
    } else {
      assert (a + b)[..|a + b| - 1] == a + b[..|b| - 1];
      FiresAppend(a, b[..|b| - 1]);
    }
  }

  /** Nodes after the first one with a success indicator make no difference. */
  lemma {:induction false} SuccessSkipsRest(nodes: seq<Node>, j: nat, others: seq<Node>)
    requires j < |nodes| && HasSuccess(nodes[j])
    ensures MutationFires(nodes) == MutationFires(nodes[..j + 1] + others)
  {
    var kept := nodes[..j + 1] + others;
    assert kept[0] == nodes[0];
    if !HasSuccess(nodes[0]) {
      assert kept[1..] == nodes[1..][..j] + others;
      SuccessSkipsRest(nodes[1..], j - 1, others);
    }
  }

  /** A notification-free node without success indicator never fires; one is enough. */
  predicate Silent(node: Node)
  {
    node.NonElement? || (AcceptedCount(node.notifications) == 0 && node.successMarkers == 0)
  }

  lemma {:induction false} MutationFiresZero(nodes: seq<Node>)
    ensures MutationFires(nodes) == 0 <==> forall k :: 0 <= k < |nodes| ==> Silent(nodes[k])
  {
    if nodes != [] {
      MutationFiresZero(nodes[1..]);
      assert forall k :: 1 <= k < |nodes| ==> nodes[k] == nodes[1..][k - 1];
    }
  }

  /** The callback pushes nothing exactly when no added node is an accepted notification or success indicator. */
  lemma {:induction false} FiresZero(mutations: seq<seq<Node>>)
    ensures Fires(mutations) == 0 <==>
            forall i, k :: 0 <= i < |mutations| && 0 <= k < |mutations[i]| ==> Silent(mutations[i][k])
  {
    if mutations != [] {
      var init := mutations[..|mutations| - 1];
      FiresZero(init);
      MutationFiresZero(mutations[|mutations| - 1]);
      assert forall i :: 0 <= i < |init| ==> mutations[i] == init[i];
    }
  }

  /** One added element showing an accepted notification and a success icon pushes the solution twice. */
  lemma AcceptedWithSuccessIconFiresTwice(text: string)
    requires Contains(text, "Accepted")
    ensures Fires([[Element([text], 1)]]) == 2
  {
    assert [text][..0] == [];
    assert AcceptedCount([text]) == 1;
    assert MutationFires([Element([text], 1)]) == 2;
    assert [[Element([text], 1)]][..0] == [];
  }
}
