/**
 * How `pushSolutionToGithub` in Extension/background.js names what it
 * commits: the file extension chosen from the language, the file name built
 * from the problem number and a sanitised title, and the commit message.
 */
module Naming {
  import opened Wrappers
  import opened Text

  /** The table inside `getFileExtension`: sixteen lower-case language names. */
  const Extensions: map<string, string> := map[
    "javascript" := "js", "python" := "py", "python3" := "py", "java" := "java",
    "c++" := "cpp", "c#" := "cs", "go" := "go", "ruby" := "rb", "kotlin" := "kt",
    "swift" := "swift", "js" := "js", "py" := "py", "cpp" := "cpp", "cs" := "cs",
    "rb" := "rb", "kt" := "kt"]

  /** Every extension the pipeline can produce. */
  const KnownExtensions: set<string> := {"js", "py", "java", "cpp", "cs", "go", "rb", "kt", "swift", "txt"}

  /**
   * `getFileExtension(language)`: "txt" for a missing (empty) language,
   * otherwise the table entry for the lower-cased name, and "txt" for a name
   * the table lacks.
   */
  function FileExtension(language: string): (ext: string)
    ensures ext in KnownExtensions
    ensures language == "" || Lower(language) !in Extensions <==> ext == "txt"
    ensures Lower(language) in Extensions ==> ext == Extensions[Lower(language)]
  {
    if language == "" then "txt"
    else if Lower(language) in Extensions then Extensions[Lower(language)]
    else "txt"
  }

  /** The lookup ignores case: a name and its lower-cased form get the same extension. */
  lemma FileExtensionIgnoresCase(language: string)
    ensures FileExtension(language) == FileExtension(Lower(language))
  {
    LowerIdempotent(language);
  }

  /** `data.language || settings.language`: the extracted language unless it is empty. */
  function ChosenLanguage(extracted: string, configured: string): (language: string)
    ensures extracted != "" ==> language == extracted
    ensures extracted == "" ==> language == configured
  {
    if extracted != "" then extracted else configured
  }

  /** `\w` without the `u` flag: ASCII letters, digits and the underscore. */
  predicate IsWordChar(c: char)
  {
    'A' <= c <= 'Z' || 'a' <= c <= 'z' || '0' <= c <= '9' || c == '_'
  }

  /** `\s`: the ECMAScript white space and line terminator characters. */
  predicate IsSpace(c: char)
  {
    c == '\t' || c == '\n' || c == '\U{B}' || c == '\U{C}' || c == '\r' || c == ' ' ||
    c == '\U{A0}' || c == '\U{1680}' || '\U{2000}' <= c <= '\U{200A}' || c == '\U{2028}' ||
    c == '\U{2029}' || c == '\U{202F}' || c == '\U{205F}' || c == '\U{3000}' || c == '\U{FEFF}'
  }

  /** The characters a sanitised title may hold: `[a-z0-9_-]`. */
  predicate IsSlugChar(c: char)
  {
    'a' <= c <= 'z' || '0' <= c <= '9' || c == '_' || c == '-'
  }

  predicate AllSlugChars(s: string)
  {
    forall k :: 0 <= k < |s| ==> IsSlugChar(s[k])
  }

  /** `.replace(/[^\w\s-]/g, '')`: keeps word characters, white space and '-'. */
  function KeepWordSpaceDash(s: string): string
  {
    if s == [] then [] else KeepChar(s[0]) + KeepWordSpaceDash(s[1..])
  }

  /** What the first replacement leaves of one character. */
  function KeepChar(c: char): string
  {
    if IsWordChar(c) || IsSpace(c) || c == '-' then [c] else []
  }

  /** The rest of `s` after its leading white space. */
  function SkipSpaces(s: string): (r: string)
    ensures |r| <= |s|
    ensures r == [] || !IsSpace(r[0])
  {
    if s != [] && IsSpace(s[0]) then SkipSpaces(s[1..]) else s
  }

  /** `.replace(/\s+/g, '-')`: each maximal run of white space becomes one '-'. */
  function DashSpaceRuns(s: string): string
    decreases |s|
  {
    if s == [] then []
    else if IsSpace(s[0]) then "-" + DashSpaceRuns(SkipSpaces(s[1..]))
    else [s[0]] + DashSpaceRuns(s[1..])
  }

  /** The sanitised title: unwanted characters dropped, white-space runs dashed, then lower-cased. */
  function Slug(title: string): string
  {
    Lower(DashSpaceRuns(KeepWordSpaceDash(title)))
  }

  predicate IsSpaceRun(w: string)
  {
    w != [] && forall k :: 0 <= k < |w| ==> IsSpace(w[k])
  }

  /** Skipping leading white space never reaches past a non-space character. */
  lemma {:induction false} SkipSpacesAppend(a: string, rest: string)
    requires a != [] && !IsSpace(a[|a| - 1])
    ensures SkipSpaces(a + rest) == SkipSpaces(a) + rest
    ensures SkipSpaces(a) != [] && SkipSpaces(a)[|SkipSpaces(a)| - 1] == a[|a| - 1]
  {
    if IsSpace(a[0]) {
      assert (a + rest)[1..] == a[1..] + rest;
      SkipSpacesAppend(a[1..], rest);
    }
  }

  /** A run of white space is skipped up to the next non-space character. */
  lemma {:induction false} SkipSpaceRun(w: string, b: string)
    requires IsSpaceRun(w)
    requires b == [] || !IsSpace(b[0])
    ensures SkipSpaces(w + b) == b
  {
    assert (w + b)[1..] == w[1..] + b;
    if |w| > 1 {
      SkipSpaceRun(w[1..], b);
    } else {
      assert w[1..] + b == b;
    }
  }

  /** A leading run of white space becomes one '-'. */
  lemma DashLeadingRun(w: string, b: string)
    requires IsSpaceRun(w)
    requires b == [] || !IsSpace(b[0])
    ensures DashSpaceRuns(w + b) == "-" + DashSpaceRuns(b)
  {
    assert (w + b)[0] == w[0];
    assert (w + b)[1..] == w[1..] + b;
    if |w| == 1 {
      assert w[1..] + b == b;
    } else {
      SkipSpaceRun(w[1..], b);
    }
  }

  /**
   * A run of white space between two parts becomes exactly one '-', and
   * the parts are dashed on their own: the regular expression replaces each
   * maximal run once.
   */
  lemma {:induction false} DashSpaceRunsSplice(a: string, w: string, b: string)
    requires a == [] || !IsSpace(a[|a| - 1])
    requires IsSpaceRun(w)
    requires b == [] || !IsSpace(b[0])
    ensures DashSpaceRuns(a + w + b) == DashSpaceRuns(a) + "-" + DashSpaceRuns(b)
    decreases |a|, 1
  {
    if a == [] {
      assert a + w + b == w + b;
      DashLeadingRun(w, b);
    } else if IsSpace(a[0]) {
      SpliceAfterSpace(a, w, b);
    } else {
      SpliceAfterChar(a, w, b);
    }
  }

  lemma {:induction false} SpliceAfterSpace(a: string, w: string, b: string)
    requires a != [] && IsSpace(a[0]) && !IsSpace(a[|a| - 1])
    requires IsSpaceRun(w)
    requires b == [] || !IsSpace(b[0])
    ensures DashSpaceRuns(a + w + b) == DashSpaceRuns(a) + "-" + DashSpaceRuns(b)
    decreases |a|, 0
  {
    var a', r := SkipSpaces(a[1..]), w + b;
    var x, y := DashSpaceRuns(a'), DashSpaceRuns(b);
    calc {
      DashSpaceRuns(a + w + b);
      { assert a + w + b == a + r; }
      DashSpaceRuns(a + r);
      { DashLeadingSpace(a, r); }
      "-" + DashSpaceRuns(a' + r);
      { SkipSpacesAppend(a[1..], r);
        assert a' + r == a' + w + b;
        DashSpaceRunsSplice(a', w, b); }
      "-" + (x + "-" + y);
      { assert "-" + (x + "-" + y) == ("-" + x) + "-" + y; }
      ("-" + x) + "-" + y;
      { DashLeadingSpace(a, r); }
      DashSpaceRuns(a) + "-" + y;
    }
  }

  lemma {:induction false} SpliceAfterChar(a: string, w: string, b: string)
    requires a != [] && !IsSpace(a[0]) && !IsSpace(a[|a| - 1])
    requires IsSpaceRun(w)
    requires b == [] || !IsSpace(b[0])
    ensures DashSpaceRuns(a + w + b) == DashSpaceRuns(a) + "-" + DashSpaceRuns(b)
    decreases |a|, 0
  {
    var x, y := DashSpaceRuns(a[1..]), DashSpaceRuns(b);
    calc {
      DashSpaceRuns(a + w + b);
      { assert (a + w + b)[0] == a[0] && (a + w + b)[1..] == a[1..] + w + b; }
      [a[0]] + DashSpaceRuns(a[1..] + w + b);
      { DashSpaceRunsSplice(a[1..], w, b); }
      [a[0]] + (x + "-" + y);
      { assert [a[0]] + (x + "-" + y) == ([a[0]] + x) + "-" + y; }
      ([a[0]] + x) + "-" + y;
    }
  }

  /** A part that starts with white space and ends without: dashing skips the same run with or without a suffix. */
  lemma DashLeadingSpace(a: string, rest: string)
    requires |a| > 1 && IsSpace(a[0]) && !IsSpace(a[|a| - 1])
    ensures DashSpaceRuns(a) == "-" + DashSpaceRuns(SkipSpaces(a[1..]))
    ensures DashSpaceRuns(a + rest) == "-" + DashSpaceRuns(SkipSpaces(a[1..]) + rest)
  {
    assert (a + rest)[1..] == a[1..] + rest;
    SkipSpacesAppend(a[1..], rest);
  }

  /** What the first replacement keeps is only word characters, white space and '-'. */
  lemma {:induction false} KeepWordSpaceDashChars(s: string)
    ensures forall c :: c in KeepWordSpaceDash(s) ==> IsWordChar(c) || IsSpace(c) || c == '-'
  {
    if s != [] {
      KeepWordSpaceDashChars(s[1..]);
    }
  }

  /** What `SkipSpaces` leaves is a suffix of its argument. */
  lemma {:induction false} SkipSuffix(s: string)
    ensures SkipSpaces(s) == s[|s| - |SkipSpaces(s)|..]
  {
    if s != [] && IsSpace(s[0]) {
      SkipSuffix(s[1..]);
      assert s[1..][|s| - 1 - |SkipSpaces(s)|..] == s[|s| - |SkipSpaces(s)|..];
    }
  }

  /** Dashing removes every white-space character and adds only '-'. */
  lemma {:induction false} DashSpaceRunsChars(s: string)
    requires forall c :: c in s ==> IsWordChar(c) || IsSpace(c) || c == '-'
    ensures forall c :: c in DashSpaceRuns(s) ==> IsWordChar(c) || c == '-'
    decreases |s|
  {
    if s != [] {
      if IsSpace(s[0]) {
        var r := SkipSpaces(s[1..]);
        SkipSuffix(s[1..]);
        assert forall c :: c in r ==> c in s[1..];
        DashSpaceRunsChars(r);
      } else {
        DashSpaceRunsChars(s[1..]);
      }
    }
  }

  /** The sanitised title holds only `[a-z0-9_-]`. */
  lemma SlugChars(title: string)
    ensures AllSlugChars(Slug(title))
  {
    var kept := KeepWordSpaceDash(title);
    KeepWordSpaceDashChars(title);
    DashSpaceRunsChars(kept);
    var dashed := DashSpaceRuns(kept);
    forall k | 0 <= k < |dashed|
      ensures IsSlugChar(Slug(title)[k])
    {
      assert dashed[k] in dashed;
    }
  }

  /** The first replacement works character by character. */
  lemma {:induction false} KeepAppend(a: string, b: string)
    ensures KeepWordSpaceDash(a + b) == KeepWordSpaceDash(a) + KeepWordSpaceDash(b)
  {
    if a == [] {
      assert a + b == b;
    } else {
      calc {
        KeepWordSpaceDash(a + b);
        { assert (a + b)[0] == a[0] && (a + b)[1..] == a[1..] + b; }
        KeepChar(a[0]) + KeepWordSpaceDash(a[1..] + b);
        { KeepAppend(a[1..], b); }
        KeepChar(a[0]) + (KeepWordSpaceDash(a[1..]) + KeepWordSpaceDash(b));
        (KeepChar(a[0]) + KeepWordSpaceDash(a[1..])) + KeepWordSpaceDash(b);
      }
    }
  }

  /** Each step of the sanitiser leaves alone what it has nothing to do on. */
  lemma {:induction false} KeepAllowed(s: string)
    requires forall k :: 0 <= k < |s| ==> IsWordChar(s[k]) || IsSpace(s[k]) || s[k] == '-'
    ensures KeepWordSpaceDash(s) == s
  {
    if s != [] {
      KeepAllowed(s[1..]);
      assert [s[0]] + s[1..] == s;
    }
  }

  lemma {:induction false} DashNoSpace(s: string)
    requires forall k :: 0 <= k < |s| ==> !IsSpace(s[k])
    ensures DashSpaceRuns(s) == s
  {
    if s != [] {
      DashNoSpace(s[1..]);
      assert [s[0]] + s[1..] == s;
    }
  }

  /** Sanitising a sanitised title changes nothing. */
  lemma SlugIdempotent(title: string)
    ensures Slug(Slug(title)) == Slug(title)
  {
    var s := Slug(title);
    SlugChars(title);
    KeepAllowed(s);
    DashNoSpace(s);
    assert Lower(s) == s;
  }

  /** A character the first replacement drops leaves no trace in the sanitised title. */
  lemma SlugDropsOther(a: string, c: char, b: string)
    requires !IsWordChar(c) && !IsSpace(c) && c != '-'
    ensures Slug(a + [c] + b) == Slug(a + b)
  {
    var keep := KeepWordSpaceDash(a + b);
    calc {
      KeepWordSpaceDash(a + [c] + b);
      { KeepAppend(a + [c], b); }
      KeepWordSpaceDash(a + [c]) + KeepWordSpaceDash(b);
      { KeepAppend(a, [c]); }
      KeepWordSpaceDash(a) + KeepWordSpaceDash([c]) + KeepWordSpaceDash(b);
      { assert KeepWordSpaceDash([c]) == KeepChar(c) + KeepWordSpaceDash([]); }
      KeepWordSpaceDash(a) + KeepWordSpaceDash(b);
      { KeepAppend(a, b); }
      keep;
    }
  }

  /** A non-empty run of word characters. */
  predicate IsWord(u: string)
  {
    u != [] && forall k :: 0 <= k < |u| ==> IsWordChar(u[k])
  }

  /** Two words apart: the white space between them becomes one '-' and both are lower-cased. */
  lemma SlugOfTwoWords(u: string, w: string, v: string)
    requires IsWord(u) && IsSpaceRun(w) && IsWord(v)
    ensures Slug(u + w + v) == Lower(u) + "-" + Lower(v)
  {
    assert KeepWordSpaceDash(u + w + v) == u + w + v by {
      KeepAllowed(u + w + v);
    }
    assert DashSpaceRuns(u + w + v) == u + "-" + v by {
      DashSpaceRunsSplice(u, w, v);
      DashNoSpace(u);
      DashNoSpace(v);
    }
    assert Lower(u + "-" + v) == Lower(u) + "-" + Lower(v) by {
      LowerAppend(u + "-", v);
      LowerAppend(u, "-");
    }
  }

  /** Leading white space is not trimmed: it becomes a leading '-'. */
  lemma SlugLeadingSpace(w: string, t: string)
    requires IsSpaceRun(w) && t != [] && (IsWordChar(t[0]) || t[0] == '-')
    ensures Slug(w + t) == "-" + Slug(t)
  {
    var kept := KeepWordSpaceDash(t);
    assert KeepWordSpaceDash(w + t) == w + kept by {
      KeepAppend(w, t);
      KeepAllowed(w);
    }
    assert DashSpaceRuns(w + kept) == "-" + DashSpaceRuns(kept) by {
      assert kept[0] == t[0];
      DashLeadingRun(w, kept);
    }
    LowerAppend("-", DashSpaceRuns(kept));
  }

  /** Trailing white space is not trimmed either: it becomes a trailing '-'. */
  lemma SlugTrailingSpace(t: string, w: string)
    requires IsSpaceRun(w) && t != [] && (IsWordChar(t[|t| - 1]) || t[|t| - 1] == '-')
    ensures Slug(t + w) == Slug(t) + "-"
  {
    var kept := KeepWordSpaceDash(t);
    assert KeepWordSpaceDash(t + w) == kept + w by {
      KeepAppend(t, w);
      KeepAllowed(w);
    }
    assert kept != [] && kept[|kept| - 1] == t[|t| - 1] by {
      var last := t[|t| - 1];
      assert t == t[..|t| - 1] + [last];
      KeepAppend(t[..|t| - 1], [last]);
      assert KeepWordSpaceDash([last]) == [last];
    }
    assert DashSpaceRuns(kept + w) == DashSpaceRuns(kept) + "-" by {
      assert kept + w == kept + w + [];
      DashSpaceRunsSplice(kept, w, []);
    }
    LowerAppend(DashSpaceRuns(kept), "-");
  }

  /** `${value}` in a template literal: a missing value prints as "undefined". */
  function Display(value: Option<string>): string
  {
    match value
    case None => "undefined"
    case Some(s) => s
  }

  /** `${problemNumber}_${sanitizedTitle}.${fileExtension}`. */
  function FileName(problemNumber: Option<string>, title: string, ext: string): string
  {
    Display(problemNumber) + "_" + Slug(title) + "." + ext
  }

  /** `Add solution for ${problemNumber}: ${problemTitle}`, with the title as extracted, not sanitised. */
  function CommitMessage(problemNumber: Option<string>, title: string): string
  {
    "Add solution for " + Display(problemNumber) + ": " + title
  }

  /** The index of the last '.' in a name. */
  function LastDot(name: string): (r: Option<nat>)
    ensures r.Some? ==> r.value < |name| && name[r.value] == '.' && '.' !in name[r.value + 1..]
    ensures r.None? ==> '.' !in name
  {
    if name == [] then None
    else if name[|name| - 1] == '.' then Some(|name| - 1)
    else
      var r := LastDot(name[..|name| - 1]);
      assert r.Some? ==> name[r.value + 1..] == name[..|name| - 1][r.value + 1..] + [name[|name| - 1]];
      assert r.None? ==> name == name[..|name| - 1] + [name[|name| - 1]];
      r
  }

  /** A file name split at its last '.' into base name and extension. */
  function SplitExtension(name: string): (string, string)
  {
    match LastDot(name)
    case None => (name, "")
    case Some(k) => (name[..k], name[k + 1..])
  }

  /** The last '.' of `base + "." + ext` is the one before `ext` when `ext` has none. */
  lemma {:induction false} LastDotBefore(base: string, ext: string)
    requires '.' !in ext
    ensures LastDot(base + "." + ext) == Some(|base|)
  {
    var name := base + "." + ext;
    if ext != [] {
      assert name[|name| - 1] == ext[|ext| - 1];
      assert name[..|name| - 1] == base + "." + ext[..|ext| - 1];
      LastDotBefore(base, ext[..|ext| - 1]);
    }
  }

  /** No extension the lookup produces holds a '.'. */
  lemma ExtensionHasNoDot(language: string)
    ensures '.' !in FileExtension(language)
  {
    assert FileExtension(language) in KnownExtensions;
  }

  /**
   * The file name is unambiguous: its last '.' separates the number and
   * sanitised title from the extension, since an extension from the table
   * holds no '.' (`ExtensionHasNoDot`).
   */
  lemma FileNameSplits(problemNumber: Option<string>, title: string, ext: string)
    requires '.' !in ext
    ensures SplitExtension(FileName(problemNumber, title, ext)) == (Display(problemNumber) + "_" + Slug(title), ext)
  {
    var base := Display(problemNumber) + "_" + Slug(title);
    var name := FileName(problemNumber, title, ext);
    assert name == base + "." + ext;
    LastDotBefore(base, ext);
    assert name[..|base|] == base && name[|base| + 1..] == ext;
  }

  /** The lookup lower-cases first, so an upper-case name finds its entry. */
  lemma ExtensionOfUpperCasePython()
    ensures FileExtension("PYTHON3") == "py" && FileExtension("Unknown-Lang") == "txt" && FileExtension("") == "txt"
  {
    assert Lower("PYTHON3") == "python3";
    assert Lower("Unknown-Lang") == "unknown-lang";
  }

  /** A lower-case name in the table is looked up as it is. */
  lemma ExtensionOfLowerCase(language: string)
    requires language in Extensions
    requires forall k :: 0 <= k < |language| ==> !IsAsciiUpper(language[k])
    ensures FileExtension(language) == Extensions[language]
  {
    LowerUnchanged(language);
  }

  /** The four languages a problem URL can name map to their own extensions. */
  lemma ExtensionsOfUrlLanguages()
    ensures FileExtension("python") == "py" && FileExtension("javascript") == "js"
    ensures FileExtension("java") == "java" && FileExtension("cpp") == "cpp"
  {
    ExtensionOfLowerCase("python");
    ExtensionOfLowerCase("javascript");
    ExtensionOfLowerCase("java");
    ExtensionOfLowerCase("cpp");
  }
}
