# LeetCode-to-GitHub extension and two LeetCode solutions, modelled in Dafny

This project models four parts of one repository and proves properties about them.

- **The background script** (`Extension/background.js`) pushes an accepted solution to GitHub. The model covers:
  - choosing the file extension from the language;
  - building the file name from the problem number and a sanitised title;
  - building the commit message;
  - normalising line endings;
  - encoding the content as the Base64 (section 4 of RFC 4648) of its UTF-8 bytes (section 3 of RFC 3629);
  - the create-or-update protocol against the GitHub contents API.

  HTTP is an oracle. The class `Sync.GitHubApi` records every request and answers each one with the next reply from a sequence fixed in advance. Each reply is either a network failure or a status with a body, which is either JSON (its `message` and `sha`) or text whose `response.json()` throws; `Sync.Answer` turns the latter into an error.
- **The content script** (`Extension/content.js`) reads an accepted submission off the page. Each DOM query is replaced by its result: an optional text or a sequence of texts. The model covers:
  - the title fallback chain;
  - the path segment used as the problem "number";
  - joining the Ace editor lines;
  - the longest code block;
  - the container fallback;
  - the language from the selectors or the URL;
  - how many times the mutation observer calls `handleAcceptedSubmission`.
- **Longest palindromic substring** (`unknown_longest-palindromic-substring---leetcode.py`). The method fills the `opt` table column by column in a two-dimensional array. It returns the leftmost of the longest palindromic substrings.
- **Median of two sorted arrays** (`unknown_median-of-two-sorted-arrays---leetcode.py`). The method is a binary search over cuts of the shorter array. The ±∞ sentinels are a datatype of extended integers. The result is the exact median of the merged sequence.

Three behaviours of the code are worth knowing. The model follows the code in each.

- `Extension/background.js:51` does not trim: leading and trailing white space each become a `-`, so `"  A   B  "` gives `"-a-b-"` (`Naming.SlugLeadingSpace`, `Naming.SlugTrailingSpace`).
- Code blocks are compared by `.length`, which counts UTF-16 code units, so a character outside the Basic Multilingual Plane counts twice (`Text.Utf16Length`, `Content.LongestCountsCodeUnits`).
- The problem "number" is element 2 of the path split at `/`. On `/problems/two-sum/` that is the slug `two-sum`, not a number (`Content.ProblemNumberOfTwoSum`).

Modules: `Wrappers` (Option, Result), `Text` (JavaScript string operations), `Utf8`, `Base64`, `Payload`, `Naming`, `Sync`, `Content`, `Palindrome`, `Median`.

## Model

| member | source | states |
|---|---|---|
| Text.LowerIdempotent | Extension/background.js:109 | lower-casing a lower-cased name changes nothing |
| Text.LowerUnchanged | Extension/background.js:109 | a name without ASCII capitals is its own lower case |
| Text.LowerAppend | Extension/background.js:51 | `toLowerCase` works character by character over a concatenation |
| Text.IndexOf | Extension/content.js:113-116 | `indexOf` finds an occurrence of the pattern with none before it, or reports that there is none |
| Text.Contains | Extension/content.js:113-116 | `includes` holds exactly when the pattern occurs at some index |
| Text.Split | Extension/content.js:38 | `split('/')` yields at least one piece and no piece holds the separator |
| Text.SplitCons | Extension/content.js:38 | a piece followed by the separator is the first element of the split |
| Text.SplitLength | Extension/content.js:38 | the split has one more piece than the text has separators |
| Text.JoinSplit | Extension/content.js:98 | joining the pieces of a split gives back the text |
| Text.SplitJoin | Extension/content.js:98 | splitting a join of separator-free lines gives back the lines |
| Text.Utf16Length | Extension/content.js:55 | `.length` counts UTF-16 code units: at least one and at most two per character |
| Text.Utf16LengthOfBmp | Extension/content.js:55 | when every character is in the Basic Multilingual Plane, `.length` is the number of characters |
| Text.JoinSeparators | Extension/content.js:98 | `k` joined lines contribute `k - 1` separators |
| Utf8.EncodeChar | Extension/background.js:147 | one character is encoded as 1 to 4 bytes |
| Utf8.DecodeChar | Extension/background.js:147 | the decoder consumes between 1 byte and the whole input |
| Utf8.DecodeCharEncodeChar | Extension/background.js:147 | the decoder reads an encoded character back, whatever bytes follow it |
| Utf8.EncodeCharDecodeChar | Extension/background.js:147 | a byte prefix the decoder accepts is the encoding of the character it returns |
| Utf8.DecodeEncode | Extension/background.js:147 | decoding the UTF-8 encoding of a text gives back the text |
| Utf8.EncodeDecode | Extension/background.js:147 | any byte string the decoder accepts is the encoding of its decoded text |
| Base64.ValueLetter | Extension/background.js:147 | the alphabet maps each 6-bit value to a letter that reads back as that value |
| Base64.LetterValue | Extension/background.js:147 | reading a letter and writing its value gives back the letter |
| Base64.DecodeEncode | Extension/background.js:147 | decoding the `btoa` output gives back the bytes |
| Base64.EncodeDecodeGroup | Extension/background.js:147 | every group of four the decoder accepts is the encoding of its 1 to 3 bytes, and only the last group may be short |
| Base64.EncodeDecode | Extension/background.js:147 | every string the decoder accepts is the encoding of what it decodes to |
| Payload.NormalizeLineEndings | Extension/background.js:142 | `replace(/\r\n/g, '\n')` then `replace(/\r/g, '\n')`, in that order; what this means is stated by the four `Normalize`/`Normalized` lemmas below |
| Payload.NormalizeLineEndingsIsNormalized | Extension/background.js:142 | the two `replace` passes turn each CR LF and each lone CR into exactly one LF and keep every other character |
| Payload.NormalizedHasNoCr | Extension/background.js:142 | the normalised text has no CR |
| Payload.NormalizedWithoutCr | Extension/background.js:142 | a text without CR is unchanged |
| Payload.NormalizeLineEndingsIdempotent | Extension/background.js:207 | normalising twice is normalising once |
| Payload.EncodeContent | Extension/background.js:147 | the uploaded content Base64-decodes and then UTF-8-decodes to the normalised code |
| Payload.EncodeContentInjective | Extension/background.js:212 | different normalised codes are uploaded as different contents |
| Naming.FileExtension | Extension/background.js:84-112 | an empty language gives "txt"; otherwise the entry for the lower-cased name, or "txt" when the table has none; the result is one of ten extensions |
| Naming.FileExtensionIgnoresCase | Extension/background.js:109 | a name and its lower-cased form get the same extension |
| Naming.ExtensionOfUpperCasePython | Extension/background.js:85-109 | "PYTHON3" gives "py"; an unknown name and the empty name give "txt" |
| Naming.ExtensionOfLowerCase | Extension/background.js:109 | a lower-case name in the table is looked up as it is |
| Naming.ExtensionsOfUrlLanguages | Extension/background.js:91-103 | "python", "javascript", "java" and "cpp" map to "py", "js", "java" and "cpp" |
| Naming.ExtensionHasNoDot | Extension/background.js:90-111 | no extension holds a '.' |
| Naming.ChosenLanguage | Extension/background.js:47 | the extracted language is used unless it is empty; only then the configured one |
| Naming.Slug | Extension/background.js:51 | the three replacements of line 51 in order: drop `[^\w\s-]`, dash each white-space run, lower-case; its properties are the `Slug*` lemmas below |
| Naming.SkipSpaces | Extension/background.js:51 | what remains after skipping white space does not start with white space |
| Naming.DashSpaceRunsSplice | Extension/background.js:51 | one maximal white-space run between two parts becomes exactly one '-', and each part is dashed on its own |
| Naming.KeepAppend | Extension/background.js:51 | the first replacement works character by character |
| Naming.KeepAllowed | Extension/background.js:51 | a text made only of word characters, white space and '-' is kept whole |
| Naming.DashNoSpace | Extension/background.js:51 | a text without white space is not changed by the dashing |
| Naming.SlugChars | Extension/background.js:51 | the sanitised title holds only `[a-z0-9_-]` |
| Naming.SlugIdempotent | Extension/background.js:51 | sanitising a sanitised title changes nothing |
| Naming.SlugDropsOther | Extension/background.js:51 | a character other than word characters, white space and '-' leaves no trace in the sanitised title |
| Naming.SlugOfTwoWords | Extension/background.js:51 | two words apart become the lower-cased words joined by one '-' |
| Naming.SlugLeadingSpace | Extension/background.js:51 | leading white space is not trimmed but becomes a leading '-' |
| Naming.SlugTrailingSpace | Extension/background.js:51 | trailing white space is not trimmed but becomes a trailing '-' |
| Naming.FileName | Extension/background.js:52 | `${problemNumber}_${sanitizedTitle}.${fileExtension}`, with a missing number written "undefined"; `Naming.FileNameSplits` states that it splits back |
| Naming.CommitMessage | Extension/background.js:56 | `Add solution for ${problemNumber}: ${problemTitle}`, with the title as extracted, not sanitised; `Sync.PushWrites` states that every PUT carries it |
| Naming.LastDot | Extension/background.js:52 | helper for `Naming.FileNameSplits`, not an operation of the extension: the index found is that of a '.' with none after it, or there is no '.' |
| Naming.LastDotBefore | Extension/background.js:52 | helper for `Naming.FileNameSplits`: the last '.' of `base.ext` is the one before an extension without '.' |
| Naming.FileNameSplits | Extension/background.js:52 | `${problemNumber}_${sanitizedTitle}.${fileExtension}` splits back at its last '.' into the number-and-title and the extension |
| Sync.GitHubApi.constructor | Extension/background.js:120-125 | the oracle starts with nothing sent and the given replies pending |
| Sync.GitHubApi.Fetch | Extension/background.js:120-125 | `fetch` records the request and consumes the next reply |
| Sync.Decimal | Extension/background.js:169 | a status is written as a non-empty string of digits |
| Sync.ParseDecimalOfDecimal | Extension/background.js:169 | the digits of a status read back as the status |
| Sync.Answer | Extension/background.js:166-172 | how `createFile` and `updateFile` read a reply (also lines 196-200 and 232-236): a rejected fetch or an unparsable body gives its own error, an ok status the body, otherwise the body's `message` or the fallback; stated by `Sync.AnswerOk` and `Sync.FallbackMessage` |
| Sync.AnswerOk | Extension/background.js:166-172 | a reply is a success exactly when it is an ok response with a JSON body, and then its value is that body |
| Sync.FallbackMessage | Extension/background.js:169 | without a message, the error is "Failed to <action> (Status: N)" and N reads back as the status |
| Sync.CheckFileExists | Extension/background.js:114-133 | one GET to the contents URL; the file exists exactly when the reply has status 200, so a rejected fetch counts as missing |
| Sync.CreateFile | Extension/background.js:135-177 | one PUT without `sha`; the result is the ok body, the message of the body, or the synthesised error |
| Sync.UpdateFile | Extension/background.js:179-243 | a GET for the `sha`; a failed GET ends the update; otherwise a PUT carrying that `sha` |
| Sync.PushTrace | Extension/background.js:23-82 | the requests, outcome and notices of one push as a function of the settings, the solution and the replies to come; stated by the `Push*` lemmas below |
| Sync.PushFile | Extension/background.js:58-79 | the probe, then the update or the creation it selects, then one notice for the result |
| Sync.PushSolution | Extension/background.js:23-82 | the requests, the outcome and the notices of a push are those of `PushTrace` |
| Sync.DropDrop | Extension/background.js:60-70 | helper, one unfolding of the oracle: consuming `m` replies and then `n` consumes `m + n` |
| Sync.PushUnconfigured | Extension/background.js:37-42 | without token, owner or repository name nothing is sent and the push fails with the configuration message |
| Sync.PushProbesFirst | Extension/background.js:60 | a configured push sends 2 or 3 requests, and the first is the GET of the file's contents URL |
| Sync.PushCreatesMissingFile | Extension/background.js:64-70 | when the probe does not find the file, one PUT without `sha` follows and its answer is the outcome |
| Sync.PushUpdatesFoundFile | Extension/background.js:64-66 | when the probe finds the file, it is read again; a failed read is the outcome; otherwise a PUT with the `sha` just read follows and its answer is the outcome |
| Sync.PushWrites | Extension/background.js:150-161 | every PUT goes to the file's URL with the JSON headers, branch "main" and the commit message, and its content decodes to the normalised code |
| Sync.PushReports | Extension/background.js:72-79 | the last notice reports the outcome: info on success, "Error: " and the message on failure |
| Content.ProblemTitle | Extension/content.js:34-36 | the first non-empty of the heading and of the title without " - LeetCode", else "Unknown Problem"; never empty |
| Content.ProblemNumber | Extension/content.js:38 | defined exactly when the path has at least two '/', and then holds no '/' |
| Content.ProblemNumberIsThirdSegment | Extension/content.js:38 | on a path `a/b/c` or `a/b/c/...` the value is `c` |
| Content.ProblemNumberOfTwoSum | Extension/content.js:38 | on "/problems/two-sum/" the "number" is "two-sum" |
| Content.ExtractCodeFromAceEditor | Extension/content.js:90-99 | the lines joined with "\n" in order: no lines give "", `k` lines add `k - 1` newlines, and separator-free lines split back |
| Content.LongestPickUnique | Extension/content.js:53-58 | a "first strictly longest" pick is determined by the texts |
| Content.Longest | Extension/content.js:53-58 | no text has a greater `.length` (UTF-16 code units) than the pick, and the pick is empty or a text with every earlier text strictly shorter |
| Content.LongestCountsCodeUnits | Extension/content.js:55 | of "\U{1F600}" and "ab", both of `.length` 2, the first is kept |
| Content.LongestCodeBlock | Extension/content.js:50-60 | the loop returns the first block of maximal `.length`, "" when there is none |
| Content.Present | Extension/content.js:66-67 | each container contributes at most one code text |
| Content.LongestContainerCode | Extension/content.js:64-72 | the first of the containers' code texts with strictly greatest `.length` |
| Content.SelectedCode | Extension/content.js:41-72 | the Ace lines if the editor exists, else the longest block, and the longest container code only when that is ""; stated by the three lemmas below |
| Content.AceEditorIgnoresCodeBlocks | Extension/content.js:44-48 | with an Ace editor the code blocks are never consulted, even when the editor is empty |
| Content.ContainersOnlyWhenEmpty | Extension/content.js:63-72 | the containers matter only when the first choice found no code |
| Content.SelectedCodeWithoutEditor | Extension/content.js:48-72 | without an editor: the longest block if any block has text, else the longest container code |
| Content.SubmissionLanguage | Extension/content.js:101-120 | the first selector found, lower-cased, even when it is empty |
| Content.LanguageFromUrl | Extension/content.js:111-119 | without a selector, the first of "/python/", "/javascript/", "/java/", "/cpp/" in the URL gives "python", "javascript", "java" or "cpp", with extension "py", "js", "java" or "cpp"; with none of them the language is "" |
| Content.UnnamedLanguageUsesSettings | Extension/content.js:119 | when neither a selector nor the URL names a language, the page's language is "" and the file name takes the extension of the configured language, by `data.language \|\| settings.language` at background.js:47 |
| Content.SelectorLanguageIsLowerCase | Extension/content.js:103-109 | a language read from a selector is already lower case |
| Content.HandleAcceptedSubmission | Extension/content.js:32-87 | the message sent is the page's solution, with a non-empty title |
| Content.NotifyAccepted | Extension/content.js:12-17 | one call per notification that contains "Accepted" |
| Content.MutationCallback | Extension/content.js:4-27 | the calls of one mutation, up to the first node with a success indicator |
| Content.ObserverCallback | Extension/content.js:3-28 | `Fires(mutations)` sends, each one the page's solution |
| Content.MutationFires | Extension/content.js:6-26 | the calls one mutation makes, the nodes after the first with a success indicator skipped; stated by `Content.SuccessSkipsRest` and `Content.MutationFiresZero` |
| Content.Fires | Extension/content.js:3-28 | the calls of one observer callback, summed over its mutations; stated by `Content.FiresAppend` and `Content.FiresZero` |
| Content.FiresAppend | Extension/content.js:3-4 | handling two batches together fires as often as handling them apart |
| Content.SuccessSkipsRest | Extension/content.js:21-24 | nodes after the first with a success indicator make no difference |
| Content.MutationFiresZero | Extension/content.js:6-26 | a mutation fires nothing exactly when all its nodes are silent |
| Content.FiresZero | Extension/content.js:3-28 | the callback pushes nothing exactly when no added node has an accepted notification or a success indicator |
| Content.AcceptedWithSuccessIconFiresTwice | Extension/content.js:12-24 | one element with an accepted notification and a success icon pushes the solution twice |
| Palindrome.Pal | unknown_longest-palindromic-substring---leetcode.py:16 | the recurrence `s[j] == s[i] and (i - j <= 2 or opt[j+1][i-1])`; `Palindrome.PalSlice` states that it holds exactly for palindromes |
| Palindrome.PalSlice | unknown_longest-palindromic-substring---leetcode.py:16 | the recurrence holds exactly for the palindromic slices |
| Palindrome.LeftmostLongestUnique | unknown_longest-palindromic-substring---leetcode.py:13-20 | the leftmost longest palindrome is unique |
| Palindrome.SingleCharacter | unknown_longest-palindromic-substring---leetcode.py:14 | helper for line 14: each single character is a palindrome |
| Palindrome.BestStart | unknown_longest-palindromic-substring---leetcode.py:10-11 | `maxlen = 1, maxstr = s[0]` is the best before any pair is decided |
| Palindrome.BestKeep | unknown_longest-palindromic-substring---leetcode.py:18 | a palindrome that is not strictly longer keeps the best one |
| Palindrome.BestTake | unknown_longest-palindromic-substring---leetcode.py:18-20 | a strictly longer palindrome becomes the best one |
| Palindrome.BestNextColumn | unknown_longest-palindromic-substring---leetcode.py:13-14 | a finished column, with its single character, moves the invariant on to the next column |
| Palindrome.BestFinal | unknown_longest-palindromic-substring---leetcode.py:21 | after the last column the best is the leftmost longest palindrome |
| Palindrome.FillColumn | unknown_longest-palindromic-substring---leetcode.py:15-20 | after column `i`, `opt[a][b]` holds exactly for the palindromic `s[a..b]` with `b <= i`, and `maxstr` is `s[lo..lo+maxlen)` and the best so far |
| Palindrome.LongestPalindrome | unknown_longest-palindromic-substring---leetcode.py:2-21 | `s` itself when `len(s) <= 1`; otherwise the leftmost longest palindromic substring |
| Median.Merge | unknown_median-of-two-sorted-arrays---leetcode.py:36-41 | the merge is exactly as long as the two inputs together |
| Median.MergeMultiset | unknown_median-of-two-sorted-arrays---leetcode.py:36-41 | the merge is a permutation of the two inputs together |
| Median.MergeSorted | unknown_median-of-two-sorted-arrays---leetcode.py:36-41 | the merge of sorted inputs is sorted |
| Median.SortedUnique | unknown_median-of-two-sorted-arrays---leetcode.py:36-41 | a sorted sequence is determined by its elements |
| Median.MergeSymmetric | unknown_median-of-two-sorted-arrays---leetcode.py:15-19 | swapping the inputs does not change the merge |
| Median.PartnerInRange | unknown_median-of-two-sorted-arrays---leetcode.py:24-25 | for every `i` in `[-1, len(A)-1]`, `j = half - i - 2` lies in `[-1, len(B)-1]` |
| Median.RightCutExists | unknown_median-of-two-sorted-arrays---leetcode.py:36 | some cut at or below a cut that is not too small is right |
| Median.MergeLast | unknown_median-of-two-sorted-arrays---leetcode.py:41 | the last merged element is the larger of the two last elements |
| Median.MergeFirst | unknown_median-of-two-sorted-arrays---leetcode.py:39 | the first merged element is the smaller of the two first elements |
| Median.MergeCut | unknown_median-of-two-sorted-arrays---leetcode.py:36 | when both left parts are at most both right parts, the merge is the merge of the lefts followed by the merge of the rights |
| Median.RightCutSplit | unknown_median-of-two-sorted-arrays---leetcode.py:36 | at a right cut the merge splits into the merged left parts and the merged right parts |
| Median.RightCutFirst | unknown_median-of-two-sorted-arrays---leetcode.py:39 | at a right cut, `min(Aright, Bright)` is the merged element at index `i + j + 2` |
| Median.RightCutLast | unknown_median-of-two-sorted-arrays---leetcode.py:41 | at a right cut, `max(Aleft, Bleft)` is the merged element just before it |
| Median.MedianOf | unknown_median-of-two-sorted-arrays---leetcode.py:36-41 | the reference median of a non-empty sequence, its middle element or the mean of its two middle elements; for a sorted sequence it lies between the two middle elements |
| Median.MedianOdd | unknown_median-of-two-sorted-arrays---leetcode.py:38-39 | helper, one unfolding of `Median.MedianOf`: an odd-length sequence's median is its middle element |
| Median.MedianEven | unknown_median-of-two-sorted-arrays---leetcode.py:40-41 | helper, one unfolding of `Median.MedianOf`: an even-length sequence's median is the mean of its two middle elements |
| Median.RightCutMedian | unknown_median-of-two-sorted-arrays---leetcode.py:36-41 | at a right cut, the two return expressions are the median of the merged inputs |
| Median.SearchStep | unknown_median-of-two-sorted-arrays---leetcode.py:42-45 | `i` and `j` are in range, and whichever bound moves, the right cut stays in `[l - 1, r]` |
| Median.FindMedianSortedArrays | unknown_median-of-two-sorted-arrays---leetcode.py:2-45 | for sorted inputs with at least one element, the result is the median of their merge and the loop terminates |

## Left out

- Text.Lower: only ASCII letters are lower-cased. `toLowerCase` also maps other Unicode capitals, so a language name with such letters may find a table entry that the model misses.
- Naming.FileExtension: the table is a finite map. In JavaScript, `extensions[...]` also finds inherited keys such as "constructor", which give a non-string instead of "txt".
- Utf8.Encode: texts are sequences of Unicode scalar values. `encodeURIComponent` throws `URIError` on a lone surrogate, and the model has no such case.
- Median.FindMedianSortedArrays: the result is an exact `real`. The source returns an `int` in the odd case and a float in the even case, and the model ignores float rounding. Both arrays empty (a NaN in the source) is excluded by the precondition.
- Sync.Answer: a JSON body is reduced to its `message` and `sha` fields, and a non-string `message` is not modelled.
- Sync.NextReply: once the fixed replies are used up, every further request fails as a network failure "Failed to fetch".
- Sync: `chrome.runtime` message routing, `chrome.storage` reads (the settings are a parameter), the `chrome.tabs` delivery of notifications (they are returned as a sequence), `console` output and the scheduling of promises are not modelled. Two pushes never overlap in the model.
- Content: real selector matching is replaced by the query results. The toast `showNotification`, the observer's registration and `chrome.runtime.sendMessage` are left out; the sent messages are returned as a sequence.
- Content.HandleAcceptedSubmission: the `!code` test and each truthiness test on texts are modelled as comparisons with "".
- Extension/popup.js is not part of this model: it is a settings form.
