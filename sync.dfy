/**
 * The push of an accepted solution to GitHub (Extension/background.js,
 * `pushSolutionToGithub`, `checkFileExists`, `createFile`, `updateFile`).
 *
 * HTTP is an oracle: a `GitHubApi` object records every request the extension
 * sends and answers each one with the next reply of a sequence fixed in
 * advance. A reply is either a network failure (the promise of `fetch`
 * rejects) or a response with a status and a body, whose JSON is reduced to
 * the two fields the extension reads, `message` and `sha`.
 */
module Sync {
  import opened Wrappers
  import opened Naming
  import Payload
  import Base64
  import Utf8

  /** The stored settings; a missing one is the empty string, which is falsy like `undefined`. */
  datatype Settings = Settings(githubToken: string, repoOwner: string, repoName: string, language: string)

  /** The message the content script sends: `problemNumber` may be `undefined`. */
  datatype Solution = Solution(problemNumber: Option<string>, problemTitle: string, code: string, language: string)

  datatype Body =
    | Json(message: Option<string>, sha: Option<string>)
    | Unparsable(syntaxError: string)

  datatype Reply =
    | NetworkFailure(reason: string)
    | Response(status: nat, body: Body)

  datatype PutBody = PutBody(message: string, content: string, sha: Option<string>, branch: string)

  datatype Request =
    | Get(url: string, headers: seq<(string, string)>)
    | Put(url: string, headers: seq<(string, string)>, body: PutBody)

  datatype Severity = Info | Error

  /** A toast shown in the active tab by `showNotification`. */
  datatype Notice = Notice(message: string, severity: Severity)

  /** The records of requests and replies that stand for the network. */
  class GitHubApi {
    var sent: seq<Request>
    var pending: seq<Reply>

    constructor(replies: seq<Reply>)
      ensures sent == [] && pending == replies
    {
      sent := [];
      pending := replies;
    }

    /** `await fetch(request)`: the request is recorded and the next reply consumed. */
    method Fetch(request: Request) returns (reply: Reply)
      modifies this
      ensures sent == old(sent) + [request]
      ensures reply == NextReply(old(pending)) && pending == Drop(old(pending), 1)
    {
      sent := sent + [request];
      reply := NextReply(pending);
      pending := Drop(pending, 1);
    }
  }

  /** The reply to the next request; once the sequence is used up, the network fails as Chrome reports it. */
  function NextReply(replies: seq<Reply>): Reply
  {
    if replies == [] then NetworkFailure("Failed to fetch") else replies[0]
  }

  function Drop(replies: seq<Reply>, n: nat): seq<Reply>
  {
    if n >= |replies| then [] else replies[n..]
  }

  const ConfigurationMessage := "Please configure GitHub settings in the extension popup"
  const Branch := "main"

  /** Line 37: the token, owner and repository name must all be truthy. */
  predicate Configured(settings: Settings)
  {
    settings.githubToken != "" && settings.repoOwner != "" && settings.repoName != ""
  }

  function ContentsUrl(settings: Settings, fileName: string): string
  {
    "https://api.github.com/repos/" + settings.repoOwner + "/" + settings.repoName + "/contents/" + fileName
  }

  function ReadHeaders(settings: Settings): seq<(string, string)>
  {
    [("Authorization", "token " + settings.githubToken), ("Accept", "application/vnd.github.v3+json")]
  }

  function WriteHeaders(settings: Settings): seq<(string, string)>
  {
    ReadHeaders(settings) + [("Content-Type", "application/json")]
  }

  /** `response.ok`. */
  predicate IsOk(status: nat) { 200 <= status <= 299 }

  /** The decimal digits of a status code, as a template literal writes a number. */
  function Decimal(n: nat): (s: string)
    ensures s != [] && forall k :: 0 <= k < |s| ==> '0' <= s[k] <= '9'
  {
    if n < 10 then [('0' as int + n) as char] else Decimal(n / 10) + [('0' as int + n % 10) as char]
  }

  /** Reads a string of decimal digits back as a number. */
  function ParseDecimal(s: string): int
  {
    if s == [] then 0 else ParseDecimal(s[..|s| - 1]) * 10 + (s[|s| - 1] as int - '0' as int)
  }

  lemma {:induction false} ParseDecimalOfDecimal(n: nat)
    ensures ParseDecimal(Decimal(n)) == n
  {
    if n >= 10 {
      var s := Decimal(n);
      assert s[..|s| - 1] == Decimal(n / 10);
      ParseDecimalOfDecimal(n / 10);
    }
  }

  /**
   * What becomes of one reply once the extension has read it: the parsed body
   * when the status is ok, and otherwise the message of the error it throws:
   * the body's `message` when that is a non-empty string, else
   * "Failed to <action> (Status: <status>)". A rejected fetch and a body
   * that is not JSON throw their own errors, which pass through unchanged.
   */
  function Answer(reply: Reply, action: string): Result<Body, string>
  {
    match reply
    case NetworkFailure(reason) => Err(reason)
    case Response(status, Unparsable(syntaxError)) => Err(syntaxError)
    case Response(status, body) =>
      if IsOk(status) then Ok(body)
      else if body.message.Some? && body.message.value != "" then Err(body.message.value)
      else Err("Failed to " + action + " (Status: " + Decimal(status) + ")")
  }

  /** Only an ok response with a JSON body is a success. */
  lemma AnswerOk(reply: Reply, action: string)
    ensures Answer(reply, action).Ok? <==> reply.Response? && IsOk(reply.status) && reply.body.Json?
    ensures Answer(reply, action).Ok? ==> Answer(reply, action).value == reply.body
  {
  }

  /** Without a usable message, the error names the action and the status, which can be read back from it. */
  lemma FallbackMessage(status: nat, sha: Option<string>, action: string)
    requires !IsOk(status)
    ensures var e := Answer(Response(status, Json(None, sha)), action).error;
      var prefix := "Failed to " + action + " (Status: ";
      |e| > |prefix| && e[..|prefix|] == prefix && e[|e| - 1] == ')' &&
      ParseDecimal(e[|prefix|..|e| - 1]) == status
  {
    var prefix := "Failed to " + action + " (Status: ";
    var e := Answer(Response(status, Json(None, sha)), action).error;
    assert e == prefix + Decimal(status) + ")";
    assert e[|prefix|..|e| - 1] == Decimal(status);
    ParseDecimalOfDecimal(status);
  }

  /** The request of `checkFileExists`, which `updateFile` sends again to read the `sha`. */
  function ProbeRequest(settings: Settings, fileName: string): Request
  {
    Get(ContentsUrl(settings, fileName), ReadHeaders(settings))
  }

  /** Lines 128-131: the file exists exactly when the probe is answered with status 200. */
  predicate Found(reply: Reply)
  {
    reply.Response? && reply.status == 200
  }

  function CreateRequest(settings: Settings, fileName: string, code: string, commitMessage: string): Request
  {
    Put(ContentsUrl(settings, fileName), WriteHeaders(settings),
        PutBody(commitMessage, Payload.EncodeContent(code), None, Branch))
  }

  /** `sha: fileData.sha`: `JSON.stringify` leaves the field out when the file data has none. */
  function UpdateRequest(settings: Settings, fileName: string, code: string, commitMessage: string, sha: Option<string>): Request
  {
    Put(ContentsUrl(settings, fileName), WriteHeaders(settings),
        PutBody(commitMessage, Payload.EncodeContent(code), sha, Branch))
  }

  /** The requests one step sends, and what it returns or throws. */
  datatype Exchange = Exchange(requests: seq<Request>, result: Result<Body, string>)

  function CreateExchange(settings: Settings, fileName: string, code: string, commitMessage: string, replies: seq<Reply>): Exchange
  {
    Exchange([CreateRequest(settings, fileName, code, commitMessage)], Answer(NextReply(replies), "create file"))
  }

  function UpdateExchange(settings: Settings, fileName: string, code: string, commitMessage: string, replies: seq<Reply>): Exchange
  {
    match Answer(NextReply(replies), "get existing file")
    case Err(e) => Exchange([ProbeRequest(settings, fileName)], Err(e))
    case Ok(fileData) =>
      Exchange([ProbeRequest(settings, fileName), UpdateRequest(settings, fileName, code, commitMessage, fileData.sha)],
               Answer(NextReply(Drop(replies, 1)), "update file"))
  }

  /** Lines 114-133: one GET; a rejected fetch counts as "does not exist". */
  method CheckFileExists(api: GitHubApi, settings: Settings, fileName: string) returns (fileExists: bool)
    modifies api
    ensures api.sent == old(api.sent) + [ProbeRequest(settings, fileName)]
    ensures api.pending == Drop(old(api.pending), 1)
    ensures fileExists <==> Found(NextReply(old(api.pending)))
  {
    var response := api.Fetch(ProbeRequest(settings, fileName));
    fileExists := response.Response? && response.status == 200;
  }

  /** Lines 135-177: one PUT without `sha`. */
  method CreateFile(api: GitHubApi, settings: Settings, fileName: string, content: string, commitMessage: string)
    returns (result: Result<Body, string>)
    modifies api
    ensures var x := CreateExchange(settings, fileName, content, commitMessage, old(api.pending));
      api.sent == old(api.sent) + x.requests && result == x.result
    ensures api.pending == Drop(old(api.pending), 1)
  {
    var url := ContentsUrl(settings, fileName);
    var encodedContent := Payload.EncodeContent(content);
    var response := api.Fetch(Put(url, WriteHeaders(settings), PutBody(commitMessage, encodedContent, None, Branch)));
    result := Answer(response, "create file");
  }

  /** Lines 179-243: a GET for the current `sha`, then a PUT that carries it; a failed GET ends the update. */
  method UpdateFile(api: GitHubApi, settings: Settings, fileName: string, content: string, commitMessage: string)
    returns (result: Result<Body, string>)
    modifies api
    ensures var x := UpdateExchange(settings, fileName, content, commitMessage, old(api.pending));
      api.sent == old(api.sent) + x.requests && result == x.result &&
      api.pending == Drop(old(api.pending), |x.requests|)
  {
    var fileUrl := ContentsUrl(settings, fileName);
    var fileResponse := api.Fetch(Get(fileUrl, ReadHeaders(settings)));
    var fileData := Answer(fileResponse, "get existing file");
    if fileData.Err? {
      return Err(fileData.error);
    }
    var encodedContent := Payload.EncodeContent(content);
    var updateResponse := api.Fetch(Put(fileUrl, WriteHeaders(settings),
                                        PutBody(commitMessage, encodedContent, fileData.value.sha, Branch)));
    result := Answer(updateResponse, "update file");
    assert Drop(Drop(old(api.pending), 1), 1) == Drop(old(api.pending), 2);
  }

  /** The name of the file a solution is stored in (lines 47-52). */
  function SolutionFileName(settings: Settings, data: Solution): string
  {
    FileName(data.problemNumber, data.problemTitle, FileExtension(ChosenLanguage(data.language, settings.language)))
  }

  /** Everything one push does: its requests, its outcome and the notices it shows. */
  datatype Trace = Trace(requests: seq<Request>, outcome: Result<Body, string>, notices: seq<Notice>)

  /** The notice of line 74 or of line 79, by outcome. */
  function Report(fileName: string, outcome: Result<Body, string>): seq<Notice>
  {
    match outcome
    case Ok(_) => [Notice("Successfully pushed solution to GitHub: " + fileName, Info)]
    case Err(e) => [Notice("Error: " + e, Error)]
  }

  /** Lines 54-79, once the settings are known to be complete: probe, then update or create, then report. */
  function ConfiguredTrace(settings: Settings, fileName: string, commitMessage: string, code: string, replies: seq<Reply>): Trace
  {
    var x := if Found(NextReply(replies))
      then UpdateExchange(settings, fileName, code, commitMessage, Drop(replies, 1))
      else CreateExchange(settings, fileName, code, commitMessage, Drop(replies, 1));
    Trace([ProbeRequest(settings, fileName)] + x.requests, x.result, Report(fileName, x.result))
  }

  /** The push of lines 23-82 as a function of the settings, the solution and the replies to come. */
  function PushTrace(settings: Settings, data: Solution, replies: seq<Reply>): Trace
  {
    if !Configured(settings) then
      Trace([], Err(ConfigurationMessage), [Notice(ConfigurationMessage, Error), Notice("Error: " + ConfigurationMessage, Error)])
    else
      ConfiguredTrace(settings, SolutionFileName(settings, data), CommitMessage(data.problemNumber, data.problemTitle), data.code, replies)
  }

  /** Lines 58-79: the probe, the update or creation it selects, and the notice that reports the result. */
  method PushFile(api: GitHubApi, settings: Settings, fileName: string, commitMessage: string, code: string)
    returns (outcome: Result<Body, string>, notices: seq<Notice>)
    modifies api
    ensures var t := ConfiguredTrace(settings, fileName, commitMessage, code, old(api.pending));
      api.sent == old(api.sent) + t.requests && outcome == t.outcome && notices == t.notices &&
      api.pending == Drop(old(api.pending), |t.requests|)
  {
    ghost var replies := old(api.pending);
    var fileExists := CheckFileExists(api, settings, fileName);
    if fileExists {
      outcome := UpdateFile(api, settings, fileName, code, commitMessage);
    } else {
      outcome := CreateFile(api, settings, fileName, code, commitMessage);
    }
    if outcome.Ok? {
      notices := [Notice("Successfully pushed solution to GitHub: " + fileName, Info)];
    } else {
      notices := [Notice("Error: " + outcome.error, Error)];
    }
    DropDrop(replies, 1, |ConfiguredTrace(settings, fileName, commitMessage, code, replies).requests| - 1);
  }

  /** `pushSolutionToGithub`: the outcome is what the promise resolves to or rejects with. */
  method PushSolution(api: GitHubApi, settings: Settings, data: Solution) returns (outcome: Result<Body, string>, notices: seq<Notice>)
    modifies api
    ensures var t := PushTrace(settings, data, old(api.pending));
      api.sent == old(api.sent) + t.requests && outcome == t.outcome && notices == t.notices &&
      api.pending == Drop(old(api.pending), |t.requests|)
  {
    if !Configured(settings) {
      notices := [Notice(ConfigurationMessage, Error)];
      outcome := Err(ConfigurationMessage);
      notices := notices + [Notice("Error: " + ConfigurationMessage, Error)];
      return;
    }
    var fileExtension := FileExtension(ChosenLanguage(data.language, settings.language));
    var fileName := FileName(data.problemNumber, data.problemTitle, fileExtension);
    var commitMessage := CommitMessage(data.problemNumber, data.problemTitle);
    outcome, notices := PushFile(api, settings, fileName, commitMessage, data.code);
  }

  lemma DropDrop(replies: seq<Reply>, m: nat, n: nat)
    ensures Drop(Drop(replies, m), n) == Drop(replies, m + n)
  {
  }

  /** Without token, owner and repository name nothing is sent, and the push fails with the configuration message. */
  lemma PushUnconfigured(settings: Settings, data: Solution, replies: seq<Reply>)
    requires !Configured(settings)
    ensures var t := PushTrace(settings, data, replies);
      t.requests == [] && t.outcome == Err(ConfigurationMessage) &&
      forall k :: 0 <= k < |t.notices| ==> t.notices[k].severity == Error
  {
  }

  /** A configured push always starts with the probe of the file it is about to write. */
  lemma PushProbesFirst(settings: Settings, data: Solution, replies: seq<Reply>)
    requires Configured(settings)
    ensures var t := PushTrace(settings, data, replies);
      2 <= |t.requests| <= 3 && t.requests[0] == Get(ContentsUrl(settings, SolutionFileName(settings, data)), ReadHeaders(settings))
  {
  }

  /** A file the probe does not find is created with a single PUT that carries no `sha`. */
  lemma PushCreatesMissingFile(settings: Settings, data: Solution, replies: seq<Reply>)
    requires Configured(settings) && !Found(NextReply(replies))
    ensures var t := PushTrace(settings, data, replies);
      |t.requests| == 2 && t.requests[1].Put? && t.requests[1].body.sha.None? &&
      t.outcome == Answer(NextReply(Drop(replies, 1)), "create file")
  {
  }

  /**
   * A file the probe finds is read once more; only when that read succeeds is
   * it written, with the `sha` the read returned, and a failed read is the
   * outcome of the push.
   */
  lemma PushUpdatesFoundFile(settings: Settings, data: Solution, replies: seq<Reply>)
    requires Configured(settings) && Found(NextReply(replies))
    ensures var t := PushTrace(settings, data, replies);
      var read := Answer(NextReply(Drop(replies, 1)), "get existing file");
      t.requests[1] == t.requests[0] &&
      (read.Err? ==> |t.requests| == 2 && t.outcome == read) &&
      (read.Ok? ==> |t.requests| == 3 && t.requests[2].Put? && t.requests[2].body.sha == read.value.sha &&
                    t.outcome == Answer(NextReply(Drop(replies, 2)), "update file"))
  {
    DropDrop(replies, 1, 1);
  }

  /**
   * Every PUT goes to the file's contents URL on branch `main`, with the commit
   * message, and with content that decodes to the normalised code.
   */
  lemma PushWrites(settings: Settings, data: Solution, replies: seq<Reply>, k: nat)
    requires var t := PushTrace(settings, data, replies); k < |t.requests| && t.requests[k].Put?
    ensures var r := PushTrace(settings, data, replies).requests[k];
      var bytes := Base64.Decode(r.body.content);
      r.url == ContentsUrl(settings, SolutionFileName(settings, data)) && r.headers == WriteHeaders(settings) &&
      r.body.branch == "main" && r.body.message == CommitMessage(data.problemNumber, data.problemTitle) &&
      bytes.Some? && Utf8.Decode(bytes.value) == Some(Payload.NormalizeLineEndings(data.code))
  {
  }

  /** Exactly one notice reports the outcome, and it comes last. */
  lemma PushReports(settings: Settings, data: Solution, replies: seq<Reply>)
    ensures var t := PushTrace(settings, data, replies);
      t.notices != [] &&
      (t.outcome.Ok? <==> t.notices[|t.notices| - 1].severity == Info) &&
      (t.outcome.Err? ==> t.notices[|t.notices| - 1].message == "Error: " + t.outcome.error)
  {
  }
}
