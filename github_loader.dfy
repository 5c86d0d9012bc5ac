/** The repository-ingestion helpers of src/lib/github-loader.ts: the GitHub URL
    parser, the rules `loadGithubRepo` applies around its network calls, the
    file filter, and the embedding and indexing loops. The GitHub API, the
    repository loader, the model and the database are function parameters. */
module GithubLoader {
  import opened Common
  import opened Strings
  import opened Retry
  import opened Gemini

  // ---- parseGithubUrl ----

  /** The owner and repository name read from a URL. */
  datatype RepoRef = RepoRef(owner: string, repo: string)

  /** `s.replace(/suffix$/, "")`: one occurrence at the very end is removed. */
  function StripSuffix(s: string, suffix: string): (r: string)
    ensures EndsWith(s, suffix) ==> r + suffix == s
    ensures !EndsWith(s, suffix) ==> r == s
  {
    if EndsWith(s, suffix) then s[..|s| - |suffix|] else s
  }

  /** The URL after `.trim()`, then one trailing `/` and then one trailing `.git`
      removed. */
  function CleanUrl(url: string): string
  {
    StripSuffix(StripSuffix(Trim(url), "/"), ".git")
  }

  function Host(): string
  {
    "github.com/"
  }

  /** The end of the run of characters other than `/` that starts at `from`. */
  function SegmentEnd(s: string, from: nat): (e: nat)
    requires from <= |s|
    decreases |s| - from
    ensures from <= e <= |s|
    ensures forall k :: from <= k < e ==> s[k] != '/'
    ensures e < |s| ==> s[e] == '/'
  {
    if from < |s| && s[from] != '/' then SegmentEnd(s, from + 1) else from
  }

  /** The groups of `/github\.com\/([^\/]+)\/([^\/]+)/` when a match starts at
      `p`. Each group is a greedy run of non-`/` characters; the first must be
      followed by `/`, and a shorter run would be followed by another non-`/`
      character, so the match exists exactly when both whole runs are
      non-empty and a `/` separates them. */
  function RepoMatchAt(s: string, p: nat): (r: Option<RepoRef>)
    ensures r.Some? ==> r.value.owner != "" && r.value.repo != "" && NoSlash(r.value.owner) && NoSlash(r.value.repo)
  {
    if !(p + |Host()| <= |s| && MatchesFrom(s, Host(), p, 0)) then None
    else
      var a := p + |Host()|;
      var b := SegmentEnd(s, a);
      if a < b < |s| then
        var c := SegmentEnd(s, b + 1);
        if b + 1 < c then Some(RepoRef(s[a..b], s[b + 1..c])) else None
      else None
  }

  /** What a match at `p` found is written there, host first. */
  lemma RepoMatchOccurs(s: string, p: nat)
    requires RepoMatchAt(s, p).Some?
    ensures OccursAt(s, Host() + RepoMatchAt(s, p).value.owner + "/" + RepoMatchAt(s, p).value.repo, p)
  {
    var a := p + |Host()|;
    var b := SegmentEnd(s, a);
    var c := SegmentEnd(s, b + 1);
    var m := RepoMatchAt(s, p).value;
    MatchesOccurs(s, Host(), p);
    assert s[p..a] == Host();
    assert m.owner == s[a..b] && m.repo == s[b + 1..c];
    assert s[b..b + 1] == "/";
    SlicesJoin(s, p, a, b, c);
    assert |Host() + m.owner + "/" + m.repo| == c - p;
  }

  /** Four adjacent slices, the third one character long, make up the slice
      that covers them. */
  lemma SlicesJoin(s: string, p: nat, a: nat, b: nat, c: nat)
    requires p <= a <= b < c <= |s|
    ensures s[p..c] == s[p..a] + s[a..b] + s[b..b + 1] + s[b + 1..c]
  {
  }

  /** The leftmost match at or after `from`. */
  function FirstRepoMatch(s: string, from: nat): (r: Option<RepoRef>)
    decreases |s| - from
    ensures r.Some? ==> r.value.owner != "" && r.value.repo != "" && NoSlash(r.value.owner) && NoSlash(r.value.repo)
  {
    if from >= |s| then None
    else if RepoMatchAt(s, from).Some? then RepoMatchAt(s, from)
    else FirstRepoMatch(s, from + 1)
  }

  /** Nothing is found exactly when no position from `from` on holds a match. */
  lemma {:induction false} FirstRepoMatchNone(s: string, from: nat)
    ensures FirstRepoMatch(s, from).None? <==> forall p :: from <= p ==> RepoMatchAt(s, p).None?
    decreases |s| - from
  {
    if from < |s| {
      FirstRepoMatchNone(s, from + 1);
      var here := RepoMatchAt(s, from);
      assert FirstRepoMatch(s, from) == if here.Some? then here else FirstRepoMatch(s, from + 1);
      if FirstRepoMatch(s, from).None? {
        forall p | from <= p
          ensures RepoMatchAt(s, p).None?
        {
          if p > from {
            assert from + 1 <= p;
          }
        }
      }
      if forall p :: from <= p ==> RepoMatchAt(s, p).None? {
        assert here.None?;
      }
    } else {
      forall p | from <= p
        ensures RepoMatchAt(s, p).None?
      {
        RepoMatchPastEnd(s, p);
      }
    }
  }

  /** No match starts at or after the end of the text. */
  lemma RepoMatchPastEnd(s: string, p: nat)
    requires |s| <= p
    ensures RepoMatchAt(s, p).None?
  {
    assert |Host()| > 0;
  }

  /** What is found is the match at some position from `from` on. */
  lemma {:induction false} FirstRepoMatchFound(s: string, from: nat)
    requires FirstRepoMatch(s, from).Some?
    ensures exists p :: from <= p && RepoMatchAt(s, p) == FirstRepoMatch(s, from)
    decreases |s| - from
  {
    if RepoMatchAt(s, from).None? {
      FirstRepoMatchFound(s, from + 1);
    }
  }

  /** The first position holding a match is the one found. */
  lemma {:induction false} FirstRepoMatchAt(s: string, from: nat, q: nat)
    requires from <= q && RepoMatchAt(s, q).Some?
    requires forall p :: from <= p < q ==> RepoMatchAt(s, p).None?
    ensures FirstRepoMatch(s, from) == RepoMatchAt(s, q)
    decreases q - from
  {
    if from < q {
      FirstRepoMatchAt(s, from + 1, q);
    }
  }

  function InvalidUrl(url: string): string
  {
    "Invalid GitHub URL format: " + url
  }

  /** `parseGithubUrl`: the owner and name of the first `github.com/<owner>/<repo>`
      in the cleaned URL, or the "Invalid GitHub URL format" error. */
  function ParseGithubUrl(url: string): (r: Result<RepoRef>)
    ensures r.Ok? ==> r.value.owner != "" && r.value.repo != "" && NoSlash(r.value.owner) && NoSlash(r.value.repo)
    ensures r.Err? ==> r.message == InvalidUrl(url)
  {
    match FirstRepoMatch(CleanUrl(url), 0)
    case None => Err(InvalidUrl(url))
    case Some(m) => if m.owner == "" || m.repo == "" then Err(InvalidUrl(url)) else Ok(m)
  }

  /** The URL is rejected exactly when its cleaned form holds no match; what is
      accepted is written in the cleaned URL as `github.com/<owner>/<repo>`. */
  lemma ParseGithubUrlSpec(url: string)
    ensures ParseGithubUrl(url).Err? <==> forall p :: RepoMatchAt(CleanUrl(url), p).None?
    ensures ParseGithubUrl(url).Ok? ==>
      exists p :: OccursAt(CleanUrl(url), Host() + ParseGithubUrl(url).value.owner + "/" + ParseGithubUrl(url).value.repo, p)
  {
    FirstRepoMatchNone(CleanUrl(url), 0);
    if ParseGithubUrl(url).Ok? {
      FirstRepoMatchFound(CleanUrl(url), 0);
      var p :| 0 <= p && RepoMatchAt(CleanUrl(url), p) == FirstRepoMatch(CleanUrl(url), 0);
      RepoMatchOccurs(CleanUrl(url), p);
    }
  }

  /** The address of a repository as its page shows it. */
  function CanonicalUrl(owner: string, repo: string): string
  {
    "https://" + Host() + owner + "/" + repo
  }

  /** A well-formed owner and repository name. */
  predicate ValidName(owner: string, repo: string)
  {
    && owner != "" && repo != "" && NoSlash(owner) && NoSlash(repo)
    && !IsWhitespace(repo[|repo| - 1]) && !EndsWith(repo, ".git")
  }

  lemma CanonicalEnds(owner: string, repo: string)
    requires ValidName(owner, repo)
    ensures !EndsWith(CanonicalUrl(owner, repo), "/") && !EndsWith(CanonicalUrl(owner, repo), ".git")
  {
    var core := CanonicalUrl(owner, repo);
    assert core[|core| - 1] == repo[|repo| - 1];
    if |repo| >= 4 {
      assert core[|core| - 4..] == repo[|repo| - 4..];
    } else {
      var k := |Host()| + 8 + |owner| - (|core| - 4);
      assert core[|core| - 4..][k] == '/' && ".git"[k] != '/';
    }
  }

  lemma CanonicalTrimmed(owner: string, repo: string, suffix: string)
    requires ValidName(owner, repo)
    requires suffix == "" || suffix == "/" || suffix == ".git" || suffix == ".git/"
    ensures Trim(CanonicalUrl(owner, repo) + suffix) == CanonicalUrl(owner, repo) + suffix
  {
    var url := CanonicalUrl(owner, repo) + suffix;
    assert url[0] == 'h';
    assert !IsWhitespace(url[|url| - 1]);
    TrimPadded("", url, "");
    assert "" + url + "" == url;
  }

  /** Cleaning removes exactly the optional `/` and `.git` endings. */
  lemma CanonicalClean(owner: string, repo: string, suffix: string)
    requires ValidName(owner, repo)
    requires suffix == "" || suffix == "/" || suffix == ".git" || suffix == ".git/"
    ensures CleanUrl(CanonicalUrl(owner, repo) + suffix) == CanonicalUrl(owner, repo)
  {
    var core := CanonicalUrl(owner, repo);
    var url := core + suffix;
    CanonicalEnds(owner, repo);
    CanonicalTrimmed(owner, repo, suffix);
    if suffix == ".git/" {
      assert StripSuffix(url, "/") == core + ".git";
    } else if suffix == "/" {
      assert StripSuffix(url, "/") == core;
    } else {
      assert StripSuffix(url, "/") == url;
    }
  }

  /** The first match in a repository address is its owner and name. */
  lemma CanonicalMatch(owner: string, repo: string)
    requires ValidName(owner, repo)
    ensures FirstRepoMatch(CanonicalUrl(owner, repo), 0) == Some(RepoRef(owner, repo))
  {
    var core := CanonicalUrl(owner, repo);
    var a := 8 + |Host()|;
    var b := a + |owner|;
    var c := b + 1 + |repo|;
    assert core[8..a] == Host();
    MatchesOccurs(core, Host(), 8);
    assert core[a..b] == owner && core[b] == '/' && core[b + 1..c] == repo;
    SegmentEndAt(core, a, b);
    SegmentEndAt(core, b + 1, c);
    assert RepoMatchAt(core, 8) == Some(RepoRef(owner, repo));
    forall p | 0 <= p < 8
      ensures RepoMatchAt(core, p).None?
    {
      assert core[p] != 'g';
      if p + |Host()| <= |core| {
        MatchesFromSpec(core, Host(), p, 0);
      }
    }
    FirstRepoMatchAt(core, 0, 8);
  }

  /** The URL the repository page shows, with or without a trailing `/` and a
      `.git` suffix, gives back its owner and name. */
  lemma ParseCanonicalUrl(owner: string, repo: string, suffix: string)
    requires ValidName(owner, repo)
    requires suffix == "" || suffix == "/" || suffix == ".git" || suffix == ".git/"
    ensures ParseGithubUrl(CanonicalUrl(owner, repo) + suffix) == Ok(RepoRef(owner, repo))
  {
    CanonicalClean(owner, repo, suffix);
    CanonicalMatch(owner, repo);
  }

  lemma {:induction false} SegmentEndAt(s: string, from: nat, stop: nat)
    requires from <= stop <= |s|
    requires forall k :: from <= k < stop ==> s[k] != '/'
    requires stop == |s| || s[stop] == '/'
    ensures SegmentEnd(s, from) == stop
    decreases stop - from
  {
    if from < stop {
      SegmentEndAt(s, from + 1, stop);
    }
  }

  // ---- loadGithubRepo ----

  /** What `verifyGithubRepo` reports about a repository; an empty
      `defaultBranch` stands for a missing one. */
  datatype RepoInfo = RepoInfo(isPrivate: bool, defaultBranch: string)

  /** The calls the ingestion makes to services it cannot see, as functions
      of their arguments (the empty string stands for a missing token):
      `verify` is `verifyGithubRepo(owner, repo, token)`; `load` is
      `GithubRepoLoader(url, token, branch).load()`; `generate` answers a
      `summariseCode` request; `embed(summary, k)` is call number `k` of
      `generateEmbedding(summary)`; `store` is the `createMany` and `findMany`
      pair, giving the stored rows of a project; `update` is the raw vector
      update of one row, true when it does not throw. */
  datatype Services = Services(
    envToken: string,
    verify: (RepoRef, string) -> Result<RepoInfo>,
    load: (string, string, string) -> Result<seq<Document>>,
    generate: CodeRequest -> Reply,
    embed: (string, nat) -> Result<seq<real>>,
    store: (string, seq<Embedded>) -> Result<seq<DbRecord>>,
    update: (DbRecord, seq<real>) -> bool)

  /** The errors `loadGithubRepo` and `indexGithubRepo` throw: the four
      messages of their own, and `Thrown` for an error passed on unchanged. */
  datatype Failure =
    | InvalidUrlFormat(url: string)
    | PrivateWithoutToken
    | RepoNotFound(branch: string)
    | AuthenticationFailed
    | AccessForbidden
    | Thrown(message: string)

  /** The message of each error. */
  function Message(f: Failure): string
  {
    match f
    case InvalidUrlFormat(url) => InvalidUrl(url)
    case PrivateWithoutToken =>
      "This is a private repository but no GitHub token was provided. Please provide a valid GitHub token with repo access."
    case RepoNotFound(branch) =>
      "Repository not found or branch \"" + branch + "\" doesn't exist. Please check the URL and ensure the repository is accessible."
    case AuthenticationFailed => "Authentication failed. Please provide a valid GitHub token with repo access."
    case AccessForbidden =>
      "Access forbidden. This could be due to rate limiting or insufficient permissions. Ensure your GitHub token has the necessary scopes (repo for private repos)."
    case Thrown(m) => m
  }

  /** A value, or the error thrown instead. */
  datatype Outcome<+T> = Done(value: T) | Failed(failure: Failure)

  /** `githubToken || process.env.GITHUB_TOKEN`. */
  function TokenOf(githubToken: string, envToken: string): (t: string)
    ensures t == "" <==> githubToken == "" && envToken == ""
  {
    if githubToken != "" then githubToken else envToken
  }

  /** `repoInfo.defaultBranch || "main"`. */
  function BranchOf(info: RepoInfo): (b: string)
    ensures b != ""
  {
    if info.defaultBranch != "" then info.defaultBranch else "main"
  }

  /** The error `loadGithubRepo` throws when the loader throws `message`: the
      status codes are looked for in the order 404, 401, 403, and any other
      message is rethrown unchanged. */
  function LoadError(message: string, branch: string): (f: Failure)
    ensures Contains(message, "404") ==> f == RepoNotFound(branch)
    ensures !Contains(message, "404") && Contains(message, "401") ==> f == AuthenticationFailed
    ensures !Contains(message, "404") && !Contains(message, "401") && Contains(message, "403") ==> f == AccessForbidden
    ensures !Contains(message, "404") && !Contains(message, "401") && !Contains(message, "403") ==> f == Thrown(message)
  {
    if Contains(message, "404") then RepoNotFound(branch)
    else if Contains(message, "401") then AuthenticationFailed
    else if Contains(message, "403") then AccessForbidden
    else Thrown(message)
  }

  /** `loadGithubRepo(url, githubToken)`. */
  function LoadGithubRepo(url: string, githubToken: string, env: Services): (r: Outcome<seq<Document>>)
  {
    match ParseGithubUrl(url)
    case Err(_) => Failed(InvalidUrlFormat(url))
    case Ok(ref) =>
      var token := TokenOf(githubToken, env.envToken);
      match env.verify(ref, token)
      case Err(m) => Failed(Thrown(m))
      case Ok(info) =>
        if info.isPrivate && token == "" then Failed(PrivateWithoutToken)
        else
          var branch := BranchOf(info);
          match env.load(url, token, branch)
          case Ok(docs) => Done(docs)
          case Err(m) => Failed(LoadError(m, branch))
  }

  /** The rules around the two network calls: a bad URL, or a failing check of
      the repository, stops before anything is loaded; a private repository
      needs a token; the loader is asked for the default branch, or "main"
      when there is none, and what it returns is passed on. */
  lemma LoadGithubRepoRules(url: string, githubToken: string, env: Services)
    ensures ParseGithubUrl(url).Err? ==> LoadGithubRepo(url, githubToken, env) == Failed(InvalidUrlFormat(url))
    ensures ParseGithubUrl(url).Ok? && env.verify(ParseGithubUrl(url).value, TokenOf(githubToken, env.envToken)).Err? ==>
      LoadGithubRepo(url, githubToken, env) == Failed(Thrown(env.verify(ParseGithubUrl(url).value, TokenOf(githubToken, env.envToken)).message))
    ensures LoadGithubRepo(url, githubToken, env).Done? ==>
      exists info :: env.verify(ParseGithubUrl(url).value, TokenOf(githubToken, env.envToken)) == Ok(info)
        && (info.isPrivate ==> TokenOf(githubToken, env.envToken) != "")
        && env.load(url, TokenOf(githubToken, env.envToken), BranchOf(info)) == Ok(LoadGithubRepo(url, githubToken, env).value)
  {
  }

  /** A private repository without any token is refused whatever its branch. */
  lemma PrivateRepoNeedsToken(url: string, env: Services, info: RepoInfo)
    requires ParseGithubUrl(url).Ok? && env.envToken == ""
    requires env.verify(ParseGithubUrl(url).value, "") == Ok(info) && info.isPrivate
    ensures LoadGithubRepo(url, "", env) == Failed(PrivateWithoutToken)
  {
  }

  // ---- shouldProcessFile ----

  /** One skip pattern of `shouldProcessFile`: a RegExp anchored at the end
      (`EndsIn`) or not anchored at all (`Holds`), whose text has no
      metacharacters once its escapes are read. */
  datatype Pattern = EndsIn(text: string) | Holds(text: string)

  predicate MatchesPattern(p: Pattern, path: string)
  {
    match p
    case EndsIn(t) => EndsWith(path, t)
    case Holds(t) => Contains(path, t)
  }

  const PatternCount: nat := 19

  /** The skip patterns, in the order of the source's array. */
  function SkipPattern(k: nat): Pattern
    requires k < PatternCount
  {
    if k == 0 then EndsIn(".env")
    else if k == 1 then Holds(".env.")
    else if k == 2 then Holds("node_modules/")
    else if k == 3 then Holds(".min.")
    else if k == 4 then Holds(".bundle.")
    else if k == 5 then Holds("package-lock")
    else if k == 6 then Holds("yarn.lock")
    else if k == 7 then Holds("pnpm-lock")
    else if k == 8 then Holds("bun.lock")
    else if k == 9 then Holds(".generated.")
    else if k == 10 then Holds("prisma/client")
    else if k == 11 then Holds("@prisma/client")
    else if k == 12 then EndsIn(".wasm")
    else if k == 13 then EndsIn(".dll")
    else if k == 14 then EndsIn(".node")
    else if k == 15 then EndsIn(".dylib")
    else if k == 16 then EndsIn(".so")
    else if k == 17 then EndsIn(".exe")
    else EndsIn(".bin")
  }

  /** `skipPatterns.some(pattern => pattern.test(path))` from pattern `k` on. */
  predicate SkippedFrom(path: string, k: nat)
    decreases PatternCount - k
  {
    k < PatternCount && (MatchesPattern(SkipPattern(k), path) || SkippedFrom(path, k + 1))
  }

  lemma {:induction false} SkippedFromSpec(path: string, k: nat)
    ensures SkippedFrom(path, k) <==> exists j :: k <= j < PatternCount && MatchesPattern(SkipPattern(j), path)
    decreases PatternCount - k
  {
    if k < PatternCount {
      SkippedFromSpec(path, k + 1);
    }
  }

  /** Some skip pattern matches the lower-cased path. */
  predicate Skipped(path: string)
  {
    SkippedFrom(path, 0)
  }

  /** `shouldProcessFile(doc)` for a document whose source path is `source`
      (a missing source is the empty string). */
  predicate ShouldProcessFile(source: string)
  {
    !Skipped(Lower(source))
  }

  /** The verdict does not depend on letter case. */
  lemma ShouldProcessIgnoresCase(source: string)
    ensures ShouldProcessFile(Lower(source)) == ShouldProcessFile(source)
  {
    LowerIdempotent(source);
  }

  /** A document without a source path is processed. */
  lemma MissingSourceProcessed()
    ensures ShouldProcessFile("")
  {
    assert Lower("") == "";
    SkippedFromSpec("", 0);
    forall j | 0 <= j < PatternCount
      ensures !MatchesPattern(SkipPattern(j), "")
    {
      var t := SkipPattern(j).text;
      assert |t| > 0;
      ContainsSpec("", t);
    }
  }

  // ---- generateEmbeddings ----

  const BatchSize: nat := 5

  const BatchDelayMs: nat := 4000

  /** One entry of the array `generateEmbeddings` returns. */
  datatype Embedded = Embedded(summary: string, embedding: seq<real>, sourceCode: string, fileName: string)

  /** `doc.metadata.source || "unknown"`. */
  function FileNameOf(doc: Document): (r: string)
    ensures r != ""
  {
    if doc.source == "" then "unknown" else doc.source
  }

  /** The operation `withRetry` wraps for the summary. */
  function SummaryOp(doc: Document, generate: CodeRequest -> Reply): nat -> Result<string>
  {
    _ => Ok(SummariseCode(doc, generate))
  }

  /** The operation `withRetry` wraps for the embedding. */
  function EmbedOp(summary: string, embed: (string, nat) -> Result<seq<real>>): nat -> Result<seq<real>>
  {
    (k: nat) => embed(summary, k)
  }

  /** What the batch callback yields for one document: nothing when the
      summary is null or blank or the embedding is null. */
  function Process(doc: Document, env: Services): Option<Embedded>
  {
    match Run(SummaryOp(doc, env.generate), 3, IsThrottleLoader).result
    case None => None
    case Some(summary) =>
      if |Trim(summary)| == 0 then None
      else
        match Run(EmbedOp(summary, env.embed), 3, IsThrottleLoader).result
        case None => None
        case Some(e) => Some(Embedded(summary, e, doc.pageContent, FileNameOf(doc)))
  }

  /** `summariseCode` never throws, so its retry wrapper calls it once and the
      document is kept exactly when its summary is not blank and its embedding
      is obtained. */
  lemma ProcessSpec(doc: Document, env: Services)
    ensures Process(doc, env).Some? <==>
      |Trim(SummariseCode(doc, env.generate))| > 0
      && Run(EmbedOp(SummariseCode(doc, env.generate), env.embed), 3, IsThrottleLoader).result.Some?
    ensures Process(doc, env).Some? ==>
      Process(doc, env).value == Embedded(SummariseCode(doc, env.generate),
                                          Run(EmbedOp(SummariseCode(doc, env.generate), env.embed), 3, IsThrottleLoader).result.value,
                                          doc.pageContent, FileNameOf(doc))
  {
    NeverThrowingCalledOnce(SummaryOp(doc, env.generate), 3, IsThrottleLoader);
  }

  /** One call of the batch callback. */
  method ProcessDocument(doc: Document, env: Services) returns (r: Option<Embedded>)
    ensures r == Process(doc, env)
  {
    var summary, _, _ := WithRetry(SummaryOp(doc, env.generate), 3, IsThrottleLoader);
    if summary.None? || |Trim(summary.value)| == 0 {
      return None;
    }
    var embedding, _, _ := WithRetry(EmbedOp(summary.value, env.embed), 3, IsThrottleLoader);
    if embedding.None? {
      return None;
    }
    return Some(Embedded(summary.value, embedding.value, doc.pageContent, FileNameOf(doc)));
  }

  /** `docs.filter(shouldProcessFile)`. */
  function FilterDocs(docs: seq<Document>): (r: seq<Document>)
    ensures |r| <= |docs|
    ensures forall d :: d in r <==> d in docs && ShouldProcessFile(d.source)
  {
    if docs == [] then []
    else (if ShouldProcessFile(docs[0].source) then [docs[0]] else []) + FilterDocs(docs[1..])
  }

  /** A single document is kept exactly when it passes the test. */
  lemma FilterDocsSingle(d: Document)
    ensures FilterDocs([d]) == if ShouldProcessFile(d.source) then [d] else []
  {
    assert [d][1..] == [];
  }

  /** Filtering distributes over concatenation, so the kept documents stay in
      input order and keep their repetitions. */
  lemma {:induction false} FilterDocsAppend(a: seq<Document>, b: seq<Document>)
    ensures FilterDocs(a + b) == FilterDocs(a) + FilterDocs(b)
    decreases |a|
  {
    if a == [] {
      assert a + b == b;
    } else {
      HeadTailAppend(a, b);
      FilterDocsAppend(a[1..], b);
      var head := if ShouldProcessFile(a[0].source) then [a[0]] else [];
      ConcatAssoc(head, FilterDocs(a[1..]), FilterDocs(b));
    }
  }

  /** `results.filter(result => result !== null)`. */
  function Kept(results: seq<Option<Embedded>>): (r: seq<Embedded>)
  {
    if results == [] then []
    else (if results[0].Some? then [results[0].value] else []) + Kept(results[1..])
  }

  lemma {:induction false} KeptAppend(a: seq<Option<Embedded>>, b: seq<Option<Embedded>>)
    ensures Kept(a + b) == Kept(a) + Kept(b)
  {
    if a != [] {
      assert (a + b)[0] == a[0] && (a + b)[1..] == a[1..] + b;
      KeptAppend(a[1..], b);
    } else {
      assert a + b == b;
    }
  }

  /** The kept entries are the present results, in order: no more of them than
      results, and each one is a result. */
  lemma {:induction false} KeptSpec(results: seq<Option<Embedded>>)
    ensures |Kept(results)| <= |results|
    ensures forall e :: e in Kept(results) <==> Some(e) in results
  {
    if results != [] {
      KeptSpec(results[1..]);
      assert results == [results[0]] + results[1..];
    }
  }

  /** What the batch callbacks yield for `docs`, in order. */
  function Outcomes(docs: seq<Document>, env: Services): (r: seq<Option<Embedded>>)
    ensures |r| == |docs|
    ensures forall k :: 0 <= k < |docs| ==> r[k] == Process(docs[k], env)
  {
    seq(|docs|, k requires 0 <= k < |docs| => Process(docs[k], env))
  }

  /** What `generateEmbeddings(docs)` returns. */
  function Embeddings(docs: seq<Document>, env: Services): seq<Embedded>
  {
    Kept(Outcomes(FilterDocs(docs), env))
  }

  /** Every returned entry comes from a document that passed the filter and
      has a non-blank summary, and there are no more entries than such
      documents. */
  lemma EmbeddingsSpec(docs: seq<Document>, env: Services)
    ensures |Embeddings(docs, env)| <= |FilterDocs(docs)|
    ensures forall e :: e in Embeddings(docs, env) ==>
      |Trim(e.summary)| > 0 && exists d :: d in docs && ShouldProcessFile(d.source) && Process(d, env) == Some(e)
  {
    var outs := Outcomes(FilterDocs(docs), env);
    KeptSpec(outs);
    forall e | e in Embeddings(docs, env)
      ensures |Trim(e.summary)| > 0 && exists d :: d in docs && ShouldProcessFile(d.source) && Process(d, env) == Some(e)
    {
      var k :| 0 <= k < |outs| && outs[k] == Some(e);
      var d := FilterDocs(docs)[k];
      assert d in FilterDocs(docs);
      ProcessSpec(d, env);
    }
  }

  /** The number of batches of five needed for `n` items, `Math.ceil(n / 5)`. */
  function BatchCount(n: nat): nat
  {
    (n + BatchSize - 1) / BatchSize
  }

  /** One batch: its callbacks in order (the model runs them one after the
      other; `Promise.all` keeps their order in its result). */
  method RunBatch(batch: seq<Document>, env: Services) returns (results: seq<Option<Embedded>>)
    ensures results == Outcomes(batch, env)
  {
    results := [];
    var idx := 0;
    while idx < |batch|
      invariant 0 <= idx <= |batch|
      invariant results == Outcomes(batch[..idx], env)
    {
      var r := ProcessDocument(batch[idx], env);
      results := results + [r];
      idx := idx + 1;
    }
    assert batch[..idx] == batch;
  }

  /** `generateEmbeddings(docs)`: the filtered documents in consecutive batches
      of five, the entries of each batch that did not fail appended in order,
      and a wait of 4000 ms after every batch but the last. */
  method GenerateEmbeddings(docs: seq<Document>, env: Services) returns (embeddings: seq<Embedded>, waits: seq<nat>)
    ensures embeddings == Embeddings(docs, env)
    ensures |waits| == if FilterDocs(docs) == [] then 0 else BatchCount(|FilterDocs(docs)|) - 1
    ensures forall w :: w in waits ==> w == BatchDelayMs
  {
    var filtered := FilterDocs(docs);
    if |filtered| == 0 {
      return [], [];
    }
    embeddings, waits := EmbedInBatches(filtered, env);
  }

  /** The batch loop of `generateEmbeddings` over the non-empty list of
      documents that passed the filter. */
  method EmbedInBatches(filtered: seq<Document>, env: Services) returns (embeddings: seq<Embedded>, waits: seq<nat>)
    requires |filtered| > 0
    ensures embeddings == Kept(Outcomes(filtered, env))
    ensures |waits| == BatchCount(|filtered|) - 1
    ensures forall w :: w in waits ==> w == BatchDelayMs
  {
    embeddings := [];
    waits := [];
    var i := 0;
    ghost var done := 0;
    ghost var outs := Outcomes(filtered, env);
    while i < |filtered|
      invariant i == 5 * done && i < |filtered| + 5
      invariant embeddings == Kept(outs[..Min(i, |filtered|)])
      invariant |waits| == if i < |filtered| then done else done - 1
      invariant forall w :: w in waits ==> w == BatchDelayMs
    {
      var end := Min(i + BatchSize, |filtered|);
      var batch := filtered[i..end];
      var results := RunBatch(batch, env);
      BatchStep(filtered, i, end, env);
      embeddings := embeddings + Kept(results);
      if i + BatchSize < |filtered| {
        waits := waits + [BatchDelayMs];
      }
      i := i + BatchSize;
      done := done + 1;
    }
    assert outs[..Min(i, |filtered|)] == outs;
    BatchCountOf(|filtered|, done);
  }

  /** `n` items fill `done` batches when they need more than `done - 1` full
      ones and no more than `done`. */
  lemma BatchCountOf(n: nat, done: nat)
    requires BatchSize * done - BatchSize < n <= BatchSize * done
    ensures BatchCount(n) == done
  {
  }

  /** Appending the entries of the batch `[i, end)` extends the entries of the
      documents before it. */
  lemma BatchStep(filtered: seq<Document>, i: nat, end: nat, env: Services)
    requires i <= end <= |filtered|
    ensures var outs := Outcomes(filtered, env);
      Kept(outs[..end]) == Kept(outs[..Min(i, |filtered|)]) + Kept(Outcomes(filtered[i..end], env))
  {
    var outs := Outcomes(filtered, env);
    assert Min(i, |filtered|) == i;
    assert Outcomes(filtered[i..end], env) == outs[i..end];
    assert outs[..end] == outs[..i] + outs[i..end];
    KeptAppend(outs[..i], outs[i..end]);
  }

  // ---- indexGithubRepo ----

  /** A stored embedding row as `findMany` selects it. */
  datatype DbRecord = DbRecord(id: string, fileName: string)

  datatype IndexCounts = IndexCounts(indexed: nat, failed: nat)

  /** `allEmbeddings.find(e => e.fileName === name)`. */
  function FindByFileName(es: seq<Embedded>, name: string): (r: Option<Embedded>)
    ensures r.Some? ==> exists k :: 0 <= k < |es| && es[k] == r.value && r.value.fileName == name
                          && forall j :: 0 <= j < k ==> es[j].fileName != name
    ensures r.None? ==> forall e :: e in es ==> e.fileName != name
  {
    if es == [] then None
    else if es[0].fileName == name then Some(es[0])
    else FindByFileName(es[1..], name)
  }

  /** Whether the vector update of `record` succeeds: it needs an embedding
      with the record's file name and an update that does not throw. */
  predicate Updated(record: DbRecord, es: seq<Embedded>, update: (DbRecord, seq<real>) -> bool)
  {
    var e := FindByFileName(es, record.fileName);
    e.Some? && update(record, e.value.embedding)
  }

  /** The number of records whose update succeeds. */
  function CountUpdated(records: seq<DbRecord>, es: seq<Embedded>, update: (DbRecord, seq<real>) -> bool): (n: nat)
    ensures n <= |records|
  {
    if records == [] then 0
    else (if Updated(records[0], es, update) then 1 else 0) + CountUpdated(records[1..], es, update)
  }

  lemma {:induction false} CountUpdatedSnoc(records: seq<DbRecord>, r: DbRecord, es: seq<Embedded>, update: (DbRecord, seq<real>) -> bool)
    ensures CountUpdated(records + [r], es, update) == CountUpdated(records, es, update) + (if Updated(r, es, update) then 1 else 0)
  {
    if records != [] {
      assert (records + [r])[1..] == records[1..] + [r];
      CountUpdatedSnoc(records[1..], r, es, update);
    } else {
      assert (records + [r])[1..] == [];
    }
  }

  /** What `indexGithubRepo` returns or throws once `loadGithubRepo` has
      returned or thrown `loaded`. */
  function IndexOutcome(projectId: string, loaded: Outcome<seq<Document>>, env: Services): Outcome<IndexCounts>
  {
    match loaded
    case Failed(f) => Failed(f)
    case Done(docs) => IndexDocs(projectId, docs, env)
  }

  /** What `indexGithubRepo` reports once the documents are loaded. */
  function IndexDocs(projectId: string, docs: seq<Document>, env: Services): Outcome<IndexCounts>
  {
    if docs == [] then Done(IndexCounts(0, 0))
    else
      var es := Embeddings(docs, env);
      if es == [] then Done(IndexCounts(0, 0))
      else IndexStored(env.store(projectId, es), es, env.update)
  }

  /** What `indexGithubRepo` reports once the entries are stored. */
  function IndexStored(stored: Result<seq<DbRecord>>, es: seq<Embedded>, update: (DbRecord, seq<real>) -> bool): Outcome<IndexCounts>
  {
    match stored
    case Err(m) => Failed(Thrown(m))
    case Ok(records) =>
      var n := CountUpdated(records, es, update);
      Done(IndexCounts(n, |records| - n))
  }

  /** Every fetched record is counted exactly once, as indexed or as failed;
      nothing is counted when nothing was loaded or embedded; a loading error
      is passed on. */
  lemma IndexOutcomeAccounts(projectId: string, loaded: Outcome<seq<Document>>, env: Services)
    ensures IndexOutcome(projectId, loaded, env).Done? ==>
      var c := IndexOutcome(projectId, loaded, env).value;
      && loaded.Done?
      && (loaded.value == [] || Embeddings(loaded.value, env) == [] ==> c == IndexCounts(0, 0))
      && (loaded.value != [] && Embeddings(loaded.value, env) != [] ==>
            env.store(projectId, Embeddings(loaded.value, env)).Ok?
            && c.indexed + c.failed == |env.store(projectId, Embeddings(loaded.value, env)).value|)
    ensures loaded.Failed? ==> IndexOutcome(projectId, loaded, env) == Failed(loaded.failure)
  {
  }

  /** The loop that writes the vectors: one count per record. */
  method UpdateVectors(records: seq<DbRecord>, allEmbeddings: seq<Embedded>, update: (DbRecord, seq<real>) -> bool)
    returns (indexed: nat, failed: nat)
    ensures indexed == CountUpdated(records, allEmbeddings, update)
    ensures indexed + failed == |records|
  {
    indexed := 0;
    failed := 0;
    var k := 0;
    while k < |records|
      invariant 0 <= k <= |records|
      invariant indexed == CountUpdated(records[..k], allEmbeddings, update)
      invariant indexed + failed == k
    {
      var record := records[k];
      CountUpdatedSnoc(records[..k], record, allEmbeddings, update);
      assert records[..k + 1] == records[..k] + [record];
      var embedding := FindByFileName(allEmbeddings, record.fileName);
      if embedding.None? {
        failed := failed + 1;
      } else if update(record, embedding.value.embedding) {
        indexed := indexed + 1;
      } else {
        failed := failed + 1;
      }
      k := k + 1;
    }
    assert records[..k] == records;
  }

  /** `indexGithubRepo(projectId, url, githubToken)`. */
  method IndexGithubRepo(projectId: string, url: string, githubToken: string, env: Services)
    returns (r: Outcome<IndexCounts>)
    ensures r == IndexOutcome(projectId, LoadGithubRepo(url, githubToken, env), env)
  {
    var loaded := LoadGithubRepo(url, githubToken, env);
    if loaded.Failed? {
      return Failed(loaded.failure);
    }
    r := IndexLoaded(projectId, loaded.value, env);
  }

  /** `indexGithubRepo` after a successful load. */
  method IndexLoaded(projectId: string, docs: seq<Document>, env: Services) returns (r: Outcome<IndexCounts>)
    ensures r == IndexDocs(projectId, docs, env)
  {
    if |docs| == 0 {
      return Done(IndexCounts(0, 0));
    }
    var allEmbeddings, _ := GenerateEmbeddings(docs, env);
    if |allEmbeddings| == 0 {
      return Done(IndexCounts(0, 0));
    }
    r := IndexStoredRecords(env.store(projectId, allEmbeddings), allEmbeddings, env.update);
  }

  /** `indexGithubRepo` after `createMany`/`findMany` returned the records. */
  method IndexStoredRecords(stored: Result<seq<DbRecord>>, allEmbeddings: seq<Embedded>, update: (DbRecord, seq<real>) -> bool)
    returns (r: Outcome<IndexCounts>)
    ensures r == IndexStored(stored, allEmbeddings, update)
  {
    if stored.Err? {
      return Failed(Thrown(stored.message));
    }
    var indexed, failed := UpdateVectors(stored.value, allEmbeddings, update);
    return Done(IndexCounts(indexed, failed));
  }
}
