/** Commit polling (src/lib/github.ts): the newest commits of a repository, the
    ones not stored yet, and the records `pollCommits` writes for them. The
    GitHub API, the diff download, the model and the database are the
    functions of `CommitServices`. */
module Commits {
  import opened Common
  import opened Strings
  import opened Retry
  import GithubLoader

  // ---- The owner and name from the tail of the URL ----

  /** The index of the first `/` in `s`, or `|s|` when there is none. */
  function FirstSlash(s: string): (e: nat)
    ensures e <= |s|
    ensures NoSlash(s[..e])
    ensures e < |s| ==> s[e] == '/'
  {
    if s == [] then 0
    else if s[0] == '/' then 0
    else
      var e := 1 + FirstSlash(s[1..]);
      assert s[..e] == [s[0]] + s[1..][..e - 1];
      e
  }

  /** `s.split("/")`: the piece before the first `/`, then the pieces of the
      rest. */
  function Split(s: string): (r: seq<string>)
    ensures |r| >= 1
    decreases |s|
  {
    var e := FirstSlash(s);
    if e == |s| then [s] else [s[..e]] + Split(s[e + 1..])
  }

  /** `parts.join("/")`. */
  function Join(parts: seq<string>): string
    requires |parts| >= 1
    decreases |parts|
  {
    if |parts| == 1 then parts[0] else parts[0] + "/" + Join(parts[1..])
  }

  /** Joining the pieces gives the string back, and no piece holds a `/`. */
  lemma {:induction false} JoinSplit(s: string)
    ensures Join(Split(s)) == s
    ensures forall k :: 0 <= k < |Split(s)| ==> NoSlash(Split(s)[k])
    decreases |s|
  {
    var e := FirstSlash(s);
    if e < |s| {
      JoinSplit(s[e + 1..]);
      assert s == s[..e] + "/" + s[e + 1..];
      ConsTail(s[..e], Split(s[e + 1..]));
    } else {
      assert s[..e] == s;
    }
  }

  /** The first `/` of `a + "/" + b` is the one written between them when `a`
      has none. */
  lemma FirstSlashJoined(a: string, b: string)
    requires NoSlash(a)
    ensures FirstSlash(a + "/" + b) == |a|
    ensures (a + "/" + b)[..|a|] == a && (a + "/" + b)[|a| + 1..] == b
  {
    var s := a + "/" + b;
    assert s[|a|] == '/';
    assert s[..|a|] == a;
    assert s[|a| + 1..] == b;
  }

  /** A string without `/` is one piece. */
  lemma SplitNoSlash(w: string)
    requires NoSlash(w)
    ensures Split(w) == [w]
  {
  }

  /** Splitting at a `/` splits the two sides apart. */
  lemma {:induction false} SplitAppend(a: string, b: string)
    ensures Split(a + "/" + b) == Split(a) + Split(b)
    decreases |a|
  {
    var e := FirstSlash(a);
    if e == |a| {
      SplitAppendWhole(a, b);
    } else {
      var a' := a[e + 1..];
      SplitAppendStep(a, b);
      SplitAppend(a', b);
      ConcatAssoc([a[..e]], Split(a'), Split(b));
    }
  }

  /** When `a` has no `/`, it is the first piece of `a + "/" + b`. */
  lemma SplitAppendWhole(a: string, b: string)
    requires FirstSlash(a) == |a|
    ensures Split(a) == [a]
    ensures Split(a + "/" + b) == [a] + Split(b)
  {
    assert a[..|a|] == a;
    FirstSlashJoined(a, b);
  }

  /** When `a` has a `/`, the piece before it is also the first piece of
      `a + "/" + b`, and the rest is split from what follows it. */
  lemma SplitAppendStep(a: string, b: string)
    requires FirstSlash(a) < |a|
    ensures var e := FirstSlash(a);
      && Split(a) == [a[..e]] + Split(a[e + 1..])
      && Split(a + "/" + b) == [a[..e]] + Split(a[e + 1..] + "/" + b)
  {
    var e := FirstSlash(a);
    var rest := a[e + 1..] + "/" + b;
    SlashRejoin(a, e, b);
    FirstSlashJoined(a[..e], rest);
  }

  /** Cutting `a` at a `/` and joining the tail to `b` rebuilds `a + "/" + b`. */
  lemma SlashRejoin(a: string, e: nat, b: string)
    requires e < |a| && a[e] == '/'
    ensures a[..e] + "/" + (a[e + 1..] + "/" + b) == a + "/" + b
  {
    var x := a[..e] + "/";
    var y := a[e + 1..];
    assert a == x + y;
    ConcatAssoc(x, y, "/");
    ConcatAssoc(x, y + "/", b);
  }

  /** Pieces without `/` are split back out of their join. */
  lemma {:induction false} SplitJoin(parts: seq<string>)
    requires |parts| >= 1
    requires forall k :: 0 <= k < |parts| ==> NoSlash(parts[k])
    ensures Split(Join(parts)) == parts
    decreases |parts|
  {
    SplitNoSlash(parts[0]);
    if |parts| > 1 {
      var j := Join(parts[1..]);
      SplitJoin(parts[1..]);
      SplitAppend(parts[0], j);
      HeadTail(parts);
    }
  }

  /** Joining one more piece adds it after a `/`. */
  lemma {:induction false} JoinSnoc(parts: seq<string>, x: string)
    requires |parts| >= 1
    ensures Join(parts + [x]) == Join(parts) + "/" + x
    decreases |parts|
  {
    if |parts| > 1 {
      assert (parts + [x])[1..] == parts[1..] + [x];
      JoinSnoc(parts[1..], x);
    }
  }

  function InvalidGithubUrl(): string
  {
    "Invalid github url"
  }

  /** `const [owner, repo] = githubUrl.split("/").slice(-2)` and the guard that
      both are non-empty. */
  function OwnerAndRepo(url: string): Result<(string, string)>
  {
    var parts := Split(url);
    if |parts| < 2 || parts[|parts| - 2] == "" || parts[|parts| - 1] == "" then Err(InvalidGithubUrl())
    else Ok((parts[|parts| - 2], parts[|parts| - 1]))
  }

  /** A join of two or more pieces ends with the last two, after a `/` or
      nothing. */
  lemma JoinTail(parts: seq<string>)
    requires |parts| >= 2
    ensures var n := |parts|;
      Join(parts) == (if n == 2 then "" else Join(parts[..n - 2]) + "/") + parts[n - 2] + "/" + parts[n - 1]
  {
    var n := |parts|;
    var init := parts[..n - 1];
    var last := parts[n - 1];
    InitLast(parts);
    JoinSnoc(init, last);
    if n == 2 {
      assert Join(init) == parts[0];
      assert "" + parts[0] == parts[0];
    } else {
      var front := parts[..n - 2];
      InitLast(init);
      assert init[..n - 2] == front;
      JoinSnoc(front, parts[n - 2]);
      var j := Join(front);
      assert Join(parts) == j + "/" + parts[n - 2] + "/" + last;
      assert j + "/" + parts[n - 2] + "/" + last == (j + "/") + parts[n - 2] + "/" + last;
    }
  }

  /** Dropping the head of `[x] + t` leaves `t`. */
  lemma ConsTail<T>(x: T, t: seq<T>)
    ensures ([x] + t)[1..] == t && ([x] + t)[0] == x
  {
  }

  /** What a prefix leaves of a list's multiset is the multiset of the rest. */
  lemma MultisetAfterPrefix<T>(s: seq<T>, n: nat)
    requires n <= |s|
    ensures multiset(s) - multiset(s[..n]) == multiset(s[n..])
  {
    assert s == s[..n] + s[n..];
  }

  lemma PrefixSubMultiset<T>(s: seq<T>, n: nat)
    requires n <= |s|
    ensures multiset(s[..n]) <= multiset(s)
  {
    assert s == s[..n] + s[n..];
  }

  /** A non-empty list is its front followed by its last element. */
  lemma InitLast<T>(s: seq<T>)
    requires |s| > 0
    ensures s == s[..|s| - 1] + [s[|s| - 1]]
  {
  }

  /** What is accepted are the last two `/`-separated pieces: non-empty, free
      of `/`, at the end of the URL and preceded by a `/` or nothing. */
  lemma OwnerAndRepoSpec(url: string)
    ensures OwnerAndRepo(url).Ok? ==>
      var (owner, repo) := OwnerAndRepo(url).value;
      && owner != "" && repo != "" && NoSlash(owner) && NoSlash(repo)
      && (exists prefix :: url == prefix + owner + "/" + repo && (prefix == "" || prefix[|prefix| - 1] == '/'))
  {
    var parts := Split(url);
    if OwnerAndRepo(url).Ok? {
      JoinSplit(url);
      JoinTail(parts);
      var n := |parts|;
      var owner := parts[n - 2];
      var repo := parts[n - 1];
      assert OwnerAndRepo(url).value == (owner, repo);
      var prefix := if n == 2 then "" else Join(parts[..n - 2]) + "/";
      assert prefix == "" || prefix[|prefix| - 1] == '/';
      assert url == prefix + owner + "/" + repo;
    }
  }

  /** A URL ending in `/` is rejected: its last piece is empty. */
  lemma TrailingSlashRejected(url: string)
    requires |url| > 0 && url[|url| - 1] == '/'
    ensures OwnerAndRepo(url) == Err(InvalidGithubUrl())
  {
    var u := url[..|url| - 1];
    assert url == u + "/" + "";
    SplitAppend(u, "");
  }

  /** The owner and name of any URL that ends in `/<owner>/<repo>` are read
      back. */
  lemma OwnerAndRepoOfTail(prefix: string, owner: string, repo: string)
    requires owner != "" && repo != "" && NoSlash(owner) && NoSlash(repo)
    ensures OwnerAndRepo(prefix + "/" + owner + "/" + repo) == Ok((owner, repo))
  {
    var tail := owner + "/" + repo;
    var url := prefix + "/" + tail;
    assert url == prefix + "/" + owner + "/" + repo;
    SplitAppend(owner, repo);
    SplitNoSlash(owner);
    SplitNoSlash(repo);
    assert Split(tail) == [owner, repo];
    SplitAppend(prefix, tail);
    var parts := Split(prefix) + [owner, repo];
    assert Split(url) == parts;
    assert parts[|parts| - 2] == owner && parts[|parts| - 1] == repo;
  }

  /** The indexer and the poller read a repository address differently: with
      a trailing `/` the indexer finds the repository and the poller throws
      "Invalid github url". */
  lemma TrailingSlashOnlyIndexed(owner: string, repo: string)
    requires GithubLoader.ValidName(owner, repo)
    ensures GithubLoader.ParseGithubUrl(GithubLoader.CanonicalUrl(owner, repo) + "/") == Ok(GithubLoader.RepoRef(owner, repo))
    ensures OwnerAndRepo(GithubLoader.CanonicalUrl(owner, repo) + "/") == Err(InvalidGithubUrl())
  {
    GithubLoader.ParseCanonicalUrl(owner, repo, "/");
    TrailingSlashRejected(GithubLoader.CanonicalUrl(owner, repo) + "/");
  }

  /** With a `.git` suffix the indexer drops it and the poller asks the API
      for a repository whose name keeps it. */
  lemma GitSuffixKeptByPoller(owner: string, repo: string)
    requires GithubLoader.ValidName(owner, repo)
    ensures GithubLoader.ParseGithubUrl(GithubLoader.CanonicalUrl(owner, repo) + ".git") == Ok(GithubLoader.RepoRef(owner, repo))
    ensures OwnerAndRepo(GithubLoader.CanonicalUrl(owner, repo) + ".git") == Ok((owner, repo + ".git"))
  {
    GithubLoader.ParseCanonicalUrl(owner, repo, ".git");
    GitNoSlash();
    NoSlashAppend(repo, ".git");
    CanonicalTail(owner, repo, ".git");
    OwnerAndRepoOfTail("https://github.com", owner, repo + ".git");
  }

  lemma GitNoSlash()
    ensures NoSlash(".git")
  {
    var g := ".git";
    assert g[0] == '.' && g[1] == 'g' && g[2] == 'i' && g[3] == 't';
  }

  lemma NoSlashAppend(a: string, b: string)
    requires NoSlash(a) && NoSlash(b)
    ensures NoSlash(a + b)
  {
    assert forall k :: |a| <= k < |a + b| ==> (a + b)[k] == b[k - |a|];
  }

  /** A repository address is the host followed by `/<owner>/<repo>`. */
  lemma CanonicalTail(owner: string, repo: string, suffix: string)
    ensures GithubLoader.CanonicalUrl(owner, repo) + suffix == "https://github.com" + "/" + owner + "/" + (repo + suffix)
  {
    assert "https://" + GithubLoader.Host() == "https://github.com" + "/";
  }

  // ---- The newest ten commits ----

  /** A commit as `listCommits` returns it; a missing field is `None`. `time`
      is `new Date(commit.author.date).getTime()`. */
  datatype ApiCommit = ApiCommit(sha: string, message: Option<string>, authorName: Option<string>,
                                 avatarUrl: Option<string>, date: Option<string>, time: int)

  /** The `Response` record of `getCommitHashes`. */
  datatype CommitInfo = CommitInfo(commitHash: string, commitMessage: string, commitAuthorName: string,
                                   commitAuthorAvatar: string, commitDate: string)

  /** Newest first. */
  ghost predicate NewestFirst(s: seq<ApiCommit>)
  {
    forall i, j :: 0 <= i < j < |s| ==> s[i].time >= s[j].time
  }

  /** Puts `c` before the first commit that is not newer, so that among equal
      dates the earlier input stays first. */
  function Insert(c: ApiCommit, s: seq<ApiCommit>): (r: seq<ApiCommit>)
    ensures multiset(r) == multiset(s) + multiset{c}
    ensures |r| == |s| + 1
  {
    if s == [] || s[0].time <= c.time then [c] + s
    else
      assert s == [s[0]] + s[1..];
      [s[0]] + Insert(c, s[1..])
  }

  /** Inserting below a bound keeps every time below it. */
  lemma {:induction false} InsertBelow(c: ApiCommit, s: seq<ApiCommit>, t: int)
    requires c.time <= t
    requires forall k :: 0 <= k < |s| ==> s[k].time <= t
    ensures forall k :: 0 <= k < |Insert(c, s)| ==> Insert(c, s)[k].time <= t
  {
    if s != [] && s[0].time > c.time {
      InsertBelow(c, s[1..], t);
    }
  }

  lemma {:induction false} InsertNewestFirst(c: ApiCommit, s: seq<ApiCommit>)
    requires NewestFirst(s)
    ensures NewestFirst(Insert(c, s))
  {
    if s != [] && s[0].time > c.time {
      InsertNewestFirst(c, s[1..]);
      InsertBelow(c, s[1..], s[0].time);
    }
  }

  /** The stable sort of `data.sort((a, b) => time(b) - time(a))`. */
  function SortNewestFirst(cs: seq<ApiCommit>): (r: seq<ApiCommit>)
    ensures multiset(r) == multiset(cs)
  {
    if cs == [] then []
    else
      assert cs == [cs[0]] + cs[1..];
      Insert(cs[0], SortNewestFirst(cs[1..]))
  }

  lemma {:induction false} SortNewestFirstSorted(cs: seq<ApiCommit>)
    ensures NewestFirst(SortNewestFirst(cs))
  {
    if cs != [] {
      SortNewestFirstSorted(cs[1..]);
      InsertNewestFirst(cs[0], SortNewestFirst(cs[1..]));
    }
  }

  /** `sortedCommits.slice(0, 10)`. */
  function Newest(cs: seq<ApiCommit>): seq<ApiCommit>
  {
    var s := SortNewestFirst(cs);
    s[..Min(10, |s|)]
  }

  /** A prefix of a list sorted newest first is sorted, and nothing after it
      is newer than anything in it. */
  lemma PrefixNewestFirst(s: seq<ApiCommit>, n: nat)
    requires NewestFirst(s) && n <= |s|
    ensures NewestFirst(s[..n])
    ensures forall c, i :: c in s[n..] && 0 <= i < n ==> c.time <= s[i].time
  {
    forall c, i | c in s[n..] && 0 <= i < n
      ensures c.time <= s[i].time
    {
      var j :| 0 <= j < |s[n..]| && s[n..][j] == c;
      assert s[n + j] == c;
    }
  }

  /** The newest ten, newest first, taken from the listed commits. */
  lemma NewestSpec(cs: seq<ApiCommit>)
    ensures |Newest(cs)| == Min(10, |cs|)
    ensures NewestFirst(Newest(cs))
    ensures multiset(Newest(cs)) <= multiset(cs)
  {
    var s := SortNewestFirst(cs);
    var n := Min(10, |s|);
    SortedLength(cs);
    SortNewestFirstSorted(cs);
    PrefixNewestFirst(s, n);
    PrefixSubMultiset(s, n);
  }

  lemma SortedLength(cs: seq<ApiCommit>)
    ensures |SortNewestFirst(cs)| == |cs|
  {
    var s := SortNewestFirst(cs);
    assert |s| == |multiset(s)| == |multiset(cs)| == |cs|;
  }

  /** Nothing after the first `n` of the sorted list is newer than any of
      them. */
  lemma SortedRestNoNewer(cs: seq<ApiCommit>, n: nat)
    requires n <= |SortNewestFirst(cs)|
    ensures var s := SortNewestFirst(cs);
      forall c, i :: c in s[n..] && 0 <= i < n ==> c.time <= s[i].time
  {
    SortNewestFirstSorted(cs);
    PrefixNewestFirst(SortNewestFirst(cs), n);
  }

  /** No commit left out of the newest ten is newer than one kept. */
  lemma NewestLeftOutOlder(cs: seq<ApiCommit>)
    ensures forall c, i :: c in multiset(cs) - multiset(Newest(cs)) && 0 <= i < |Newest(cs)| ==> c.time <= Newest(cs)[i].time
  {
    var s := SortNewestFirst(cs);
    var n := Min(10, |s|);
    LeftOutAreRest(cs);
    SortedRestNoNewer(cs, n);
    TopBeatsRest(s, n, Newest(cs), multiset(cs) - multiset(Newest(cs)));
  }

  /** When nothing after the first `n` is newer than anything before, nothing
      left over is newer than anything in the prefix. */
  lemma TopBeatsRest(s: seq<ApiCommit>, n: nat, top: seq<ApiCommit>, left: multiset<ApiCommit>)
    requires n <= |s| && top == s[..n] && left == multiset(s[n..])
    requires forall c, i :: c in s[n..] && 0 <= i < n ==> c.time <= s[i].time
    ensures forall c, i :: c in left && 0 <= i < |top| ==> c.time <= top[i].time
  {
    forall c, i | c in left && 0 <= i < |top|
      ensures c.time <= top[i].time
    {
      assert c in s[n..];
      assert top[i] == s[i];
    }
  }

  /** The commits left out of the newest ten are those after the first ten
      of the sorted list. */
  lemma LeftOutAreRest(cs: seq<ApiCommit>)
    ensures var s := SortNewestFirst(cs);
      && Newest(cs) == s[..Min(10, |s|)]
      && multiset(cs) - multiset(Newest(cs)) == multiset(s[Min(10, |s|)..])
  {
    var s := SortNewestFirst(cs);
    MultisetAfterPrefix(s, Min(10, |s|));
  }

  /** `x ?? ""`. */
  function OrEmpty(o: Option<string>): string
  {
    if o.Some? then o.value else ""
  }

  function InfoOf(c: ApiCommit): CommitInfo
  {
    CommitInfo(c.sha, OrEmpty(c.message), OrEmpty(c.authorName), OrEmpty(c.avatarUrl), OrEmpty(c.date))
  }

  function Infos(cs: seq<ApiCommit>): (r: seq<CommitInfo>)
    ensures |r| == |cs|
    ensures forall k :: 0 <= k < |cs| ==> r[k] == InfoOf(cs[k])
  {
    seq(|cs|, k requires 0 <= k < |cs| => InfoOf(cs[k]))
  }

  /** `getCommitHashes(githubUrl)` with `listCommits` as `list`. */
  function GetCommitHashes(url: string, list: (string, string) -> Result<seq<ApiCommit>>): Result<seq<CommitInfo>>
  {
    match OwnerAndRepo(url)
    case Err(m) => Err(m)
    case Ok((owner, repo)) =>
      match list(owner, repo)
      case Err(m) => Err(m)
      case Ok(data) => Ok(Infos(Newest(data)))
  }

  /** An invalid URL is reported before the API is asked; otherwise at most ten
      records come back, one per newest commit and in that order, with the
      hash copied and every missing field read as "". */
  lemma GetCommitHashesSpec(url: string, list: (string, string) -> Result<seq<ApiCommit>>)
    ensures OwnerAndRepo(url).Err? ==> GetCommitHashes(url, list) == Err(InvalidGithubUrl())
    ensures GetCommitHashes(url, list).Ok? ==>
      var data := list(OwnerAndRepo(url).value.0, OwnerAndRepo(url).value.1).value;
      var rs := GetCommitHashes(url, list).value;
      && |rs| == Min(10, |data|)
      && forall k :: 0 <= k < |rs| ==>
           && rs[k].commitHash == Newest(data)[k].sha
           && (Newest(data)[k].message.None? ==> rs[k].commitMessage == "")
           && (Newest(data)[k].message.Some? ==> rs[k].commitMessage == Newest(data)[k].message.value)
           && (Newest(data)[k].authorName.None? ==> rs[k].commitAuthorName == "")
           && (Newest(data)[k].authorName.Some? ==> rs[k].commitAuthorName == Newest(data)[k].authorName.value)
           && (Newest(data)[k].avatarUrl.None? ==> rs[k].commitAuthorAvatar == "")
           && (Newest(data)[k].avatarUrl.Some? ==> rs[k].commitAuthorAvatar == Newest(data)[k].avatarUrl.value)
           && (Newest(data)[k].date.None? ==> rs[k].commitDate == "")
           && (Newest(data)[k].date.Some? ==> rs[k].commitDate == Newest(data)[k].date.value)
  {
    if GetCommitHashes(url, list).Ok? {
      var data := list(OwnerAndRepo(url).value.0, OwnerAndRepo(url).value.1).value;
      NewestSpec(data);
    }
  }

  // ---- filterUnprocessedCommits ----

  /** The commits whose hash is not among the stored hashes, in order. */
  function FilterUnprocessed(commits: seq<CommitInfo>, stored: seq<string>): (r: seq<CommitInfo>)
    ensures |r| <= |commits|
  {
    if commits == [] then []
    else
      var rest := FilterUnprocessed(commits[1..], stored);
      if commits[0].commitHash in stored then rest else [commits[0]] + rest
  }

  /** Exactly the commits whose hash is not stored pass. */
  lemma {:induction false} FilterMembers(commits: seq<CommitInfo>, stored: seq<string>)
    ensures forall c :: c in FilterUnprocessed(commits, stored) <==> c in commits && c.commitHash !in stored
    decreases |commits|
  {
    if commits != [] {
      FilterMembers(commits[1..], stored);
      assert commits == [commits[0]] + commits[1..];
    }
  }

  /** Filtering keeps the order: it distributes over concatenation. */
  lemma {:induction false} FilterAppend(a: seq<CommitInfo>, b: seq<CommitInfo>, stored: seq<string>)
    ensures FilterUnprocessed(a + b, stored) == FilterUnprocessed(a, stored) + FilterUnprocessed(b, stored)
    decreases |a|
  {
    if a != [] {
      var x := a + b;
      assert x[0] == a[0];
      assert x[1..] == a[1..] + b;
      FilterAppend(a[1..], b, stored);
      var fa := FilterUnprocessed(a[1..], stored);
      var fb := FilterUnprocessed(b, stored);
      assert FilterUnprocessed(x, stored) == if a[0].commitHash in stored then fa + fb else [a[0]] + (fa + fb);
      assert FilterUnprocessed(a, stored) == if a[0].commitHash in stored then fa else [a[0]] + fa;
      assert [a[0]] + (fa + fb) == [a[0]] + fa + fb;
    } else {
      assert a + b == b;
    }
  }

  /** Filtering twice against the same hashes changes nothing. */
  lemma {:induction false} FilterIdempotent(commits: seq<CommitInfo>, stored: seq<string>)
    ensures FilterUnprocessed(FilterUnprocessed(commits, stored), stored) == FilterUnprocessed(commits, stored)
    decreases |commits|
  {
    if commits != [] {
      FilterIdempotent(commits[1..], stored);
      var rest := FilterUnprocessed(commits[1..], stored);
      if commits[0].commitHash !in stored {
        assert ([commits[0]] + rest)[1..] == rest;
      }
    }
  }

  function Hashes(commits: seq<CommitInfo>): (r: seq<string>)
    ensures |r| == |commits|
    ensures forall k :: 0 <= k < |commits| ==> r[k] == commits[k].commitHash
  {
    seq(|commits|, k requires 0 <= k < |commits| => commits[k].commitHash)
  }

  /** Once the hashes of the commits it returned are stored, the filter
      returns nothing. */
  lemma FilterAfterStoring(commits: seq<CommitInfo>, stored: seq<string>)
    ensures FilterUnprocessed(commits, stored + Hashes(FilterUnprocessed(commits, stored))) == []
  {
    var todo := FilterUnprocessed(commits, stored);
    var stored' := stored + Hashes(todo);
    FilterMembers(commits, stored);
    forall c | c in commits
      ensures c.commitHash in stored'
    {
      if c.commitHash !in stored {
        var k :| 0 <= k < |todo| && todo[k] == c;
        assert stored'[|stored| + k] == c.commitHash;
      }
    }
    FilterAllStored(commits, stored');
  }

  /** Nothing passes the filter when every hash is stored. */
  lemma {:induction false} FilterAllStored(commits: seq<CommitInfo>, stored: seq<string>)
    requires forall c :: c in commits ==> c.commitHash in stored
    ensures FilterUnprocessed(commits, stored) == []
    decreases |commits|
  {
    if commits != [] {
      assert commits[0] in commits;
      FilterAllStored(commits[1..], stored);
    }
  }

  // ---- summariseCommit ----

  /** The `data` of the diff request: a string or anything else. */
  datatype DiffBody = Text(text: string) | NotText

  /** How the diff request ended: with data, or with an axios error, or with
      any other exception. */
  datatype Fetched = Fetched(body: DiffBody) | HttpError(message: string) | OtherError(message: string)

  function NoChanges(): string
  {
    "No changes detected in diff"
  }

  function EmptySummary(): string
  {
    "Summary generation returned empty result"
  }

  function FetchFailed(message: string): string
  {
    "Failed to fetch diff: " + message
  }

  /** `summariseCommit` once the diff request has ended as `fetched`, with
      `aiSummariseCommit` as `ai`. An error of the model call is rethrown as
      it is. */
  function SummariseCommit(fetched: Fetched, ai: string -> Result<string>): (r: Result<string>)
    ensures r.Ok? ==> r.value != ""
  {
    match fetched
    case HttpError(m) => Err(FetchFailed(m))
    case OtherError(m) => Err(m)
    case Fetched(body) =>
      if body.NotText? || body.text == "" then Ok(NoChanges())
      else
        match ai(body.text)
        case Err(m) => Err(m)
        case Ok(s) => if Trim(s) == "" then Ok(EmptySummary()) else Ok(Trim(s))
  }

  /** The three ways a fetched diff is summarised: no usable diff, a blank
      summary, or the summary trimmed, which then has nothing left to trim. */
  lemma SummariseCommitCases(fetched: Fetched, ai: string -> Result<string>)
    ensures fetched.HttpError? ==> SummariseCommit(fetched, ai) == Err(FetchFailed(fetched.message))
    ensures fetched.Fetched? && (fetched.body.NotText? || fetched.body.text == "") ==>
      SummariseCommit(fetched, ai) == Ok(NoChanges())
    ensures fetched.Fetched? && fetched.body.Text? && fetched.body.text != "" && ai(fetched.body.text).Ok? ==>
      var s := ai(fetched.body.text).value;
      && (AllWhitespace(s) ==> SummariseCommit(fetched, ai) == Ok(EmptySummary()))
      && (!AllWhitespace(s) ==> SummariseCommit(fetched, ai) == Ok(Trim(s)) && Trim(Trim(s)) == Trim(s))
  {
    if fetched.Fetched? && fetched.body.Text? && fetched.body.text != "" && ai(fetched.body.text).Ok? {
      var s := ai(fetched.body.text).value;
      TrimSpec(s);
      TrimIdempotent(s);
    }
  }

  // ---- pollCommits ----

  /** One row of `commitsToCreate`. */
  datatype CommitRecord = CommitRecord(projectId: string, commitHash: string, commitMessage: string,
                                       commitAuthorName: string, commitAuthorAvatar: string,
                                       commitDate: string, summary: string)

  /** The services `pollCommits` calls: the project's `githubUrl`, the commit
      list, the hashes already stored for a project, the diff download and the
      model (both by attempt number), and `createMany`. */
  datatype CommitServices = CommitServices(
    projectUrl: string -> Option<string>,
    list: (string, string) -> Result<seq<ApiCommit>>,
    stored: string -> seq<string>,
    fetchDiff: (string, nat) -> Fetched,
    ai: (string, nat) -> Result<string>,
    create: seq<CommitRecord> -> Result<nat>)

  const CommitDelayMs: nat := 6000

  function NoGithubUrl(): string
  {
    "Project has no github url"
  }

  function FailedSummary(): string
  {
    "Failed to generate summary after retries"
  }

  function DiffUrl(githubUrl: string, hash: string): string
  {
    githubUrl + "/commit/" + hash + ".diff"
  }

  /** `() => summariseCommit(githubUrl, commit.commitHash)`, by attempt. */
  function SummaryOp(githubUrl: string, hash: string, env: CommitServices): nat -> Result<string>
  {
    (k: nat) => SummariseCommit(env.fetchDiff(DiffUrl(githubUrl, hash), k), (d: string) => env.ai(d, k))
  }

  /** The summary stored for a commit: what the retried call returned, or the
      fixed text when it returned null. */
  function SummaryOf(githubUrl: string, hash: string, env: CommitServices): string
  {
    var t := Run(SummaryOp(githubUrl, hash, env), 3, IsThrottleCommits);
    if t.result.Some? && t.result.value != "" then t.result.value else FailedSummary()
  }

  function RecordOf(projectId: string, c: CommitInfo, summary: string): CommitRecord
  {
    CommitRecord(projectId, c.commitHash, c.commitMessage, c.commitAuthorName, c.commitAuthorAvatar, c.commitDate, summary)
  }

  function Records(projectId: string, githubUrl: string, todo: seq<CommitInfo>, env: CommitServices): (r: seq<CommitRecord>)
    ensures |r| == |todo|
  {
    seq(|todo|, k requires 0 <= k < |todo| => RecordOf(projectId, todo[k], SummaryOf(githubUrl, todo[k].commitHash, env)))
  }

  /** One record per commit, in order, with the project and the commit's
      fields copied; the summary is never empty: it is the retried call's
      value when that call returned one, and the fixed failure text when it
      gave up. */
  lemma RecordsSpec(projectId: string, githubUrl: string, todo: seq<CommitInfo>, env: CommitServices, k: nat)
    requires k < |todo|
    ensures var r := Records(projectId, githubUrl, todo, env)[k];
      var t := Run(SummaryOp(githubUrl, todo[k].commitHash, env), 3, IsThrottleCommits);
      && r.projectId == projectId && r.commitHash == todo[k].commitHash
      && r.commitMessage == todo[k].commitMessage && r.commitAuthorName == todo[k].commitAuthorName
      && r.commitAuthorAvatar == todo[k].commitAuthorAvatar && r.commitDate == todo[k].commitDate
      && r.summary != ""
      && (t.result.None? ==> r.summary == FailedSummary())
      && (t.result.Some? ==> r.summary == t.result.value)
  {
    var op := SummaryOp(githubUrl, todo[k].commitHash, env);
    RunBounds(op, 3, IsThrottleCommits);
    var t := Run(op, 3, IsThrottleCommits);
    if t.result.Some? {
      var j := t.calls - 1;
      assert op(j) == SummariseCommit(env.fetchDiff(DiffUrl(githubUrl, todo[k].commitHash), j), (d: string) => env.ai(d, j));
    }
  }

  /** The project's URL, its commits and the ones not stored yet. */
  function Unprocessed(projectId: string, env: CommitServices): Result<(string, seq<CommitInfo>)>
  {
    match env.projectUrl(projectId)
    case None => Err(NoGithubUrl())
    case Some(url) =>
      if url == "" then Err(NoGithubUrl())
      else
        match GetCommitHashes(url, env.list)
        case Err(m) => Err(m)
        case Ok(hashes) => Ok((url, FilterUnprocessed(hashes, env.stored(projectId))))
  }

  /** The retried summary of one commit, or the fixed text when it is null. */
  method SummaryFor(githubUrl: string, hash: string, env: CommitServices) returns (summary: string)
    ensures summary == SummaryOf(githubUrl, hash, env)
  {
    var result, _, _ := WithRetry(SummaryOp(githubUrl, hash, env), 3, IsThrottleCommits);
    if result.Some? && result.value != "" {
      summary := result.value;
    } else {
      summary := FailedSummary();
    }
  }

  /** The loop of `pollCommits` over the unprocessed commits: a record each and
      a wait of 6 s between two commits. */
  method SummariseAll(projectId: string, githubUrl: string, todo: seq<CommitInfo>, env: CommitServices)
    returns (records: seq<CommitRecord>, waits: seq<nat>)
    ensures records == Records(projectId, githubUrl, todo, env)
    ensures |waits| == if todo == [] then 0 else |todo| - 1
    ensures forall k :: 0 <= k < |waits| ==> waits[k] == CommitDelayMs
  {
    records := [];
    waits := [];
    var index := 0;
    while index < |todo|
      invariant 0 <= index <= |todo|
      invariant records == Records(projectId, githubUrl, todo, env)[..index]
      invariant |waits| == if index == |todo| && index > 0 then index - 1 else index
      invariant forall k :: 0 <= k < |waits| ==> waits[k] == CommitDelayMs
    {
      var commit := todo[index];
      var summary := SummaryFor(githubUrl, commit.commitHash, env);
      records := records + [RecordOf(projectId, commit, summary)];
      if index < |todo| - 1 {
        waits := waits + [CommitDelayMs];
      }
      index := index + 1;
    }
  }

  /** `pollCommits(projectId)`: the count `createMany` reports, the records it
      was given and the waits between commits. Nothing is summarised or
      created when every commit is already stored. */
  method PollCommits(projectId: string, env: CommitServices)
    returns (r: Result<nat>, records: seq<CommitRecord>, waits: seq<nat>)
    ensures Unprocessed(projectId, env).Err? ==>
      r == Err(Unprocessed(projectId, env).message) && records == [] && waits == []
    ensures Unprocessed(projectId, env).Ok? ==>
      var (githubUrl, todo) := Unprocessed(projectId, env).value;
      && records == Records(projectId, githubUrl, todo, env)
      && |waits| == (if todo == [] then 0 else |todo| - 1)
      && (forall k :: 0 <= k < |waits| ==> waits[k] == CommitDelayMs)
      && r == (if todo == [] then Ok(0) else env.create(records))
  {
    var found := Unprocessed(projectId, env);
    if found.Err? {
      return Err(found.message), [], [];
    }
    var (githubUrl, todo) := found.value;
    if |todo| == 0 {
      return Ok(0), [], [];
    }
    records, waits := SummariseAll(projectId, githubUrl, todo, env);
    r := env.create(records);
  }
}
