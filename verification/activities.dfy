/**
  The public activity feed (web/src/app/api/public/activities/route.ts):
  recent public repositories and recent GIFs of public repositories, each
  turned into an activity, merged, sorted newest first and cut to `limit`.

  The database is a pair of row lists; Prisma's `orderBy` is the stable sort
  of Sorting and its `take` is `Take` below. Timestamps are integers (the
  route's `toISOString` / `getTime` round trip keeps them). A query failure
  is a parameter.
 */
module Activities {
  import opened Results
  import opened Sorting
  import opened Lists

  datatype UserRef = UserRef(id: string, name: Option<string>, email: string)

  datatype RepoRow = RepoRow(
    id: string, name: string, description: Option<string>,
    isPublic: bool, createdAt: int, owner: UserRef)

  datatype GifRow = GifRow(id: string, repositoryId: string, createdAt: int)

  datatype Db = Db(repositories: seq<RepoRow>, gifs: seq<GifRow>)

  datatype ActivityKind = RepositoryCreated | GifUploaded

  datatype RepoSummary = RepoSummary(id: string, name: string, description: Option<string>)

  datatype Activity = Activity(
    id: string, kind: ActivityKind, user: UserRef,
    repository: RepoSummary, createdAt: int)

  /** The `limit` query parameter after `parseInt`; `None` stands for NaN. */
  type Limit = Option<int>

  const DefaultLimit: int := 10

  /** `Math.floor(limit / 2)`: how many repositories are drawn. */
  function RepoTake(limit: int): int {
    limit / 2
  }

  /** `Math.ceil(limit / 2)`: how many GIFs are drawn. */
  function GifTake(limit: int): int {
    -((-limit) / 2)
  }

  /** The two draws split the limit, the GIFs getting the odd one. */
  lemma TakeSplit(limit: int)
    ensures RepoTake(limit) + GifTake(limit) == limit
    ensures RepoTake(limit) <= GifTake(limit) <= RepoTake(limit) + 1
    ensures 2 * RepoTake(limit) <= limit <= 2 * GifTake(limit)
    ensures limit >= 0 ==> RepoTake(limit) >= 0 && GifTake(limit) >= 0
  {
  }

  function Abs(n: int): nat {
    if n < 0 then -n else n
  }

  /**
    Prisma's `take`: the first `n` rows, or for a negative `n` the last `-n`
    rows, in order.
   */
  function Take<T>(rows: seq<T>, n: int): (r: seq<T>)
    ensures |r| <= Abs(n) && |r| <= |rows|
    ensures n >= 0 ==> r == rows[..if n < |rows| then n else |rows|]
    ensures multiset(r) <= multiset(rows)
  {
    var k := if Abs(n) < |rows| then Abs(n) else |rows|;
    if n >= 0 then
      assert rows == rows[..k] + rows[k..];
      rows[..k]
    else
      assert rows == rows[..|rows| - k] + rows[|rows| - k..];
      rows[|rows| - k..]
  }

  /** `Array.prototype.slice(0, end)`: a negative end counts from the back. */
  function SliceTo<T>(xs: seq<T>, end: int): (r: seq<T>)
    ensures r <= xs
    ensures end >= 0 ==> |r| == if end < |xs| then end else |xs|
    ensures end < 0 ==> |r| == if |xs| + end > 0 then |xs| + end else 0
  {
    var k := if end >= 0 then (if end < |xs| then end else |xs|)
             else (if |xs| + end > 0 then |xs| + end else 0);
    xs[..k]
  }

  /** The public repository with this id, if there is one. */
  function PublicRepo(repos: seq<RepoRow>, id: string): (r: Option<RepoRow>)
    ensures r.Some? ==> r.value in repos && r.value.id == id && r.value.isPublic
    ensures r.None? ==> forall i :: 0 <= i < |repos| ==> !(repos[i].id == id && repos[i].isPublic)
  {
    if repos == [] then None
    else if repos[0].id == id && repos[0].isPublic then Some(repos[0])
    else PublicRepo(repos[1..], id)
  }

  function IsPublic(repo: RepoRow): bool {
    repo.isPublic
  }

  function RepoCreated(repo: RepoRow): int {
    repo.createdAt
  }

  function GifCreated(j: GifWithRepo): int {
    j.gif.createdAt
  }

  function ActivityCreated(a: Activity): int {
    a.createdAt
  }

  /** The smaller of two counts. */
  function MinInt(a: int, b: int): int {
    if a < b then a else b
  }

  /** The repository query: public repositories, newest first, `take` rows. */
  function RecentRepos(db: Db, take: int): (r: seq<RepoRow>)
    ensures |r| <= Abs(take)
    ensures forall x :: x in r ==> x in db.repositories && x.isPublic
    ensures take >= 0 ==> SortedDesc(r, RepoCreated)
  {
    var sorted := SortDesc(Filter(db.repositories, IsPublic), RepoCreated);
    var r := Take(sorted, take);
    assert take >= 0 ==> SortedDesc(r, RepoCreated) by {
      if take >= 0 {
        PrefixSortedDesc(sorted, |r|, RepoCreated);
      }
    }
    assert forall x :: x in r ==> x in db.repositories && x.isPublic by {
      forall x | x in r
        ensures x in db.repositories && x.isPublic
      {
        assert x in multiset(sorted);
      }
    }
    r
  }

  /**
    For a non-negative `take` the repository query draws as many public
    repositories as there are, up to `take`, and none left out is newer than
    one drawn.
   */
  lemma RecentReposNewest(db: Db, take: int)
    requires take >= 0
    ensures var r := RecentRepos(db, take);
      && |r| == MinInt(take, |Filter(db.repositories, IsPublic)|)
      && forall x, y :: x in db.repositories && x.isPublic && x !in r && y in r ==> y.createdAt >= x.createdAt
  {
    var pub := Filter(db.repositories, IsPublic);
    var sorted := SortDesc(pub, RepoCreated);
    var r := RecentRepos(db, take);
    assert r == Take(sorted, take);
    assert r == sorted[..|r|];
    PrefixDominates(sorted, |r|, RepoCreated);
    forall x | x in db.repositories && x.isPublic
      ensures x in sorted
    {
      assert x in multiset(pub);
    }
  }

  /** A GIF row joined with its public parent repository. */
  datatype GifWithRepo = GifWithRepo(gif: GifRow, repository: RepoRow)

  /** The `where: { repository: { isPublic: true } }` filter on GIFs. */
  function HasPublicParent(repos: seq<RepoRow>): GifRow -> bool {
    (g: GifRow) => PublicRepo(repos, g.repositoryId).Some?
  }

  /** The GIF rows of a joined list, in order. */
  function GifsOf(r: seq<GifWithRepo>): seq<GifRow> {
    seq(|r|, i requires 0 <= i < |r| => r[i].gif)
  }

  /** Joins each GIF to its parent; GIFs without a public parent drop out. */
  function JoinPublic(gifs: seq<GifRow>, repos: seq<RepoRow>): (r: seq<GifWithRepo>)
    ensures forall j :: j in r ==>
      j.gif in gifs && j.repository in repos && j.repository.isPublic && j.repository.id == j.gif.repositoryId
    decreases |gifs|
  {
    if gifs == [] then []
    else
      var rest := JoinPublic(gifs[1..], repos);
      match PublicRepo(repos, gifs[0].repositoryId)
      case Some(repo) => [GifWithRepo(gifs[0], repo)] + rest
      case None => rest
  }

  /** The join keeps exactly the GIFs with a public parent, in their order. */
  lemma {:induction false} JoinPublicKeepsOrder(gifs: seq<GifRow>, repos: seq<RepoRow>)
    ensures GifsOf(JoinPublic(gifs, repos)) == Select(gifs, HasPublicParent(repos))
    decreases |gifs|
  {
    if gifs != [] {
      JoinPublicKeepsOrder(gifs[1..], repos);
      var rest := JoinPublic(gifs[1..], repos);
      match PublicRepo(repos, gifs[0].repositoryId)
      case Some(repo) =>
        assert GifsOf([GifWithRepo(gifs[0], repo)] + rest) == [gifs[0]] + GifsOf(rest);
      case None =>
    }
  }

  /** Each joined GIF is paired with its public parent, and every GIF that has one is joined. */
  lemma {:induction false} JoinPublicComplete(gifs: seq<GifRow>, repos: seq<RepoRow>)
    ensures forall j :: j in JoinPublic(gifs, repos) ==> PublicRepo(repos, j.gif.repositoryId) == Some(j.repository)
    ensures forall g :: g in gifs && PublicRepo(repos, g.repositoryId).Some? ==>
      GifWithRepo(g, PublicRepo(repos, g.repositoryId).value) in JoinPublic(gifs, repos)
    decreases |gifs|
  {
    if gifs != [] {
      JoinPublicComplete(gifs[1..], repos);
      assert gifs == [gifs[0]] + gifs[1..];
    }
  }

  /** The GIF query: GIFs of public repositories with their repository, newest first, `take` rows. */
  function RecentGifs(db: Db, take: int): (r: seq<GifWithRepo>)
    ensures |r| <= Abs(take)
    ensures forall j :: j in r ==>
      j.gif in db.gifs && j.repository in db.repositories && j.repository.isPublic && j.repository.id == j.gif.repositoryId
    ensures take >= 0 ==> SortedDesc(r, GifCreated)
  {
    var sorted := SortDesc(JoinPublic(db.gifs, db.repositories), GifCreated);
    var r := Take(sorted, take);
    assert take >= 0 ==> SortedDesc(r, GifCreated) by {
      if take >= 0 {
        PrefixSortedDesc(sorted, |r|, GifCreated);
      }
    }
    assert forall j :: j in r ==> j in JoinPublic(db.gifs, db.repositories) by {
      forall j | j in r
        ensures j in JoinPublic(db.gifs, db.repositories)
      {
        assert j in multiset(sorted);
      }
    }
    r
  }

  /**
    For a non-negative `take` the GIF query draws as many GIFs of public
    repositories as there are, up to `take`, and no such GIF left out is newer
    than one drawn.
   */
  lemma RecentGifsNewest(db: Db, take: int)
    requires take >= 0
    ensures var r := RecentGifs(db, take);
      && |r| == MinInt(take, |Select(db.gifs, HasPublicParent(db.repositories))|)
      && forall g, y ::
           (g in db.gifs && PublicRepo(db.repositories, g.repositoryId).Some?
            && GifWithRepo(g, PublicRepo(db.repositories, g.repositoryId).value) !in r && y in r) ==>
           y.gif.createdAt >= g.createdAt
  {
    var joined := JoinPublic(db.gifs, db.repositories);
    JoinPublicKeepsOrder(db.gifs, db.repositories);
    JoinPublicComplete(db.gifs, db.repositories);
    assert |GifsOf(joined)| == |joined|;
    var sorted := SortDesc(joined, GifCreated);
    var r := RecentGifs(db, take);
    assert r == sorted[..MinInt(take, |sorted|)];
    PrefixDominates(sorted, |r|, GifCreated);
    forall j | j in joined
      ensures j in sorted
    {
      assert j in multiset(joined);
    }
  }

  function RepoActivity(repo: RepoRow): (a: Activity)
    ensures a.kind == RepositoryCreated && a.id == "repo_" + repo.id
  {
    Activity("repo_" + repo.id, RepositoryCreated, repo.owner,
      RepoSummary(repo.id, repo.name, repo.description), repo.createdAt)
  }

  /** A GIF activity takes its user and repository from the GIF's parent. */
  function GifActivity(j: GifWithRepo): (a: Activity)
    ensures a.kind == GifUploaded && a.id == "gif_" + j.gif.id
    ensures a.user == j.repository.owner && a.repository.id == j.repository.id
  {
    Activity("gif_" + j.gif.id, GifUploaded, j.repository.owner,
      RepoSummary(j.repository.id, j.repository.name, j.repository.description), j.gif.createdAt)
  }

  /** Where an activity may come from: a public repository, or a GIF of one, with matching fields. */
  ghost predicate FromDb(db: Db, a: Activity) {
    || (exists repo :: repo in db.repositories && repo.isPublic && a == RepoActivity(repo))
    || (exists g, repo :: g in db.gifs && repo in db.repositories && repo.isPublic
          && repo.id == g.repositoryId && a == GifActivity(GifWithRepo(g, repo)))
  }

  function MapRepos(rows: seq<RepoRow>): (r: seq<Activity>)
    ensures |r| == |rows|
    ensures forall i :: 0 <= i < |r| ==> r[i] == RepoActivity(rows[i])
  {
    seq(|rows|, i requires 0 <= i < |rows| => RepoActivity(rows[i]))
  }

  function MapGifs(rows: seq<GifWithRepo>): (r: seq<Activity>)
    ensures |r| == |rows|
    ensures forall i :: 0 <= i < |r| ==> r[i] == GifActivity(rows[i])
  {
    seq(|rows|, i requires 0 <= i < |rows| => GifActivity(rows[i]))
  }

  /**
    The route: draw both lists, map them to activities, sort newest first
    and keep `slice(0, limit)`. A NaN limit makes the queries fail, and any
    failure gives the empty feed.
   */
  function Feed(db: Db, limit: Limit, queryFails: bool): (r: seq<Activity>)
    ensures limit.None? || queryFails ==> r == []
    ensures limit.Some? && limit.value >= 0 ==> |r| <= limit.value
    ensures SortedDesc(r, ActivityCreated)
    ensures forall a :: a in r ==> FromDb(db, a)
    ensures limit.Some? && limit.value >= 0 && !queryFails ==>
      multiset(r) == multiset(MapRepos(RecentRepos(db, RepoTake(limit.value))) + MapGifs(RecentGifs(db, GifTake(limit.value))))
  {
    if limit.None? || queryFails then []
    else
      var n := limit.value;
      var repos := RecentRepos(db, RepoTake(n));
      var gifs := RecentGifs(db, GifTake(n));
      var merged := MapRepos(repos) + MapGifs(gifs);
      var sorted := SortDesc(merged, ActivityCreated);
      var r := SliceTo(sorted, n);
      assert n >= 0 ==> r == sorted by {
        if n >= 0 {
          TakeSplit(n);
        }
      }
      assert SortedDesc(r, ActivityCreated) by {
        assert r == sorted[..|r|];
        PrefixSortedDesc(sorted, |r|, ActivityCreated);
      }
      assert forall a :: a in r ==> FromDb(db, a) by {
        MergedFromDb(db, repos, gifs);
        forall a | a in r
          ensures a in merged
        {
          assert a in multiset(sorted);
        }
      }
      r
  }

  /** Every activity built from the two draws has a source row. */
  lemma MergedFromDb(db: Db, repos: seq<RepoRow>, gifs: seq<GifWithRepo>)
    requires forall x :: x in repos ==> x in db.repositories && x.isPublic
    requires forall j :: j in gifs ==>
      j.gif in db.gifs && j.repository in db.repositories && j.repository.isPublic && j.repository.id == j.gif.repositoryId
    ensures forall a :: a in MapRepos(repos) + MapGifs(gifs) ==> FromDb(db, a)
  {
    var merged := MapRepos(repos) + MapGifs(gifs);
    forall a | a in merged
      ensures FromDb(db, a)
    {
      var i :| 0 <= i < |merged| && merged[i] == a;
      if i < |repos| {
        assert a == RepoActivity(repos[i]);
        assert repos[i] in repos;
      } else {
        var j := gifs[i - |repos|];
        assert a == GifActivity(j);
        assert j in gifs;
        assert a == GifActivity(GifWithRepo(j.gif, j.repository));
      }
    }
  }

  /** The default limit is 10 when the parameter is absent. */
  function LimitParam(raw: Option<Limit>): (l: Limit)
    ensures raw.None? ==> l == Some(DefaultLimit)
    ensures raw.Some? ==> l == raw.value
  {
    if raw.None? then Some(DefaultLimit) else raw.value
  }

  /**
    A negative limit always yields an empty feed: the two draws return at most
    `-limit` rows together, and `slice(0, limit)` then drops that many from the end.
   */
  lemma NegativeLimitIsEmpty(db: Db, n: int, queryFails: bool)
    requires n < 0
    ensures Feed(db, Some(n), queryFails) == []
  {
    if !queryFails {
      TakeSplit(n);
      var repos := RecentRepos(db, RepoTake(n));
      var gifs := RecentGifs(db, GifTake(n));
      assert |repos| + |gifs| <= -n;
    }
  }

  /**
    With a non-negative limit, the feed draws at most `floor(limit/2)`
    repository and `ceil(limit/2)` GIF rows, `limit` in all.
   */
  lemma DrawsSplitLimit(db: Db, n: int)
    requires n >= 0
    ensures |RecentRepos(db, RepoTake(n))| <= n / 2
    ensures |RecentGifs(db, GifTake(n))| <= (n + 1) / 2
    ensures |RecentRepos(db, RepoTake(n))| + |RecentGifs(db, GifTake(n))| <= n
  {
    TakeSplit(n);
  }

  /**
    With a non-negative limit and working queries, the feed holds exactly
    `min(floor(limit/2), public repositories)` repository activities plus
    `min(ceil(limit/2), GIFs of public repositories)` GIF activities.
   */
  lemma FeedSize(db: Db, n: int)
    requires n >= 0
    ensures |Feed(db, Some(n), false)| ==
      MinInt(RepoTake(n), |Filter(db.repositories, IsPublic)|)
      + MinInt(GifTake(n), |Select(db.gifs, HasPublicParent(db.repositories))|)
  {
    TakeSplit(n);
    RecentReposNewest(db, RepoTake(n));
    RecentGifsNewest(db, GifTake(n));
    var r := Feed(db, Some(n), false);
    var merged := MapRepos(RecentRepos(db, RepoTake(n))) + MapGifs(RecentGifs(db, GifTake(n)));
    assert |multiset(r)| == |multiset(merged)|;
  }
}
