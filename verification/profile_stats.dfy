/**
  The per-user statistics route (web/src/app/api/profile/stats/route.ts):
  who is asking, then counts and sums over that user's repositories.

  The session, the user and repository tables and the clock are parameters;
  a failing query inside the route's `try` is the flag `queryFails`.
 */
module ProfileStats {
  import opened Results
  import opened Lists

  /** The session's user: the id and email it may carry (empty counts as absent). */
  datatype SessionUser = SessionUser(id: Option<string>, email: Option<string>)

  datatype GifStat = GifStat(downloads: int)

  datatype Repository = Repository(userId: string, views: int, isPublic: bool, gifs: seq<GifStat>)

  datatype Db = Db(
    userIdByEmail: map<string, string>,
    createdAtById: map<string, int>,
    repositories: seq<Repository>)

  datatype Stats = Stats(
    repositories: int, gifs: int, totalViews: int, totalDownloads: int,
    publicRepositories: int, joinDate: int)

  datatype Reply = Ok(stats: Stats) | Error(status: int, message: string)

  predicate Present(v: Option<string>) {
    v.Some? && v.value != ""
  }

  /** The user id: the session's own, else the one registered for the session's email. */
  function ResolveUserId(user: SessionUser, db: Db): (id: Option<string>)
    ensures Present(user.id) ==> id == user.id
    ensures !Present(user.id) && Present(user.email) && user.email.value in db.userIdByEmail ==>
      id == Some(db.userIdByEmail[user.email.value])
    ensures !Present(user.id) && !(Present(user.email) && user.email.value in db.userIdByEmail) ==> !Present(id)
  {
    if Present(user.id) then user.id
    else if Present(user.email) && user.email.value in db.userIdByEmail then
      Some(db.userIdByEmail[user.email.value])
    else if Present(user.email) then None
    else user.id
  }

  function GifCount(r: Repository): int {
    |r.gifs|
  }

  function Views(r: Repository): int {
    r.views
  }

  function Downloads(g: GifStat): int {
    g.downloads
  }

  function RepoDownloads(r: Repository): int {
    Sum(r.gifs, Downloads)
  }

  function IsPublicRepo(r: Repository): bool {
    r.isPublic
  }

  /** The `stats` object for one user's repositories. */
  function Compute(repos: seq<Repository>, createdAt: Option<int>, now: int): (s: Stats)
    ensures s.repositories == |repos|
    ensures 0 <= s.publicRepositories <= s.repositories
    ensures s.publicRepositories == |PublicPositions(repos)|
    ensures s.gifs == |Flatten(repos)|
    ensures s.totalDownloads == Sum(Flatten(repos), Downloads)
    ensures s.joinDate == if createdAt.Some? then createdAt.value else now
  {
    NestedSums(repos);
    PublicCount(repos);
    Stats(
      |repos|,
      Sum(repos, GifCount),
      Sum(repos, Views),
      Sum(repos, RepoDownloads),
      |Filter(repos, IsPublicRepo)|,
      if createdAt.Some? then createdAt.value else now)
  }

  /** The positions holding a public repository. */
  function PublicPositions(repos: seq<Repository>): set<int> {
    set i | 0 <= i < |repos| && repos[i].isPublic
  }

  /** `filter(repo => repo.isPublic).length` counts the positions holding a public repository. */
  lemma PublicCount(repos: seq<Repository>)
    ensures |Filter(repos, IsPublicRepo)| == |PublicPositions(repos)|
  {
    FilterCountsPositions(repos, IsPublicRepo);
    assert Positions(repos, IsPublicRepo) == PublicPositions(repos);
  }

  /** All GIFs of the repositories, one repository after another. */
  function Flatten(repos: seq<Repository>): seq<GifStat>
    decreases |repos|
  {
    if repos == [] then [] else repos[0].gifs + Flatten(repos[1..])
  }

  /** The nested reduce equals the flat one: counting and summing per repository and then overall loses nothing. */
  lemma {:induction false} NestedSums(repos: seq<Repository>)
    ensures Sum(repos, GifCount) == |Flatten(repos)|
    ensures Sum(repos, RepoDownloads) == Sum(Flatten(repos), Downloads)
    decreases |repos|
  {
    if repos != [] {
      NestedSums(repos[1..]);
      SumAppend(repos[0].gifs, Flatten(repos[1..]), Downloads);
    }
  }

  /**
    `GET`: 401 without a session user, 404 when no id can be resolved, 500 when
    a query fails, and otherwise the statistics of that user's repositories.
   */
  function Handle(session: Option<SessionUser>, db: Db, now: int, queryFails: bool): (r: Reply)
    ensures session.None? <==> r == Error(401, "Unauthorized")
    ensures session.Some? && !Present(ResolveUserId(session.value, db)) ==> r == Error(404, "User not found")
    ensures r.Ok? ==> !queryFails && session.Some? && Present(ResolveUserId(session.value, db))
    ensures session.Some? && Present(ResolveUserId(session.value, db)) ==>
      (r.Ok? <==> !queryFails) && (queryFails ==> r == Error(500, "Failed to fetch stats"))
    ensures r.Ok? ==> var id := ResolveUserId(session.value, db).value;
      r.stats == Compute(Filter(db.repositories, (x: Repository) => x.userId == id),
        if id in db.createdAtById then Some(db.createdAtById[id]) else None, now)
  {
    if session.None? then Error(401, "Unauthorized")
    else
      var id := ResolveUserId(session.value, db);
      if !Present(id) then Error(404, "User not found")
      else if queryFails then Error(500, "Failed to fetch stats")
      else
        var uid := id.value;
        Ok(Compute(Filter(db.repositories, (x: Repository) => x.userId == uid),
          if uid in db.createdAtById then Some(db.createdAtById[uid]) else None, now))
  }

  /** With non-negative download counters, the total is non-negative and bounds each repository's share. */
  lemma {:induction false} DownloadsBoundEachRepository(repos: seq<Repository>, i: nat)
    requires i < |repos|
    requires forall g :: g in Flatten(repos) ==> g.downloads >= 0
    ensures 0 <= RepoDownloads(repos[i]) <= Sum(repos, RepoDownloads)
    decreases i
  {
    NestedSums(repos);
    assert Flatten(repos) == repos[0].gifs + Flatten(repos[1..]);
    SumAppend(repos[0].gifs, Flatten(repos[1..]), Downloads);
    assert forall k :: 0 <= k < |repos[0].gifs| ==> repos[0].gifs[k] in Flatten(repos);
    SumNonNegative(repos[0].gifs, Downloads);
    assert forall k :: 0 <= k < |Flatten(repos[1..])| ==> Flatten(repos[1..])[k] in Flatten(repos);
    SumNonNegative(Flatten(repos[1..]), Downloads);
    NestedSums(repos[1..]);
    if i > 0 {
      DownloadsBoundEachRepository(repos[1..], i - 1);
    }
  }
}
