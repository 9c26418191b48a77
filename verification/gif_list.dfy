/**
  The "My GIFs" page (web/src/app/dashboard/gifs/page.tsx): the search filter,
  the four sort orders and the list update after a delete.

  `toLowerCase` is modelled on ASCII letters. `localeCompare` is an opaque
  collation key `nameKey`, and timestamps are integers.
 */
module GifList {
  import opened Results
  import opened Text
  import opened Sorting
  import opened Lists

  datatype RepoRef = RepoRef(id: string, name: string)

  datatype Gif = Gif(
    id: string, originalName: string, createdAt: int, fileSize: int, repository: RepoRef)

  datatype SortMode = Newest | Oldest | ByName | BySize

  /** Whether a GIF shows up for the search term. */
  function Matches(term: string): Gif -> bool {
    (g: Gif) => Includes(Lower(g.originalName), Lower(term)) || Includes(Lower(g.repository.name), Lower(term))
  }

  function Created(g: Gif): int {
    g.createdAt
  }

  function Size(g: Gif): int {
    g.fileSize
  }

  /** The search filter: the term, lower-cased, inside the lower-cased name or repository name. */
  function Search(gifs: seq<Gif>, term: string): (r: seq<Gif>)
    ensures forall g :: g in r <==>
      (g in gifs && (Includes(Lower(g.originalName), Lower(term)) || Includes(Lower(g.repository.name), Lower(term))))
    ensures multiset(r) <= multiset(gifs)
    ensures term == [] ==> r == gifs
  {
    var r := Filter(gifs, Matches(term));
    assert term == [] ==> r == gifs by {
      if term == [] {
        forall i | 0 <= i < |gifs|
          ensures Matches(term)(gifs[i])
        {
          IncludesEmpty(Lower(gifs[i].originalName));
        }
        FilterAll(gifs, Matches(term));
      }
    }
    r
  }

  /** The comparator of each sort mode, applied to the filtered list. */
  function SortBy(gifs: seq<Gif>, mode: SortMode, nameKey: string -> int): (r: seq<Gif>)
    ensures multiset(r) == multiset(gifs)
    ensures mode == Newest ==> SortedDesc(r, Created)
    ensures mode == Oldest ==> SortedAsc(r, Created)
    ensures mode == BySize ==> SortedDesc(r, Size)
  {
    match mode
    case Newest => SortDesc(gifs, Created)
    case Oldest => SortAsc(gifs, Created)
    case ByName => SortAsc(gifs, (g: Gif) => nameKey(g.originalName))
    case BySize => SortDesc(gifs, Size)
  }

  /** `filteredAndSortedGifs`: the matching GIFs, each exactly once, in the chosen order. */
  function Shown(gifs: seq<Gif>, term: string, mode: SortMode, nameKey: string -> int): (r: seq<Gif>)
    ensures multiset(r) == multiset(Search(gifs, term))
    ensures forall g :: g in r ==> g in gifs && Matches(term)(g)
    ensures term == [] ==> multiset(r) == multiset(gifs)
  {
    var r := SortBy(Search(gifs, term), mode, nameKey);
    assert forall g :: g in r ==> g in Search(gifs, term) by {
      forall g | g in r
        ensures g in Search(gifs, term)
      {
        assert g in multiset(r);
      }
    }
    r
  }

  /** What a delete attempt returned: a response with its `ok` flag, or a thrown error. */
  datatype Response = Responded(ok: bool) | Threw

  /** The list after `deleteGif`, and whether the request was sent and an alert shown. */
  datatype DeleteResult = DeleteResult(gifs: seq<Gif>, requested: bool, alerted: bool)

  function HasOtherId(id: string): Gif -> bool {
    (g: Gif) => g.id != id
  }

  /**
    `deleteGif`: nothing happens unless the user confirms; a failed response
    keeps the list, a thrown error also raises an alert, and success drops
    every entry with that id.
   */
  function DeleteGif(gifs: seq<Gif>, id: string, confirmed: bool, response: Response): (r: DeleteResult)
    ensures !confirmed ==> r == DeleteResult(gifs, false, false)
    ensures confirmed ==> r.requested
    ensures r.alerted <==> confirmed && response.Threw?
    ensures !(confirmed && response == Responded(true)) ==> r.gifs == gifs
    ensures confirmed && response == Responded(true) ==>
      forall g :: g in r.gifs <==> g in gifs && g.id != id
  {
    if !confirmed then DeleteResult(gifs, false, false)
    else match response
      case Threw => DeleteResult(gifs, true, true)
      case Responded(ok) =>
        if ok then DeleteResult(Filter(gifs, HasOtherId(id)), true, false)
        else DeleteResult(gifs, true, false)
  }

  /**
    A successful delete keeps the other entries in order: deleting from a list
    split in two is deleting from each half; a list without that id is left
    alone; and a second delete of the same id changes nothing more.
   */
  lemma DeleteKeepsOrder(a: seq<Gif>, b: seq<Gif>, id: string)
    ensures DeleteGif(a + b, id, true, Responded(true)).gifs
      == DeleteGif(a, id, true, Responded(true)).gifs + DeleteGif(b, id, true, Responded(true)).gifs
    ensures (forall i :: 0 <= i < |a| ==> a[i].id != id) ==> DeleteGif(a, id, true, Responded(true)).gifs == a
    ensures var once := DeleteGif(a, id, true, Responded(true)).gifs;
      DeleteGif(once, id, true, Responded(true)).gifs == once
  {
    FilterAppend(a, b, HasOtherId(id));
    var once := Filter(a, HasOtherId(id));
    FilterAll(once, HasOtherId(id));
    if forall i :: 0 <= i < |a| ==> a[i].id != id {
      FilterAll(a, HasOtherId(id));
    }
  }
}
