/** `DataLoader.fetch_google_scholar_papers`: the first five publications of
    a Google Scholar search, each turned into a paper record.

    The search itself (`scholarly.search_pubs`) is the parameter `results`:
    the publications its iterator would yield, in order. A publication is
    a dictionary whose `bib` entry is a dictionary again; a missing entry is
    `None`. */
module Scholar {
  import opened Wrappers
  import opened Papers

  /** The `bib` dictionary of a publication, as far as it is read;
      `summary` is its `abstract` entry. */
  datatype Bib = Bib(title: Option<string>, summary: Option<string>)

  /** One publication, as far as it is read. */
  datatype Publication = Publication(bib: Option<Bib>, pubUrl: Option<string>)

  /** The `KeyError` that ends the fetch: the missing key, and the position
      of the publication that lacks it. */
  datatype KeyError = KeyError(index: nat, key: string)

  const NoSummary: string := "No summary available"
  const NoLink: string := "No link available"

  /** The record for one publication: `bib["title"]` is required, the
      abstract and the link fall back to the placeholders. Fails with the
      key that is missing (`bib` first, then `title`). */
  function Entry(p: Publication): Result<Paper, string> {
    match p.bib
    case None => Failure("bib")
    case Some(bib) =>
      match bib.title
      case None => Failure("title")
      case Some(title) => Success(Paper(title, bib.summary.GetOr(NoSummary), p.pubUrl.GetOr(NoLink)))
  }

  /** How many publications the fetch converts: five, or all when fewer. */
  function Shown(n: nat): nat {
    if n < MaxPapers then n else MaxPapers
  }

  /** A publication has a record exactly when it has a `bib` with a title. */
  lemma EntryDefined(p: Publication)
    ensures Entry(p).Success? <==> p.bib.Some? && p.bib.value.title.Some?
    ensures Entry(p).Success? ==> Entry(p).value.title == p.bib.value.title.value
    ensures Entry(p).Failure? ==> Entry(p).error in {"bib", "title"}
  {
  }

  /** `fetch_google_scholar_papers(query)` as the source runs it: enumerate
      the results, stop before the sixth, and convert each of the first
      five. A publication without `bib` or without a title raises, and
      the records gathered so far are lost. The ghost `pulled` counts the
      publications the iterator has handed out, the sixth included, which
      is drawn before the loop notices it is done. */
  method FetchGoogleScholarPapers(results: seq<Publication>)
    returns (r: Result<seq<Paper>, KeyError>, ghost pulled: nat)
    ensures r.Success? <==> forall k | 0 <= k < Shown(|results|) :: Entry(results[k]).Success?
    ensures r.Success? ==>
              && |r.value| == Shown(|results|)
              && (forall k | 0 <= k < |r.value| :: Entry(results[k]) == Success(r.value[k]))
              && pulled == (if |results| > MaxPapers then MaxPapers + 1 else |results|)
    ensures r.Failure? ==>
              && r.error.index < Shown(|results|)
              && Entry(results[r.error.index]) == Failure(r.error.key)
              && (forall k | 0 <= k < r.error.index :: Entry(results[k]).Success?)
              && pulled == r.error.index + 1
  {
    var papers: seq<Paper> := [];
    pulled := 0;
    var i := 0;
    while i < |results|
      invariant i <= |results| && i <= MaxPapers && pulled == i
      invariant |papers| == i
      invariant forall k | 0 <= k < i :: Entry(results[k]) == Success(papers[k])
    {
      pulled := i + 1;
      if i >= MaxPapers {
        break;
      }
      var entry := Entry(results[i]);
      if entry.Failure? {
        return Failure(KeyError(i, entry.error)), pulled;
      }
      papers := papers + [entry.value];
      i := i + 1;
    }
    r := Success(papers);
  }
}
