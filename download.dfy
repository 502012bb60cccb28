/** The two download loops of downloader.py, `download_inaturalist_images` and
    `download_gbif_images`, as one loop over a `Source` that fixes the first
    cursor, the page size, the cursor step and the image-URL rewrite.

    The network is an input: `pages[k]` is what the k-th page request returns
    (a page-level error, or the page's results), and a request past the end
    of `pages` returns an empty page. Each artifact reference carries its URL
    (absent when the JSON has none) and whether fetching, decoding and saving
    it succeed. Saving is recorded as a `Save` of the URL fetched and the file
    name written in the output directory. */
module Download {
  import opened Wrappers
  import opened PyText
  import ResumeIndex

  datatype Source = INaturalist | Gbif

  /** `page = 1` and `offset = 0` */
  function FirstCursor(src: Source): int
  {
    match src
    case INaturalist => 1
    case Gbif => 0
  }

  /** `per_page = 100` and `limit = 300` */
  function PageSize(src: Source): nat
  {
    match src
    case INaturalist => 100
    case Gbif => 300
  }

  /** `page += 1` and `offset += limit` */
  function CursorStep(src: Source): nat
  {
    match src
    case INaturalist => 1
    case Gbif => PageSize(Gbif)
  }

  /** The cursor of the i-th page request of a run. */
  function CursorAt(src: Source, i: nat): int
  {
    FirstCursor(src) + i * CursorStep(src)
  }

  /** The paging parameters of one search request. */
  datatype Request = Request(cursor: int, size: nat)

  /** One photo (iNaturalist) or media item (GBIF): its URL, and whether
      fetching, decoding and saving the image would succeed. */
  datatype ArtifactRef = ArtifactRef(url: Option<string>, retrievable: bool)

  /** One observation or occurrence with its list of photos or media. */
  datatype Observation = Observation(refs: seq<ArtifactRef>)

  datatype PageOutcome = PageError | Page(results: seq<Observation>)

  datatype Save = Save(url: string, path: string)

  /** What the k-th page request answers. */
  function Response(pages: seq<PageOutcome>, k: nat): PageOutcome
  {
    if k < |pages| then pages[k] else Page([])
  }

  /** `if url:` -- a missing URL and the empty string are both skipped. */
  predicate HasUrl(a: ArtifactRef)
  {
    a.url.Some? && a.url.value != ""
  }

  /** The artifact ends up on disk when it is attempted. */
  predicate Saves(a: ArtifactRef)
  {
    HasUrl(a) && a.retrievable
  }

  /** The image URL fetched for a photo URL: iNaturalist links to the
      "square" thumbnail and the code asks for the "original" instead. */
  function ImageUrl(src: Source, url: string): string
  {
    match src
    case INaturalist => Replace(url, "square", "original")
    case Gbif => url
  }

  /** `f"{species_name.replace(' ', '_')}_{count}.jpg"` */
  function FileName(species: string, n: nat): string
  {
    Replace(species, " ", "_") + "_" + NatToString(n) + ".jpg"
  }

  /* ---------------------------------------------------------------------
     The run as a function: the reference the loop is proved against. */

  /** The counter and the saves made so far in a run. */
  datatype Progress = Progress(count: nat, saves: seq<Save>)

  /** One attempted artifact: on success the image is saved under the current
      count, which then goes up by one; otherwise nothing changes. */
  function Attempt(src: Source, species: string, p: Progress, a: ArtifactRef): Progress
  {
    if Saves(a) then
      Progress(p.count + 1, p.saves + [Save(ImageUrl(src, a.url.value), FileName(species, p.count))])
    else p
  }

  /** The inner loop over one observation's photos or media, which stops
      attempting once the count has reached `max`. */
  function AttemptRefs(src: Source, species: string, p: Progress, max: int, refs: seq<ArtifactRef>): Progress
    decreases |refs|
  {
    if refs == [] || p.count >= max then p
    else AttemptRefs(src, species, Attempt(src, species, p, refs[0]), max, refs[1..])
  }

  /** The loop over the results of one page. */
  function AttemptResults(src: Source, species: string, p: Progress, max: int, results: seq<Observation>): Progress
    decreases |results|
  {
    if results == [] then p
    else AttemptResults(src, species, AttemptRefs(src, species, p, max, results[0].refs), max, results[1..])
  }

  datatype RunResult = RunResult(progress: Progress, requests: nat)

  /** The outer loop from the k-th page request on: it ends when the count has
      reached `max`, on a page error and on an empty page, and reports the
      progress and the number of page requests made. */
  function Run(src: Source, species: string, p: Progress, max: int, pages: seq<PageOutcome>, k: nat): RunResult
    decreases |pages| - k
  {
    if p.count >= max then RunResult(p, k)
    else
      match Response(pages, k)
      case PageError => RunResult(p, k + 1)
      case Page(results) =>
        if results == [] then RunResult(p, k + 1)
        else Run(src, species, AttemptResults(src, species, p, max, results), max, pages, k + 1)
  }

  /** Each "square" of the photo URL becomes "original", scanning left to
      right: the text before the first "square" is kept and the scan goes on
      after it. */
  lemma SquareBecomesOriginal(a: string, b: string)
    requires forall i :: 0 <= i < |a| ==> !OccursAt(a + "square", "square", i)
    ensures ImageUrl(INaturalist, a + "square" + b) == a + "original" + ImageUrl(INaturalist, b)
  {
    ReplaceFirst(a, "square", "original", b);
  }

  /** The saves since index `start` were written to the consecutive file
      names `start`, `start + 1`, ... */
  ghost predicate Consecutive(species: string, start: nat, p: Progress)
  {
    start <= p.count
    && |p.saves| == p.count - start
    && forall i :: 0 <= i < |p.saves| ==> p.saves[i].path == FileName(species, start + i)
  }

  /* ---------------------------------------------------------------------
     Properties of the run. */

  /** Attempting artifacts never lowers the count, keeps the saves made so
      far, keeps the file names consecutive, and never passes `max`. */
  lemma {:induction false} AttemptRefsKeeps(src: Source, species: string, start: nat, p: Progress, max: int, refs: seq<ArtifactRef>)
    requires Consecutive(species, start, p)
    ensures var q := AttemptRefs(src, species, p, max, refs);
      && Consecutive(species, start, q)
      && p.count <= q.count
      && (p.count <= max ==> q.count <= max)
      && q.saves[..|p.saves|] == p.saves
    decreases |refs|
  {
    if refs != [] && p.count < max {
      var p' := Attempt(src, species, p, refs[0]);
      assert Consecutive(species, start, p');
      AttemptRefsKeeps(src, species, start, p', max, refs[1..]);
      var q := AttemptRefs(src, species, p', max, refs[1..]);
      assert q.saves[..|p.saves|] == q.saves[..|p'.saves|][..|p.saves|];
    }
  }

  lemma {:induction false} AttemptResultsKeeps(src: Source, species: string, start: nat, p: Progress, max: int, results: seq<Observation>)
    requires Consecutive(species, start, p)
    ensures var q := AttemptResults(src, species, p, max, results);
      && Consecutive(species, start, q)
      && p.count <= q.count
      && (p.count <= max ==> q.count <= max)
      && q.saves[..|p.saves|] == p.saves
    decreases |results|
  {
    if results != [] {
      var p' := AttemptRefs(src, species, p, max, results[0].refs);
      AttemptRefsKeeps(src, species, start, p, max, results[0].refs);
      AttemptResultsKeeps(src, species, start, p', max, results[1..]);
      var q := AttemptResults(src, species, p', max, results[1..]);
      assert q.saves[..|p.saves|] == q.saves[..|p'.saves|][..|p.saves|];
    }
  }

  /** The whole run keeps the same facts: the final count is at least the
      resume index and at most `max`, and the files written are consecutive. */
  lemma {:induction false} RunKeeps(src: Source, species: string, start: nat, p: Progress, max: int, pages: seq<PageOutcome>, k: nat)
    requires Consecutive(species, start, p)
    ensures var q := Run(src, species, p, max, pages, k).progress;
      && Consecutive(species, start, q)
      && p.count <= q.count
      && (p.count <= max ==> q.count <= max)
      && q.saves[..|p.saves|] == p.saves
    decreases |pages| - k
  {
    if p.count < max && Response(pages, k).Page? && Response(pages, k).results != [] {
      var results := Response(pages, k).results;
      var p' := AttemptResults(src, species, p, max, results);
      AttemptResultsKeeps(src, species, start, p, max, results);
      RunKeeps(src, species, start, p', max, pages, k + 1);
      var q := Run(src, species, p', max, pages, k + 1).progress;
      assert q.saves[..|p.saves|] == q.saves[..|p'.saves|][..|p.saves|];
    } else {
      assert p.saves[..|p.saves|] == p.saves;
    }
  }

  /** The artifacts that would be saved if attempted. */
  function Retrievable(refs: seq<ArtifactRef>): (r: seq<ArtifactRef>)
    ensures |r| <= |refs|
    ensures forall a :: a in r <==> a in refs && Saves(a)
  {
    if refs == [] then []
    else
      assert forall a :: a in refs <==> a == refs[0] || a in refs[1..];
      (if Saves(refs[0]) then [refs[0]] else []) + Retrievable(refs[1..])
  }

  /** A failed artifact, or one without a URL, is skipped and the loop goes
      on: dropping them all changes nothing. */
  lemma {:induction false} FailuresAreSkipped(src: Source, species: string, p: Progress, max: int, refs: seq<ArtifactRef>)
    ensures AttemptRefs(src, species, p, max, refs) == AttemptRefs(src, species, p, max, Retrievable(refs))
    decreases |refs|
  {
    if refs != [] {
      FailuresAreSkipped(src, species, Attempt(src, species, p, refs[0]), max, refs[1..]);
      FailuresAreSkipped(src, species, p, max, refs[1..]);
      if Saves(refs[0]) {
        assert Retrievable(refs) == [refs[0]] + Retrievable(refs[1..]);
        assert Retrievable(refs)[1..] == Retrievable(refs[1..]);
      } else {
        assert Retrievable(refs) == Retrievable(refs[1..]);
      }
    }
  }

  /** The count after one observation: one more per retrievable artifact,
      until `max` is reached. */
  lemma {:induction false} AttemptRefsCount(src: Source, species: string, p: Progress, max: int, refs: seq<ArtifactRef>)
    requires p.count <= max
    ensures AttemptRefs(src, species, p, max, refs).count
         == if p.count + |Retrievable(refs)| <= max then p.count + |Retrievable(refs)| else max
    decreases |refs|
  {
    if refs != [] && p.count < max {
      AttemptRefsCount(src, species, Attempt(src, species, p, refs[0]), max, refs[1..]);
      assert |Retrievable(refs)| == (if Saves(refs[0]) then 1 else 0) + |Retrievable(refs[1..])|;
    }
  }

  /** A page error or an empty page at request `j` ends the run there: no
      later page is requested. */
  lemma {:induction false} RunStopsAt(src: Source, species: string, p: Progress, max: int, pages: seq<PageOutcome>, k: nat, j: nat)
    requires k <= j
    requires Response(pages, j).PageError? || Response(pages, j).results == []
    ensures Run(src, species, p, max, pages, k).requests <= j + 1
    decreases j - k
  {
    if p.count < max && k < j && Response(pages, k).Page? && Response(pages, k).results != [] {
      RunStopsAt(src, species, AttemptResults(src, species, p, max, Response(pages, k).results), max, pages, k + 1, j);
    }
  }

  /** One page that holds enough retrievable artifacts meets the target with
      a single page request: from an empty directory, a target of 5 and five
      good photos give the files 0 to 4 and no second request. */
  lemma {:induction false} OnePageSuffices(src: Source, species: string, start: nat, max: int, refs: seq<ArtifactRef>, pages: seq<PageOutcome>)
    requires start < max <= start + |Retrievable(refs)|
    requires pages == [Page([Observation(refs)])]
    ensures Run(src, species, Progress(start, []), max, pages, 0).requests == 1
    ensures Run(src, species, Progress(start, []), max, pages, 0).progress.count == max
  {
    var p := Progress(start, []);
    AttemptRefsCount(src, species, p, max, refs);
    var q := AttemptRefs(src, species, p, max, refs);
    assert AttemptResults(src, species, p, max, [Observation(refs)]) == q;
    assert Run(src, species, p, max, pages, 0) == Run(src, species, q, max, pages, 1);
  }

  /** The file name of index n reads back as index n. */
  lemma FileNameIndex(species: string, n: nat)
    ensures ResumeIndex.HasIndex(FileName(species, n))
    ensures ResumeIndex.IndexOf(FileName(species, n)) == n
  {
    ResumeIndex.IndexOfNumbered(Replace(species, " ", "_"), NatToString(n));
  }

  /** Different indices give different file names. */
  lemma FileNamesDistinct(species: string, m: nat, n: nat)
    requires m != n
    ensures FileName(species, m) != FileName(species, n)
  {
    FileNameIndex(species, m);
    FileNameIndex(species, n);
  }

  /** No name written from the resume index on is already in the listing. */
  lemma NoOverwrite(species: string, listing: seq<string>, n: nat)
    requires ResumeIndex.NextImageIndex(listing) <= n
    ensures FileName(species, n) !in listing
  {
    FileNameIndex(species, n);
  }

  /** Spaces in the species name become underscores, and nothing else changes. */
  lemma FileNameShape(species: string, n: nat)
    ensures |FileName(species, n)| == |species| + 1 + |NatToString(n)| + 4
    ensures forall i :: 0 <= i < |species| ==>
      FileName(species, n)[i] == if species[i] == ' ' then '_' else species[i]
    ensures FileName(species, n)[|species|..] == "_" + NatToString(n) + ".jpg"
  {
    ReplaceChar(species, " ", "_");
    var u := Replace(species, " ", "_");
    assert FileName(species, n) == u + ("_" + NatToString(n) + ".jpg");
  }

  /** The iNaturalist image URL holds no "square" any more, and a URL without
      one is fetched as it is. */
  lemma ImageUrlRewrite(src: Source, url: string)
    ensures src == INaturalist ==> !Occurs(ImageUrl(src, url), "square")
    ensures !Occurs(url, "square") ==> ImageUrl(src, url) == url
  {
    if src == INaturalist {
      ReplaceLeavesNone(url, "square", "original");
      if !Occurs(url, "square") {
        ReplaceAbsent(url, "square", "original");
      }
    }
  }

  /** The paths saved in a run from the resume index on are pairwise
      different and none is already in the listing. */
  lemma SavesAreNew(species: string, listing: seq<string>, p: Progress)
    requires Consecutive(species, ResumeIndex.NextImageIndex(listing), p)
    ensures forall i, f :: 0 <= i < |p.saves| && f in listing ==> p.saves[i].path != f
    ensures forall i, j :: 0 <= i < j < |p.saves| ==> p.saves[i].path != p.saves[j].path
  {
    SavesNotListed(species, listing, p);
    SavesDistinct(species, ResumeIndex.NextImageIndex(listing), p);
  }

  lemma SavesNotListed(species: string, listing: seq<string>, p: Progress)
    requires Consecutive(species, ResumeIndex.NextImageIndex(listing), p)
    ensures forall i :: 0 <= i < |p.saves| ==> p.saves[i].path !in listing
  {
    var start := ResumeIndex.NextImageIndex(listing);
    forall i | 0 <= i < |p.saves| ensures p.saves[i].path !in listing {
      var n := start + i;
      assert p.saves[i].path == FileName(species, n);
      NoOverwrite(species, listing, n);
    }
  }

  lemma SavesDistinct(species: string, start: nat, p: Progress)
    requires Consecutive(species, start, p)
    ensures forall i, j :: 0 <= i < j < |p.saves| ==> p.saves[i].path != p.saves[j].path
  {
    forall i, j | 0 <= i < j < |p.saves| ensures p.saves[i].path != p.saves[j].path {
      FileNamesDistinct(species, start + i, start + j);
    }
  }

  /** A run that resumes from a directory listing: the count ends between
      the resume index and `max`, the files written are numbered on from the
      resume index, and none is written twice or was already there. */
  lemma RunFromListing(src: Source, species: string, listing: seq<string>, max: int, pages: seq<PageOutcome>)
    ensures var start := ResumeIndex.NextImageIndex(listing);
      var q := Run(src, species, Progress(start, []), max, pages, 0).progress;
      && start <= q.count
      && (start <= max ==> q.count <= max)
      && |q.saves| == q.count - start
      && (forall i :: 0 <= i < |q.saves| ==> q.saves[i].path == FileName(species, start + i))
      && (forall i, f :: 0 <= i < |q.saves| && f in listing ==> q.saves[i].path != f)
      && (forall i, j :: 0 <= i < j < |q.saves| ==> q.saves[i].path != q.saves[j].path)
  {
    var start := ResumeIndex.NextImageIndex(listing);
    RunKeeps(src, species, start, Progress(start, []), max, pages, 0);
    SavesAreNew(species, listing, Run(src, species, Progress(start, []), max, pages, 0).progress);
  }

  /** The paging parameters of the first n page requests of a run. */
  function Requests(src: Source, n: nat): (r: seq<Request>)
    ensures |r| == n
  {
    if n == 0 then [] else Requests(src, n - 1) + [Request(CursorAt(src, n - 1), PageSize(src))]
  }

  lemma {:induction false} RequestsAt(src: Source, n: nat)
    ensures forall i :: 0 <= i < n ==> Requests(src, n)[i] == Request(CursorAt(src, i), PageSize(src))
  {
    if n > 0 {
      RequestsAt(src, n - 1);
    }
  }

  /* ---------------------------------------------------------------------
     The loop. */

  /** The inner `for photo in photos` / `for item in media` loop. */
  method TryArtifacts(src: Source, species: string, maxImages: int, count0: nat, saves0: seq<Save>, refs: seq<ArtifactRef>)
    returns (count: nat, saves: seq<Save>)
    ensures Progress(count, saves) == AttemptRefs(src, species, Progress(count0, saves0), maxImages, refs)
  {
    count, saves := count0, saves0;
    for j := 0 to |refs|
      invariant AttemptRefs(src, species, Progress(count, saves), maxImages, refs[j..])
             == AttemptRefs(src, species, Progress(count0, saves0), maxImages, refs)
    {
      if count >= maxImages {
        break;
      }
      assert refs[j..][0] == refs[j] && refs[j..][1..] == refs[j + 1..];
      var url := refs[j].url;
      if url.Some? && url.value != "" {
        var imageUrl := ImageUrl(src, url.value);
        if refs[j].retrievable {
          saves := saves + [Save(imageUrl, FileName(species, count))];
          count := count + 1;
        }
      }
    }
  }

  /** The `for result in results` loop over one page. */
  method TryResults(src: Source, species: string, maxImages: int, count0: nat, saves0: seq<Save>, results: seq<Observation>)
    returns (count: nat, saves: seq<Save>)
    ensures Progress(count, saves) == AttemptResults(src, species, Progress(count0, saves0), maxImages, results)
  {
    count, saves := count0, saves0;
    for i := 0 to |results|
      invariant AttemptResults(src, species, Progress(count, saves), maxImages, results[i..])
             == AttemptResults(src, species, Progress(count0, saves0), maxImages, results)
    {
      assert results[i..][0] == results[i] && results[i..][1..] == results[i + 1..];
      count, saves := TryArtifacts(src, species, maxImages, count, saves, results[i].refs);
    }
  }

  /** The `while count < max_images` loop, from the resume index `start`. */
  method PageLoop(src: Source, species: string, maxImages: int, start: nat, pages: seq<PageOutcome>)
    returns (count: nat, saves: seq<Save>, requests: seq<Request>)
    ensures Run(src, species, Progress(start, []), maxImages, pages, 0) == RunResult(Progress(count, saves), |requests|)
    ensures requests == Requests(src, |requests|)
  {
    count := start;
    saves := [];
    requests := [];
    var cursor := FirstCursor(src);
    var k := 0;
    while count < maxImages
      invariant k <= |pages|
      invariant cursor == CursorAt(src, k)
      invariant requests == Requests(src, k)
      invariant Run(src, species, Progress(count, saves), maxImages, pages, k)
             == Run(src, species, Progress(start, []), maxImages, pages, 0)
      decreases |pages| - k
    {
      requests := requests + [Request(cursor, PageSize(src))];
      var response := Response(pages, k);
      if response.PageError? {
        k := k + 1;
        break;
      }
      var results := response.results;
      if results == [] {
        k := k + 1;
        break;
      }
      count, saves := TryResults(src, species, maxImages, count, saves, results);
      assert CursorAt(src, k + 1) == CursorAt(src, k) + CursorStep(src);
      cursor := cursor + CursorStep(src);
      k := k + 1;
    }
  }

  /** `download_inaturalist_images` (src = INaturalist) and
      `download_gbif_images` (src = Gbif), over a directory holding `listing`. */
  method DownloadImages(src: Source, species: string, maxImages: int, listing: seq<string>, pages: seq<PageOutcome>)
    returns (count: nat, saves: seq<Save>, requests: seq<Request>)
    ensures Run(src, species, Progress(ResumeIndex.NextImageIndex(listing), []), maxImages, pages, 0)
         == RunResult(Progress(count, saves), |requests|)
    ensures forall i :: 0 <= i < |requests| ==> requests[i] == Request(CursorAt(src, i), PageSize(src))
    ensures ResumeIndex.NextImageIndex(listing) <= count
    ensures ResumeIndex.NextImageIndex(listing) <= maxImages ==> count <= maxImages
    ensures |saves| == count - ResumeIndex.NextImageIndex(listing)
    ensures forall i :: 0 <= i < |saves| ==>
      saves[i].path == FileName(species, ResumeIndex.NextImageIndex(listing) + i)
    ensures forall i, f :: 0 <= i < |saves| && f in listing ==> saves[i].path != f
    ensures forall i, j :: 0 <= i < j < |saves| ==> saves[i].path != saves[j].path
  {
    var start := ResumeIndex.NextImageIndex(listing);
    count, saves, requests := PageLoop(src, species, maxImages, start, pages);
    RequestsAt(src, |requests|);
    RunFromListing(src, species, listing, maxImages, pages);
  }
}
