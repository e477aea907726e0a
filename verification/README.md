# Hop-bounded link search to the Adolf Hitler article, modelled in Dafny

The program takes a Wikipedia article URL and searches breadth-first through the
article links of the pages it fetches for the page
`https://en.wikipedia.org/wiki/Adolf_Hitler`. Each queue entry is a URL and its
depth, and the search goes at most six hops deep. A parent map records which
page each queued link was found on. When the goal turns up, the map is walked
back to the start, and the path is rendered as every URL followed by `" / "`.
The program prompts for a number of worker threads and clamps it to the
hardware's count.

The model has five modules:

- `LinkExtraction` (`link_extraction.dfy`) covers `search_for_links` over an
  element tree datatype of its own. It includes the `href` filter: the text
  must start with `/wiki/` and have no `:` in it, as found by a model of
  `std::string::find`. It also covers prefixing the site root. A recursive
  method appends to the caller's list.
- `PathBuilder` (`path_builder.dfy`) covers `build_path`. A method walks the
  parent map back to the `""` sentinel, reverses the walk and joins
  it. It is proved against ghost functions for the walk and the path.
- `Search` (`search.dfy`) covers the worker loop `scan_queue_for_hitler`, run
  by one worker.
  - Class `Crawler` has the program's shared state as fields: the queue, the
    visited set, the parent map, the found flag and the final path.
  - Its constructor is the seeding in `search_in_parallel`.
  - `Step` is one iteration of the loop and `ScanLinks` is the loop over a
    page's links. `ScanQueue` is the worker loop itself.
  - Each page's links come from an abstract function `linksOf`. `SearchFrom`
    builds it from a fetch-and-parse parameter followed by `SearchForLinks`.
  - Every method is proved against value-level functions: `Discovered`,
    `Entries`, `WithParents` and `RecordGoal`. A ghost invariant, `Valid`,
    is preserved throughout.
  - The invariant says:
    - every queued entry is at most five hops deep and within that many hops
      of the start;
    - each URL is fetched at most once;
    - every parent entry points to a page visited strictly earlier, so the
      parent map has no cycle;
    - once the goal is found, the stored path is a chain of links from the
      start to the goal, and the rendered string is that path joined.
  - While the goal is not found, the loop also keeps a breadth-first shape,
    `Breadth`. Queued depths never decrease along the queue and span at most
    one hop. Every link of a page fetched below the last depth is fetched or
    queued one hop deeper. From this, a search that empties its queue has
    fetched every page within five hops of the start.
- `ThreadCount` (`thread_count.dfy`) covers the clamp of the requested thread
  count in `main`.
- `Wrappers` holds the `Option` type.

Two behaviours of the code shape the model:

- A URL's parent entry is overwritten each time a page queues the link again
  (`Task4/main.cpp:153`); `WithParents` does the same.
- Duplicates are dropped when they are dequeued, not when they are queued
  (`Task4/main.cpp:113`). Every link that is not yet visited is queued, even
  if it is already in the queue. `Step` does the same.

## Model

| member | source | states |
|---|---|---|
| ThreadCount.ClampThreads | Task4/main.cpp:200-205 | A request below 1 becomes 1; a request above the hardware count becomes that count; a request in between is kept; the result is between 1 and the hardware count when that count is at least 1 |
| ThreadCount.ClampThreadsUnknownHardware | Task4/main.cpp:200-205 | When the hardware count is reported as 0, every request of at least one thread is clamped to 0 threads |
| ThreadCount.ClampThreadsZeroWorkers | Task4/main.cpp:200-205 | Concrete case: a request of 4 threads on hardware that reports 0 leaves no worker |
| ThreadCount.HardwareBound | Task4/main.cpp:203-204 | The corrected bound is at least 1 and equals the reported count whenever that count is known |
| ThreadCount.WorkerCount | Task4/main.cpp:200-205 | The corrected clamp always gives between 1 and the hardware bound workers, keeps an in-range request, and agrees with the clamp as written on every machine that reports its count |
| LinkExtraction.Find | Task4/main.cpp:58 | The result is the first position where the pattern occurs, or none when it occurs nowhere |
| LinkExtraction.KeepIff | Task4/main.cpp:58 | An href is kept exactly when it starts with `/wiki/` and contains no `:` |
| LinkExtraction.KeptLinksAppend | Task4/main.cpp:55-60 | Filtering two runs of hrefs one after the other gives the two filtered runs concatenated |
| LinkExtraction.KeptLinksMember | Task4/main.cpp:55-60 | A link is emitted exactly when it is the site root followed by some kept href |
| LinkExtraction.KeptLinksShape | Task4/main.cpp:58-59 | Every emitted link starts with the site root and `/wiki/`, has no `:` after the root, and is not empty |
| LinkExtraction.AnchorHrefsAllSnoc | Task4/main.cpp:63-66 | Adding a child on the right appends that child's hrefs after those of its left siblings |
| LinkExtraction.OwnLinks | Task4/main.cpp:54-61 | A node contributes its own absolute link only if it is an anchor element with an href that passes the filter |
| LinkExtraction.ScanOfNode | Task4/main.cpp:50-67 | A node that is not an element contributes nothing; an element contributes its own link, then its children's links, in order |
| LinkExtraction.SearchForLinks | Task4/main.cpp:50-67 | The scan leaves the collected links in front and appends the kept links of the subtree, in pre-order |
| PathBuilder.ReachesRootUnique | Task4/main.cpp:72-75 | The number of steps from a URL back to the sentinel is fixed by the URL |
| PathBuilder.WalkShape | Task4/main.cpp:72-75 | The walk begins at the URL, holds no sentinel, steps from each URL to its parent, and ends at a URL whose parent is the sentinel |
| PathBuilder.ReversedAt | Task4/main.cpp:76 | The reversal has the same length, and its k-th element is the k-th from the end of the input |
| PathBuilder.PathShape | Task4/main.cpp:72-76 | The path ends at the end URL and begins at a URL whose parent is the sentinel; each element's parent is its predecessor; no element is the sentinel |
| PathBuilder.JoinedAppend | Task4/main.cpp:77-80 | Rendering two paths one after the other gives the two renderings concatenated |
| PathBuilder.JoinedCons | Task4/main.cpp:77-80 | Rendering a path gives its first URL and `" / "`, then the rendering of the rest |
| PathBuilder.BuildPath | Task4/main.cpp:69-81 | The loop collects the walk back from the end URL, reverses it into the start-to-end path, and renders that path as each URL followed by `" / "` |
| Search.LinksNeverEmpty | Task4/main.cpp:119-131 | No page, fetched and scanned, links to the empty URL |
| Search.ReachMonotone | Task4/main.cpp:149-152 | A larger hop budget reaches at least the same pages |
| Search.ReachStep | Task4/main.cpp:149-152 | A link on a page within k hops is within k + 1 hops |
| Search.GoalIndex | Task4/main.cpp:138-148 | The worker handles links up to the first goal link and no further; no earlier link is the goal; there is no goal link exactly when it handles them all |
| Search.UnvisitedMember | Task4/main.cpp:150-151 | A link passes the visited check exactly when it is one of the links and is not visited |
| Search.DiscoveredMember | Task4/main.cpp:138-155 | A page queues a link exactly when the page is below the last depth and the link comes before the first goal link and is not visited; the goal is never queued |
| Search.EntriesAt | Task4/main.cpp:149-152 | The queued entries are the admitted links, in order, each one hop deeper than the page |
| Search.WithParentsAt | Task4/main.cpp:149-155 | After the writes, each queued link's parent is the current page, overwriting any earlier entry; every other entry is kept |
| Search.RecordGoalAt | Task4/main.cpp:141-144 | The corrected record adds the goal with the current page as parent when it has none, and then agrees with the code; no other entry changes |
| Search.RecordGoalAgrees | Task4/main.cpp:141-153 | When the goal is not the start, no fetched page links to it and the parent map is well formed, the corrected record after the page's parent writes equals the record as written |
| Search.CycleNeverReachesRoot | Task4/main.cpp:72-75 | In the as-written parent map of the goal-is-start search, the walks from the goal and from the relay page never reach the sentinel |
| Search.GoalIsStartCounterexample | Task4/main.cpp:143 | When the start is the goal, the as-written record means the goal never reaches the sentinel; the corrected record leaves it one step away |
| Search.VisitedWalk | Task4/main.cpp:72-75 | From any visited page the parent walk ends at the sentinel, through visited pages only, because each parent was visited earlier |
| Search.GoalWalkTerminates | Task4/main.cpp:72-75 | Once the goal has a parent entry, the walk from it ends at the sentinel, through keys of the map only |
| Search.ParentPathIsLinkPath | Task4/main.cpp:151-153 | A path that follows parent entries is a chain of links from the start without repetition |
| Search.PathDistinct | Task4/main.cpp:72-76 | A walk that reaches the sentinel never repeats a URL, and neither does the reconstructed path |
| Search.WalkSuffix | Task4/main.cpp:72-75 | From the i-th URL of a walk of n steps, the sentinel is n - i steps away |
| Search.GoalWalk | Task4/main.cpp:143-144 | Once the goal has a parent entry, path reconstruction terminates, and its path is a chain of links from the start to the goal |
| Search.QueuePopKeepsInvariant | Task4/main.cpp:99-100 | Popping the head leaves a queue of entries still within the hop budget and with parent entries |
| Search.VisitKeepsInvariant | Task4/main.cpp:111-117 | Marking a dequeued URL that is not yet visited as visited keeps the invariant, with the URL appended to the processing order exactly once |
| Search.AdmitKeepsInvariant | Task4/main.cpp:149-155 | Queuing an unvisited link one hop deeper, with the current page as its parent, keeps the invariant |
| Search.AdmitAllKeepsInvariant | Task4/main.cpp:149-155 | Queuing a run of unvisited non-goal links of the current page keeps the invariant |
| Search.DiscoveredKeepsInvariant | Task4/main.cpp:138-155 | What a processed page queues, and the parent writes for it, keep the invariant |
| Search.AddGoalKeepsInvariant | Task4/main.cpp:141-144 | Recording the goal's parent as a page that links to it keeps the invariant |
| Search.AdmittedSnoc | Task4/main.cpp:149-155 | Handling one more link extends the queue and the parent map by that link exactly when it is admitted, and leaves them unchanged otherwise |
| Search.Crawler.constructor | Task4/main.cpp:162-165 | The search starts with only the start, at depth 0, in the queue, with the sentinel as its parent, nothing visited and nothing found, and the invariant holds |
| Search.Crawler.Step | Task4/main.cpp:99-157 | It returns the dequeued head entry. A visited head entry is dropped and nothing else changes. Otherwise its URL is marked visited and added to the processing order once. The links the page admits are queued one hop deeper, with the page as their parent. The flag is set exactly when the page links to the goal. The invariant is kept. |
| Search.Crawler.Visit | Task4/main.cpp:111-157 | Marking a URL visited and handling its page gives the visited set, processing order, queue, parent map and flag stated under Step, and keeps the invariant |
| Search.Crawler.ProcessPage | Task4/main.cpp:119-157 | Handling the links of a page just marked visited gives the new queue, parent map and flag, and restores the invariant, including the path once the goal is found |
| Search.Crawler.ScanLinks | Task4/main.cpp:138-156 | The link loop queues the admitted links before the first goal link, overwriting their parents. On a goal link it records the goal's parent, sets the flag, renders the path built by path reconstruction and stops. Without one it leaves the flag and the path alone. |
| Search.PopKeepsLayered | Task4/main.cpp:99-100 | Dropping the head entry keeps queued depths non-decreasing and within one hop of each other, and no fetched depth exceeds a queued one |
| Search.PopCovered | Task4/main.cpp:111-117 | Dropping a head entry whose URL was already fetched no deeper keeps any link fetched or queued at the depth it was before |
| Search.PopKeepsClosed | Task4/main.cpp:111-117 | Skipping an already visited entry keeps every link of every page fetched below the last depth fetched or queued one hop deeper |
| Search.PopKeepsBreadth | Task4/main.cpp:99-117 | Skipping an already visited head entry keeps the breadth-first shape |
| Search.VisitKeepsLayered | Task4/main.cpp:149-152 | Fetching the head entry and queuing entries one hop deeper than it keeps the queue layered, with the page's depth recorded |
| Search.VisitCovered | Task4/main.cpp:111-117 | A link fetched or queued before the head entry is fetched stays so afterwards; if the head entry was that queued link, it is now fetched at its depth |
| Search.AdmittedCovered | Task4/main.cpp:149-152 | On a page with no goal link, fetched below the last depth, every unvisited link is queued one hop deeper |
| Search.VisitKeepsClosed | Task4/main.cpp:111-155 | Fetching a page with no goal link and queuing what it admits leaves every link of every page fetched below the last depth fetched or queued one hop deeper |
| Search.VisitKeepsBreadth | Task4/main.cpp:111-155 | Fetching the head entry, when its page has no goal link, keeps the breadth-first shape with the page recorded at the entry's depth |
| Search.StepKeepsBreadth | Task4/main.cpp:99-157 | One iteration of the worker loop that does not find the goal keeps the breadth-first shape, whether the head entry is skipped or fetched |
| Search.ClosedCovers | Task4/main.cpp:83-100 | When the queue is empty and the start was fetched at depth 0, every page within k hops of the start was fetched, at depth at most k, for every k up to five |
| Search.Crawler.ScanQueue | Task4/main.cpp:83-159 | The worker loop terminates with the goal found or the queue empty. When found, the path is a chain of links from the start to the goal and the rendered string is that path joined, and the goal was found on a page within five hops. When not, every page within five hops of the start was fetched and none links to the goal. It fetches only pages within five hops. |
| Search.SearchFrom | Task4/main.cpp:161-188 | Seeding and running the search reports the goal found exactly when some page within five hops of the start links to it; when found, the rendering is that of a real chain of links from the start to the goal; when not, the rendering is empty |

## Left out

- Fetching: libcurl and its write callback (`Task4/main.cpp:24-48`) are network I/O. A page's fetched-and-parsed document is a parameter of `SearchFrom` (`fetch`). Inside the class it is the function `linksOf` that gives a page's links. An empty body or a parse failure yields no links.
- HTML parsing: Gumbo parsing and freeing are foreign library calls. Only the tree walk over the model's own `Node` datatype is modelled. Of an element, only the tag (anchor or other) and the optional `href` are kept.
- Threads and synchronisation: threads, mutexes, the condition variable, the atomic flag and `notify_all` are left out, and one worker runs the loop. In the program, a worker that finds the queue empty and the goal not found waits forever at `Task4/main.cpp:89`, because nothing can make its wait condition true. This holds for a lone worker as well as for several. So for any positive thread count the program never prints the not-found line (`Task4/main.cpp:180-182`); only the 0-thread case in Findings reaches it. In the model the loop ends when the queue is empty, and `SearchFrom`'s `!found` outcome stands for that hang. The empty-queue re-check after the wait (`Task4/main.cpp:95-97`) cannot be reached after the wait's predicate, so it is not modelled. The early return when another worker has found the goal (`Task4/main.cpp:91-93`) is the loop's `!found` condition.
- Console I/O: the prompts, the reading of the start URL and the thread count, and the progress and result printing are left out. `hardware_concurrency()` and the requested count are parameters of the clamp. The default request of half the hardware count (`Task4/main.cpp:192`) is not modelled.
- `build_path` reads the parent map with `operator[]`, which inserts an empty entry for a missing key. The model reads a missing key as the sentinel and does not insert it. The invariant shows every URL on the walk is a key, so the insertion never happens.
- Search.Crawler.ScanLinks: uses the corrected record of the goal's parent (`RecordGoal`). It differs from the code only when the start page is the goal (`RecordGoalAgrees`); see Findings.
- The path length is not claimed to equal the dequeued depth plus one. The parent overwrite can attach a page to a later, deeper discoverer.
- Fixed-width integers: depths and thread counts are unbounded integers. The program's values never come near the width of `int`. The comparison of the signed request with the unsigned hardware count is reached only for requests of at least 1, where it agrees with the mathematical comparison.

## Findings

| source | as written | input that shows it | evidently intended | confidence | as-written member | corrected member |
|---|---|---|---|---|---|---|
| Task4/main.cpp:143 | When a page links to the goal, the goal's parent entry is overwritten with that page, even when the goal is the start page, whose entry is the sentinel | Start at `https://en.wikipedia.org/wiki/Adolf_Hitler`, whose page links to a page that links back to it. The parent map becomes a two-page cycle, so `build_path` never reaches the sentinel and loops forever | The start page, being the goal, keeps its sentinel, so the path is the start alone | not executed | Search.GoalIsStartCounterexample | Search.RecordGoalAt |
| Task4/main.cpp:200-205 | A request above `hardware_concurrency()` is clamped to it, and `hardware_concurrency()` may report 0 when the count is unknown | Hardware reporting 0 and a request of 4 gives 0 threads. No worker runs, and the search reports that the goal was not found | At least one worker | not executed | ThreadCount.ClampThreadsZeroWorkers | ThreadCount.WorkerCount |
