/**
 The hop-bounded breadth-first search from a start page to the goal page, run
 by one worker.

 The worker drains a FIFO queue of (url, depth) entries. An entry whose URL was
 already visited is dropped; otherwise the URL is marked visited and its page's
 links are scanned. A link equal to the goal ends the search: the goal's parent
 entry becomes the current page and the path is rebuilt from the parent map.
 Any other link is queued at the next depth, with the current page as its
 parent entry, when the current depth is below the last allowed one and the
 link has not been visited yet. Duplicates may sit in the queue; they are
 dropped when dequeued.

 The search is stated for any goal URL and over an abstract function `linksOf`
 giving the links of each page, in page order; it stands for fetching the
 page, parsing it and scanning the document (an empty or unparsable page has
 no links). The one thing the search needs of it is that no page links to the
 empty URL, which the link scan guarantees. `SearchFrom` instantiates both:
 the program's goal page, and a fetch-and-parse function followed by the link
 scan of `LinkExtraction`.
 */
module Search {
  import opened Wrappers
  import opened LinkExtraction
  import opened PathBuilder

  /** The page the program looks for. */
  const HitlerUrl: string := "https://en.wikipedia.org/wiki/Adolf_Hitler"
  /** The hop budget: entries are queued at depths 0 to MaxHops - 1. */
  const MaxHops: int := 6

  /** A queue entry: a URL and the number of hops from the start at which it
      was discovered. */
  datatype Entry = Entry(url: string, depth: int)

  /** The links of the page at `u`, given a function that fetches and parses a
      page; a page that is empty or does not parse has none. */
  function Links(fetch: string -> Option<Node>, u: string): seq<string>
  {
    match fetch(u)
    case None => []
    case Some(root) => PageLinks(root)
  }

  /** No page links to the empty URL, since every scanned link starts with the
      site root. */
  lemma LinksNeverEmpty(fetch: string -> Option<Node>, u: string)
    ensures "" !in Links(fetch, u)
  {
    if fetch(u).Some? && "" in Links(fetch, u) {
      KeptLinksShape(AnchorHrefs(fetch(u).value), "");
    }
  }

  /** No page links to the empty URL, the parent sentinel. */
  ghost predicate NoEmptyLink(linksOf: string -> seq<string>)
  {
    forall u :: "" !in linksOf(u)
  }

  // ---------------------------------------------------------------------------
  // Pages within a number of hops
  // ---------------------------------------------------------------------------

  /** The URLs some page of `s` links to. */
  ghost function Successors(linksOf: string -> seq<string>, s: set<string>): set<string>
  {
    set u, l | u in s && l in linksOf(u) :: l
  }

  /** The URLs at most `k` hops from `start`. */
  ghost function Reach(linksOf: string -> seq<string>, start: string, k: nat): set<string>
  {
    if k == 0 then {start}
    else
      var r := Reach(linksOf, start, k - 1);
      r + Successors(linksOf, r)
  }

  /** A larger hop budget reaches at least the same URLs. */
  lemma {:induction false} ReachMonotone(linksOf: string -> seq<string>, start: string, j: nat, k: nat)
    requires j <= k
    ensures Reach(linksOf, start, j) <= Reach(linksOf, start, k)
    decreases k
  {
    if j < k {
      ReachMonotone(linksOf, start, j, k - 1);
      var r := Reach(linksOf, start, k - 1);
      assert Reach(linksOf, start, k) == r + Successors(linksOf, r);
    }
  }

  /** Following one link from a URL within `k` hops gives a URL within `k + 1`. */
  lemma ReachStep(linksOf: string -> seq<string>, start: string, k: nat, u: string, l: string)
    requires u in Reach(linksOf, start, k) && l in linksOf(u)
    ensures l in Reach(linksOf, start, k + 1)
  {
    assert l in Successors(linksOf, Reach(linksOf, start, k));
  }

  // ---------------------------------------------------------------------------
  // What one page contributes
  // ---------------------------------------------------------------------------

  /** The position of the first link equal to the goal, or the number of links
      when there is none: the links the worker handles before it stops. */
  function GoalIndex(ls: seq<string>, goal: string): (k: nat)
    ensures k <= |ls|
    ensures forall i :: 0 <= i < k ==> ls[i] != goal
    ensures k < |ls| ==> ls[k] == goal
    ensures k == |ls| <==> goal !in ls
  {
    if ls == [] then 0
    else if ls[0] == goal then 0
    else 1 + GoalIndex(ls[1..], goal)
  }

  /** The links of `ls` that are not in `visited`, in order, duplicates kept. */
  function Unvisited(ls: seq<string>, visited: set<string>): seq<string>
  {
    if ls == [] then []
    else
      var init := Unvisited(ls[..|ls| - 1], visited);
      if ls[|ls| - 1] in visited then init else init + [ls[|ls| - 1]]
  }

  /** A link survives the visited filter exactly when it is among `ls` and not
      visited. */
  lemma {:induction false} UnvisitedMember(ls: seq<string>, visited: set<string>, l: string)
    ensures l in Unvisited(ls, visited) <==> l in ls && l !in visited
    decreases |ls|
  {
    if ls != [] {
      var init := ls[..|ls| - 1];
      UnvisitedMember(init, visited, l);
      assert ls == init + [ls[|ls| - 1]];
    }
  }

  /** The links among `ls` that a page at `depth` queues when it handles all of
      them: the unvisited ones, provided the depth is below the last allowed one. */
  function Admitted(ls: seq<string>, visited: set<string>, depth: int): seq<string>
  {
    if depth < MaxHops - 1 then Unvisited(ls, visited) else []
  }

  /** The links a page at `depth` with links `ls` queues: those handled before
      the first goal link that are admitted. */
  function Discovered(ls: seq<string>, visited: set<string>, depth: int, goal: string): seq<string>
  {
    Admitted(ls[..GoalIndex(ls, goal)], visited, depth)
  }

  /** What a page queues: only below the last allowed depth, never the goal,
      never a visited URL, and, below that depth, every link handled before the
      first goal link that is not visited. */
  lemma DiscoveredMember(ls: seq<string>, visited: set<string>, depth: int, goal: string, l: string)
    ensures l in Discovered(ls, visited, depth, goal) <==>
      depth < MaxHops - 1 && l in ls[..GoalIndex(ls, goal)] && l !in visited
    ensures l in Discovered(ls, visited, depth, goal) ==> l in ls && l != goal
  {
    var k := GoalIndex(ls, goal);
    UnvisitedMember(ls[..k], visited, l);
    if l in ls[..k] {
      var j :| 0 <= j < k && ls[..k][j] == l;
    }
  }

  /** The entries queued for `ls`, all at `depth`, in order. */
  function Entries(ls: seq<string>, depth: int): seq<Entry>
  {
    if ls == [] then [] else Entries(ls[..|ls| - 1], depth) + [Entry(ls[|ls| - 1], depth)]
  }

  /** The queued entries are the links, in order, each at the given depth. */
  lemma {:induction false} EntriesAt(ls: seq<string>, depth: int)
    ensures |Entries(ls, depth)| == |ls|
    ensures forall i :: 0 <= i < |ls| ==> Entries(ls, depth)[i] == Entry(ls[i], depth)
    decreases |ls|
  {
    if ls != [] {
      EntriesAt(ls[..|ls| - 1], depth);
    }
  }

  /** The parent map after each link of `ls` in turn is given parent `v`. */
  function WithParents(parent: map<string, string>, ls: seq<string>, v: string): map<string, string>
  {
    if ls == [] then parent
    else WithParents(parent, ls[..|ls| - 1], v)[ls[|ls| - 1] := v]
  }

  /** After the writes, the links of `ls` are keys whose parent is `v`, even
      those that had a parent before; every other entry is kept. */
  lemma {:induction false} WithParentsAt(parent: map<string, string>, ls: seq<string>, v: string, u: string)
    ensures u in WithParents(parent, ls, v) <==> u in parent || u in ls
    ensures u in ls ==> WithParents(parent, ls, v)[u] == v
    ensures u !in ls && u in parent ==> WithParents(parent, ls, v)[u] == parent[u]
    decreases |ls|
  {
    if ls != [] {
      WithParentsAt(parent, ls[..|ls| - 1], v, u);
      assert ls == ls[..|ls| - 1] + [ls[|ls| - 1]];
    }
  }

  /** Recording the goal's parent when a page links to it. The goal gets the
      current page as parent unless it already has an entry, which happens
      only when the goal is the start page. */
  function RecordGoal(parent: map<string, string>, goal: string, current: string): map<string, string>
  {
    if goal in parent then parent else parent[goal := current]
  }

  /** Recording the goal's parent as the program writes it: the entry is
      overwritten with the current page, even when the goal is the start. */
  function RecordGoalAsWritten(parent: map<string, string>, goal: string, current: string): map<string, string>
  {
    parent[goal := current]
  }

  /** The corrected record adds the goal with the current page as parent when
      it has no entry, and then agrees with the record as written; an existing
      entry is kept; no other entry changes. */
  lemma RecordGoalAt(parent: map<string, string>, goal: string, current: string)
    ensures RecordGoal(parent, goal, current).Keys == parent.Keys + {goal}
    ensures goal !in parent ==> RecordGoal(parent, goal, current)[goal] == current
    ensures goal !in parent ==> RecordGoal(parent, goal, current) == RecordGoalAsWritten(parent, goal, current)
    ensures forall u :: u in parent ==> RecordGoal(parent, goal, current)[u] == parent[u]
  {
  }

  /** The corrected record differs from the record as written only when the
      goal is the start: in a search whose parent map is well formed and none
      of whose fetched pages links to the goal, a page other than the start
      that links to the goal, after writing the parents of the links it
      admits (the goal never among them), records the goal as the code does. */
  lemma RecordGoalAgrees(linksOf: string -> seq<string>, start: string, goal: string, visited: set<string>,
                         parent: map<string, string>, rank: map<string, nat>, processed: seq<string>,
                         admitted: seq<string>, current: string)
    requires ParentsOK(linksOf, start, visited, parent, rank, processed)
    requires forall u :: u in visited ==> goal !in linksOf(u)
    requires start != goal && goal !in admitted
    ensures var written := WithParents(parent, admitted, current);
      RecordGoal(written, goal, current) == RecordGoalAsWritten(written, goal, current)
  {
    WithParentsAt(parent, admitted, current, goal);
  }

  /** A page of the goal-is-start search that links back to the goal. */
  const Relay: string := "https://en.wikipedia.org/wiki/Nazi_Germany"

  /** The parent map of a search started at the goal page, once the goal page
      (which links to `Relay`) has been processed: the start's sentinel entry
      and `Relay`'s entry pointing back at the goal. */
  function GoalStartParents(): map<string, string>
  {
    map[HitlerUrl := "", Relay := HitlerUrl]
  }

  /** Following parents around the cycle goal -> Relay -> goal never ends. */
  lemma {:induction false} CycleNeverReachesRoot(m: map<string, string>, n: nat)
    requires m == RecordGoalAsWritten(GoalStartParents(), HitlerUrl, Relay)
    ensures !ReachesRootIn(m, HitlerUrl, n) && !ReachesRootIn(m, Relay, n)
  {
    assert ParentOf(m, HitlerUrl) == Relay && ParentOf(m, Relay) == HitlerUrl;
    if n > 0 {
      CycleNeverReachesRoot(m, n - 1);
    }
  }

  /** When the start page is the goal and `Relay` links back to it, the
      as-written record makes the walk of path reconstruction loop forever,
      while the corrected record leaves the goal as a one-page path. */
  lemma GoalIsStartCounterexample()
    ensures forall n: nat :: !ReachesRootIn(RecordGoalAsWritten(GoalStartParents(), HitlerUrl, Relay), HitlerUrl, n)
    ensures ReachesRootIn(RecordGoal(GoalStartParents(), HitlerUrl, Relay), HitlerUrl, 1)
  {
    forall n: nat
      ensures !ReachesRootIn(RecordGoalAsWritten(GoalStartParents(), HitlerUrl, Relay), HitlerUrl, n)
    {
      CycleNeverReachesRoot(RecordGoalAsWritten(GoalStartParents(), HitlerUrl, Relay), n);
    }
    var m := RecordGoal(GoalStartParents(), HitlerUrl, Relay);
    assert m == GoalStartParents();
    assert ParentOf(m, HitlerUrl) == "";
    assert ReachesRootIn(m, "", 0);
  }

  // ---------------------------------------------------------------------------
  // The search invariant
  // ---------------------------------------------------------------------------

  /** A queue entry respects the hop budget, its URL is that many hops from the
      start, and it is the goal only when the goal is the start. */
  ghost predicate EntryOK(linksOf: string -> seq<string>, start: string, goal: string, e: Entry)
  {
    && 0 <= e.depth <= MaxHops - 1
    && e.url in Reach(linksOf, start, e.depth)
    && (e.url == goal ==> e.url == start)
  }

  /** What holds between iterations of the worker loop: the queue, the visit
      log and the parent map are each well formed. */
  ghost predicate Invariant(linksOf: string -> seq<string>, start: string, goal: string, queue: seq<Entry>,
                            visited: set<string>, parent: map<string, string>,
                            rank: map<string, nat>, processed: seq<string>)
  {
    && QueueOK(linksOf, start, goal, queue, visited, parent)
    && VisitLogOK(linksOf, start, visited, processed)
    && ParentsOK(linksOf, start, visited, parent, rank, processed)
  }

  /** Every queued entry is within budget and has a parent entry; before
      anything is visited the queue holds only the start at depth 0. */
  ghost predicate QueueOK(linksOf: string -> seq<string>, start: string, goal: string, queue: seq<Entry>,
                          visited: set<string>, parent: map<string, string>)
  {
    && (forall i :: 0 <= i < |queue| ==> EntryOK(linksOf, start, goal, queue[i]) && queue[i].url in parent)
    && (visited == {} ==> queue == [Entry(start, 0)])
  }

  /** The visited set includes the start once anything is visited and lies
      within the hop budget; `processed`, the URLs in the order they were
      marked visited, lists it without repetition. */
  ghost predicate VisitLogOK(linksOf: string -> seq<string>, start: string, visited: set<string>,
                             processed: seq<string>)
  {
    && (visited != {} ==> start in visited)
    && visited <= Reach(linksOf, start, MaxHops - 1)
    && (forall i, j :: 0 <= i < j < |processed| ==> processed[i] != processed[j])
    && (forall u :: u in visited <==> u in processed)
  }

  /** The start's parent entry is the sentinel; every visited URL has an entry;
      every other entry names a visited page that links to the key; and a
      visited key was visited after its parent (`rank` gives each visited URL
      its position in `processed`). */
  ghost predicate ParentsOK(linksOf: string -> seq<string>, start: string, visited: set<string>,
                            parent: map<string, string>, rank: map<string, nat>, processed: seq<string>)
  {
    && start in parent && parent[start] == ""
    && visited <= parent.Keys
    && rank.Keys == visited
    && (forall u :: u in rank ==> rank[u] < |processed|)
    && (forall u :: u in parent && u != start ==> parent[u] in visited && u in linksOf(parent[u]))
    && (forall u {:trigger rank[u], parent[u]} :: u in visited && u != start ==> rank[parent[u]] < rank[u])
  }

  /** `p` is a chain of links from the start: it begins at the start (or, when
      the start is the empty URL, which coincides with the sentinel, at a page
      the start links to), each page links to the next one, and no page repeats. */
  ghost predicate IsLinkPath(linksOf: string -> seq<string>, start: string, p: seq<string>)
  {
    && |p| >= 1
    && (p[0] == start || (start == "" && p[0] in linksOf(start)))
    && (forall i :: 0 < i < |p| ==> p[i] in linksOf(p[i - 1]))
    && (forall i, j :: 0 <= i < j < |p| ==> p[i] != p[j])
  }

  /** The path reconstructed for the goal: it is the walk back from the goal
      through `parent`, every URL on it has an entry, and it is a chain of
      links from the start to the goal. */
  ghost predicate GoalPathOK(linksOf: string -> seq<string>, start: string, goal: string,
                             parent: map<string, string>, path: seq<string>)
  {
    && ReachesRootIn(parent, goal, |path|)
    && path == PathTo(parent, goal, |path|)
    && (forall i :: 0 <= i < |path| ==> path[i] in parent)
    && IsLinkPath(linksOf, start, path)
    && path[|path| - 1] == goal
  }

  // ---------------------------------------------------------------------------
  // Acyclicity of the parent map
  // ---------------------------------------------------------------------------

  /** Following parents from a visited URL terminates, and every URL passed is
      visited: each step goes to a page visited strictly earlier. */
  lemma {:induction false} VisitedWalk(linksOf: string -> seq<string>, start: string, visited: set<string>,
                                       parent: map<string, string>, rank: map<string, nat>,
                                       processed: seq<string>, u: string)
    returns (n: nat)
    requires ParentsOK(linksOf, start, visited, parent, rank, processed)
    requires u in visited
    ensures ReachesRootIn(parent, u, n)
    ensures |WalkBack(parent, u, n)| == n
    ensures forall i :: 0 <= i < n ==> WalkBack(parent, u, n)[i] in visited
    decreases rank[u]
  {
    if u == "" {
      n := 0;
    } else if u == start || parent[u] == "" {
      n := 1;
      assert ParentOf(parent, u) == "";
      assert ReachesRootIn(parent, "", 0);
      assert WalkBack(parent, u, n) == [u];
    } else {
      var m := VisitedWalk(linksOf, start, visited, parent, rank, processed, parent[u]);
      n := m + 1;
      assert ParentOf(parent, u) == parent[u];
      assert WalkBack(parent, u, n) == [u] + WalkBack(parent, parent[u], m);
    }
    WalkShape(parent, u, n);
  }

  /** Once the goal has a parent entry, following parents from the goal
      terminates, and every URL passed has an entry: the goal itself, then
      visited pages. */
  lemma GoalWalkTerminates(linksOf: string -> seq<string>, start: string, goal: string, visited: set<string>,
                           parent: map<string, string>, rank: map<string, nat>, processed: seq<string>)
    returns (n: nat)
    requires ParentsOK(linksOf, start, visited, parent, rank, processed)
    requires goal in parent
    ensures ReachesRootIn(parent, goal, n)
    ensures |WalkBack(parent, goal, n)| == n
    ensures forall i :: 0 <= i < n ==> WalkBack(parent, goal, n)[i] in parent
  {
    if goal == "" {
      n := 0;
    } else if goal == start || parent[goal] == "" {
      n := 1;
      assert ReachesRootIn(parent, "", 0);
      assert WalkBack(parent, goal, n) == [goal];
    } else {
      var m := VisitedWalk(linksOf, start, visited, parent, rank, processed, parent[goal]);
      n := m + 1;
      assert ParentOf(parent, goal) == parent[goal];
      assert WalkBack(parent, goal, n) == [goal] + WalkBack(parent, parent[goal], m);
    }
  }

  /** A path that follows parent entries in a well-formed parent map is a chain
      of links from the start: no URL after the first can be the start (whose
      entry is the sentinel), so each is linked from its parent; and the first
      URL, whose entry is the sentinel, is the start unless the start is the
      empty URL, since no page links to the empty URL. */
  lemma ParentPathIsLinkPath(linksOf: string -> seq<string>, start: string, visited: set<string>,
                             parent: map<string, string>, rank: map<string, nat>, processed: seq<string>,
                             p: seq<string>)
    requires ParentsOK(linksOf, start, visited, parent, rank, processed)
    requires |p| >= 1
    requires forall i :: 0 <= i < |p| ==> p[i] in parent && p[i] != ""
    requires ParentOf(parent, p[0]) == ""
    requires forall i :: 0 < i < |p| ==> ParentOf(parent, p[i]) == p[i - 1]
    requires forall i, j :: 0 <= i < j < |p| ==> p[i] != p[j]
    requires NoEmptyLink(linksOf)
    ensures IsLinkPath(linksOf, start, p)
  {
    forall i | 0 < i < |p|
      ensures p[i] in linksOf(p[i - 1])
    {
      assert parent[p[i]] == p[i - 1] != "";
      assert p[i] != start;
    }
    if p[0] != start {
      assert parent[p[0]] == "" && p[0] in linksOf("");
      if start != "" {
        assert false;
      }
    }
  }

  /** A walk that reaches the sentinel passes no URL twice, so neither does the
      reconstructed path. */
  lemma PathDistinct(parent: map<string, string>, u: string, n: nat)
    requires ReachesRootIn(parent, u, n)
    ensures forall i, j :: 0 <= i < j < |PathTo(parent, u, n)| ==> PathTo(parent, u, n)[i] != PathTo(parent, u, n)[j]
  {
    var w := WalkBack(parent, u, n);
    WalkShape(parent, u, n);
    forall i, j | 0 <= i < j < n
      ensures w[i] != w[j]
    {
      WalkSuffix(parent, u, n, i);
      WalkSuffix(parent, u, n, j);
      if w[i] == w[j] {
        ReachesRootUnique(parent, w[i], n - i, n - j);
      }
    }
    var p := PathTo(parent, u, n);
    ReversedLength(w);
    forall i, j | 0 <= i < j < n
      ensures p[i] != p[j]
    {
      ReversedAt(w, i);
      ReversedAt(w, j);
    }
  }

  /** From the `i`-th URL of a walk, the sentinel is `n - i` steps away. */
  lemma {:induction false} WalkSuffix(parent: map<string, string>, u: string, n: nat, i: nat)
    requires ReachesRootIn(parent, u, n) && i < n
    ensures |WalkBack(parent, u, n)| == n
    ensures ReachesRootIn(parent, WalkBack(parent, u, n)[i], n - i)
    decreases i
  {
    WalkShape(parent, u, n);
    if i > 0 {
      WalkSuffix(parent, ParentOf(parent, u), n - 1, i - 1);
      assert WalkBack(parent, u, n) == [u] + WalkBack(parent, ParentOf(parent, u), n - 1);
    }
  }

  /** Once the goal has a parent entry, the walk from the goal terminates and
      the path it gives is a chain of links from the start to the goal, all of
      whose URLs have parent entries. */
  lemma GoalWalk(linksOf: string -> seq<string>, start: string, goal: string, visited: set<string>,
                 parent: map<string, string>, rank: map<string, nat>, processed: seq<string>)
    returns (n: nat)
    requires ParentsOK(linksOf, start, visited, parent, rank, processed)
    requires goal in parent && goal != ""
    requires NoEmptyLink(linksOf)
    ensures ReachesRootIn(parent, goal, n)
    ensures GoalPathOK(linksOf, start, goal, parent, PathTo(parent, goal, n))
  {
    n := GoalWalkTerminates(linksOf, start, goal, visited, parent, rank, processed);
    var w := WalkBack(parent, goal, n);
    var p := PathTo(parent, goal, n);
    PathShape(parent, goal, n);
    PathDistinct(parent, goal, n);
    forall k | 0 <= k < n
      ensures p[k] in parent
    {
      ReversedAt(w, k);
    }
    ParentPathIsLinkPath(linksOf, start, visited, parent, rank, processed, p);
  }

  // ---------------------------------------------------------------------------
  // The steps of the worker keep the invariant
  // ---------------------------------------------------------------------------

  /** Dropping the head of the queue keeps the invariant's queue part, as long
      as something was visited or the head is processed next. */
  lemma QueuePopKeepsInvariant(linksOf: string -> seq<string>, start: string, goal: string, queue: seq<Entry>,
                               visited: set<string>, parent: map<string, string>)
    requires QueueOK(linksOf, start, goal, queue, visited, parent) && queue != []
    ensures forall i :: 0 <= i < |queue| - 1 ==>
      EntryOK(linksOf, start, goal, queue[1..][i]) && queue[1..][i].url in parent
    ensures visited == {} ==> queue[0] == Entry(start, 0) && queue[1..] == []
  {
    assert forall i :: 0 <= i < |queue| - 1 ==> queue[1..][i] == queue[i + 1];
  }

  /** Marking the URL of a dequeued entry visited, as the next one in the
      processing order, keeps the invariant for the rest of the queue. */
  lemma VisitKeepsInvariant(linksOf: string -> seq<string>, start: string, goal: string, rest: seq<Entry>,
                            visited: set<string>, parent: map<string, string>,
                            rank: map<string, nat>, processed: seq<string>, e: Entry)
    requires forall i :: 0 <= i < |rest| ==> EntryOK(linksOf, start, goal, rest[i]) && rest[i].url in parent
    requires visited == {} ==> e == Entry(start, 0) && rest == []
    requires VisitLogOK(linksOf, start, visited, processed)
    requires ParentsOK(linksOf, start, visited, parent, rank, processed)
    requires EntryOK(linksOf, start, goal, e) && e.url in parent && e.url !in visited
    ensures Invariant(linksOf, start, goal, rest, visited + {e.url}, parent,
                      rank[e.url := |processed|], processed + [e.url])
  {
    ReachMonotone(linksOf, start, e.depth, MaxHops - 1);
    var v := visited + {e.url};
    var pr := processed + [e.url];
    var r := rank[e.url := |processed|];
    assert start in v;
    assert QueueOK(linksOf, start, goal, rest, v, parent);
    assert e.url !in processed;
    assert forall i :: 0 <= i < |processed| ==> pr[i] == processed[i];
    assert VisitLogOK(linksOf, start, v, pr);
    assert ParentsOK(linksOf, start, v, parent, r, pr);
  }

  /** Queuing a link that is not visited and not the goal, at the next depth,
      with the current page as its parent, keeps the invariant. */
  lemma AdmitKeepsInvariant(linksOf: string -> seq<string>, start: string, goal: string, queue: seq<Entry>,
                            visited: set<string>, parent: map<string, string>,
                            rank: map<string, nat>, processed: seq<string>, e: Entry, link: string)
    requires Invariant(linksOf, start, goal, queue, visited, parent, rank, processed)
    requires EntryOK(linksOf, start, goal, e) && e.url in visited && e.depth < MaxHops - 1
    requires link in linksOf(e.url) && link !in visited && link != goal
    ensures Invariant(linksOf, start, goal, queue + [Entry(link, e.depth + 1)], visited,
                      parent[link := e.url], rank, processed)
  {
    var q := queue + [Entry(link, e.depth + 1)];
    var p := parent[link := e.url];
    ReachStep(linksOf, start, e.depth, e.url, link);
    assert EntryOK(linksOf, start, goal, q[|queue|]);
    assert forall i :: 0 <= i < |queue| ==> q[i] == queue[i];
    assert QueueOK(linksOf, start, goal, q, visited, p);
    assert start in visited && link != start;
    assert ParentsOK(linksOf, start, visited, p, rank, processed);
  }

  /** Queuing each link of `ls` in turn, at the next depth and with the current
      page as its parent, keeps the invariant when none of them is visited or
      the goal. */
  lemma {:induction false} AdmitAllKeepsInvariant(linksOf: string -> seq<string>, start: string, goal: string,
                                                  queue: seq<Entry>, visited: set<string>,
                                                  parent: map<string, string>, rank: map<string, nat>,
                                                  processed: seq<string>, e: Entry, ls: seq<string>)
    requires Invariant(linksOf, start, goal, queue, visited, parent, rank, processed)
    requires EntryOK(linksOf, start, goal, e) && e.url in visited && e.depth < MaxHops - 1
    requires forall i :: 0 <= i < |ls| ==> ls[i] in linksOf(e.url) && ls[i] !in visited && ls[i] != goal
    ensures Invariant(linksOf, start, goal, queue + Entries(ls, e.depth + 1), visited,
                      WithParents(parent, ls, e.url), rank, processed)
    decreases |ls|
  {
    var d := e.depth + 1;
    if ls == [] {
      assert queue + Entries(ls, d) == queue;
    } else {
      var init, last := ls[..|ls| - 1], ls[|ls| - 1];
      AdmitAllKeepsInvariant(linksOf, start, goal, queue, visited, parent, rank, processed, e, init);
      AdmitKeepsInvariant(linksOf, start, goal, queue + Entries(init, d), visited, WithParents(parent, init, e.url),
                          rank, processed, e, last);
      assert queue + Entries(ls, d) == (queue + Entries(init, d)) + [Entry(last, d)];
    }
  }

  /** The admission rule keeps the invariant: the links a processed page
      queues are all unvisited, not the goal, linked from the page, and queued
      only below the last allowed depth. */
  lemma DiscoveredKeepsInvariant(linksOf: string -> seq<string>, start: string, goal: string,
                                 queue: seq<Entry>, visited: set<string>, parent: map<string, string>,
                                 rank: map<string, nat>, processed: seq<string>, e: Entry)
    requires Invariant(linksOf, start, goal, queue, visited, parent, rank, processed)
    requires EntryOK(linksOf, start, goal, e) && e.url in visited
    ensures var admitted := Discovered(linksOf(e.url), visited, e.depth, goal);
      Invariant(linksOf, start, goal, queue + Entries(admitted, e.depth + 1), visited,
                WithParents(parent, admitted, e.url), rank, processed)
  {
    var links := linksOf(e.url);
    var admitted := Discovered(links, visited, e.depth, goal);
    if e.depth < MaxHops - 1 {
      forall i | 0 <= i < |admitted|
        ensures admitted[i] in links && admitted[i] !in visited && admitted[i] != goal
      {
        assert admitted[i] in admitted;
        DiscoveredMember(links, visited, e.depth, goal, admitted[i]);
      }
      AdmitAllKeepsInvariant(linksOf, start, goal, queue, visited, parent, rank, processed, e, admitted);
    } else {
      assert queue + Entries(admitted, e.depth + 1) == queue;
    }
  }

  /** Recording the goal's parent keeps the invariant. */
  lemma AddGoalKeepsInvariant(linksOf: string -> seq<string>, start: string, goal: string, queue: seq<Entry>,
                              visited: set<string>, parent: map<string, string>,
                              rank: map<string, nat>, processed: seq<string>, current: string)
    requires Invariant(linksOf, start, goal, queue, visited, parent, rank, processed)
    requires current in visited && goal in linksOf(current)
    ensures Invariant(linksOf, start, goal, queue, visited, RecordGoal(parent, goal, current), rank, processed)
  {
  }

  /** Handling one more link extends the queued entries and the parent map by
      that link exactly when it is admitted. */
  lemma AdmittedSnoc(links: seq<string>, i: nat, visited: set<string>, depth: int,
                     q0: seq<Entry>, p0: map<string, string>, v: string)
    requires i < |links|
    ensures var before := Admitted(links[..i], visited, depth);
      var after := Admitted(links[..i + 1], visited, depth);
      && (depth < MaxHops - 1 && links[i] !in visited ==>
            && q0 + Entries(after, depth + 1) == q0 + Entries(before, depth + 1) + [Entry(links[i], depth + 1)]
            && WithParents(p0, after, v) == WithParents(p0, before, v)[links[i] := v])
      && (!(depth < MaxHops - 1 && links[i] !in visited) ==> after == before)
  {
    assert links[..i + 1][..i] == links[..i];
    assert links[..i + 1][i] == links[i];
    if depth < MaxHops - 1 && links[i] !in visited {
      var before := Unvisited(links[..i], visited);
      var after := Unvisited(links[..i + 1], visited);
      assert after == before + [links[i]];
      assert after[..|after| - 1] == before;
    }
  }

  // ---------------------------------------------------------------------------
  // Breadth-first order and completeness
  // ---------------------------------------------------------------------------

  /** Queued depths never decrease along the queue and span at most one hop,
      and every URL in `depthOf` was fetched at a depth no greater than any
      queued depth. */
  ghost predicate Layered(queue: seq<Entry>, depthOf: map<string, int>)
  {
    && (forall i, j :: 0 <= i < j < |queue| ==> queue[i].depth <= queue[j].depth)
    && (forall i :: 0 <= i < |queue| ==> queue[i].depth <= queue[0].depth + 1)
    && (forall v, i :: v in depthOf && 0 <= i < |queue| ==> depthOf[v] <= queue[i].depth)
  }

  /** A link that should be reached at depth `d` was fetched at depth `d` or
      less, or is queued at depth `d`. */
  ghost predicate Covered(l: string, d: int, queue: seq<Entry>, depthOf: map<string, int>)
  {
    (l in depthOf && depthOf[l] <= d) || Entry(l, d) in queue
  }

  /** For every page fetched below the last allowed depth, each of its links is
      covered one hop deeper. */
  ghost predicate Closed(linksOf: string -> seq<string>, queue: seq<Entry>, depthOf: map<string, int>)
  {
    forall v, l :: v in depthOf && depthOf[v] < MaxHops - 1 && l in linksOf(v) ==>
      Covered(l, depthOf[v] + 1, queue, depthOf)
  }

  /** The breadth-first shape of a search that has not found the goal, where
      `depthOf` gives the depth at which each visited URL was fetched: the
      start, once visited, was fetched at depth 0, and the queue is layered
      and closed. */
  ghost predicate Breadth(linksOf: string -> seq<string>, start: string, queue: seq<Entry>,
                          visited: set<string>, depthOf: map<string, int>)
  {
    && depthOf.Keys == visited
    && (visited != {} ==> start in depthOf && depthOf[start] == 0)
    && Layered(queue, depthOf)
    && Closed(linksOf, queue, depthOf)
  }

  /** Dropping the head entry keeps the queue layered. */
  lemma PopKeepsLayered(queue: seq<Entry>, depthOf: map<string, int>)
    requires Layered(queue, depthOf) && queue != []
    ensures Layered(queue[1..], depthOf)
  {
    assert forall i :: 0 <= i < |queue| - 1 ==> queue[1..][i] == queue[i + 1];
  }

  /** Dropping a head entry whose URL was fetched no deeper than the head keeps
      a link covered. */
  lemma PopCovered(l: string, d: int, queue: seq<Entry>, depthOf: map<string, int>)
    requires Covered(l, d, queue, depthOf) && queue != []
    requires queue[0].url in depthOf && depthOf[queue[0].url] <= queue[0].depth
    ensures Covered(l, d, queue[1..], depthOf)
  {
    if !(l in depthOf && depthOf[l] <= d) {
      var i :| 0 <= i < |queue| && queue[i] == Entry(l, d);
      assert i != 0;
      assert queue[1..][i - 1] == queue[i];
    }
  }

  /** Dropping a head entry whose URL was fetched keeps the queue closed: that
      URL was fetched no deeper than the entry. */
  lemma PopKeepsClosed(linksOf: string -> seq<string>, queue: seq<Entry>, depthOf: map<string, int>)
    requires Closed(linksOf, queue, depthOf) && Layered(queue, depthOf)
    requires queue != [] && queue[0].url in depthOf
    ensures Closed(linksOf, queue[1..], depthOf)
  {
    forall v, l | v in depthOf && depthOf[v] < MaxHops - 1 && l in linksOf(v)
      ensures Covered(l, depthOf[v] + 1, queue[1..], depthOf)
    {
      PopCovered(l, depthOf[v] + 1, queue, depthOf);
    }
  }

  /** Dropping a head entry whose URL was already fetched keeps the
      breadth-first shape. */
  lemma PopKeepsBreadth(linksOf: string -> seq<string>, start: string, queue: seq<Entry>,
                        visited: set<string>, depthOf: map<string, int>)
    requires Breadth(linksOf, start, queue, visited, depthOf)
    requires queue != [] && queue[0].url in visited
    ensures Breadth(linksOf, start, queue[1..], visited, depthOf)
  {
    PopKeepsLayered(queue, depthOf);
    PopKeepsClosed(linksOf, queue, depthOf);
  }

  /** Fetching the URL of the head entry at its depth and queuing entries one
      hop deeper keeps the queue layered. */
  lemma VisitKeepsLayered(queue: seq<Entry>, depthOf: map<string, int>, added: seq<Entry>)
    requires Layered(queue, depthOf) && queue != []
    requires forall i :: 0 <= i < |added| ==> added[i].depth == queue[0].depth + 1
    ensures Layered(queue[1..] + added, depthOf[queue[0].url := queue[0].depth])
  {
    var e := queue[0];
    var rest := queue[1..];
    var q := rest + added;
    assert forall i :: 0 <= i < |rest| ==> q[i] == queue[i + 1];
    assert forall i :: |rest| <= i < |q| ==> q[i] == added[i - |rest|];
    assert forall i :: 0 <= i < |q| ==> e.depth <= q[i].depth <= e.depth + 1;
  }

  /** A link covered before the head entry is fetched stays covered after it is
      fetched and entries are queued behind the rest: if the head entry was the
      one queuing the link, the link is now fetched at that depth. */
  lemma VisitCovered(l: string, d: int, queue: seq<Entry>, depthOf: map<string, int>, added: seq<Entry>)
    requires Covered(l, d, queue, depthOf) && queue != [] && queue[0].url !in depthOf
    ensures Covered(l, d, queue[1..] + added, depthOf[queue[0].url := queue[0].depth])
  {
    if !(l in depthOf && depthOf[l] <= d) {
      var i :| 0 <= i < |queue| && queue[i] == Entry(l, d);
      if i != 0 {
        assert (queue[1..] + added)[i - 1] == queue[i];
      }
    }
  }

  /** Every link of a page that does not link to the goal, fetched at `depth`
      below the last allowed one, is visited or among the entries the page
      queues. */
  lemma AdmittedCovered(links: seq<string>, visited: set<string>, depth: int, goal: string, l: string)
    requires goal !in links && depth < MaxHops - 1 && l in links && l !in visited
    ensures Entry(l, depth + 1) in Entries(Discovered(links, visited, depth, goal), depth + 1)
  {
    var admitted := Discovered(links, visited, depth, goal);
    assert links[..GoalIndex(links, goal)] == links;
    DiscoveredMember(links, visited, depth, goal, l);
    var k :| 0 <= k < |admitted| && admitted[k] == l;
    EntriesAt(admitted, depth + 1);
    assert Entries(admitted, depth + 1)[k] == Entry(l, depth + 1);
  }

  /** Fetching the URL of the head entry at its depth and queuing what its page
      admits, when the page does not link to the goal, keeps the queue closed:
      every link of the page is fetched or queued one hop deeper, and what was
      covered stays covered. */
  lemma VisitKeepsClosed(linksOf: string -> seq<string>, goal: string, queue: seq<Entry>,
                         visited: set<string>, depthOf: map<string, int>, added: seq<Entry>)
    requires Closed(linksOf, queue, depthOf) && Layered(queue, depthOf) && depthOf.Keys == visited
    requires queue != [] && queue[0].url !in visited && goal !in linksOf(queue[0].url)
    requires added == Entries(Discovered(linksOf(queue[0].url), visited + {queue[0].url}, queue[0].depth, goal),
                              queue[0].depth + 1)
    ensures Closed(linksOf, queue[1..] + added, depthOf[queue[0].url := queue[0].depth])
  {
    var e := queue[0];
    var links := linksOf(e.url);
    var v := visited + {e.url};
    var q := queue[1..] + added;
    var d := depthOf[e.url := e.depth];
    forall u, l | u in d && d[u] < MaxHops - 1 && l in linksOf(u)
      ensures Covered(l, d[u] + 1, q, d)
    {
      if u == e.url {
        if l !in v {
          AdmittedCovered(links, v, e.depth, goal, l);
          assert Entry(l, e.depth + 1) in q;
        }
      } else {
        VisitCovered(l, depthOf[u] + 1, queue, depthOf, added);
      }
    }
    assert Closed(linksOf, q, d);
  }

  /** Fetching the URL of the head entry at its depth and queuing what its page
      admits, when the page does not link to the goal, keeps the breadth-first
      shape. */
  lemma VisitKeepsBreadth(linksOf: string -> seq<string>, start: string, goal: string, queue: seq<Entry>,
                          visited: set<string>, depthOf: map<string, int>)
    requires Breadth(linksOf, start, queue, visited, depthOf)
    requires queue != [] && queue[0].url !in visited
    requires visited == {} ==> queue[0] == Entry(start, 0)
    requires goal !in linksOf(queue[0].url)
    ensures var e := queue[0];
      var v := visited + {e.url};
      Breadth(linksOf, start, queue[1..] + Entries(Discovered(linksOf(e.url), v, e.depth, goal), e.depth + 1),
              v, depthOf[e.url := e.depth])
  {
    var e := queue[0];
    var admitted := Discovered(linksOf(e.url), visited + {e.url}, e.depth, goal);
    EntriesAt(admitted, e.depth + 1);
    VisitKeepsLayered(queue, depthOf, Entries(admitted, e.depth + 1));
    VisitKeepsClosed(linksOf, goal, queue, visited, depthOf, Entries(admitted, e.depth + 1));
  }

  /** A closed search whose queue is empty and which fetched the start at depth
      0 has fetched every page within `k` hops of the start, for `k` up to the
      last allowed depth, each at a depth no greater than `k`. */
  lemma {:induction false} ClosedCovers(linksOf: string -> seq<string>, start: string,
                                        depthOf: map<string, int>, k: nat)
    requires Closed(linksOf, [], depthOf) && start in depthOf && depthOf[start] == 0
    requires k <= MaxHops - 1
    ensures forall u :: u in Reach(linksOf, start, k) ==> u in depthOf && depthOf[u] <= k
  {
    if k > 0 {
      ClosedCovers(linksOf, start, depthOf, k - 1);
      var r := Reach(linksOf, start, k - 1);
      assert Reach(linksOf, start, k) == r + Successors(linksOf, r);
      forall u | u in Successors(linksOf, r)
        ensures u in depthOf && depthOf[u] <= k
      {
        var w, l :| w in r && l in linksOf(w) && l == u;
        ClosedStep(linksOf, depthOf, w, u);
      }
    }
  }

  /** One link of a page fetched below the last allowed depth, in a closed
      search with an empty queue, was fetched at most one hop deeper. */
  lemma ClosedStep(linksOf: string -> seq<string>, depthOf: map<string, int>, w: string, u: string)
    requires Closed(linksOf, [], depthOf)
    requires w in depthOf && depthOf[w] < MaxHops - 1 && u in linksOf(w)
    ensures u in depthOf && depthOf[u] <= depthOf[w] + 1
  {
  }

  /** One iteration of the worker loop keeps the breadth-first shape as long
      as the goal is not found: the head entry is dropped if its URL was
      fetched, and otherwise its URL is fetched at the entry's depth (recorded
      in the returned depth map) and what its page admits is queued. */
  lemma StepKeepsBreadth(linksOf: string -> seq<string>, start: string, goal: string,
                         queue: seq<Entry>, visited: set<string>, depthOf: map<string, int>,
                         queue': seq<Entry>, visited': set<string>, found': bool)
    returns (depthOf': map<string, int>)
    requires Breadth(linksOf, start, queue, visited, depthOf) && queue != []
    requires visited == {} ==> queue == [Entry(start, 0)]
    requires queue[0].url in visited ==> queue' == queue[1..] && visited' == visited && !found'
    requires queue[0].url !in visited ==>
      && visited' == visited + {queue[0].url}
      && queue' == queue[1..] + Entries(Discovered(linksOf(queue[0].url), visited', queue[0].depth, goal),
                                        queue[0].depth + 1)
      && found' == (goal in linksOf(queue[0].url))
    ensures !found' ==> Breadth(linksOf, start, queue', visited', depthOf')
  {
    var e := queue[0];
    if e.url in visited {
      depthOf' := depthOf;
      PopKeepsBreadth(linksOf, start, queue, visited, depthOf);
    } else {
      depthOf' := depthOf[e.url := e.depth];
      if !found' {
        VisitKeepsBreadth(linksOf, start, goal, queue, visited, depthOf);
      }
    }
  }

  // ---------------------------------------------------------------------------
  // The worker
  // ---------------------------------------------------------------------------

  /** The shared state of one search: the queue, the visited set, the parent
      map, the found flag and the rendered path. */
  class Crawler {
    /** The links of each page. */
    const linksOf: string -> seq<string>
    /** The page searched for. */
    const goal: string
    /** The URL the search started from. */
    ghost const start: string

    var queue: seq<Entry>
    var visited: set<string>
    var parent: map<string, string>
    var found: bool
    var finalPath: string

    /** The path rendered in `finalPath`. */
    ghost var path: seq<string>
    /** The URLs fetched so far, in order. */
    ghost var processed: seq<string>
    /** The position of each visited URL in `processed`. */
    ghost var rank: map<string, nat>

    ghost predicate Valid()
      reads this
    {
      && NoEmptyLink(linksOf)
      && Invariant(linksOf, start, goal, queue, visited, parent, rank, processed)
      && (found ==> GoalPathOK(linksOf, start, goal, parent, path) && finalPath == Joined(path))
      && (!found ==> finalPath == "" && path == [] && forall u :: u in visited ==> goal !in linksOf(u))
    }

    /** The seeding of a search: the start alone in the queue at depth 0, with
        the sentinel as its parent. */
    constructor (linksOf: string -> seq<string>, goal: string, startUrl: string)
      requires NoEmptyLink(linksOf)
      ensures this.linksOf == linksOf && this.goal == goal && start == startUrl
      ensures queue == [Entry(startUrl, 0)] && visited == {} && parent == map[startUrl := ""]
      ensures !found && finalPath == "" && processed == []
      ensures Valid() && Breadth(linksOf, startUrl, queue, visited, map[])
    {
      this.linksOf := linksOf;
      this.goal := goal;
      start := startUrl;
      queue := [Entry(startUrl, 0)];
      visited := {};
      parent := map[startUrl := ""];
      found := false;
      finalPath := "";
      path := [];
      processed := [];
      rank := map[];
    }

    /** One iteration of the worker loop: dequeue the head entry; drop it if
        its URL was visited; otherwise mark the URL visited, take its page's
        links, and handle them. */
    method Step() returns (e: Entry)
      requires Valid() && queue != [] && !found
      modifies this`queue, this`visited, this`parent, this`found, this`finalPath,
               this`path, this`processed, this`rank
      ensures Valid()
      ensures e == old(queue[0])
      ensures e.url in old(visited) ==>
        && queue == old(queue[1..]) && visited == old(visited) && parent == old(parent)
        && !found && processed == old(processed)
      ensures e.url !in old(visited) ==>
        var ls := linksOf(e.url);
        var admitted := Discovered(ls, visited, e.depth, goal);
        && visited == old(visited) + {e.url}
        && processed == old(processed) + [e.url]
        && queue == old(queue[1..]) + Entries(admitted, e.depth + 1)
        && found == (goal in ls)
        && parent == if found then RecordGoal(WithParents(old(parent), admitted, e.url), goal, e.url)
                     else WithParents(old(parent), admitted, e.url)
    {
      e := queue[0];
      queue := queue[1..];
      QueuePopKeepsInvariant(linksOf, start, goal, old(queue), visited, parent);
      if e.url in visited {
        return;
      }
      Visit(e);
    }

    /** Visiting a dequeued entry whose URL is not yet visited: mark the URL
        visited and handle its page's links. */
    method Visit(e: Entry)
      requires NoEmptyLink(linksOf)
      requires forall i :: 0 <= i < |queue| ==> EntryOK(linksOf, start, goal, queue[i]) && queue[i].url in parent
      requires visited == {} ==> e == Entry(start, 0) && queue == []
      requires VisitLogOK(linksOf, start, visited, processed)
      requires ParentsOK(linksOf, start, visited, parent, rank, processed)
      requires EntryOK(linksOf, start, goal, e) && e.url in parent && e.url !in visited
      requires !found && finalPath == "" && path == []
      requires forall u :: u in visited ==> goal !in linksOf(u)
      modifies this`queue, this`visited, this`parent, this`found, this`finalPath,
               this`path, this`processed, this`rank
      ensures Valid()
      ensures visited == old(visited) + {e.url} && processed == old(processed) + [e.url]
      ensures var ls := linksOf(e.url);
        var admitted := Discovered(ls, visited, e.depth, goal);
        && queue == old(queue) + Entries(admitted, e.depth + 1)
        && found == (goal in ls)
        && parent == if found then RecordGoal(WithParents(old(parent), admitted, e.url), goal, e.url)
                     else WithParents(old(parent), admitted, e.url)
    {
      VisitKeepsInvariant(linksOf, start, goal, queue, visited, parent, rank, processed, e);
      visited := visited + {e.url};
      rank := rank[e.url := |processed|];
      processed := processed + [e.url];
      ProcessPage(e);
    }

    /** The handling of a page just marked visited: its links are scanned by
        `ScanLinks`, and the state that results is again valid. */
    method ProcessPage(current: Entry)
      requires NoEmptyLink(linksOf)
      requires Invariant(linksOf, start, goal, queue, visited, parent, rank, processed)
      requires !found && finalPath == "" && path == []
      requires EntryOK(linksOf, start, goal, current) && current.url in visited
      requires forall u :: u in visited && u != current.url ==> goal !in linksOf(u)
      modifies this`queue, this`parent, this`found, this`finalPath, this`path
      ensures Valid()
      ensures var ls := linksOf(current.url);
        var admitted := Discovered(ls, visited, current.depth, goal);
        && queue == old(queue) + Entries(admitted, current.depth + 1)
        && found == (goal in ls)
        && parent == if found then RecordGoal(WithParents(old(parent), admitted, current.url), goal, current.url)
                     else WithParents(old(parent), admitted, current.url)
    {
      var links := linksOf(current.url);
      ghost var admitted := Discovered(links, visited, current.depth, goal);
      ghost var p1 := WithParents(parent, admitted, current.url);
      DiscoveredKeepsInvariant(linksOf, start, goal, queue, visited, parent, rank, processed, current);
      ghost var n: nat := 0;
      if goal in links {
        AddGoalKeepsInvariant(linksOf, start, goal, queue + Entries(admitted, current.depth + 1), visited, p1,
                              rank, processed, current.url);
        n := GoalWalk(linksOf, start, goal, visited, RecordGoal(p1, goal, current.url), rank, processed);
      }
      ScanLinks(current, links, n);
    }

    /** The link loop of a processed page at entry `current` (whose links are
        `links`): handle the links in order until the first one equal to the
        goal. Each link before that is queued at the next depth with the page
        as its parent, overwriting any earlier parent entry, when the depth is
        below the last allowed one and the link is not visited; otherwise
        nothing changes for it. A goal link gets the page as its parent, sets
        the found flag and rebuilds the path, which takes `n` steps back from
        the goal, and the remaining links are not handled. */
    method ScanLinks(current: Entry, links: seq<string>, ghost n: nat)
      requires !found
      requires goal in links ==>
        ReachesRootIn(RecordGoal(WithParents(parent, Discovered(links, visited, current.depth, goal), current.url),
                                 goal, current.url), goal, n)
      modifies this`queue, this`parent, this`found, this`finalPath, this`path
      ensures var admitted := Discovered(links, visited, current.depth, goal);
        && queue == old(queue) + Entries(admitted, current.depth + 1)
        && found == (goal in links)
        && parent == if found then RecordGoal(WithParents(old(parent), admitted, current.url), goal, current.url)
                     else WithParents(old(parent), admitted, current.url)
      ensures found ==> path == PathTo(parent, goal, n) && finalPath == Joined(path)
      ensures !found ==> path == old(path) && finalPath == old(finalPath)
    {
      ghost var q0, p0 := queue, parent;
      var i := 0;
      while i < |links|
        invariant 0 <= i <= |links|
        invariant forall j :: 0 <= j < i ==> links[j] != goal
        invariant queue == q0 + Entries(Admitted(links[..i], visited, current.depth), current.depth + 1)
        invariant parent == WithParents(p0, Admitted(links[..i], visited, current.depth), current.url)
        invariant !found && path == old(path) && finalPath == old(finalPath)
      {
        var link := links[i];
        if link == goal {
          assert GoalIndex(links, goal) == i;
          found := true;
          parent := RecordGoal(parent, goal, current.url);
          var p, text := BuildPath(parent, goal, n);
          path := p;
          finalPath := text;
          return;
        }
        AdmittedSnoc(links, i, visited, current.depth, q0, p0, current.url);
        if current.depth < MaxHops - 1 {
          if link !in visited {
            queue := queue + [Entry(link, current.depth + 1)];
            parent := parent[link := current.url];
          }
        }
        i := i + 1;
      }
      assert links[..i] == links[..GoalIndex(links, goal)];
    }

    /** The worker loop: process entries until the goal is found or the queue
        is empty. It terminates because only URLs within the hop budget are
        ever visited, each at most once. When it finds the goal, a page within
        the hop budget links to it. When it ends without the goal, it has
        fetched every page within the hop budget and none links to the goal.
        `depths` gives the depth at which each URL visited so far was fetched. */
    method ScanQueue(ghost depths: map<string, int>)
      requires Valid() && (!found ==> Breadth(linksOf, start, queue, visited, depths))
      modifies this`queue, this`visited, this`parent, this`found, this`finalPath,
               this`path, this`processed, this`rank
      ensures Valid()
      ensures found || queue == []
      ensures old(found) ==> found && path == old(path) && finalPath == old(finalPath)
      ensures found ==> GoalPathOK(linksOf, start, goal, parent, path) && finalPath == Joined(path)
      ensures found && !old(found) ==> GoalWithinHops(linksOf, start, goal)
      ensures !found ==> forall u :: u in Reach(linksOf, start, MaxHops - 1) ==> u in visited && goal !in linksOf(u)
      ensures old(visited) <= visited <= Reach(linksOf, start, MaxHops - 1)
    {
      ghost var d := depths;
      ghost var finder := "";
      while queue != [] && !found
        invariant Valid()
        invariant !found ==> Breadth(linksOf, start, queue, visited, d)
        invariant found && !old(found) ==> finder in visited && goal in linksOf(finder)
        invariant old(found) ==> found && path == old(path) && finalPath == old(finalPath)
        invariant old(visited) <= visited
        decreases Reach(linksOf, start, MaxHops - 1) - visited, |queue|
      {
        ghost var q, v := queue, visited;
        assert v == {} ==> q == [Entry(start, 0)];
        var e := Step();
        d := StepKeepsBreadth(linksOf, start, goal, q, v, d, queue, visited, found);
        finder := e.url;
      }
      if !found {
        ClosedCovers(linksOf, start, d, MaxHops - 1);
      }
    }
  }

  /** The goal is linked from a page at most MaxHops - 1 hops from the start:
      the search, which fetches pages down to that depth, can see it. */
  ghost predicate GoalWithinHops(linksOf: string -> seq<string>, start: string, goal: string)
  {
    exists u :: u in Reach(linksOf, start, MaxHops - 1) && goal in linksOf(u)
  }

  /** A sequential search from `startUrl` for the program's goal page, each
      page's links being those the link scan collects from the document
      `fetch` yields for it: seed the queue, run the worker loop, and report
      whether the goal was found together with the rendered path. The goal is
      found exactly when a page within the hop budget links to it. When found,
      the rendered path is that of a chain of links from the start to the
      goal; when not, it is empty. */
  method SearchFrom(fetch: string -> Option<Node>, startUrl: string) returns (found: bool, finalPath: string)
    ensures found <==> GoalWithinHops(u => Links(fetch, u), startUrl, HitlerUrl)
    ensures found ==> exists p :: IsLinkPath(u => Links(fetch, u), startUrl, p) && p[|p| - 1] == HitlerUrl
                                  && finalPath == Joined(p)
    ensures !found ==> finalPath == ""
  {
    var linksOf := u => Links(fetch, u);
    forall u ensures "" !in linksOf(u) {
      LinksNeverEmpty(fetch, u);
    }
    var c := new Crawler(linksOf, HitlerUrl, startUrl);
    c.ScanQueue(map[]);
    found, finalPath := c.found, c.finalPath;
    if found {
      assert IsLinkPath(linksOf, startUrl, c.path);
    }
  }
}
