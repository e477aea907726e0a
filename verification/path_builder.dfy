/**
 Path reconstruction once the goal page is found: walk the parent map back from
 the goal until the empty-string sentinel, reverse the walk into start-to-goal
 order, and render it as every URL followed by " / ".

 A lookup of a URL that has no parent entry reads as the empty string, which
 ends the walk (the default value of the map's index operator).
 */
module PathBuilder {

  /** Written after every URL of the rendered path. */
  const Separator: string := " / "

  /** The parent entry of `u`, or the sentinel "" when `u` has none. */
  function ParentOf(parent: map<string, string>, u: string): string
  {
    if u in parent then parent[u] else ""
  }

  /** Following parent entries from `u` reaches the sentinel "" after exactly
      `n` steps. The walk of the source terminates exactly when this holds for
      some `n`. */
  ghost predicate ReachesRootIn(parent: map<string, string>, u: string, n: nat)
    decreases n
  {
    if u == "" then n == 0 else n > 0 && ReachesRootIn(parent, ParentOf(parent, u), n - 1)
  }

  /** The number of steps to the sentinel is determined by the start of the walk. */
  lemma {:induction false} ReachesRootUnique(parent: map<string, string>, u: string, n: nat, m: nat)
    requires ReachesRootIn(parent, u, n) && ReachesRootIn(parent, u, m)
    ensures n == m
    decreases n
  {
    if u != "" {
      ReachesRootUnique(parent, ParentOf(parent, u), n - 1, m - 1);
    }
  }

  /** The URLs the walk passes, from `u` back towards the start, the sentinel
      left out. */
  ghost function WalkBack(parent: map<string, string>, u: string, n: nat): seq<string>
    requires ReachesRootIn(parent, u, n)
    decreases n
  {
    if u == "" then [] else [u] + WalkBack(parent, ParentOf(parent, u), n - 1)
  }

  /** The walk has one URL per step, begins at `u`, holds no sentinel, follows
      parent entries, and stops at a URL whose parent entry is the sentinel. */
  lemma {:induction false} WalkShape(parent: map<string, string>, u: string, n: nat)
    requires ReachesRootIn(parent, u, n)
    ensures |WalkBack(parent, u, n)| == n
    ensures n > 0 ==> WalkBack(parent, u, n)[0] == u
    ensures forall i :: 0 <= i < n ==> WalkBack(parent, u, n)[i] != ""
    ensures forall i :: 0 <= i < n - 1 ==>
      ParentOf(parent, WalkBack(parent, u, n)[i]) == WalkBack(parent, u, n)[i + 1]
    ensures n > 0 ==> ParentOf(parent, WalkBack(parent, u, n)[n - 1]) == ""
    decreases n
  {
    if u != "" {
      var w := WalkBack(parent, u, n);
      var rest := WalkBack(parent, ParentOf(parent, u), n - 1);
      WalkShape(parent, ParentOf(parent, u), n - 1);
      assert w == [u] + rest;
      assert forall i :: 1 <= i < n ==> w[i] == rest[i - 1];
    }
  }

  /** `s` in the opposite order. */
  function Reversed<T>(s: seq<T>): (r: seq<T>)
  {
    if s == [] then [] else Reversed(s[1..]) + [s[0]]
  }

  /** Element `k` of the reversal is element `|s| - 1 - k` of the original. */
  lemma {:induction false} ReversedAt<T>(s: seq<T>, k: nat)
    requires k < |s|
    ensures |Reversed(s)| == |s|
    ensures Reversed(s)[k] == s[|s| - 1 - k]
  {
    if |s| > 1 {
      ReversedLength(s[1..]);
      if k < |s| - 1 {
        ReversedAt(s[1..], k);
      }
    }
  }

  /** Reversal keeps the length. */
  lemma {:induction false} ReversedLength<T>(s: seq<T>)
    ensures |Reversed(s)| == |s|
  {
    if s != [] {
      ReversedLength(s[1..]);
    }
  }

  /** The path leading to `u`, start first: the reversed walk. */
  ghost function PathTo(parent: map<string, string>, u: string, n: nat): seq<string>
    requires ReachesRootIn(parent, u, n)
  {
    Reversed(WalkBack(parent, u, n))
  }

  /** The reconstructed path ends at `u`, begins at a URL whose parent entry is
      the sentinel, holds no sentinel, and the parent entry of each of its URLs
      is the URL before it. */
  lemma PathShape(parent: map<string, string>, u: string, n: nat)
    requires ReachesRootIn(parent, u, n) && u != ""
    ensures |PathTo(parent, u, n)| == n > 0
    ensures PathTo(parent, u, n)[n - 1] == u
    ensures ParentOf(parent, PathTo(parent, u, n)[0]) == ""
    ensures forall i :: 0 <= i < n ==> PathTo(parent, u, n)[i] != ""
    ensures forall i :: 0 < i < n ==>
      ParentOf(parent, PathTo(parent, u, n)[i]) == PathTo(parent, u, n)[i - 1]
  {
    var w := WalkBack(parent, u, n);
    var p := PathTo(parent, u, n);
    WalkShape(parent, u, n);
    ReversedLength(w);
    forall k | 0 <= k < n
      ensures |p| == n && p[k] == w[n - 1 - k]
    {
      ReversedAt(w, k);
    }
    forall i | 0 < i < n
      ensures ParentOf(parent, p[i]) == p[i - 1]
    {
      assert p[i] == w[n - 1 - i] && p[i - 1] == w[n - 1 - i + 1];
    }
  }

  /** The rendered path: each URL followed by the separator, start first. */
  function Joined(path: seq<string>): string
  {
    if path == [] then "" else Joined(path[..|path| - 1]) + path[|path| - 1] + Separator
  }

  /** Rendering a path in two parts renders each part in turn. */
  lemma {:induction false} JoinedAppend(p: seq<string>, q: seq<string>)
    ensures Joined(p + q) == Joined(p) + Joined(q)
    decreases |q|
  {
    if q == [] {
      assert p + q == p;
    } else {
      var q' := q[..|q| - 1];
      assert (p + q)[..|p + q| - 1] == p + q';
      JoinedAppend(p, q');
    }
  }

  /** Rendering a path puts the first URL and the separator in front of the
      rendering of the rest. */
  lemma JoinedCons(u: string, rest: seq<string>)
    ensures Joined([u] + rest) == u + Separator + Joined(rest)
  {
    JoinedAppend([u], rest);
    assert [u][..0] == [];
  }

  /** build_path: walk back from `endUrl` to the sentinel, reverse the walk, and
      render it. The walk terminates only when the chain from `endUrl` reaches
      the sentinel, which is what `n` witnesses. */
  method BuildPath(parent: map<string, string>, endUrl: string, ghost n: nat)
    returns (path: seq<string>, finalPath: string)
    requires ReachesRootIn(parent, endUrl, n)
    ensures path == PathTo(parent, endUrl, n)
    ensures finalPath == Joined(path)
  {
    var url := endUrl;
    var walk: seq<string> := [];
    ghost var k := n;
    while url != ""
      invariant ReachesRootIn(parent, url, k)
      invariant walk + WalkBack(parent, url, k) == WalkBack(parent, endUrl, n)
      decreases k
    {
      walk := walk + [url];
      url := ParentOf(parent, url);
      k := k - 1;
    }
    assert WalkBack(parent, url, k) == [];
    assert walk == WalkBack(parent, endUrl, n);
    path := Reversed(walk);
    finalPath := "";
    for i := 0 to |path|
      invariant finalPath == Joined(path[..i])
    {
      assert path[..i + 1][..i] == path[..i];
      finalPath := finalPath + path[i] + Separator;
    }
    assert path[..|path|] == path;
  }
}
