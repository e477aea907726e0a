/**
 The link scan of a fetched page: a pre-order walk of the parsed element tree
 that keeps the `href` of every anchor pointing at a plain Wikipedia article
 (a path starting with "/wiki/" and holding no ':'), prefixed with the site root.

 The walk is specified in two steps: `AnchorHrefs` lists the hrefs of all
 anchors reachable through elements, in document order, and `KeptLinks`
 filters and prefixes them. The imperative `SearchForLinks` does both at once,
 appending to the links found so far, and is proved equal to the two-step
 specification.
 */
module LinkExtraction {
  import opened Wrappers

  /** Prepended to every kept article path. */
  const SiteRoot: string := "https://en.wikipedia.org"
  /** A kept href must start with this. */
  const ArticlePrefix: string := "/wiki/"

  /** Element tags; only anchors matter to the scan. `OtherTag` names any
      other element, so its `name` is never `a`. */
  datatype Tag = A | OtherTag(name: string)

  /** A node of the parsed document. An element carries its tag, its href
      attribute if it has one, and its children. Any other kind of node (text,
      comment, template, ...) is a `NonElement`: the scan neither keeps
      anything of it nor descends into its children. */
  datatype Node =
    | Element(tag: Tag, href: Option<string>, children: seq<Node>)
    | NonElement(children: seq<Node>)

  // ---------------------------------------------------------------------------
  // std::string::find
  // ---------------------------------------------------------------------------

  /** `pat` occurs in `s` at index `i`. */
  predicate OccursAt(s: string, pat: string, i: nat)
  {
    i + |pat| <= |s| && s[i..i + |pat|] == pat
  }

  /** The index of the first occurrence of `pat` in `s`, or `None` where
      std::string::find answers npos. */
  function Find(s: string, pat: string): (r: Option<nat>)
    ensures r.Some? ==> OccursAt(s, pat, r.value)
    ensures r.Some? ==> forall j: nat :: j < r.value ==> !OccursAt(s, pat, j)
    ensures r.None? ==> forall j: nat :: !OccursAt(s, pat, j)
    decreases |s|
  {
    if |s| < |pat| then None
    else if s[..|pat|] == pat then Some(0)
    else
      match Find(s[1..], pat)
      case None =>
        assert !OccursAt(s, pat, 0);
        forall j: nat | 1 <= j && OccursAt(s, pat, j) ensures OccursAt(s[1..], pat, j - 1) {
          assert s[1..][j - 1..j - 1 + |pat|] == s[j..j + |pat|];
        }
        None
      case Some(i) =>
        assert !OccursAt(s, pat, 0);
        forall j: nat | 1 <= j && OccursAt(s, pat, j) ensures OccursAt(s[1..], pat, j - 1) {
          assert s[1..][j - 1..j - 1 + |pat|] == s[j..j + |pat|];
        }
        assert OccursAt(s, pat, i + 1) by {
          assert s[i + 1..i + 1 + |pat|] == s[1..][i..i + |pat|];
        }
        Some(i + 1)
  }

  // ---------------------------------------------------------------------------
  // The href filter
  // ---------------------------------------------------------------------------

  /** The test the scan applies to an anchor's href: "/wiki/" is found at
      index 0 and ':' is not found at all. */
  predicate Keep(href: string)
  {
    Find(href, ArticlePrefix) == Some(0) && Find(href, ":") == None
  }

  /** The filter, stated without `find`: an href is kept exactly when it starts
      with "/wiki/" and contains no ':'. */
  lemma KeepIff(href: string)
    ensures Keep(href) <==> ArticlePrefix <= href && ':' !in href
  {
    var f := Find(href, ArticlePrefix);
    if ArticlePrefix <= href {
      assert OccursAt(href, ArticlePrefix, 0);
      assert f == Some(0);
    }
    if f == Some(0) {
      assert OccursAt(href, ArticlePrefix, 0);
      assert ArticlePrefix <= href;
    }
    if ':' in href {
      var i :| 0 <= i < |href| && href[i] == ':';
      assert OccursAt(href, ":", i);
      assert Find(href, ":") != None;
    }
    if Find(href, ":") != None {
      var i := Find(href, ":").value;
      assert OccursAt(href, ":", i);
      assert href[i] == ':';
    }
  }

  /** The link the scan emits for a kept href. */
  function Absolute(href: string): string
  {
    SiteRoot + href
  }

  /** Every kept href, in order, made absolute. */
  function KeptLinks(hrefs: seq<string>): seq<string>
  {
    if hrefs == [] then []
    else (if Keep(hrefs[0]) then [Absolute(hrefs[0])] else []) + KeptLinks(hrefs[1..])
  }

  /** Filtering distributes over concatenation: keeping is decided href by
      href, and the order of the hrefs is kept. */
  lemma {:induction false} KeptLinksAppend(a: seq<string>, b: seq<string>)
    ensures KeptLinks(a + b) == KeptLinks(a) + KeptLinks(b)
  {
    if a == [] {
      assert a + b == b;
    } else {
      assert (a + b)[0] == a[0];
      assert (a + b)[1..] == a[1..] + b;
      KeptLinksAppend(a[1..], b);
    }
  }

  /** A link is emitted exactly when some href passing the filter produces it. */
  lemma {:induction false} KeptLinksMember(hrefs: seq<string>, link: string)
    ensures link in KeptLinks(hrefs) <==> exists h :: h in hrefs && Keep(h) && link == Absolute(h)
  {
    if hrefs != [] {
      KeptLinksMember(hrefs[1..], link);
      assert forall h :: h in hrefs <==> h == hrefs[0] || h in hrefs[1..];
    }
  }

  /** Every emitted link is the site root followed by "/wiki/" and a path with
      no ':'; in particular no emitted link is empty. */
  lemma KeptLinksShape(hrefs: seq<string>, link: string)
    requires link in KeptLinks(hrefs)
    ensures SiteRoot + ArticlePrefix <= link
    ensures ':' !in link[|SiteRoot|..]
    ensures link != ""
  {
    KeptLinksMember(hrefs, link);
    var h :| h in hrefs && Keep(h) && link == Absolute(h);
    KeepIff(h);
    assert link[|SiteRoot|..] == h;
    assert (SiteRoot + ArticlePrefix) == link[..|SiteRoot| + |ArticlePrefix|];
  }

  // ---------------------------------------------------------------------------
  // The tree walk
  // ---------------------------------------------------------------------------

  /** The own href of a node, as a list of zero or one: the href of an anchor
      element that has one. */
  function OwnHref(n: Node): seq<string>
  {
    if n.Element? && n.tag == A && n.href.Some? then [n.href.value] else []
  }

  /** The hrefs of all anchors reachable from `n` through elements, in pre-order
      (document) order. */
  function AnchorHrefs(n: Node): seq<string>
    decreases n
  {
    match n
    case NonElement(_) => []
    case Element(_, _, children) => OwnHref(n) + AnchorHrefsAll(children)
  }

  /** The hrefs of a sequence of sibling subtrees, left to right. */
  function AnchorHrefsAll(ns: seq<Node>): seq<string>
    decreases ns
  {
    if ns == [] then [] else AnchorHrefs(ns[0]) + AnchorHrefsAll(ns[1..])
  }

  /** Adding one more sibling on the right appends its hrefs. */
  lemma {:induction false} AnchorHrefsAllSnoc(ns: seq<Node>, n: Node)
    ensures AnchorHrefsAll(ns + [n]) == AnchorHrefsAll(ns) + AnchorHrefs(n)
  {
    if ns == [] {
      assert [n][1..] == [];
      assert ns + [n] == [n];
    } else {
      assert (ns + [n])[0] == ns[0];
      assert (ns + [n])[1..] == ns[1..] + [n];
      AnchorHrefsAllSnoc(ns[1..], n);
    }
  }

  /** The scan of one node: nodes that are not elements yield nothing, and the
      links of an element are its own kept href followed by those of its
      children, in order. */
  lemma ScanOfNode(n: Node)
    ensures n.NonElement? ==> KeptLinks(AnchorHrefs(n)) == []
    ensures n.Element? ==>
      KeptLinks(AnchorHrefs(n)) == KeptLinks(OwnHref(n)) + KeptLinks(AnchorHrefsAll(n.children))
  {
    if n.Element? {
      KeptLinksAppend(OwnHref(n), AnchorHrefsAll(n.children));
    }
  }

  /** What the anchor test of the scan contributes for one node. */
  lemma OwnLinks(n: Node)
    ensures KeptLinks(OwnHref(n)) ==
      if n.Element? && n.tag == A && n.href.Some? && Keep(n.href.value)
      then [Absolute(n.href.value)] else []
  {
  }

  /** The links of a page: those the scan collects from its root. */
  function PageLinks(root: Node): seq<string>
  {
    KeptLinks(AnchorHrefs(root))
  }

  /** Scanning one more child on the right extends the collected links by the
      child's own. */
  lemma ScanChildStep(base: seq<string>, children: seq<Node>, i: nat)
    requires i < |children|
    ensures base + KeptLinks(AnchorHrefsAll(children[..i])) + KeptLinks(AnchorHrefs(children[i]))
         == base + KeptLinks(AnchorHrefsAll(children[..i + 1]))
  {
    var before, child := AnchorHrefsAll(children[..i]), AnchorHrefs(children[i]);
    assert children[..i + 1] == children[..i] + [children[i]];
    AnchorHrefsAllSnoc(children[..i], children[i]);
    KeptLinksAppend(before, child);
    assert KeptLinks(AnchorHrefsAll(children[..i + 1])) == KeptLinks(before) + KeptLinks(child);
  }

  /** The links of an element: its own kept href, then those of all its
      children. */
  lemma ScanOfElement(links: seq<string>, node: Node)
    requires node.Element?
    ensures links + KeptLinks(OwnHref(node)) + KeptLinks(AnchorHrefsAll(node.children[..|node.children|]))
         == links + PageLinks(node)
  {
    assert node.children[..|node.children|] == node.children;
    ScanOfNode(node);
  }

  /** The scan appends the links of `node` to `links`: it keeps the anchors of
      the subtree in pre-order that pass the filter, and it leaves the links
      already collected in front of them. */
  method SearchForLinks(node: Node, links: seq<string>) returns (out: seq<string>)
    ensures out == links + PageLinks(node)
    decreases node
  {
    if !node.Element? {
      return links;
    }
    out := links;
    if node.tag == A && node.href.Some? {
      var link := node.href.value;
      if Find(link, ArticlePrefix) == Some(0) && Find(link, ":") == None {
        out := out + [Absolute(link)];
      }
    }
    OwnLinks(node);
    ghost var base := links + KeptLinks(OwnHref(node));
    assert out == base;
    var children := node.children;
    var i := 0;
    while i < |children|
      invariant 0 <= i <= |children|
      invariant out == base + KeptLinks(AnchorHrefsAll(children[..i]))
    {
      assert children[i] in node.children;
      out := SearchForLinks(children[i], out);
      ScanChildStep(base, children, i);
      i := i + 1;
    }
    ScanOfElement(links, node);
  }
}
