/**
 * The repositories.xml formatter: sort the `<repo>` children of
 * `<repositories>` case-insensitively and stably by name, detach them all
 * and append them in sorted order, then move every vim modeline comment to
 * the end.
 */
module SortRepositories {
  import opened Wrappers
  import opened Strings
  import opened Seqs
  import opened StableSort
  import opened Xml

  predicate IsRepo(n: Node) {
    n.Element? && n.tag == "repo"
  }

  /** A comment holding an editor modeline, such as `<!-- vim: set ts=2 -->`. */
  predicate IsModeline(n: Node) {
    n.Comment? && StartsWith(n.text, " vim:")
  }

  /** The text nodes of the given `<name>` elements, in document order. */
  function NameTexts(names: seq<Node>): seq<string> {
    if names == [] then []
    else (if names[0].Element? then TextNodes(names[0].children) else []) + NameTexts(names[1..])
  }

  /** `extract_repo_name`: the first text node under a `<name>` child, or
      `None` where the script raises IndexError. */
  function ExtractRepoName(repo: Node): (r: Option<string>)
    ensures r.None? <==> NameTexts(FindAll(repo, "name")) == []
    ensures r.Some? ==> r.value == NameTexts(FindAll(repo, "name"))[0] && r.value != ""
  {
    var texts := NameTexts(FindAll(repo, "name"));
    NameTextsNonEmpty(FindAll(repo, "name"));
    if texts == [] then None else assert texts[0] in texts; Some(texts[0])
  }

  lemma {:induction false} TextNodesNonEmpty(children: seq<Node>)
    ensures forall t :: t in TextNodes(children) ==> t != ""
  {
    if children != [] {
      TextNodesNonEmpty(children[1..]);
    }
  }

  lemma {:induction false} NameTextsNonEmpty(names: seq<Node>)
    ensures forall t :: t in NameTexts(names) ==> t != ""
  {
    if names != [] {
      NameTextsNonEmpty(names[1..]);
      if names[0].Element? {
        TextNodesNonEmpty(names[0].children);
      }
    }
  }

  /** The sort key `extract_repo_name(node).lower()`, for a node that has a name. */
  function RepoKey(repo: Node): string {
    AsciiLower(ExtractRepoName(repo).GetOr(""))
  }

  predicate HasName(repo: Node) {
    ExtractRepoName(repo).Some?
  }

  /** `sort_repo_nodes`: `None` when the key function raises for some node
      (Python computes every key before it moves anything); otherwise the
      nodes ordered by lowercased name, the same nodes, and nodes of equal
      key in their original order. */
  function SortRepoNodes(nodes: seq<Node>): (r: Option<seq<Node>>)
    ensures r.None? <==> exists n :: n in nodes && !HasName(n)
    ensures r.Some? ==> SortedBy(r.value, RepoKey)
    ensures r.Some? ==> multiset(r.value) == multiset(nodes)
    ensures r.Some? ==> forall k :: Filter(r.value, HasKey(RepoKey, k)) == Filter(nodes, HasKey(RepoKey, k))
  {
    if exists n :: n in nodes && !HasName(n) then None
    else
      assert forall k :: Filter(SortBy(nodes, RepoKey), HasKey(RepoKey, k)) == Filter(nodes, HasKey(RepoKey, k)) by {
        forall k ensures Filter(SortBy(nodes, RepoKey), HasKey(RepoKey, k)) == Filter(nodes, HasKey(RepoKey, k)) {
          SortByStable(nodes, RepoKey, k);
        }
      }
      Some(SortBy(nodes, RepoKey))
  }

  /** The child list the script leaves under `<repositories>`, or `None`
      where it raises (no `<repositories>` root, or a repo without a name). */
  function Normalized(tag: string, children: seq<Node>): (r: Option<seq<Node>>)
    ensures r.None? <==> tag != "repositories" || exists n :: n in children && IsRepo(n) && !HasName(n)
  {
    FilterMembers(children, IsRepo);
    if tag != "repositories" then None
    else
      match SortRepoNodes(Filter(children, IsRepo))
      case None => None
      case Some(sorted) => Some(Rearranged(children, sorted))
  }

  /** The children after `reinsert_repo_nodes` with the sorted list and then
      `vim_modelines_fixup`. */
  function Rearranged(children: seq<Node>, sorted: seq<Node>): seq<Node> {
    var reinserted := Filter(children, Not(IsRepo)) + sorted;
    Filter(reinserted, Not(IsModeline)) + Filter(reinserted, IsModeline)
  }

  // ---------------------------------------------------------------------
  // The in-place steps
  // ---------------------------------------------------------------------

  /** `reinsert_repo_nodes`: remove each listed node, then append each in list
      order. The unlisted children keep their relative order and end up in
      front of all the listed ones. */
  method ReinsertRepoNodes(repositories: XmlElement, repoNodes: seq<Node>)
    requires repositories.Valid() && Distinct(repoNodes)
    requires forall n :: n in repoNodes ==> n in repositories.children
    modifies repositories
    ensures repositories.Valid()
    ensures repositories.children
         == Filter(old(repositories.children), NotIn(Elems(repoNodes))) + repoNodes
  {
    ghost var orig := repositories.children;
    assert Elems(repoNodes[..0]) == {};
    FilterAll(orig, NotIn({}));
    var i := 0;
    while i < |repoNodes|
      invariant 0 <= i <= |repoNodes|
      invariant repositories.Valid()
      invariant repositories.children == Filter(orig, NotIn(Elems(repoNodes[..i])))
    {
      RemoveNext(orig, repoNodes, i);
      repositories.Remove(repoNodes[i]);
      i := i + 1;
    }
    assert repoNodes[..|repoNodes|] == repoNodes;
    ghost var kept := repositories.children;
    FilterMembers(orig, NotIn(Elems(repoNodes)));
    assert repoNodes[..0] == [] && kept + [] == kept;
    i := 0;
    while i < |repoNodes|
      invariant 0 <= i <= |repoNodes|
      invariant repositories.Valid()
      invariant repositories.children == kept + repoNodes[..i]
    {
      assert repoNodes[i] in repoNodes;
      AppendNext(kept, repoNodes, i);
      repositories.Append(repoNodes[i]);
      i := i + 1;
    }
    assert repoNodes[..|repoNodes|] == repoNodes;
  }

  /** `vim_modelines_fixup`: collect the modeline comments among the direct
      children, then move each to the end in turn. */
  method VimModelinesFixup(repositories: XmlElement)
    requires repositories.Valid()
    modifies repositories
    ensures repositories.Valid()
    ensures repositories.children
         == Filter(old(repositories.children), Not(IsModeline))
          + Filter(old(repositories.children), IsModeline)
  {
    ghost var orig := repositories.children;
    var vimComments := CollectModelines(repositories.children);
    FilterDistinct(orig, IsModeline);
    FilterMembers(orig, IsModeline);
    MoveToEnd(repositories, vimComments);
    FilterOutPermutation(orig, IsModeline, vimComments);
  }

  /** The first loop of `vim_modelines_fixup`: the modeline comments among
      the children, in document order. */
  method CollectModelines(children: seq<Node>) returns (vimComments: seq<Node>)
    ensures vimComments == Filter(children, IsModeline)
  {
    vimComments := [];
    var i := 0;
    while i < |children|
      invariant 0 <= i <= |children|
      invariant vimComments == Filter(children[..i], IsModeline)
    {
      var node := children[i];
      FilterSnoc(children[..i], node, IsModeline);
      assert children[..i + 1] == children[..i] + [node];
      if node.Comment? && StartsWith(node.text, " vim:") {
        vimComments := vimComments + [node];
      }
      i := i + 1;
    }
    assert children[..|children|] == children;
  }

  /** The second loop of `vim_modelines_fixup`: remove each listed child
      and append it at once. The unlisted children keep their order in front
      of the listed ones, which end up in list order. */
  method MoveToEnd(repositories: XmlElement, listed: seq<Node>)
    requires repositories.Valid() && Distinct(listed)
    requires forall n :: n in listed ==> n in repositories.children
    modifies repositories
    ensures repositories.Valid()
    ensures repositories.children
         == Filter(old(repositories.children), NotIn(Elems(listed))) + listed
  {
    ghost var orig := repositories.children;
    assert Elems(listed[..0]) == {};
    FilterAll(orig, NotIn({}));
    var j := 0;
    while j < |listed|
      invariant 0 <= j <= |listed|
      invariant repositories.Valid()
      invariant repositories.children == Filter(orig, NotIn(Elems(listed[..j]))) + listed[..j]
    {
      MoveNext(orig, listed, j);
      repositories.Remove(listed[j]);
      assert listed[j] in Elems(listed[..j + 1]);
      AppendNext(Filter(orig, NotIn(Elems(listed[..j + 1]))), listed, j);
      repositories.Append(listed[j]);
      j := j + 1;
    }
    assert listed[..|listed|] == listed;
  }

  /** The script's main sequence (sort, reinsert, fix up modelines) on the
      document's root element; `raised` where the script stops with an
      exception, before anything has moved. */
  method Normalize(repositories: XmlElement) returns (raised: bool)
    requires repositories.Valid()
    modifies repositories
    ensures repositories.Valid()
    ensures raised <==> Normalized(repositories.tag, old(repositories.children)).None?
    ensures raised ==> repositories.children == old(repositories.children)
    ensures !raised ==> repositories.children == Normalized(repositories.tag, old(repositories.children)).value
  {
    if repositories.tag != "repositories" {
      return true;
    }
    var repoNodes := Filter(repositories.children, IsRepo);
    var sorted := SortRepoNodes(repoNodes);
    if sorted.None? {
      return true;
    }
    ReinsertSorted(repositories, repoNodes, sorted.value);
    VimModelinesFixup(repositories);
    raised := false;
  }

  /** `reinsert_repo_nodes` with a sorted copy of the repo children: the
      other children stay in order in front of the sorted repos. */
  method ReinsertSorted(repositories: XmlElement, repoNodes: seq<Node>, sorted: seq<Node>)
    requires repositories.Valid()
    requires repoNodes == Filter(repositories.children, IsRepo)
    requires multiset(sorted) == multiset(repoNodes)
    modifies repositories
    ensures repositories.Valid()
    ensures repositories.children == Filter(old(repositories.children), Not(IsRepo)) + sorted
  {
    FilterDistinct(repositories.children, IsRepo);
    DistinctPermutation(repoNodes, sorted);
    FilterOutPermutation(repositories.children, IsRepo, sorted);
    ReinsertRepoNodes(repositories, sorted);
  }

  // ---------------------------------------------------------------------
  // Properties of the formatter
  // ---------------------------------------------------------------------

  /** What the formatter leaves: the children that are neither repos nor
      modelines in their original order, then the sorted repos, then the
      modelines in their original order. */
  lemma RearrangedLayout(children: seq<Node>, sorted: seq<Node>)
    requires forall n :: n in sorted ==> IsRepo(n)
    ensures Rearranged(children, sorted)
         == Filter(Filter(children, Not(IsRepo)), Not(IsModeline)) + sorted + Filter(children, IsModeline)
  {
    var others := Filter(children, Not(IsRepo));
    KeptInFront(others, sorted);
    ModelinesAtEnd(children, sorted);
  }

  /** Repos are not modelines, so they all stay in front of the modelines. */
  lemma KeptInFront(others: seq<Node>, sorted: seq<Node>)
    requires forall n :: n in sorted ==> IsRepo(n)
    ensures Filter(others + sorted, Not(IsModeline)) == Filter(others, Not(IsModeline)) + sorted
  {
    FilterConcat(others, sorted, Not(IsModeline));
    FilterAll(sorted, Not(IsModeline));
  }

  /** Every modeline among the children is among the non-repo children. */
  lemma ModelinesAtEnd(children: seq<Node>, sorted: seq<Node>)
    requires forall n :: n in sorted ==> IsRepo(n)
    ensures Filter(Filter(children, Not(IsRepo)) + sorted, IsModeline) == Filter(children, IsModeline)
  {
    var others := Filter(children, Not(IsRepo));
    FilterConcat(others, sorted, IsModeline);
    FilterNone(sorted, IsModeline);
    assert Filter(others, IsModeline) + [] == Filter(others, IsModeline);
    forall x | IsModeline(x) ensures Not(IsRepo)(x) {
      assert !IsRepo(x);
    }
    FilterNarrow(children, Not(IsRepo), IsModeline);
  }

  lemma SortedRepoNodesAreRepos(children: seq<Node>)
    requires SortRepoNodes(Filter(children, IsRepo)).Some?
    ensures forall n :: n in SortRepoNodes(Filter(children, IsRepo)).value ==> IsRepo(n)
  {
    var nodes := Filter(children, IsRepo);
    var sorted := SortRepoNodes(nodes).value;
    FilterMembers(children, IsRepo);
    forall n | n in sorted ensures IsRepo(n) {
      assert n in multiset(sorted);
      assert n in nodes;
    }
  }

  /** A sorted list of named repos is its own sort. */
  lemma SortRepoNodesSorted(nodes: seq<Node>)
    requires SortedBy(nodes, RepoKey) && forall n :: n in nodes ==> HasName(n)
    ensures SortRepoNodes(nodes) == Some(nodes)
  {
    SortBySorted(nodes, RepoKey);
  }

  /** Names sort by their lowercase form: `Bar, apple, Zed` becomes
      `apple, Bar, Zed`. */
  lemma LowercaseOrderExample()
    ensures SortBy(["Bar", "apple", "Zed"], AsciiLower) == ["apple", "Bar", "Zed"]
  {
    ExampleKeys();
    SortThree("Bar", "apple", "Zed", AsciiLower);
  }

  lemma ExampleKeys()
    ensures AsciiLower("Bar") == "bar" && AsciiLower("apple") == "apple" && AsciiLower("Zed") == "zed"
    ensures LexLe("bar", "zed") && !LexLe("bar", "apple") && LexLe("apple", "zed")
  {
  }

  /** Rearranging a layout already produced by rearranging gives it back. */
  lemma RearrangedFixpoint(front: seq<Node>, sorted: seq<Node>, modelines: seq<Node>)
    requires forall n :: n in front ==> !IsRepo(n) && !IsModeline(n)
    requires forall n :: n in sorted ==> IsRepo(n)
    requires forall n :: n in modelines ==> IsModeline(n)
    ensures Filter(front + sorted + modelines, IsRepo) == sorted
    ensures Rearranged(front + sorted + modelines, sorted) == front + sorted + modelines
  {
    LayoutRepos(front, sorted, modelines);
    LayoutOthers(front, sorted, modelines);
    LayoutModelines(front, modelines, sorted);
  }

  lemma LayoutRepos(front: seq<Node>, sorted: seq<Node>, modelines: seq<Node>)
    requires forall n :: n in front ==> !IsRepo(n)
    requires forall n :: n in sorted ==> IsRepo(n)
    requires forall n :: n in modelines ==> IsModeline(n)
    ensures Filter(front + sorted + modelines, IsRepo) == sorted
  {
    FilterKeepMiddle(front, sorted, modelines, IsRepo);
  }

  lemma LayoutOthers(front: seq<Node>, sorted: seq<Node>, modelines: seq<Node>)
    requires forall n :: n in front ==> !IsRepo(n)
    requires forall n :: n in sorted ==> IsRepo(n)
    requires forall n :: n in modelines ==> IsModeline(n)
    ensures Filter(front + sorted + modelines, Not(IsRepo)) == front + modelines
  {
    forall n | n in modelines ensures Not(IsRepo)(n) {
      assert !IsRepo(n);
    }
    FilterKeepOuter(front, sorted, modelines, Not(IsRepo));
  }

  lemma LayoutModelines(front: seq<Node>, modelines: seq<Node>, sorted: seq<Node>)
    requires forall n :: n in front ==> !IsModeline(n)
    requires forall n :: n in sorted ==> IsRepo(n)
    requires forall n :: n in modelines ==> IsModeline(n)
    ensures Filter(front + modelines + sorted, Not(IsModeline)) == front + sorted
    ensures Filter(front + modelines + sorted, IsModeline) == modelines
  {
    forall n | n in sorted ensures Not(IsModeline)(n) {
      assert IsRepo(n);
      assert !IsModeline(n);
    }
    FilterKeepOuter(front, modelines, sorted, Not(IsModeline));
    FilterKeepMiddle(front, modelines, sorted, IsModeline);
  }

  /** Formatting a formatted document changes nothing. */
  lemma NormalizeIdempotent(tag: string, children: seq<Node>)
    requires Normalized(tag, children).Some?
    ensures Normalized(tag, Normalized(tag, children).value) == Normalized(tag, children)
  {
    var sorted := SortRepoNodes(Filter(children, IsRepo)).value;
    NormalizedBy(tag, children, sorted);
    SortedRepoNodesAreRepos(children);
    RearrangedLayout(children, sorted);
    var front := Filter(Filter(children, Not(IsRepo)), Not(IsModeline));
    var modelines := Filter(children, IsModeline);
    var once := front + sorted + modelines;
    FrontAndModelines(children);
    RearrangedFixpoint(front, sorted, modelines);
    assert forall n :: n in sorted ==> n in multiset(Filter(children, IsRepo));
    SortRepoNodesSorted(sorted);
    NormalizedBy(tag, once, sorted);
  }

  /** The children kept in front are neither repos nor modelines; the ones
      moved to the end are modelines. */
  lemma FrontAndModelines(children: seq<Node>)
    ensures forall n :: n in Filter(Filter(children, Not(IsRepo)), Not(IsModeline)) ==> !IsRepo(n) && !IsModeline(n)
    ensures forall n :: n in Filter(children, IsModeline) ==> IsModeline(n)
  {
    FilterMembers(children, Not(IsRepo));
    FilterMembers(Filter(children, Not(IsRepo)), Not(IsModeline));
    FilterMembers(children, IsModeline);
    forall n | n in Filter(Filter(children, Not(IsRepo)), Not(IsModeline)) ensures !IsRepo(n) && !IsModeline(n) {
      assert Not(IsModeline)(n) && n in Filter(children, Not(IsRepo));
      assert Not(IsRepo)(n);
    }
  }

  /** `Normalized` once the repo children are known to sort to `sorted`. */
  lemma NormalizedBy(tag: string, children: seq<Node>, sorted: seq<Node>)
    requires tag == "repositories" && SortRepoNodes(Filter(children, IsRepo)) == Some(sorted)
    ensures Normalized(tag, children) == Some(Rearranged(children, sorted))
  {
  }

  /** The formatted child list: the children that are neither repos nor
      modelines in their order, then every repo sorted by lowercased name
      (repos of equal key in input order), then the modelines in their order. */
  lemma NormalizedLayout(tag: string, children: seq<Node>)
    requires Normalized(tag, children).Some?
    ensures var r := Normalized(tag, children).value;
      r == Filter(Filter(children, Not(IsRepo)), Not(IsModeline))
         + Filter(r, IsRepo) + Filter(children, IsModeline)
    ensures var repos := Filter(Normalized(tag, children).value, IsRepo);
      SortedBy(repos, RepoKey) && multiset(repos) == multiset(Filter(children, IsRepo))
      && forall k :: Filter(repos, HasKey(RepoKey, k)) == Filter(Filter(children, IsRepo), HasKey(RepoKey, k))
  {
    var sorted := SortRepoNodes(Filter(children, IsRepo)).value;
    SortedRepoNodesAreRepos(children);
    RearrangedLayout(children, sorted);
    var front := Filter(Filter(children, Not(IsRepo)), Not(IsModeline));
    var modelines := Filter(children, IsModeline);
    FrontAndModelines(children);
    LayoutRepos(front, sorted, modelines);
  }

  /** The formatter neither loses nor adds a child. */
  lemma NormalizePermutes(tag: string, children: seq<Node>)
    requires Normalized(tag, children).Some?
    ensures multiset(Normalized(tag, children).value) == multiset(children)
  {
    RearrangedPermutes(children, SortRepoNodes(Filter(children, IsRepo)).value);
  }

  lemma RearrangedPermutes(children: seq<Node>, sorted: seq<Node>)
    requires multiset(sorted) == multiset(Filter(children, IsRepo))
    ensures multiset(Rearranged(children, sorted)) == multiset(children)
  {
    var others := Filter(children, Not(IsRepo));
    var reinserted := others + sorted;
    assert multiset(reinserted) == multiset(children) by {
      FilterPartition(children, IsRepo);
    }
    assert multiset(Rearranged(children, sorted)) == multiset(reinserted) by {
      FilterPartition(reinserted, IsModeline);
    }
  }
}
