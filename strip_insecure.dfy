/**
 * The insecure-source stripper: under every `<repo>` child of the document
 * root, delete each `<source>` child whose text starts with `git:`.
 * Each repo's child list is rewritten in place; the root's child list keeps
 * the same repos, so the document is modelled as the root's children with
 * every repo carrying its new child list.
 */
module StripInsecure {
  import opened Wrappers
  import opened Strings
  import opened Seqs
  import opened Xml

  predicate IsRepo(n: Node) {
    n.Element? && n.tag == "repo"
  }

  predicate IsSource(n: Node) {
    n.Element? && n.tag == "source"
  }

  /** A source whose `.text` is `None`: `startswith` raises AttributeError. */
  predicate HasNoText(n: Node) {
    IsSource(n) && TextOf(n).None?
  }

  /** A source whose text starts with `git:`, the unauthenticated protocol. */
  predicate IsInsecure(n: Node) {
    IsSource(n) && TextOf(n).Some? && StartsWith(TextOf(n).value, "git:")
  }

  /** A repo the script stops at. */
  predicate RepoFails(n: Node) {
    IsRepo(n) && exists c :: c in n.children && HasNoText(c)
  }

  predicate StripFails(children: seq<Node>) {
    exists n :: n in children && RepoFails(n)
  }

  /** A root child after the script: a repo loses its insecure sources. */
  function StripNode(n: Node): Node {
    if IsRepo(n) then Element(n.id, n.line, n.tag, Filter(n.children, Not(IsInsecure))) else n
  }

  /** The root's children after the script. */
  function Stripped(children: seq<Node>): seq<Node> {
    seq(|children|, i requires 0 <= i < |children| => StripNode(children[i]))
  }

  // ---------------------------------------------------------------------
  // The in-place loops
  // ---------------------------------------------------------------------

  /** The inner loop: over the `findall('source')` list taken before the
      loop, remove each source whose text starts with `git:`; stop with
      `raised` at the first source without text. */
  method StripRepoSources(repo: XmlElement) returns (raised: bool)
    requires repo.Valid()
    modifies repo
    ensures repo.Valid()
    ensures raised <==> exists c :: c in old(repo.children) && HasNoText(c)
    ensures !raised ==> repo.children == Filter(old(repo.children), Not(IsInsecure))
  {
    ghost var orig := repo.children;
    var sources := Filter(repo.children, Tagged("source"));
    NothingRemovedYet(orig);
    assert sources[..0] == [];
    assert WithoutText([]) == {};
    var i := 0;
    while i < |sources|
      invariant 0 <= i <= |sources|
      invariant repo.Valid()
      invariant repo.children == Filter(orig, NotIn(InsecureIn(sources[..i])))
      invariant WithoutText(sources[..i]) == {}
    {
      var failed := StripSource(repo, orig, sources, i);
      if failed {
        return true;
      }
      i := i + 1;
    }
    SourcesCovered(orig, sources, i, repo.children);
    raised := false;
  }

  /** The body of the inner loop for the `i`th source: `raised` when it has
      no text, otherwise the source is removed exactly when it is insecure. */
  method StripSource(repo: XmlElement, ghost orig: seq<Node>, sources: seq<Node>, i: nat)
    returns (failed: bool)
    requires repo.Valid()
    requires Distinct(orig) && sources == Filter(orig, Tagged("source")) && i < |sources|
    requires repo.children == Filter(orig, NotIn(InsecureIn(sources[..i])))
    modifies repo
    ensures repo.Valid()
    ensures sources[i] in orig
    ensures failed <==> HasNoText(sources[i])
    ensures WithoutText(sources[..i + 1])
         == WithoutText(sources[..i]) + (if failed then {sources[i]} else {})
    ensures !failed ==> repo.children == Filter(orig, NotIn(InsecureIn(sources[..i + 1])))
  {
    var source := sources[i];
    FilterDistinct(orig, Tagged("source"));
    SourceStep(orig, sources, i);
    var text := TextOf(source);
    if text.None? {
      return true;
    }
    ghost var removed := InsecureIn(sources[..i]);
    if StartsWith(text.value, "git:") {
      assert IsInsecure(source);
      RemoveFromFilter(orig, removed, source);
      repo.Remove(source);
      assert InsecureIn(sources[..i + 1]) == removed + {source};
    } else {
      assert !IsInsecure(source);
      assert InsecureIn(sources[..i + 1]) == removed;
    }
    failed := false;
  }

  /** The insecure sources among `s`: the ones the inner loop has removed
      once it has looked at `s`. */
  ghost function InsecureIn(s: seq<Node>): set<Node> {
    set x | x in s && IsInsecure(x)
  }

  /** The sources among `s` without text: the ones the inner loop stops at. */
  ghost function WithoutText(s: seq<Node>): set<Node> {
    set x | x in s && HasNoText(x)
  }

  /** Before the inner loop nothing has been removed. */
  lemma NothingRemovedYet(orig: seq<Node>)
    ensures Filter(orig, NotIn(InsecureIn([]))) == orig
  {
    assert InsecureIn([]) == {};
    FilterAll(orig, NotIn({}));
  }

  /** One turn of the inner loop: the next source is still a child, and it
      joins the removed set exactly when it is insecure. */
  lemma SourceStep(orig: seq<Node>, sources: seq<Node>, i: nat)
    requires sources == Filter(orig, Tagged("source")) && Distinct(sources) && i < |sources|
    ensures sources[i] in orig && IsSource(sources[i])
    ensures sources[i] in Filter(orig, NotIn(InsecureIn(sources[..i])))
    ensures InsecureIn(sources[..i + 1])
         == InsecureIn(sources[..i]) + (if IsInsecure(sources[i]) then {sources[i]} else {})
    ensures WithoutText(sources[..i + 1])
         == WithoutText(sources[..i]) + (if HasNoText(sources[i]) then {sources[i]} else {})
  {
    var x := sources[i];
    FilterMembers(orig, Tagged("source"));
    assert x in sources;
    DistinctNotBefore(sources, i);
    TakeNext(sources, i);
    assert NotIn(InsecureIn(sources[..i]))(x);
    FilterMembers(orig, NotIn(InsecureIn(sources[..i])));
  }

  /** After the loop over every source: the removed set is exactly the
      insecure children, and no source child lacks text. */
  lemma SourcesCovered(orig: seq<Node>, sources: seq<Node>, i: nat, children: seq<Node>)
    requires sources == Filter(orig, Tagged("source")) && i == |sources|
    requires children == Filter(orig, NotIn(InsecureIn(sources[..i])))
    requires WithoutText(sources[..i]) == {}
    ensures children == Filter(orig, Not(IsInsecure))
    ensures forall c :: c in orig ==> !HasNoText(c)
  {
    assert sources[..i] == sources;
    FilterMembers(orig, Tagged("source"));
    forall c | c in orig && IsSource(c) ensures c in sources && !HasNoText(c) {
      assert Tagged("source")(c);
      assert c !in WithoutText(sources);
    }
    FilterCongruent(orig, NotIn(InsecureIn(sources)), Not(IsInsecure));
  }

  /** The outer loop over the repos of the root, in document order (the
      order of `findall('repo')`). Each repo is stripped in place; the
      document is returned with every repo carrying its new child list,
      or `raised` where the script stops. */
  method StripInsecure(children: seq<Node>) returns (result: seq<Node>, raised: bool)
    requires forall n :: n in children && IsRepo(n) ==> Distinct(n.children)
    ensures raised <==> StripFails(children)
    ensures !raised ==> result == Stripped(children)
  {
    result := children;
    var i := 0;
    while i < |children|
      invariant 0 <= i <= |children|
      invariant |result| == |children|
      invariant forall k :: 0 <= k < i ==> result[k] == StripNode(children[k])
      invariant forall k :: i <= k < |children| ==> result[k] == children[k]
      invariant forall k :: 0 <= k < i ==> !RepoFails(children[k])
    {
      var node := children[i];
      if node.Element? && node.tag == "repo" {
        var repo := new XmlElement(node.tag, node.children);
        var failed := StripRepoSources(repo);
        if failed {
          assert RepoFails(node);
          return result, true;
        }
        result := result[i := Element(node.id, node.line, node.tag, repo.children)];
      }
      i := i + 1;
    }
    forall n | n in children ensures !RepoFails(n) {
      var k :| 0 <= k < |children| && children[k] == n;
    }
    raised := false;
  }

  // ---------------------------------------------------------------------
  // Properties
  // ---------------------------------------------------------------------

  /** Only the direct repo children change; each keeps its identity, and no
      child of the root is added or removed. */
  lemma StrippedShape(children: seq<Node>)
    ensures |Stripped(children)| == |children|
    ensures forall i :: 0 <= i < |children| && !IsRepo(children[i]) ==> Stripped(children)[i] == children[i]
    ensures forall i :: 0 <= i < |children| && IsRepo(children[i]) ==>
      IsRepo(Stripped(children)[i]) && Stripped(children)[i].id == children[i].id
  {
  }

  /** Inside a repo: no insecure source is left; the other sources stay in
      their order; every child that is not a source is untouched. */
  lemma StripRepoEffect(repo: Node)
    requires IsRepo(repo)
    ensures forall c :: c in StripNode(repo).children ==> !IsInsecure(c)
    ensures Filter(StripNode(repo).children, IsSource) == Filter(repo.children, SecureSource)
    ensures Filter(StripNode(repo).children, Not(IsSource)) == Filter(repo.children, Not(IsSource))
  {
    var kept := Filter(repo.children, Not(IsInsecure));
    FilterMembers(repo.children, Not(IsInsecure));
    FilterThen(repo.children, Not(IsInsecure), IsSource, SecureSource);
    FilterThen(repo.children, Not(IsInsecure), Not(IsSource), Not(IsSource));
  }

  function SecureSource(n: Node): bool {
    IsSource(n) && !IsInsecure(n)
  }

  /** Running the script on its own output changes nothing. */
  lemma StripIdempotent(children: seq<Node>)
    requires !StripFails(children)
    ensures !StripFails(Stripped(children))
    ensures Stripped(Stripped(children)) == Stripped(children)
  {
    var once := Stripped(children);
    forall i | 0 <= i < |children| ensures StripNode(once[i]) == once[i] && !RepoFails(once[i]) {
      if IsRepo(children[i]) {
        assert children[i] in children;
        FilterIdempotent(children[i].children, Not(IsInsecure));
        FilterMembers(children[i].children, Not(IsInsecure));
      }
    }
    forall n | n in once ensures !RepoFails(n) {
      var k :| 0 <= k < |once| && once[k] == n;
    }
  }

  /** A repo with `git+https:`, `git:` and `https:` sources keeps the first
      and the last. */
  lemma StripExample()
    ensures var https := Element(1, 3, "source", [Text(2, "git+https://a")]);
      var git := Element(3, 4, "source", [Text(4, "git://a")]);
      var web := Element(5, 5, "source", [Text(6, "https://a")]);
      StripNode(Element(0, 2, "repo", [https, git, web])) == Element(0, 2, "repo", [https, web])
  {
    ExampleSources();
    StripMiddle(0, 2, Element(1, 3, "source", [Text(2, "git+https://a")]),
      Element(3, 4, "source", [Text(4, "git://a")]), Element(5, 5, "source", [Text(6, "https://a")]));
  }

  lemma StripMiddle(id: nat, line: nat, first: Node, middle: Node, last: Node)
    requires !IsInsecure(first) && IsInsecure(middle) && !IsInsecure(last)
    ensures StripNode(Element(id, line, "repo", [first, middle, last])) == Element(id, line, "repo", [first, last])
  {
    FilterDropMiddle(first, middle, last, Not(IsInsecure));
  }

  /** Only the `git:` source of the example is insecure. */
  lemma ExampleSources()
    ensures !IsInsecure(Element(1, 3, "source", [Text(2, "git+https://a")]))
    ensures IsInsecure(Element(3, 4, "source", [Text(4, "git://a")]))
    ensures !IsInsecure(Element(5, 5, "source", [Text(6, "https://a")]))
  {
    assert TextOf(Element(1, 3, "source", [Text(2, "git+https://a")])) == Some("git+https://a");
    assert "git+https://a"[..4][3] == '+';
    assert TextOf(Element(3, 4, "source", [Text(4, "git://a")])) == Some("git://a");
    assert "git://a"[..4] == "git:";
    assert TextOf(Element(5, 5, "source", [Text(6, "https://a")])) == Some("https://a");
    assert "https://a"[..4][0] == 'h';
  }
}
