# Overlay registry maintenance scripts, modelled in Dafny

The repository keeps `repositories.xml`, the registry of Gentoo overlays,
and a few scripts around it. Five of them hold logic worth modelling:

- **The overlay checker** (`bin/repositories-checker.py`). It reads the
  `<repo>` entries of a base and a current registry and builds one
  `Overlay` record per entry. It reports a missing name or owner email,
  then takes the overlays the current file adds, by name. For each
  addition it asks the bug tracker whether the owner email is known, and
  checks that the addition sits in order between its neighbours. Its
  exit code is 1 when an error was printed.
- **The formatter** (`bin/sort_repositories.py`). It sorts the `<repo>`
  children of `<repositories>` stably by lowercased name and detaches and
  re-appends them in that order. Then it moves every `vim:` modeline
  comment to the end.
- **The insecure-source stripper** (`bin/strip-insecure.py`). It deletes
  every `<source>` of a repo whose text starts with `git:`.
- **The USE-flag index builder** (`bin/use-index.rb`). It parses the
  global and local USE flag description files into nested hashes.
- **The projects.xml generator** (`bin/projects-xml.rb`). It builds the
  parent-to-subproject index, shapes one `<project>` per project with its
  subprojects and members, and writes the file only when its text changes.

Each script becomes one module, in the form the script has:

- Loops that rewrite a list or a hash in place are methods with loop
  invariants.
- The XML element whose child list is rewritten is a class (`Xml.XmlElement`).
- The checker's global `ok_flag` and its printed output are the state of a
  class (`RepositoriesChecker.Checker`).
- The `output` hash of the USE index is the state of `UseIndex.Output`.
- Expression-level decisions are functions: the attribute rules, the
  member order, the sort step and the write decision.

Every method is proved against a specification function, and the
properties the scripts promise are proved as lemmas about those functions.

Shared modules:

- `Xml`: the slice of an lxml tree that the scripts touch. Nodes carry an
  identity, so a child list holds each node once.
- `Strings`:
  - Python's code-point string order, with its order laws;
  - ASCII case folding;
  - whitespace stripping;
  - Ruby's `split(sep, 2)` and its inverse.
- `Seqs`: order-preserving filtering and removal.
- `StableSort`: sorting by a string key, stable.

An exception that escapes a script becomes a failure result: `None`, or a
trace that ends in `raised`. It stands for these exceptions:

- Python's `IndexError` of `xpath(...)[0]` (`bin/sort_repositories.py:39`,
  `:64`) and of `curr[index + 1]` (`bin/repositories-checker.py:100`);
- Python's `ValueError` of `curr.index` (`bin/repositories-checker.py:97`);
- Python's `TypeError` of `>=` or `<=` between a name and `None`
  (`bin/repositories-checker.py:98`, `:100`);
- Python's `AttributeError` of `None.sourceline`
  (`bin/repositories-checker.py:31` by way of `:58`) and of
  `None.startswith` (`bin/strip-insecure.py:37`);
- Ruby's `NoMethodError` on `nil` (`split` in `bin/use-index.rb:21`, `sort`
  of a missing member list) and on a value without `empty?`;
- Ruby's `NoMethodError` of `sort` on a member value that is a string, a
  number or a boolean (`bin/projects-xml.rb:46`);
- Ruby's `NoMethodError`, `TypeError` or `ArgumentError` of the `casecmp`
  sort over a non-string nickname, and the `TypeError` of `member['is_lead']`
  on a key-value pair (`bin/projects-xml.rb:46-48`).

The interpreter then prints a traceback and exits with status 1.

Notes on what the code does:

- The checker compares names case-sensitively (`>=` and `<=` on `str`).
- The successor guard `index < len(curr)` always holds. An addition in the
  last position is therefore never accepted: it is reported or the script
  raises (`RepositoriesChecker.LastAddition`,
  `RepositoriesChecker.LastAdditionFails`).
- The checker finds an addition by `curr.index`, that is, at the first
  position with an equal name.
- The formatter re-appends the repos after all other children. It does
  not put them back in their old slots.

## Model

| member | source | states |
|---|---|---|
| Xml.FindIsFirst | bin/repositories-checker.py:49 | `find(tag)` is the first element of `findall(tag)`, or `None` when that list is empty |
| Xml.FindPathNeedsOuter | bin/repositories-checker.py:55-58 | an `owner/email` element can only be found when an `<owner>` child exists |
| Xml.XmlElement.constructor | bin/strip-insecure.py:34 | an element over a child list that holds each node once |
| Xml.XmlElement.Remove | bin/strip-insecure.py:38 | `remove` drops the node from the child list and keeps the order of the others; the node must be a child |
| Xml.XmlElement.Append | bin/sort_repositories.py:99 | `append` puts the node last and takes it out of its old place if it was a child; the list still holds each node once |
| Strings.LexLeTotal | bin/repositories-checker.py:98-100 | any two names compare with `<=` one way or the other |
| Strings.LexLeAntisymmetric | bin/repositories-checker.py:98-100 | two names that are each `<=` the other are equal |
| Strings.LexLeTransitive | bin/repositories-checker.py:98-100 | the string order is transitive |
| Strings.LexNotLe | bin/repositories-checker.py:98-100 | not `a <= b` means `b < a` |
| Strings.TrimStart | bin/repositories-checker.py:32 | the result is the longest suffix that does not start with whitespace; everything dropped is whitespace |
| Strings.TrimEnd | bin/repositories-checker.py:32 | the result is the longest prefix that does not end with whitespace; everything dropped is whitespace |
| Strings.RubySplit2 | bin/use-index.rb:13 | `split(sep, 2)`: no field for the empty string; otherwise the text before the first `sep` and the rest, or the whole string when there is no `sep` |
| Strings.SplitPrefixFree | bin/use-index.rb:21-22 | the first field of a split holds no separator; an unsplit string holds none at all |
| StableSort.SortBy | bin/sort_repositories.py:79-82 | the result is sorted by key and is a permutation of the input |
| StableSort.SortByStable | bin/sort_repositories.py:73-79 | the elements of each key keep their input order |
| StableSort.SortBySorted | bin/sort_repositories.py:79-82 | sorting a sorted list changes nothing |
| StableSort.SortThree | bin/sort_repositories.py:79-82 | three elements whose middle key is least come out middle, first, last |
| SortRepositories.ExtractRepoName | bin/sort_repositories.py:55-64 | the first text node under a `<name>` child (never empty), or a failure when there is none |
| SortRepositories.SortRepoNodes | bin/sort_repositories.py:67-82 | raises iff some repo has no name text; otherwise sorted by lowercased name, a permutation, and stable |
| SortRepositories.LowercaseOrderExample | bin/sort_repositories.py:79-82 | `Bar, apple, Zed` sorts to `apple, Bar, Zed` |
| SortRepositories.Normalized | bin/sort_repositories.py:150-158 | the pipeline raises iff the root is not `<repositories>` or some repo has no name |
| SortRepositories.ReinsertRepoNodes | bin/sort_repositories.py:85-99 | after both loops, the unlisted children come in their old order, followed by the listed nodes in list order |
| SortRepositories.VimModelinesFixup | bin/sort_repositories.py:102-120 | the non-modeline children in their old order, then the modelines in their old order |
| SortRepositories.CollectModelines | bin/sort_repositories.py:110-116 | the collected comments are exactly the modeline children, in document order |
| SortRepositories.MoveToEnd | bin/sort_repositories.py:118-120 | removing and re-appending each listed child leaves the others in order in front of the listed ones, in list order |
| SortRepositories.ReinsertSorted | bin/sort_repositories.py:151-156 | reinserting the sorted repo list leaves the non-repo children in order in front of the sorted repos |
| SortRepositories.Normalize | bin/sort_repositories.py:150-158 | the in-place pipeline raises iff `Normalized` does and then changes nothing; otherwise the children become `Normalized`'s result |
| SortRepositories.RearrangedLayout | bin/sort_repositories.py:150-158 | the result is the children that are neither repos nor modelines, then the sorted repos, then the modelines |
| SortRepositories.RearrangedFixpoint | bin/sort_repositories.py:150-158 | a child list already in that layout keeps its repo list and is its own rearrangement |
| SortRepositories.SortRepoNodesSorted | bin/sort_repositories.py:79-82 | an already sorted list of named repos sorts to itself |
| SortRepositories.NormalizeIdempotent | bin/sort_repositories.py:150-158 | formatting a formatted document changes nothing |
| SortRepositories.NormalizedLayout | bin/sort_repositories.py:150-158 | the other children in order, then every repo sorted, stable and permuted, then the modelines in order |
| SortRepositories.NormalizePermutes | bin/sort_repositories.py:150-158 | no child is lost or added |
| StripInsecure.StripRepoSources | bin/strip-insecure.py:35-38 | raises iff some source child has no text; otherwise exactly the `git:` sources are removed and the other children keep their order |
| StripInsecure.StripSource | bin/strip-insecure.py:36-38 | one turn of the inner loop: raises iff the source has no text, otherwise removes it iff its text starts with `git:` |
| StripInsecure.SourceStep | bin/strip-insecure.py:35-38 | the next source is still a child, and joins the removed set (and the set without text) exactly when it is insecure (has no text) |
| StripInsecure.SourcesCovered | bin/strip-insecure.py:35-38 | once every source has been looked at, the children left are exactly the secure ones and none lacks text |
| StripInsecure.StripInsecure | bin/strip-insecure.py:32-38 | raises iff some repo has a source without text; otherwise every repo child of the root is stripped |
| StripInsecure.StrippedShape | bin/strip-insecure.py:32-38 | no child of the root is added or removed; only repos change and each keeps its identity |
| StripInsecure.StripRepoEffect | bin/strip-insecure.py:35-38 | no `git:` source is left; the other sources and every non-source child keep their order |
| StripInsecure.StripIdempotent | bin/strip-insecure.py:34-38 | stripping a stripped document changes nothing and does not raise |
| StripInsecure.StripMiddle | bin/strip-insecure.py:35-38 | of a secure, an insecure and a secure source, the middle one goes |
| StripInsecure.ExampleSources | bin/strip-insecure.py:37 | `git+https://` and `https://` sources are secure and `git://` is not |
| StripInsecure.StripExample | bin/strip-insecure.py:35-38 | a repo with `git+https:`, `git:` and `https:` sources keeps the first and the last |
| UseIndex.Output.constructor | bin/use-index.rb:8 | both hashes start empty |
| UseIndex.Output.ReadGlobal | bin/use-index.rb:10-15 | the global loop gives `GlobalAfter` of the lines and leaves the local hash alone |
| UseIndex.Output.ReadLocal | bin/use-index.rb:17-27 | the local loop raises iff a line does; otherwise it gives `LocalAfter`, and it leaves the global hash alone |
| UseIndex.Output.ReadLocalLine | bin/use-index.rb:18-26 | one local line: skipped, stored as `LocalStep` says, or raising exactly when `LocalStep` does; the global hash is untouched |
| UseIndex.BuildIndex | bin/use-index.rb:8-27 | both loops in turn, from empty hashes |
| UseIndex.InsertLocalShape | bin/use-index.rb:24-26 | the `\|\|=` chain creates a missing category or package level and keeps every other category |
| UseIndex.LocalInsertThenGet | bin/use-index.rb:24-26 | reading an inserted key gives its description; every other key reads as before |
| UseIndex.LocalAfterFailed | bin/use-index.rb:17-22 | once a local line has raised, no later line matters |
| UseIndex.GlobalIgnoresSkipped | bin/use-index.rb:11 | blank and `#` lines contribute nothing |
| UseIndex.GlobalLastWins | bin/use-index.rb:13-14 | the description stored for a flag is the one on the last line that names it |
| UseIndex.GlobalUntouched | bin/use-index.rb:10-15 | a flag that no line names keeps its entry, or its absence |
| UseIndex.LocalStepKeepsOther | bin/use-index.rb:18-26 | a local line that does not name a category, package and flag leaves that key's entry, or its absence, alone |
| UseIndex.LocalAfterParses | bin/use-index.rb:17-27 | when the local file is read without raising, every line that is not skipped has an entry |
| UseIndex.LocalLastWins | bin/use-index.rb:17-27 | the description stored for a category, package and flag is the one on the last local line that names them |
| UseIndex.LocalUntouched | bin/use-index.rb:17-27 | a key that no local line names keeps its entry, or its absence |
| UseIndex.GlobalEntrySplit | bin/use-index.rb:13 | the flag is the text before the first `" - "` and the description everything after it; without one the description is `nil` |
| UseIndex.LocalEntryParts | bin/use-index.rb:20-22 | the key is cut at its first `:` and the atom at its first `/`; the parts join back to the key, and the description is the global split's |
| UseIndex.LocalRaisesOnBlank | bin/use-index.rb:20-22 | a local line raises exactly when it is blank after `strip` |
| UseIndex.GlobalEntryExample | bin/use-index.rb:13 | `acl - b - c` gives flag `acl` and description `b - c` |
| UseIndex.GlobalEntryNoDescription | bin/use-index.rb:13 | `acl` gives flag `acl` and a `nil` description |
| UseIndex.SkippedExamples | bin/use-index.rb:11 | comment and empty lines are skipped; a `#` after a leading blank is not |
| ProjectsXml.Lookup | bin/projects-xml.rb:39 | `projects[id]` is found iff the id is a key, and then it is that key's project |
| ProjectsXml.ParentMapOf | bin/projects-xml.rb:21-25 | a key for each parent that some project names; under it, the ids of exactly the projects with that parent, in hash order |
| ProjectsXml.BuildParentMap | bin/projects-xml.rb:21-25 | the loop builds exactly `ParentMapOf` |
| ProjectsXml.IndexStep | bin/projects-xml.rb:24 | one project appends its id under its parent, creating the entry if needed |
| ProjectsXml.ChildrenHaveParent | bin/projects-xml.rb:24 | every listed id names a project with that parent, so a project without a `parent` key is in no list |
| ProjectsXml.ParentMapIds | bin/projects-xml.rb:38-39 | every listed id is a project id, so `projects[subproject_id]` is found |
| ProjectsXml.Subprojects | bin/projects-xml.rb:37-44 | one `<subproject>` per id under the project's entry, in order, none without one; `inherit-members` iff `propagates_members` is truthy |
| ProjectsXml.SortMembers | bin/projects-xml.rb:46 | raises when the value is neither a member array nor an empty object (`{}` sorts to no members), or when two or more members include a non-string nickname; otherwise sorted by `casecmp` key and a permutation |
| ProjectsXml.MemberElement | bin/projects-xml.rb:47-54 | `is-lead` iff `is_lead` is truthy; `<role>` iff the key is present and its value is not empty; raises where the value has no `empty?` |
| ProjectsXml.MemberElements | bin/projects-xml.rb:46-55 | raises iff some member does; otherwise one element per member, in order |
| ProjectsXml.ProjectElementParts | bin/projects-xml.rb:31-56 | the project's subprojects, then its sorted members; raises iff the member sort or a member does |
| ProjectsXml.Generate | bin/projects-xml.rb:27-59 | raises iff some project's element raises; otherwise one element per project, in hash order |
| ProjectsXml.GeneratedSubprojects | bin/projects-xml.rb:37-44 | a project lists as many subprojects as it has children, and none when it is nobody's parent |
| ProjectsXml.MembersOrdered | bin/projects-xml.rb:46-55 | the members come out in `casecmp` order, none lost or added |
| ProjectsXml.AfterWrite | bin/projects-xml.rb:63-70 | `File.write` is called iff the generated text differs from the text read (a missing file reads as empty); without a write the file is unchanged, with one it holds the generated text |
| ProjectsXml.WrittenIffChanged | bin/projects-xml.rb:3 | the file is touched iff its contents change |
| ProjectsXml.WriteIdempotent | bin/projects-xml.rb:63-70 | a second run with the same text does not write and leaves the file as it was |
| ProjectsXml.EmptyOverMissing | bin/projects-xml.rb:64-70 | empty text is not written over a missing file; other text is |
| RepositoriesChecker.SplitOn | bin/repositories-checker.py:32 | `split(b'\n')` gives one more piece than there are line breaks, and no piece holds one |
| RepositoriesChecker.ErrorEnd | bin/repositories-checker.py:31-32 | an error's `endLine` is its start plus the line breaks of the stripped serialisation, so it is at least the start |
| RepositoriesChecker.WordCountZero | bin/repositories-checker.py:41 | the word count is zero iff the text is all whitespace |
| RepositoriesChecker.WarningEndAfterStart | bin/repositories-checker.py:40-41 | a warning's `endLine` is after its start |
| RepositoriesChecker.InitNameCheck | bin/repositories-checker.py:49-53 | a repo without `<name>` gets the name `''` and exactly one "Missing overlay name" error, at the repo; with one, none |
| RepositoriesChecker.InitEmailCheck | bin/repositories-checker.py:55-58 | raises iff `<owner>` is missing; one "Missing owner email" error at `<owner>` otherwise when there is no email; no email means no lookup and no report |
| RepositoriesChecker.Overlays | bin/repositories-checker.py:82-83 | one record per `<repo>`, in order |
| RepositoriesChecker.ReadTraceStops | bin/repositories-checker.py:82-83 | nothing after a record that raises is read |
| RepositoriesChecker.IndexOf | bin/repositories-checker.py:97 | `curr.index`: the first position with an equal name, or a failure when there is none |
| RepositoriesChecker.AdditionsCharacterised | bin/repositories-checker.py:107 | the additions carry exactly the current names that the base lacks, one overlay per name, each the first with its name; a list adds nothing to itself |
| RepositoriesChecker.DetailsReports | bin/repositories-checker.py:60-73 | nothing without an email; otherwise a check mark iff status 200, an error iff another status, a warning iff the request failed |
| RepositoriesChecker.MaintainerErrors | bin/repositories-checker.py:86-92 | the lookups report an error iff some addition's email gets a status other than 200 |
| RepositoriesChecker.SortStep | bin/repositories-checker.py:95-101 | at most one report per addition, and then it is the "Unsorted" error for that addition |
| RepositoriesChecker.SortedTraceStops | bin/repositories-checker.py:95-101 | nothing after a round that raises is checked |
| RepositoriesChecker.InnerAddition | bin/repositories-checker.py:98-101 | an inner addition passes iff it is strictly between its neighbours; a predecessor that is not smaller gives the error from the first test |
| RepositoriesChecker.FirstAddition | bin/repositories-checker.py:98-101 | an addition at index 0 passes iff it is less than its successor |
| RepositoriesChecker.LastAddition | bin/repositories-checker.py:100 | an addition in the last position never passes cleanly: it is reported, or `curr[index + 1]` raises |
| RepositoriesChecker.SortedTraceClean | bin/repositories-checker.py:95-101 | the order check is silent and raises nothing iff each round is |
| RepositoriesChecker.SortedTraceOnlyErrors | bin/repositories-checker.py:95-101 | the order check prints only errors |
| RepositoriesChecker.SortedTraceFails | bin/repositories-checker.py:95-101 | the order check fails as soon as one addition is last |
| RepositoriesChecker.LastIsAddition | bin/repositories-checker.py:107 | the last overlay is an addition when its name is new and first of its kind |
| RepositoriesChecker.ThenFails | bin/repositories-checker.py:104-111 | a failing step makes the run that ends with it fail |
| RepositoriesChecker.LastAdditionFails | bin/repositories-checker.py:100 | a current list whose last overlay is a new addition always ends with exit code 1, whatever the lookups answer |
| RepositoriesChecker.Checker.constructor | bin/repositories-checker.py:27 | `ok_flag` starts true with nothing printed |
| RepositoriesChecker.Checker.ReportError | bin/repositories-checker.py:30-36 | raises iff the anchor is `None`, and then nothing changes; otherwise appends the error and clears `ok_flag` |
| RepositoriesChecker.Checker.ReportWarning | bin/repositories-checker.py:39-42 | appends the warning; `ok_flag` keeps its value |
| RepositoriesChecker.Checker.InitOverlay | bin/repositories-checker.py:46-58 | builds `OverlayOf(xml)` and prints and raises as `InitTrace` says; `ok_flag` stays equivalent to "no error printed" |
| RepositoriesChecker.Checker.ReadRepositories | bin/repositories-checker.py:82-83 | builds every record in order, stopping at the first that raises |
| RepositoriesChecker.Checker.CheckDetails | bin/repositories-checker.py:60-73 | prints what `DetailsReports` says for the directory's answer |
| RepositoriesChecker.Checker.CheckMaintainers | bin/repositories-checker.py:86-92 | runs `check_details` on each addition in turn |
| RepositoriesChecker.Checker.CheckSorted | bin/repositories-checker.py:95-101 | runs each round in turn and stops at the first that raises |
| RepositoriesChecker.Checker.CheckAddition | bin/repositories-checker.py:95-101 | one round: prints what `SortStep` says for the addition and raises exactly when it does |
| RepositoriesChecker.Run | bin/repositories-checker.py:104-111 | prints what `RunTrace` says; the exit code is 0 iff nothing raised and no error was printed, and 1 otherwise |

## Left out

- Reading and writing files, parsing XML and JSON, and printing are left
  out. A document is given as a tree, and the printed annotations and
  check marks are returned as a list of reports.
- The text of the annotations is not produced: the `file=` name taken from
  the command line, and the colour codes of the check mark.
- The HTTPS session with the bug tracker is left out, along with
  `quote_plus` and the connection's lifetime. Each lookup is a function
  from the email to a `Response`, so the same email always gets the same
  answer.
- RepositoriesChecker.Run: the iteration order of the additions set is
  not specified by Python, so it is a parameter (`order`) that enumerates
  the set.
- `sourceline` is an abstract natural number on each element. Comments
  carry no line, because the checker never anchors at one.
- Xml.Serialise omits the element's tail text, attributes and escaping.
  None of them adds a line break inside the element. In the registry
  files the tail is whitespace, which `strip()` removes, so the line
  counts are unaffected.
- RepositoriesChecker.WarningEnd: the word count of the warning's range
  ignores attributes, although each attribute adds a word to lxml's
  `tostring`. The warning is anchored at `owner/email`, which has no
  attributes in the registry format.
- Xml.XmlElement.Remove / Xml.XmlElement.Append: an element's tail text
  is a separate `Text` child and does not travel with the element, while
  lxml moves the tail together with the element. In the registry files
  the tails are whitespace. The stripper's output can therefore keep a
  whitespace run that lxml drops together with a removed source. The
  formatter parses with `remove_blank_text`
  (`bin/sort_repositories.py:148`), so its repos carry no such tails.
- The ElementTree fallback import of the stripper is left out; the model
  follows lxml.
- StripInsecure.StripInsecure: the document is modelled as a value. The
  root's child list is returned with each repo carrying its new children,
  instead of the repos being changed inside a shared tree.
- Strings.AsciiLower: `str.lower()` and `casecmp` fold only `A`-`Z`.
  Python's Unicode lowercasing of other letters is not modelled.
- `Strings.IsRubySpace`: Ruby's `strip` is taken to drop NUL together with
  ASCII whitespace at both ends.
- StableSort.SortBy stands for Python's `list.sort`. Only the result is
  modelled, not the in-place steps.
- ProjectsXml.SortMembers: Ruby's `sort` is not stable. The model sorts
  stably, so its contract promises only the order by key and the
  permutation, not the order of ties.
- ProjectsXml.SortMembers: a `casecmp` between two string nicknames never
  fails. A non-string nickname is taken to raise whenever there are at
  least two members.
- JSON values are kept only as far as the generator inspects them: arrays
  and objects only by their size. The Nokogiri builder's text, the DOCTYPE
  and the fetch of projects.json are left out. `ProjectsXml.Generate`
  returns the shaped elements.
- ProjectsXml.AfterWrite: the generated text is an input. A read error
  other than a missing file is left out.
- UseIndex.Output.ReadGlobal and UseIndex.Output.ReadLocal take lines as
  `File.readlines` returns them: each line has at most one line break, at
  its end. The line-anchored regular expression is modelled for such
  lines only. The JSON printing of the hash, and its key order, are left
  out.
- `bin/update-wiki-table.py` and `bin/repositorycheck.py` are not part of
  this model.
