/**
 * The overlay checker: reads the `<repo>` entries of a base and a current
 * registry, takes the overlays that the current one adds (by name), asks
 * the bug tracker's user directory about each addition's owner email,
 * checks that each addition sits in order between its neighbours in the
 * current list, and exits with 1 when an error was reported or an
 * exception escaped.
 *
 * Printing becomes a list of reports; the HTTP lookup becomes a function
 * from email to `Response`; an exception that escapes becomes `raised`
 * (the interpreter prints a traceback and exits with 1).
 */
module RepositoriesChecker {
  import opened Wrappers
  import opened Strings
  import opened Seqs
  import opened Xml

  /** One line the script prints: a GitHub `::error` or `::warning`
      annotation with the element it points at, its title and message (the
      line range is computed from the element, see `Lines`), or the green
      check mark for an email the directory knows. */
  datatype Report =
    | Error(anchor: Node, what: Diagnostic)
    | Warning(anchor: Node, what: Diagnostic)
    | Verified(name: string, email: string)

  /** What an annotation reports; `Title` and `Message` give its text. */
  datatype Diagnostic =
    | MissingName
    | MissingEmail
    | UnknownEmail(email: string)
    | LookupFailed(email: string)
    | Unsorted(name: Option<string>)

  function Title(d: Diagnostic): string {
    match d
    case MissingName => "Missing overlay name"
    case MissingEmail => "Missing owner email"
    case UnknownEmail(_) => "Unknown email"
    case LookupFailed(_) => "Failed check against bugzilla"
    case Unsorted(_) => "Unsorted overlay list"
  }

  function Message(d: Diagnostic): string {
    match d
    case MissingName => "Missing tag \"name\" for the overlay"
    case MissingEmail => "Missing tag \"email\" for the overlay's owner"
    case UnknownEmail(email) => "email address \"" + email + "\" not found at bugzilla"
    case LookupFailed(email) => "Checking for bugzilla email [" + email + "] failed"
    case Unsorted(name) => "overlay \"" + PyStr(name) + "\" in wrong place"
  }

  /** The directory's answer: an HTTP status, or an exception raised while
      sending the request or reading the answer. */
  datatype Response = Status(code: int) | Failure

  /** What a step printed, and whether an exception escaped it. */
  datatype Trace = Trace(reports: seq<Report>, raised: bool)

  /** Runs `next` after `first`, unless `first` raised. */
  function Then(first: Trace, next: Trace): Trace {
    if first.raised then first else Trace(first.reports + next.reports, next.raised)
  }

  predicate NoErrors(reports: seq<Report>) {
    forall r :: r in reports ==> !r.Error?
  }

  /** The number of errors reporting `d`. */
  function CountErrors(reports: seq<Report>, d: Diagnostic): nat {
    if reports == [] then 0
    else (if reports[0].Error? && reports[0].what == d then 1 else 0) + CountErrors(reports[1..], d)
  }

  lemma {:induction false} CountErrorsConcat(a: seq<Report>, b: seq<Report>, d: Diagnostic)
    ensures CountErrors(a + b, d) == CountErrors(a, d) + CountErrors(b, d)
  {
    if a == [] {
      assert a + b == b;
    } else {
      assert (a + b)[0] == a[0];
      assert (a + b)[1..] == a[1..] + b;
      CountErrorsConcat(a[1..], b, d);
    }
  }

  /** How an f-string shows an optional name: `None` prints as `None`. */
  function PyStr(s: Option<string>): string {
    if s.None? then "None" else s.value
  }

  // ---------------------------------------------------------------------
  // Line ranges of the annotations
  // ---------------------------------------------------------------------

  function Occurrences(s: string, c: char): nat {
    if s == [] then 0 else (if s[0] == c then 1 else 0) + Occurrences(s[1..], c)
  }

  /** `s.split(c)` for a one-character separator: the pieces between the
      separators, one more than there are separators. */
  function SplitOn(s: string, c: char): (r: seq<string>)
    ensures |r| == Occurrences(s, c) + 1
    ensures forall k :: 0 <= k < |r| ==> c !in r[k]
  {
    if s == [] then [""]
    else
      var rest := SplitOn(s[1..], c);
      if s[0] == c then [""] + rest
      else [[s[0]] + rest[0]] + rest[1..]
  }

  /** `len(s.split())`: the number of maximal runs of non-whitespace,
      counted at the character that ends each run. */
  function WordCount(s: string): nat {
    if s == [] then 0
    else if !IsPySpace(s[0]) && (|s| == 1 || IsPySpace(s[1])) then 1 + WordCount(s[1..])
    else WordCount(s[1..])
  }

  lemma {:induction false} WordCountZero(s: string)
    ensures WordCount(s) == 0 <==> forall k :: 0 <= k < |s| ==> IsPySpace(s[k])
  {
    if s != [] {
      WordCountZero(s[1..]);
      if !IsPySpace(s[0]) && |s| > 1 && !IsPySpace(s[1]) {
        assert !IsPySpace(s[1..][0]);
      }
      if forall k :: 0 <= k < |s| - 1 ==> IsPySpace(s[1..][k]) {
        assert forall k :: 1 <= k < |s| ==> IsPySpace(s[k]) by {
          forall k | 1 <= k < |s| ensures IsPySpace(s[k]) {
            assert s[k] == s[1..][k - 1];
          }
        }
      }
    }
  }

  /** The last line of an error: the start line plus the number of line
      breaks in the stripped serialisation of the anchor. */
  function ErrorEnd(xml: Node): (r: nat)
    requires xml.Element?
    ensures r >= xml.line
    ensures r == xml.line + Occurrences(Strip(Serialise(xml), IsPySpace), '\n')
  {
    xml.line + |SplitOn(Strip(Serialise(xml), IsPySpace), '\n')| - 1
  }

  /** The last line of a warning: the start line plus the number of
      whitespace-separated words in the serialisation. */
  function WarningEnd(xml: Node): nat
    requires xml.Element?
  {
    xml.line + WordCount(Strip(Serialise(xml), IsPySpace))
  }

  /** An element serialises to at least one word, so a warning anchored at
      one always ends after the line it starts on. */
  lemma WarningEndAfterStart(xml: Node)
    requires xml.Element?
    ensures WarningEnd(xml) > xml.line
  {
    var s := Serialise(xml);
    assert s != [] && s[0] == '<' && s[|s| - 1] == '>';
    StripKeeps(s);
    WordCountZero(s);
  }

  /** A string that starts and ends with a non-space is its own strip. */
  lemma StripKeeps(s: string)
    requires s != [] && !IsPySpace(s[0]) && !IsPySpace(s[|s| - 1])
    ensures Strip(s, IsPySpace) == s
  {
    var front := TrimStart(s, IsPySpace);
    assert front == s;
    var stripped := TrimEnd(front, IsPySpace);
    assert stripped == s;
  }

  /** The `line=` and `endLine=` of an annotation. */
  function Lines(r: Report): (nat, nat)
    requires !r.Verified? && r.anchor.Element?
  {
    if r.Error? then (r.anchor.line, ErrorEnd(r.anchor)) else (r.anchor.line, WarningEnd(r.anchor))
  }

  // ---------------------------------------------------------------------
  // Overlay records
  // ---------------------------------------------------------------------

  /** An `Overlay` once `__init__` is done: the `<repo>` node, `repo_name`
      (`None` when `<name>` has no text, `""` when there is no `<name>`) and
      the `owner/email` element, if any; `owner_email` is that element's
      text and is left unset when there is no such element. Two overlays
      are equal, and hash alike, exactly when their names are equal. */
  datatype Overlay = Overlay(xml: Node, repoName: Option<string>, emailNode: Option<Node>)

  /** `getattr(self, 'owner_email', None)`: unset and `None` read alike. */
  function OwnerEmail(o: Overlay): Option<string> {
    if o.emailNode.Some? then TextOf(o.emailNode.value) else None
  }

  /** The record `Overlay(xml)` builds. */
  function OverlayOf(xml: Node): Overlay {
    var name := Find(xml, "name");
    Overlay(xml, if name.Some? then TextOf(name.value) else Some(""), FindPath(xml, "owner", "email"))
  }

  /** What `Overlay(xml)` prints, and whether it raises: the error for a
      missing `<owner>/<email>` is anchored at `<owner>`, and with no
      `<owner>` the reporter is handed `None` and fails reading its line. */
  function InitTrace(xml: Node): Trace {
    var nameReports :=
      if Find(xml, "name").None? then [Error(xml, MissingName)] else [];
    var owner := Find(xml, "owner");
    if FindPath(xml, "owner", "email").Some? then Trace(nameReports, false)
    else if owner.None? then Trace(nameReports, true)
    else Trace(nameReports + [Error(owner.value, MissingEmail)], false)
  }

  /** A `<repo>` without `<name>` gets the name `""` and exactly one
      "Missing overlay name" error, anchored at the repo; with a `<name>`
      there is none. */
  lemma InitNameCheck(xml: Node)
    ensures CountErrors(InitTrace(xml).reports, MissingName) == (if Find(xml, "name").None? then 1 else 0)
    ensures Find(xml, "name").None? ==>
      OverlayOf(xml).repoName == Some("")
      && InitTrace(xml).reports[0] == Error(xml, MissingName)
  {
    var nameReports :=
      if Find(xml, "name").None? then [Error(xml, MissingName)] else [];
    var owner := Find(xml, "owner");
    if FindPath(xml, "owner", "email").None? && owner.Some? {
      var emailReport := Error(owner.value, MissingEmail);
      CountErrorsConcat(nameReports, [emailReport], MissingName);
    }
  }

  /** A missing `owner/email`: with an `<owner>` there is one "Missing owner
      email" error, anchored at it, and the later lookup does nothing;
      without an `<owner>` the record is never built. */
  lemma InitEmailCheck(xml: Node)
    ensures InitTrace(xml).raised <==> Find(xml, "owner").None?
    ensures CountErrors(InitTrace(xml).reports, MissingEmail) ==
      (if FindPath(xml, "owner", "email").None? && Find(xml, "owner").Some? then 1 else 0)
    ensures FindPath(xml, "owner", "email").None? && Find(xml, "owner").Some? ==>
      var reports := InitTrace(xml).reports;
      reports[|reports| - 1] == Error(Find(xml, "owner").value, MissingEmail)
    ensures FindPath(xml, "owner", "email").None? ==> forall resp :: DetailsReports(OverlayOf(xml), resp) == []
  {
    FindPathNeedsOuter(xml, "owner", "email");
    var nameReports :=
      if Find(xml, "name").None? then [Error(xml, MissingName)] else [];
    var owner := Find(xml, "owner");
    assert CountErrors(nameReports, MissingEmail) == 0;
    if FindPath(xml, "owner", "email").None? && owner.Some? {
      var emailReport := Error(owner.value, MissingEmail);
      CountErrorsConcat(nameReports, [emailReport], MissingEmail);
    }
  }

  /** The overlays `read_repositories` builds, one per `<repo>`. */
  function Overlays(repos: seq<Node>): (r: seq<Overlay>)
    ensures |r| == |repos|
    ensures forall k :: 0 <= k < |repos| ==> r[k] == OverlayOf(repos[k])
  {
    seq(|repos|, k requires 0 <= k < |repos| => OverlayOf(repos[k]))
  }

  lemma OverlaysSnoc(repos: seq<Node>, i: nat)
    requires i < |repos|
    ensures Overlays(repos[..i + 1]) == Overlays(repos[..i]) + [OverlayOf(repos[i])]
  {
    var next := Overlays(repos[..i]) + [OverlayOf(repos[i])];
    assert forall k :: 0 <= k < i + 1 ==> Overlays(repos[..i + 1])[k] == next[k];
  }

  /** What building every record of one file prints, up to the first one
      that raises. */
  function ReadTrace(repos: seq<Node>): Trace {
    if repos == [] then Trace([], false)
    else Then(ReadTrace(repos[..|repos| - 1]), InitTrace(repos[|repos| - 1]))
  }

  lemma ReadTraceSnoc(repos: seq<Node>, i: nat)
    requires i < |repos|
    ensures ReadTrace(repos[..i + 1]) == Then(ReadTrace(repos[..i]), InitTrace(repos[i]))
  {
    assert repos[..i + 1][..i] == repos[..i];
  }

  lemma ThenAppend(before: seq<Report>, first: Trace, next: Trace)
    requires !first.raised
    ensures before + Then(first, next).reports == before + first.reports + next.reports
    ensures Then(first, next).raised == next.raised
  {
  }

  /** Nothing after a record that raises is read. */
  lemma {:induction false} ReadTraceStops(repos: seq<Node>, n: nat)
    requires n <= |repos| && ReadTrace(repos[..n]).raised
    ensures ReadTrace(repos) == ReadTrace(repos[..n])
  {
    if n == |repos| {
      assert repos[..n] == repos;
    } else {
      var front := repos[..|repos| - 1];
      assert front[..n] == repos[..n];
      ReadTraceStops(front, n);
    }
  }

  // ---------------------------------------------------------------------
  // Additions
  // ---------------------------------------------------------------------

  function Names(overlays: seq<Overlay>): set<Option<string>> {
    set o | o in overlays :: o.repoName
  }

  /** `curr.index(o)`: the first position holding an overlay equal to `o`,
      that is, with the same name; `None` where `index` raises. */
  function IndexOf(curr: seq<Overlay>, name: Option<string>): (r: Option<nat>)
    ensures r.Some? ==> r.value < |curr| && curr[r.value].repoName == name
    ensures r.Some? ==> forall j :: 0 <= j < r.value ==> curr[j].repoName != name
    ensures r.None? <==> forall j :: 0 <= j < |curr| ==> curr[j].repoName != name
  {
    if curr == [] then None
    else if curr[0].repoName == name then Some(0)
    else match IndexOf(curr[1..], name)
      case None => None
      case Some(i) => Some(i + 1)
  }

  /** `frozenset(current).difference(base)`: for each name that no base
      overlay has, the first current overlay with it (a set keeps the
      element it already holds when an equal one is added). */
  function Additions(curr: seq<Overlay>, base: seq<Overlay>): set<Overlay> {
    set k | 0 <= k < |curr| && IndexOf(curr, curr[k].repoName) == Some(k) && curr[k].repoName !in Names(base) :: curr[k]
  }

  /** The additions carry exactly the names of the current list that the
      base list lacks, one overlay per name, each the first current overlay
      with its name; a list adds nothing to itself. */
  lemma AdditionsCharacterised(curr: seq<Overlay>, base: seq<Overlay>)
    ensures (set a | a in Additions(curr, base) :: a.repoName) == Names(curr) - Names(base)
    ensures forall a, b :: a in Additions(curr, base) && b in Additions(curr, base) && a.repoName == b.repoName ==> a == b
    ensures forall a :: a in Additions(curr, base) ==>
      IndexOf(curr, a.repoName).Some? && curr[IndexOf(curr, a.repoName).value] == a
    ensures Additions(curr, curr) == {}
  {
    var adds := Additions(curr, base);
    forall name | name in Names(curr) - Names(base)
      ensures name in (set a | a in adds :: a.repoName)
    {
      var j :| 0 <= j < |curr| && curr[j].repoName == name;
      var k := IndexOf(curr, name).value;
      assert curr[k] in adds;
    }
    forall a | a in adds ensures a.repoName in Names(curr) - Names(base) {
      var k :| 0 <= k < |curr| && IndexOf(curr, curr[k].repoName) == Some(k) && curr[k].repoName !in Names(base) && curr[k] == a;
      assert curr[k] in curr;
    }
    forall k | 0 <= k < |curr| ensures curr[k].repoName in Names(curr) {
      assert curr[k] in curr;
    }
  }

  // ---------------------------------------------------------------------
  // The owner lookup
  // ---------------------------------------------------------------------

  /** Whether `check_details` asks the directory at all. */
  predicate LooksUp(o: Overlay) {
    OwnerEmail(o).Some? && OwnerEmail(o).value != ""
  }

  /** What `check_details` prints for the directory's answer `resp`: the
      check mark for status 200, an "Unknown email" error for any other
      status and a warning when the request failed; nothing at all when
      there is no email to ask about. */
  function DetailsReports(o: Overlay, resp: Response): (r: seq<Report>)
    ensures !LooksUp(o) ==> r == []
    ensures LooksUp(o) ==> |r| == 1
    ensures LooksUp(o) ==> (r[0].Verified? <==> resp == Status(200))
    ensures LooksUp(o) ==> (r[0].Error? <==> resp.Status? && resp.code != 200)
    ensures LooksUp(o) ==> (r[0].Warning? <==> resp.Failure?)
    ensures NoErrors(r) <==> !(LooksUp(o) && resp.Status? && resp.code != 200)
  {
    var email := OwnerEmail(o);
    if email.None? || email.value == "" then []
    else match resp
      case Status(code) =>
        if code != 200 then
          [Error(o.emailNode.value, UnknownEmail(email.value))]
        else [Verified(PyStr(o.repoName), email.value)]
      case Failure =>
        [Warning(o.emailNode.value, LookupFailed(email.value))]
  }

  /** The answer the directory gives for the overlay's email. */
  function Answer(o: Overlay, lookup: string -> Response): Response {
    lookup(OwnerEmail(o).GetOr(""))
  }

  /** What `check_maintainers` prints, additions taken in `order`. */
  function MaintainerReports(order: seq<Overlay>, lookup: string -> Response): seq<Report> {
    if order == [] then []
    else
      var last := order[|order| - 1];
      MaintainerReports(order[..|order| - 1], lookup) + DetailsReports(last, Answer(last, lookup))
  }

  /** The lookups report an error exactly when some addition has an email
      that the directory answers with a status other than 200. */
  lemma {:induction false} MaintainerErrors(order: seq<Overlay>, lookup: string -> Response)
    ensures NoErrors(MaintainerReports(order, lookup)) <==>
      forall k :: 0 <= k < |order| ==> !(LooksUp(order[k]) && Answer(order[k], lookup).Status? && Answer(order[k], lookup).code != 200)
  {
    if order != [] {
      var front := order[..|order| - 1];
      var last := order[|order| - 1];
      MaintainerErrors(front, lookup);
      var r := DetailsReports(last, Answer(last, lookup));
      assert NoErrors(MaintainerReports(front, lookup) + r) <==> NoErrors(MaintainerReports(front, lookup)) && NoErrors(r);
      assert forall k :: 0 <= k < |front| ==> front[k] == order[k];
    }
  }

  // ---------------------------------------------------------------------
  // The order check
  // ---------------------------------------------------------------------

  function UnsortedError(a: Overlay): Report {
    Error(a.xml, Unsorted(a.repoName))
  }

  /** One round of `check_sorted`'s loop. Python's `>=` and `<=` on `str`
      are the code-point order, with no case folding; comparing with `None`
      raises TypeError, and the successor is read even for the last
      position, where `curr[index + 1]` raises IndexError. */
  function SortStep(curr: seq<Overlay>, a: Overlay): (r: Trace)
    ensures |r.reports| <= 1
    ensures r.reports != [] ==> r.reports == [UnsortedError(a)] && !r.raised
  {
    match IndexOf(curr, a.repoName)
    case None => Trace([], true)
    case Some(i) =>
      if i > 0 && (curr[i - 1].repoName.None? || a.repoName.None?) then Trace([], true)
      else if i > 0 && LexLe(a.repoName.value, curr[i - 1].repoName.value) then Trace([UnsortedError(a)], false)
      else if i + 1 >= |curr| then Trace([], true)
      else if curr[i + 1].repoName.None? || a.repoName.None? then Trace([], true)
      else if LexLe(curr[i + 1].repoName.value, a.repoName.value) then Trace([UnsortedError(a)], false)
      else Trace([], false)
  }

  /** What `check_sorted` prints, additions taken in `order`. */
  function SortedTrace(curr: seq<Overlay>, order: seq<Overlay>): Trace {
    if order == [] then Trace([], false)
    else Then(SortedTrace(curr, order[..|order| - 1]), SortStep(curr, order[|order| - 1]))
  }

  /** Nothing after a round that raises is checked. */
  lemma {:induction false} SortedTraceStops(curr: seq<Overlay>, order: seq<Overlay>, n: nat)
    requires n <= |order| && SortedTrace(curr, order[..n]).raised
    ensures SortedTrace(curr, order) == SortedTrace(curr, order[..n])
  {
    if n == |order| {
      assert order[..n] == order;
    } else {
      var front := order[..|order| - 1];
      assert front[..n] == order[..n];
      SortedTraceStops(curr, front, n);
    }
  }

  /** An addition strictly inside the list passes exactly when it is
      strictly greater than its predecessor and strictly less than its
      successor; when the predecessor is not smaller, the error comes from
      the first test and the second is not made. */
  lemma InnerAddition(curr: seq<Overlay>, a: Overlay, i: nat)
    requires IndexOf(curr, a.repoName) == Some(i) && 0 < i < |curr| - 1
    requires a.repoName.Some? && curr[i - 1].repoName.Some? && curr[i + 1].repoName.Some?
    ensures !SortStep(curr, a).raised
    ensures SortStep(curr, a).reports == [] <==>
      LexLt(curr[i - 1].repoName.value, a.repoName.value) && LexLt(a.repoName.value, curr[i + 1].repoName.value)
    ensures LexLe(a.repoName.value, curr[i - 1].repoName.value) ==> SortStep(curr, a).reports == [UnsortedError(a)]
  {
    var name, before, after := a.repoName.value, curr[i - 1].repoName.value, curr[i + 1].repoName.value;
    if !LexLe(name, before) {
      LexNotLe(name, before);
    }
    if !LexLe(after, name) {
      LexNotLe(after, name);
    }
    if LexLt(before, name) && LexLe(name, before) {
      LexLeAntisymmetric(before, name);
    }
    if LexLt(name, after) && LexLe(after, name) {
      LexLeAntisymmetric(name, after);
    }
  }

  /** The first overlay is only compared with its successor. */
  lemma FirstAddition(curr: seq<Overlay>, a: Overlay)
    requires IndexOf(curr, a.repoName) == Some(0) && |curr| > 1
    requires a.repoName.Some? && curr[1].repoName.Some?
    ensures !SortStep(curr, a).raised
    ensures SortStep(curr, a).reports == [] <==> LexLt(a.repoName.value, curr[1].repoName.value)
  {
    var name, after := a.repoName.value, curr[1].repoName.value;
    if !LexLe(after, name) {
      LexNotLe(after, name);
    }
    if LexLt(name, after) && LexLe(after, name) {
      LexLeAntisymmetric(name, after);
    }
  }

  /** An addition in the last position never passes: either its
      predecessor check reports it, or the successor check reads past the
      end and raises. */
  lemma LastAddition(curr: seq<Overlay>, a: Overlay)
    requires IndexOf(curr, a.repoName) == Some(|curr| - 1)
    ensures SortStep(curr, a) != Trace([], false)
    ensures SortStep(curr, a).reports == [] ==> SortStep(curr, a).raised
  {
  }

  /** The order check is silent and raises nothing exactly when each of
      its rounds is. */
  lemma {:induction false} SortedTraceClean(curr: seq<Overlay>, order: seq<Overlay>)
    ensures SortedTrace(curr, order) == Trace([], false) <==>
      forall k :: 0 <= k < |order| ==> SortStep(curr, order[k]) == Trace([], false)
  {
    if order != [] {
      var front := order[..|order| - 1];
      SortedTraceClean(curr, front);
      assert forall k :: 0 <= k < |front| ==> front[k] == order[k];
    }
  }

  // ---------------------------------------------------------------------
  // The script
  // ---------------------------------------------------------------------

  /** The whole run: both files are read, then the lookups, then the order
      check, each only if nothing before it raised. */
  function RunTrace(baseRepos: seq<Node>, currRepos: seq<Node>, order: seq<Overlay>, lookup: string -> Response): Trace {
    var read := Then(ReadTrace(baseRepos), ReadTrace(currRepos));
    Then(Then(read, Trace(MaintainerReports(order, lookup), false)), SortedTrace(Overlays(currRepos), order))
  }

  /** The printed annotations and the module-level `ok_flag`, which is
      false exactly when an error has been printed. */
  class Checker {
    var ok: bool
    var out: seq<Report>

    ghost predicate Valid()
      reads this
    {
      ok <==> NoErrors(out)
    }

    constructor ()
      ensures Valid() && ok && out == []
    {
      ok := true;
      out := [];
    }

    /** `output_xml_error`: reads the anchor's line, which raises for a
        `None` anchor, prints the error and clears the flag. */
    method ReportError(xml: Option<Node>, what: Diagnostic) returns (raised: bool)
      requires Valid()
      modifies this
      ensures Valid()
      ensures raised <==> xml.None?
      ensures raised ==> out == old(out) && ok == old(ok)
      ensures !raised ==> out == old(out) + [Error(xml.value, what)] && !ok
    {
      if xml.None? {
        return true;
      }
      out := out + [Error(xml.value, what)];
      assert out[|out| - 1].Error?;
      ok := false;
      raised := false;
    }

    /** `output_xml_warning`: prints the warning; the flag stays. */
    method ReportWarning(xml: Node, what: Diagnostic)
      requires Valid()
      modifies this
      ensures Valid()
      ensures out == old(out) + [Warning(xml, what)] && ok == old(ok)
    {
      out := out + [Warning(xml, what)];
    }

    /** `Overlay.__init__`. */
    method InitOverlay(xml: Node) returns (o: Overlay, raised: bool)
      requires Valid()
      modifies this
      ensures Valid()
      ensures o == OverlayOf(xml)
      ensures raised == InitTrace(xml).raised
      ensures out == old(out) + InitTrace(xml).reports
    {
      var repoName: Option<string>;
      var name := Find(xml, "name");
      if name.Some? {
        repoName := TextOf(name.value);
      } else {
        repoName := Some("");
        var _ := ReportError(Some(xml), MissingName);
      }
      var email := FindPath(xml, "owner", "email");
      raised := false;
      if email.None? {
        raised := ReportError(Find(xml, "owner"), MissingEmail);
      }
      o := Overlay(xml, repoName, email);
    }

    /** `read_repositories`: one record per `<repo>` child of the root
        (`findall('./repo')`, in document order); stops where a record
        raises. */
    method ReadRepositories(repos: seq<Node>) returns (overlays: seq<Overlay>, raised: bool)
      requires Valid()
      modifies this
      ensures Valid()
      ensures raised == ReadTrace(repos).raised
      ensures out == old(out) + ReadTrace(repos).reports
      ensures !raised ==> overlays == Overlays(repos)
    {
      overlays := [];
      var i := 0;
      while i < |repos|
        invariant 0 <= i <= |repos|
        invariant Valid()
        invariant !ReadTrace(repos[..i]).raised
        invariant out == old(out) + ReadTrace(repos[..i]).reports
        invariant overlays == Overlays(repos[..i])
      {
        OverlaysSnoc(repos, i);
        ReadTraceSnoc(repos, i);
        ghost var step := InitTrace(repos[i]);
        ThenAppend(old(out), ReadTrace(repos[..i]), step);
        var o;
        o, raised := InitOverlay(repos[i]);
        if raised {
          ReadTraceStops(repos, i + 1);
          return;
        }
        overlays := overlays + [o];
        i := i + 1;
      }
      assert repos[..i] == repos;
      raised := false;
    }

    /** `check_details` with the directory's answer taken from `lookup`. */
    method CheckDetails(o: Overlay, lookup: string -> Response)
      requires Valid()
      modifies this
      ensures Valid()
      ensures out == old(out) + DetailsReports(o, Answer(o, lookup))
    {
      var email := OwnerEmail(o);
      if email.None? || email.value == "" {
        return;
      }
      var resp := lookup(email.value);
      match resp
      case Status(code) =>
        if code != 200 {
          var _ := ReportError(o.emailNode, UnknownEmail(email.value));
        } else {
          out := out + [Verified(PyStr(o.repoName), email.value)];
        }
      case Failure =>
        ReportWarning(o.emailNode.value, LookupFailed(email.value));
    }

    /** `check_maintainers`, the additions taken in `order`. */
    method CheckMaintainers(order: seq<Overlay>, lookup: string -> Response)
      requires Valid()
      modifies this
      ensures Valid()
      ensures out == old(out) + MaintainerReports(order, lookup)
    {
      var k := 0;
      while k < |order|
        invariant 0 <= k <= |order|
        invariant Valid()
        invariant out == old(out) + MaintainerReports(order[..k], lookup)
      {
        assert order[..k + 1][..k] == order[..k];
        assert MaintainerReports(order[..k + 1], lookup)
            == MaintainerReports(order[..k], lookup) + DetailsReports(order[k], Answer(order[k], lookup));
        CheckDetails(order[k], lookup);
        k := k + 1;
      }
      assert order[..k] == order;
    }

    /** `check_sorted`, the additions taken in `order`. */
    method CheckSorted(curr: seq<Overlay>, order: seq<Overlay>) returns (raised: bool)
      requires Valid()
      modifies this
      ensures Valid()
      ensures raised == SortedTrace(curr, order).raised
      ensures out == old(out) + SortedTrace(curr, order).reports
    {
      var k := 0;
      while k < |order|
        invariant 0 <= k <= |order|
        invariant Valid()
        invariant !SortedTrace(curr, order[..k]).raised
        invariant out == old(out) + SortedTrace(curr, order[..k]).reports
      {
        assert order[..k + 1][..k] == order[..k];
        assert SortedTrace(curr, order[..k + 1]) == Then(SortedTrace(curr, order[..k]), SortStep(curr, order[k]));
        ThenAppend(old(out), SortedTrace(curr, order[..k]), SortStep(curr, order[k]));
        var stepRaised := CheckAddition(curr, order[k]);
        if stepRaised {
          SortedTraceStops(curr, order, k + 1);
          return true;
        }
        k := k + 1;
      }
      assert order[..k] == order;
      raised := false;
    }

    /** One turn of the loop of `check_sorted`: find the addition in the
        current list and compare it with its neighbours. */
    method CheckAddition(curr: seq<Overlay>, addition: Overlay) returns (raised: bool)
      requires Valid()
      modifies this
      ensures Valid()
      ensures raised == SortStep(curr, addition).raised
      ensures out == old(out) + SortStep(curr, addition).reports
    {
      var index := IndexOf(curr, addition.repoName);
      if index.None? {
        return true;
      }
      var i := index.value;
      var name := addition.repoName;
      if i > 0 && (curr[i - 1].repoName.None? || name.None?) {
        return true;
      }
      if i > 0 && LexLe(name.value, curr[i - 1].repoName.value) {
        var _ := ReportError(Some(addition.xml), Unsorted(name));
      } else {
        if i + 1 >= |curr| || curr[i + 1].repoName.None? || name.None? {
          return true;
        }
        if LexLe(curr[i + 1].repoName.value, name.value) {
          var _ := ReportError(Some(addition.xml), Unsorted(name));
        }
      }
      raised := false;
    }
  }

  /** The script: read both files, look up the additions' owners and check
      the additions' places, then exit with `int(not ok_flag)`, or with 1
      when an exception escaped. `order` is the iteration order of the
      additions set, which Python leaves unspecified. */
  method Run(baseRoot: Node, currRoot: Node, order: seq<Overlay>, lookup: string -> Response)
    returns (exitCode: int, reports: seq<Report>)
    requires Distinct(order)
    requires Elems(order) == Additions(Overlays(FindAll(currRoot, "repo")), Overlays(FindAll(baseRoot, "repo")))
    ensures reports == RunTrace(FindAll(baseRoot, "repo"), FindAll(currRoot, "repo"), order, lookup).reports
    ensures exitCode == 0 || exitCode == 1
    ensures exitCode == 0 <==>
      !RunTrace(FindAll(baseRoot, "repo"), FindAll(currRoot, "repo"), order, lookup).raised && NoErrors(reports)
  {
    var baseRepos, currRepos := FindAll(baseRoot, "repo"), FindAll(currRoot, "repo");
    ghost var read := Then(ReadTrace(baseRepos), ReadTrace(currRepos));
    ghost var looked := Then(read, Trace(MaintainerReports(order, lookup), false));
    ghost var run := Then(looked, SortedTrace(Overlays(currRepos), order));
    assert run == RunTrace(baseRepos, currRepos, order, lookup);
    var checker := new Checker();
    var base, raised := checker.ReadRepositories(baseRepos);
    if raised {
      return 1, checker.out;
    }
    var current;
    current, raised := checker.ReadRepositories(currRepos);
    ThenAppend([], ReadTrace(baseRepos), ReadTrace(currRepos));
    assert checker.out == read.reports;
    if raised {
      return 1, checker.out;
    }
    checker.CheckMaintainers(order, lookup);
    assert checker.out == looked.reports;
    raised := checker.CheckSorted(current, order);
    assert checker.out == run.reports && raised == run.raised;
    exitCode := if raised || !checker.ok then 1 else 0;
    reports := checker.out;
  }

  /** A current list whose last overlay has a name found nowhere before it
      and nowhere in the base always fails, whatever the directory answers:
      the order check reports it or raises. */
  lemma LastAdditionFails(baseRepos: seq<Node>, currRepos: seq<Node>, order: seq<Overlay>, lookup: string -> Response)
    requires Elems(order) == Additions(Overlays(currRepos), Overlays(baseRepos))
    requires var curr := Overlays(currRepos);
      curr != [] && IndexOf(curr, curr[|curr| - 1].repoName) == Some(|curr| - 1)
      && curr[|curr| - 1].repoName !in Names(Overlays(baseRepos))
    ensures RunTrace(baseRepos, currRepos, order, lookup).raised || !NoErrors(RunTrace(baseRepos, currRepos, order, lookup).reports)
  {
    LastAdditionFailsOrderCheck(Overlays(currRepos), Overlays(baseRepos), order);
    RunFailsWithOrderCheck(baseRepos, currRepos, order, lookup);
  }

  /** `LastAdditionFails` for the order check alone. */
  lemma LastAdditionFailsOrderCheck(curr: seq<Overlay>, base: seq<Overlay>, order: seq<Overlay>)
    requires Elems(order) == Additions(curr, base)
    requires curr != [] && IndexOf(curr, curr[|curr| - 1].repoName) == Some(|curr| - 1)
    requires curr[|curr| - 1].repoName !in Names(base)
    ensures SortedTrace(curr, order).raised || !NoErrors(SortedTrace(curr, order).reports)
  {
    var a := curr[|curr| - 1];
    LastIsAddition(curr, base);
    assert a in order by {
      assert a in Elems(order);
    }
    SortedTraceFails(curr, order, a);
  }

  lemma RunFailsWithOrderCheck(baseRepos: seq<Node>, currRepos: seq<Node>, order: seq<Overlay>, lookup: string -> Response)
    requires SortedTrace(Overlays(currRepos), order).raised || !NoErrors(SortedTrace(Overlays(currRepos), order).reports)
    ensures RunTrace(baseRepos, currRepos, order, lookup).raised || !NoErrors(RunTrace(baseRepos, currRepos, order, lookup).reports)
  {
    var looked := Then(Then(ReadTrace(baseRepos), ReadTrace(currRepos)), Trace(MaintainerReports(order, lookup), false));
    ThenFails(looked, SortedTrace(Overlays(currRepos), order));
  }

  lemma LastIsAddition(curr: seq<Overlay>, base: seq<Overlay>)
    requires curr != [] && IndexOf(curr, curr[|curr| - 1].repoName) == Some(|curr| - 1)
    requires curr[|curr| - 1].repoName !in Names(base)
    ensures curr[|curr| - 1] in Additions(curr, base)
  {
  }

  /** A step that fails makes every run ending with it fail. */
  lemma ThenFails(first: Trace, next: Trace)
    requires next.raised || !NoErrors(next.reports)
    ensures Then(first, next).raised || !NoErrors(Then(first, next).reports)
  {
    if !first.raised && !next.raised {
      var r :| r in next.reports && r.Error?;
      assert r in first.reports + next.reports;
    }
  }

  /** The order check fails as soon as one of the additions is last. */
  lemma SortedTraceFails(curr: seq<Overlay>, order: seq<Overlay>, a: Overlay)
    requires a in order && curr != [] && IndexOf(curr, a.repoName) == Some(|curr| - 1)
    ensures SortedTrace(curr, order).raised || !NoErrors(SortedTrace(curr, order).reports)
  {
    var k :| 0 <= k < |order| && order[k] == a;
    LastAddition(curr, a);
    SortedTraceClean(curr, order);
    SortedTraceOnlyErrors(curr, order);
    var sorted := SortedTrace(curr, order);
    if !sorted.raised {
      assert sorted.reports != [];
      assert sorted.reports[0] in sorted.reports;
    }
  }

  /** The order check prints nothing but errors. */
  lemma {:induction false} SortedTraceOnlyErrors(curr: seq<Overlay>, order: seq<Overlay>)
    ensures forall r :: r in SortedTrace(curr, order).reports ==> r.Error?
  {
    if order != [] {
      SortedTraceOnlyErrors(curr, order[..|order| - 1]);
    }
  }
}
