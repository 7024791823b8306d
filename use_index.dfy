/**
 * The USE-flag index builder: read the global and the local flag
 * description files line by line into a nested hash, `global` from flag to
 * description and `local` from category to package to flag to description.
 * Ruby's `nil` is `None`: a missing field is a `nil` key or value, and
 * calling `split` on `nil` raises.
 */
module UseIndex {
  import opened Wrappers
  import opened Strings
  import opened Seqs

  /** `line =~ /^(|#.*)$/` on a line from `readlines`, which holds a line
      break only at its end. There `^` matches only
      at the start (Ruby's `^` does not match after the final line break),
      so the pattern matches an empty line, a bare line break and a line
      whose first character is `#`; leading blanks before `#` do not count. */
  predicate Skipped(line: string) {
    line == [] || line[0] == '\n' || line[0] == '#'
  }

  /** `flag, desc = line.strip.split(' - ', 2)`. */
  function GlobalEntry(line: string): (Option<string>, Option<string>) {
    var fields := RubySplit2(Strip(line, IsRubySpace), " - ");
    (Field(fields, 0), Field(fields, 1))
  }

  datatype LocalEntry = LocalEntry(cat: Option<string>, pkg: Option<string>, flag: Option<string>, desc: Option<string>)

  /** The three multiple assignments of a local line: split at the first
      `" - "`, the key at the first `':'`, the atom at the first `'/'`.
      `None` where `split` is called on `nil` (NoMethodError). */
  function LocalEntryOf(line: string): Option<LocalEntry> {
    var fields := RubySplit2(Strip(line, IsRubySpace), " - ");
    match Field(fields, 0)
    case None => None
    case Some(atomFlag) =>
      var atomAndFlag := RubySplit2(atomFlag, ":");
      match Field(atomAndFlag, 0)
      case None => None
      case Some(atom) =>
        var catAndPkg := RubySplit2(atom, "/");
        Some(LocalEntry(Field(catAndPkg, 0), Field(catAndPkg, 1), Field(atomAndFlag, 1), Field(fields, 1)))
  }

  type GlobalIndex = map<Option<string>, Option<string>>
  type LocalIndex = map<Option<string>, map<Option<string>, map<Option<string>, Option<string>>>>

  /** `output['global']` after reading `lines` into `m`. */
  function GlobalAfter(m: GlobalIndex, lines: seq<string>): GlobalIndex
    decreases |lines|
  {
    if lines == [] then m
    else
      var before := GlobalAfter(m, lines[..|lines| - 1]);
      var line := lines[|lines| - 1];
      if Skipped(line) then before else before[GlobalEntry(line).0 := GlobalEntry(line).1]
  }

  /** `output['local'][cat][pkg][flag]`, if every level is there. */
  function LocalGet(local: LocalIndex, cat: Option<string>, pkg: Option<string>, flag: Option<string>): Option<Option<string>> {
    if cat in local && pkg in local[cat] && flag in local[cat][pkg] then Some(local[cat][pkg][flag]) else None
  }

  /** The two `||=` and the assignment: missing category and package hashes
      are created; the entry is set; nothing else changes. */
  function InsertLocal(local: LocalIndex, e: LocalEntry): LocalIndex {
    var pkgs := if e.cat in local then local[e.cat] else map[];
    var flags := if e.pkg in pkgs then pkgs[e.pkg] else map[];
    local[e.cat := pkgs[e.pkg := flags[e.flag := e.desc]]]
  }

  /** `output['local']` after reading `lines` into `local`, or `None` where
      a line raises. */
  function LocalAfter(local: LocalIndex, lines: seq<string>): Option<LocalIndex>
    decreases |lines|
  {
    if lines == [] then Some(local)
    else
      match LocalAfter(local, lines[..|lines| - 1])
      case None => None
      case Some(before) => LocalStep(before, lines[|lines| - 1])
  }

  /** One line of the local file: skipped, stored, or raising. */
  function LocalStep(before: LocalIndex, line: string): Option<LocalIndex> {
    if Skipped(line) then Some(before)
    else
      match LocalEntryOf(line)
      case None => None
      case Some(e) => Some(InsertLocal(before, e))
  }

  /** The `output` hash, updated in place by the two loops. */
  class Output {
    var global: GlobalIndex
    var local: LocalIndex

    /** `{ 'global' => {}, 'local' => {} }` */
    constructor ()
      ensures global == map[] && local == map[]
    {
      global := map[];
      local := map[];
    }

    /** The loop over the global file. It never touches `local`. */
    method ReadGlobal(lines: seq<string>)
      modifies this
      ensures global == GlobalAfter(old(global), lines)
      ensures local == old(local)
    {
      ghost var start := global;
      var i := 0;
      while i < |lines|
        invariant 0 <= i <= |lines|
        invariant global == GlobalAfter(start, lines[..i])
        invariant local == old(local)
      {
        var line := lines[i];
        assert lines[..i + 1][..i] == lines[..i];
        if !Skipped(line) {
          var entry := GlobalEntry(line);
          global := global[entry.0 := entry.1];
        }
        i := i + 1;
      }
      assert lines[..i] == lines;
    }

    /** The loop over the local file; `raised` where a line raises, after
      the lines before it have been stored. It never touches `global`. */
    method ReadLocal(lines: seq<string>) returns (raised: bool)
      modifies this
      ensures raised <==> LocalAfter(old(local), lines).None?
      ensures !raised ==> local == LocalAfter(old(local), lines).value
      ensures global == old(global)
    {
      ghost var start := local;
      var i := 0;
      while i < |lines|
        invariant 0 <= i <= |lines|
        invariant LocalAfter(start, lines[..i]) == Some(local)
        invariant global == old(global)
      {
        LocalAfterStep(start, lines, i, local);
        var failed := ReadLocalLine(lines[i]);
        if failed {
          LocalAfterFailed(start, lines, i + 1);
          assert lines[..|lines|] == lines;
          return true;
        }
        i := i + 1;
      }
      assert lines[..i] == lines;
      raised := false;
    }

    /** The body of the loop over the local file, for one line. */
    method ReadLocalLine(line: string) returns (raised: bool)
      modifies this
      ensures raised <==> LocalStep(old(local), line).None?
      ensures !raised ==> local == LocalStep(old(local), line).value
      ensures global == old(global)
    {
      if !Skipped(line) {
        var entry := LocalEntryOf(line);
        if entry.None? {
          return true;
        }
        local := InsertLocal(local, entry.value);
      }
      raised := false;
    }
  }

  /** The whole script up to the JSON output: the global file, then the
      local file. `raised` where a local line raises and nothing is printed. */
  method BuildIndex(globalLines: seq<string>, localLines: seq<string>)
    returns (global: GlobalIndex, local: LocalIndex, raised: bool)
    ensures global == GlobalAfter(map[], globalLines)
    ensures raised <==> LocalAfter(map[], localLines).None?
    ensures !raised ==> local == LocalAfter(map[], localLines).value
  {
    var output := new Output();
    output.ReadGlobal(globalLines);
    raised := output.ReadLocal(localLines);
    global, local := output.global, output.local;
  }

  // ---------------------------------------------------------------------
  // Properties
  // ---------------------------------------------------------------------

  /** One more line of the local file, read into the index built so far. */
  lemma LocalAfterStep(m: LocalIndex, lines: seq<string>, i: nat, before: LocalIndex)
    requires i < |lines| && LocalAfter(m, lines[..i]) == Some(before)
    ensures LocalAfter(m, lines[..i + 1]) == LocalStep(before, lines[i])
  {
    assert lines[..i + 1][..i] == lines[..i];
  }

  /** Once a local line has raised, no later line matters. */
  lemma {:induction false} LocalAfterFailed(local: LocalIndex, lines: seq<string>, j: nat)
    requires j <= |lines| && LocalAfter(local, lines[..j]).None?
    ensures LocalAfter(local, lines[..|lines|]).None?
    decreases |lines| - j
  {
    if j < |lines| {
      assert lines[..j + 1][..j] == lines[..j];
      LocalAfterFailed(local, lines, j + 1);
    }
  }

  lemma GlobalAfterSnoc(m: GlobalIndex, init: seq<string>, line: string)
    ensures GlobalAfter(m, init + [line])
         == if Skipped(line) then GlobalAfter(m, init)
            else GlobalAfter(m, init)[GlobalEntry(line).0 := GlobalEntry(line).1]
  {
    assert (init + [line])[..|init|] == init;
  }

  /** Skipped lines contribute nothing: reading only the others gives the
      same global index. */
  lemma {:induction false} GlobalIgnoresSkipped(m: GlobalIndex, lines: seq<string>)
    ensures GlobalAfter(m, lines) == GlobalAfter(m, Filter(lines, Not(Skipped)))
    decreases |lines|
  {
    if lines != [] {
      var init, last := lines[..|lines| - 1], lines[|lines| - 1];
      assert lines == init + [last];
      GlobalIgnoresSkipped(m, init);
      GlobalAfterSnoc(m, init, last);
      FilterSnoc(init, last, Not(Skipped));
      var kept := Filter(init, Not(Skipped));
      if !Skipped(last) {
        GlobalAfterSnoc(m, kept, last);
      } else {
        assert kept + [] == kept;
      }
    }
  }

  /** Dropping the last line keeps line `j` the last one to name the key. */
  lemma NoLaterNames(lines: seq<string>, init: seq<string>, j: nat, cat: Option<string>, pkg: Option<string>, flag: Option<string>)
    requires lines != [] && init == lines[..|lines| - 1] && j < |init|
    requires forall k :: j < k < |lines| ==> !Names(lines[k], cat, pkg, flag)
    ensures forall k :: j < k < |init| ==> !Names(init[k], cat, pkg, flag)
  {
    forall k | j < k < |init| ensures !Names(init[k], cat, pkg, flag) {
      assert init[k] == lines[k];
    }
  }

  /** Last write wins: the description stored for a flag is the one on the
      last line that names it. */
  lemma {:induction false} GlobalLastWins(m: GlobalIndex, lines: seq<string>, j: nat)
    requires j < |lines| && !Skipped(lines[j])
    requires forall k :: j < k < |lines| && !Skipped(lines[k]) ==> GlobalEntry(lines[k]).0 != GlobalEntry(lines[j]).0
    ensures GlobalEntry(lines[j]).0 in GlobalAfter(m, lines)
    ensures GlobalAfter(m, lines)[GlobalEntry(lines[j]).0] == GlobalEntry(lines[j]).1
    decreases |lines|
  {
    var init := lines[..|lines| - 1];
    var entry := GlobalEntry(lines[j]);
    if j < |lines| - 1 {
      assert init[j] == lines[j];
      forall k | j < k < |init| && !Skipped(init[k]) ensures GlobalEntry(init[k]).0 != entry.0 {
        assert init[k] == lines[k];
      }
      GlobalLastWins(m, init, j);
      var last := lines[|lines| - 1];
      assert Skipped(last) || GlobalEntry(last).0 != entry.0;
      GlobalStepKeepsOther(GlobalAfter(m, init), GlobalAfter(m, lines), last, entry.0);
    }
  }

  /** One more line leaves the entry of a flag it does not name alone. */
  lemma GlobalStepKeepsOther(before: GlobalIndex, after: GlobalIndex, line: string, flag: Option<string>)
    requires after == if Skipped(line) then before else before[GlobalEntry(line).0 := GlobalEntry(line).1]
    requires Skipped(line) || GlobalEntry(line).0 != flag
    ensures (flag in after) == (flag in before)
    ensures flag in before ==> after[flag] == before[flag]
  {
  }

  /** A flag that no line names keeps its entry (or its absence). */
  lemma {:induction false} GlobalUntouched(m: GlobalIndex, lines: seq<string>, flag: Option<string>)
    requires forall k :: 0 <= k < |lines| && !Skipped(lines[k]) ==> GlobalEntry(lines[k]).0 != flag
    ensures (flag in GlobalAfter(m, lines)) == (flag in m)
    ensures flag in m ==> GlobalAfter(m, lines)[flag] == m[flag]
    decreases |lines|
  {
    if lines != [] {
      var init := lines[..|lines| - 1];
      forall k | 0 <= k < |init| && !Skipped(init[k]) ensures GlobalEntry(init[k]).0 != flag {
        assert init[k] == lines[k];
      }
      GlobalUntouched(m, init, flag);
    }
  }

  /** A global line splits at its first `" - "`: the flag is the text before
      it and the description everything after it, later `" - "` included;
      without one the description is `nil`, and a blank line gives `nil` for
      both. */
  lemma GlobalEntrySplit(line: string)
    ensures var t := Strip(line, IsRubySpace);
      (t == [] <==> GlobalEntry(line).0.None?)
      && (GlobalEntry(line).1.None? <==> t == [] || forall j :: 0 <= j <= |t| ==> !StartsWith(t[j..], " - "))
    ensures var t := Strip(line, IsRubySpace);
      var (flag, desc) := GlobalEntry(line);
      desc.Some? ==> t == flag.value + " - " + desc.value
                     && forall j :: 0 <= j < |flag.value| ==> !StartsWith(t[j..], " - ")
  {
    var t := Strip(line, IsRubySpace);
    var fields := RubySplit2(t, " - ");
    if |fields| == 2 {
      SeparatorFound(t, fields[0], fields[1]);
    }
  }

  lemma SeparatorFound(t: string, before: string, after: string)
    requires t == before + " - " + after
    ensures StartsWith(t[|before|..], " - ")
  {
    assert t[|before|..] == " - " + after;
  }

  /** A local line raises exactly when it is blank after `strip`: otherwise
      it starts with a character that is not a blank, so the key before
      `" - "` is not empty and neither is its first `split`. */
  lemma LocalRaisesOnBlank(line: string)
    ensures LocalEntryOf(line).None? <==> Strip(line, IsRubySpace) == []
  {
    var t := Strip(line, IsRubySpace);
    if t != [] {
      StripStartsSolid(line, IsRubySpace);
      SplitFirstNonEmpty(t, " - ");
    }
  }

  /** The text before `" - "` rebuilt from the parts of a local entry. */
  function LocalKey(e: LocalEntry): string {
    Joined(Joined(e.cat.GetOr(""), "/", e.pkg), ":", e.flag)
  }

  /** A local line's key is cut at its first `':'` into atom and flag and
      the atom at its first `'/'` into category and package; the parts put
      back together give the key, and the description is the global split's. */
  lemma LocalEntryParts(line: string)
    requires LocalEntryOf(line).Some?
    ensures var e := LocalEntryOf(line).value;
      GlobalEntry(line).0 == Some(LocalKey(e)) && e.desc == GlobalEntry(line).1
    ensures var e := LocalEntryOf(line).value;
      (e.cat.Some? ==> ':' !in e.cat.value && '/' !in e.cat.value)
      && (e.pkg.Some? ==> ':' !in e.pkg.value)
  {
    var fields := RubySplit2(Strip(line, IsRubySpace), " - ");
    var atomFlag := fields[0];
    var atomAndFlag := RubySplit2(atomFlag, ":");
    var atom := atomAndFlag[0];
    var catAndPkg := RubySplit2(atom, "/");
    SplitPrefixFree(atomFlag, ':', atomAndFlag);
    SplitPrefixFree(atom, '/', catAndPkg);
    SplitJoined(atomFlag, ":");
    SplitJoined(atom, "/");
    if |catAndPkg| == 2 {
      assert atom == catAndPkg[0] + "/" + catAndPkg[1];
      assert forall c :: c in catAndPkg[1] ==> c in atom;
    }
    if |catAndPkg| >= 1 {
      assert forall c :: c in catAndPkg[0] ==> c in atom;
    }
  }

  /** Inserting a local entry and then reading it back gives its description;
      every other category, package and flag reads as before. */
  lemma LocalInsertThenGet(local: LocalIndex, e: LocalEntry, cat: Option<string>, pkg: Option<string>, flag: Option<string>)
    ensures LocalGet(InsertLocal(local, e), cat, pkg, flag)
         == if (cat, pkg, flag) == (e.cat, e.pkg, e.flag) then Some(e.desc) else LocalGet(local, cat, pkg, flag)
  {
  }

  /** A local line that is read and stores the entry for `cat`/`pkg`/`flag`. */
  predicate Names(line: string, cat: Option<string>, pkg: Option<string>, flag: Option<string>) {
    !Skipped(line) && LocalEntryOf(line).Some?
    && (LocalEntryOf(line).value.cat, LocalEntryOf(line).value.pkg, LocalEntryOf(line).value.flag) == (cat, pkg, flag)
  }

  /** The last line of a local file read without raising. */
  lemma LocalAfterLast(m: LocalIndex, lines: seq<string>)
    requires lines != [] && LocalAfter(m, lines).Some?
    ensures LocalAfter(m, lines[..|lines| - 1]).Some?
    ensures LocalAfter(m, lines) == LocalStep(LocalAfter(m, lines[..|lines| - 1]).value, lines[|lines| - 1])
  {
  }

  /** A local line that names a key stores its description there. */
  lemma LocalStepNamed(before: LocalIndex, line: string, cat: Option<string>, pkg: Option<string>, flag: Option<string>)
    requires Names(line, cat, pkg, flag)
    ensures LocalStep(before, line).Some?
    ensures LocalGet(LocalStep(before, line).value, cat, pkg, flag) == Some(LocalEntryOf(line).value.desc)
  {
    LocalInsertThenGet(before, LocalEntryOf(line).value, cat, pkg, flag);
  }

  /** One more local line leaves the entry of a key it does not name alone. */
  lemma LocalStepKeepsOther(before: LocalIndex, line: string, cat: Option<string>, pkg: Option<string>, flag: Option<string>)
    requires LocalStep(before, line).Some? && !Names(line, cat, pkg, flag)
    ensures LocalGet(LocalStep(before, line).value, cat, pkg, flag) == LocalGet(before, cat, pkg, flag)
  {
    if !Skipped(line) {
      LocalInsertThenGet(before, LocalEntryOf(line).value, cat, pkg, flag);
    }
  }

  /** Reading the local file to the end without raising means every line
      that is not skipped has an entry. */
  lemma {:induction false} LocalAfterParses(m: LocalIndex, lines: seq<string>, k: nat)
    requires LocalAfter(m, lines).Some? && k < |lines| && !Skipped(lines[k])
    ensures LocalEntryOf(lines[k]).Some?
    decreases |lines|
  {
    var init := lines[..|lines| - 1];
    if k < |lines| - 1 {
      assert init[k] == lines[k];
      LocalAfterParses(m, init, k);
    }
  }

  /** Last write wins: the description stored for a category, package and
      flag is the one on the last local line that names them. */
  lemma {:induction false} LocalLastWins(m: LocalIndex, lines: seq<string>, j: nat, cat: Option<string>, pkg: Option<string>, flag: Option<string>)
    requires LocalAfter(m, lines).Some?
    requires j < |lines| && Names(lines[j], cat, pkg, flag)
    requires forall k :: j < k < |lines| ==> !Names(lines[k], cat, pkg, flag)
    ensures LocalGet(LocalAfter(m, lines).value, cat, pkg, flag) == Some(LocalEntryOf(lines[j]).value.desc)
    decreases |lines|
  {
    var init, last := lines[..|lines| - 1], lines[|lines| - 1];
    LocalAfterLast(m, lines);
    var before := LocalAfter(m, init).value;
    if j == |lines| - 1 {
      LocalStepNamed(before, last, cat, pkg, flag);
    } else {
      assert init[j] == lines[j];
      NoLaterNames(lines, init, j, cat, pkg, flag);
      LocalLastWins(m, init, j, cat, pkg, flag);
      LocalStepKeepsOther(before, last, cat, pkg, flag);
    }
  }

  /** A key that no local line names reads as it did before the file. */
  lemma {:induction false} LocalUntouched(m: LocalIndex, lines: seq<string>, cat: Option<string>, pkg: Option<string>, flag: Option<string>)
    requires LocalAfter(m, lines).Some?
    requires forall k :: 0 <= k < |lines| ==> !Names(lines[k], cat, pkg, flag)
    ensures LocalGet(LocalAfter(m, lines).value, cat, pkg, flag) == LocalGet(m, cat, pkg, flag)
    decreases |lines|
  {
    if lines != [] {
      var init, last := lines[..|lines| - 1], lines[|lines| - 1];
      forall k | 0 <= k < |init| ensures !Names(init[k], cat, pkg, flag) {
        assert init[k] == lines[k];
      }
      LocalAfterLast(m, lines);
      LocalUntouched(m, init, cat, pkg, flag);
      LocalStepKeepsOther(LocalAfter(m, init).value, last, cat, pkg, flag);
    }
  }

  /** The `||=` chain: the entry's category is added to the categories and
      its package to that category's packages; other categories are kept. */
  lemma InsertLocalShape(local: LocalIndex, e: LocalEntry)
    ensures InsertLocal(local, e).Keys == local.Keys + {e.cat}
    ensures forall c :: c in local && c != e.cat ==> InsertLocal(local, e)[c] == local[c]
    ensures e.cat in local ==> InsertLocal(local, e)[e.cat].Keys == local[e.cat].Keys + {e.pkg}
    ensures e.cat !in local ==> InsertLocal(local, e)[e.cat] == map[e.pkg := map[e.flag := e.desc]]
  {
  }

  lemma NoSeparatorAt(t: string, j: nat)
    requires j < |t| && t[j] != ' '
    ensures !StartsWith(t[j..], " - ")
  {
  }

  /** The description keeps a later `" - "`. */
  lemma GlobalEntryExample()
    ensures GlobalEntry("acl - b - c\n") == (Some("acl"), Some("b - c"))
  {
    var s := "acl - b - c\n";
    var t := "acl - b - c";
    assert s[..|s| - 1] == t;
    assert TrimStart(s, IsRubySpace) == s by {
      assert !IsRubySpace(s[0]);
    }
    assert TrimEnd(t, IsRubySpace) == t by {
      assert !IsRubySpace(t[|t| - 1]);
    }
    assert TrimEnd(s, IsRubySpace) == t by {
      assert IsRubySpace(s[|s| - 1]);
    }
    NoSeparatorAt(t, 0);
    NoSeparatorAt(t, 1);
    NoSeparatorAt(t, 2);
    assert t[3..][..3] == " - ";
    assert FindFrom(t, " - ", 0) == Some(3);
    assert t[..3] == "acl" && t[6..] == "b - c";
  }

  /** A line without `" - "` has a `nil` description. */
  lemma GlobalEntryNoDescription()
    ensures GlobalEntry("acl\n") == (Some("acl"), None)
  {
    var u := "acl\n";
    assert u[..|u| - 1] == "acl";
    assert TrimStart(u, IsRubySpace) == u by {
      assert !IsRubySpace(u[0]);
    }
    assert TrimEnd("acl", IsRubySpace) == "acl" by {
      assert !IsRubySpace("acl"[2]);
    }
    assert TrimEnd(u, IsRubySpace) == "acl" by {
      assert IsRubySpace(u[|u| - 1]);
    }
    NoSeparatorAt("acl", 0);
    NoSeparatorAt("acl", 1);
    NoSeparatorAt("acl", 2);
    assert FindFrom("acl", " - ", 0) == None;
  }

  /** Comment and empty lines are skipped; a `#` after a leading blank is
      not a comment. */
  lemma SkippedExamples()
    ensures Skipped("# acl\n") && Skipped("\n") && Skipped("")
    ensures !Skipped(" # acl\n") && !Skipped("acl - b\n")
  {
  }
}
