/** Grouping the brush fragment files of a directory by the Label Studio name
    pattern, naming each group's output by its task id, and the batch that runs
    the composite for every group (`batch_process_masks` in
    magicwand-coco-brush-to-png-masks/script.py). The directory listing is an
    input and loading a file is a function given by the caller. */
module BrushGrouping {
  import opened Text
  import opened BrushComposite

  // ---------------------------------------------------------------------
  // The fragment file name pattern
  //   task-<d>-annotation-<d>-by-<d>-labels-<w>-<d>.npy
  // where <d> is a run of digits and <w> a run of letters, digits and '_'.

  datatype CharClass = Digits | Word

  predicate InClass(c: char, k: CharClass) {
    match k
    case Digits => '0' <= c <= '9'
    case Word => 'A' <= c <= 'Z' || 'a' <= c <= 'z' || '0' <= c <= '9' || c == '_'
  }

  predicate AllIn(s: string, k: CharClass) {
    forall i :: 0 <= i < |s| ==> InClass(s[i], k)
  }

  /** The length of the longest prefix of s made of class-k characters. */
  function RunLength(s: string, k: CharClass): (n: nat)
    ensures n <= |s|
    ensures AllIn(s[..n], k)
    ensures n < |s| ==> !InClass(s[n], k)
    decreases |s|
  {
    if s == [] || !InClass(s[0], k) then 0
    else
      var n := 1 + RunLength(s[1..], k);
      assert forall i :: 1 <= i < n ==> s[..n][i] == s[1..][..n - 1][i - 1];
      n
  }

  /** One field of the pattern: a non-empty maximal run of class k followed by the
      literal sep; yields the run and what follows sep. Since sep never starts
      with a class-k character, taking the maximal run is exactly what the
      regular expression's backtracking would settle on. */
  function Field(s: string, k: CharClass, sep: string): Option<(string, string)> {
    var n := RunLength(s, k);
    if n == 0 || !StartsWith(s[n..], sep) then None
    else Some((s[..n], s[n + |sep|..]))
  }

  /** A field of the pattern: its character class and the literal after it. */
  datatype FieldSpec = FieldSpec(chars: CharClass, sep: string)

  /** The pattern after "task-", field by field. */
  const Pattern: seq<FieldSpec> := [FieldSpec(Digits, "-annotation-"), FieldSpec(Digits, "-by-"),
                                    FieldSpec(Digits, "-labels-"), FieldSpec(Word, "-"),
                                    FieldSpec(Digits, ".npy")]

  /** No separator is empty or starts with a character its field could take. */
  predicate Separated(specs: seq<FieldSpec>) {
    forall i :: 0 <= i < |specs| ==> specs[i].sep != [] && !InClass(specs[i].sep[0], specs[i].chars)
  }

  /** fields fit specs: one non-empty run of the right class per field. */
  predicate Fits(fields: seq<string>, specs: seq<FieldSpec>) {
    |fields| == |specs| && forall i :: 0 <= i < |specs| ==> fields[i] != [] && AllIn(fields[i], specs[i].chars)
  }

  /** Reads the fields in order; the whole input must be consumed. */
  function ParseFields(s: string, specs: seq<FieldSpec>): (r: Option<seq<string>>)
    ensures r.Some? ==> |r.value| == |specs|
    decreases |specs|
  {
    if specs == [] then (if s == [] then Some([]) else None)
    else
      match Field(s, specs[0].chars, specs[0].sep)
      case None => None
      case Some((f, rest)) =>
        match ParseFields(rest, specs[1..])
        case None => None
        case Some(fs) => Some([f] + fs)
  }

  /** Each field followed by its separator. */
  function RenderFields(fields: seq<string>, specs: seq<FieldSpec>): string
    requires |fields| == |specs|
    decreases |specs|
  {
    if specs == [] then [] else fields[0] + (specs[0].sep + RenderFields(fields[1..], specs[1..]))
  }

  lemma {:induction false} RunOfField(run: string, k: CharClass, rest: string)
    requires AllIn(run, k)
    requires rest != [] ==> !InClass(rest[0], k)
    ensures RunLength(run + rest, k) == |run|
    decreases |run|
  {
    if run == [] {
      assert run + rest == rest;
    } else {
      assert (run + rest)[1..] == run[1..] + rest;
      RunOfField(run[1..], k, rest);
    }
  }

  /** A field followed by its separator is read back exactly. */
  lemma FieldOfRendered(run: string, k: CharClass, sep: string, rest: string)
    requires run != [] && AllIn(run, k)
    requires sep != [] && !InClass(sep[0], k)
    ensures Field(run + (sep + rest), k, sep) == Some((run, rest))
  {
    var s := run + (sep + rest);
    RunOfField(run, k, sep + rest);
    assert s[|run|..] == sep + rest;
    assert s[..|run|] == run;
    assert s[|run| + |sep|..] == rest;
  }

  /** What a successful field read says about its input. */
  lemma FieldSplits(s: string, k: CharClass, sep: string)
    requires Field(s, k, sep).Some?
    ensures var (run, rest) := Field(s, k, sep).value;
            run != [] && AllIn(run, k) && s == run + (sep + rest)
  {
    var n := RunLength(s, k);
    assert s[n..][..|sep|] == sep;
    assert s == s[..n] + (s[n..n + |sep|] + s[n + |sep|..]);
  }

  /** Reading rendered fields gives them back. */
  lemma {:induction false} ParseRenderFields(fields: seq<string>, specs: seq<FieldSpec>)
    requires Separated(specs) && Fits(fields, specs)
    ensures ParseFields(RenderFields(fields, specs), specs) == Some(fields)
    decreases |specs|
  {
    if specs != [] {
      var rest := RenderFields(fields[1..], specs[1..]);
      FieldOfRendered(fields[0], specs[0].chars, specs[0].sep, rest);
      assert Separated(specs[1..]) && Fits(fields[1..], specs[1..]) by {
        forall i | 0 <= i < |specs| - 1 ensures specs[1..][i] == specs[i + 1] && fields[1..][i] == fields[i + 1] { }
      }
      ParseRenderFields(fields[1..], specs[1..]);
      assert [fields[0]] + fields[1..] == fields;
    }
  }

  /** The fields read fit the pattern and render back to the input. */
  lemma {:induction false} RenderParseFields(s: string, specs: seq<FieldSpec>)
    requires ParseFields(s, specs).Some?
    ensures Fits(ParseFields(s, specs).value, specs)
    ensures RenderFields(ParseFields(s, specs).value, specs) == s
    decreases |specs|
  {
    if specs != [] {
      FieldSplits(s, specs[0].chars, specs[0].sep);
      var (f, rest) := Field(s, specs[0].chars, specs[0].sep).value;
      RenderParseFields(rest, specs[1..]);
      var fs := ParseFields(rest, specs[1..]).value;
      assert ([f] + fs)[1..] == fs;
      forall i | 1 <= i < |specs| ensures specs[i] == specs[1..][i - 1] && ([f] + fs)[i] == fs[i - 1] { }
    }
  }

  /** A rendering ends with the last separator. */
  lemma {:induction false} RenderEndsWithLastSep(fields: seq<string>, specs: seq<FieldSpec>)
    requires |fields| == |specs| > 0
    ensures EndsWith(RenderFields(fields, specs), specs[|specs| - 1].sep)
    decreases |specs|
  {
    var sep := specs[|specs| - 1].sep;
    if |specs| == 1 {
      assert RenderFields(fields, specs) == fields[0] + sep;
    } else {
      RenderEndsWithLastSep(fields[1..], specs[1..]);
      var r := RenderFields(fields[1..], specs[1..]);
      var full := fields[0] + (specs[0].sep + r);
      assert full[|full| - |sep|..] == r[|r| - |sep|..];
    }
  }

  /** The parts of a fragment file name, as strings of their characters. */
  datatype FragmentName = FragmentName(task: string, annotation: string, annotator: string,
                                       labels: string, index: string)

  function Parts(n: FragmentName): seq<string> {
    [n.task, n.annotation, n.annotator, n.labels, n.index]
  }

  predicate ValidName(n: FragmentName) {
    Fits(Parts(n), Pattern)
  }

  /** The file name that has these parts. */
  function Render(n: FragmentName): string {
    "task-" + RenderFields(Parts(n), Pattern)
  }

  /** A full match of the file name pattern, split into its parts. */
  function ParseFragmentName(s: string): Option<FragmentName> {
    if !StartsWith(s, "task-") then None
    else
      match ParseFields(s[5..], Pattern)
      case None => None
      case Some(fs) => Some(FragmentName(fs[0], fs[1], fs[2], fs[3], fs[4]))
  }

  lemma PatternSeparated()
    ensures Separated(Pattern)
  {
    assert Pattern[0].sep[0] == '-' && Pattern[1].sep[0] == '-' && Pattern[2].sep[0] == '-';
    assert Pattern[3].sep[0] == '-' && Pattern[4].sep[0] == '.';
  }

  /** Parsing a rendered valid name gives back its parts. */
  lemma ParseRender(n: FragmentName)
    requires ValidName(n)
    ensures ParseFragmentName(Render(n)) == Some(n)
  {
    PatternSeparated();
    ParseRenderFields(Parts(n), Pattern);
    assert Render(n)[5..] == RenderFields(Parts(n), Pattern);
  }

  /** A name the parser accepts is the rendering of valid parts. */
  lemma RenderParse(s: string)
    requires ParseFragmentName(s).Some?
    ensures ValidName(ParseFragmentName(s).value)
    ensures Render(ParseFragmentName(s).value) == s
  {
    var fs := PartsOfParsed(s);
    RenderParseFields(s[5..], Pattern);
  }

  /** An accepted name starts with "task-" and its parts are the fields read
      after it. */
  lemma PartsOfParsed(s: string) returns (fs: seq<string>)
    requires ParseFragmentName(s).Some?
    ensures s == "task-" + s[5..]
    ensures ParseFields(s[5..], Pattern) == Some(fs)
    ensures Parts(ParseFragmentName(s).value) == fs
  {
    fs := ParseFields(s[5..], Pattern).value;
    assert s[..5] == "task-";
    assert |fs| == |Pattern| == 5;
    assert ParseFragmentName(s).value == FragmentName(fs[0], fs[1], fs[2], fs[3], fs[4]);
    FiveParts(fs);
  }

  lemma FiveParts(fs: seq<string>)
    requires |fs| == 5
    ensures Parts(FragmentName(fs[0], fs[1], fs[2], fs[3], fs[4])) == fs
  {
  }

  /** Every name that matches the pattern ends with ".npy", so the script's
      `endswith('.npy')` test never rejects a match. */
  lemma MatchEndsWithNpy(s: string)
    requires ParseFragmentName(s).Some?
    ensures EndsWith(s, ".npy")
  {
    var fs := PartsOfParsed(s);
    RenderParseFields(s[5..], Pattern);
    RenderEndsWithLastSep(fs, Pattern);
  }

  /** The group key: the regular expression's first group, everything before the
      trailing -<index>.npy. */
  function GroupKey(n: FragmentName): string {
    "task-" + (n.task + ("-annotation-" + (n.annotation + ("-by-" + (n.annotator +
      ("-labels-" + n.labels))))))
  }

  /** The group key is the file name without its final "-<index>.npy". */
  lemma KeyIsNameWithoutIndex(n: FragmentName)
    ensures Render(n) == GroupKey(n) + ("-" + (n.index + ".npy"))
  {
    var p := Pattern;
    assert p[1..][1..][1..][1..][1..] == [];
    var fs := Parts(n);
    assert fs[1..][1..][1..][1..][1..] == [];
    assert RenderFields(fs[1..][1..][1..][1..], p[1..][1..][1..][1..]) == n.index + ".npy";
    assert RenderFields(fs[1..][1..][1..], p[1..][1..][1..]) == n.labels + ("-" + (n.index + ".npy"));
  }

  /** The key of a listed file, when it is grouped at all. */
  function MatchKey(filename: string): Option<string> {
    if !EndsWith(filename, ".npy") then None
    else
      match ParseFragmentName(filename)
      case None => None
      case Some(n) => Some(GroupKey(n))
  }

  // ---------------------------------------------------------------------
  // Task id and output name

  /** `group_key.split('-')[1]` */
  function TaskIdOfKey(key: string): string
    requires |Split(key, '-')| >= 2
  {
    Split(key, '-')[1]
  }

  /** The second '-'-separated part of a group key is exactly the digits after "task-". */
  lemma TaskIdOfGroupKey(n: FragmentName)
    requires ValidName(n)
    ensures |Split(GroupKey(n), '-')| >= 2
    ensures TaskIdOfKey(GroupKey(n)) == n.task
  {
    var rest := "annotation-" + (n.annotation + ("-by-" + (n.annotator + ("-labels-" + n.labels))));
    assert GroupKey(n) == "task" + ['-'] + (n.task + ['-'] + rest);
    SplitAtFirst("task", '-', n.task + ['-'] + rest);
    assert '-' !in n.task by {
      assert Parts(n)[0] == n.task && AllIn(Parts(n)[0], Pattern[0].chars);
    }
    SplitAtFirst(n.task, '-', rest);
  }

  /** `f"{task_id}.png"` */
  function OutputName(key: string): string
    requires |Split(key, '-')| >= 2
  {
    TaskIdOfKey(key) + ".png"
  }

  /** A grouped file's key comes from its parsed name, and the group's output is
      named by that name's task digits. */
  lemma KeyOfMatch(filename: string)
    requires MatchKey(filename).Some?
    ensures var k := MatchKey(filename).value;
            var n := ParseFragmentName(filename).value;
            ValidName(n) && k == GroupKey(n) && |Split(k, '-')| >= 2 && OutputName(k) == n.task + ".png"
  {
    RenderParse(filename);
    TaskIdOfGroupKey(ParseFragmentName(filename).value);
  }

  // ---------------------------------------------------------------------
  // Grouping the listing

  /** Groups in insertion order (Python dicts keep it) and their member files. */
  datatype Groups = Groups(order: seq<string>, members: map<string, seq<string>>)

  /** Grouping names by a key function, the way the script fills its dict:
      a new key is appended to the order, a known one gets the name appended. */
  function GroupBy(names: seq<string>, key: string -> Option<string>): Groups
    decreases |names|
  {
    if names == [] then Groups([], map[])
    else
      var n := names[|names| - 1];
      GroupStep(GroupBy(names[..|names| - 1], key), n, key(n))
  }

  /** One step of the grouping loop: file n, whose key is k when it has one. */
  function GroupStep(g: Groups, n: string, k: Option<string>): Groups {
    match k
    case None => g
    case Some(k) =>
      if k in g.members then Groups(g.order, g.members[k := g.members[k] + [n]])
      else Groups(g.order + [k], g.members[k := [n]])
  }

  /** The names with key k, in listing order. */
  function MembersOf(names: seq<string>, key: string -> Option<string>, k: string): (ms: seq<string>)
    ensures forall x :: x in ms <==> x in names && key(x) == Some(k)
    ensures (forall i :: 0 <= i < |names| ==> key(names[i]) != Some(k)) ==> ms == []
    decreases |names|
  {
    if names == [] then []
    else
      var last := names[|names| - 1];
      assert names == names[..|names| - 1] + [last];
      MembersOf(names[..|names| - 1], key, k) + (if key(last) == Some(k) then [last] else [])
  }

  /** The groups are the keys that occur among the names. */
  lemma {:induction false} GroupKeysOccur(names: seq<string>, key: string -> Option<string>)
    ensures forall k :: k in GroupBy(names, key).members <==>
              exists i :: 0 <= i < |names| && key(names[i]) == Some(k)
    decreases |names|
  {
    if names != [] {
      var p := names[..|names| - 1];
      GroupKeysOccur(p, key);
      assert forall i :: 0 <= i < |p| ==> names[i] == p[i];
    }
  }

  /** The order lists every group once, in order of first appearance. */
  lemma {:induction false} GroupOrderListsKeys(names: seq<string>, key: string -> Option<string>)
    ensures var g := GroupBy(names, key);
            (forall k :: k in g.order <==> k in g.members) && Distinct(g.order)
    decreases |names|
  {
    if names != [] {
      GroupOrderListsKeys(names[..|names| - 1], key);
    }
  }

  /** Each group holds exactly the names with its key, in listing order. */
  lemma {:induction false} GroupMembers(names: seq<string>, key: string -> Option<string>)
    ensures var g := GroupBy(names, key);
            forall k :: k in g.members ==> g.members[k] == MembersOf(names, key, k)
    decreases |names|
  {
    if names != [] {
      var p := names[..|names| - 1];
      GroupMembers(p, key);
      var g' := GroupBy(names, key);
      forall k | k in g'.members ensures g'.members[k] == MembersOf(names, key, k) {
        if k !in GroupBy(p, key).members {
          NewKeyNoMembers(p, key, k);
        }
        GroupMemberStep(names, key, k);
      }
    }
  }

  /** A key without a group has no members yet. */
  lemma NewKeyNoMembers(names: seq<string>, key: string -> Option<string>, k: string)
    requires k !in GroupBy(names, key).members
    ensures MembersOf(names, key, k) == []
  {
    GroupKeysOccur(names, key);
  }

  /** The step of GroupMembers for one key. */
  lemma GroupMemberStep(names: seq<string>, key: string -> Option<string>, k: string)
    requires names != [] && k in GroupBy(names, key).members
    requires var g := GroupBy(names[..|names| - 1], key);
             if k in g.members then g.members[k] == MembersOf(names[..|names| - 1], key, k)
             else MembersOf(names[..|names| - 1], key, k) == []
    ensures GroupBy(names, key).members[k] == MembersOf(names, key, k)
  {
  }

  /** Each keyed name lands in exactly the group of its key; others in none. */
  lemma EachNameInOneGroup(names: seq<string>, key: string -> Option<string>, x: string)
    requires x in names
    ensures var g := GroupBy(names, key);
            forall k :: k in g.members ==> (x in g.members[k] <==> key(x) == Some(k))
    ensures key(x).Some? ==> key(x).value in GroupBy(names, key).members
  {
    GroupMembers(names, key);
    GroupKeysOccur(names, key);
    var i :| 0 <= i < |names| && names[i] == x;
  }

  /** The fragment files of a listing, grouped by their key. */
  function GroupAll(names: seq<string>): Groups {
    GroupBy(names, MatchKey)
  }

  /** The grouping loop of `batch_process_masks`. */
  method GroupFragmentFiles(names: seq<string>) returns (order: seq<string>, members: map<string, seq<string>>)
    ensures Groups(order, members) == GroupAll(names)
  {
    order, members := [], map[];
    var i := 0;
    while i < |names|
      invariant 0 <= i <= |names|
      invariant Groups(order, members) == GroupBy(names[..i], MatchKey)
    {
      var filename := names[i];
      ghost var g := GroupBy(names[..i], MatchKey);
      assert names[..i + 1][..i] == names[..i] && names[..i + 1][i] == filename;
      assert GroupBy(names[..i + 1], MatchKey) == GroupStep(g, filename, MatchKey(filename));
      if EndsWith(filename, ".npy") {
        var parsed := ParseFragmentName(filename);
        if parsed.Some? {
          var key := GroupKey(parsed.value);
          assert MatchKey(filename) == Some(key);
          if key in members {
            members := members[key := members[key] + [filename]];
          } else {
            order := order + [key];
            members := members[key := [filename]];
          }
        }
      }
      i := i + 1;
    }
    assert names[..|names|] == names;
  }

  /** Every key of the grouping is one whose second '-'-part exists. */
  lemma GroupKeysNamed(names: seq<string>)
    ensures KeysNamed(GroupAll(names).order)
  {
    var g := GroupAll(names);
    GroupKeysOccur(names, MatchKey);
    GroupOrderListsKeys(names, MatchKey);
    forall i | 0 <= i < |g.order| ensures |Split(g.order[i], '-')| >= 2 {
      assert g.order[i] in g.members;
      var j :| 0 <= j < |names| && MatchKey(names[j]) == Some(g.order[i]);
      KeyOfMatch(names[j]);
    }
  }

  // ---------------------------------------------------------------------
  // The batch

  /** What the batch leaves behind: the masks written, by file name; the count
      of groups saved; and whether a zero-size mask aborted the run. */
  datatype BatchResult = BatchResult(written: map<string, Matrix>, processed: nat, aborted: bool)

  ghost predicate KeysNamed(keys: seq<string>) {
    forall i :: 0 <= i < |keys| ==> |Split(keys[i], '-')| >= 2
  }

  /** The batch after groups with these keys have produced these outcomes, in order:
      a saved composite is written under the group's output name and counted, a
      zero-size one aborts the run, the others are skipped. */
  function RunOutcomes(keys: seq<string>, outcomes: seq<CompositeOutcome>): BatchResult
    requires |keys| == |outcomes| && KeysNamed(keys)
    decreases |keys|
  {
    if keys == [] then BatchResult(map[], 0, false)
    else RunStep(RunOutcomes(keys[..|keys| - 1], outcomes[..|keys| - 1]), keys[|keys| - 1], outcomes[|keys| - 1])
  }

  /** One step of the batch loop: the group with key k produced o. */
  function RunStep(b: BatchResult, k: string, o: CompositeOutcome): BatchResult
    requires |Split(k, '-')| >= 2
  {
    if b.aborted then b
    else
      match o
      case Saved(mask) => BatchResult(b.written[OutputName(k) := mask], b.processed + 1, false)
      case ZeroSizeError => BatchResult(b.written, b.processed, true)
      case _ => b
  }

  /** The run aborts exactly when some group's composite has zero size. */
  lemma {:induction false} RunAbortsOnZeroSize(keys: seq<string>, outcomes: seq<CompositeOutcome>)
    requires |keys| == |outcomes| && KeysNamed(keys)
    ensures RunOutcomes(keys, outcomes).aborted <==> exists i :: 0 <= i < |outcomes| && outcomes[i].ZeroSizeError?
    decreases |keys|
  {
    if keys != [] {
      var m := |keys| - 1;
      assert forall i :: 0 <= i < m ==> outcomes[..m][i] == outcomes[i];
      RunAbortsOnZeroSize(keys[..m], outcomes[..m]);
    }
  }

  /** Indices of the groups whose composite was saved. */
  function SavedAt(outcomes: seq<CompositeOutcome>): set<nat> {
    set i: nat | i < |outcomes| && outcomes[i].Saved?
  }

  /** Without an aborting group, every saved group's output is written. */
  lemma {:induction false} RunWritesEverySaved(keys: seq<string>, outcomes: seq<CompositeOutcome>)
    requires |keys| == |outcomes| && KeysNamed(keys)
    requires forall i :: 0 <= i < |outcomes| ==> !outcomes[i].ZeroSizeError?
    ensures forall i :: 0 <= i < |keys| && outcomes[i].Saved? ==> OutputName(keys[i]) in RunOutcomes(keys, outcomes).written
    decreases |keys|
  {
    if keys != [] {
      var m := |keys| - 1;
      assert forall i :: 0 <= i < m ==> keys[..m][i] == keys[i] && outcomes[..m][i] == outcomes[i];
      RunWritesEverySaved(keys[..m], outcomes[..m]);
      RunAbortsOnZeroSize(keys[..m], outcomes[..m]);
    }
  }

  /** Group i is the last saved group whose output name is name. */
  ghost predicate LastSavedAt(keys: seq<string>, outcomes: seq<CompositeOutcome>, name: string, i: int)
    requires |keys| == |outcomes| && KeysNamed(keys)
  {
    && 0 <= i < |keys| && OutputName(keys[i]) == name && outcomes[i].Saved?
    && forall j :: i < j < |keys| && OutputName(keys[j]) == name ==> !outcomes[j].Saved?
  }

  /** Without an aborting group, each written file holds the mask of the last
      saved group with that output name: a later group overwrites an earlier one. */
  lemma {:induction false} RunWritesOnlySaved(keys: seq<string>, outcomes: seq<CompositeOutcome>)
    requires |keys| == |outcomes| && KeysNamed(keys)
    requires forall i :: 0 <= i < |outcomes| ==> !outcomes[i].ZeroSizeError?
    ensures var b := RunOutcomes(keys, outcomes);
            forall name :: name in b.written ==>
              exists i :: LastSavedAt(keys, outcomes, name, i) && outcomes[i] == Saved(b.written[name])
    decreases |keys|
  {
    if keys != [] {
      var m := |keys| - 1;
      var ks, os := keys[..m], outcomes[..m];
      assert forall i :: 0 <= i < m ==> ks[i] == keys[i] && os[i] == outcomes[i];
      RunWritesOnlySaved(ks, os);
      RunAbortsOnZeroSize(ks, os);
      forall name | name in RunOutcomes(keys, outcomes).written
        ensures exists i :: LastSavedAt(keys, outcomes, name, i)
                  && outcomes[i] == Saved(RunOutcomes(keys, outcomes).written[name])
      {
        var b0 := RunOutcomes(ks, os);
        assert RunOutcomes(keys, outcomes) == RunStep(b0, keys[m], outcomes[m]);
        if outcomes[m].Saved? && OutputName(keys[m]) == name {
          assert LastSavedAt(keys, outcomes, name, m);
        } else {
          var i :| LastSavedAt(ks, os, name, i) && os[i] == Saved(b0.written[name]);
          KeepsLastSaved(keys, outcomes, name, i);
        }
      }
    }
  }

  /** A group that is not saved under name leaves the last one saved under it last. */
  lemma KeepsLastSaved(keys: seq<string>, outcomes: seq<CompositeOutcome>, name: string, i: int)
    requires |keys| == |outcomes| > 0 && KeysNamed(keys)
    requires var m := |keys| - 1; KeysNamed(keys[..m]) && LastSavedAt(keys[..m], outcomes[..m], name, i)
    requires !(outcomes[|keys| - 1].Saved? && OutputName(keys[|keys| - 1]) == name)
    ensures LastSavedAt(keys, outcomes, name, i)
  {
    var m := |keys| - 1;
    assert forall j :: 0 <= j < m ==> keys[..m][j] == keys[j] && outcomes[..m][j] == outcomes[j];
  }

  /** Without an aborting group, the count is the number of saved groups. */
  lemma {:induction false} RunCountsSaved(keys: seq<string>, outcomes: seq<CompositeOutcome>)
    requires |keys| == |outcomes| && KeysNamed(keys)
    requires forall i :: 0 <= i < |outcomes| ==> !outcomes[i].ZeroSizeError?
    ensures RunOutcomes(keys, outcomes).processed == |SavedAt(outcomes)|
    decreases |keys|
  {
    if keys != [] {
      var m := |keys| - 1;
      NoZeroSizePrefix(keys, outcomes);
      RunCountsSaved(keys[..m], outcomes[..m]);
      RunAbortsOnZeroSize(keys[..m], outcomes[..m]);
      SavedAtStep(outcomes);
    }
  }

  /** The conditions of RunCountsSaved hold of every prefix. */
  lemma NoZeroSizePrefix(keys: seq<string>, outcomes: seq<CompositeOutcome>)
    requires |keys| == |outcomes| > 0 && KeysNamed(keys)
    requires forall i :: 0 <= i < |outcomes| ==> !outcomes[i].ZeroSizeError?
    ensures KeysNamed(keys[..|keys| - 1])
    ensures var init := outcomes[..|keys| - 1]; forall i :: 0 <= i < |init| ==> !init[i].ZeroSizeError?
  {
    var m := |keys| - 1;
    assert forall i :: 0 <= i < m ==> outcomes[..m][i] == outcomes[i] && keys[..m][i] == keys[i];
  }

  /** One more outcome adds its index to the saved ones exactly when it was saved. */
  lemma SavedAtStep(outcomes: seq<CompositeOutcome>)
    requires outcomes != []
    ensures |SavedAt(outcomes)| ==
              |SavedAt(outcomes[..|outcomes| - 1])| + if outcomes[|outcomes| - 1].Saved? then 1 else 0
  {
    var m := |outcomes| - 1;
    var last: set<nat> := if outcomes[m].Saved? then {m} else {};
    forall i: nat ensures i in SavedAt(outcomes) <==> i in SavedAt(outcomes[..m]) + last {
      if i < m {
        assert outcomes[..m][i] == outcomes[i];
      }
    }
    assert SavedAt(outcomes) == SavedAt(outcomes[..m]) + last;
  }

  /** Once the run has aborted, later groups change nothing. */
  lemma {:induction false} RunStaysAborted(keys: seq<string>, outcomes: seq<CompositeOutcome>, n: nat)
    requires |keys| == |outcomes| && KeysNamed(keys) && n <= |keys|
    requires RunOutcomes(keys[..n], outcomes[..n]).aborted
    ensures RunOutcomes(keys, outcomes) == RunOutcomes(keys[..n], outcomes[..n])
    decreases |keys| - n
  {
    if n < |keys| {
      assert keys[..n + 1][..n] == keys[..n];
      assert outcomes[..n + 1][..n] == outcomes[..n];
      RunStaysAborted(keys, outcomes, n + 1);
    } else {
      assert keys[..n] == keys && outcomes[..n] == outcomes;
    }
  }

  /** Two groups of one task (another annotation, annotator or label) have the
      same output name, so the later group's mask replaces the earlier one. */
  lemma SameTaskSameOutput(a: FragmentName, b: FragmentName)
    requires ValidName(a) && ValidName(b) && a.task == b.task
    ensures |Split(GroupKey(a), '-')| >= 2 && |Split(GroupKey(b), '-')| >= 2
    ensures OutputName(GroupKey(a)) == OutputName(GroupKey(b))
  {
    TaskIdOfGroupKey(a);
    TaskIdOfGroupKey(b);
  }

  function Loaded(files: seq<string>, load: string -> Fragment): (fs: seq<Fragment>)
    ensures |fs| == |files| && forall i :: 0 <= i < |files| ==> fs[i] == load(files[i])
  {
    seq(|files|, i requires 0 <= i < |files| => load(files[i]))
  }

  /** The files of group k; none when there is no such group. */
  function GroupFiles(g: Groups, k: string): seq<string> {
    if k in g.members then g.members[k] else []
  }

  /** The composite of each group, in group order. */
  function GroupOutcomes(g: Groups, load: string -> Fragment): (os: seq<CompositeOutcome>)
    ensures |os| == |g.order|
    ensures forall i :: 0 <= i < |g.order| ==> os[i] == CompositeMask(Loaded(GroupFiles(g, g.order[i]), load))
  {
    seq(|g.order|, i requires 0 <= i < |g.order| => CompositeMask(Loaded(GroupFiles(g, g.order[i]), load)))
  }

  /** The batch after one more group is the batch loop's step from the batch before it. */
  lemma RunPrefixStep(keys: seq<string>, outcomes: seq<CompositeOutcome>, i: nat)
    requires |keys| == |outcomes| && KeysNamed(keys) && i < |keys|
    ensures RunOutcomes(keys[..i + 1], outcomes[..i + 1]) == RunStep(RunOutcomes(keys[..i], outcomes[..i]), keys[i], outcomes[i])
  {
    assert keys[..i + 1][..i] == keys[..i] && outcomes[..i + 1][..i] == outcomes[..i];
  }

  /** The batch loop's step past a group whose composite has a size: a saved
      composite is written and counted, any other outcome changes nothing. */
  lemma RunAdvance(keys: seq<string>, outcomes: seq<CompositeOutcome>, i: nat, written: map<string, Matrix>, processed: nat)
    requires |keys| == |outcomes| && KeysNamed(keys) && i < |keys| && !outcomes[i].ZeroSizeError?
    requires RunOutcomes(keys[..i], outcomes[..i]) == BatchResult(written, processed, false)
    ensures RunOutcomes(keys[..i + 1], outcomes[..i + 1]) ==
              if outcomes[i].Saved? then BatchResult(written[OutputName(keys[i]) := outcomes[i].mask], processed + 1, false)
              else BatchResult(written, processed, false)
  {
    RunPrefixStep(keys, outcomes, i);
  }

  /** `batch_process_masks` after the input directory has been listed: group the
      files, then build each group's composite and write it as `<task_id>.png`,
      stopping at a zero-size composite. An empty grouping writes nothing. */
  method BatchProcess(names: seq<string>, load: string -> Fragment) returns (result: BatchResult)
    ensures GroupAll(names).order == [] ==> result == BatchResult(map[], 0, false)
    ensures KeysNamed(GroupAll(names).order)
    ensures result == RunOutcomes(GroupAll(names).order, GroupOutcomes(GroupAll(names), load))
  {
    var order, members := GroupFragmentFiles(names);
    GroupKeysNamed(names);
    result := RunGroups(order, members, load, GroupOutcomes(GroupAll(names), load));
  }

  /** The composite of the group at position i. */
  method ComposeAt(order: seq<string>, members: map<string, seq<string>>, load: string -> Fragment,
                   ghost outs: seq<CompositeOutcome>, i: nat) returns (outcome: CompositeOutcome)
    requires |outs| == |order| && i < |order|
    requires forall j {:trigger Composed(order, members, load, j)} :: 0 <= j < |order| ==> outs[j] == Composed(order, members, load, j)
    ensures outcome == outs[i]
  {
    var files := if order[i] in members then members[order[i]] else [];
    outcome := GenerateCompositeMask(Loaded(files, load));
    assert outcome == Composed(order, members, load, i);
  }

  /** The composite of the files of the group at position j. */
  ghost function Composed(order: seq<string>, members: map<string, seq<string>>, load: string -> Fragment, j: int): CompositeOutcome
    requires 0 <= j < |order|
  {
    CompositeMask(Loaded(GroupFiles(Groups(order, members), order[j]), load))
  }

  /** The loop of `batch_process_masks` over the groups, in order. */
  method RunGroups(order: seq<string>, members: map<string, seq<string>>, load: string -> Fragment,
                   ghost outs: seq<CompositeOutcome>) returns (result: BatchResult)
    requires KeysNamed(order) && |outs| == |order|
    requires forall j {:trigger Composed(order, members, load, j)} :: 0 <= j < |order| ==> outs[j] == Composed(order, members, load, j)
    ensures result == RunOutcomes(order, outs)
  {
    var written: map<string, Matrix> := map[];
    var processed := 0;
    var i := 0;
    while i < |order|
      invariant 0 <= i <= |order|
      invariant RunOutcomes(order[..i], outs[..i]) == BatchResult(written, processed, false)
    {
      var outcome := ComposeAt(order, members, load, outs, i);
      if outcome.ZeroSizeError? {
        RunPrefixStep(order, outs, i);
        RunStaysAborted(order, outs, i + 1);
        return BatchResult(written, processed, true);
      }
      RunAdvance(order, outs, i, written, processed);
      if outcome.Saved? {
        written := written[OutputName(order[i]) := outcome.mask];
        processed := processed + 1;
      }
      i := i + 1;
    }
    assert order[..|order|] == order && outs[..|order|] == outs;
    result := BatchResult(written, processed, false);
  }
}
