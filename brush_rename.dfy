/** Renaming the composite masks from `<task_id>.png` to the name of the image
    the task was made for (`get_filename_mapping` and `rename_masks` in
    magicwand-coco-brush-to-png-masks/script.py). The decoded export and the
    directory are inputs; a directory is a map from file name to contents. */
module BrushRename {
  import opened Text

  // ---------------------------------------------------------------------
  // The task id to image name mapping

  /** The `id` of an exported task as decoded JSON: absent or null, an integer,
      or a string. */
  datatype IdValue = NoId | IntId(n: int) | StrId(s: string)

  /** A decoded task: its id and its `image` entry, where "" stands for an empty,
      absent or null entry alike (all are false in the script's test). */
  datatype Task = Task(id: IdValue, image: string)

  function DigitChar(d: nat): char
    requires d < 10
  {
    "0123456789"[d]
  }

  /** The decimal digits of n, without leading zeros. */
  function Digits(n: nat): (s: string)
    ensures s != [] && (forall i :: 0 <= i < |s| ==> '0' <= s[i] <= '9')
    ensures |s| > 1 ==> s[0] != '0'
    decreases n
  {
    if n < 10 then [DigitChar(n)]
    else
      var p := Digits(n / 10);
      assert (p + [DigitChar(n % 10)])[0] == p[0];
      p + [DigitChar(n % 10)]
  }

  /** `str(task.get("id"))` */
  function IdText(id: IdValue): string {
    match id
    case NoId => "None"
    case IntId(n) => if n < 0 then "-" + Digits(-n) else Digits(n)
    case StrId(s) => s
  }

  /** Only an empty string id is false; an absent id becomes the key "None". */
  lemma IdTextEmpty(id: IdValue)
    ensures IdText(id) == [] <==> id == StrId([])
  {
  }

  /** The task contributes an entry: `if task_id and image_path`. */
  predicate Kept(t: Task) {
    IdText(t.id) != [] && t.image != []
  }

  /** The mapping after the loop has seen tasks: later tasks overwrite earlier ones. */
  function MappingOf(tasks: seq<Task>): map<string, string>
    decreases |tasks|
  {
    if tasks == [] then map[]
    else
      var m := MappingOf(tasks[..|tasks| - 1]);
      var t := tasks[|tasks| - 1];
      if Kept(t) then m[IdText(t.id) := Basename(t.image)] else m
  }

  /** The keys are the ids of the kept tasks. */
  lemma {:induction false} MappingKeys(tasks: seq<Task>)
    ensures forall k :: k in MappingOf(tasks) <==>
              exists i :: 0 <= i < |tasks| && Kept(tasks[i]) && IdText(tasks[i].id) == k
    decreases |tasks|
  {
    if tasks != [] {
      var p := tasks[..|tasks| - 1];
      MappingKeys(p);
      assert forall i :: 0 <= i < |p| ==> tasks[i] == p[i];
    }
  }

  /** A key maps to the basename of the image of the last kept task with that id. */
  lemma {:induction false} MappingLastWins(tasks: seq<Task>, i: nat)
    requires i < |tasks| && Kept(tasks[i])
    requires forall j :: i < j < |tasks| && Kept(tasks[j]) ==> IdText(tasks[j].id) != IdText(tasks[i].id)
    ensures IdText(tasks[i].id) in MappingOf(tasks)
    ensures MappingOf(tasks)[IdText(tasks[i].id)] == Basename(tasks[i].image)
    decreases |tasks|
  {
    var p, t := tasks[..|tasks| - 1], tasks[|tasks| - 1];
    var k := IdText(tasks[i].id);
    if i < |tasks| - 1 {
      assert forall j :: 0 <= j < |p| ==> tasks[j] == p[j];
      MappingLastWins(p, i);
      assert !Kept(t) || IdText(t.id) != k;
      assert MappingOf(tasks)[k] == MappingOf(p)[k];
    }
  }

  /** Every value is a bare file name, so the new name stays in the mask directory. */
  lemma {:induction false} MappingValuesAreNames(tasks: seq<Task>)
    ensures forall k :: k in MappingOf(tasks) ==> '/' !in MappingOf(tasks)[k]
    decreases |tasks|
  {
    if tasks != [] {
      MappingValuesAreNames(tasks[..|tasks| - 1]);
    }
  }

  /** A task exported without an id still contributes, under the key "None". */
  lemma TaskWithoutId()
    ensures MappingOf([Task(NoId, "a.jpg")]) == map["None" := "a.jpg"]
  {
    BasenameWithoutSlash("a.jpg");
    var t := [Task(NoId, "a.jpg")];
    assert Kept(t[0]) && IdText(t[0].id) == "None";
    assert t[..0] == [];
  }

  /** The mapping loop of `get_filename_mapping`, after the export is decoded. */
  method GetFilenameMapping(tasks: seq<Task>) returns (mapping: map<string, string>)
    ensures mapping == MappingOf(tasks)
  {
    mapping := map[];
    var i := 0;
    while i < |tasks|
      invariant 0 <= i <= |tasks|
      invariant mapping == MappingOf(tasks[..i])
    {
      var task := tasks[i];
      assert tasks[..i + 1][..i] == tasks[..i];
      var taskId := IdText(task.id);
      var imagePath := task.image;
      if taskId != [] && imagePath != [] {
        var filename := Basename(imagePath);
        mapping := mapping[taskId := filename];
      }
      i := i + 1;
    }
    assert tasks[..|tasks|] == tasks;
  }

  // ---------------------------------------------------------------------
  // Renaming

  /** The name a listed file is to be renamed to, if any: a ".png" file whose
      root is a mapping key, unless the new name is its current name. */
  function Target(filename: string, mapping: map<string, string>): (t: Option<string>)
    ensures t.Some? ==> t.value != filename && EndsWith(t.value, ".png")
    ensures t.Some? <==> EndsWith(filename, ".png") && SplitExtRoot(filename) in mapping &&
                         mapping[SplitExtRoot(filename)] + ".png" != filename
  {
    if !EndsWith(filename, ".png") then None
    else
      var stem := SplitExtRoot(filename);
      if stem !in mapping then None
      else
        var newName := mapping[stem] + ".png";
        assert newName[|newName| - 4..] == ".png";
        if newName == filename then None else Some(newName)
  }

  /** The digit names the batch writes are found under their task id. */
  lemma TaskIdIsStem(id: string)
    requires id != [] && forall i :: 0 <= i < |id| ==> '0' <= id[i] <= '9'
    ensures EndsWith(id + ".png", ".png") && SplitExtRoot(id + ".png") == id
  {
    var name := id + ".png";
    assert name[|name| - 4..] == ".png";
    RootOfPngName(name);
    assert name[..|name| - 4] == id;
    assert !AllDots(id) by {
      assert id[0] != '.';
    }
  }

  datatype RenameState<C> = RenameState(dir: map<string, C>, renamed: nat)

  /** One iteration: rename within the directory (a file already at the target
      name is replaced), counting it; a source that is gone fails the rename,
      which the script reports and does not count. */
  function RenameStep<C>(st: RenameState<C>, filename: string, mapping: map<string, string>): RenameState<C> {
    match Target(filename, mapping)
    case None => st
    case Some(t) =>
      if filename in st.dir then RenameState((st.dir - {filename})[t := st.dir[filename]], st.renamed + 1)
      else st
  }

  /** The directory and the count after the loop has seen listing. */
  function RenameAll<C>(dir: map<string, C>, listing: seq<string>, mapping: map<string, string>): RenameState<C>
    decreases |listing|
  {
    if listing == [] then RenameState(dir, 0)
    else RenameStep(RenameAll(dir, listing[..|listing| - 1], mapping), listing[|listing| - 1], mapping)
  }

  /** `rename_masks` over a directory that exists, given its listing. */
  method RenameMasks<C>(dir: map<string, C>, listing: seq<string>, mapping: map<string, string>)
    returns (newDir: map<string, C>, renamed: nat)
    ensures RenameState(newDir, renamed) == RenameAll(dir, listing, mapping)
  {
    newDir, renamed := dir, 0;
    var i := 0;
    while i < |listing|
      invariant 0 <= i <= |listing|
      invariant RenameState(newDir, renamed) == RenameAll(dir, listing[..i], mapping)
    {
      var filename := listing[i];
      assert listing[..i + 1][..i] == listing[..i];
      if EndsWith(filename, ".png") {
        var taskId := SplitExtRoot(filename);
        if taskId in mapping {
          var newFilename := mapping[taskId] + ".png";
          if filename != newFilename && filename in newDir {
            var contents := newDir[filename];
            newDir := (newDir - {filename})[newFilename := contents];
            renamed := renamed + 1;
          }
        }
      }
      i := i + 1;
    }
    assert listing[..|listing|] == listing;
  }

  /** A listed name is still there when its turn comes, as long as the listing
      names files of the directory once each. */
  lemma {:induction false} SourcesStayUntilTheirTurn<C>(dir: map<string, C>, listing: seq<string>,
                                                       mapping: map<string, string>, i: nat)
    requires Distinct(listing) && (forall j :: 0 <= j < |listing| ==> listing[j] in dir)
    requires i <= |listing|
    ensures forall j :: i <= j < |listing| ==> listing[j] in RenameAll(dir, listing[..i], mapping).dir
    decreases i
  {
    if i > 0 {
      SourcesStayUntilTheirTurn(dir, listing, mapping, i - 1);
      assert listing[..i][..i - 1] == listing[..i - 1];
    }
  }

  /** How many listed files have a target. */
  function PlannedCount(listing: seq<string>, mapping: map<string, string>): (n: nat)
    ensures n <= |listing|
    decreases |listing|
  {
    if listing == [] then 0
    else
      PlannedCount(listing[..|listing| - 1], mapping) +
        (if Target(listing[|listing| - 1], mapping).Some? then 1 else 0)
  }

  /** Every planned rename of a listing of the directory succeeds: the count is
      the number of listed files with a target. */
  lemma {:induction false} EveryPlannedRenameCounts<C>(dir: map<string, C>, listing: seq<string>,
                                                      mapping: map<string, string>, i: nat)
    requires Distinct(listing) && (forall j :: 0 <= j < |listing| ==> listing[j] in dir)
    requires i <= |listing|
    ensures RenameAll(dir, listing[..i], mapping).renamed == PlannedCount(listing[..i], mapping)
    decreases i
  {
    if i > 0 {
      EveryPlannedRenameCounts(dir, listing, mapping, i - 1);
      SourcesStayUntilTheirTurn(dir, listing, mapping, i - 1);
      assert listing[..i][..i - 1] == listing[..i - 1];
    }
  }

  /** Is n the source or the target of a rename planned for listing? */
  predicate Touched(n: string, listing: seq<string>, mapping: map<string, string>) {
    exists j :: 0 <= j < |listing| && Target(listing[j], mapping).Some? &&
                (listing[j] == n || Target(listing[j], mapping).value == n)
  }

  /** Files no planned rename touches (non-".png" files, roots without a
      mapping entry, names already right) keep their name and contents, and no
      other name appears. */
  lemma {:induction false} UntouchedUnchanged<C>(dir: map<string, C>, listing: seq<string>,
                                                mapping: map<string, string>, n: string)
    requires !Touched(n, listing, mapping)
    ensures n in RenameAll(dir, listing, mapping).dir <==> n in dir
    ensures n in dir ==> RenameAll(dir, listing, mapping).dir[n] == dir[n]
    decreases |listing|
  {
    if listing != [] {
      var p := listing[..|listing| - 1];
      assert forall j :: 0 <= j < |p| ==> p[j] == listing[j];
      UntouchedUnchanged(dir, p, mapping, n);
      var last := |listing| - 1;
      assert !(Target(listing[last], mapping).Some? &&
               (listing[last] == n || Target(listing[last], mapping).value == n));
    }
  }

  /** A planned target that no planned rename uses as its source is present at
      the end. */
  lemma {:induction false} TargetsArePresent<C>(dir: map<string, C>, listing: seq<string>,
                                               mapping: map<string, string>, i: nat)
    requires Distinct(listing) && (forall j :: 0 <= j < |listing| ==> listing[j] in dir)
    requires i < |listing| && Target(listing[i], mapping).Some?
    requires forall j :: 0 <= j < |listing| && Target(listing[j], mapping).Some? ==>
               listing[j] != Target(listing[i], mapping).value
    ensures Target(listing[i], mapping).value in RenameAll(dir, listing, mapping).dir
  {
    var t := Target(listing[i], mapping).value;
    SourcesStayUntilTheirTurn(dir, listing, mapping, i);
    assert listing[..i + 1][..i] == listing[..i];
    assert t in RenameAll(dir, listing[..i + 1], mapping).dir;
    StaysPresent(dir, listing, mapping, t, i + 1);
    assert listing[..|listing|] == listing;
  }

  lemma {:induction false} StaysPresent<C>(dir: map<string, C>, listing: seq<string>,
                                          mapping: map<string, string>, t: string, i: nat)
    requires i <= |listing|
    requires forall j :: 0 <= j < |listing| && Target(listing[j], mapping).Some? ==> listing[j] != t
    requires t in RenameAll(dir, listing[..i], mapping).dir
    ensures t in RenameAll(dir, listing, mapping).dir
    decreases |listing| - i
  {
    if i < |listing| {
      assert listing[..i + 1][..i] == listing[..i];
      StaysPresent(dir, listing, mapping, t, i + 1);
    } else {
      assert listing[..i] == listing;
    }
  }

  /** The target of the last rename planned to it holds what that rename's source
      held in the directory at the start, when the source is no planned target
      and the target is no planned source: every later rename leaves it alone. */
  lemma TargetsHoldContents<C>(dir: map<string, C>, listing: seq<string>,
                               mapping: map<string, string>, i: nat)
    requires Distinct(listing) && (forall j :: 0 <= j < |listing| ==> listing[j] in dir)
    requires i < |listing| && Target(listing[i], mapping).Some?
    requires forall j :: 0 <= j < |listing| && Target(listing[j], mapping).Some? ==>
               listing[j] != Target(listing[i], mapping).value && Target(listing[j], mapping).value != listing[i]
    requires forall j :: i < j < |listing| && Target(listing[j], mapping).Some? ==>
               Target(listing[j], mapping).value != Target(listing[i], mapping).value
    ensures var t := Target(listing[i], mapping).value;
            t in RenameAll(dir, listing, mapping).dir && RenameAll(dir, listing, mapping).dir[t] == dir[listing[i]]
  {
    var t := Target(listing[i], mapping).value;
    var p := listing[..i];
    SourcesStayUntilTheirTurn(dir, listing, mapping, i);
    assert forall j :: 0 <= j < |p| ==> p[j] == listing[j];
    assert !Touched(listing[i], p, mapping);
    UntouchedUnchanged(dir, p, mapping, listing[i]);
    RenameMovesContents(RenameAll(dir, p, mapping), listing[i], mapping);
    assert listing[..i + 1][..i] == p;
    KeepsContents(dir, listing, mapping, t, dir[listing[i]], i + 1);
  }

  /** Renames from i on that neither come from nor go to t leave t's contents. */
  lemma {:induction false} KeepsContents<C>(dir: map<string, C>, listing: seq<string>,
                                           mapping: map<string, string>, t: string, c: C, i: nat)
    requires i <= |listing|
    requires forall j :: i <= j < |listing| && Target(listing[j], mapping).Some? ==>
               listing[j] != t && Target(listing[j], mapping).value != t
    requires t in RenameAll(dir, listing[..i], mapping).dir && RenameAll(dir, listing[..i], mapping).dir[t] == c
    ensures t in RenameAll(dir, listing, mapping).dir && RenameAll(dir, listing, mapping).dir[t] == c
    decreases |listing| - i
  {
    if i < |listing| {
      assert listing[..i + 1][..i] == listing[..i];
      KeepsContents(dir, listing, mapping, t, c, i + 1);
    } else {
      assert listing[..i] == listing;
    }
  }

  /** A planned source that no planned rename targets is gone at the end. */
  lemma {:induction false} SourcesAreGone<C>(dir: map<string, C>, listing: seq<string>,
                                            mapping: map<string, string>, i: nat)
    requires Distinct(listing)
    requires i < |listing| && Target(listing[i], mapping).Some?
    requires forall j :: 0 <= j < |listing| && Target(listing[j], mapping).Some? ==>
               Target(listing[j], mapping).value != listing[i]
    ensures listing[i] !in RenameAll(dir, listing, mapping).dir
  {
    assert listing[..i + 1][..i] == listing[..i];
    StaysAbsent(dir, listing, mapping, listing[i], i + 1);
    assert listing[..|listing|] == listing;
  }

  lemma {:induction false} StaysAbsent<C>(dir: map<string, C>, listing: seq<string>,
                                         mapping: map<string, string>, s: string, i: nat)
    requires i <= |listing|
    requires forall j :: 0 <= j < |listing| && Target(listing[j], mapping).Some? ==>
               Target(listing[j], mapping).value != s
    requires s !in RenameAll(dir, listing[..i], mapping).dir
    ensures s !in RenameAll(dir, listing, mapping).dir
    decreases |listing| - i
  {
    if i < |listing| {
      assert listing[..i + 1][..i] == listing[..i];
      StaysAbsent(dir, listing, mapping, s, i + 1);
    } else {
      assert listing[..i] == listing;
    }
  }

  /** A rename moves the contents of its source to its target. */
  lemma RenameMovesContents<C>(st: RenameState<C>, filename: string, mapping: map<string, string>)
    requires Target(filename, mapping).Some? && filename in st.dir
    ensures var st' := RenameStep(st, filename, mapping);
            var t := Target(filename, mapping).value;
            && filename !in st'.dir && t in st'.dir && st'.dir[t] == st.dir[filename]
            && st'.renamed == st.renamed + 1
            && forall n :: n != filename && n != t ==> (n in st'.dir <==> n in st.dir)
  {
  }
}
