/** Proportional sampling of video frames into a dataset directory and its
    division among three people (divide_images_into_subdirectories.py).
    Directory listings are inputs, already in the sorted order the script puts
    them in; a directory is the set of its file names. Arithmetic is exact. */
module Sampling {
  import opened Text

  /** The number of images to select in total. */
  const Quantity: nat := 360

  // ---------------------------------------------------------------------
  // Quotas

  /** Signs of a product with a positive factor, as implications that linear
      reasoning can use in either direction. */
  lemma MulSign(x: int, q: int)
    requires q > 0
    ensures x >= 0 ==> x * q >= 0
    ensures x >= 1 ==> x * q >= q
    ensures x <= -1 ==> x * q <= -q
  {
    if x >= 1 {
      assert x * q == (x - 1) * q + q;
    } else if x <= -1 {
      assert x * q == (x + 1) * q - q;
    }
  }
  /** Python's `round(a / b)` for a whole-number ratio: the nearest integer,
      ties to the even one. */
  function RoundDiv(a: nat, b: nat): (n: nat)
    requires b > 0
    ensures -(b as int) <= 2 * (a - n * b) <= b
    ensures (2 * (a - n * b) == b || 2 * (a - n * b) == -(b as int)) ==> n % 2 == 0
  {
    var f, r := a / b, a % b;
    assert a - f * b == r;
    if 2 * r < b then f
    else if 2 * r > b then
      assert a - (f + 1) * b == r - b;
      f + 1
    else if f % 2 == 0 then f
    else
      assert a - (f + 1) * b == r - b;
      f + 1
  }
  /** `round(QUANTITY * (q * 100 / total) / 100)`: the share of QUANTITY that a
      subdirectory of q files gets out of total files. */
  function Quota(q: nat, total: nat): nat
    requires total > 0
  {
    RoundDiv(Quantity * q, total)
  }
  /** A subdirectory holding less than half an image's share gets no image, so
      computing its stride divides by zero. */
  lemma SmallShareGetsNothing(q: nat, total: nat)
    requires total > 0 && 2 * Quantity * q < total
    ensures Quota(q, total) == 0
  {
    var n := Quota(q, total);
    MulSign(n - 1, total);
    assert (n - 1) * total == n * total - total;
  }
  /** An empty subdirectory gets no image. */
  lemma EmptyGetsNothing(total: nat)
    requires total > 0
    ensures Quota(0, total) == 0
  {
    SmallShareGetsNothing(0, total);
  }

  function Sum(qs: seq<nat>): nat
    decreases |qs|
  {
    if qs == [] then 0 else Sum(qs[..|qs| - 1]) + qs[|qs| - 1]
  }
  /** The quotas of all subdirectories added up. */
  function QuotaSum(qs: seq<nat>, total: nat): nat
    requires total > 0
    decreases |qs|
  {
    if qs == [] then 0 else QuotaSum(qs[..|qs| - 1], total) + Quota(qs[|qs| - 1], total)
  }
  lemma Distrib(x: int, y: int, t: int)
    ensures (x + y) * t == x * t + y * t
  {
  }

  /** The rounding error of each quota, in units of 1/total image. */
  function Error(q: nat, total: nat): (e: int)
    requires total > 0
    ensures -(total as int) <= 2 * e <= total
  {
    Quantity * q - Quota(q, total) * total
  }

  /** The rounding errors of all subdirectories added up. */
  function ErrorSum(qs: seq<nat>, total: nat): int
    requires total > 0
    decreases |qs|
  {
    if qs == [] then 0 else ErrorSum(qs[..|qs| - 1], total) + Error(qs[|qs| - 1], total)
  }

  /** The errors add up to the error of the sum. */
  lemma {:induction false} ErrorSumIsDifference(qs: seq<nat>, total: nat)
    requires total > 0
    ensures ErrorSum(qs, total) == Quantity * Sum(qs) - QuotaSum(qs, total) * total
    decreases |qs|
  {
    if qs != [] {
      var p := qs[..|qs| - 1];
      ErrorSumIsDifference(p, total);
      Distrib(QuotaSum(p, total), Quota(qs[|qs| - 1], total), total);
    }
  }

  /** Each error is at most half an image, in units of 1/total image. */
  lemma {:induction false} ErrorSumBound(qs: seq<nat>, total: nat)
    requires total > 0
    ensures -(|qs| * total) <= 2 * ErrorSum(qs, total) <= |qs| * total
    decreases |qs|
  {
    if qs != [] {
      var p := qs[..|qs| - 1];
      ErrorSumBound(p, total);
      Distrib(|p|, 1, total);
    }
  }

  /** x * t == 2 * (a * t) - c * t - d * t with the three parts of x. */
  lemma Expand(a: int, c: int, d: int, t: int)
    ensures (2 * a - c - d) * t == 2 * (a * t) - c * t - d * t
  {
  }

  /** Dividing the scaled bound by the positive total. */
  lemma Unscale(e: int, s: int, k: int, t: int)
    requires t > 0 && e == Quantity * t - s * t && -(k * t) <= 2 * e <= k * t
    ensures -k <= 2 * (s - Quantity) <= k
  {
    var x := 2 * s - 2 * Quantity - k;
    var y := 2 * Quantity - 2 * s - k;
    Expand(s, 2 * Quantity, k, t);
    Expand(Quantity, 2 * s, k, t);
    MulSign(x, t);
    MulSign(y, t);
  }

  /** The quotas add up to QUANTITY give or take half an image per
      subdirectory: rounding each share can select more or fewer images in
      total than asked for. */
  lemma QuotaTotalNearQuantity(qs: seq<nat>)
    requires Sum(qs) > 0
    ensures -|qs| <= 2 * (QuotaSum(qs, Sum(qs)) - Quantity) <= |qs|
  {
    var t := Sum(qs);
    ErrorSumIsDifference(qs, t);
    ErrorSumBound(qs, t);
    Unscale(ErrorSum(qs, t), QuotaSum(qs, t), |qs|, t);
  }
  /** Seven subdirectories of ten files each get 51 images apiece: 357, not 360. */
  lemma SevenEqualSubdirectories()
    ensures Quota(10, 70) == 51
    ensures QuotaSum([10, 10, 10, 10, 10, 10, 10], 70) == 357
  {
    var qs: seq<nat> := [10, 10, 10, 10, 10, 10, 10];
    assert Quota(10, 70) == 51;
    assert QuotaSum(qs[..1], 70) == 51 by { assert qs[..1][..0] == []; }
    assert QuotaSum(qs[..2], 70) == 102 by { assert qs[..2][..1] == qs[..1]; }
    assert QuotaSum(qs[..3], 70) == 153 by { assert qs[..3][..2] == qs[..2]; }
    assert QuotaSum(qs[..4], 70) == 204 by { assert qs[..4][..3] == qs[..3]; }
    assert QuotaSum(qs[..5], 70) == 255 by { assert qs[..5][..4] == qs[..4]; }
    assert QuotaSum(qs[..6], 70) == 306 by { assert qs[..6][..5] == qs[..5]; }
    assert qs[..7] == qs && qs[..7][..6] == qs[..6];
  }

  // ---------------------------------------------------------------------
  // Stride selection

  lemma DivMonotone(a: nat, b: nat, q: nat)
    requires a <= b && q > 0
    ensures a / q <= b / q
  {
    var da, db := a / q, b / q;
    assert da * q <= a;
    assert b < db * q + q;
    assert (da - db - 1) * q == da * q - db * q - q;
    MulSign(da - db - 1, q);
  }

  lemma DivBelow(a: nat, q: nat, n: nat)
    requires q > 0 && a < q * n
    ensures a / q < n
  {
    var d := a / q;
    assert d * q <= a;
    assert (d - n) * q == d * q - n * q;
    MulSign(d - n, q);
  }

  lemma DivStep(a: nat, q: nat)
    requires q > 0
    ensures (a + q) / q >= a / q + 1
  {
    var d, r := a / q, a % q;
    var e, s := (a + q) / q, (a + q) % q;
    assert a == d * q + r && a + q == e * q + s;
    assert (e - d - 1) * q == e * q - d * q - q;
    MulSign(e - d - 1, q);
  }

  /** `int(i * step)` with `step = n / q`, in exact arithmetic. */
  function StrideIndex(i: nat, n: nat, q: nat): nat
    requires q > 0
  {
    (i * n) / q
  }

  /** The indices selected from a subdirectory of n files with quota q. */
  function Stride(n: nat, q: nat): (idx: seq<nat>)
    requires q > 0
    ensures |idx| == q
    ensures forall i :: 0 <= i < q ==> idx[i] == StrideIndex(i, n, q)
  {
    seq(q, i requires 0 <= i < q => StrideIndex(i, n, q))
  }

  /** Exactly q indices, all within the files, the first one 0, in
      non-decreasing order. */
  lemma StrideBounds(n: nat, q: nat)
    requires q > 0 && n > 0
    ensures forall i :: 0 <= i < q ==> Stride(n, q)[i] < n
    ensures Stride(n, q)[0] == 0
    ensures forall i, j :: 0 <= i <= j < q ==> Stride(n, q)[i] <= Stride(n, q)[j]
  {
    forall i | 0 <= i < q ensures StrideIndex(i, n, q) < n {
      assert i * n < q * n;
      DivBelow(i * n, q, n);
    }
    forall i, j | 0 <= i <= j < q ensures StrideIndex(i, n, q) <= StrideIndex(j, n, q) {
      assert i * n <= j * n;
      DivMonotone(i * n, j * n, q);
    }
  }

  lemma StrideStep(i: nat, j: nat, n: nat, q: nat)
    requires i < j && 0 < q <= n
    ensures (i * n) / q < (j * n) / q
  {
    MulSign(j - i, n);
    Distrib(i, j - i, n);
    DivMonotone(i * n + q, j * n, q);
    DivStep(i * n, q);
  }

  /** With no more images to select than files, no file is picked twice. */
  lemma StrideDistinct(n: nat, q: nat)
    requires 0 < q <= n
    ensures forall i, j :: 0 <= i < j < q ==> Stride(n, q)[i] < Stride(n, q)[j]
  {
    forall i, j | 0 <= i < j < q ensures StrideIndex(i, n, q) < StrideIndex(j, n, q) {
      StrideStep(i, j, n, q);
    }
  }

  /** With more images to select than files, some file is picked twice (by
      pigeonhole; here for two images from one file). */
  lemma StrideRepeats()
    ensures Stride(1, 2) == [0, 0]
  {
  }

  // ---------------------------------------------------------------------
  // Copying the selection

  /** The names in s. */
  function Elements(s: seq<string>): set<string> {
    set i | 0 <= i < |s| :: s[i]
  }

  /** A source subdirectory: its name and its sorted file names. */
  datatype Subdir = Subdir(name: string, files: seq<string>)

  /** `f"video{subdir}-{img}"` */
  function CopyName(subdir: string, img: string): string {
    "video" + subdir + "-" + img
  }

  function Counts(subdirs: seq<Subdir>): (qs: seq<nat>)
    ensures |qs| == |subdirs| && forall i :: 0 <= i < |subdirs| ==> qs[i] == |subdirs[i].files|
  {
    seq(|subdirs|, i requires 0 <= i < |subdirs| => |subdirs[i].files|)
  }

  /** A positive quota means the subdirectory has files. */
  lemma QuotaNeedsFiles(s: Subdir, total: nat)
    requires total > 0 && Quota(|s.files|, total) > 0
    ensures |s.files| > 0
  {
    if |s.files| == 0 { EmptyGetsNothing(total); }
  }

  /** The copies of the files the stride picks, named after the subdirectory. */
  function Picked(s: Subdir, q: nat): (names: seq<string>)
    requires q > 0 && |s.files| > 0
    ensures |names| == q
    ensures forall i :: 0 <= i < q ==> Stride(|s.files|, q)[i] < |s.files| &&
                                       names[i] == CopyName(s.name, s.files[Stride(|s.files|, q)[i]])
  {
    StrideBounds(|s.files|, q);
    seq(q, i requires 0 <= i < q => CopyName(s.name, s.files[Stride(|s.files|, q)[i]]))
  }

  /** The names one subdirectory contributes, or None when its quota is zero
      and the stride computation divides by zero. */
  function Selection(s: Subdir, total: nat): Option<seq<string>>
    requires total > 0
  {
    var q := Quota(|s.files|, total);
    if q == 0 then None
    else
      QuotaNeedsFiles(s, total);
      Some(Picked(s, q))
  }

  /** The destination after copying from subdirs into the emptied destination,
      or None when the run stops with a division by zero. */
  function CopyAll(subdirs: seq<Subdir>, total: nat): Option<set<string>>
    requires total > 0
    decreases |subdirs|
  {
    if subdirs == [] then Some({})
    else
      match CopyAll(subdirs[..|subdirs| - 1], total)
      case None => None
      case Some(d) =>
        match Selection(subdirs[|subdirs| - 1], total)
        case None => None
        case Some(names) => Some(d + Elements(names))
  }

  /** The proportions and the copy loop, into the freshly emptied destination.
      None: the run stops with a division by zero, which happens when there
      are subdirectories but no files at all, or when some quota is zero. */
  method CopySelection(subdirs: seq<Subdir>) returns (dest: Option<set<string>>)
    ensures subdirs != [] && Sum(Counts(subdirs)) == 0 ==> dest.None?
    ensures subdirs == [] ==> dest == Some({})
    ensures Sum(Counts(subdirs)) > 0 ==> dest == CopyAll(subdirs, Sum(Counts(subdirs)))
  {
    if subdirs == [] {
      return Some({});
    }
    var total := TotalFiles(subdirs);
    if total == 0 {
      return None;
    }
    dest := CopyEach(subdirs, total);
  }

  /** The first loop of the selection: the number of files over all subdirectories. */
  method TotalFiles(subdirs: seq<Subdir>) returns (total: nat)
    ensures total == Sum(Counts(subdirs))
  {
    total := 0;
    var k := 0;
    while k < |subdirs|
      invariant 0 <= k <= |subdirs|
      invariant total == Sum(Counts(subdirs)[..k])
    {
      assert Counts(subdirs)[..k + 1][..k] == Counts(subdirs)[..k];
      total := total + |subdirs[k].files|;
      k := k + 1;
    }
    assert Counts(subdirs)[..|subdirs|] == Counts(subdirs);
  }

  /** The second loop of the selection: each subdirectory's quota is picked and
      copied, and a zero quota ends the selection with the division error. */
  method CopyEach(subdirs: seq<Subdir>, total: nat) returns (dest: Option<set<string>>)
    requires total > 0
    ensures dest == CopyAll(subdirs, total)
  {
    var d: set<string> := {};
    var s := 0;
    while s < |subdirs|
      invariant 0 <= s <= |subdirs|
      invariant CopyAll(subdirs[..s], total) == Some(d)
    {
      assert subdirs[..s + 1][..s] == subdirs[..s];
      var files := subdirs[s].files;
      var quantityToSelect := Quota(|files|, total);
      if quantityToSelect == 0 {
        CopyStopsAfter(subdirs, total, s + 1);
        return None;
      }
      QuotaNeedsFiles(subdirs[s], total);
      d := CopyPicked(d, subdirs[s], quantityToSelect);
      s := s + 1;
    }
    assert subdirs[..|subdirs|] == subdirs;
    dest := Some(d);
  }

  /** The selection comprehension and the copies of one subdirectory. */
  method CopyPicked(d: set<string>, s: Subdir, q: nat) returns (d': set<string>)
    requires q > 0 && |s.files| > 0
    ensures d' == d + Elements(Picked(s, q))
  {
    ghost var names := Picked(s, q);
    var files := s.files;
    d' := d;
    var i := 0;
    while i < q
      invariant 0 <= i <= q
      invariant d' == d + Elements(names[..i])
    {
      assert Elements(names[..i + 1]) == Elements(names[..i]) + {names[i]};
      assert Stride(|files|, q)[i] == (i * |files|) / q;
      d' := d' + {CopyName(s.name, files[(i * |files|) / q])};
      i := i + 1;
    }
    assert names[..q] == names;
  }

  lemma {:induction false} CopyStopsAfter(subdirs: seq<Subdir>, total: nat, n: nat)
    requires total > 0 && n <= |subdirs|
    requires CopyAll(subdirs[..n], total).None?
    ensures CopyAll(subdirs, total).None?
    decreases |subdirs| - n
  {
    if n < |subdirs| {
      assert subdirs[..n + 1][..n] == subdirs[..n];
      CopyStopsAfter(subdirs, total, n + 1);
    } else {
      assert subdirs[..n] == subdirs;
    }
  }

  /** A copy in the destination comes from a subdirectory with a positive
      quota and names one of its files. */
  lemma {:induction false} CopiesComeFromSubdirs(subdirs: seq<Subdir>, total: nat, x: string)
    requires total > 0 && CopyAll(subdirs, total).Some? && x in CopyAll(subdirs, total).value
    ensures exists k, f :: 0 <= k < |subdirs| && f in subdirs[k].files && x == CopyName(subdirs[k].name, f)
    decreases |subdirs|
  {
    var p := subdirs[..|subdirs| - 1];
    var last := subdirs[|subdirs| - 1];
    if x in CopyAll(p, total).value {
      CopiesComeFromSubdirs(p, total, x);
      var k, f :| 0 <= k < |p| && f in p[k].files && x == CopyName(p[k].name, f);
      assert subdirs[k] == p[k];
    } else {
      var names := Selection(last, total).value;
      var i :| 0 <= i < |names| && names[i] == x;
      var q := Quota(|last.files|, total);
      assert last.files[Stride(|last.files|, q)[i]] in last.files;
    }
  }

  // ---------------------------------------------------------------------
  // Dividing among three people

  /** `QUANTITY // 3` */
  const PerPerson: nat := Quantity / 3

  /** Python's `s[lo:hi]` for 0 <= lo <= hi: bounds beyond the end are clamped. */
  function Slice(s: seq<string>, lo: nat, hi: nat): (r: seq<string>)
    requires lo <= hi
    ensures |r| == (if hi <= |s| then hi - lo else if lo <= |s| then |s| - lo else 0)
    ensures forall i :: 0 <= i < |r| ==> r[i] == s[lo + i]
  {
    if lo >= |s| then [] else if hi >= |s| then s[lo..] else s[lo..hi]
  }

  /** The names person k (0, 1 or 2) receives. */
  function Share(copied: seq<string>, k: nat): seq<string> {
    Slice(copied, PerPerson * k, PerPerson * k + PerPerson)
  }

  /** The three shares are consecutive: together, in order, they are the first
      3 * QUANTITY // 3 names (or all of them when there are fewer). */
  lemma SharesConsecutive(copied: seq<string>)
    ensures Share(copied, 0) + Share(copied, 1) + Share(copied, 2) ==
              copied[..if |copied| < 3 * PerPerson then |copied| else 3 * PerPerson]
  {
  }

  /** Of distinct names, the shares are pairwise disjoint, and names beyond the
      first 3 * QUANTITY // 3 are in no share. */
  lemma SharesDisjoint(copied: seq<string>)
    requires Distinct(copied)
    ensures Elements(Share(copied, 0)) !! Elements(Share(copied, 1))
    ensures Elements(Share(copied, 0)) !! Elements(Share(copied, 2))
    ensures Elements(Share(copied, 1)) !! Elements(Share(copied, 2))
    ensures forall i :: 3 * PerPerson <= i < |copied| ==>
              copied[i] !in Elements(Share(copied, 0)) + Elements(Share(copied, 1)) + Elements(Share(copied, 2))
  {
    forall k | 0 <= k < 3 ensures forall x :: x in Elements(Share(copied, k)) ==>
                                   exists i :: PerPerson * k <= i < PerPerson * k + PerPerson && i < |copied| && copied[i] == x {
      forall x | x in Elements(Share(copied, k))
        ensures exists i :: PerPerson * k <= i < PerPerson * k + PerPerson && i < |copied| && copied[i] == x
      {
        var j :| 0 <= j < |Share(copied, k)| && Share(copied, k)[j] == x;
        assert copied[PerPerson * k + j] == x;
      }
    }
  }

  /** The destination and the three person directories after the moves. */
  datatype Division = Division(dest: set<string>, people: seq<set<string>>)

  /** The moves of `copied_images[start:end]` for each person in turn, from the
      destination (holding the copied names) into that person's directory. */
  method DivideAmongPeople(copied: seq<string>) returns (result: Division)
    ensures result.people == [Elements(Share(copied, 0)), Elements(Share(copied, 1)), Elements(Share(copied, 2))]
    ensures result.dest == Elements(copied) - Elements(Share(copied, 0)) - Elements(Share(copied, 1)) - Elements(Share(copied, 2))
  {
    var dest := Elements(copied);
    var people: seq<set<string>> := [];
    var index := 0;
    while index < 3
      invariant 0 <= index <= 3
      invariant people == Given(copied, index)
      invariant dest == Elements(copied) - Moved(copied, index)
    {
      var pDir;
      dest, pDir := MovePerson(copied, index, dest);
      people := people + [pDir];
      index := index + 1;
    }
    MovedAll(copied);
    assert Given(copied, 3) == Given(copied, 2) + [Elements(Share(copied, 2))];
    result := Division(dest, people);
  }

  /** One turn of the person loop: `copied_images[start:end]` moves from the
      destination into person `index`'s directory. */
  method MovePerson(copied: seq<string>, index: nat, dest: set<string>) returns (dest': set<string>, pDir: set<string>)
    requires dest == Elements(copied) - Moved(copied, index)
    ensures dest' == Elements(copied) - Moved(copied, index + 1)
    ensures pDir == Elements(Share(copied, index))
  {
    var start := PerPerson * index;
    var end := start + PerPerson;
    var slice := Slice(copied, start, end);
    assert slice == Share(copied, index);
    dest', pDir := MoveAll(dest, slice);
    MovedStep(copied, index);
  }

  lemma MovedStep(copied: seq<string>, n: nat)
    ensures Elements(copied) - Moved(copied, n + 1) == Elements(copied) - Moved(copied, n) - Elements(Share(copied, n))
  {
  }

  lemma MovedAll(copied: seq<string>)
    ensures Elements(copied) - Moved(copied, 3) ==
              Elements(copied) - Elements(Share(copied, 0)) - Elements(Share(copied, 1)) - Elements(Share(copied, 2))
  {
  }

  /** The moves of one person's slice into their fresh directory. */
  method MoveAll(dest: set<string>, slice: seq<string>) returns (dest': set<string>, pDir: set<string>)
    ensures dest' == dest - Elements(slice) && pDir == Elements(slice)
  {
    dest', pDir := dest, {};
    var j := 0;
    while j < |slice|
      invariant 0 <= j <= |slice|
      invariant pDir == Elements(slice[..j])
      invariant dest' == dest - Elements(slice[..j])
    {
      assert Elements(slice[..j + 1]) == Elements(slice[..j]) + {slice[j]};
      dest' := dest' - {slice[j]};
      pDir := pDir + {slice[j]};
      j := j + 1;
    }
    assert slice[..|slice|] == slice;
  }

  /** A listing of n distinct names names n files. */
  lemma {:induction false} DistinctElements(s: seq<string>)
    requires Distinct(s)
    ensures |Elements(s)| == |s|
    decreases |s|
  {
    if s != [] {
      var p, x := s[..|s| - 1], s[|s| - 1];
      assert forall i :: 0 <= i < |p| ==> p[i] == s[i];
      DistinctElements(p);
      assert Elements(s) == Elements(p) + {x};
    }
  }

  /** Of a listing of the copies made (each name once), every person gets a
      share of those copies, as many as the share's slice holds, and the
      destination keeps the other copies: nothing is lost or duplicated. */
  lemma CopiesDivided(d: set<string>, copied: seq<string>)
    requires Distinct(copied) && Elements(copied) == d
    ensures forall k :: 0 <= k < 3 ==> Elements(Share(copied, k)) <= d && |Elements(Share(copied, k))| == |Share(copied, k)|
    ensures var s0, s1, s2 := Elements(Share(copied, 0)), Elements(Share(copied, 1)), Elements(Share(copied, 2));
            && s0 !! s1 && s0 !! s2 && s1 !! s2
            && (d - s0 - s1 - s2) + s0 + s1 + s2 == d
  {
    forall k | 0 <= k < 3
      ensures Elements(Share(copied, k)) <= d && |Elements(Share(copied, k))| == |Share(copied, k)|
    {
      SliceOfDistinct(copied, PerPerson * k, PerPerson * k + PerPerson);
    }
    var s0, s1, s2 := Elements(Share(copied, 0)), Elements(Share(copied, 1)), Elements(Share(copied, 2));
    assert s0 !! s1 && s0 !! s2 && s1 !! s2 by {
      SharesDisjoint(copied);
    }
    SubsetsRestore(d, s0, s1, s2);
  }

  lemma SubsetsRestore<T>(d: set<T>, a: set<T>, b: set<T>, c: set<T>)
    requires a <= d && b <= d && c <= d
    ensures (d - a - b - c) + a + b + c == d
  {
  }

  /** A slice of distinct names holds as many names as its length, all of them
      names of the whole. */
  lemma SliceOfDistinct(s: seq<string>, lo: nat, hi: nat)
    requires Distinct(s) && lo <= hi
    ensures Elements(Slice(s, lo, hi)) <= Elements(s)
    ensures |Elements(Slice(s, lo, hi))| == |Slice(s, lo, hi)|
  {
    var r := Slice(s, lo, hi);
    assert Distinct(r) by {
      forall i, j | 0 <= i < j < |r| ensures r[i] != r[j] {
        assert r[i] == s[lo + i] && r[j] == s[lo + j];
      }
    }
    DistinctElements(r);
    forall x | x in Elements(r) ensures x in Elements(s) {
      var i :| 0 <= i < |r| && r[i] == x;
      assert s[lo + i] == x;
    }
  }

  /** The destination CopySelection leaves: None when the run stops. */
  function Copied(subdirs: seq<Subdir>): Option<set<string>> {
    if subdirs == [] then Some({})
    else
      var total := Sum(Counts(subdirs));
      if total == 0 then None else CopyAll(subdirs, total)
  }

  /** The whole script: the selection is copied, then the destination, listed
      by `listing` (which stands for `sorted(os.listdir(DEST_DIR))`), is divided.
      With CopiesDivided, a listing that names each copy once splits the copies
      between the three people and the destination. */
  method DivideImages(subdirs: seq<Subdir>, listing: set<string> -> seq<string>) returns (r: Option<Division>)
    ensures r.None? <==> Copied(subdirs).None?
    ensures r.Some? ==>
              var copied := listing(Copied(subdirs).value);
              && r.value.people == [Elements(Share(copied, 0)), Elements(Share(copied, 1)), Elements(Share(copied, 2))]
              && r.value.dest == Elements(copied) - Elements(Share(copied, 0)) - Elements(Share(copied, 1)) - Elements(Share(copied, 2))
  {
    var dest := CopySelection(subdirs);
    if dest.None? {
      return None;
    }
    var copied := listing(dest.value);
    var division := DivideAmongPeople(copied);
    r := Some(division);
  }

  /** The directories of the first n people after their moves. */
  ghost function Given(copied: seq<string>, n: nat): seq<set<string>>
    decreases n
  {
    if n == 0 then [] else Given(copied, n - 1) + [Elements(Share(copied, n - 1))]
  }

  /** The names moved to the first n people. */
  ghost function Moved(copied: seq<string>, n: nat): set<string>
    decreases n
  {
    if n == 0 then {} else Moved(copied, n - 1) + Elements(Share(copied, n - 1))
  }
}
