/** The few Python `str` operations the dataset scripts rely on, over `string`
    (a sequence of `char`), together with the facts about them that the other
    modules use: `split` on one separator, `replace` of every occurrence,
    `endswith`, negative slicing, `os.path.basename` and `os.path.splitext`. */
module Text {

  datatype Option<T> = None | Some(value: T)

  /** No element occurs twice. */
  predicate Distinct<T(==)>(xs: seq<T>) {
    forall i, j :: 0 <= i < j < |xs| ==> xs[i] != xs[j]
  }

  predicate StartsWith(s: string, prefix: string) {
    |prefix| <= |s| && s[..|prefix|] == prefix
  }

  /** `s.endswith(suffix)` */
  predicate EndsWith(s: string, suffix: string) {
    |suffix| <= |s| && s[|s| - |suffix|..] == suffix
  }

  /** `s[:-k]`: everything but the last k characters (empty when s is shorter). */
  function DropLast(s: string, k: nat): (r: string)
    ensures |r| == if |s| >= k then |s| - k else 0
    ensures r == s[..|r|]
  {
    if |s| >= k then s[..|s| - k] else []
  }

  /** `s[-k:]`: the last k characters (all of s when s is shorter). */
  function TakeLast(s: string, k: nat): (r: string)
    ensures |r| == if |s| >= k then k else |s|
    ensures r == s[|s| - |r|..]
  {
    if |s| >= k then s[|s| - k..] else s
  }

  lemma DropTakeSplit(s: string, k: nat)
    requires 0 < k
    ensures DropLast(s, k) + TakeLast(s, k) == s
  {
  }

  /** `s.split(sep)` for a one-character separator: never empty. */
  function Split(s: string, sep: char): (parts: seq<string>)
    ensures |parts| >= 1
    decreases |s|
  {
    if s == [] then [""]
    else if s[0] == sep then [""] + Split(s[1..], sep)
    else
      var rest := Split(s[1..], sep);
      [[s[0]] + rest[0]] + rest[1..]
  }

  /** Splitting at the first separator: the text before it is the first part. */
  lemma {:induction false} SplitAtFirst(a: string, sep: char, b: string)
    requires sep !in a
    ensures Split(a + [sep] + b, sep) == [a] + Split(b, sep)
  {
    if a == [] {
      assert a + [sep] + b == [sep] + b;
      assert ([sep] + b)[1..] == b;
    } else {
      assert (a + [sep] + b)[1..] == a[1..] + [sep] + b;
      SplitAtFirst(a[1..], sep, b);
      assert [a[0]] + a[1..] == a;
    }
  }

  /** A string with no separator splits into itself alone. */
  lemma {:induction false} SplitWithoutSep(a: string, sep: char)
    requires sep !in a
    ensures Split(a, sep) == [a]
  {
    if a != [] {
      SplitWithoutSep(a[1..], sep);
      assert [a[0]] + a[1..] == a;
    }
  }

  /** `os.path.basename(p)` for POSIX paths: the text after the last `/`. */
  function Basename(p: string): (r: string)
    ensures '/' !in r
    ensures EndsWith(p, r)
    ensures |r| < |p| ==> p[|p| - |r| - 1] == '/'
    decreases |p|
  {
    if p == [] then []
    else if p[|p| - 1] == '/' then []
    else Basename(p[..|p| - 1]) + [p[|p| - 1]]
  }

  /** `p.split('/')[-1]` and `os.path.basename(p)` name the same text. */
  lemma {:induction false} LastSplitPartIsBasename(p: string)
    ensures var parts := Split(p, '/'); parts[|parts| - 1] == Basename(p)
    decreases |p|, 1
  {
    match IndexOf(p, '/')
    case None =>
      LastPartWithoutSeparator(p);
    case Some(i) =>
      LastPartPastSeparator(p, i);
  }

  /** The inductive step: the text after the first '/' is shorter. */
  lemma {:induction false} LastPartPastSeparator(p: string, i: nat)
    requires i < |p| && p[i] == '/' && '/' !in p[..i]
    ensures var parts := Split(p, '/'); parts[|parts| - 1] == Basename(p)
    decreases |p|, 0
  {
    var a, b := p[..i], p[i + 1..];
    assert p == a + ['/'] + b;
    LastSplitPartIsBasename(b);
    LastPartAfterSeparator(a, b);
  }

  /** Without a '/', both name the whole text. */
  lemma LastPartWithoutSeparator(p: string)
    requires '/' !in p
    ensures var parts := Split(p, '/'); parts[|parts| - 1] == Basename(p)
  {
    SplitWithoutSep(p, '/');
    BasenameWithoutSlash(p);
  }

  /** The step of the proof above: a first '/' changes neither side. */
  lemma LastPartAfterSeparator(a: string, b: string)
    requires '/' !in a
    requires var parts := Split(b, '/'); parts[|parts| - 1] == Basename(b)
    ensures var parts := Split(a + ['/'] + b, '/'); parts[|parts| - 1] == Basename(a + ['/'] + b)
  {
    SplitAtFirst(a, '/', b);
    BasenameOfSuffix(a + ['/'], b);
    LastAfterFirst(Split(a + ['/'] + b, '/'), a, Split(b, '/'), Basename(b), Basename(a + ['/'] + b));
  }

  /** The last element of [a] + rest is the last element of rest. */
  lemma LastAfterFirst<T>(parts: seq<T>, a: T, rest: seq<T>, x: T, y: T)
    requires parts == [a] + rest && |rest| >= 1 && rest[|rest| - 1] == x && x == y
    ensures parts[|parts| - 1] == y
  {
    assert parts[|rest|] == rest[|rest| - 1];
  }

  /** The first index of c in s, if any. */
  function IndexOf(s: string, c: char): (r: Option<nat>)
    ensures r.None? <==> c !in s
    ensures r.Some? ==> r.value < |s| && s[r.value] == c && c !in s[..r.value]
    decreases |s|
  {
    if s == [] then None
    else if s[0] == c then Some(0)
    else
      var r := IndexOf(s[1..], c);
      assert s == [s[0]] + s[1..];
      if r.None? then None
      else
        assert s[..r.value + 1] == [s[0]] + s[1..][..r.value];
        Some(r.value + 1)
  }

  lemma {:induction false} BasenameWithoutSlash(p: string)
    requires '/' !in p
    ensures Basename(p) == p
    decreases |p|
  {
    if p != [] {
      assert '/' !in p[..|p| - 1];
      BasenameWithoutSlash(p[..|p| - 1]);
    }
  }

  lemma {:induction false} BasenameOfSuffix(a: string, b: string)
    requires a != [] && a[|a| - 1] == '/'
    ensures Basename(a + b) == Basename(b)
    decreases |b|
  {
    if b == [] {
      assert a + b == a;
    } else {
      assert (a + b)[..|a + b| - 1] == a + b[..|b| - 1];
      BasenameOfSuffix(a, b[..|b| - 1]);
    }
  }

  /** The last index of c in s, if any. */
  function LastIndexOf(s: string, c: char): (r: Option<nat>)
    ensures r.None? <==> c !in s
    ensures r.Some? ==> r.value < |s| && s[r.value] == c && c !in s[r.value + 1..]
    decreases |s|
  {
    if s == [] then None
    else if s[|s| - 1] == c then Some(|s| - 1)
    else
      var r := LastIndexOf(s[..|s| - 1], c);
      assert s == s[..|s| - 1] + [s[|s| - 1]];
      r
  }

  predicate AllDots(s: string) {
    forall i :: 0 <= i < |s| ==> s[i] == '.'
  }

  /** The root that `os.path.splitext(name)` returns for a file name without `/`:
      the text before the last dot, except that leading dots never start an
      extension (so ".png" and "..png" are their own roots). */
  function SplitExtRoot(name: string): string {
    match LastIndexOf(name, '.')
    case None => name
    case Some(d) => if AllDots(name[..d]) then name else name[..d]
  }

  /** For a name ending in ".png", the root drops exactly that extension unless
      everything before it is dots. */
  lemma RootOfPngName(name: string)
    requires EndsWith(name, ".png")
    ensures SplitExtRoot(name) ==
              if AllDots(name[..|name| - 4]) then name else name[..|name| - 4]
  {
    var d := |name| - 4;
    assert name[d..] == ".png";
    assert name[d] == '.';
    assert '.' !in name[d + 1..] by {
      assert name[d + 1..] == "png";
    }
    assert LastIndexOf(name, '.') == Some(d);
  }

  /** The extension that `os.path.splitext(p)` returns, read from the end:
      a dot opens it unless only dots precede it in the last path component,
      and a '/' before any dot leaves none. */
  function Extension(p: string): (r: string)
    decreases |p|
  {
    if p == [] then []
    else
      var c, q := p[|p| - 1], p[..|p| - 1];
      if c == '/' then []
      else if c == '.' then (if AllDots(Basename(q)) then [] else ".")
      else
        var e := Extension(q);
        if e == [] then [] else e + [c]
  }

  /** Root and extension put back together give the last path component:
      the two halves of `os.path.splitext` agree. */
  lemma SplitExtRejoins(p: string)
    ensures SplitExtRoot(Basename(p)) + Extension(p) == Basename(p)
  {
    ExtensionOfBasename(p);
    SplitExtRejoinsName(Basename(p));
  }

  /** Only the last path component decides the extension. */
  lemma {:induction false} ExtensionOfBasename(p: string)
    ensures Extension(p) == Extension(Basename(p))
    decreases |p|
  {
    if p != [] {
      var q, x := p[..|p| - 1], p[|p| - 1];
      assert p == q + [x];
      if x != '/' {
        ExtensionOfBasename(q);
        ExtensionOfBasenameStep(q, x);
      }
    }
  }

  /** The step of the proof above. */
  lemma ExtensionOfBasenameStep(q: string, x: char)
    requires x != '/' && Extension(q) == Extension(Basename(q))
    ensures Extension(q + [x]) == Extension(Basename(q + [x]))
  {
    var b := Basename(q);
    BasenameStep(q, x);
    BasenameWithoutSlash(b);
    if x == '.' {
      ExtensionAtDot(q);
      ExtensionAtDot(b);
    } else {
      ExtensionGrows(q, x);
      ExtensionGrows(b, x);
    }
  }

  /** A last dot opens an extension unless only dots precede it. */
  lemma ExtensionAtDot(q: string)
    ensures Extension(q + ".") == if AllDots(Basename(q)) then [] else "."
  {
    var p := q + ".";
    assert p[..|p| - 1] == q;
  }

  lemma {:induction false} SplitExtRejoinsName(name: string)
    requires '/' !in name
    ensures SplitExtRoot(name) + Extension(name) == name
    decreases |name|
  {
    if name != [] {
      var q, x := name[..|name| - 1], name[|name| - 1];
      assert name == q + [x] && '/' !in q;
      BasenameWithoutSlash(q);
      if x == '.' {
        assert LastIndexOf(name, '.') == Some(|q|);
        assert name[..|q|] == q;
      } else {
        SplitExtRejoinsName(q);
        RejoinStep(q, x);
      }
    }
  }

  /** The step of the proof above for a last character other than a dot. */
  lemma RejoinStep(q: string, x: char)
    requires x != '.' && x != '/' && SplitExtRoot(q) + Extension(q) == q
    ensures SplitExtRoot(q + [x]) + Extension(q + [x]) == q + [x]
  {
    var name := q + [x];
    LastIndexOfStep(q, x, '.');
    ExtensionGrows(q, x);
    match LastIndexOf(q, '.')
    case None =>
      assert SplitExtRoot(q) == q && SplitExtRoot(name) == name;
      EmptyTail(q, Extension(q));
    case Some(d) =>
      if AllDots(q[..d]) {
        assert name[..d] == q[..d];
        assert SplitExtRoot(q) == q && SplitExtRoot(name) == name;
        EmptyTail(q, Extension(q));
      } else {
        assert name[..d] == q[..d];
        assert SplitExtRoot(q) == q[..d] && SplitExtRoot(name) == q[..d];
        RejoinAtDot(q, x, d, Extension(q));
      }
  }

  lemma EmptyTail<T>(q: seq<T>, e: seq<T>)
    requires q + e == q
    ensures e == []
  {
    assert |q + e| == |q| + |e|;
  }

  /** The case above where the last dot opens an extension, on the parts. */
  lemma RejoinAtDot<T>(q: seq<T>, x: T, d: nat, e: seq<T>)
    requires d < |q| && q[..d] + e == q
    ensures e != [] && q[..d] + (e + [x]) == q + [x]
  {
    assert |e| == |q| - d;
  }

  lemma LastIndexOfStep(q: string, x: char, c: char)
    requires x != c
    ensures LastIndexOf(q + [x], c) == LastIndexOf(q, c)
  {
    var s := q + [x];
    assert s[..|s| - 1] == q;
  }

  /** A character other than a dot or '/' extends an open extension and opens
      none. */
  lemma ExtensionGrows(q: string, x: char)
    requires x != '.' && x != '/'
    ensures Extension(q + [x]) == if Extension(q) == [] then [] else Extension(q) + [x]
  {
    var p := q + [x];
    assert p[..|p| - 1] == q;
  }

  /** `str.lower()` on ASCII letters; other characters are kept. */
  function Lower(s: string): (r: string)
    ensures |r| == |s|
    decreases |s|
  {
    if s == [] then []
    else
      var c := s[|s| - 1];
      Lower(s[..|s| - 1]) + [if 'A' <= c <= 'Z' then (c as int + 32) as char else c]
  }

  /** Text without upper-case ASCII letters is its own lower case. */
  lemma {:induction false} LowerKeeps(s: string)
    requires forall i :: 0 <= i < |s| ==> !('A' <= s[i] <= 'Z')
    ensures Lower(s) == s
    decreases |s|
  {
    if s != [] {
      LowerKeeps(s[..|s| - 1]);
    }
  }

  /** A '/' followed by neither a dot nor another '/' leaves no extension. */
  lemma {:induction false} NoExtensionAfterSlash(a: string, t: string)
    requires '.' !in t && '/' !in t
    ensures Extension(a + "/" + t) == []
    decreases |t|
  {
    var p := a + "/" + t;
    if t != [] {
      var u := t[..|t| - 1];
      assert p[..|p| - 1] == a + "/" + u;
      NoExtensionAfterSlash(a, u);
    }
  }

  /** Text with no '/' at the end of a path stays at the end of its basename. */
  lemma {:induction false} BasenameKeepsTail(a: string, t: string)
    requires '/' !in t
    ensures Basename(a + t) == Basename(a) + t
    decreases |t|
  {
    if t == [] {
      assert a + t == a;
    } else {
      var u, x := t[..|t| - 1], t[|t| - 1];
      assert t == u + [x];
      assert '/' !in u && x != '/';
      BasenameKeepsTail(a, u);
      BasenameStep(a + u, x);
      AppendAssoc(a, u, [x]);
    }
  }

  lemma AppendAssoc<T>(a: seq<T>, b: seq<T>, c: seq<T>)
    ensures a + (b + c) == (a + b) + c
  {
  }

  /** A last character other than '/' ends the basename. */
  lemma BasenameStep(q: string, x: char)
    requires x != '/'
    ensures Basename(q + [x]) == Basename(q) + [x]
  {
    var p := q + [x];
    assert p[..|p| - 1] == q;
  }

  /** A path ending in c + e, where e is a dot followed by no dot and no '/'
      and c is neither a dot nor '/', has extension e. */
  lemma {:induction false} ExtensionOfTail(a: string, c: char, e: string)
    requires c != '.' && c != '/'
    requires e != [] && e[0] == '.' && '.' !in e[1..] && '/' !in e
    ensures Extension(a + [c] + e) == e
    decreases |e|
  {
    if |e| == 1 {
      assert e == ".";
      DotAfter(a, c);
    } else {
      var f, x := e[..|e| - 1], e[|e| - 1];
      assert e == f + [x] && x != '.' && x != '/';
      assert f[1..] == e[1..|e| - 1];
      ExtensionOfTail(a, c, f);
      ExtensionGrows(a + [c] + f, x);
      AppendAssoc(a + [c], f, [x]);
    }
  }

  /** A dot right after a character that is neither a dot nor '/' opens an
      extension. */
  lemma DotAfter(a: string, c: char)
    requires c != '.' && c != '/'
    ensures Extension(a + [c] + ".") == "."
  {
    var p := a + [c] + ".";
    assert p[|p| - 1] == '.' && p[..|p| - 1] == a + [c];
    NotAllDots(a, c);
  }

  lemma NotAllDots(a: string, c: char)
    requires c != '.' && c != '/'
    ensures !AllDots(Basename(a + [c]))
  {
    BasenameStep(a, c);
    var b := Basename(a + [c]);
    assert b[|b| - 1] == c;
  }

  // ---------------------------------------------------------------------
  // Occurrences of a pattern and `str.replace`

  predicate OccursAt(s: string, pat: string, i: int) {
    0 <= i && i + |pat| <= |s| && s[i..i + |pat|] == pat
  }

  /** pat occurs nowhere in s. */
  predicate Free(s: string, pat: string) {
    forall i :: 0 <= i <= |s| ==> !OccursAt(s, pat, i)
  }

  /** pat occurs in s at k and nowhere else. */
  predicate OnlyAt(s: string, pat: string, k: int) {
    OccursAt(s, pat, k) && forall i :: 0 <= i <= |s| && i != k ==> !OccursAt(s, pat, i)
  }

  /** `s.replace(pat, rep)`: every occurrence, scanned left to right, without overlap. */
  function ReplaceAll(s: string, pat: string, rep: string): string
    requires |pat| > 0
    decreases |s|
  {
    if StartsWith(s, pat) then rep + ReplaceAll(s[|pat|..], pat, rep)
    else if s == [] then []
    else [s[0]] + ReplaceAll(s[1..], pat, rep)
  }

  lemma OccursInSuffix(s: string, pat: string, j: nat, i: int)
    requires j <= |s|
    ensures OccursAt(s[j..], pat, i) <==> 0 <= i && OccursAt(s, pat, j + i)
  {
    if 0 <= i && i + |pat| <= |s| - j {
      assert s[j..][i..i + |pat|] == s[j + i..j + i + |pat|];
    }
  }

  /** Replacing a pattern that does not occur changes nothing. */
  lemma {:induction false} ReplaceFree(s: string, pat: string, rep: string)
    requires |pat| > 0 && Free(s, pat)
    ensures ReplaceAll(s, pat, rep) == s
    decreases |s|
  {
    assert !OccursAt(s, pat, 0);
    if s != [] {
      forall i | 0 <= i <= |s[1..]| ensures !OccursAt(s[1..], pat, i) {
        OccursInSuffix(s, pat, 1, i);
      }
      ReplaceFree(s[1..], pat, rep);
    }
  }

  /** Replacing a pattern that occurs exactly once rewrites that occurrence alone. */
  lemma {:induction false} ReplaceOnly(s: string, pat: string, rep: string, k: nat)
    requires |pat| > 0 && OnlyAt(s, pat, k)
    ensures ReplaceAll(s, pat, rep) == s[..k] + rep + s[k + |pat|..]
    decreases k
  {
    if k == 0 {
      ReplaceOnlyAtStart(s, pat, rep);
    } else {
      OnlyAtInTail(s, pat, k);
      ReplaceOnly(s[1..], pat, rep, k - 1);
      ReplacePastFirst(s, pat, rep, k);
    }
  }

  lemma ReplaceOnlyAtStart(s: string, pat: string, rep: string)
    requires |pat| > 0 && OnlyAt(s, pat, 0)
    ensures ReplaceAll(s, pat, rep) == s[..0] + rep + s[|pat|..]
  {
    assert StartsWith(s, pat);
    forall i | 0 <= i <= |s[|pat|..]| ensures !OccursAt(s[|pat|..], pat, i) {
      OccursInSuffix(s, pat, |pat|, i);
    }
    ReplaceFree(s[|pat|..], pat, rep);
    ReplaceAllAtMatch(s, pat, rep);
    assert s[..0] + rep + s[|pat|..] == rep + s[|pat|..];
  }

  /** One step of the replacement at an occurrence. */
  lemma ReplaceAllAtMatch(s: string, pat: string, rep: string)
    requires |pat| > 0 && StartsWith(s, pat)
    ensures ReplaceAll(s, pat, rep) == rep + ReplaceAll(s[|pat|..], pat, rep)
  {
  }

  /** One step of the replacement past a character that starts no occurrence. */
  lemma ReplaceAllPastChar(s: string, pat: string, rep: string)
    requires |pat| > 0 && s != [] && !StartsWith(s, pat)
    ensures ReplaceAll(s, pat, rep) == [s[0]] + ReplaceAll(s[1..], pat, rep)
  {
  }

  /** An occurrence only at k > 0 is one only at k - 1 in the tail. */
  lemma OnlyAtInTail(s: string, pat: string, k: nat)
    requires |pat| > 0 && OnlyAt(s, pat, k) && k > 0
    ensures s != [] && !StartsWith(s, pat) && OnlyAt(s[1..], pat, k - 1)
  {
    assert !OccursAt(s, pat, 0);
    forall i | 0 <= i <= |s[1..]| && i != k - 1 ensures !OccursAt(s[1..], pat, i) {
      OccursInSuffix(s, pat, 1, i);
    }
    OccursInSuffix(s, pat, 1, k - 1);
  }

  /** The step of ReplaceOnly: the first character, not starting pat, is kept. */
  lemma ReplacePastFirst(s: string, pat: string, rep: string, k: nat)
    requires |pat| > 0 && s != [] && !StartsWith(s, pat) && 0 < k && k + |pat| <= |s|
    requires ReplaceAll(s[1..], pat, rep) == s[1..][..k - 1] + rep + s[1..][k - 1 + |pat|..]
    ensures ReplaceAll(s, pat, rep) == s[..k] + rep + s[k + |pat|..]
  {
    ReplaceAllPastChar(s, pat, rep);
    ConsAroundSlice(s, rep, k, |pat|);
  }

  /** Putting back the first element before a rewrite of the rest. */
  lemma ConsAroundSlice<T>(s: seq<T>, rep: seq<T>, k: nat, n: nat)
    requires 0 < k && k + n <= |s|
    ensures [s[0]] + (s[1..][..k - 1] + rep + s[1..][k - 1 + n..]) == s[..k] + rep + s[k + n..]
  {
    assert s[1..][..k - 1] == s[1..k];
    assert s[1..][k - 1 + n..] == s[k + n..];
    assert [s[0]] + s[1..k] == s[..k];
  }

  /** A mismatching character rules an occurrence out. */
  lemma Mismatch(s: string, pat: string, i: nat, j: nat)
    requires j < |pat| && i + j < |s| && s[i + j] != pat[j]
    ensures !OccursAt(s, pat, i)
  {
    if i + |pat| <= |s| {
      assert s[i..i + |pat|][j] == s[i + j];
    }
  }

  /** A pattern without the character c cannot straddle a c: every occurrence
      in a + [c] + b lies in a or in b. */
  lemma OccursAroundSeparator(a: string, c: char, b: string, pat: string, i: int)
    requires c !in pat
    requires OccursAt(a + [c] + b, pat, i)
    ensures (i + |pat| <= |a| && OccursAt(a, pat, i)) ||
            (i > |a| && OccursAt(b, pat, i - |a| - 1))
  {
    var s := a + [c] + b;
    forall k | i <= k < i + |pat| ensures pat[k - i] == s[k] {
      assert s[i..i + |pat|][k - i] == s[k];
    }
    assert s[|a|] == c;
    if i + |pat| <= |a| {
      assert s[i..i + |pat|] == a[i..i + |pat|];
    } else if i > |a| {
      assert s[i..i + |pat|] == b[i - |a| - 1..i - |a| - 1 + |pat|];
    }
  }

  /** Joining pieces that are free of pat at a character pat lacks keeps them free. */
  lemma FreeAroundSeparator(a: string, c: char, b: string, pat: string)
    requires c !in pat && Free(a, pat) && Free(b, pat)
    ensures Free(a + [c] + b, pat)
  {
    forall i | 0 <= i <= |a + [c] + b| ensures !OccursAt(a + [c] + b, pat, i) {
      if OccursAt(a + [c] + b, pat, i) {
        OccursAroundSeparator(a, c, b, pat, i);
      }
    }
  }

  /** The same for a pattern that occurs once in b. */
  lemma OnlyAtAroundSeparator(a: string, c: char, b: string, pat: string, k: int)
    requires c !in pat && Free(a, pat) && OnlyAt(b, pat, k)
    ensures OnlyAt(a + [c] + b, pat, |a| + 1 + k)
  {
    var s := a + [c] + b;
    assert s[|a| + 1 + k..|a| + 1 + k + |pat|] == b[k..k + |pat|];
    forall i | 0 <= i <= |s| && i != |a| + 1 + k ensures !OccursAt(s, pat, i) {
      if OccursAt(s, pat, i) {
        OccursAroundSeparator(a, c, b, pat, i);
      }
    }
  }

  /** An occurrence of a pattern carries every occurrence inside the pattern along. */
  lemma OccursWithin(s: string, big: string, small: string, i: nat, j: nat)
    requires OccursAt(s, big, i) && OccursAt(big, small, j)
    ensures OccursAt(s, small, i + j)
  {
    var w := s[i..i + |big|];
    forall k | 0 <= k < |small| ensures s[i + j + k] == small[k] {
      assert w[j + k] == s[i + j + k];
      assert big[j..j + |small|][k] == big[j + k];
    }
    assert s[i + j..i + j + |small|] == small;
  }

  /** The mirror image of OnlyAtAroundSeparator: the single occurrence is in a. */
  lemma OnlyAtBeforeSeparator(a: string, c: char, b: string, pat: string, k: int)
    requires c !in pat && OnlyAt(a, pat, k) && Free(b, pat)
    ensures OnlyAt(a + [c] + b, pat, k)
  {
    var s := a + [c] + b;
    assert s[k..k + |pat|] == a[k..k + |pat|];
    forall i | 0 <= i <= |s| && i != k ensures !OccursAt(s, pat, i) {
      if OccursAt(s, pat, i) {
        OccursAroundSeparator(a, c, b, pat, i);
      }
    }
  }

  /** When the first character of pat occurs nowhere else in pat and t starts
      with it, no occurrence of pat in a + t starts inside a pat-free a. */
  lemma FreeBeforeHead(a: string, t: string, pat: string)
    requires |pat| > 0 && t != [] && t[0] == pat[0] && pat[0] !in pat[1..] && Free(a, pat)
    ensures forall i :: 0 <= i < |a| ==> !OccursAt(a + t, pat, i)
  {
    forall i | 0 <= i < |a| ensures !OccursAt(a + t, pat, i) {
      if i + |pat| <= |a| {
        assert (a + t)[i..i + |pat|] == a[i..i + |pat|];
        assert !OccursAt(a, pat, i);
      } else if i + |pat| <= |a + t| {
        assert pat[1..][|a| - i - 1] == pat[|a| - i];
        Mismatch(a + t, pat, i, |a| - i);
      }
    }
  }
}
