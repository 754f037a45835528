/**
 * The two free functions of the `utils` namespace: ordering kernel file names by the
 * version number they carry, and deriving a disk name from a partition name.
 */
module Utils {
  import opened Wrappers
  import opened QtText

  // ------------------------------------------------------------ version keys

  /** The captures of the version pattern that the comparator reads. */
  datatype VersionKey = VersionKey(major: int, minor: int, patch: int, suffix: string)

  /**
   * The version pattern `(\d+)\.(\d+)(?:\.(\d+))?(-([a-z0-9]+[^-]*)?)?(-.*)?` can start
   * matching at index i: a run of digits, a dot, and a digit.
   */
  predicate VersionStartsAt(s: string, i: nat)
  {
    i < |s| && IsDigit(s[i]) &&
    var e := DigitRunEnd(s, i);
    e + 1 < |s| && s[e] == '.' && IsDigit(s[e + 1])
  }

  /** The end of the longest run of digits starting at index i (`\d+` and `\d*`, greedy). */
  function DigitRunEnd(s: string, i: nat): (r: nat)
    requires i <= |s|
    ensures i <= r <= |s| && AllDigits(s[i..r])
    ensures r < |s| ==> !IsDigit(s[r])
    decreases |s| - i
  {
    if i < |s| && IsDigit(s[i]) then
      var r := DigitRunEnd(s, i + 1);
      assert forall k :: 0 < k < r - i ==> s[i..r][k] == s[i + 1..r][k - 1];
      r
    else i
  }

  /** The leftmost index at or after `from` where the version pattern matches. */
  function VersionStart(s: string, from: nat): (r: Option<nat>)
    ensures r.Some? ==> from <= r.value && VersionStartsAt(s, r.value)
    ensures r.Some? ==> forall i :: from <= i < r.value ==> !VersionStartsAt(s, i)
    ensures r.None? ==> forall i :: from <= i ==> !VersionStartsAt(s, i)
    decreases |s| - from
  {
    if from >= |s| then None
    else if VersionStartsAt(s, from) then Some(from)
    else VersionStart(s, from + 1)
  }

  /** The text of capture 4, `(-([a-z0-9]+[^-]*)?)`, where it may start at index g. */
  function SuffixAt(s: string, g: nat): (r: string)
    requires g <= |s|
    ensures r == "" || (r[0] == '-' && '-' !in r[1..])
    ensures OccursAt(s, r, g)
  {
    if g < |s| && s[g] == '-' then
      if g + 1 < |s| && IsLowerAlnum(s[g + 1]) then
        [s[g]] + UpToHyphen(s[g + 1..])
      else [s[g]]
    else ""
  }

  /** The longest prefix of s without a hyphen (`[^-]*`, greedy). */
  function UpToHyphen(s: string): (r: string)
    ensures '-' !in r && r <= s
    ensures |r| < |s| ==> s[|r|] == '-'
  {
    if s == [] || s[0] == '-' then "" else [s[0]] + UpToHyphen(s[1..])
  }

  /**
   * The match of the version pattern in a kernel file name, if any: major, minor,
   * patch (0 when capture 3 is empty) converted by QString::toInt, and capture 4.
   */
  function ParseVersion(s: string): Option<VersionKey>
  {
    match VersionStart(s, 0)
    case None => None
    case Some(i) =>
      var e := DigitRunEnd(s, i);
      var f := DigitRunEnd(s, e + 1);
      var hasPatch := f + 1 < |s| && s[f] == '.' && IsDigit(s[f + 1]);
      var g := if hasPatch then DigitRunEnd(s, f + 1) else f;
      var patch := if hasPatch then ToInt(s[f + 1..g]) else 0;
      Some(VersionKey(ToInt(s[i..e]), ToInt(s[e + 1..f]), patch, SuffixAt(s, g)))
  }

  /** A name carries a version exactly when the pattern can start somewhere in it. */
  lemma ParseVersionSome(s: string)
    ensures ParseVersion(s).Some? <==> exists i :: VersionStartsAt(s, i)
  {
  }

  /** DigitRunEnd stops at the first index that is not a digit. */
  lemma {:induction false} DigitRunEndAt(s: string, i: nat, j: nat)
    requires i <= j <= |s|
    requires forall k :: i <= k < j ==> IsDigit(s[k])
    requires j == |s| || !IsDigit(s[j])
    ensures DigitRunEnd(s, i) == j
    decreases j - i
  {
    if i < j {
      DigitRunEndAt(s, i + 1, j);
    }
  }

  /** A name without any digit carries no version. */
  lemma NoDigitsNoVersion(s: string)
    requires forall k :: 0 <= k < |s| ==> !IsDigit(s[k])
    ensures ParseVersion(s).None?
  {
  }

  /** The leftmost start of the version pattern is the first index where it can match. */
  lemma VersionStartFirst(s: string, from: nat, k: nat)
    requires from <= k && VersionStartsAt(s, k)
    requires forall i :: from <= i < k ==> !VersionStartsAt(s, i)
    ensures VersionStart(s, from) == Some(k)
  {
  }

  /**
   * A name whose first digit starts `major.minor.patch`, the last number not followed
   * by another digit, has that version: the three numbers as QString::toInt reads
   * them and capture 4 read after the patch.
   */
  lemma ThreePartVersion(s: string, i: nat, e: nat, f: nat, g: nat)
    requires i < e && e + 1 < f && f + 1 < g <= |s|
    requires forall k :: 0 <= k < i ==> !IsDigit(s[k])
    requires forall k :: i <= k < e ==> IsDigit(s[k])
    requires forall k :: e < k < f ==> IsDigit(s[k])
    requires forall k :: f < k < g ==> IsDigit(s[k])
    requires s[e] == '.' && s[f] == '.' && (g == |s| || !IsDigit(s[g]))
    ensures ParseVersion(s)
         == Some(VersionKey(ToInt(s[i..e]), ToInt(s[e + 1..f]), ToInt(s[f + 1..g]), SuffixAt(s, g)))
  {
    DigitRunEndAt(s, i, e);
    DigitRunEndAt(s, e + 1, f);
    DigitRunEndAt(s, f + 1, g);
    VersionStartFirst(s, 0, i);
    ParseVersionAt(s, i, e, f, g);
  }

  /** ParseVersion reads the captures at the positions the digit runs end. */
  lemma ParseVersionAt(s: string, i: nat, e: nat, f: nat, g: nat)
    requires VersionStart(s, 0) == Some(i)
    requires e + 1 <= |s| && DigitRunEnd(s, i) == e && DigitRunEnd(s, e + 1) == f
    requires f + 1 < |s| && s[f] == '.' && IsDigit(s[f + 1]) && DigitRunEnd(s, f + 1) == g
    ensures ParseVersion(s)
         == Some(VersionKey(ToInt(s[i..e]), ToInt(s[e + 1..f]), ToInt(s[f + 1..g]), SuffixAt(s, g)))
  {
  }

  /**
   * A name made of a digit-free prefix and `major.minor.patch`, followed by anything
   * that does not continue the last number, has those three numbers as its version.
   */
  lemma VersionOfParts(pre: string, x: string, y: string, z: string, tail: string)
    requires forall k :: 0 <= k < |pre| ==> !IsDigit(pre[k])
    requires x != "" && y != "" && z != "" && AllDigits(x) && AllDigits(y) && AllDigits(z)
    requires tail == "" || !IsDigit(tail[0])
    ensures var v := ParseVersion(pre + x + "." + y + "." + z + tail);
      v.Some? && v.value.major == ToInt(x) && v.value.minor == ToInt(y) && v.value.patch == ToInt(z)
  {
    var s := pre + x + "." + y + "." + z + tail;
    var i := |pre|;
    var e := i + |x|;
    var f := e + 1 + |y|;
    var g := f + 1 + |z|;
    PartsLayout(s, pre, x, y, z, tail, e, f, g);
    ThreePartVersion(s, i, e, f, g);
  }

  /** Where the pieces of `pre x.y.z tail` sit in the whole string. */
  lemma PartsLayout(s: string, pre: string, x: string, y: string, z: string, tail: string, e: nat, f: nat, g: nat)
    requires s == pre + x + "." + y + "." + z + tail
    requires e == |pre| + |x| && f == e + 1 + |y| && g == f + 1 + |z|
    ensures g + |tail| == |s|
    ensures forall k :: 0 <= k < |pre| ==> s[k] == pre[k]
    ensures forall k :: |pre| <= k < e ==> s[k] == x[k - |pre|]
    ensures s[e] == '.' && s[f] == '.'
    ensures forall k :: e < k < f ==> s[k] == y[k - e - 1]
    ensures forall k :: f < k < g ==> s[k] == z[k - f - 1]
    ensures g < |s| ==> s[g] == tail[0]
    ensures s[|pre|..e] == x && s[e + 1..f] == y && s[f + 1..g] == z
  {
    var a := pre + x;
    var b := a + "." + y;
    var c := b + "." + z;
    assert s == c + tail;
    PartsPrefix(s, c, tail);
    PartsPrefix(c, b, "." + z);
    PartsPrefix(b, a, "." + y);
    PartsSlices(s, pre, x, y, z, tail, e, f, g);
  }

  /** The characters of a prefix sit at their own positions. */
  lemma PartsPrefix(s: string, c: string, rest: string)
    requires s == c + rest
    ensures s[..|c|] == c
    ensures forall k :: 0 <= k < |c| ==> s[k] == c[k]
    ensures forall k :: |c| <= k < |s| ==> s[k] == rest[k - |c|]
  {
  }

  /** The three numbers of `pre x.y.z tail` as slices of the whole string. */
  lemma PartsSlices(s: string, pre: string, x: string, y: string, z: string, tail: string, e: nat, f: nat, g: nat)
    requires s == pre + x + "." + y + "." + z + tail
    requires e == |pre| + |x| && f == e + 1 + |y| && g == f + 1 + |z|
    ensures s[|pre|..e] == x && s[e + 1..f] == y && s[f + 1..g] == z
  {
    var a := pre + x;
    var b := a + "." + y;
    var c := b + "." + z;
    assert s[..|c|] == c;
    assert c[..|b|] == b;
    assert b[..|a|] == a;
    assert s[|pre|..e] == a[|pre|..];
    assert s[e + 1..f] == b[|a| + 1..];
    assert s[f + 1..g] == c[|b| + 1..];
  }

  /**
   * A version with two numbers only (the minor not followed by `.digit`) has patch 0:
   * capture 3 is empty.
   */
  lemma TwoPartVersion(s: string, i: nat, e: nat, f: nat)
    requires i < e && e + 1 < f <= |s|
    requires forall k :: 0 <= k < i ==> !IsDigit(s[k])
    requires forall k :: i <= k < e ==> IsDigit(s[k])
    requires forall k :: e < k < f ==> IsDigit(s[k])
    requires s[e] == '.' && (f == |s| || !IsDigit(s[f]))
    requires !(f + 1 < |s| && s[f] == '.' && IsDigit(s[f + 1]))
    ensures ParseVersion(s) == Some(VersionKey(ToInt(s[i..e]), ToInt(s[e + 1..f]), 0, SuffixAt(s, f)))
  {
    DigitRunEndAt(s, i, e);
    DigitRunEndAt(s, e + 1, f);
    assert VersionStartsAt(s, i);
    VersionStartFirst(s, 0, i);
    assert VersionStart(s, 0) == Some(i);
    assert DigitRunEnd(s, i) == e;
    assert DigitRunEnd(s, e + 1) == f;
  }

  // -------------------------------------------------------------- comparator

  /**
   * The comparator handed to std::sort: true when a is to be placed before b.
   * `reverse` puts newer versions first and unversioned names before versioned ones.
   */
  predicate Before(a: string, b: string, reverse: bool)
  {
    match (ParseVersion(a), ParseVersion(b))
    case (None, None) => if reverse then LexLess(b, a) else LexLess(a, b)
    case (None, Some(_)) => reverse
    case (Some(_), None) => !reverse
    case (Some(ka), Some(kb)) =>
      if ka.major != kb.major then (if reverse then ka.major > kb.major else ka.major < kb.major)
      else if ka.minor != kb.minor then (if reverse then ka.minor > kb.minor else ka.minor < kb.minor)
      else if ka.patch != kb.patch then (if reverse then ka.patch > kb.patch else ka.patch < kb.patch)
      else if reverse then LexLess(kb.suffix, ka.suffix) else LexLess(ka.suffix, kb.suffix)
  }

  /** The ascending order is the descending order read backwards. */
  lemma BeforeMirror(a: string, b: string)
    ensures Before(a, b, false) == Before(b, a, true)
  {
  }

  /** The comparator is irreflexive, as std::sort requires. */
  lemma BeforeIrreflexive(a: string, reverse: bool)
    ensures !Before(a, a, reverse)
  {
    LexLessIrreflexive(a);
    if ParseVersion(a).Some? {
      LexLessIrreflexive(ParseVersion(a).value.suffix);
    }
  }

  /** The comparator is asymmetric: "a may be placed before or beside b" is total. */
  lemma BeforeAsymmetric(a: string, b: string, reverse: bool)
    ensures !(Before(a, b, reverse) && Before(b, a, reverse))
  {
    LexLessTotal(a, b);
    if ParseVersion(a).Some? && ParseVersion(b).Some? {
      LexLessTotal(ParseVersion(a).value.suffix, ParseVersion(b).value.suffix);
    }
  }

  /** Position of a name in the order: its class (unversioned or not) and its key. */
  lemma {:induction false} NotBeforeTransitiveDescending(a: string, b: string, c: string)
    requires !Before(b, a, true) && !Before(c, b, true)
    ensures !Before(c, a, true)
  {
    var pa, pb, pc := ParseVersion(a), ParseVersion(b), ParseVersion(c);
    if pa.None? && pb.None? && pc.None? {
      if LexLess(a, c) {
        LexLessTotal(a, b);
        if a != b {
          LexLessTransitive(b, a, c);
        }
      }
    } else if pa.Some? && pb.Some? && pc.Some? {
      var ka, kb, kc := pa.value, pb.value, pc.value;
      if ka.major == kb.major == kc.major && ka.minor == kb.minor == kc.minor && ka.patch == kb.patch == kc.patch {
        LexLessTotal(ka.suffix, kb.suffix);
        LexLessTotal(kb.suffix, kc.suffix);
        if LexLess(ka.suffix, kc.suffix) {
          if ka.suffix == kb.suffix { } else if kb.suffix == kc.suffix { } else {
            LexLessTransitive(kb.suffix, ka.suffix, kc.suffix);
          }
        }
      }
    }
  }

  /** "a may be placed before or beside b" is transitive: with asymmetry, a total preorder. */
  lemma NotBeforeTransitive(a: string, b: string, c: string, reverse: bool)
    requires !Before(b, a, reverse) && !Before(c, b, reverse)
    ensures !Before(c, a, reverse)
  {
    if reverse {
      NotBeforeTransitiveDescending(a, b, c);
    } else {
      BeforeMirror(b, a);
      BeforeMirror(c, b);
      BeforeMirror(c, a);
      NotBeforeTransitiveDescending(c, b, a);
    }
  }

  /** The comparator itself is transitive. */
  lemma BeforeTransitive(a: string, b: string, c: string, reverse: bool)
    requires Before(a, b, reverse) && Before(b, c, reverse)
    ensures Before(a, c, reverse)
  {
    BeforeAsymmetric(a, b, reverse);
    BeforeAsymmetric(b, c, reverse);
    BeforeAsymmetric(a, c, reverse);
    if !Before(a, c, reverse) {
      // c may come before or beside a, and a before or beside b, so c before or beside b
      NotBeforeTransitive(c, a, b, reverse);
    }
  }

  /** A comparator std::sort accepts: asymmetric, and "not placed after" is transitive. */
  ghost predicate IsStrictWeakOrder(less: (string, string) -> bool)
  {
    (forall x, y :: less(x, y) ==> !less(y, x)) &&
    (forall x, y, z :: !less(y, x) && !less(z, y) ==> !less(z, x))
  }

  /** No later element of s may be placed before an earlier one. */
  ghost predicate SortedWith(s: seq<string>, less: (string, string) -> bool)
  {
    forall i, j :: 0 <= i < j < |s| ==> !less(s[j], s[i])
  }

  predicate SortedBy(s: seq<string>, reverse: bool)
  {
    forall i, j :: 0 <= i < j < |s| ==> !Before(s[j], s[i], reverse)
  }

  lemma SortedWithBefore(s: seq<string>, reverse: bool)
    requires SortedWith(s, (x, y) => Before(x, y, reverse))
    ensures SortedBy(s, reverse)
  {
  }

  /** The kernel version comparator, in either direction, is a strict weak order. */
  lemma BeforeIsStrictWeakOrder(reverse: bool)
    ensures IsStrictWeakOrder((x, y) => Before(x, y, reverse))
  {
    forall x, y
      ensures Before(x, y, reverse) ==> !Before(y, x, reverse)
    {
      BeforeAsymmetric(x, y, reverse);
    }
    forall x, y, z | !Before(y, x, reverse) && !Before(z, y, reverse)
      ensures !Before(z, x, reverse)
    {
      NotBeforeTransitive(x, y, z, reverse);
    }
  }

  // ------------------------------------------------------------------ sorting

  /**
   * sortKernelVersions: a copy of the list ordered by the comparator. The sort runs in
   * place on an array holding the copy; the caller's list is a value and stays as it was.
   */
  method SortKernelVersions(kernelFiles: seq<string>, reverse: bool := true) returns (sorted: seq<string>)
    ensures multiset(sorted) == multiset(kernelFiles)
    ensures SortedBy(sorted, reverse)
    ensures |kernelFiles| <= 1 ==> sorted == kernelFiles
  {
    var less := (x: string, y: string) => Before(x, y, reverse);
    BeforeIsStrictWeakOrder(reverse);
    var a := new string[|kernelFiles|](k requires 0 <= k < |kernelFiles| => kernelFiles[k]);
    assert a[..] == kernelFiles;
    InsertionSort(a, less);
    sorted := a[..];
    SortedWithBefore(sorted, reverse);
    if |kernelFiles| <= 1 {
      SameSmall(sorted, kernelFiles);
    }
  }

  /** Insertion sort of the whole array by a strict weak order. */
  method InsertionSort(a: array<string>, less: (string, string) -> bool)
    requires IsStrictWeakOrder(less)
    modifies a
    ensures SortedWith(a[..], less)
    ensures multiset(a[..]) == multiset(old(a[..]))
  {
    var i := 0;
    while i < a.Length
      invariant 0 <= i <= a.Length
      invariant multiset(a[..]) == multiset(old(a[..]))
      invariant SortedWith(a[..i], less)
    {
      InsertAt(a, i, less);
      i := i + 1;
    }
    assert a[..] == a[..i];
  }

  /** A list of at most one element is the only list with its elements. */
  lemma SameSmall(s: seq<string>, t: seq<string>)
    requires multiset(s) == multiset(t) && |t| <= 1
    ensures s == t
  {
    assert |s| == |multiset(s)| == |multiset(t)| == |t|;
    if |t| == 1 {
      assert multiset(t) == multiset{t[0]};
      assert s[0] in multiset(s);
    }
  }

  /** One insertion step: a[..i] is ordered; afterwards a[..i + 1] is, with the same elements. */
  method InsertAt(a: array<string>, i: int, less: (string, string) -> bool)
    requires 0 <= i < a.Length
    requires IsStrictWeakOrder(less)
    requires SortedWith(a[..i], less)
    modifies a
    ensures SortedWith(a[..i + 1], less)
    ensures multiset(a[..]) == multiset(old(a[..]))
  {
    var j := i;
    assert forall k :: 0 <= k < i ==> a[..i][k] == a[k];
    while j > 0 && less(a[j], a[j - 1])
      invariant 0 <= j <= i
      invariant multiset(a[..]) == multiset(old(a[..]))
      invariant forall k, l :: 0 <= k < l <= i && k != j && l != j ==> !less(a[l], a[k])
      invariant forall l :: j < l <= i ==> !less(a[l], a[j])
    {
      assert !less(a[j - 1], a[j]);
      Swap(a, j - 1, j);
      j := j - 1;
    }
    InsertedSorted(a[..], i, j, less);
  }

  /** Once the new element stops moving, the first i + 1 elements are ordered. */
  lemma InsertedSorted(s: seq<string>, i: int, j: int, less: (string, string) -> bool)
    requires IsStrictWeakOrder(less)
    requires 0 <= j <= i < |s|
    requires forall k, l :: 0 <= k < l <= i && k != j && l != j ==> !less(s[l], s[k])
    requires forall l :: j < l <= i ==> !less(s[l], s[j])
    requires j > 0 ==> !less(s[j], s[j - 1])
    ensures SortedWith(s[..i + 1], less)
  {
    forall k, l | 0 <= k < l <= i
      ensures !less(s[l], s[k])
    {
      if l == j && k < j - 1 {
        assert !less(s[j - 1], s[k]) && !less(s[j], s[j - 1]);
      }
    }
    assert forall k :: 0 <= k <= i ==> s[..i + 1][k] == s[k];
  }

  /** Exchanges two elements of the array; the elements stay the same. */
  method Swap(a: array<string>, p: int, q: int)
    requires 0 <= p < a.Length && 0 <= q < a.Length
    modifies a
    ensures a[..] == old(a[..])[p := old(a[q])][q := old(a[p])]
    ensures multiset(a[..]) == multiset(old(a[..]))
  {
    a[p], a[q] := a[q], a[p];
  }

  /** Reading a descending order backwards gives an ascending order. */
  lemma SortedReversed(s: seq<string>)
    requires SortedBy(s, true)
    ensures SortedBy(Reversed(s), false)
  {
    var r := Reversed(s);
    forall i, j | 0 <= i < j < |r|
      ensures !Before(r[j], r[i], false)
    {
      ReversedAt(s, i);
      ReversedAt(s, j);
      BeforeMirror(r[j], r[i]);
    }
  }

  function Reversed(s: seq<string>): (r: seq<string>)
    ensures |r| == |s|
  {
    if s == [] then [] else Reversed(s[1..]) + [s[0]]
  }

  lemma {:induction false} ReversedAt(s: seq<string>, k: nat)
    requires k < |s|
    ensures |Reversed(s)| == |s| && Reversed(s)[k] == s[|s| - 1 - k]
  {
    if |s| > 1 {
      ReversedAt(s[1..], if k < |s| - 1 then k else 0);
    }
  }

  lemma {:induction false} ReversedMultiset(s: seq<string>)
    ensures multiset(Reversed(s)) == multiset(s)
  {
    if s != [] {
      ReversedMultiset(s[1..]);
      assert s == [s[0]] + s[1..];
    }
  }

  /** Any two elements are ordered one way or the other unless they are the same name. */
  ghost predicate Distinguishable(s: seq<string>, less: (string, string) -> bool)
  {
    forall i, j :: 0 <= i < |s| && 0 <= j < |s| && s[i] != s[j] ==> less(s[i], s[j]) || less(s[j], s[i])
  }

  /**
   * When no two different names tie, the sorted order is unique: every sort of the
   * same list gives the same result, whatever the algorithm.
   */
  lemma {:induction false} SortedUnique(s: seq<string>, t: seq<string>, less: (string, string) -> bool)
    requires multiset(s) == multiset(t)
    requires SortedWith(s, less) && SortedWith(t, less)
    requires Distinguishable(s, less)
    ensures s == t
    decreases |s|
  {
    assert |s| == |multiset(s)| == |t|;
    if |s| > 0 {
      HeadsAgree(s, t, less);
      var s', t' := s[1..], t[1..];
      assert s == [s[0]] + s' && t == [t[0]] + t';
      TailsMultiset(s, t);
      assert SortedWith(s', less) by {
        assert forall i :: 0 <= i < |s'| ==> s'[i] == s[i + 1];
      }
      assert SortedWith(t', less) by {
        assert forall i :: 0 <= i < |t'| ==> t'[i] == t[i + 1];
      }
      assert Distinguishable(s', less) by {
        assert forall i :: 0 <= i < |s'| ==> s'[i] == s[i + 1];
      }
      SortedUnique(s', t', less);
    }
  }

  lemma TailsMultiset(s: seq<string>, t: seq<string>)
    requires |s| > 0 && |t| > 0 && s[0] == t[0] && multiset(s) == multiset(t)
    ensures multiset(s[1..]) == multiset(t[1..])
  {
    assert s == [s[0]] + s[1..] && t == [t[0]] + t[1..];
    assert multiset(s) == multiset{s[0]} + multiset(s[1..]);
    assert multiset(t) == multiset{s[0]} + multiset(t[1..]);
    assert multiset(s[1..]) == multiset(s) - multiset{s[0]};
  }

  /** Two sorted arrangements of the same elements, without ties, start with the same element. */
  lemma HeadsAgree(s: seq<string>, t: seq<string>, less: (string, string) -> bool)
    requires |s| > 0 && multiset(s) == multiset(t)
    requires SortedWith(s, less) && SortedWith(t, less)
    requires Distinguishable(s, less)
    ensures |t| > 0 && s[0] == t[0]
  {
    assert s[0] in multiset(t);
    var m :| 0 <= m < |t| && t[m] == s[0];
    assert t[0] in multiset(s);
    var k :| 0 <= k < |s| && s[k] == t[0];
  }

  /**
   * Descending and ascending results of the same list are mirror images when no two
   * different names tie.
   */
  lemma AscendingIsReversedDescending(input: seq<string>, desc: seq<string>, asc: seq<string>)
    requires multiset(desc) == multiset(input) && SortedBy(desc, true)
    requires multiset(asc) == multiset(input) && SortedBy(asc, false)
    requires Distinguishable(input, (x, y) => Before(x, y, false))
    ensures asc == Reversed(desc)
  {
    var less := (x: string, y: string) => Before(x, y, false);
    SortedReversed(desc);
    ReversedMultiset(desc);
    forall i, j | 0 <= i < |asc| && 0 <= j < |asc| && asc[i] != asc[j]
      ensures less(asc[i], asc[j]) || less(asc[j], asc[i])
    {
      assert asc[i] in multiset(input) && asc[j] in multiset(input);
      var p :| 0 <= p < |input| && input[p] == asc[i];
      var q :| 0 <= q < |input| && input[q] == asc[j];
    }
    SortedUnique(asc, Reversed(desc), less);
  }

  /**
   * Two results of sortKernelVersions on the same list agree when every two different
   * names in it are ordered one way or the other.
   */
  lemma SortedByUnique(r: seq<string>, t: seq<string>, reverse: bool)
    requires multiset(r) == multiset(t) && SortedBy(r, reverse) && SortedBy(t, reverse)
    requires forall x, y :: x in t && y in t && x != y ==> Before(x, y, reverse) || Before(y, x, reverse)
    ensures r == t
  {
    var less := (x: string, y: string) => Before(x, y, reverse);
    assert forall k :: 0 <= k < |r| ==> r[k] in multiset(t);
    SortedUnique(r, t, less);
  }

  /** Names without a version come first when descending and last when ascending. */
  lemma UnversionedPlacement(u: string, v: string)
    requires ParseVersion(u).None? && ParseVersion(v).Some?
    ensures Before(u, v, true) && !Before(v, u, true)
    ensures Before(v, u, false) && !Before(u, v, false)
  {
  }

  // ---------------------------------------------------------------- disk name

  /**
   * Capture 1 of `^(.*?)(\d+)$`: the name without its trailing digits. `$` also matches
   * before a final newline, and `.` does not match a newline.
   */
  function DiskMatch(partition: string): (r: Option<string>)
    ensures r.Some? ==> r.value <= partition && '\n' !in r.value
  {
    var b := BeforeFinalNewline(partition);
    var n := TrailingDigitCount(b);
    if n > 0 && '\n' !in b[..|b| - n] then Some(b[..|b| - n]) else None
  }

  /** extractDiskFromPartition as written. */
  function ExtractDiskFromPartition(partition: string): (r: string)
    ensures r <= partition
  {
    var disk := DiskMatch(partition).GetOr(partition);
    if (StartsWith(disk, "nvme") || StartsWith(disk, "mmcblk")) && EndsWith(disk, "p") then Chop(disk, 1)
    else disk
  }

  /** The trailing run of digits of a name followed by a number is that number. */
  lemma {:induction false} TrailingDigitsOfAppend(disk: string, number: string)
    requires AllDigits(number)
    requires disk == "" || !IsDigit(disk[|disk| - 1])
    ensures TrailingDigitCount(disk + number) == |number|
    decreases |number|
  {
    var s := disk + number;
    if number == [] {
      assert s == disk;
    } else {
      var shorter := number[..|number| - 1];
      TrailingDigitsOfAppend(disk, shorter);
      assert s[..|s| - 1] == disk + shorter;
      assert IsDigit(s[|s| - 1]);
    }
  }

  /** A SATA or virtio style partition name loses exactly its partition number. */
  lemma ExtractDiskDropsNumber(disk: string, number: string)
    requires number != "" && AllDigits(number)
    requires disk == "" || !IsDigit(disk[|disk| - 1])
    requires '\n' !in disk && !StartsWith(disk, "nvme") && !StartsWith(disk, "mmcblk")
    ensures ExtractDiskFromPartition(disk + number) == disk
  {
    ExtractDiskDropsNumberAny(disk, number);
  }

  /** An NVMe or MMC partition name loses its `p` separator and its number. */
  lemma ExtractDiskNvmePartition(disk: string, number: string)
    requires number != "" && AllDigits(number)
    requires '\n' !in disk && (StartsWith(disk, "nvme") || StartsWith(disk, "mmcblk"))
    ensures ExtractDiskFromPartition(disk + "p" + number) == disk
  {
    var dp := disk + "p";
    assert dp[|dp| - 1] == 'p';
    assert '\n' !in dp;
    assert StartsWith(dp, "nvme") || StartsWith(dp, "mmcblk");
    ExtractDiskDropsNumberAny(dp, number);
    assert dp[..|dp| - 1] == disk;
  }

  /** Capture 1 is the name without its trailing digits, whatever the name. */
  lemma ExtractDiskDropsNumberAny(disk: string, number: string)
    requires number != "" && AllDigits(number)
    requires disk == "" || !IsDigit(disk[|disk| - 1])
    requires '\n' !in disk
    ensures DiskMatch(disk + number) == Some(disk)
  {
    var s := disk + number;
    assert s[|s| - 1] == number[|number| - 1];
    assert BeforeFinalNewline(s) == s;
    TrailingDigitsOfAppend(disk, number);
    assert s[..|s| - |number|] == disk;
    assert DiskMatch(s) == Some(s[..|s| - |number|]);
  }

  /** A name that does not end in a digit comes back unchanged, unless it is an NVMe/MMC name ending in `p`. */
  lemma ExtractDiskWithoutNumber(name: string)
    requires name == "" || (name[|name| - 1] != '\n' && !IsDigit(name[|name| - 1]))
    requires !((StartsWith(name, "nvme") || StartsWith(name, "mmcblk")) && EndsWith(name, "p"))
    ensures ExtractDiskFromPartition(name) == name
  {
  }

  /** The SATA expectations of the program's unit tests. */
  lemma ExtractDiskSata(a: string, b: string)
    requires a == "sda1" && b == "sdb3"
    ensures ExtractDiskFromPartition(a) == "sda"
    ensures ExtractDiskFromPartition(b) == "sdb"
  {
    var d1, n1, d2, n2 := "sda", "1", "sdb", "3";
    assert a == d1 + n1 && b == d2 + n2;
    ExtractDiskDropsNumber(d1, n1);
    ExtractDiskDropsNumber(d2, n2);
  }

  /** The virtio and Xen expectations of the program's unit tests. */
  lemma ExtractDiskVirtio(a: string, b: string)
    requires a == "vda3" && b == "xvda1"
    ensures ExtractDiskFromPartition(a) == "vda"
    ensures ExtractDiskFromPartition(b) == "xvda"
  {
    VirtioTestName(a);
    XenTestName(b);
  }

  lemma VirtioTestName(a: string)
    requires a == "vda3"
    ensures ExtractDiskFromPartition(a) == "vda"
  {
    var d, n := "vda", "3";
    assert a == d + n;
    ExtractDiskDropsNumber(d, n);
  }

  lemma XenTestName(b: string)
    requires b == "xvda1"
    ensures ExtractDiskFromPartition(b) == "xvda"
  {
    var d, n := "xvda", "1";
    assert b == d + n;
    ExtractDiskDropsNumber(d, n);
  }

  /** The NVMe expectations of the program's unit tests. */
  lemma ExtractDiskNvme(a: string, b: string)
    requires a == "nvme0n1p2" && b == "nvme1n1p1"
    ensures ExtractDiskFromPartition(a) == "nvme0n1"
    ensures ExtractDiskFromPartition(b) == "nvme1n1"
  {
    NvmeFirstTestName(a);
    NvmeSecondTestName(b);
  }

  lemma NvmeFirstTestName(a: string)
    requires a == "nvme0n1p2"
    ensures ExtractDiskFromPartition(a) == "nvme0n1"
  {
    assert a == "nvme" + "0n1" + "p" + "2" && AllDigits("2");
    NvmeTestName(a, "0n1", "2");
  }

  lemma NvmeSecondTestName(b: string)
    requires b == "nvme1n1p1"
    ensures ExtractDiskFromPartition(b) == "nvme1n1"
  {
    assert b == "nvme" + "1n1" + "p" + "1" && AllDigits("1");
    NvmeTestName(b, "1n1", "1");
  }

  /** One NVMe partition name of the unit tests: `nvme`, the rest of the disk name, `p` and a number. */
  lemma NvmeTestName(a: string, rest: string, number: string)
    requires a == "nvme" + rest + "p" + number && number != "" && AllDigits(number) && '\n' !in rest
    ensures ExtractDiskFromPartition(a) == "nvme" + rest
  {
    var disk := "nvme" + rest;
    assert disk[..4] == "nvme";
    assert '\n' !in disk;
    ExtractDiskNvmePartition(disk, number);
  }

  /** The MMC expectation of the program's unit tests. */
  lemma ExtractDiskMmc(c: string)
    requires c == "mmcblk0p1"
    ensures ExtractDiskFromPartition(c) == "mmcblk0"
  {
    var d, n := "mmcblk0", "1";
    assert c == d + "p" + n;
    ExtractDiskNvmePartition(d, n);
  }

  /** As written, whole-disk NVMe and MMC names lose their last digit, and a SATA disk name is kept. */
  lemma ExtractDiskWholeDisk(a: string, b: string, c: string)
    requires a == "sda" && b == "nvme0n1" && c == "mmcblk0"
    ensures ExtractDiskFromPartition(a) == "sda"
    ensures ExtractDiskFromPartition(b) == "nvme0n"
    ensures ExtractDiskFromPartition(c) == "mmcblk"
  {
    var d1, d2, n1, n2 := "nvme0n", "mmcblk", "1", "0";
    assert b == d1 + n1 && c == d2 + n2;
    ExtractDiskDropsNumberAny(d1, n1);
    ExtractDiskDropsNumberAny(d2, n2);
    ExtractDiskWithoutNumber(a);
  }

  /**
   * The evidently intended disk name: NVMe and MMC names only lose a `p<digits>`
   * partition suffix, other names lose their trailing digits.
   */
  function ExtractDiskFromPartitionCorrected(partition: string): (r: string)
    ensures r <= partition
  {
    if StartsWith(partition, "nvme") || StartsWith(partition, "mmcblk") then
      match DiskMatch(partition)
      case Some(d) => if EndsWith(d, "p") then Chop(d, 1) else partition
      case None => partition
    else DiskMatch(partition).GetOr(partition)
  }

  /** The corrected function returns whole-disk NVMe and MMC names unchanged. */
  lemma CorrectedKeepsWholeDisk(disk: string, number: string)
    requires number != "" && AllDigits(number)
    requires disk == "" || (disk[|disk| - 1] != 'p' && !IsDigit(disk[|disk| - 1]))
    requires '\n' !in disk && (StartsWith(disk, "nvme") || StartsWith(disk, "mmcblk"))
    ensures ExtractDiskFromPartitionCorrected(disk + number) == disk + number
  {
    ExtractDiskDropsNumberAny(disk, number);
    assert StartsWith(disk + number, "nvme") || StartsWith(disk + number, "mmcblk");
  }

  /** On NVMe and MMC partition names the corrected function agrees with the original. */
  lemma CorrectedOnNvmePartitions(disk: string, number: string)
    requires number != "" && AllDigits(number)
    requires '\n' !in disk && (StartsWith(disk, "nvme") || StartsWith(disk, "mmcblk"))
    ensures ExtractDiskFromPartitionCorrected(disk + "p" + number) == disk
    ensures ExtractDiskFromPartition(disk + "p" + number) == disk
  {
    ExtractDiskNvmePartition(disk, number);
    var dp := disk + "p";
    assert dp[|dp| - 1] == 'p';
    ExtractDiskDropsNumberAny(dp, number);
    StemKept(disk, number);
    CorrectedOfMatch(dp + number, dp);
    assert dp[..|dp| - 1] == disk;
  }

  /** A partition name keeps the device stem of its disk. */
  lemma StemKept(disk: string, number: string)
    requires StartsWith(disk, "nvme") || StartsWith(disk, "mmcblk")
    ensures StartsWith(disk + "p" + number, "nvme") || StartsWith(disk + "p" + number, "mmcblk")
  {
    var s := disk + "p" + number;
    assert s[..|disk|] == disk;
    if StartsWith(disk, "nvme") {
      assert s[..4] == s[..|disk|][..4];
    } else {
      assert s[..6] == s[..|disk|][..6];
    }
  }

  /** On an NVMe or MMC name whose capture 1 ends in `p`, the corrected function drops that `p`. */
  lemma CorrectedOfMatch(s: string, d: string)
    requires StartsWith(s, "nvme") || StartsWith(s, "mmcblk")
    requires DiskMatch(s) == Some(d) && EndsWith(d, "p")
    ensures ExtractDiskFromPartitionCorrected(s) == d[..|d| - 1]
  {
  }

  /** On every other name ending in a number the corrected function agrees with the original. */
  lemma CorrectedOnOtherPartitions(disk: string, number: string)
    requires number != "" && AllDigits(number)
    requires disk == "" || !IsDigit(disk[|disk| - 1])
    requires '\n' !in disk && !StartsWith(disk, "nvme") && !StartsWith(disk, "mmcblk")
    ensures ExtractDiskFromPartitionCorrected(disk + number) == disk
    ensures ExtractDiskFromPartition(disk + number) == disk
  {
    ExtractDiskDropsNumberAny(disk, number);
    ExtractDiskDropsNumber(disk, number);
    DeviceStemsHaveNoDigit("nvme");
    DeviceStemsHaveNoDigit("mmcblk");
    NoLetterPrefixAfterDigits(disk, number, "nvme");
    NoLetterPrefixAfterDigits(disk, number, "mmcblk");
  }

  lemma DeviceStemsHaveNoDigit(p: string)
    requires p == "nvme" || p == "mmcblk"
    ensures forall k :: 0 <= k < |p| ==> !IsDigit(p[k])
  {
    if p == "nvme" {
      assert p[0] == 'n' && p[1] == 'v' && p[2] == 'm' && p[3] == 'e';
    } else {
      assert p[0] == 'm' && p[1] == 'm' && p[2] == 'c' && p[3] == 'b' && p[4] == 'l' && p[5] == 'k';
    }
  }

  /** Appending digits cannot create a prefix made only of letters. */
  lemma NoLetterPrefixAfterDigits(disk: string, number: string, p: string)
    requires AllDigits(number) && !StartsWith(disk, p)
    requires forall k :: 0 <= k < |p| ==> !IsDigit(p[k])
    ensures !StartsWith(disk + number, p)
  {
    if |disk| >= |p| {
      assert (disk + number)[..|p|] == disk[..|p|];
    } else if |disk + number| >= |p| {
      assert (disk + number)[|disk|] == number[0];
      assert (disk + number)[..|p|][|disk|] == number[0];
    }
  }

  /** The whole-disk expectations of the unit tests hold of the corrected function. */
  lemma CorrectedWholeDisks(a: string, b: string)
    requires a == "nvme0n1" && b == "mmcblk0"
    ensures ExtractDiskFromPartitionCorrected(a) == "nvme0n1"
    ensures ExtractDiskFromPartitionCorrected(b) == "mmcblk0"
  {
    CorrectedKeepsNvmeDisk(a);
    CorrectedKeepsMmcDisk(b);
  }

  lemma CorrectedKeepsNvmeDisk(a: string)
    requires a == "nvme0n1"
    ensures ExtractDiskFromPartitionCorrected(a) == "nvme0n1"
  {
    var d, n := "nvme0n", "1";
    assert a == d + n;
    CorrectedKeepsWholeDisk(d, n);
  }

  lemma CorrectedKeepsMmcDisk(b: string)
    requires b == "mmcblk0"
    ensures ExtractDiskFromPartitionCorrected(b) == "mmcblk0"
  {
    var d, n := "mmcblk", "0";
    assert b == d + n;
    CorrectedKeepsWholeDisk(d, n);
  }

  /** The partition expectations of the unit tests hold of the corrected function too. */
  lemma CorrectedPartitions(a: string, b: string)
    requires a == "nvme0n1p2" && b == "sda1"
    ensures ExtractDiskFromPartitionCorrected(a) == "nvme0n1"
    ensures ExtractDiskFromPartitionCorrected(b) == "sda"
  {
    CorrectedNvmeTestName(a);
    CorrectedSataTestName(b);
  }

  lemma CorrectedNvmeTestName(a: string)
    requires a == "nvme0n1p2"
    ensures ExtractDiskFromPartitionCorrected(a) == "nvme0n1"
  {
    var d, n := "nvme0n1", "2";
    assert a == d + "p" + n;
    CorrectedOnNvmePartitions(d, n);
  }

  lemma CorrectedSataTestName(b: string)
    requires b == "sda1"
    ensures ExtractDiskFromPartitionCorrected(b) == "sda"
  {
    var d, n := "sda", "1";
    assert b == d + n;
    CorrectedOnOtherPartitions(d, n);
  }
}
