/**
 * The lists of the kernel sorting tests, sorted by any sort that meets
 * sortKernelVersions' contract: the order the tests expect is the only one possible.
 */
module UtilsExamples {
  import opened QtText
  import opened Utils

  /** QString::toInt of a one-digit string. */
  lemma OneDigit(d: string)
    requires |d| == 1 && IsDigit(d[0])
    ensures AllDigits(d) && ToInt(d) == d[0] as int - '0' as int
  {
    assert d == [] + [d[0]];
    DigitValueAppend([], d[0]);
  }

  /** QString::toInt of a two-digit string. */
  lemma TwoDigits(d: string)
    requires |d| == 2 && IsDigit(d[0]) && IsDigit(d[1])
    ensures AllDigits(d) && ToInt(d) == (d[0] as int - '0' as int) * 10 + (d[1] as int - '0' as int)
  {
    assert d == [d[0]] + [d[1]];
    assert [d[0]] == [] + [d[0]];
    DigitValueAppend([], d[0]);
    DigitValueAppend([d[0]], d[1]);
  }

  lemma VersionOf5100(a: string)
    requires a == "vmlinuz-5.10.0"
    ensures ParseVersion(a).Some? && ParseVersion(a).value.major == 5
    ensures ParseVersion(a).value.minor == 10 && ParseVersion(a).value.patch == 0
  {
    assert a == "vmlinuz-" + "5" + "." + "10" + "." + "0" + "";
    OneDigit("5");
    TwoDigits("10");
    OneDigit("0");
    VersionOfParts("vmlinuz-", "5", "10", "0", "");
  }

  lemma VersionOf5150(c: string)
    requires c == "vmlinuz-5.15.0"
    ensures ParseVersion(c).Some? && ParseVersion(c).value.major == 5
    ensures ParseVersion(c).value.minor == 15 && ParseVersion(c).value.patch == 0
  {
    assert c == "vmlinuz-" + "5" + "." + "15" + "." + "0" + "";
    OneDigit("5");
    TwoDigits("15");
    OneDigit("0");
    VersionOfParts("vmlinuz-", "5", "15", "0", "");
  }

  lemma VersionOf610(b: string, tail: string)
    requires tail == "" || tail == "-2-amd64"
    requires b == "vmlinuz-6.1.0" + tail
    ensures ParseVersion(b).Some? && ParseVersion(b).value.major == 6
    ensures ParseVersion(b).value.minor == 1 && ParseVersion(b).value.patch == 0
  {
    assert b == "vmlinuz-" + "6" + "." + "1" + "." + "0" + tail;
    OneDigit("6");
    OneDigit("1");
    OneDigit("0");
    VersionOfParts("vmlinuz-", "6", "1", "0", tail);
  }

  lemma VersionOf6687(d: string, tail: string)
    requires tail == ".2-microsoft-standard-WSL2" && d == "vmlinuz-6.6.87" + tail
    ensures ParseVersion(d).Some? && ParseVersion(d).value.major == 6
    ensures ParseVersion(d).value.minor == 6 && ParseVersion(d).value.patch == 87
  {
    assert d == "vmlinuz-" + "6" + "." + "6" + "." + "87" + tail;
    OneDigit("6");
    TwoDigits("87");
    VersionOfParts("vmlinuz-", "6", "6", "87", tail);
  }

  /** Three names in comparator order are sorted in that order and no other. */
  lemma SortThree(a: string, b: string, c: string, r: seq<string>, reverse: bool)
    requires Before(a, b, reverse) && Before(b, c, reverse)
    requires multiset(r) == multiset([a, b, c]) && SortedBy(r, reverse)
    ensures r == [a, b, c]
  {
    BeforeTransitive(a, b, c, reverse);
    ThreeInOrder(a, b, c, reverse);
    ThreeComparable(a, b, c, reverse);
    SortedByUnique(r, [a, b, c], reverse);
  }

  lemma ThreeInOrder(a: string, b: string, c: string, reverse: bool)
    requires Before(a, b, reverse) && Before(b, c, reverse) && Before(a, c, reverse)
    ensures SortedBy([a, b, c], reverse)
  {
    BeforeAsymmetric(a, b, reverse);
    BeforeAsymmetric(b, c, reverse);
    BeforeAsymmetric(a, c, reverse);
  }

  lemma ThreeComparable(a: string, b: string, c: string, reverse: bool)
    requires Before(a, b, reverse) && Before(b, c, reverse) && Before(a, c, reverse)
    ensures forall x, y :: x in [a, b, c] && y in [a, b, c] && x != y ==> Before(x, y, reverse) || Before(y, x, reverse)
  {
    var less := (x: string, y: string) => Before(x, y, reverse);
    ThreeComparableBy(a, b, c, less);
    forall x, y | x in [a, b, c] && y in [a, b, c] && x != y
      ensures Before(x, y, reverse) || Before(y, x, reverse)
    {
      assert less(x, y) || less(y, x);
    }
  }

  /** Three names any two of which an order relates are pairwise related by it. */
  lemma ThreeComparableBy(a: string, b: string, c: string, less: (string, string) -> bool)
    requires less(a, b) && less(b, c) && less(a, c)
    ensures forall x, y :: x in [a, b, c] && y in [a, b, c] && x != y ==> less(x, y) || less(y, x)
  {
    forall x, y | x in [a, b, c] && y in [a, b, c] && x != y
      ensures less(x, y) || less(y, x)
    {
      assert x == a || x == b || x == c;
      assert y == a || y == b || y == c;
    }
  }

  /** Of two versioned names the one with the larger major, or equal major and larger minor, is newer. */
  lemma NewerFirst(x: string, y: string)
    requires ParseVersion(x).Some? && ParseVersion(y).Some?
    requires var kx, ky := ParseVersion(x).value, ParseVersion(y).value;
             kx.major > ky.major || (kx.major == ky.major && kx.minor > ky.minor)
    ensures Before(x, y, true) && Before(y, x, false)
  {
  }

  /** The descending list of the test suite, sorted by any correct sort. */
  lemma SortDescendingExample(a: string, b: string, c: string, desc: seq<string>)
    requires a == "vmlinuz-5.10.0" && b == "vmlinuz-6.1.0" && c == "vmlinuz-5.15.0"
    requires multiset(desc) == multiset([a, b, c]) && SortedBy(desc, true)
    ensures desc == [b, c, a]
  {
    TestListOrder(a, b, c);
    SortThree(b, c, a, desc, true);
  }

  /** The ascending list of the test suite, sorted by any correct sort. */
  lemma SortAscendingExample(a: string, b: string, c: string, asc: seq<string>)
    requires a == "vmlinuz-5.10.0" && b == "vmlinuz-6.1.0" && c == "vmlinuz-5.15.0"
    requires multiset(asc) == multiset([a, b, c]) && SortedBy(asc, false)
    ensures asc == [a, c, b]
  {
    TestListOrder(a, b, c);
    SortThree(a, c, b, asc, false);
  }

  /** How the comparator orders the three names of the test list, in both directions. */
  lemma TestListOrder(a: string, b: string, c: string)
    requires a == "vmlinuz-5.10.0" && b == "vmlinuz-6.1.0" && c == "vmlinuz-5.15.0"
    ensures Before(b, c, true) && Before(c, a, true)
    ensures Before(a, c, false) && Before(c, b, false)
  {
    VersionOf5100(a);
    VersionOf610(b, "");
    VersionOf5150(c);
    NewerFirst(b, c);
    NewerFirst(c, a);
  }

  /** Mixed formats: 6.6.87 comes first and 5.10.0 last when newest come first. */
  lemma SortMixedExample(d: string, e: string, a: string, desc: seq<string>)
    requires d == "vmlinuz-6.6.87" + ".2-microsoft-standard-WSL2"
    requires e == "vmlinuz-6.1.0" + "-2-amd64" && a == "vmlinuz-5.10.0"
    requires multiset(desc) == multiset([d, e, a]) && SortedBy(desc, true)
    ensures |desc| == 3 && desc[0] == d && desc[2] == a
  {
    VersionOf6687(d, ".2-microsoft-standard-WSL2");
    VersionOf610(e, "-2-amd64");
    VersionOf5100(a);
    NewerFirst(d, e);
    NewerFirst(e, a);
    SortThree(d, e, a, desc, true);
  }

  lemma NoVersion(x: string, s: string)
    requires s == "noversion" && (x == "zzz-" + s || x == "aaa-" + s)
    ensures ParseVersion(x).None?
  {
    assert forall k :: 0 <= k < |s| ==> !IsDigit(s[k]);
    assert forall k :: 0 <= k < |x| ==> x[k] == if k < 4 then x[k] else s[k - 4];
    NoDigitsNoVersion(x);
  }

  /** Two unversioned names are ordered by QString's operator<, reversed when descending. */
  lemma UnversionedByName(x: string, y: string)
    requires ParseVersion(x).None? && ParseVersion(y).None? && LexLess(y, x)
    ensures Before(x, y, true) && Before(y, x, false)
  {
  }

  lemma AaaBeforeZzz(y: string, z: string)
    requires z == "zzz-noversion" && y == "aaa-noversion"
    ensures LexLess(y, z)
  {
    assert y[0] == 'a' && z[0] == 'z';
  }

  /** Names without a version fall back to plain string order, reversed when descending. */
  lemma SortUnmatchedExample(z: string, y: string, desc: seq<string>, asc: seq<string>)
    requires z == "zzz-noversion" && y == "aaa-noversion"
    requires multiset(desc) == multiset([z, y]) && SortedBy(desc, true)
    requires multiset(asc) == multiset([z, y]) && SortedBy(asc, false)
    ensures desc == [z, y] && asc == [y, z]
  {
    UnmatchedOrder(z, y);
    SortTwo(z, y, desc, true);
    SortTwo(y, z, asc, false);
  }

  /** How the comparator orders the two unversioned names, in both directions. */
  lemma UnmatchedOrder(z: string, y: string)
    requires z == "zzz-noversion" && y == "aaa-noversion"
    ensures Before(z, y, true) && Before(y, z, false)
  {
    NoVersion(z, "noversion");
    NoVersion(y, "noversion");
    AaaBeforeZzz(y, z);
    UnversionedByName(z, y);
  }

  /** Two names in comparator order are sorted in that order and no other. */
  lemma SortTwo(a: string, b: string, r: seq<string>, reverse: bool)
    requires Before(a, b, reverse)
    requires multiset(r) == multiset([a, b]) && SortedBy(r, reverse)
    ensures r == [a, b]
  {
    BeforeAsymmetric(a, b, reverse);
    assert SortedBy([a, b], reverse);
    forall x, y | x in [a, b] && y in [a, b] && x != y
      ensures Before(x, y, reverse) || Before(y, x, reverse)
    {
      if x != a {
        assert x == b && y == a;
      }
    }
    SortedByUnique(r, [a, b], reverse);
  }

  // ------------------------------------------------------- the one-argument call

  /**
   * sortKernelVersions called without a direction, as selectKernel calls it, sorts newest
   * first: the descending test list comes back as 6.1.0, 5.15.0, 5.10.0.
   */
  method DefaultNewestFirst() returns (sorted: seq<string>)
    ensures sorted == ["vmlinuz-6.1.0", "vmlinuz-5.15.0", "vmlinuz-5.10.0"]
  {
    var input := ["vmlinuz-5.10.0", "vmlinuz-6.1.0", "vmlinuz-5.15.0"];
    sorted := SortKernelVersions(input);
    SortDescendingExample(input[0], input[1], input[2], sorted);
  }

  /** The one-argument call returns a single name unchanged. */
  method DefaultSingle() returns (sorted: seq<string>)
    ensures sorted == ["vmlinuz-6.1.0"]
  {
    sorted := SortKernelVersions(["vmlinuz-6.1.0"]);
  }

  /** The one-argument call returns an empty list empty. */
  method DefaultEmpty() returns (sorted: seq<string>)
    ensures sorted == []
  {
    sorted := SortKernelVersions([]);
  }
}
