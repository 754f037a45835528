/**
 * The string operations of Qt that the program relies on, stated on `seq<char>`:
 * QString::trimmed, split, section, startsWith/endsWith, contains, replace, remove,
 * the ASCII part of toLower, toInt on digit strings, and the character classes
 * of the regular expressions it uses (`\s`, `\d`, `[[:blank:]]`).
 */
module QtText {
  import opened Wrappers

  // ---------------------------------------------------------------- characters

  /** QChar::isSpace: \t \n \v \f \r, U+0085 and the Unicode separator characters. */
  predicate IsSpace(c: char)
  {
    c == ' ' || c == '\t' || c == '\n' || c == '\U{B}' || c == '\U{C}' || c == '\r'
    || c == '\U{85}' || c == '\U{A0}' || c == '\U{1680}' || ('\U{2000}' <= c <= '\U{200A}')
    || c == '\U{2028}' || c == '\U{2029}' || c == '\U{202F}' || c == '\U{205F}' || c == '\U{3000}'
  }

  /** `\s` of a regular expression without Unicode properties: the six ASCII white spaces. */
  predicate IsRegexSpace(c: char)
  {
    c == ' ' || c == '\t' || c == '\n' || c == '\U{B}' || c == '\U{C}' || c == '\r'
  }

  /** `[[:blank:]]`: space and tab. */
  predicate IsBlank(c: char)
  {
    c == ' ' || c == '\t'
  }

  /** `\d` and `[0-9]` and `[[:digit:]]`. */
  predicate IsDigit(c: char)
  {
    '0' <= c <= '9'
  }

  predicate IsLowerAlnum(c: char)
  {
    ('a' <= c <= 'z') || IsDigit(c)
  }

  predicate IsUpperAlnum(c: char)
  {
    ('A' <= c <= 'Z') || IsDigit(c)
  }

  /** `[[:xdigit:]]`. */
  predicate IsHexDigit(c: char)
  {
    IsDigit(c) || ('a' <= c <= 'f') || ('A' <= c <= 'F')
  }

  predicate AllDigits(s: string)
  {
    forall i :: 0 <= i < |s| ==> IsDigit(s[i])
  }

  function LowerChar(c: char): char
  {
    if 'A' <= c <= 'Z' then (c as int + 32) as char else c
  }

  /** QString::toLower restricted to ASCII letters. */
  function ToLower(s: string): (r: string)
    ensures |r| == |s|
    ensures forall i :: 0 <= i < |s| ==> r[i] == LowerChar(s[i])
  {
    if s == [] then [] else [LowerChar(s[0])] + ToLower(s[1..])
  }

  /** Qt::CaseInsensitive equality. */
  predicate EqualsIgnoreCase(a: string, b: string)
  {
    ToLower(a) == ToLower(b)
  }

  // ------------------------------------------------------- prefixes and suffixes

  predicate StartsWith(s: string, p: string)
  {
    |p| <= |s| && s[..|p|] == p
  }

  predicate EndsWith(s: string, p: string)
  {
    |p| <= |s| && s[|s| - |p|..] == p
  }

  /** a + b ends with b. */
  lemma EndsWithSuffix(a: string, b: string)
    ensures EndsWith(a + b, b)
  {
    assert (a + b)[|a|..] == b;
  }

  /** QString::startsWith(p, Qt::CaseInsensitive), folding ASCII letters only. */
  predicate StartsWithIgnoreCase(s: string, p: string)
  {
    |p| <= |s| && EqualsIgnoreCase(s[..|p|], p)
  }

  /** p occurs in s at index i. */
  predicate OccursAt(s: string, p: string, i: int)
  {
    0 <= i && i + |p| <= |s| && s[i..i + |p|] == p
  }

  /** QString::contains(QString). */
  predicate Contains(s: string, p: string)
  {
    |p| == 0 || Find(s, p).Some?
  }

  lemma ContainsAt(s: string, p: string, i: int)
    requires OccursAt(s, p, i)
    ensures Contains(s, p)
  {
  }

  /** QString::chop(n) applied only where the caller checked the suffix. */
  function Chop(s: string, n: nat): (r: string)
    requires n <= |s|
    ensures |r| == |s| - n && r == s[..|s| - n]
  {
    s[..|s| - n]
  }

  /** s with the prefix p removed when it has it. */
  function StripPrefix(s: string, p: string): (r: string)
    ensures StartsWith(s, p) ==> p + r == s
    ensures !StartsWith(s, p) ==> r == s
  {
    if StartsWith(s, p) then s[|p|..] else s
  }

  // ------------------------------------------------------------------ trimming

  function TrimStart(s: string): (r: string)
    ensures |r| <= |s| && r == s[|s| - |r|..]
    ensures |r| > 0 ==> !IsSpace(r[0])
    ensures forall i :: 0 <= i < |s| - |r| ==> IsSpace(s[i])
  {
    if |s| > 0 && IsSpace(s[0]) then TrimStart(s[1..]) else s
  }

  function TrimEnd(s: string): (r: string)
    ensures |r| <= |s| && r == s[..|r|]
    ensures |r| > 0 ==> !IsSpace(r[|r| - 1])
    ensures forall i :: |r| <= i < |s| ==> IsSpace(s[i])
  {
    if |s| > 0 && IsSpace(s[|s| - 1]) then TrimEnd(s[..|s| - 1]) else s
  }

  /** QString::trimmed: white space removed from both ends. */
  function Trimmed(s: string): (r: string)
  {
    TrimEnd(TrimStart(s))
  }

  /** A string that neither starts nor ends with white space. */
  predicate IsTrimmed(s: string)
  {
    |s| == 0 || (!IsSpace(s[0]) && !IsSpace(s[|s| - 1]))
  }

  lemma TrimmedOfTrimmed(s: string)
    requires IsTrimmed(s)
    ensures Trimmed(s) == s
  {
  }

  /** trimmed() returns the middle of its input, with no white space at either end, and is idempotent. */
  lemma TrimmedShape(s: string)
    ensures IsTrimmed(Trimmed(s))
    ensures Trimmed(Trimmed(s)) == Trimmed(s)
    ensures OccursAt(s, Trimmed(s), |s| - |TrimStart(s)|)
  {
    TrimmedEnds(s);
    TrimmedOfTrimmed(Trimmed(s));
    TrimmedPosition(s);
  }

  lemma TrimmedEnds(s: string)
    ensures IsTrimmed(Trimmed(s))
  {
    var a := TrimStart(s);
    var r := TrimEnd(a);
    if |r| > 0 {
      assert r[0] == a[0];
      assert !IsSpace(r[|r| - 1]);
    }
  }

  lemma TrimmedPosition(s: string)
    ensures OccursAt(s, Trimmed(s), |s| - |TrimStart(s)|)
  {
    PrefixOfSuffix(s, TrimStart(s), Trimmed(s));
  }

  /** A prefix of a suffix of s occurs in s where the suffix starts. */
  lemma PrefixOfSuffix(s: string, a: string, r: string)
    requires |a| <= |s| && a == s[|s| - |a|..]
    requires |r| <= |a| && r == a[..|r|]
    ensures OccursAt(s, r, |s| - |a|)
  {
    var i := |s| - |a|;
    assert s[i..][..|r|] == s[i..i + |r|];
  }

  // ------------------------------------------------------- searching and splits

  /** Occurrences in s at index i >= 1 are occurrences in s[1..] at i - 1. */
  lemma OccursAtShift(s: string, p: string)
    requires |s| > 0
    ensures forall i :: 1 <= i ==> (OccursAt(s, p, i) <==> OccursAt(s[1..], p, i - 1))
  {
    forall i | 1 <= i
      ensures OccursAt(s, p, i) <==> OccursAt(s[1..], p, i - 1)
    {
      if i + |p| <= |s| {
        var a, b := s[i..i + |p|], s[1..][i - 1..i - 1 + |p|];
        assert |a| == |b|;
        assert forall j :: 0 <= j < |a| ==> a[j] == b[j];
      }
    }
  }

  /** The first index at which p occurs in s. */
  function Find(s: string, p: string): (r: Option<nat>)
    requires |p| > 0
    ensures r.Some? ==> OccursAt(s, p, r.value)
    ensures r.Some? ==> forall i :: 0 <= i < r.value ==> !OccursAt(s, p, i)
    ensures r.None? ==> forall i :: !OccursAt(s, p, i)
    decreases |s|
  {
    if |s| < |p| then None
    else if s[..|p|] == p then Some(0)
    else
      OccursAtShift(s, p);
      match Find(s[1..], p)
      case None => None
      case Some(k) => Some(k + 1)
  }

  lemma FindContains(s: string, p: string)
    requires |p| > 0
    ensures Contains(s, p) <==> exists i :: OccursAt(s, p, i)
  {
  }

  /** QString::split(sep) and QString::section's field list, empty parts kept. */
  function SplitBy(s: string, sep: string): (r: seq<string>)
    requires |sep| > 0
    ensures |r| >= 1
    decreases |s|
  {
    match Find(s, sep)
    case None => [s]
    case Some(i) => [s[..i]] + SplitBy(s[i + |sep|..], sep)
  }

  /** QStringList::join(sep). */
  function JoinBy(parts: seq<string>, sep: string): string
  {
    if |parts| == 0 then ""
    else if |parts| == 1 then parts[0]
    else parts[0] + sep + JoinBy(parts[1..], sep)
  }

  function Split(s: string, c: char): (r: seq<string>)
    ensures |r| >= 1
  {
    SplitBy(s, [c])
  }

  function Join(parts: seq<string>, c: char): string
  {
    JoinBy(parts, [c])
  }

  /** Joining the parts of a split gives back the string. */
  lemma {:induction false} JoinSplitBy(s: string, sep: string)
    requires |sep| > 0
    ensures JoinBy(SplitBy(s, sep), sep) == s
    decreases |s|
  {
    match Find(s, sep)
    case None =>
    case Some(i) =>
      var rest := s[i + |sep|..];
      var parts := SplitBy(rest, sep);
      JoinSplitBy(rest, sep);
      assert SplitBy(s, sep) == [s[..i]] + parts;
      assert ([s[..i]] + parts)[1..] == parts;
      assert JoinBy([s[..i]] + parts, sep) == s[..i] + sep + JoinBy(parts, sep);
      assert s[i..i + |sep|] == sep;
      assert s == s[..i] + s[i..i + |sep|] + rest;
  }

  lemma JoinSplit(s: string, c: char)
    ensures Join(Split(s, c), c) == s
  {
    JoinSplitBy(s, [c]);
  }

  /** A one-character pattern occurs exactly where that character is. */
  lemma OccursAtChar(s: string, c: char)
    ensures forall i :: OccursAt(s, [c], i) <==> (0 <= i < |s| && s[i] == c)
  {
    forall i | 0 <= i < |s|
      ensures OccursAt(s, [c], i) <==> s[i] == c
    {
      assert s[i..i + 1] == [s[i]];
    }
  }

  /** The first occurrence of c in s, as Find sees it. */
  lemma {:induction false} FindChar(s: string, c: char, k: nat)
    requires k < |s| && s[k] == c && c !in s[..k]
    ensures Find(s, [c]) == Some(k)
    decreases k
  {
    if k == 0 {
      assert s[..1] == [c];
    } else {
      assert s[0] in s[..k];
      assert s[..1] != [c] by {
        assert s[..1][0] == s[0];
      }
      assert s[1..][..k - 1] == s[1..k];
      assert c !in s[1..k] by {
        assert forall x | x in s[1..k] :: x in s[..k];
      }
      FindChar(s[1..], c, k - 1);
    }
  }

  lemma FindNoChar(s: string, c: char)
    requires c !in s
    ensures Find(s, [c]) == None
  {
    OccursAtChar(s, c);
  }

  /** No part of a split contains the separator character. */
  lemma {:induction false} SplitPartsFree(s: string, c: char)
    ensures forall i :: 0 <= i < |Split(s, c)| ==> c !in Split(s, c)[i]
    decreases |s|
  {
    OccursAtChar(s, c);
    match Find(s, [c])
    case None =>
      assert Split(s, c) == [s];
    case Some(i) =>
      var rest := s[i + 1..];
      SplitPartsFree(rest, c);
      assert Split(s, c) == [s[..i]] + Split(rest, c);
      assert forall k :: 0 <= k < i ==> s[..i][k] == s[k];
  }

  /** Splitting a join of separator-free parts gives back the parts. */
  lemma {:induction false} SplitJoin(parts: seq<string>, c: char)
    requires |parts| >= 1
    requires forall i :: 0 <= i < |parts| ==> c !in parts[i]
    ensures Split(Join(parts, c), c) == parts
    decreases |parts|
  {
    if |parts| == 1 {
      FindNoChar(parts[0], c);
    } else {
      var rest := Join(parts[1..], c);
      var s := parts[0] + [c] + rest;
      assert Join(parts, c) == s;
      assert s[..|parts[0]|] == parts[0];
      FindChar(s, c, |parts[0]|);
      assert s[|parts[0]| + 1..] == rest;
      SplitJoin(parts[1..], c);
      assert Split(s, c) == [parts[0]] + Split(rest, c);
    }
  }

  /** The parts that are not empty, in order (Qt::SkipEmptyParts). */
  function NonEmpty(parts: seq<string>): (r: seq<string>)
    ensures forall i :: 0 <= i < |r| ==> r[i] != "" && r[i] in parts
    ensures |r| <= |parts|
  {
    if parts == [] then []
    else (if parts[0] == "" then [] else [parts[0]]) + NonEmpty(parts[1..])
  }

  function SplitSkipEmpty(s: string, c: char): seq<string>
  {
    NonEmpty(Split(s, c))
  }

  lemma {:induction false} NonEmptyOfNonEmpty(parts: seq<string>)
    requires forall i :: 0 <= i < |parts| ==> parts[i] != ""
    ensures NonEmpty(parts) == parts
  {
    if parts != [] {
      NonEmptyOfNonEmpty(parts[1..]);
    }
  }

  /**
   * Joining non-empty, separator-free parts and splitting with empty parts
   * skipped gives back the parts, the empty list included.
   */
  lemma SplitSkipEmptyJoin(parts: seq<string>, c: char)
    requires forall i :: 0 <= i < |parts| ==> parts[i] != "" && c !in parts[i]
    ensures SplitSkipEmpty(Join(parts, c), c) == parts
  {
    if parts == [] {
      FindNoChar("", c);
      assert Split("", c) == [""];
    } else {
      SplitJoin(parts, c);
      NonEmptyOfNonEmpty(parts);
    }
  }

  /** QString::section(sep, k, k): field k of the split, or "" past the last one. */
  function Section(s: string, sep: string, k: nat): string
    requires |sep| > 0
  {
    var f := SplitBy(s, sep);
    if k < |f| then f[k] else ""
  }

  /** QString::section(sep, k) (up to the last field), or "" past the last one. */
  function SectionFrom(s: string, sep: string, k: nat): string
    requires |sep| > 0
  {
    var f := SplitBy(s, sep);
    if k < |f| then JoinBy(f[k..], sep) else ""
  }

  /** Splitting once: the first field, the separator and the remaining fields make the string. */
  lemma SectionHeadTail(s: string, c: char)
    requires c in s
    ensures Section(s, [c], 0) + [c] + SectionFrom(s, [c], 1) == s
    ensures c !in Section(s, [c], 0)
  {
    var k :| 0 <= k < |s| && s[k] == c;
    var i: nat := 0;
    while s[i] != c
      invariant 0 <= i <= k && c !in s[..i]
      decreases k - i
    {
      assert s[..i + 1] == s[..i] + [s[i]];
      i := i + 1;
    }
    var p, rest := s[..i], s[i + 1..];
    assert s == p + [c] + rest;
    SectionAt(p, c, rest);
  }

  /** Before the first separator is field 0; after it, the rest of the string. */
  lemma SectionAt(p: string, c: char, rest: string)
    requires c !in p
    ensures Section(p + [c] + rest, [c], 0) == p
    ensures SectionFrom(p + [c] + rest, [c], 1) == rest
  {
    var s := p + [c] + rest;
    assert s[..|p|] == p && s[|p|] == c;
    FindChar(s, c, |p|);
    assert s[|p| + 1..] == rest;
    var f := SplitBy(s, [c]);
    assert f == [p] + SplitBy(rest, [c]);
    assert f[1..] == SplitBy(rest, [c]);
    JoinSplitBy(rest, [c]);
  }

  /** A string without the separator is its own field 0 and has nothing after it. */
  lemma SectionNoSep(s: string, c: char)
    requires c !in s
    ensures Section(s, [c], 0) == s && SectionFrom(s, [c], 1) == ""
  {
    FindNoChar(s, c);
  }

  /** The end of the run of characters satisfying inRun that starts at index i. */
  function SpanEnd(s: string, i: nat, inRun: char -> bool): (j: nat)
    requires i <= |s|
    ensures i <= j <= |s|
    ensures forall k :: i <= k < j ==> inRun(s[k])
    ensures j < |s| ==> !inRun(s[j])
    decreases |s| - i
  {
    if i < |s| && inRun(s[i]) then SpanEnd(s, i + 1, inRun) else i
  }

  /** A run that ends where the property first fails is the run SpanEnd finds. */
  lemma {:induction false} SpanEndAt(s: string, i: nat, j: nat, inRun: char -> bool)
    requires i <= j <= |s|
    requires forall k :: i <= k < j ==> inRun(s[k])
    requires j < |s| ==> !inRun(s[j])
    ensures SpanEnd(s, i, inRun) == j
    decreases j - i
  {
    if i < j {
      SpanEndAt(s, i + 1, j, inRun);
    }
  }

  // --------------------------------------------------- replacing and removing

  /** QString::replace(before, after): every occurrence, scanning left to right. */
  function Replace(s: string, before: string, after: string): string
    requires |before| > 0
    decreases |s|
  {
    match Find(s, before)
    case None => s
    case Some(i) => s[..i] + after + Replace(s[i + |before|..], before, after)
  }

  /** QString::remove(QChar): every occurrence of c. */
  function RemoveChar(s: string, c: char): (r: string)
    ensures c !in r
    ensures forall x :: x in r ==> x in s
  {
    if s == [] then []
    else (if s[0] == c then [] else [s[0]]) + RemoveChar(s[1..], c)
  }

  // --------------------------------------------------------------- end anchor

  /**
   * The text before the position where a regular expression's `$` matches:
   * `$` matches at the end, and also just before a final newline.
   */
  function BeforeFinalNewline(s: string): (r: string)
    ensures r == s || (r + "\n" == s)
  {
    if |s| > 0 && s[|s| - 1] == '\n' then s[..|s| - 1] else s
  }

  // --------------------------------------------------------- digits and ints

  /** Length of the run of digits at the end of s. */
  function TrailingDigitCount(s: string): (n: nat)
    ensures n <= |s|
    ensures AllDigits(s[|s| - n..])
    ensures n < |s| ==> !IsDigit(s[|s| - n - 1])
  {
    if |s| > 0 && IsDigit(s[|s| - 1]) then
      var t := s[..|s| - 1];
      var n := TrailingDigitCount(t);
      var whole, part := s[|s| - (n + 1)..], t[|t| - n..];
      assert forall k :: 0 <= k < n ==> whole[k] == part[k];
      n + 1
    else 0
  }

  /** Length of the run of characters satisfying IsDigit at the start of s. */
  function LeadingDigitCount(s: string): (n: nat)
    ensures n <= |s|
    ensures AllDigits(s[..n])
    ensures n < |s| ==> !IsDigit(s[n])
  {
    if |s| > 0 && IsDigit(s[0]) then
      var n := LeadingDigitCount(s[1..]);
      assert [s[0]] + s[1..][..n] == s[..n + 1];
      n + 1
    else 0
  }

  function DigitValue(s: string): nat
    requires AllDigits(s)
  {
    if s == [] then 0 else DigitValue(s[..|s| - 1]) * 10 + (s[|s| - 1] as int - '0' as int)
  }

  /** Appending a digit multiplies the value read so far by ten and adds that digit. */
  lemma DigitValueAppend(s: string, c: char)
    requires AllDigits(s) && IsDigit(c)
    ensures DigitValue(s + [c]) == DigitValue(s) * 10 + (c as int - '0' as int)
  {
    assert (s + [c])[..|s|] == s;
  }

  const INT_MAX: int := 0x7fff_ffff

  /** QString::toInt on a string of decimal digits: 0 when the value does not fit in an int. */
  function ToInt(s: string): (r: int)
    requires AllDigits(s)
    ensures 0 <= r <= INT_MAX
    ensures r == DigitValue(s) || r == 0
  {
    if DigitValue(s) <= INT_MAX then DigitValue(s) else 0
  }

  // ---------------------------------------------------------- lexicographic

  /** QString's operator<: code-point order, a proper prefix first. This equals QString's
      UTF-16 code-unit order for text in the Basic Multilingual Plane (U+0000 to U+FFFF). */
  predicate LexLess(a: string, b: string)
    decreases |a|
  {
    if |a| == 0 then |b| > 0
    else if |b| == 0 then false
    else if a[0] != b[0] then a[0] < b[0]
    else LexLess(a[1..], b[1..])
  }

  lemma {:induction false} LexLessIrreflexive(a: string)
    ensures !LexLess(a, a)
    decreases |a|
  {
    if |a| > 0 {
      LexLessIrreflexive(a[1..]);
    }
  }

  lemma {:induction false} LexLessTotal(a: string, b: string)
    ensures a == b || LexLess(a, b) || LexLess(b, a)
    ensures !(LexLess(a, b) && LexLess(b, a))
    decreases |a|
  {
    if |a| > 0 && |b| > 0 && a[0] == b[0] {
      LexLessTotal(a[1..], b[1..]);
      if a[1..] == b[1..] {
        assert a == [a[0]] + a[1..] && b == [b[0]] + b[1..];
      }
    }
  }

  lemma {:induction false} LexLessTransitive(a: string, b: string, c: string)
    requires LexLess(a, b) && LexLess(b, c)
    ensures LexLess(a, c)
    decreases |a|
  {
    if |a| > 0 && a[0] == b[0] && b[0] == c[0] {
      LexLessTransitive(a[1..], b[1..], c[1..]);
    }
  }
}
