/** The operations of Python's `str` that the version and requirement parser relies on:
    character classes, `strip()`, `split()`, `split(sep)`, `sep.join(...)`,
    `rsplit(sep, 1)[0]`, `replace(".*", "")`, the `<=` comparison, `int(...)` and `str(...)`. */
module PyStr {

  predicate IsDigit(c: char) { '0' <= c <= '9' }

  predicate IsAsciiLetter(c: char) { 'a' <= c <= 'z' || 'A' <= c <= 'Z' }

  /** `c.isspace()`, the whitespace that `str.split()` and `str.strip()` remove. */
  predicate IsSpace(c: char) {
    var n := c as int;
    (0x09 <= n <= 0x0D) || (0x1C <= n <= 0x20) || n == 0x85 || n == 0xA0 || n == 0x1680 ||
    (0x2000 <= n <= 0x200A) || n == 0x2028 || n == 0x2029 || n == 0x202F || n == 0x205F || n == 0x3000
  }

  predicate AllDigits(s: string) { forall k :: 0 <= k < |s| ==> IsDigit(s[k]) }

  /** A non-empty run of ASCII digits, what the regex `[0-9]+` matches. */
  predicate IsNumeral(s: string) { |s| > 0 && AllDigits(s) }

  predicate IsPrefix(p: string, s: string) { |p| <= |s| && s[..|p|] == p }

  // ---------------------------------------------------------------------------
  // `a <= b` on strings

  /** Python's `a <= b` on `str`: lexicographic order of code points, a prefix first. */
  predicate LexLe(a: string, b: string)
    decreases |a|
  {
    |a| == 0 || (|b| > 0 && (a[0] < b[0] || (a[0] == b[0] && LexLe(a[1..], b[1..]))))
  }

  /** `a` and `b` agree before position `k`, where `a` has the smaller code point. */
  predicate FirstDiffLess(a: string, b: string, k: nat)
  {
    k < |a| && k < |b| && a[..k] == b[..k] && a[k] < b[k]
  }

  lemma FirstDiffTail(a: string, b: string, k: nat)
    requires |a| > 0 && |b| > 0 && a[0] == b[0] && k > 0
    ensures FirstDiffLess(a, b, k) <==> FirstDiffLess(a[1..], b[1..], k - 1)
  {
    if k <= |a| && k <= |b| {
      assert a[..k] == [a[0]] + a[1..][..k - 1] && b[..k] == [b[0]] + b[1..][..k - 1];
    }
  }

  lemma PrefixTail(a: string, b: string)
    requires |a| > 0 && |b| > 0 && a[0] == b[0]
    ensures IsPrefix(a, b) <==> IsPrefix(a[1..], b[1..])
  {
    if |a| <= |b| {
      assert b[..|a|] == [b[0]] + b[1..][..|a| - 1];
      assert a == [a[0]] + a[1..];
    }
  }

  /** `LexLe` agrees with the textbook definition: `a` is a prefix of `b`, or the two first
      differ at a position where `a` has the smaller code point. */
  lemma {:induction false} LexLeIff(a: string, b: string)
    ensures LexLe(a, b) <==> IsPrefix(a, b) || exists k: nat :: FirstDiffLess(a, b, k)
    decreases |a|
  {
    if |a| > 0 && |b| > 0 {
      if a[0] == b[0] {
        LexLeIff(a[1..], b[1..]);
        PrefixTail(a, b);
        if exists k: nat :: FirstDiffLess(a, b, k) {
          var k: nat :| FirstDiffLess(a, b, k);
          FirstDiffTail(a, b, k);
        }
        if exists k: nat :: FirstDiffLess(a[1..], b[1..], k) {
          var k: nat :| FirstDiffLess(a[1..], b[1..], k);
          FirstDiffTail(a, b, k + 1);
        }
      } else if a[0] < b[0] {
        assert FirstDiffLess(a, b, 0);
      }
    }
  }

  /** A prefix is at most the string it starts. */
  lemma LexLePrefix(p: string, s: string)
    requires IsPrefix(p, s)
    ensures LexLe(p, s)
  {
    LexLeIff(p, s);
  }

  lemma {:induction false} LexLeReflexive(a: string)
    ensures LexLe(a, a)
    decreases |a|
  {
    if |a| > 0 { LexLeReflexive(a[1..]); }
  }

  lemma {:induction false} LexLeAntisymmetric(a: string, b: string)
    requires LexLe(a, b) && LexLe(b, a)
    ensures a == b
    decreases |a|
  {
    if |a| > 0 && |b| > 0 {
      LexLeAntisymmetric(a[1..], b[1..]);
      assert a == [a[0]] + a[1..] && b == [b[0]] + b[1..];
    }
  }

  lemma {:induction false} LexLeTransitive(a: string, b: string, c: string)
    requires LexLe(a, b) && LexLe(b, c)
    ensures LexLe(a, c)
    decreases |a|
  {
    if |a| > 0 && a[0] == b[0] && b[0] == c[0] {
      LexLeTransitive(a[1..], b[1..], c[1..]);
    }
  }

  lemma {:induction false} LexLeTotal(a: string, b: string)
    ensures LexLe(a, b) || LexLe(b, a)
    decreases |a|
  {
    if |a| > 0 && |b| > 0 && a[0] == b[0] {
      LexLeTotal(a[1..], b[1..]);
    }
  }

  // ---------------------------------------------------------------------------
  // `int(s)` and `str(n)`

  function DigitValue(c: char): nat
    requires IsDigit(c)
  {
    c as int - '0' as int
  }

  function DigitChar(d: nat): (c: char)
    requires d < 10
    ensures IsDigit(c) && DigitValue(c) == d
  {
    ('0' as int + d) as char
  }

  /** `int(s)` for a string of ASCII digits. */
  function Value(s: string): nat
    requires AllDigits(s)
    decreases |s|
  {
    if |s| == 0 then 0 else 10 * Value(s[..|s| - 1]) + DigitValue(s[|s| - 1])
  }

  /** `str(n)` for a natural number: its decimal digits, with a leading zero only for 0 itself. */
  function NatToString(n: nat): (s: string)
    ensures IsNumeral(s)
    ensures (s[0] == '0') == (n == 0)
    decreases n
  {
    if n < 10 then [DigitChar(n)] else NatToString(n / 10) + [DigitChar(n % 10)]
  }

  /** `int(str(n)) == n`. */
  lemma {:induction false} ValueOfNatToString(n: nat)
    ensures Value(NatToString(n)) == n
    decreases n
  {
    if n >= 10 {
      ValueOfNatToString(n / 10);
      var s := NatToString(n);
      assert s[..|s| - 1] == NatToString(n / 10);
    }
  }

  // ---------------------------------------------------------------------------
  // `split(sep)`, `sep.join(...)`, `rsplit(sep, 1)[0]`, `"".join(...)`

  /** `s.rfind(c)`: the index of the last occurrence of `c`, or -1. */
  function LastIndexOf(s: string, c: char): (k: int)
    ensures -1 <= k < |s|
    ensures k >= 0 ==> s[k] == c
    ensures forall j :: k < j < |s| ==> s[j] != c
    decreases |s|
  {
    if |s| == 0 then -1
    else if s[|s| - 1] == c then |s| - 1
    else LastIndexOf(s[..|s| - 1], c)
  }

  /** `s.split(sep)`: the pieces between occurrences of `sep`, empty pieces kept. */
  function Split(s: string, sep: char): (parts: seq<string>)
    ensures |parts| >= 1
    decreases |s|
  {
    var k := LastIndexOf(s, sep);
    if k < 0 then [s] else Split(s[..k], sep) + [s[k + 1..]]
  }

  /** The last piece of a split is what follows the last separator. */
  lemma SplitLast(s: string, sep: char)
    ensures Split(s, sep)[|Split(s, sep)| - 1] == s[LastIndexOf(s, sep) + 1..]
  {
    if LastIndexOf(s, sep) < 0 {
      assert s[0..] == s;
    }
  }

  /** `sep.join(parts)`. */
  function Join(parts: seq<string>, sep: char): string
    decreases |parts|
  {
    if |parts| == 0 then []
    else if |parts| == 1 then parts[0]
    else Join(parts[..|parts| - 1], sep) + [sep] + parts[|parts| - 1]
  }

  /** Joining the pieces of a split gives the string back. */
  lemma {:induction false} JoinSplit(s: string, sep: char)
    ensures Join(Split(s, sep), sep) == s
    decreases |s|
  {
    var k := LastIndexOf(s, sep);
    if k >= 0 {
      JoinSplit(s[..k], sep);
      var p := Split(s[..k], sep);
      assert Split(s, sep) == p + [s[k + 1..]];
      assert (p + [s[k + 1..]])[..|p|] == p;
      assert s == s[..k] + [sep] + s[k + 1..];
    }
  }

  /** Every character of `sep.join(parts)` is `sep` or a character of one of the parts, so a
      property they all have holds of every character of the join. */
  lemma {:induction false} JoinKeeps(parts: seq<string>, sep: char, P: char -> bool)
    requires P(sep)
    requires forall i, k :: 0 <= i < |parts| && 0 <= k < |parts[i]| ==> P(parts[i][k])
    ensures forall k :: 0 <= k < |Join(parts, sep)| ==> P(Join(parts, sep)[k])
    decreases |parts|
  {
    if |parts| > 1 {
      var init, last := parts[..|parts| - 1], parts[|parts| - 1];
      JoinKeeps(init, sep, P);
      var j := Join(init, sep);
      var s := j + [sep] + last;
      forall k | 0 <= k < |s| ensures P(s[k]) {
        if k < |j| {
          assert s[k] == j[k];
        } else if k > |j| {
          assert s[k] == last[k - |j| - 1];
        }
      }
    }
  }

  /** Splitting a join of separator-free pieces gives the pieces back. */
  lemma {:induction false} SplitJoin(parts: seq<string>, sep: char)
    requires |parts| >= 1
    requires forall i :: 0 <= i < |parts| ==> sep !in parts[i]
    ensures Split(Join(parts, sep), sep) == parts
    decreases |parts|
  {
    if |parts| > 1 {
      var init, last := parts[..|parts| - 1], parts[|parts| - 1];
      SplitJoin(init, sep);
      var j := Join(init, sep);
      var s := j + [sep] + last;
      assert s == Join(parts, sep);
      var k := LastIndexOf(s, sep);
      assert s[|j|] == sep;
      assert k == |j|;
      assert s[..k] == j && s[k + 1..] == last;
      assert parts == init + [last];
    }
  }

  /** `s.rsplit(sep, 1)[0]`: everything before the last `sep`, or all of `s` when there is none. */
  function RSplitHead(s: string, sep: char): string
  {
    var k := LastIndexOf(s, sep);
    if k < 0 then s else s[..k]
  }

  /** `rsplit(sep, 1)[0]` is the join of all pieces of `split(sep)` but the last. */
  lemma RSplitHeadIsInit(s: string, sep: char)
    ensures |Split(s, sep)| == 1 ==> RSplitHead(s, sep) == s
    ensures |Split(s, sep)| > 1 ==>
              RSplitHead(s, sep) == Join(Split(s, sep)[..|Split(s, sep)| - 1], sep)
  {
    var k := LastIndexOf(s, sep);
    if k >= 0 {
      JoinSplit(s[..k], sep);
      var p := Split(s[..k], sep);
      assert Split(s, sep)[..|Split(s, sep)| - 1] == p;
    }
  }

  /** `"".join(parts)`. */
  function Concat(parts: seq<string>): string
    decreases |parts|
  {
    if |parts| == 0 then [] else Concat(parts[..|parts| - 1]) + parts[|parts| - 1]
  }

  /** `"".join([w])` is `w`. */
  lemma ConcatOne(w: string)
    ensures Concat([w]) == w
  {
    assert [w][..0] == [];
  }

  // ---------------------------------------------------------------------------
  // `strip()` and `split()`

  /** The first index at or after `i` that does not hold whitespace. */
  function SkipSpaces(s: string, i: nat): (j: nat)
    requires i <= |s|
    ensures i <= j <= |s|
    ensures forall k :: i <= k < j ==> IsSpace(s[k])
    ensures j == |s| || !IsSpace(s[j])
    decreases |s| - i
  {
    if i < |s| && IsSpace(s[i]) then SkipSpaces(s, i + 1) else i
  }

  /** The start of the run of whitespace that ends at `j`. */
  function SkipSpacesBack(s: string, j: nat): (i: nat)
    requires j <= |s|
    ensures i <= j
    ensures forall k :: i <= k < j ==> IsSpace(s[k])
    ensures i == 0 || !IsSpace(s[i - 1])
    decreases j
  {
    if j > 0 && IsSpace(s[j - 1]) then SkipSpacesBack(s, j - 1) else j
  }

  /** `s.strip()`. */
  function Strip(s: string): string
  {
    var a, b := SkipSpaces(s, 0), SkipSpacesBack(s, |s|);
    if a <= b then s[a..b] else []
  }

  /** `strip()` returns its argument when the argument neither starts nor ends with whitespace. */
  lemma StripUnchanged(s: string)
    requires |s| > 0 && !IsSpace(s[0]) && !IsSpace(s[|s| - 1])
    ensures Strip(s) == s
  {
    assert SkipSpaces(s, 0) == 0 && SkipSpacesBack(s, |s|) == |s|;
  }

  /** For a string whose first character is not whitespace, `strip()` leaves exactly that
      character when, and only when, everything after it is whitespace. */
  lemma StripToFirst(s: string)
    requires |s| > 0 && !IsSpace(s[0])
    ensures Strip(s) == s[..1] <==> forall k :: 1 <= k < |s| ==> IsSpace(s[k])
  {
    var b := SkipSpacesBack(s, |s|);
    assert SkipSpaces(s, 0) == 0;
    assert b >= 1;
    if Strip(s) == s[..1] {
      assert |s[0..b]| == 1;
    }
  }

  /** The end of the run of non-whitespace characters that starts at `i`. */
  function WordEnd(s: string, i: nat): (j: nat)
    requires i <= |s|
    ensures i <= j <= |s|
    ensures forall k :: i <= k < j ==> !IsSpace(s[k])
    ensures j == |s| || IsSpace(s[j])
    decreases |s| - i
  {
    if i < |s| && !IsSpace(s[i]) then WordEnd(s, i + 1) else i
  }

  predicate IsWord(w: string) { |w| > 0 && forall k :: 0 <= k < |w| ==> !IsSpace(w[k]) }

  /** The words of `s[i..]`. */
  function WordsFrom(s: string, i: nat): (words: seq<string>)
    requires i <= |s|
    ensures forall n :: 0 <= n < |words| ==> IsWord(words[n])
    decreases |s| - i
  {
    if i == |s| then []
    else if IsSpace(s[i]) then WordsFrom(s, i + 1)
    else
      var j := WordEnd(s, i);
      [s[i..j]] + WordsFrom(s, j)
  }

  /** `s.split()`: the maximal runs of non-whitespace characters, in order. */
  function Words(s: string): seq<string>
  {
    WordsFrom(s, 0)
  }

  lemma {:induction false} WordsFromEmpty(s: string, i: nat)
    requires i <= |s|
    ensures WordsFrom(s, i) == [] <==> forall k :: i <= k < |s| ==> IsSpace(s[k])
    decreases |s| - i
  {
    if i < |s| && IsSpace(s[i]) {
      WordsFromEmpty(s, i + 1);
    }
  }

  /** `s.split()` is empty exactly when `s` holds nothing but whitespace. */
  lemma WordsEmpty(s: string)
    ensures Words(s) == [] <==> forall k :: 0 <= k < |s| ==> IsSpace(s[k])
  {
    WordsFromEmpty(s, 0);
  }

  lemma {:induction false} FirstWordFrom(s: string, i: nat)
    requires i <= |s|
    requires WordsFrom(s, i) != []
    ensures SkipSpaces(s, i) < |s|
    ensures WordsFrom(s, i)[0] == s[SkipSpaces(s, i)..WordEnd(s, SkipSpaces(s, i))]
    decreases |s| - i
  {
    if IsSpace(s[i]) {
      FirstWordFrom(s, i + 1);
    }
  }

  /** The first word of `s.split()` starts at the first non-whitespace character and runs up to
      the next whitespace character or the end. */
  lemma FirstWord(s: string)
    requires Words(s) != []
    ensures SkipSpaces(s, 0) < |s|
    ensures Words(s)[0] == s[SkipSpaces(s, 0)..WordEnd(s, SkipSpaces(s, 0))]
  {
    FirstWordFrom(s, 0);
  }

  /** A word that starts at `i` ends at the first whitespace after it, or at the end. */
  lemma {:induction false} WordEndAt(s: string, i: nat, j: nat)
    requires i <= j <= |s|
    requires forall k :: i <= k < j ==> !IsSpace(s[k])
    requires j == |s| || IsSpace(s[j])
    ensures WordEnd(s, i) == j
    decreases j - i
  {
    if i < j {
      WordEndAt(s, i + 1, j);
    }
  }

  /** `(a + " " + b).split()` gives back the two words. */
  lemma TwoWords(a: string, b: string)
    requires IsWord(a) && IsWord(b)
    ensures Words(a + " " + b) == [a, b]
  {
    var s := a + " " + b;
    var n := |a|;
    assert forall k :: 0 <= k < n ==> s[k] == a[k];
    assert s[n] == ' ';
    assert forall k :: n < k < |s| ==> s[k] == b[k - n - 1];
    WordEndAt(s, 0, n);
    WordEndAt(s, n + 1, |s|);
    assert s[0..n] == a && s[n + 1..|s|] == b;
    assert WordsFrom(s, n + 1) == [b];
    assert WordsFrom(s, n) == [b];
  }

  // ---------------------------------------------------------------------------
  // `".*" in s` and `s.replace(".*", "")`

  /** `".*" in s`. */
  predicate ContainsDotStar(s: string)
  {
    exists k :: 0 <= k < |s| - 1 && s[k] == '.' && s[k + 1] == '*'
  }

  /** `s.replace(".*", "")`: every non-overlapping ".*", scanning left to right, removed. */
  function RemoveDotStar(s: string): (r: string)
    ensures |r| <= |s|
    decreases |s|
  {
    if |s| == 0 then []
    else if |s| >= 2 && s[0] == '.' && s[1] == '*' then RemoveDotStar(s[2..])
    else [s[0]] + RemoveDotStar(s[1..])
  }

  /** Replacing ".*" leaves a string without ".*" unchanged. */
  lemma {:induction false} RemoveDotStarUnchanged(s: string)
    requires !ContainsDotStar(s)
    ensures RemoveDotStar(s) == s
    decreases |s|
  {
    if |s| > 0 {
      if |s| >= 2 { assert !(s[0] == '.' && s[1] == '*'); }
      forall k | 0 <= k < |s| - 2
        ensures !(s[1..][k] == '.' && s[1..][k + 1] == '*')
      {
        assert s[1..][k] == s[k + 1] && s[1..][k + 1] == s[k + 2];
      }
      RemoveDotStarUnchanged(s[1..]);
    }
  }

  /** Replacing ".*" in a string that holds it makes the string strictly shorter. */
  lemma {:induction false} RemoveDotStarShrinks(s: string)
    requires ContainsDotStar(s)
    ensures |RemoveDotStar(s)| < |s|
    decreases |s|
  {
    if !(|s| >= 2 && s[0] == '.' && s[1] == '*') {
      var k :| 0 <= k < |s| - 1 && s[k] == '.' && s[k + 1] == '*';
      assert k > 0;
      assert s[1..][k - 1] == '.' && s[1..][k] == '*';
      RemoveDotStarShrinks(s[1..]);
    }
  }
}
