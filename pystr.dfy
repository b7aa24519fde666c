/** The Python `str` operations the segmenter is built from: `find`,
    `split`, `isupper`, slicing with Python's index rules, and `str` of an
    integer.  Each is a pure function here; the lemmas state the properties
    the segmenter relies on. */
module PyStr {

  // ---------------------------------------------------------------------
  // find
  // ---------------------------------------------------------------------

  /** `needle` occurs in `haystack` starting at offset `i`. */
  predicate OccursAt(haystack: string, needle: string, i: int)
  {
    0 <= i && i + |needle| <= |haystack| && haystack[i..i + |needle|] == needle
  }

  ghost predicate Contains(haystack: string, needle: string)
  {
    exists i :: OccursAt(haystack, needle, i)
  }

  /** `i` is where `needle` occurs first in `haystack`. */
  ghost predicate IsFirstOccurrence(haystack: string, needle: string, i: int)
  {
    OccursAt(haystack, needle, i) && forall j :: 0 <= j < i ==> !OccursAt(haystack, needle, j)
  }

  /** What `str.find` promises: the first occurrence, or -1 when there is none. */
  ghost predicate Located(haystack: string, needle: string, r: int)
  {
    if r == -1 then !Contains(haystack, needle) else IsFirstOccurrence(haystack, needle, r)
  }

  /** Search for `needle` at offsets `from` and above. */
  function FindFrom(haystack: string, needle: string, from: nat): (r: int)
    requires from <= |haystack|
    ensures r == -1 || from <= r <= |haystack|
    decreases |haystack| - from
  {
    if OccursAt(haystack, needle, from) then from
    else if from == |haystack| then -1
    else FindFrom(haystack, needle, from + 1)
  }

  /** The search from `from` returns the first occurrence at or after
      `from`, or -1 when there is none there. */
  lemma {:induction false} FindFromIsFirst(haystack: string, needle: string, from: nat)
    requires from <= |haystack|
    ensures var r := FindFrom(haystack, needle, from);
      (r == -1 || OccursAt(haystack, needle, r)) &&
      (r == -1 ==> forall i :: from <= i ==> !OccursAt(haystack, needle, i)) &&
      (forall i :: from <= i < r ==> !OccursAt(haystack, needle, i))
    decreases |haystack| - from
  {
    if !OccursAt(haystack, needle, from) && from < |haystack| {
      FindFromIsFirst(haystack, needle, from + 1);
    }
  }

  /** Python's `haystack.find(needle)`. */
  function Find(haystack: string, needle: string): (r: int)
    ensures -1 <= r <= |haystack|
  {
    FindFrom(haystack, needle, 0)
  }

  /** `find` returns the first occurrence, or -1 exactly when there is none. */
  lemma FindIsLocated(haystack: string, needle: string)
    ensures Located(haystack, needle, Find(haystack, needle))
  {
    FindFromIsFirst(haystack, needle, 0);
  }

  /** `Located` pins the offset down: any two offsets that meet it are equal. */
  lemma LocatedIsUnique(haystack: string, needle: string, a: int, b: int)
    requires Located(haystack, needle, a) && Located(haystack, needle, b)
    ensures a == b
  {
  }

  /** An occurrence of `needle` inside `haystack[lo..]` is one of `haystack`. */
  lemma OccursInSuffix(haystack: string, needle: string, lo: nat, i: int)
    requires lo <= |haystack|
    requires OccursAt(haystack[lo..], needle, i)
    ensures OccursAt(haystack, needle, lo + i)
  {
    assert haystack[lo + i..lo + i + |needle|] == haystack[lo..][i..i + |needle|];
  }

  // ---------------------------------------------------------------------
  // split and join
  // ---------------------------------------------------------------------

  /** Python's `s.split(sep)` for a one-character separator: the pieces
      between separators, always at least one. */
  function Split(s: string, sep: char): (parts: seq<string>)
    ensures |parts| >= 1
  {
    if s == [] then [[]]
    else
      var rest := Split(s[1..], sep);
      if s[0] == sep then [[]] + rest
      else [[s[0]] + rest[0]] + rest[1..]
  }

  /** No piece holds the separator. */
  lemma {:induction false} SplitPiecesAvoidSeparator(s: string, sep: char)
    ensures forall k :: 0 <= k < |Split(s, sep)| ==> sep !in Split(s, sep)[k]
  {
    if s != [] {
      SplitPiecesAvoidSeparator(s[1..], sep);
    }
  }

  /** Python's `sep.join(parts)`. */
  function Join(parts: seq<string>, sep: char): string
    requires |parts| >= 1
  {
    if |parts| == 1 then parts[0] else parts[0] + [sep] + Join(parts[1..], sep)
  }

  /** Splitting loses nothing: joining the pieces gives the text back. */
  lemma {:induction false} JoinSplit(s: string, sep: char)
    ensures Join(Split(s, sep), sep) == s
  {
    if s != [] {
      var rest := Split(s[1..], sep);
      JoinSplit(s[1..], sep);
      var parts := Split(s, sep);
      if s[0] == sep {
        assert parts[1..] == rest;
      } else if |rest| == 1 {
        assert parts == [[s[0]] + rest[0]];
      } else {
        assert parts[1..] == rest[1..];
        assert Join(rest, sep) == rest[0] + [sep] + Join(rest[1..], sep);
      }
    }
  }

  /** A text without separators is one piece. */
  lemma {:induction false} SplitWithoutSeparator(w: string, sep: char)
    requires sep !in w
    ensures Split(w, sep) == [w]
  {
    if w != [] {
      SplitWithoutSeparator(w[1..], sep);
      assert [w[0]] + w[1..] == w;
    }
  }

  /** A separator-free piece followed by a separator splits off as the first piece. */
  lemma {:induction false} SplitAfterPiece(w: string, sep: char, t: string)
    requires sep !in w
    ensures Split(w + [sep] + t, sep) == [w] + Split(t, sep)
  {
    if w == [] {
      assert w + [sep] + t == [sep] + t;
      assert ([sep] + t)[1..] == t;
    } else {
      var s := w + [sep] + t;
      assert s[0] == w[0] && s[1..] == w[1..] + [sep] + t;
      SplitAfterPiece(w[1..], sep, t);
      assert [w[0]] + w[1..] == w;
    }
  }

  /** Joining separator-free pieces and splitting again gives the pieces back. */
  lemma {:induction false} SplitJoin(parts: seq<string>, sep: char)
    requires |parts| >= 1
    requires forall k :: 0 <= k < |parts| ==> sep !in parts[k]
    ensures Split(Join(parts, sep), sep) == parts
  {
    if |parts| == 1 {
      SplitWithoutSeparator(parts[0], sep);
    } else {
      SplitJoin(parts[1..], sep);
      SplitAfterPiece(parts[0], sep, Join(parts[1..], sep));
      assert [parts[0]] + parts[1..] == parts;
    }
  }

  /** Every piece of a join occurs in the joined text. */
  lemma {:induction false} PieceOccursInJoin(parts: seq<string>, sep: char, k: nat)
    requires k < |parts|
    ensures OccursAt(Join(parts, sep), parts[k], PieceOffset(parts, k))
  {
    var s := Join(parts, sep);
    if k == 0 {
      if |parts| > 1 {
        assert s[..|parts[0]|] == parts[0];
      }
    } else {
      PieceOccursInJoin(parts[1..], sep, k - 1);
      var lo := |parts[0]| + 1;
      assert s[lo..] == Join(parts[1..], sep);
      OccursInSuffix(s, parts[k], lo, PieceOffset(parts[1..], k - 1));
    }
  }

  /** Offset of the `k`th piece inside the join of `parts`. */
  function PieceOffset(parts: seq<string>, k: nat): nat
    requires k < |parts|
  {
    if k == 0 then 0 else |parts[0]| + 1 + PieceOffset(parts[1..], k - 1)
  }

  /** Every line `split` produces can be found again in the text it came from. */
  lemma LineIsFound(s: string, sep: char, k: nat)
    requires k < |Split(s, sep)|
    ensures Find(s, Split(s, sep)[k]) != -1
  {
    JoinSplit(s, sep);
    PieceOccursInJoin(Split(s, sep), sep, k);
    FindIsLocated(s, Split(s, sep)[k]);
  }

  // ---------------------------------------------------------------------
  // isupper
  // ---------------------------------------------------------------------

  predicate IsUpperLetter(c: char) { 'A' <= c <= 'Z' }

  predicate IsLowerLetter(c: char) { 'a' <= c <= 'z' }

  /** No lower-case letter occurs in `s`. */
  predicate NoLower(s: string)
  {
    forall i :: 0 <= i < |s| ==> !IsLowerLetter(s[i])
  }

  /** Python's `str.isupper` over ASCII: some letter, and every letter upper case. */
  predicate IsUpper(s: string)
  {
    (exists i :: 0 <= i < |s| && IsUpperLetter(s[i])) && NoLower(s)
  }

  // ---------------------------------------------------------------------
  // slicing
  // ---------------------------------------------------------------------

  /** One bound of a Python slice, resolved against a sequence of length
      `len`: negative bounds count from the end, and both ends clamp. */
  function SliceBound(i: int, len: nat): (r: nat)
    ensures r <= len
    ensures 0 <= i ==> r == if i <= len then i else len
    ensures i < 0 ==> r == if -i <= len then len + i else 0
  {
    if i < 0 then (if i + len < 0 then 0 else i + len)
    else if i > len then len
    else i
  }

  /** Python's `s[i:j]`. */
  function Slice(s: string, i: int, j: int): (r: string)
    ensures |r| <= |s|
  {
    var lo, hi := SliceBound(i, |s|), SliceBound(j, |s|);
    if hi <= lo then [] else s[lo..hi]
  }

  /** Within bounds a Python slice is Dafny's; a stop past the end clamps to
      the end; a stop at or before the start gives the empty text. */
  lemma SliceInBounds(s: string, i: int, j: int)
    ensures 0 <= i <= j <= |s| ==> Slice(s, i, j) == s[i..j]
    ensures 0 <= i <= |s| <= j ==> Slice(s, i, j) == s[i..]
    ensures 0 <= j <= i ==> Slice(s, i, j) == []
  {
  }

  /** A slice is always a contiguous run of the sliced text. */
  lemma SliceIsRun(s: string, i: int, j: int)
    ensures exists lo, hi :: 0 <= lo <= hi <= |s| && Slice(s, i, j) == s[lo..hi]
  {
    var lo, hi := SliceBound(i, |s|), SliceBound(j, |s|);
    if hi <= lo {
      assert Slice(s, i, j) == s[lo..lo];
    } else {
      assert Slice(s, i, j) == s[lo..hi];
    }
  }

  /** A start bound of -1 (what `find` returns on a miss) wraps round to the
      last character of a non-empty text. */
  lemma SliceFromMinusOne(s: string, j: int)
    requires |s| > 0 && |s| <= j
    ensures Slice(s, -1, j) == [s[|s| - 1]]
  {
  }

  // ---------------------------------------------------------------------
  // str(int)
  // ---------------------------------------------------------------------

  predicate IsDigit(c: char) { '0' <= c <= '9' }

  function DigitChar(d: nat): (c: char)
    requires d < 10
    ensures IsDigit(c) && c as int - '0' as int == d
  {
    ('0' as int + d) as char
  }

  /** Decimal digits of `n`, most significant first, no leading zeros. */
  function Digits(n: nat): (r: string)
    ensures |r| >= 1
  {
    if n < 10 then [DigitChar(n)] else Digits(n / 10) + [DigitChar(n % 10)]
  }

  predicate AllDigits(s: string)
  {
    forall k :: 0 <= k < |s| ==> IsDigit(s[k])
  }

  lemma {:induction false} DigitsAreDigits(n: nat)
    ensures AllDigits(Digits(n))
  {
    if n >= 10 {
      DigitsAreDigits(n / 10);
    }
  }

  /** The number a string of decimal digits denotes. */
  function DecimalValue(s: string): int
    requires AllDigits(s)
  {
    if s == [] then 0
    else DecimalValue(s[..|s| - 1]) * 10 + (s[|s| - 1] as int - '0' as int)
  }

  /** Reading the digits back gives the number. */
  lemma {:induction false} DigitsRoundTrip(n: nat)
    ensures AllDigits(Digits(n)) && DecimalValue(Digits(n)) == n
  {
    DigitsAreDigits(n);
    if n >= 10 {
      DigitsRoundTrip(n / 10);
      var r := Digits(n);
      assert r[..|r| - 1] == Digits(n / 10);
    }
  }

  /** Python's `str(n)`: a minus sign before the digits of a negative number. */
  function IntToStr(n: int): (r: string)
    ensures |r| >= 1
    decreases if n < 0 then 1 else 0
  {
    if n < 0 then "-" + IntToStr(-n) else Digits(n)
  }

  /** A printed number starts with a minus sign exactly when it is negative. */
  lemma IntToStrSign(n: int)
    ensures n < 0 <==> IntToStr(n)[0] == '-'
  {
    DigitsAreDigits(if n < 0 then -n else n);
  }

  /** A printed number consists of digits and possibly a minus sign. */
  lemma IntToStrChars(n: int)
    ensures forall i :: 0 <= i < |IntToStr(n)| ==> IsDigit(IntToStr(n)[i]) || IntToStr(n)[i] == '-'
  {
    DigitsAreDigits(if n < 0 then -n else n);
  }

  /** Distinct natural numbers have distinct digits. */
  lemma DigitsInjective(a: nat, b: nat)
    requires Digits(a) == Digits(b)
    ensures a == b
  {
    DigitsRoundTrip(a);
    DigitsRoundTrip(b);
  }

  /** Distinct numbers print differently. */
  lemma IntToStrInjective(a: int, b: int)
    requires IntToStr(a) == IntToStr(b)
    ensures a == b
  {
    IntToStrSign(a);
    IntToStrSign(b);
    if a < 0 {
      assert IntToStr(a)[1..] == Digits(-a);
      assert IntToStr(b)[1..] == Digits(-b);
      DigitsInjective(-a, -b);
    } else {
      DigitsInjective(a, b);
    }
  }
}
