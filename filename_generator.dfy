/**
 * The FilenameGenerator utility class: turns email subjects and caller-supplied
 * counters into filesystem-safe, ASCII-only, length-bounded file names.
 * Every class method of the original is a pure function here.
 */
module FilenameGenerator {
  import opened Sequences

  /** NSUInteger on a 64-bit platform. */
  type UInt64 = x: int | 0 <= x < 0x1_0000_0000_0000_0000

  /**
   * kMaxFilenameLength, taken as 48, the number of characters a subject is cut to.
   * The subject part of a name keeps at most this many characters; with its tag in
   * front, a name without the extension can be longer (LongSubjectFillsLimit).
   */
  const MaxFilenameLength: nat := 48

  const ExportTag: string := "export "
  const SummaryTag: string := "summary "
  const MessageTag: string := "message"
  const ThreadTag: string := "thread"
  const Extension: string := ".txt"

  // ---------------------------------------------------------------------------
  // Sanitising
  // ---------------------------------------------------------------------------

  /** The characters never allowed in a name: / \ : ? % * | " < > ' */
  predicate IsForbidden(c: char) {
    || c == '/' || c == '\\' || c == ':' || c == '?' || c == '%' || c == '*'
    || c == '|' || c == '"' || c == '<' || c == '>' || c == '\''
  }

  predicate IsAscii(c: char) {
    c as int < 0x80
  }

  /** A character that may appear in a generated name: ASCII and not forbidden. */
  predicate IsFilenameChar(c: char) {
    IsAscii(c) && !IsForbidden(c)
  }

  predicate IsSafeName(s: string) {
    forall i :: 0 <= i < |s| ==> IsFilenameChar(s[i])
  }

  lemma SafeNameAppend(a: string, b: string)
    requires IsSafeName(a) && IsSafeName(b)
    ensures IsSafeName(a + b)
  {
  }

  /** sanitizeForFilename: deletes every non-ASCII and every forbidden character. */
  function SanitizeForFilename(input: string): (r: string)
    ensures IsSafeName(r)
    ensures IsSubsequence(r, input)
    ensures IsSafeName(input) ==> r == input
  {
    FilterIsSubsequence(IsFilenameChar, input);
    FilterFixesKept(IsFilenameChar, input);
    Filter(IsFilenameChar, input)
  }

  /** Sanitising is idempotent. */
  lemma SanitizeIdempotent(s: string)
    ensures SanitizeForFilename(SanitizeForFilename(s)) == SanitizeForFilename(s)
  {
  }

  /** Every safe character of the input survives, as often as it occurred. */
  lemma SanitizeKeepsSafeChars(s: string, c: char)
    requires IsFilenameChar(c)
    ensures multiset(SanitizeForFilename(s))[c] == multiset(s)[c]
  {
    FilterKeepsCount(IsFilenameChar, s, c);
  }

  /** Sanitising works character by character, so it distributes over concatenation. */
  lemma SanitizeAppend(a: string, b: string)
    ensures SanitizeForFilename(a + b) == SanitizeForFilename(a) + SanitizeForFilename(b)
  {
    FilterAppend(IsFilenameChar, a, b);
  }

  /** A subject made only of forbidden or non-ASCII characters sanitises to "". */
  lemma SanitizeEmptyIffNothingSafe(s: string)
    ensures SanitizeForFilename(s) == [] <==> forall i :: 0 <= i < |s| ==> !IsFilenameChar(s[i])
  {
    if s != [] {
      SanitizeAppend([s[0]], s[1..]);
      assert [s[0]] + s[1..] == s;
      SanitizeEmptyIffNothingSafe(s[1..]);
      assert forall i :: 1 <= i < |s| ==> s[i] == s[1..][i - 1];
    }
  }

  // ---------------------------------------------------------------------------
  // Zero-padded decimal numbers ("%04lu")
  // ---------------------------------------------------------------------------

  predicate IsDigit(c: char) {
    '0' <= c <= '9'
  }

  predicate AllDigits(s: string) {
    forall i :: 0 <= i < |s| ==> IsDigit(s[i])
  }

  lemma DigitsAreSafe(s: string)
    requires AllDigits(s)
    ensures IsSafeName(s)
  {
  }

  function DigitChar(d: nat): (c: char)
    requires d < 10
    ensures IsDigit(c)
  {
    ('0' as int + d) as char
  }

  /** The number a string of decimal digits denotes, most significant digit first. */
  function DigitsValue(s: string): nat
    requires AllDigits(s)
  {
    if s == [] then 0
    else DigitsValue(s[..|s| - 1]) * 10 + (s[|s| - 1] as int - '0' as int)
  }

  /** The decimal digits of `n`, without leading zeros. */
  function Decimal(n: nat): (r: string)
    ensures |r| >= 1 && AllDigits(r)
  {
    if n < 10 then [DigitChar(n)] else Decimal(n / 10) + [DigitChar(n % 10)]
  }

  function Zeros(k: nat): (r: string)
    ensures |r| == k && AllDigits(r)
  {
    if k == 0 then [] else ['0'] + Zeros(k - 1)
  }

  /** `n` in decimal, padded on the left with zeros to at least four digits. */
  function ZeroPad4(n: nat): (r: string)
    ensures |r| >= 4 && AllDigits(r)
    ensures DigitsValue(r) == n
    ensures n < 10000 ==> |r| == 4
    ensures |r| > 4 ==> r[0] != '0'
  {
    var d := Decimal(n);
    DecimalRoundTrip(n);
    DecimalLength(n, 4);
    DecimalNoLeadingZero(n);
    if |d| < 4 then
      LeadingZeros(4 - |d|, d);
      Zeros(4 - |d|) + d
    else d
  }

  /** Reading back the digits of `n` gives `n`. */
  lemma {:induction false} DecimalRoundTrip(n: nat)
    ensures DigitsValue(Decimal(n)) == n
  {
    if n >= 10 {
      DecimalRoundTrip(n / 10);
      var d := Decimal(n);
      assert d[..|d| - 1] == Decimal(n / 10);
    }
  }

  /** The decimal form of a positive number does not start with a zero. */
  lemma {:induction false} DecimalNoLeadingZero(n: nat)
    ensures n >= 1 ==> Decimal(n)[0] != '0'
  {
    if n >= 10 {
      DecimalNoLeadingZero(n / 10);
    }
  }

  /** Leading zeros do not change the value. */
  lemma {:induction false} LeadingZeros(k: nat, s: string)
    requires AllDigits(s)
    ensures DigitsValue(Zeros(k) + s) == DigitsValue(s)
    decreases k, |s|
  {
    if s == [] {
      assert Zeros(k) + s == Zeros(k);
      if k > 0 {
        LeadingZeros(k - 1, []);
        assert Zeros(k - 1) + [] == Zeros(k - 1);
        assert Zeros(k)[..k - 1] == Zeros(k - 1) by {
          ZerosPrefix(k);
        }
      }
    } else {
      var front := s[..|s| - 1];
      LeadingZeros(k, front);
      assert (Zeros(k) + s)[..|Zeros(k) + s| - 1] == Zeros(k) + front;
    }
  }

  lemma {:induction false} ZerosPrefix(k: nat)
    requires k > 0
    ensures Zeros(k)[..k - 1] == Zeros(k - 1) && Zeros(k)[k - 1] == '0'
  {
    if k > 1 {
      ZerosPrefix(k - 1);
    }
  }

  function Pow10(k: nat): (p: nat)
    ensures p >= 1
  {
    if k == 0 then 1 else 10 * Pow10(k - 1)
  }

  /** A number below 10^k has at most k digits. */
  lemma {:induction false} DecimalLength(n: nat, k: nat)
    requires 1 <= k
    ensures n < Pow10(k) ==> |Decimal(n)| <= k
  {
    if n >= 10 && n < Pow10(k) {
      assert k >= 2;
      DecimalLength(n / 10, k - 1);
    }
  }

  /** A 64-bit counter has at most twenty decimal digits. */
  lemma UInt64Digits(n: UInt64)
    ensures |ZeroPad4(n)| <= 20
  {
    assert Pow10(10) == 10000000000;
    assert Pow10(20) == 100000000000000000000;
    DecimalLength(n, 20);
  }

  /** Zero padding keeps numbers apart: distinct counters give distinct digit strings. */
  lemma ZeroPad4Injective(m: nat, n: nat)
    requires ZeroPad4(m) == ZeroPad4(n)
    ensures m == n
  {
  }

  // ---------------------------------------------------------------------------
  // Generated names
  // ---------------------------------------------------------------------------

  /** The fallback stem "thread" + four-digit zero-padded thread number. */
  function ThreadFallback(threadNumber: UInt64): (r: string)
    ensures 10 <= |r| <= 26 && r[..6] == ThreadTag
    ensures IsSafeName(r)
    ensures AllDigits(r[6..]) && DigitsValue(r[6..]) == threadNumber
    ensures r[6..] == ZeroPad4(threadNumber)
    ensures threadNumber < 10000 ==> |r| == 10
  {
    UInt64Digits(threadNumber);
    var digits := ZeroPad4(threadNumber);
    DigitsAreSafe(digits);
    SafeNameAppend(ThreadTag, digits);
    var r := ThreadTag + digits;
    assert r[..6] == ThreadTag && r[6..] == digits;
    r
  }

  /**
   * The subject part of a subject-based name: the sanitised subject cut to its
   * first 48 characters, or the thread fallback when the sanitised subject is empty.
   */
  function SubjectStem(subject: string, threadNumber: UInt64): (r: string)
    ensures 1 <= |r| <= MaxFilenameLength
    ensures IsSafeName(r)
  {
    var clean := SanitizeForFilename(subject);
    if clean == [] then ThreadFallback(threadNumber)
    else if |clean| <= MaxFilenameLength then clean
    else clean[..MaxFilenameLength]
  }

  /**
   * A subject-based name with tag `tag`: tag, then the first (at most 48) characters
   * of the sanitised subject, then ".txt"; when the sanitised subject is empty the
   * thread fallback stands in for it.
   */
  ghost predicate IsSubjectName(name: string, tag: string, subject: string, threadNumber: UInt64) {
    var clean := SanitizeForFilename(subject);
    && |tag| + 5 <= |name| <= |tag| + MaxFilenameLength + |Extension|
    && name[..|tag|] == tag
    && name[|name| - 4..] == Extension
    && IsSafeName(name)
    && (clean == [] ==> name[|tag|..|name| - 4] == ThreadFallback(threadNumber))
    && (clean != [] ==> && IsPrefix(name[|tag|..|name| - 4], clean)
                        && |name| - 4 - |tag| == if |clean| < MaxFilenameLength then |clean| else MaxFilenameLength)
  }

  ghost predicate IsPrefix(p: string, s: string) {
    |p| <= |s| && s[..|p|] == p
  }

  function TaggedName(tag: string, subject: string, threadNumber: UInt64): (r: string)
    requires IsSafeName(tag)
    ensures IsSubjectName(r, tag, subject, threadNumber)
  {
    var stem := SubjectStem(subject, threadNumber);
    var r := tag + stem + Extension;
    assert r[..|tag|] == tag && r[|r| - 4..] == Extension && r[|tag|..|r| - 4] == stem;
    r
  }

  /** safeExportFilename: "export " + subject stem + ".txt". */
  function SafeExportFilename(subject: string, threadNumber: UInt64): (r: string)
    ensures IsSubjectName(r, ExportTag, subject, threadNumber)
  {
    TaggedName(ExportTag, subject, threadNumber)
  }

  /** safeSummaryFilename: "summary " + subject stem + ".txt". */
  function SafeSummaryFilename(subject: string, threadNumber: UInt64): (r: string)
    ensures IsSubjectName(r, SummaryTag, subject, threadNumber)
  {
    TaggedName(SummaryTag, subject, threadNumber)
  }

  /** safeWriteFilename: "message" + four-digit zero-padded message number + ".txt". */
  function SafeWriteFilename(messageNumber: UInt64): (r: string)
    ensures 15 <= |r| <= 31
    ensures r[..7] == MessageTag && r[|r| - 4..] == Extension
    ensures AllDigits(r[7..|r| - 4]) && DigitsValue(r[7..|r| - 4]) == messageNumber
    ensures r[7..|r| - 4] == ZeroPad4(messageNumber)
    ensures messageNumber < 10000 ==> |r| == 15
    ensures IsSafeName(r)
  {
    UInt64Digits(messageNumber);
    var digits := ZeroPad4(messageNumber);
    DigitsAreSafe(digits);
    SafeNameAppend(MessageTag, digits);
    SafeNameAppend(MessageTag + digits, Extension);
    var r := MessageTag + digits + Extension;
    assert r[..7] == MessageTag && r[|r| - 4..] == Extension && r[7..|r| - 4] == digits;
    r
  }

  // ---------------------------------------------------------------------------
  // Uniqueness and fallback
  // ---------------------------------------------------------------------------

  /** Distinct message numbers give distinct message file names. */
  lemma SafeWriteFilenameInjective(m: UInt64, n: UInt64)
    requires m != n
    ensures SafeWriteFilename(m) != SafeWriteFilename(n)
  {
  }

  /** Two fallback names for different thread numbers never coincide. */
  lemma FallbackNamesDistinct(tag: string, s: string, m: UInt64, t: string, n: UInt64)
    requires IsSafeName(tag) && m != n
    requires SanitizeForFilename(s) == [] && SanitizeForFilename(t) == []
    ensures TaggedName(tag, s, m) != TaggedName(tag, t, n)
  {
  }

  /** Export, summary and message names differ in their first character, so they never collide. */
  lemma NameKindsDisjoint(s: string, m: UInt64, t: string, n: UInt64, k: UInt64)
    ensures SafeExportFilename(s, m) != SafeSummaryFilename(t, n)
    ensures SafeExportFilename(s, m) != SafeWriteFilename(k)
    ensures SafeSummaryFilename(t, n) != SafeWriteFilename(k)
  {
    var e, u, w := SafeExportFilename(s, m), SafeSummaryFilename(t, n), SafeWriteFilename(k);
    assert e[0] == e[..7][0] == 'e';
    assert u[0] == u[..8][0] == 's';
    assert w[0] == w[..7][0] == 'm';
  }

  /**
   * A non-empty sanitised subject leaves the thread number out of the name, so the
   * counter alone does not keep subject-based names apart.
   */
  lemma SubjectNameIgnoresThreadNumber(s: string, m: UInt64, n: UInt64)
    requires SanitizeForFilename(s) != []
    ensures SafeExportFilename(s, m) == SafeExportFilename(s, n)
    ensures SafeSummaryFilename(s, m) == SafeSummaryFilename(s, n)
  {
  }

  /**
   * Subjects that differ only in characters the sanitiser deletes share one export
   * name, whatever their thread numbers.
   */
  lemma ExportNamesCanCollide(s: string, t: string, m: UInt64, n: UInt64)
    requires SanitizeForFilename(s) == SanitizeForFilename(t) != []
    ensures SafeExportFilename(s, m) == SafeExportFilename(t, n)
  {
  }

  /**
   * Fallback names are distinct only among themselves: a subject that spells out a
   * fallback stem gives the same name as the empty subject of that thread.
   */
  lemma FallbackCanMatchSubjectName(n: UInt64, m: UInt64)
    ensures SafeExportFilename(ThreadFallback(n), m) == SafeExportFilename("", n)
  {
    assert SanitizeForFilename("") == [];
  }

  /** The fallback needs an empty sanitised subject: a lone space is kept as the subject part. */
  lemma BlankSubjectKept(s: string, n: UInt64)
    requires SanitizeForFilename(s) == [' ']
    ensures SafeExportFilename(s, n) == ExportTag + [' '] + Extension
  {
  }

  /** With nothing left after sanitising, the stem is the thread fallback, whatever the tag. */
  lemma FallbackStem(tag: string, s: string, n: UInt64)
    requires IsSafeName(tag) && SanitizeForFilename(s) == []
    ensures TaggedName(tag, s, n) == tag + ThreadFallback(n) + Extension
  {
  }

  /**
   * A subject that is empty, or made only of forbidden or non-ASCII characters, gives
   * the export name "export thread" + zero-padded thread number + ".txt".
   */
  lemma UnsafeSubjectExportFallsBack(s: string, n: UInt64)
    requires forall i :: 0 <= i < |s| ==> !IsFilenameChar(s[i])
    ensures SafeExportFilename(s, n) == ExportTag + ThreadFallback(n) + Extension
  {
    SanitizeEmptyIffNothingSafe(s);
    FallbackStem(ExportTag, s, n);
  }

  /** The summary name of such a subject falls back the same way, behind its own tag. */
  lemma UnsafeSubjectSummaryFallsBack(s: string, n: UInt64)
    requires forall i :: 0 <= i < |s| ==> !IsFilenameChar(s[i])
    ensures SafeSummaryFilename(s, n) == SummaryTag + ThreadFallback(n) + Extension
  {
    SanitizeEmptyIffNothingSafe(s);
    FallbackStem(SummaryTag, s, n);
  }

  /**
   * A subject with at least 48 usable characters fills the subject part completely,
   * so the name without ".txt" is the tag plus 48 characters: longer than 48.
   */
  lemma LongSubjectFillsLimit(s: string, n: UInt64)
    requires |SanitizeForFilename(s)| >= MaxFilenameLength
    ensures |SafeExportFilename(s, n)| - |Extension| == |ExportTag| + MaxFilenameLength
    ensures |SafeSummaryFilename(s, n)| - |Extension| == |SummaryTag| + MaxFilenameLength
    ensures |SafeExportFilename(s, n)| - |Extension| > MaxFilenameLength
  {
  }

  /** The documented padding: thread 7 becomes "0007", thread 12 becomes "0012". */
  lemma ZeroPad4Examples()
    ensures ZeroPad4(7) == "0007" && ZeroPad4(12) == "0012"
  {
    assert Decimal(7) == "7" && Zeros(3) == "000";
    assert Decimal(12) == "12" && Zeros(2) == "00";
  }

  /** The documented message name. */
  lemma WriteFilenameExample()
    ensures SafeWriteFilename(1) == "message0001.txt"
  {
    assert ZeroPad4(1) == "0001" by {
      assert Decimal(1) == "1" && Zeros(3) == "000";
    }
  }
}
