/**
 * The TextProcessor utility class: clear-text validation, the ASCII filter,
 * trimming, and picking the first or last reasonably long sentence of a text.
 * Every class method of the original is a pure function here.
 */
module TextProcessor {
  import opened Sequences

  // ---------------------------------------------------------------------------
  // Clear text
  // ---------------------------------------------------------------------------

  /** Printable ASCII (0x20-0x7E), tab (0x09), line feed (0x0A) or carriage return (0x0D). */
  predicate IsClearChar(c: char) {
    (0x20 <= c as int <= 0x7E) || c as int == 0x09 || c as int == 0x0A || c as int == 0x0D
  }

  /** isClearText: YES exactly when no character lies outside the allowed set. */
  function IsClearText(s: string): (b: bool)
    ensures b <==> forall i :: 0 <= i < |s| ==> IsClearChar(s[i])
  {
    if s == [] then true
    else IsClearChar(s[0]) && IsClearText(s[1..])
  }

  /** stripNonASCII: deletes (never replaces) every character outside the allowed set. */
  function StripNonAscii(input: string): (r: string)
    ensures IsClearText(r)
    ensures IsSubsequence(r, input)
    ensures IsClearText(input) ==> r == input
  {
    FilterIsSubsequence(IsClearChar, input);
    FilterFixesKept(IsClearChar, input);
    Filter(IsClearChar, input)
  }

  /** The filter is idempotent: a second pass has nothing left to delete. */
  lemma StripNonAsciiIdempotent(s: string)
    ensures StripNonAscii(StripNonAscii(s)) == StripNonAscii(s)
  {
  }

  /** The output equals the input exactly when the input was already clear text. */
  lemma StripNonAsciiFixedPoint(s: string)
    ensures StripNonAscii(s) == s <==> IsClearText(s)
  {
  }

  /** Nothing allowed is lost: every allowed character keeps its number of occurrences. */
  lemma StripNonAsciiKeepsClearChars(s: string, c: char)
    requires IsClearChar(c)
    ensures multiset(StripNonAscii(s))[c] == multiset(s)[c]
  {
    FilterKeepsCount(IsClearChar, s, c);
  }

  /** The filter works character by character, so it distributes over concatenation. */
  lemma StripNonAsciiAppend(a: string, b: string)
    ensures StripNonAscii(a + b) == StripNonAscii(a) + StripNonAscii(b)
  {
    FilterAppend(IsClearChar, a, b);
  }

  // ---------------------------------------------------------------------------
  // Trimming
  // ---------------------------------------------------------------------------

  /** Whitespace and newline characters: space, tab, LF, VT, FF and CR. */
  predicate IsWhitespace(c: char) {
    c == ' ' || 0x09 <= c as int <= 0x0D
  }

  /** Neither starts nor ends with whitespace (the empty string included). */
  predicate IsTrimmed(s: string) {
    s == [] || (!IsWhitespace(s[0]) && !IsWhitespace(s[|s| - 1]))
  }

  /** `s[i..j]` is what trimming `s` leaves: whitespace outside it, none at its ends. */
  predicate TrimsTo(s: string, i: int, j: int) {
    && 0 <= i <= j <= |s|
    && (forall k :: 0 <= k < i ==> IsWhitespace(s[k]))
    && (forall k :: j <= k < |s| ==> IsWhitespace(s[k]))
    && IsTrimmed(s[i..j])
  }

  /** The number of whitespace characters at the start of `s`. */
  function LeadingWhitespace(s: string): (n: nat)
    ensures n <= |s|
    ensures forall k :: 0 <= k < n ==> IsWhitespace(s[k])
    ensures n < |s| ==> !IsWhitespace(s[n])
  {
    if s != [] && IsWhitespace(s[0]) then 1 + LeadingWhitespace(s[1..]) else 0
  }

  /** Where the whitespace at the end of `s` begins. */
  function TrailingWhitespaceStart(s: string): (m: nat)
    ensures m <= |s|
    ensures forall k :: m <= k < |s| ==> IsWhitespace(s[k])
    ensures 0 < m ==> !IsWhitespace(s[m - 1])
  {
    if s != [] && IsWhitespace(s[|s| - 1]) then TrailingWhitespaceStart(s[..|s| - 1]) else |s|
  }

  /** trim: removes whitespace and newlines from both ends; the interior is untouched. */
  function Trim(s: string): (r: string)
    ensures exists i, j :: TrimsTo(s, i, j) && r == s[i..j]
  {
    var i := LeadingWhitespace(s);
    var j := TrailingWhitespaceStart(s);
    if i == |s| then
      assert TrimsTo(s, |s|, |s|);
      []
    else
      assert IsTrimmed(s[i..j]);
      s[i..j]
  }

  /** Names the cut that `Trim` makes. */
  lemma TrimCut(s: string) returns (i: int, j: int)
    ensures TrimsTo(s, i, j) && Trim(s) == s[i..j]
  {
    i := LeadingWhitespace(s);
    j := if i == |s| then |s| else TrailingWhitespaceStart(s);
    assert i < |s| ==> IsTrimmed(s[i..j]);
  }

  /**
   * Trimming is determined by its description alone: any cut `s[i..j]` that leaves
   * only whitespace outside and none at its own ends is what `Trim` returns.
   */
  lemma TrimUnique(s: string, i: int, j: int)
    requires TrimsTo(s, i, j)
    ensures s[i..j] == Trim(s)
  {
  }

  /** When some trim of `s` is empty, all of `s` is whitespace and every trim of it is empty. */
  lemma BlankCut(s: string, a: int, i: int, j: int)
    requires TrimsTo(s, a, a) && TrimsTo(s, i, j)
    ensures i == j
  {
  }

  /** Trimming twice changes nothing. */
  lemma TrimIdempotent(s: string)
    ensures Trim(Trim(s)) == Trim(s)
  {
  }

  /** The result is empty exactly when the whole input is whitespace. */
  lemma TrimEmptyIffBlank(s: string)
    ensures Trim(s) == [] <==> forall k :: 0 <= k < |s| ==> IsWhitespace(s[k])
  {
  }

  // ---------------------------------------------------------------------------
  // Sentences
  // ---------------------------------------------------------------------------

  /** Sentence boundaries: '.', '!' and '?'. */
  predicate IsTerminator(c: char) {
    c == '.' || c == '!' || c == '?'
  }

  predicate HasNoTerminator(s: string) {
    forall k :: 0 <= k < |s| ==> !IsTerminator(s[k])
  }

  /** A sentence is reasonably long when, trimmed, it has more than this many characters. */
  const MinSentenceLength: nat := 8

  /** A segment qualifies as a sentence when its trimmed form is longer than 8 characters. */
  predicate Qualifies(segment: string) {
    |Trim(segment)| > MinSentenceLength
  }

  /**
   * Splits a text at every terminator: n terminators give n + 1 segments, empty
   * ones included, and no segment holds a terminator.
   */
  function SplitSentences(text: string): (segments: seq<string>)
    ensures |segments| == |Filter(IsTerminator, text)| + 1
    ensures forall i :: 0 <= i < |segments| ==> HasNoTerminator(segments[i])
  {
    if text == [] then [[]]
    else
      var rest := SplitSentences(text[1..]);
      if IsTerminator(text[0]) then [[]] + rest
      else [[text[0]] + rest[0]] + rest[1..]
  }

  /** Rebuilds a text from its segments and the terminators that separated them. */
  function Interleave(segments: seq<string>, terminators: string): string
    requires |segments| == |terminators| + 1
  {
    if terminators == [] then segments[0]
    else segments[0] + [terminators[0]] + Interleave(segments[1..], terminators[1..])
  }

  /** Splitting loses nothing: the segments and the terminators rebuild the text. */
  lemma {:induction false} SplitSentencesRebuilds(text: string)
    ensures Interleave(SplitSentences(text), Filter(IsTerminator, text)) == text
  {
    if text != [] {
      SplitSentencesRebuilds(text[1..]);
      var rest := SplitSentences(text[1..]);
      var terms := Filter(IsTerminator, text[1..]);
      if !IsTerminator(text[0]) && terms != [] {
        assert Interleave(rest, terms) == rest[0] + [terms[0]] + Interleave(rest[1..], terms[1..]);
        assert [text[0]] + text[1..] == text;
      } else if !IsTerminator(text[0]) {
        assert [text[0]] + text[1..] == text;
      } else {
        assert [text[0]] + text[1..] == text;
        assert ([[]] + rest)[1..] == rest;
      }
    }
  }

  /** Splitting a text that starts with a terminator-free run `a`: `a` opens the first segment. */
  lemma {:induction false} SplitSentencesPrefix(a: string, b: string)
    requires HasNoTerminator(a)
    ensures SplitSentences(a + b) == [a + SplitSentences(b)[0]] + SplitSentences(b)[1..]
  {
    if a != [] {
      assert (a + b)[1..] == a[1..] + b;
      assert HasNoTerminator(a[1..]) by {
        forall k | 0 <= k < |a[1..]| ensures !IsTerminator(a[1..][k]) {
          assert a[1..][k] == a[k + 1];
        }
      }
      SplitSentencesPrefix(a[1..], b);
      var rest := SplitSentences(a[1..] + b);
      assert rest[0] == a[1..] + SplitSentences(b)[0];
      assert rest[1..] == SplitSentences(b)[1..];
      assert [a[0]] + (a[1..] + SplitSentences(b)[0]) == a + SplitSentences(b)[0];
    } else {
      assert a + b == b;
      assert [] + SplitSentences(b)[0] == SplitSentences(b)[0];
      assert SplitSentences(b) == [SplitSentences(b)[0]] + SplitSentences(b)[1..];
    }
  }

  /** Conversely, splitting rebuilt text gives back the terminator-free segments. */
  lemma {:induction false} InterleaveSplits(segments: seq<string>, terminators: string)
    requires |segments| == |terminators| + 1
    requires forall i :: 0 <= i < |segments| ==> HasNoTerminator(segments[i])
    requires forall i :: 0 <= i < |terminators| ==> IsTerminator(terminators[i])
    ensures SplitSentences(Interleave(segments, terminators)) == segments
  {
    if terminators == [] {
      SplitSentencesPrefix(segments[0], []);
      assert segments[0] + [] == segments[0];
      assert segments == [segments[0]];
    } else {
      var tail := Interleave(segments[1..], terminators[1..]);
      InterleaveSplits(segments[1..], terminators[1..]);
      var b := [terminators[0]] + tail;
      assert b[1..] == tail;
      assert SplitSentences(b) == [[]] + segments[1..];
      assert Interleave(segments, terminators) == segments[0] + b;
      SplitSentencesPrefix(segments[0], b);
      assert SplitSentences(b)[0] == [] && SplitSentences(b)[1..] == segments[1..];
      assert segments[0] + [] == segments[0];
      assert segments == [segments[0]] + segments[1..];
    }
  }

  /**
   * `r` is the first sentence of `segments`: the trimmed form of the first segment
   * that qualifies, or "" exactly when none does.
   */
  ghost predicate IsFirstSentence(segments: seq<string>, r: string) {
    && (r == [] <==> forall i :: 0 <= i < |segments| ==> !Qualifies(segments[i]))
    && (r != [] ==> exists i :: && 0 <= i < |segments| && Qualifies(segments[i]) && r == Trim(segments[i])
                                && forall j :: 0 <= j < i ==> !Qualifies(segments[j]))
  }

  /**
   * `r` is the last sentence of `segments`: the trimmed form of the last segment
   * that qualifies, or "" exactly when none does.
   */
  ghost predicate IsLastSentence(segments: seq<string>, r: string) {
    && (r == [] <==> forall i :: 0 <= i < |segments| ==> !Qualifies(segments[i]))
    && (r != [] ==> exists i :: && 0 <= i < |segments| && Qualifies(segments[i]) && r == Trim(segments[i])
                                && forall j :: i < j < |segments| ==> !Qualifies(segments[j]))
  }

  /** The trimmed form of the first qualifying segment, or "" when none qualifies. */
  function FirstQualifying(segments: seq<string>): (r: string)
    ensures IsFirstSentence(segments, r)
  {
    var i := FirstIndexWhere(Qualifies, segments);
    if i == |segments| then [] else Trim(segments[i])
  }

  /**
   * The trimmed form of the last qualifying segment, or "" when none qualifies;
   * the search runs from the end.
   */
  function LastQualifying(segments: seq<string>): (r: string)
    ensures IsLastSentence(segments, r)
  {
    var i := LastIndexWhere(Qualifies, segments);
    if i < 0 then [] else Trim(segments[i])
  }

  /** Trimming cuts out a piece of the segment, so a terminator-free segment stays terminator-free. */
  lemma TrimKeepsNoTerminator(s: string)
    requires HasNoTerminator(s)
    ensures HasNoTerminator(Trim(s))
  {
  }

  /**
   * When the segments are free of terminators, the trimmed form of any one of them
   * that qualifies is a sentence: long enough, trimmed, without a terminator.
   */
  lemma QualifyingShape(segments: seq<string>, r: string)
    requires forall i :: 0 <= i < |segments| ==> HasNoTerminator(segments[i])
    requires IsFirstSentence(segments, r) || IsLastSentence(segments, r)
    ensures r == [] || |r| > MinSentenceLength
    ensures HasNoTerminator(r) && IsTrimmed(r)
  {
  }

  /**
   * firstSentenceFromText: the first segment between terminators whose trimmed form
   * is longer than 8 characters, trimmed; "" when there is none.
   */
  function FirstSentenceFromText(text: string): (r: string)
    ensures r == [] || |r| > MinSentenceLength
    ensures HasNoTerminator(r) && IsTrimmed(r)
    ensures IsFirstSentence(SplitSentences(text), r)
  {
    var segments := SplitSentences(text);
    QualifyingShape(segments, FirstQualifying(segments));
    FirstQualifying(segments)
  }

  /**
   * lastSentenceFromText: the last segment between terminators whose trimmed form
   * is longer than 8 characters, trimmed; "" when there is none.
   */
  function LastSentenceFromText(text: string): (r: string)
    ensures r == [] || |r| > MinSentenceLength
    ensures HasNoTerminator(r) && IsTrimmed(r)
    ensures IsLastSentence(SplitSentences(text), r)
  {
    var segments := SplitSentences(text);
    QualifyingShape(segments, LastQualifying(segments));
    LastQualifying(segments)
  }

  /** Scanning from the end is scanning the reversed segment list from the front. */
  lemma LastIsFirstOfReversed(segments: seq<string>)
    ensures LastQualifying(segments) == FirstQualifying(Reverse(segments))
  {
    var i := LastIndexWhere(Qualifies, segments);
    LastIndexIsFirstIndexOfReverse(Qualifies, segments);
    if 0 <= i {
      assert Reverse(segments)[|segments| - 1 - i] == segments[i];
    }
  }

  /** Both searches agree when the text has exactly one qualifying segment. */
  lemma FirstAndLastAgreeOnSingleSentence(text: string, k: int)
    requires 0 <= k < |SplitSentences(text)| && Qualifies(SplitSentences(text)[k])
    requires forall i :: 0 <= i < |SplitSentences(text)| && i != k ==> !Qualifies(SplitSentences(text)[i])
    ensures FirstSentenceFromText(text) == LastSentenceFromText(text) == Trim(SplitSentences(text)[k])
  {
  }

  /** Trimming never lengthens, so a segment of at most 8 characters cannot qualify. */
  lemma ShortSegmentDoesNotQualify(segment: string)
    requires |segment| <= MinSentenceLength
    ensures !Qualifies(segment)
  {
    var i, j := TrimCut(segment);
  }

  /** The first sentence is pinned down by the position of the first qualifying segment. */
  lemma FirstSentenceAt(segments: seq<string>, k: int)
    requires 0 <= k < |segments| && Qualifies(segments[k])
    requires forall j :: 0 <= j < k ==> !Qualifies(segments[j])
    ensures FirstQualifying(segments) == Trim(segments[k])
  {
    var i := FirstIndexWhere(Qualifies, segments);
    assert i == k;
  }

  /** The last sentence is pinned down by the position of the last qualifying segment. */
  lemma LastSentenceAt(segments: seq<string>, k: int)
    requires 0 <= k < |segments| && Qualifies(segments[k])
    requires forall j :: k < j < |segments| ==> !Qualifies(segments[j])
    ensures LastQualifying(segments) == Trim(segments[k])
  {
    var i := LastIndexWhere(Qualifies, segments);
    assert i == k;
  }

  /** A terminator closes the segment that precedes it. */
  lemma SplitAtTerminator(a: string, t: char, b: string)
    requires HasNoTerminator(a) && IsTerminator(t)
    ensures SplitSentences(a + [t] + b) == [a] + SplitSentences(b)
  {
    var tb := [t] + b;
    assert tb[1..] == b;
    assert SplitSentences(tb) == [[]] + SplitSentences(b);
    SplitSentencesPrefix(a, tb);
    assert a + [t] + b == a + tb;
    assert a + [] == a;
  }

  /**
   * The shape of "Hi. This is a longer sentence! Bye.": a short opening, one long
   * sentence, a short closing and a final terminator. Both searches skip the short
   * segments and return the long one, trimmed.
   */
  lemma ShortLongShortText(a: string, b: string, c: string, t1: char, t2: char, t3: char)
    requires HasNoTerminator(a) && HasNoTerminator(b) && HasNoTerminator(c)
    requires IsTerminator(t1) && IsTerminator(t2) && IsTerminator(t3)
    requires |a| <= MinSentenceLength && |c| <= MinSentenceLength && Qualifies(b)
    ensures var text := a + [t1] + b + [t2] + c + [t3];
            FirstSentenceFromText(text) == LastSentenceFromText(text) == Trim(b)
  {
    var segments := ThreeSentenceSplit(a, b, c, t1, t2, t3);
    OnlyMiddleQualifies(a, b, c);
    FirstAndLastAgreeOnSingleSentence(a + [t1] + b + [t2] + c + [t3], 1);
  }

  /** With short pieces around it, only the middle segment can qualify. */
  lemma OnlyMiddleQualifies(a: string, b: string, c: string)
    requires |a| <= MinSentenceLength && |c| <= MinSentenceLength
    ensures forall i :: 0 <= i < 4 && i != 1 ==> !Qualifies([a, b, c, []][i])
  {
    ShortSegmentDoesNotQualify(a);
    ShortSegmentDoesNotQualify(c);
    ShortSegmentDoesNotQualify([]);
  }

  /** Three terminated, terminator-free pieces split into those pieces and a final empty segment. */
  lemma ThreeSentenceSplit(a: string, b: string, c: string, t1: char, t2: char, t3: char)
      returns (segments: seq<string>)
    requires HasNoTerminator(a) && HasNoTerminator(b) && HasNoTerminator(c)
    requires IsTerminator(t1) && IsTerminator(t2) && IsTerminator(t3)
    ensures segments == SplitSentences(a + [t1] + b + [t2] + c + [t3]) == [a, b, c, []]
  {
    var tail := c + [t3];
    SplitAtTerminator(c, t3, []);
    assert tail + [] == tail;
    assert SplitSentences(tail) == [c, []];
    var middle := b + [t2] + tail;
    SplitAtTerminator(b, t2, tail);
    assert SplitSentences(middle) == [b, c, []];
    SplitAtTerminator(a, t1, middle);
    assert a + [t1] + b + [t2] + c + [t3] == a + [t1] + middle;
    segments := SplitSentences(a + [t1] + middle);
  }
}
