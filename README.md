# MboxChatCLI text and filename utilities, in Dafny

MboxChatCLI reads an MBOX mail archive, groups the messages into threads and
exports each thread as plain-text files. Two utility classes sit under the
whole pipeline and hold its text-cleaning and file-naming policy:

- `TextProcessor` validates and cleans message text. It decides whether a string
  is clear text, strips every character that is not printable ASCII or tab / line
  feed / carriage return, trims whitespace from both ends, and picks the first or
  last "real" sentence of a text for a thread synopsis.
- `FilenameGenerator` turns a subject and a counter into a file name. It deletes
  forbidden and non-ASCII characters, cuts the subject to 48 characters, and
  prefixes `"export "` or `"summary "`. When nothing usable is left it falls back
  to `"thread"` plus the thread number, zero-padded to at least four digits.
  Individual messages are named `"message"` plus the message number, zero-padded
  the same way. Every name ends in the `.txt` extension.

Both classes only have class methods without state, so every method is a pure
function here:

- `sequences.dfy`: the shared vocabulary. It has an order-keeping filter, the
  subsequence relation, reversal, and first and last index searches.
- `text_processor.dfy`: module `TextProcessor`.
- `filename_generator.dfy`: module `FilenameGenerator`.

The model follows the behaviour documented in the two headers. These choices fill
in what the headers leave open:

- Characters are Dafny `char`s (Unicode scalar values). "ASCII" means a code below
  0x80.
- Trimming removes ASCII whitespace: the space and 0x09 to 0x0D.
- Sentences are split at every `.`, `!` and `?`, so `n` terminators give `n + 1`
  segments.
- A segment qualifies as a sentence when it is longer than 8 characters after
  trimming. The trimmed segment is what is returned.
- Whether to fall back is decided after sanitising and truncating. Truncating can
  never empty a non-empty string, so this equals testing after sanitising. The
  fallback replaces only the subject part, so the tag and `.txt` stay.
- The fallback is taken only when the sanitised subject is empty. A subject that
  sanitises to spaces alone, such as "? ?", keeps those spaces as its subject part
  ("export  .txt"), since sanitising does not trim (BlankSubjectKept).
- Stripping follows the header's list of preserved characters (MboxChatCLI/Utilities/TextProcessor.h:43-45)
  rather than the wider "all non-ASCII" of its summary line: it also deletes the ASCII
  control characters other than tab, line feed and carriage return (0x00-0x08, 0x0B,
  0x0C, 0x0E-0x1F, 0x7F). Sanitising a file name makes the opposite choice and keeps
  them, since its header promises only "ASCII-only, forbidden characters removed".
- Counters are `NSUInteger`, which is an unsigned 64-bit integer. A zero-padded
  counter therefore has between 4 and 20 digits.

## Model

| member | source | states |
|---|---|---|
| TextProcessor.IsClearText | MboxChatCLI/Utilities/TextProcessor.h:23-35 | true exactly when every character is printable ASCII (0x20-0x7E), tab, line feed or carriage return |
| TextProcessor.StripNonAscii | MboxChatCLI/Utilities/TextProcessor.h:37-47 | the result is clear text, is a subsequence of the input (characters are only deleted, order kept), and equals the input when the input is already clear text |
| TextProcessor.StripNonAsciiIdempotent | MboxChatCLI/Utilities/TextProcessor.h:37-47 | stripping twice gives the same as stripping once |
| TextProcessor.StripNonAsciiFixedPoint | MboxChatCLI/Utilities/TextProcessor.h:23-47 | stripping leaves a string unchanged if and only if it is clear text |
| TextProcessor.StripNonAsciiKeepsClearChars | MboxChatCLI/Utilities/TextProcessor.h:43-46 | every preserved character occurs in the output exactly as often as in the input |
| TextProcessor.StripNonAsciiAppend | MboxChatCLI/Utilities/TextProcessor.h:37-47 | stripping a concatenation strips each part independently |
| TextProcessor.Trim | MboxChatCLI/Utilities/TextProcessor.h:62-68 | the result is a slice `s[i..j]` with only whitespace before `i` and from `j` on, and no whitespace at either end of the slice |
| TextProcessor.TrimCut | MboxChatCLI/Utilities/TextProcessor.h:62-68 | gives the cut points of the slice that trimming returns |
| TextProcessor.TrimUnique | MboxChatCLI/Utilities/TextProcessor.h:62-68 | any cut that removes only end whitespace and leaves none at the ends is the trim: interior whitespace is never altered |
| TextProcessor.BlankCut | MboxChatCLI/Utilities/TextProcessor.h:62-68 | a string that trims to empty admits no other trimming cut |
| TextProcessor.TrimIdempotent | MboxChatCLI/Utilities/TextProcessor.h:62-68 | trimming twice gives the same as trimming once |
| TextProcessor.TrimEmptyIffBlank | MboxChatCLI/Utilities/TextProcessor.h:62-68 | trimming gives "" exactly when the string is all whitespace |
| TextProcessor.SplitSentences | MboxChatCLI/Utilities/TextProcessor.h:76 | splitting at `.`, `!`, `?` gives one more segment than there are terminators, and no segment contains a terminator |
| TextProcessor.SplitSentencesRebuilds | MboxChatCLI/Utilities/TextProcessor.h:76 | putting the terminators back between the segments rebuilds the text exactly |
| TextProcessor.InterleaveSplits | MboxChatCLI/Utilities/TextProcessor.h:76 | conversely, splitting text built from terminator-free segments gives those segments back |
| TextProcessor.SplitSentencesPrefix | MboxChatCLI/Utilities/TextProcessor.h:76 | a terminator-free prefix joins the first segment of the rest |
| TextProcessor.SplitAtTerminator | MboxChatCLI/Utilities/TextProcessor.h:76 | a terminator closes the segment before it and starts a new one |
| TextProcessor.FirstQualifying | MboxChatCLI/Utilities/TextProcessor.h:70-78 | the trimmed first segment longer than 8 characters after trimming, with no earlier one qualifying, or "" exactly when none qualifies |
| TextProcessor.LastQualifying | MboxChatCLI/Utilities/TextProcessor.h:80-88 | the trimmed last qualifying segment, with no later one qualifying, or "" exactly when none qualifies |
| TextProcessor.QualifyingShape | MboxChatCLI/Utilities/TextProcessor.h:70-88 | a chosen sentence is "" or longer than 8 characters, is trimmed, and holds no terminator |
| TextProcessor.TrimKeepsNoTerminator | MboxChatCLI/Utilities/TextProcessor.h:70-88 | trimming a terminator-free segment leaves it terminator-free, so a chosen sentence holds no terminator |
| TextProcessor.FirstSentenceFromText | MboxChatCLI/Utilities/TextProcessor.h:70-78 | returns "" or more than 8 characters, trimmed and terminator-free: the first qualifying segment of the split text, "" exactly when none qualifies |
| TextProcessor.LastSentenceFromText | MboxChatCLI/Utilities/TextProcessor.h:80-88 | the same for the last qualifying segment |
| TextProcessor.LastIsFirstOfReversed | MboxChatCLI/Utilities/TextProcessor.h:70-88 | the last sentence is the first sentence of the segments in reverse order |
| TextProcessor.FirstAndLastAgreeOnSingleSentence | MboxChatCLI/Utilities/TextProcessor.h:70-88 | when exactly one segment qualifies, first and last sentence are both that segment, trimmed |
| TextProcessor.ShortSegmentDoesNotQualify | MboxChatCLI/Utilities/TextProcessor.h:74 | a segment of at most 8 characters is never a sentence |
| TextProcessor.FirstSentenceAt | MboxChatCLI/Utilities/TextProcessor.h:70-78 | the first sentence is fixed by the position of the first qualifying segment |
| TextProcessor.LastSentenceAt | MboxChatCLI/Utilities/TextProcessor.h:80-88 | the last sentence is fixed by the position of the last qualifying segment |
| TextProcessor.ThreeSentenceSplit | MboxChatCLI/Utilities/TextProcessor.h:76 | three terminated pieces split into those pieces and a trailing empty segment |
| TextProcessor.ShortLongShortText | MboxChatCLI/Utilities/TextProcessor.h:70-88 | in a short, long, short text such as "Hi. This is a longer sentence! Bye.", the first and last sentence are both the long piece, trimmed |
| Sequences.Filter | MboxChatCLI/Utilities/TextProcessor.h:37-47 | the filter never lengthens and keeps only accepted elements |
| Sequences.FilterIsSubsequence | MboxChatCLI/Utilities/FilenameGenerator.h:62-68 | filtering only deletes: the output is a subsequence of the input; shared by sanitising and by stripping (MboxChatCLI/Utilities/TextProcessor.h:37-47) |
| Sequences.FilterAppend | MboxChatCLI/Utilities/FilenameGenerator.h:62-68 | filtering distributes over concatenation; shared by sanitising and by stripping (MboxChatCLI/Utilities/TextProcessor.h:37-47) |
| Sequences.FilterFixesKept | MboxChatCLI/Utilities/FilenameGenerator.h:62-68 | the filter changes nothing if and only if every element is accepted; shared by sanitising and by stripping (MboxChatCLI/Utilities/TextProcessor.h:37-47) |
| Sequences.FilterKeepsCount | MboxChatCLI/Utilities/FilenameGenerator.h:62-68 | each accepted value keeps its number of occurrences; shared by sanitising and by stripping (MboxChatCLI/Utilities/TextProcessor.h:37-47) |
| Sequences.Reverse | MboxChatCLI/Utilities/TextProcessor.h:80-88 | the reversed sequence has the same length and mirrored positions |
| Sequences.FirstIndexWhere | MboxChatCLI/Utilities/TextProcessor.h:70-78 | the least position whose element satisfies the test, or the length when there is none |
| Sequences.LastIndexWhere | MboxChatCLI/Utilities/TextProcessor.h:80-88 | the greatest position whose element satisfies the test, or -1 when there is none |
| Sequences.LastIndexIsFirstIndexOfReverse | MboxChatCLI/Utilities/TextProcessor.h:80-88 | searching from the end finds the mirror position of searching the reversed sequence |
| FilenameGenerator.SanitizeForFilename | MboxChatCLI/Utilities/FilenameGenerator.h:62-68 | the result is ASCII-only and holds none of / \ : ? % * \| " < > ', is a subsequence of the input, and equals the input when that is already safe |
| FilenameGenerator.SanitizeIdempotent | MboxChatCLI/Utilities/FilenameGenerator.h:62-68 | sanitising twice gives the same as sanitising once |
| FilenameGenerator.SanitizeKeepsSafeChars | MboxChatCLI/Utilities/FilenameGenerator.h:62-68 | every safe character survives as often as it occurred |
| FilenameGenerator.SanitizeAppend | MboxChatCLI/Utilities/FilenameGenerator.h:62-68 | sanitising distributes over concatenation |
| FilenameGenerator.SanitizeEmptyIffNothingSafe | MboxChatCLI/Utilities/FilenameGenerator.h:62-68 | sanitising gives "" exactly when no character is safe |
| FilenameGenerator.Decimal | MboxChatCLI/Utilities/FilenameGenerator.h:47 | a number's decimal form is a non-empty string of digits |
| FilenameGenerator.ZeroPad4 | MboxChatCLI/Utilities/FilenameGenerator.h:39 | at least four digits that read back as the number: exactly four below 10000, and no leading zero when wider |
| FilenameGenerator.DecimalNoLeadingZero | MboxChatCLI/Utilities/FilenameGenerator.h:39 | the decimal form of a positive number does not start with a zero |
| FilenameGenerator.DecimalRoundTrip | MboxChatCLI/Utilities/FilenameGenerator.h:47 | reading back the decimal form of `n` gives `n` |
| FilenameGenerator.LeadingZeros | MboxChatCLI/Utilities/FilenameGenerator.h:39 | leading zeros do not change the value read back |
| FilenameGenerator.DecimalLength | MboxChatCLI/Utilities/FilenameGenerator.h:47 | a number below 10^k has at most k digits |
| FilenameGenerator.UInt64Digits | MboxChatCLI/Utilities/FilenameGenerator.h:41-49 | a 64-bit counter pads to at most 20 digits |
| FilenameGenerator.ZeroPad4Injective | MboxChatCLI/Utilities/FilenameGenerator.h:24 | distinct counters give distinct padded digit strings |
| FilenameGenerator.ZeroPad4Examples | MboxChatCLI/Utilities/FilenameGenerator.h:39 | 7 pads to "0007" and 12 to "0012" |
| FilenameGenerator.ThreadFallback | MboxChatCLI/Utilities/FilenameGenerator.h:39 | "thread" followed by the zero-padded thread number (ZeroPad4), whose digits read back as the number; safe, 10 to 26 characters, exactly 10 ("thread0001") below 10000 |
| FilenameGenerator.SubjectStem | MboxChatCLI/Utilities/FilenameGenerator.h:35-39 | the subject part of a name is never empty, at most 48 characters, and safe |
| FilenameGenerator.TaggedName | MboxChatCLI/Utilities/FilenameGenerator.h:28-41 | tag, then the first min(48, length) characters of the sanitised subject (the thread fallback when that is empty), then ".txt"; safe and bounded in length |
| FilenameGenerator.SafeExportFilename | MboxChatCLI/Utilities/FilenameGenerator.h:28-41 | the same with the tag "export ": never empty, never tag-only, never a forbidden or non-ASCII character, at most 7 + 48 + 4 characters |
| FilenameGenerator.LongSubjectFillsLimit | MboxChatCLI/Utilities/FilenameGenerator.h:12-15 | kMaxFilenameLength (48) bounds the subject part, which line 37 truncates to 48; a subject with 48 or more usable characters gives a name whose length without ".txt" is the tag plus 48, which exceeds 48 |
| FilenameGenerator.SafeSummaryFilename | MboxChatCLI/Utilities/FilenameGenerator.h:51-60 | the same with the tag "summary " |
| FilenameGenerator.SafeWriteFilename | MboxChatCLI/Utilities/FilenameGenerator.h:43-49 | "message", the zero-padded message number (ZeroPad4), whose digits read back as the number, ".txt"; safe, 15 to 31 characters, exactly 15 ("message0001.txt") below 10000 |
| FilenameGenerator.SafeWriteFilenameInjective | MboxChatCLI/Utilities/FilenameGenerator.h:24 | distinct message numbers give distinct message names |
| FilenameGenerator.FallbackNamesDistinct | MboxChatCLI/Utilities/FilenameGenerator.h:24 | fallback names under one tag for distinct thread numbers never coincide with each other |
| FilenameGenerator.NameKindsDisjoint | MboxChatCLI/Utilities/FilenameGenerator.h:28-60 | export, summary and message names never coincide with each other |
| FilenameGenerator.SubjectNameIgnoresThreadNumber | MboxChatCLI/Utilities/FilenameGenerator.h:28-41 | with a usable subject, the thread number does not affect the name |
| FilenameGenerator.ExportNamesCanCollide | MboxChatCLI/Utilities/FilenameGenerator.h:24 | any two subjects that sanitise to the same non-empty string share one export name, whatever their thread numbers |
| FilenameGenerator.FallbackCanMatchSubjectName | MboxChatCLI/Utilities/FilenameGenerator.h:24 | a subject that spells out a fallback stem, such as "thread0001" for thread 2, gets the same name as the empty subject of thread 1 |
| FilenameGenerator.BlankSubjectKept | MboxChatCLI/Utilities/FilenameGenerator.h:39 | a subject that sanitises to a single space does not fall back: the name is "export  .txt" |
| FilenameGenerator.FallbackStem | MboxChatCLI/Utilities/FilenameGenerator.h:39 | with nothing left after sanitising, the name is tag + thread fallback + ".txt" |
| FilenameGenerator.UnsafeSubjectExportFallsBack | MboxChatCLI/Utilities/FilenameGenerator.h:39 | an empty or all-forbidden subject gives "export " + thread fallback + ".txt" |
| FilenameGenerator.UnsafeSubjectSummaryFallsBack | MboxChatCLI/Utilities/FilenameGenerator.h:58 | the same behind "summary " |
| FilenameGenerator.WriteFilenameExample | MboxChatCLI/Utilities/FilenameGenerator.h:47 | message 1 is named "message0001.txt" |

## Left out

- `removeAttachmentsAndRTF` (MboxChatCLI/Utilities/TextProcessor.h:49-60): the header names the sections it removes but not how their boundaries are found, so there is nothing precise to model.
- The `Email` record, the MBOX parser, the thread grouper, the exporter and the command-line front end are not part of this model. File writing and other I/O are left out with them.
- NSString works on UTF-16 code units, while the model works on Unicode scalar values. A character outside the Basic Multilingual Plane is one character here rather than two. For ASCII input the two views agree.
- TextProcessor.Trim: only ASCII whitespace is removed. Unicode whitespace such as U+00A0 or U+2028 is kept, although the Foundation whitespace-and-newline set contains it.
- FilenameGenerator.SanitizeForFilename: ASCII control characters are kept, and spaces are not turned into underscores. The header promises only "ASCII-only, forbidden characters removed". The underscore in its "Subject_Here" example is read as part of the example subject.
- kMaxFilenameLength is only declared in the header, as the maximum length of a generated name without its extension (MboxChatCLI/Utilities/FilenameGenerator.h:12-15). If its value is 48, that conflicts with "Truncates to 48 characters" followed by the "export " prefix (MboxChatCLI/Utilities/FilenameGenerator.h:36-38). The model follows the truncation: the subject part is cut to 48, so a name without its extension can reach 55 ("export ") or 56 ("summary ") characters (LongSubjectFillsLimit). The model does not promise that names without extension stay within kMaxFilenameLength.
- FilenameGenerator.ExportNamesCanCollide: the header calls names "unique (using counters)". That holds for message names (SafeWriteFilenameInjective). Fallback names are distinct only among themselves (FallbackNamesDistinct): one can equal the name of a subject that sanitises to "thread" plus the same digits (FallbackCanMatchSubjectName). Names built from a usable subject do not include the counter, so the model proves that they can collide rather than that they are unique.
