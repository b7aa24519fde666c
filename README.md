# Conference-programme segmenter

`test.py` takes the plain text of a conference programme. It cuts the text
into one frame per presentation number, reads each frame's title, author block
and abstract, and collects one row per presentation. A frame is opened by the
marker line `P<n>`. This project models that core in Dafny. It has two modules:

- `PyStr` (`pystr.dfy`) holds the Python string built-ins the script relies on,
  each written as a pure function with Python's own rules:
  - `str.find`: first occurrence, or -1;
  - `str.split` on one character: always at least one piece;
  - `str.isupper`;
  - slicing, with negative indices that count from the end and bounds that clamp;
  - `str(int)`.
- `Segmenter` (`segmenter.dfy`) holds the script's three functions and its
  driver loop. Each is a method with the loops and branches of the source. Each
  is proved equal to a specification function, and the lemmas state what those
  functions mean:
  - `frame_indexes` → `FrameIndexes` against `FrameMap`;
  - `topic_title` → `TopicTitle` against `TitleOf`;
  - `presentation_abstract` → `PresentationAbstract` against `AbstractStartOf`;
  - the record-assembly loop → `FillRow` and `Assemble` against `RecordRow`, `RowAt` and `Assembled`.

The script can fail. `topic_title` returns a variable that is bound only when
some upper-case line follows the marker line. Otherwise Python raises and the
script stops. The model makes this failure explicit:
- `TitleOf` and `TopicTitle` return `None`;
- the driver ends with `Outcome.TitleMissing(ref, rows)`, where `rows` holds the
  rows built so far plus the half-built row of `ref`.

Slicing follows Python, and its index rules are modelled as written:
- A missing opening marker gives a start offset of -1. The frame's text is then
  at most the document's last character, so no title is found
  (`MissingMarkerHasNoTitle`).
- The abstract is sliced with the frame's absolute end offset on the frame's own
  text. When both markers are found, in order, that stop clamps to the frame's
  end (`AbstractCellIsFrameTail`).
- A missing closing marker gives an end offset of -1, which Python reads as
  "all but the last character". The frame's text then drops the document's last
  character, and the abstract cell drops the frame's last character as well
  (`OpenFrameDropsLastCharacters`).

The end of the last frame is special-cased for presentation 102. That branch
fires only when 102 is the last listed reference. With the script's own list
(100 to 115 without 103), 102's frame is closed by 104 because 104 is the next
listed number. `RefNumsGapFrame` states this.

## Model

| member | source | states |
|---|---|---|
| PyStr.FindFromIsFirst | test.py:14-21 | the search from an offset returns an occurrence at or after it with none between, or -1 when none lies at or after it |
| PyStr.FindIsLocated | test.py:14-21 | `find` returns the offset of the first occurrence of the needle, and -1 exactly when the needle does not occur |
| PyStr.LocatedIsUnique | test.py:14-21 | the first-occurrence-or-minus-one description pins the offset down uniquely |
| PyStr.SplitPiecesAvoidSeparator | test.py:30 | no piece of `split('\n')` contains a newline |
| PyStr.JoinSplit | test.py:30 | joining the pieces of a split with the separator gives the text back |
| PyStr.SplitJoin | test.py:30 | splitting the join of separator-free pieces gives the pieces back |
| PyStr.PieceOccursInJoin | test.py:30 | every piece occurs in the joined text at its computed offset |
| PyStr.LineIsFound | test.py:89 | every line a split produces is found again by `find` in the text it came from |
| PyStr.SliceInBounds | test.py:94-95 | an in-range slice is the plain subsequence, a stop past the end clamps to the end, a stop at or before the start gives the empty text |
| PyStr.SliceIsRun | test.py:84 | every slice is a contiguous run of the sliced text |
| PyStr.SliceFromMinusOne | test.py:84 | a start of -1 with a stop at or past the end gives exactly the last character |
| PyStr.DigitsAreDigits | test.py:14 | `str` of a natural number consists of decimal digits |
| PyStr.DigitsRoundTrip | test.py:14 | reading back the digits `str` prints gives the number |
| PyStr.IntToStrSign | test.py:14 | `str(n)` starts with a minus sign exactly when `n` is negative |
| PyStr.IntToStrChars | test.py:14 | `str(n)` holds only decimal digits and a minus sign |
| PyStr.IntToStrInjective | test.py:14-15 | distinct numbers print differently, so distinct references have distinct markers |
| Segmenter.FrameOffsetsLocated | test.py:12-21 | each frame offset is the first occurrence of its marker, or -1 exactly when that marker is absent |
| Segmenter.StoreAllKeys | test.py:10-22 | after `n` dictionary stores the keys are exactly the references stored |
| Segmenter.StoreAllValue | test.py:22 | a key holds the value of its last store; later stores of the same key overwrite |
| Segmenter.FrameMap | test.py:10-23 | the returned dictionary has exactly one key per listed reference |
| Segmenter.FrameMapValue | test.py:10-23 | with distinct references, each reference maps to the frame computed at its own position |
| Segmenter.ListedFrame | test.py:12-22 | a reference not listed again later maps to the span from its marker to its closing reference's marker |
| Segmenter.FramesChain | test.py:13-15 | each frame but the last ends where the next listed reference's frame starts |
| Segmenter.LastFrameEnd | test.py:16-21 | the last frame ends at the marker of the next number, or of 104 when the last reference is 102 |
| Segmenter.FrameIndexes | test.py:4-23 | the loop builds, by dictionary updates, the dictionary `FrameMap` describes |
| Segmenter.UpperRunLengthIsRun | test.py:33-38 | the counted lines are all upper case and the line after them is not |
| Segmenter.UpperRunLengthOfRun | test.py:33-38 | a run of upper-case lines stopped by the end or by a non-upper line is the counted run |
| Segmenter.ConcatAvoids | test.py:35 | gluing newline-free lines gives a newline-free title |
| Segmenter.TitleOfShape | test.py:30-39 | the title is missing exactly when the line after the marker line is missing or not upper case; otherwise it is one line of text that ends with its last line, an upper-case line found in the frame |
| Segmenter.TitleIsLongestUpperRun | test.py:30-39 | the title glues the longest run of upper-case lines after the marker line, and its last line ends that run |
| Segmenter.TopicTitle | test.py:26-39 | the loop with `break` returns the title `TitleOf` describes, and no title where the source raises |
| Segmenter.AbstractStartOf | test.py:53-61 | a miss returns position 0, and a hit returns a position inside the frame |
| Segmenter.AbstractFoundIff | test.py:47-61 | an abstract is found exactly when some keyword occurs in the frame |
| Segmenter.EarliestListedKeywordWins | test.py:55-59 | the position is the first occurrence of the earliest-listed keyword that occurs, wherever later keywords stand |
| Segmenter.IntroductionTakesPriority | test.py:47-59 | a frame containing "Introduction:" takes its first position, even when "Background:" comes earlier in the text |
| Segmenter.AbstractStartIsKeyword | test.py:55-57 | when an abstract is found, a keyword occurs at its position |
| Segmenter.AbstractTailStartsWithKeyword | test.py:55-57 | the text from a found abstract's position starts with a keyword |
| Segmenter.PresentationAbstract | test.py:42-61 | the keyword loop with `break` returns the result `AbstractStartOf` describes |
| Segmenter.RangeExceptIsRange | test.py:72 | the comprehension holds exactly the numbers of the range other than the skipped one, in increasing order |
| Segmenter.RangeExceptWhole | test.py:72 | a range not containing the skipped number lists every number of the range |
| Segmenter.RangeExceptAround | test.py:72 | a range containing the skipped number lists the numbers below it, then those above it, one element shorter |
| Segmenter.RefNumsLayout | test.py:72 | `ref_nums` is 100, 101, 102, 104, …, 115 |
| Segmenter.RefNumsDistinct | test.py:72 | no presentation number is listed twice |
| Segmenter.RefNumsGapFrame | test.py:72-74 | with the script's list, presentation 102's frame is closed by the marker of 104 |
| Segmenter.RefNumsLastFrame | test.py:72-74 | with the script's list, the last frame, 115's, is closed by the marker of 116 |
| Segmenter.RecordRowShape | test.py:83-98 | a built row has four cells: the label and the title; then, when a keyword occurs, the frame's text from the end of the title's last line (as `find` locates it) to the keyword and from the keyword to the frame's end offset; otherwise the two placeholders |
| Segmenter.AuthorStartWithinTitle | test.py:89 | the author block starts at or before the end of the title's last line, since `find` meets that line at its own place or earlier |
| Segmenter.TitleHasNoLower | test.py:30-38 | in a frame that opens with its marker, no lower-case letter stands before the end of the title |
| Segmenter.KeywordsHaveLowerSecondLetter | test.py:47-52 | every keyword has a lower-case letter as its second character |
| Segmenter.MarkerLineHasNoLower | test.py:14 | the first line of a text that opens with a presentation's marker holds no lower-case letter |
| Segmenter.AbstractAfterTitle | test.py:47-59 | in a frame that opens with its marker, the abstract's keyword, which holds a lower-case letter, stands after the title |
| Segmenter.AuthorCellFollowsTitle | test.py:89-94 | in a frame that opens with its marker, the author cell is the frame's text from where `find` first meets the title's last line, which is at or before the title's end, to the abstract's keyword |
| Segmenter.FrameOpensWithMarker | test.py:12-21 | when a frame's opening marker is found before its closing marker, the frame's text starts with the opening marker |
| Segmenter.ListedRowAuthorCell | test.py:83-94 | for a listed presentation whose frame closes after it opens, the author cell of its row runs from where `find` meets the title's last line to the abstract's keyword |
| Segmenter.OpenFrameDropsLastCharacters | test.py:84-95 | with the closing marker missing, the frame's text drops the document's last character and the abstract cell drops the frame's last character |
| Segmenter.AbstractCellIsFrameTail | test.py:95 | for a frame with both markers found in order, the abstract cell is the rest of the frame's text from the abstract's position |
| Segmenter.ShortTextHasNoTitle | test.py:30-39 | a frame text of at most one character has no title, so `topic_title` raises |
| Segmenter.MissingMarkerHasNoTitle | test.py:84-87 | a frame starting at -1 has at most one character, and the record's title lookup fails |
| Segmenter.MissingMarkerStopsRun | test.py:74-88 | if a listed presentation's marker is missing, the run stops with a title failure at that presentation or earlier |
| Segmenter.FillRow | test.py:83-98 | one iteration of the driver appends the label, the title and the two remaining cells, giving the row `RecordRow` describes, or none where `topic_title` raises |
| Segmenter.Assemble | test.py:74-98 | the driver either completes with one row per reference, each the described row, or stops at the first reference without a title, after the rows before it |
| Segmenter.Run | test.py:72-98 | the whole script after the text is obtained runs the driver over `ref_nums` |

## Left out

- PDF parsing through the `tika` library (test.py:1, test.py:65-70): a foreign library. The document text is the input `data` of `Run`.
- `print` of each row (test.py:100-101): console output only.
- The unused lists `titles`, `abstracts` and `how_to_split` (test.py:77-79): they are never read or written after creation.
- The commented-out `xmlContent` call (test.py:103): dead code.
- PyStr.IsUpper: covers ASCII letters only. Python's `str.isupper` uses Unicode case tables, and those are not modelled.
- Segmenter.Assemble: the raised exception is modelled as the `TitleMissing` outcome. The traceback and the rows already printed are not modelled.

