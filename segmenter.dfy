/** The record segmenter of `test.py`.  It cuts the plain text of a
    conference programme into one frame per presentation number (a frame
    opens at the marker line `P<n>`), then reads each frame's title, author
    block and abstract, and collects one row per presentation. */
module Segmenter {
  import opened PyStr

  datatype Option<T> = None | Some(value: T)

  // ---------------------------------------------------------------------
  // frame_indexes
  // ---------------------------------------------------------------------

  /** Offsets of a frame's opening and closing markers in the document, as
      `find` returned them: -1 where a marker is missing. */
  datatype Frame = Frame(start: int, end: int)

  /** When the last reference is this one, its frame is closed by the
      marker of `GAP_END_REF` rather than by the marker of its successor. */
  const GAP_REF := 102
  const GAP_END_REF := 104

  /** The label of presentation `ref`, which its marker line holds and its
      row starts with. */
  function Label(ref: int): string
  {
    "P" + IntToStr(ref)
  }

  /** The line that opens the frame of presentation `ref`. */
  function Marker(ref: int): string
  {
    Label(ref) + "\n"
  }

  /** The reference whose marker closes the frame at position `k` of `refs`:
      the next reference in the list, and for the last one its numeric
      successor, except that `GAP_REF` is closed by `GAP_END_REF`. */
  function ClosingRef(refs: seq<int>, k: nat): int
    requires k < |refs|
  {
    if k != |refs| - 1 then refs[k + 1]
    else if refs[k] != GAP_REF then refs[k] + 1
    else GAP_END_REF
  }

  /** The frame computed in the iteration for position `k` of `refs`. */
  function FrameOf(refs: seq<int>, dataset: string, k: nat): Frame
    requires k < |refs|
  {
    Frame(Find(dataset, Marker(refs[k])), Find(dataset, Marker(ClosingRef(refs, k))))
  }

  /** A frame opens at the first occurrence of its own marker and closes at
      the first occurrence of the closing marker; -1 stands exactly for a
      marker that does not occur. */
  lemma FrameOffsetsLocated(refs: seq<int>, dataset: string, k: nat)
    requires k < |refs|
    ensures Located(dataset, Marker(refs[k]), FrameOf(refs, dataset, k).start)
    ensures Located(dataset, Marker(ClosingRef(refs, k)), FrameOf(refs, dataset, k).end)
  {
    FindIsLocated(dataset, Marker(refs[k]));
    FindIsLocated(dataset, Marker(ClosingRef(refs, k)));
  }

  /** The frames of all positions of `refs`, in list order. */
  function FrameList(refs: seq<int>, dataset: string): (fs: seq<Frame>)
    ensures |fs| == |refs|
  {
    seq(|refs|, k requires 0 <= k < |refs| => FrameOf(refs, dataset, k))
  }

  /** The dictionary left by storing `values[k]` under `keys[k]` for every
      `k < n`, in order, so that a later store overwrites an earlier one. */
  function StoreAll(keys: seq<int>, values: seq<Frame>, n: nat): map<int, Frame>
    requires n <= |keys| == |values|
  {
    if n == 0 then map[]
    else StoreAll(keys, values, n - 1)[keys[n - 1] := values[n - 1]]
  }

  /** After `n` stores the dictionary has one key per key stored. */
  lemma {:induction false} StoreAllKeys(keys: seq<int>, values: seq<Frame>, n: nat)
    requires n <= |keys| == |values|
    ensures StoreAll(keys, values, n).Keys == set k | 0 <= k < n :: keys[k]
  {
    if n > 0 {
      StoreAllKeys(keys, values, n - 1);
      assert (set k | 0 <= k < n :: keys[k]) == (set k | 0 <= k < n - 1 :: keys[k]) + {keys[n - 1]};
    }
  }

  /** A key maps to the value stored at its last position (a later store
      of the same key overwrites an earlier one). */
  lemma {:induction false} StoreAllValue(keys: seq<int>, values: seq<Frame>, n: nat, k: nat)
    requires k < n <= |keys| == |values|
    requires forall j :: k < j < n ==> keys[j] != keys[k]
    ensures keys[k] in StoreAll(keys, values, n)
    ensures StoreAll(keys, values, n)[keys[k]] == values[k]
  {
    if k < n - 1 {
      StoreAllValue(keys, values, n - 1, k);
    }
  }

  /** The dictionary `frame_indexes` returns: each reference mapped to the
      frame of its last position in the list. */
  function FrameMap(refs: seq<int>, dataset: string): (m: map<int, Frame>)
    ensures m.Keys == set k | 0 <= k < |refs| :: refs[k]
  {
    StoreAllKeys(refs, FrameList(refs, dataset), |refs|);
    StoreAll(refs, FrameList(refs, dataset), |refs|)
  }

  predicate Distinct(refs: seq<int>)
  {
    forall i, j :: 0 <= i < j < |refs| ==> refs[i] != refs[j]
  }

  /** With distinct references every reference is mapped to its own frame. */
  lemma FrameMapValue(refs: seq<int>, dataset: string, k: nat)
    requires Distinct(refs)
    requires k < |refs|
    ensures refs[k] in FrameMap(refs, dataset)
    ensures FrameMap(refs, dataset)[refs[k]] == FrameOf(refs, dataset, k)
  {
    StoreAllValue(refs, FrameList(refs, dataset), |refs|, k);
  }

  /** A reference listed once is mapped to the frame between its own marker
      and the marker of its closing reference. */
  lemma ListedFrame(refs: seq<int>, dataset: string, k: nat, opening: int, closing: int)
    requires k < |refs| && refs[k] == opening && ClosingRef(refs, k) == closing
    requires forall j :: k < j < |refs| ==> refs[j] != opening
    ensures opening in FrameMap(refs, dataset)
    ensures FrameMap(refs, dataset)[opening] == Frame(Find(dataset, Marker(opening)), Find(dataset, Marker(closing)))
  {
    StoreAllValue(refs, FrameList(refs, dataset), |refs|, k);
  }

  /** Consecutive frames share a boundary: a frame ends where the frame of
      the next reference in the list starts. */
  lemma FramesChain(refs: seq<int>, dataset: string, k: nat)
    requires k + 1 < |refs|
    ensures FrameOf(refs, dataset, k).end == FrameOf(refs, dataset, k + 1).start
  {
  }

  /** The last frame ends at the marker of the next number, or at the marker
      of `GAP_END_REF` when the last reference is `GAP_REF`. */
  lemma LastFrameEnd(refs: seq<int>, dataset: string)
    requires |refs| > 0
    ensures var last := refs[|refs| - 1];
      FrameOf(refs, dataset, |refs| - 1).end ==
        Find(dataset, Marker(if last == GAP_REF then GAP_END_REF else last + 1))
  {
  }

  /** `frame_indexes(refs, dataset)`. */
  method FrameIndexes(refs: seq<int>, dataset: string) returns (indexes: map<int, Frame>)
    ensures indexes == FrameMap(refs, dataset)
  {
    ghost var frames := FrameList(refs, dataset);
    indexes := map[];
    for k := 0 to |refs|
      invariant indexes == StoreAll(refs, frames, k)
    {
      var frameStart, frameEnd;
      if k != |refs| - 1 {
        frameStart := Find(dataset, Marker(refs[k]));
        frameEnd := Find(dataset, Marker(refs[k + 1]));
      } else if refs[k] != GAP_REF {
        frameStart := Find(dataset, Marker(refs[k]));
        frameEnd := Find(dataset, Marker(refs[k] + 1));
      } else {
        frameStart := Find(dataset, Marker(refs[k]));
        frameEnd := Find(dataset, Marker(GAP_END_REF));
      }
      assert Frame(frameStart, frameEnd) == FrameOf(refs, dataset, k) == frames[k];
      indexes := indexes[refs[k] := Frame(frameStart, frameEnd)];
    }
  }

  // ---------------------------------------------------------------------
  // topic_title
  // ---------------------------------------------------------------------

  /** What `topic_title` returns: the title and the last line it took. */
  datatype Title = Title(text: string, lastLine: string)

  /** How many lines at the front of `lines` are upper case. */
  function UpperRunLength(lines: seq<string>): (n: nat)
    ensures n <= |lines|
  {
    if lines == [] || !IsUpper(lines[0]) then 0 else 1 + UpperRunLength(lines[1..])
  }

  /** The counted lines are upper case and the line after them is not. */
  lemma {:induction false} UpperRunLengthIsRun(lines: seq<string>)
    ensures var n := UpperRunLength(lines);
      (forall k :: 0 <= k < n ==> IsUpper(lines[k])) &&
      (n < |lines| ==> !IsUpper(lines[n]))
  {
    if lines != [] && IsUpper(lines[0]) {
      UpperRunLengthIsRun(lines[1..]);
      assert forall k :: 1 <= k < |lines| ==> lines[k] == lines[1..][k - 1];
    }
  }

  /** A run of upper-case lines ended by the end of the list or by a line
      that is not upper case is the run `UpperRunLength` counts. */
  lemma {:induction false} UpperRunLengthOfRun(lines: seq<string>, i: nat)
    requires i <= |lines|
    requires forall k :: 0 <= k < i ==> IsUpper(lines[k])
    requires i == |lines| || !IsUpper(lines[i])
    ensures UpperRunLength(lines) == i
  {
    if i > 0 {
      assert forall k :: 0 <= k < i - 1 ==> lines[1..][k] == lines[k + 1];
      UpperRunLengthOfRun(lines[1..], i - 1);
    }
  }

  /** Lines glued together with no separator, left to right. */
  function Concat(lines: seq<string>): string
  {
    if lines == [] then [] else Concat(lines[..|lines| - 1]) + lines[|lines| - 1]
  }

  /** Gluing lines that have no `c` gives a text with no `c`. */
  lemma {:induction false} ConcatAvoids(lines: seq<string>, c: char)
    requires forall k :: 0 <= k < |lines| ==> c !in lines[k]
    ensures c !in Concat(lines)
  {
    if lines != [] {
      ConcatAvoids(lines[..|lines| - 1], c);
    }
  }

  /** The lines of a frame after its first (marker) line. */
  function BodyLines(frame: string): seq<string>
  {
    Split(frame, '\n')[1..]
  }

  /** The result of `topic_title(frame)`; `None` where the source fails
      because `elmnt` was never bound (no upper-case line follows the
      marker line). */
  function TitleOf(frame: string): Option<Title>
  {
    var lines := BodyLines(frame);
    var n := UpperRunLength(lines);
    if n == 0 then None else Some(Title(Concat(lines[..n]), lines[n - 1]))
  }

  /** `topic_title` fails exactly when the line after the marker line is
      missing or not upper case.  Otherwise the title is one line of text
      that ends with its last line, an upper-case line of the frame. */
  lemma TitleOfShape(frame: string)
    ensures TitleOf(frame).None? <==> BodyLines(frame) == [] || !IsUpper(BodyLines(frame)[0])
    ensures TitleOf(frame).Some? ==>
      var t := TitleOf(frame).value;
      IsUpper(t.lastLine) && '\n' !in t.text &&
      |t.lastLine| <= |t.text| && t.text[|t.text| - |t.lastLine|..] == t.lastLine &&
      Find(frame, t.lastLine) != -1
  {
    var lines := BodyLines(frame);
    var n := UpperRunLength(lines);
    UpperRunLengthIsRun(lines);
    if n > 0 {
      SplitPiecesAvoidSeparator(frame, '\n');
      ConcatAvoids(lines[..n], '\n');
      LineIsFound(frame, '\n', n);
      assert lines[..n][..n - 1] == lines[..n - 1];
    }
  }

  /** The title is the glued longest run of upper-case lines after the
      marker line, and the line that ends the run is not upper case. */
  lemma TitleIsLongestUpperRun(frame: string)
    requires TitleOf(frame).Some?
    ensures var lines, t := BodyLines(frame), TitleOf(frame).value;
      exists n :: 1 <= n <= |lines| &&
        (forall k :: 0 <= k < n ==> IsUpper(lines[k])) &&
        (n < |lines| ==> !IsUpper(lines[n])) &&
        t.text == Concat(lines[..n]) && t.lastLine == lines[n - 1]
  {
    var n := UpperRunLength(BodyLines(frame));
    UpperRunLengthIsRun(BodyLines(frame));
    assert n >= 1;
  }

  /** `topic_title(data_frame)`. */
  method TopicTitle(dataFrame: string) returns (res: Option<Title>)
    ensures res == TitleOf(dataFrame)
  {
    var lines := Split(dataFrame, '\n')[1..];
    var title: string := [];
    var elmnt: Option<string> := None;  // unbound until an upper-case line is seen
    var i := 0;
    while i < |lines|
      invariant i <= |lines|
      invariant forall k :: 0 <= k < i ==> IsUpper(lines[k])
      invariant title == Concat(lines[..i])
      invariant elmnt == if i == 0 then None else Some(lines[i - 1])
    {
      var el := lines[i];
      if IsUpper(el) {
        assert lines[..i + 1][..i] == lines[..i];
        title := title + el;
        elmnt := Some(el);
      } else {
        break;
      }
      i := i + 1;
    }
    UpperRunLengthOfRun(lines, i);
    // `return title, elmnt` raises when `elmnt` is unbound
    res := if elmnt.None? then None else Some(Title(title, elmnt.value));
  }

  // ---------------------------------------------------------------------
  // presentation_abstract
  // ---------------------------------------------------------------------

  /** The headers an abstract opens with, in the order they are tried. */
  const KEYWORDS: seq<string> := [
    "Introduction:",
    "Background:",
    "Introduction and Objectives:",
    "Background/Objective:",
    "Introduction/Objective:"
  ]

  /** What `presentation_abstract` returns. */
  datatype AbstractStart = AbstractStart(found: bool, position: int)

  /** The first keyword in list order that occurs in `frame` decides the
      position; a keyword listed later never overrides it. */
  function AbstractStartOf(frame: string, keywords: seq<string>): (r: AbstractStart)
    ensures !r.found ==> r.position == 0
    ensures r.found ==> 0 <= r.position <= |frame|
  {
    if keywords == [] then AbstractStart(false, 0)
    else if Find(frame, keywords[0]) != -1 then AbstractStart(true, Find(frame, keywords[0]))
    else AbstractStartOf(frame, keywords[1..])
  }

  /** `keywords[k]` is the earliest-listed keyword that occurs in `frame`. */
  ghost predicate FirstPresent(frame: string, keywords: seq<string>, k: nat)
    requires k < |keywords|
  {
    Contains(frame, keywords[k]) && forall j :: 0 <= j < k ==> !Contains(frame, keywords[j])
  }

  /** An abstract is found exactly when some keyword occurs in the frame. */
  lemma {:induction false} AbstractFoundIff(frame: string, keywords: seq<string>)
    ensures AbstractStartOf(frame, keywords).found <==>
      exists k :: 0 <= k < |keywords| && Contains(frame, keywords[k])
  {
    if keywords != [] {
      AbstractFoundIff(frame, keywords[1..]);
      FindIsLocated(frame, keywords[0]);
      if exists k :: 0 <= k < |keywords| && Contains(frame, keywords[k]) {
        var k :| 0 <= k < |keywords| && Contains(frame, keywords[k]);
        if k > 0 && Find(frame, keywords[0]) == -1 {
          assert keywords[1..][k - 1] == keywords[k];
        }
      }
      if exists k :: 0 <= k < |keywords[1..]| && Contains(frame, keywords[1..][k]) {
        var k :| 0 <= k < |keywords[1..]| && Contains(frame, keywords[1..][k]);
        assert keywords[k + 1] == keywords[1..][k];
      }
    }
  }

  /** The position is that of the earliest-listed keyword that occurs,
      wherever later-listed keywords stand in the text. */
  lemma {:induction false} EarliestListedKeywordWins(frame: string, keywords: seq<string>, k: nat)
    requires k < |keywords|
    requires FirstPresent(frame, keywords, k)
    ensures AbstractStartOf(frame, keywords) == AbstractStart(true, Find(frame, keywords[k]))
  {
    FindIsLocated(frame, keywords[0]);
    if k > 0 {
      assert !Contains(frame, keywords[0]);
      forall j | 0 <= j < k - 1
        ensures !Contains(frame, keywords[1..][j])
      {
        assert keywords[1..][j] == keywords[j + 1];
      }
      EarliestListedKeywordWins(frame, keywords[1..], k - 1);
    }
  }

  /** A frame holding "Introduction:" takes its position, even when
      "Background:" stands earlier in the text. */
  lemma IntroductionTakesPriority(frame: string)
    requires Contains(frame, "Introduction:")
    ensures AbstractStartOf(frame, KEYWORDS) == AbstractStart(true, Find(frame, "Introduction:"))
  {
    EarliestListedKeywordWins(frame, KEYWORDS, 0);
  }

  /** When an abstract is found, one of the keywords stands at its position. */
  lemma {:induction false} AbstractStartIsKeyword(frame: string, keywords: seq<string>)
    requires AbstractStartOf(frame, keywords).found
    ensures exists k :: 0 <= k < |keywords| && OccursAt(frame, keywords[k], AbstractStartOf(frame, keywords).position)
  {
    FindIsLocated(frame, keywords[0]);
    if Find(frame, keywords[0]) == -1 {
      AbstractStartIsKeyword(frame, keywords[1..]);
      var k :| 0 <= k < |keywords[1..]| && OccursAt(frame, keywords[1..][k], AbstractStartOf(frame, keywords[1..]).position);
      assert keywords[1..][k] == keywords[k + 1];
    }
  }

  /** The text from a found abstract's position on starts with a keyword. */
  lemma AbstractTailStartsWithKeyword(frame: string)
    requires AbstractStartOf(frame, KEYWORDS).found
    ensures exists k :: 0 <= k < |KEYWORDS| && KEYWORDS[k] <= frame[AbstractStartOf(frame, KEYWORDS).position..]
  {
    var position := AbstractStartOf(frame, KEYWORDS).position;
    AbstractStartIsKeyword(frame, KEYWORDS);
    var k :| 0 <= k < |KEYWORDS| && OccursAt(frame, KEYWORDS[k], position);
    assert frame[position..][..|KEYWORDS[k]|] == frame[position..position + |KEYWORDS[k]|];
  }

  /** `presentation_abstract(data_frame)`. */
  method PresentationAbstract(dataFrame: string) returns (found: bool, position: int)
    ensures AbstractStart(found, position) == AbstractStartOf(dataFrame, KEYWORDS)
  {
    position := 0;
    found := false;
    for i := 0 to |KEYWORDS|
      invariant !found && position == 0
      invariant AbstractStartOf(dataFrame, KEYWORDS) == AbstractStartOf(dataFrame, KEYWORDS[i..])
    {
      var keyword := KEYWORDS[i];
      if Find(dataFrame, keyword) != -1 {
        found, position := true, Find(dataFrame, keyword);
      }
      if found {
        break;
      }
      assert KEYWORDS[i..][1..] == KEYWORDS[i + 1..];
    }
  }

  // ---------------------------------------------------------------------
  // The driver: ref_nums and the record-assembly loop
  // ---------------------------------------------------------------------

  /** The numbers `lo` up to `hi` (exclusive) in increasing order, without `skip`. */
  function RangeExcept(lo: int, hi: int, skip: int): seq<int>
    decreases hi - lo
  {
    if hi <= lo then [] else (if lo == skip then [] else [lo]) + RangeExcept(lo + 1, hi, skip)
  }

  /** The range holds exactly the numbers from `lo` below `hi` other than
      `skip`, each larger than the one before. */
  lemma {:induction false} RangeExceptIsRange(lo: int, hi: int, skip: int)
    ensures forall x :: x in RangeExcept(lo, hi, skip) <==> lo <= x < hi && x != skip
    ensures forall i, j :: 0 <= i < j < |RangeExcept(lo, hi, skip)| ==>
      RangeExcept(lo, hi, skip)[i] < RangeExcept(lo, hi, skip)[j]
    decreases hi - lo
  {
    if lo < hi {
      RangeExceptIsRange(lo + 1, hi, skip);
      var rest := RangeExcept(lo + 1, hi, skip);
      var head := if lo == skip then [] else [lo];
      assert RangeExcept(lo, hi, skip) == head + rest;
      forall j | 0 <= j < |rest| ensures lo < rest[j] {
        assert rest[j] in rest;
      }
    }
  }

  /** Without `skip` inside it, the range is every number from `lo` below `hi`. */
  lemma {:induction false} RangeExceptWhole(lo: int, hi: int, skip: int)
    requires lo <= hi && (skip < lo || hi <= skip)
    ensures |RangeExcept(lo, hi, skip)| == hi - lo
    ensures forall i :: 0 <= i < hi - lo ==> RangeExcept(lo, hi, skip)[i] == lo + i
    decreases hi - lo
  {
    if lo < hi {
      RangeExceptWhole(lo + 1, hi, skip);
    }
  }

  /** With `skip` inside it, the range runs up to `skip` and on past it,
      one element shorter. */
  lemma {:induction false} RangeExceptAround(lo: int, hi: int, skip: int)
    requires lo <= skip < hi
    ensures |RangeExcept(lo, hi, skip)| == hi - lo - 1
    ensures forall i :: 0 <= i < skip - lo ==> RangeExcept(lo, hi, skip)[i] == lo + i
    ensures forall i :: skip - lo <= i < hi - lo - 1 ==> RangeExcept(lo, hi, skip)[i] == lo + i + 1
    decreases skip - lo
  {
    if lo == skip {
      RangeExceptWhole(lo + 1, hi, skip);
    } else {
      RangeExceptAround(lo + 1, hi, skip);
    }
  }

  /** `ref_nums`: the presentations 100 to 115 except 103. */
  function RefNums(): seq<int>
  {
    RangeExcept(100, 116, 103)
  }

  /** `ref_nums` written out: 100 to 115 with 103 missing. */
  lemma RefNumsLayout()
    ensures RefNums() == [100, 101, 102, 104, 105, 106, 107, 108, 109, 110, 111, 112, 113, 114, 115]
  {
    RangeExceptAround(100, 116, 103);
  }

  /** No presentation number is listed twice, so every frame of the list
      survives in the dictionary. */
  lemma RefNumsDistinct()
    ensures Distinct(RefNums())
  {
    RangeExceptIsRange(100, 116, 103);
  }

  /** With the fixed reference list, presentation 102's frame is closed by
      the marker of 104, since 103 is not listed. */
  lemma RefNumsGapFrame(data: string)
    ensures 102 in FrameMap(RefNums(), data)
    ensures FrameMap(RefNums(), data)[102] == Frame(Find(data, Marker(102)), Find(data, Marker(104)))
  {
    RangeExceptAround(100, 116, 103);
    ListedFrame(RefNums(), data, 2, 102, 104);
  }

  /** With the fixed reference list, the last frame, 115's, is closed by the
      marker of 116. */
  lemma RefNumsLastFrame(data: string)
    ensures 115 in FrameMap(RefNums(), data)
    ensures FrameMap(RefNums(), data)[115] == Frame(Find(data, Marker(115)), Find(data, Marker(116)))
  {
    RangeExceptAround(100, 116, 103);
    ListedFrame(RefNums(), data, 14, 115, 116);
  }

  /** One row of the output; the placeholders stand in for the author block
      and the abstract when no keyword is found. */
  type Row = seq<string>

  const AUTHOR_NOT_FOUND := "Author not found"
  const ABSTRACT_NOT_FOUND := "Abstract not found"

  /** The row opened with `rowLabel` once `topic_title` has returned `t` and
      `presentation_abstract` has returned `abs` on the frame's text
      `dataFrm`: the author block runs from the end of the title's first
      occurrence to the abstract, and the abstract to the frame's end. */
  function RowOf(rowLabel: string, dataFrm: string, frameEnd: int, t: Title, abs: AbstractStart): Row
  {
    var carrier1 := Find(dataFrm, t.lastLine) + |t.lastLine|;
    [rowLabel, t.text,
     if abs.found then Slice(dataFrm, carrier1, abs.position) else AUTHOR_NOT_FOUND,
     if abs.found then Slice(dataFrm, abs.position, frameEnd) else ABSTRACT_NOT_FOUND]
  }

  /** The row the loop builds under `rowLabel` for the frame `frame`; `None`
      where `topic_title` fails and the script stops. */
  function RecordRow(data: string, frame: Frame, rowLabel: string): Option<Row>
  {
    var dataFrm := Slice(data, frame.start, frame.end);
    match TitleOf(dataFrm)
    case None => None
    case Some(t) => Some(RowOf(rowLabel, dataFrm, frame.end, t, AbstractStartOf(dataFrm, KEYWORDS)))
  }

  /** The row for position `k` of `refs`, looked up in the frame dictionary. */
  function RowAt(refs: seq<int>, data: string, k: nat): Option<Row>
    requires k < |refs|
  {
    RecordRow(data, FrameMap(refs, data)[refs[k]], Label(refs[k]))
  }

  /** A built row holds four cells: the label, the title, and the author
      block and abstract or, when no keyword occurs, their placeholders. */
  lemma RecordRowShape(data: string, frame: Frame, rowLabel: string)
    requires RecordRow(data, frame, rowLabel).Some?
    ensures var row, dataFrm := RecordRow(data, frame, rowLabel).value, Slice(data, frame.start, frame.end);
      |row| == 4 && row[0] == rowLabel &&
      TitleOf(dataFrm).Some? && row[1] == TitleOf(dataFrm).value.text &&
      (!AbstractStartOf(dataFrm, KEYWORDS).found ==> row[2] == AUTHOR_NOT_FOUND && row[3] == ABSTRACT_NOT_FOUND) &&
      (AbstractStartOf(dataFrm, KEYWORDS).found ==>
        var t, position := TitleOf(dataFrm).value, AbstractStartOf(dataFrm, KEYWORDS).position;
        row[2] == Slice(dataFrm, Find(dataFrm, t.lastLine) + |t.lastLine|, position) &&
        row[3] == Slice(dataFrm, position, frame.end))
  {
  }

  /** For a frame whose markers were both found, in order, the abstract cell
      is the rest of the frame's text from the abstract's position. */
  lemma AbstractCellIsFrameTail(data: string, frame: Frame, rowLabel: string)
    requires 0 <= frame.start <= frame.end <= |data|
    requires RecordRow(data, frame, rowLabel).Some?
    requires AbstractStartOf(data[frame.start..frame.end], KEYWORDS).found
    ensures var dataFrm := data[frame.start..frame.end];
      RecordRow(data, frame, rowLabel).value[3] == dataFrm[AbstractStartOf(dataFrm, KEYWORDS).position..]
  {
    SliceInBounds(data, frame.start, frame.end);
    var dataFrm := data[frame.start..frame.end];
    SliceInBounds(dataFrm, AbstractStartOf(dataFrm, KEYWORDS).position, frame.end);
  }

  /** A frame whose closing marker is missing ends at -1, which Python reads
      as "all but the last character": the frame's text drops the document's
      last character, and the abstract cell, sliced with the same stop on the
      frame's text, drops the frame's last character as well. */
  lemma OpenFrameDropsLastCharacters(data: string, start: int, rowLabel: string)
    requires RecordRow(data, Frame(start, -1), rowLabel).Some?
    requires AbstractStartOf(Slice(data, start, -1), KEYWORDS).found
    ensures 0 <= start < |data| ==> Slice(data, start, -1) == data[start..|data| - 1]
    ensures var dataFrm := Slice(data, start, -1);
      var position := AbstractStartOf(dataFrm, KEYWORDS).position;
      position < |dataFrm| &&
      RecordRow(data, Frame(start, -1), rowLabel).value[3] == dataFrm[position..|dataFrm| - 1]
  {
    var dataFrm := Slice(data, start, -1);
    AbstractStartIsKeyword(dataFrm, KEYWORDS);
    KeywordsHaveLowerSecondLetter();
  }

  /** Every keyword is at least two characters long, and its second
      character is a lower-case letter. */
  lemma KeywordsHaveLowerSecondLetter()
    ensures forall k :: 0 <= k < |KEYWORDS| ==> |KEYWORDS[k]| >= 2 && IsLowerLetter(KEYWORDS[k][1])
  {
  }

  /** The joined text up to and including the separator after piece `m` has
      no lower-case letter when pieces `0..m` and the separator have none. */
  lemma {:induction false} JoinPrefixHasNoLower(parts: seq<string>, sep: char, m: nat, i: nat)
    requires m < |parts| && !IsLowerLetter(sep)
    requires forall j :: 0 <= j <= m ==> NoLower(parts[j])
    requires i < |Join(parts, sep)| && i <= PieceOffset(parts, m) + |parts[m]|
    ensures !IsLowerLetter(Join(parts, sep)[i])
  {
    if |parts| > 1 {
      var s := Join(parts, sep);
      if i < |parts[0]| {
        assert s[i] == parts[0][i];
      } else if i > |parts[0]| {
        assert s[i] == Join(parts[1..], sep)[i - |parts[0]| - 1];
        assert forall j :: 0 <= j <= m - 1 ==> parts[1..][j] == parts[j + 1];
        JoinPrefixHasNoLower(parts[1..], sep, m - 1, i - |parts[0]| - 1);
      }
    }
  }

  /** The first line of a text that opens with the marker of `ref` is
      `P<ref>`, which holds no lower-case letter. */
  lemma MarkerLineHasNoLower(ref: int, frame: string)
    requires Marker(ref) <= frame
    ensures NoLower(Split(frame, '\n')[0])
  {
    var w := Label(ref);
    IntToStrChars(ref);
    assert forall i :: 1 <= i < |w| ==> w[i] == IntToStr(ref)[i - 1];
    var rest := frame[|Marker(ref)|..];
    assert frame == w + ['\n'] + rest;
    SplitAfterPiece(w, '\n', rest);
  }

  /** The end of the title's last line inside the frame: the offset just
      past line `n` of the frame, where `n` counts the title lines. */
  function TitleEnd(frame: string): nat
  {
    var lines := Split(frame, '\n');
    var n := UpperRunLength(lines[1..]);
    PieceOffset(lines, n) + |lines[n]|
  }

  /** `find` meets the title's last line at its own place or earlier, so the
      author block starts at or before the end of the title. */
  lemma AuthorStartWithinTitle(frame: string)
    requires TitleOf(frame).Some?
    ensures var t := TitleOf(frame).value;
      0 <= Find(frame, t.lastLine) + |t.lastLine| <= TitleEnd(frame)
  {
    var lines := Split(frame, '\n');
    var n := UpperRunLength(lines[1..]);
    assert TitleOf(frame).value.lastLine == lines[n];
    JoinSplit(frame, '\n');
    PieceOccursInJoin(lines, '\n', n);
    FindIsLocated(frame, lines[n]);
  }

  /** In a frame that opens with its marker, no lower-case letter stands
      before the end of the title or on the newline after it. */
  lemma TitleHasNoLower(frame: string, ref: int, i: nat)
    requires Marker(ref) <= frame
    requires TitleOf(frame).Some?
    requires i < |frame| && i <= TitleEnd(frame)
    ensures !IsLowerLetter(frame[i])
  {
    var lines := Split(frame, '\n');
    var n := UpperRunLength(lines[1..]);
    UpperRunLengthIsRun(lines[1..]);
    MarkerLineHasNoLower(ref, frame);
    assert forall j :: 1 <= j <= n ==> lines[j] == lines[1..][j - 1];
    JoinSplit(frame, '\n');
    JoinPrefixHasNoLower(lines, '\n', n, i);
  }

  /** A keyword holds a lower-case letter, so in a frame that opens with its
      marker the abstract's keyword stands after the title. */
  lemma AbstractAfterTitle(frame: string, ref: int)
    requires Marker(ref) <= frame
    requires TitleOf(frame).Some?
    requires AbstractStartOf(frame, KEYWORDS).found
    ensures TitleEnd(frame) <= AbstractStartOf(frame, KEYWORDS).position
  {
    var position := AbstractStartOf(frame, KEYWORDS).position;
    AbstractStartIsKeyword(frame, KEYWORDS);
    KeywordsHaveLowerSecondLetter();
    var k :| 0 <= k < |KEYWORDS| && OccursAt(frame, KEYWORDS[k], position);
    assert frame[position + 1] == frame[position..position + |KEYWORDS[k]|][1];
    if position < TitleEnd(frame) {
      TitleHasNoLower(frame, ref, position + 1);
    }
  }

  /** The frames the driver slices open with their marker: when the opening
      marker is found before the closing one, the closing marker's `P` cannot
      stand inside the opening marker, whose other characters are digits, a
      minus sign or the newline. */
  lemma FrameOpensWithMarker(data: string, opening: int, closing: int)
    requires Find(data, Marker(opening)) != -1
    requires Find(data, Marker(opening)) < Find(data, Marker(closing))
    ensures Marker(opening) <= Slice(data, Find(data, Marker(opening)), Find(data, Marker(closing)))
  {
    var s, e := Find(data, Marker(opening)), Find(data, Marker(closing));
    var m := Marker(opening);
    FindIsLocated(data, m);
    FindIsLocated(data, Marker(closing));
    assert data[e] == Marker(closing)[0] == 'P';
    IntToStrChars(opening);
    SliceInBounds(data, s, e);
    assert data[s..e][..|m|] == data[s..s + |m|];
  }

  /** In a frame that opens with its marker, the author cell is the text
      from the end of the title's last line, as `find` locates it, to the
      abstract's keyword. */
  lemma AuthorCellFollowsTitle(data: string, frame: Frame, ref: int, rowLabel: string)
    requires Marker(ref) <= Slice(data, frame.start, frame.end)
    requires RecordRow(data, frame, rowLabel).Some?
    requires AbstractStartOf(Slice(data, frame.start, frame.end), KEYWORDS).found
    ensures var dataFrm := Slice(data, frame.start, frame.end);
      var t, position := TitleOf(dataFrm).value, AbstractStartOf(dataFrm, KEYWORDS).position;
      var carrier1 := Find(dataFrm, t.lastLine) + |t.lastLine|;
      0 <= carrier1 <= position &&
      RecordRow(data, frame, rowLabel).value[2] == dataFrm[carrier1..position]
  {
    var dataFrm := Slice(data, frame.start, frame.end);
    var t, position := TitleOf(dataFrm).value, AbstractStartOf(dataFrm, KEYWORDS).position;
    AuthorStartWithinTitle(dataFrm);
    AbstractAfterTitle(dataFrm, ref);
    SliceInBounds(dataFrm, Find(dataFrm, t.lastLine) + |t.lastLine|, position);
  }

  /** For every listed presentation whose frame closes after it opens, the
      author cell of its row is the frame's text from where `find` meets the
      title's last line to the abstract's keyword. */
  lemma ListedRowAuthorCell(refs: seq<int>, data: string, k: nat)
    requires k < |refs| && refs[k] in FrameMap(refs, data)
    requires RowAt(refs, data, k).Some?
    requires var f := FrameMap(refs, data)[refs[k]];
      f.start < f.end && AbstractStartOf(Slice(data, f.start, f.end), KEYWORDS).found
    ensures var f := FrameMap(refs, data)[refs[k]];
      var dataFrm := Slice(data, f.start, f.end);
      var t, position := TitleOf(dataFrm).value, AbstractStartOf(dataFrm, KEYWORDS).position;
      var carrier1 := Find(dataFrm, t.lastLine) + |t.lastLine|;
      0 <= carrier1 <= position && RowAt(refs, data, k).value[2] == dataFrm[carrier1..position]
  {
    var j := LastPosition(refs, k);
    var closing := ClosingRef(refs, j);
    ListedFrame(refs, data, j, refs[k], closing);
    var f := FrameMap(refs, data)[refs[k]];
    MissingMarkerHasNoTitle(data, f.end, Label(refs[k]));
    FrameOpensWithMarker(data, refs[k], closing);
    AuthorCellFollowsTitle(data, f, refs[k], Label(refs[k]));
  }

  /** A text of at most one character has no title line after its first line. */
  lemma ShortTextHasNoTitle(frame: string)
    requires |frame| <= 1
    ensures TitleOf(frame) == None
  {
    if frame != [] {
      if frame[0] == '\n' {
        assert Split(frame, '\n') == [[], []];
      } else {
        SplitWithoutSeparator(frame, '\n');
      }
    }
  }

  /** A frame whose opening marker is missing starts at -1, which Python
      reads as the last character: its text is at most one character, and
      `topic_title` fails on it. */
  lemma MissingMarkerHasNoTitle(data: string, frameEnd: int, rowLabel: string)
    ensures |Slice(data, -1, frameEnd)| <= 1
    ensures RecordRow(data, Frame(-1, frameEnd), rowLabel) == None
  {
    ShortTextHasNoTitle(Slice(data, -1, frameEnd));
  }

  /** When the marker of a listed presentation is missing from the text, the
      script stops with a title failure at that presentation or earlier. */
  lemma MissingMarkerStopsRun(refs: seq<int>, data: string, k: nat, out: Outcome)
    requires k < |refs|
    requires Find(data, Marker(refs[k])) == -1
    requires Assembled(refs, data, out)
    ensures out.TitleMissing? && |out.rows| <= k + 1
  {
    var j := LastPosition(refs, k);
    ListedFrame(refs, data, j, refs[k], ClosingRef(refs, j));
    MissingMarkerHasNoTitle(data, Find(data, Marker(ClosingRef(refs, j))), Label(refs[k]));
    assert RowAt(refs, data, k) == None;
  }

  /** The last position of `refs` that holds the reference at position `k`. */
  lemma {:induction false} LastPosition(refs: seq<int>, k: nat) returns (j: nat)
    requires k < |refs|
    ensures k <= j < |refs| && refs[j] == refs[k]
    ensures forall i :: j < i < |refs| ==> refs[i] != refs[k]
    decreases |refs| - k
  {
    if i :| k < i < |refs| && refs[i] == refs[k] {
      j := LastPosition(refs, i);
    } else {
      j := k;
    }
  }

  /** How a run ends: every row built, or stopped at `ref` whose frame has
      no title line; `rows` then ends with that record's half-built row. */
  datatype Outcome = Completed(rows: seq<Row>) | TitleMissing(ref: int, rows: seq<Row>)

  /** `out` is what the loop produces over `refs`. */
  ghost predicate Assembled(refs: seq<int>, data: string, out: Outcome)
  {
    match out
    case Completed(rows) =>
      |rows| == |refs| &&
      forall k :: 0 <= k < |refs| ==> RowAt(refs, data, k) == Some(rows[k])
    case TitleMissing(ref, rows) =>
      exists i :: 0 <= i < |refs| && ref == refs[i] && RowAt(refs, data, i) == None &&
        |rows| == i + 1 && rows[i] == [Label(ref)] &&
        forall k :: 0 <= k < i ==> RowAt(refs, data, k) == Some(rows[k])
  }

  /** The body of the record-assembly loop for `ref`: the label, then the
      cells `topic_title` and `presentation_abstract` yield, appended one by
      one; `None` where `topic_title` raises. */
  method FillRow(data: string, frame: Frame, rowLabel: string) returns (row: Option<Row>)
    ensures row == RecordRow(data, frame, rowLabel)
  {
    var cells: Row := [rowLabel];
    var dataFrm := Slice(data, frame.start, frame.end);

    var t := TopicTitle(dataFrm);
    if t.None? {
      return None;
    }
    var title, element := t.value.text, t.value.lastLine;
    cells := cells + [title];
    var carrier1 := Find(dataFrm, element) + |element|;

    var found, carrierAbstract := PresentationAbstract(dataFrm);
    ghost var abs := AbstractStart(found, carrierAbstract);
    if found {
      var authorText, abstractText := Slice(dataFrm, carrier1, carrierAbstract), Slice(dataFrm, carrierAbstract, frame.end);
      cells := cells + [authorText];
      cells := cells + [abstractText];
      assert cells == [rowLabel, title, authorText, abstractText];
      assert cells == RowOf(rowLabel, dataFrm, frame.end, t.value, abs);
    } else {
      cells := cells + [AUTHOR_NOT_FOUND];
      cells := cells + [ABSTRACT_NOT_FOUND];
      assert cells == [rowLabel, title, AUTHOR_NOT_FOUND, ABSTRACT_NOT_FOUND];
      assert cells == RowOf(rowLabel, dataFrm, frame.end, t.value, abs);
    }
    row := Some(cells);
  }

  /** The record-assembly loop over `refs`, from `frame_indexes` to the
      last row. */
  method Assemble(refs: seq<int>, data: string) returns (out: Outcome)
    ensures Assembled(refs, data, out)
  {
    var frames := FrameIndexes(refs, data);
    var parsedData: seq<Row> := [];
    for i := 0 to |refs|
      invariant |parsedData| == i
      invariant forall k :: 0 <= k < i ==> RowAt(refs, data, k) == Some(parsedData[k])
    {
      var ref := refs[i];
      var rowLabel := Label(ref);
      parsedData := parsedData + [[rowLabel]];
      var row := FillRow(data, frames[ref], rowLabel);
      assert RowAt(refs, data, i) == row;
      if row.None? {
        return TitleMissing(ref, parsedData);
      }
      parsedData := parsedData[i := row.value];
    }
    out := Completed(parsedData);
  }

  /** The whole script after the document text is obtained. */
  method Run(data: string) returns (out: Outcome)
    ensures Assembled(RefNums(), data, out)
  {
    var refNums := RangeExcept(100, 116, 103);
    out := Assemble(refNums, data);
  }
}
