/** The text editor's two ways between an offset in the text and a line and column on the
    screen, where lines longer than the screen are wrapped. */
module Edit {

  datatype Place = Place(line: nat, col: nat)

  /** The place after one more character. */
  function Step(p: Place, ch: char, width: nat): Place {
    if ch == '\n' || p.col + 1 >= width then Place(p.line + 1, 0) else Place(p.line, p.col + 1)
  }

  function PlaceOf(text: string, width: nat, offset: nat): Place
    requires offset <= |text|
  {
    if offset == 0 then Place(0, 0) else Step(PlaceOf(text, width, offset - 1), text[offset - 1], width)
  }

  /** The first loop of the way back: skips characters from i on until line screen lines are
      behind; c counts characters. */
  function Skipped(text: string, width: nat, line: nat, c: nat, i: nat): (r: nat)
    requires i <= |text|
    ensures i <= r <= |text|
    decreases |text| - i
  {
    if i == |text| || line == 0 then i
    else if text[i] == '\n' || c >= width then Skipped(text, width, line - 1, 1, i + 1)
    else Skipped(text, width, line, c + 1, i + 1)
  }

  /** The second loop: up to col characters of the line. */
  function Along(text: string, col: nat, i: nat): (r: nat)
    requires i <= |text|
    ensures i <= r <= |text|
    decreases |text| - i
  {
    if i == |text| || col == 0 || text[i] == '\n' then i else Along(text, col - 1, i + 1)
  }

  function OffsetOf(text: string, width: nat, p: Place): (r: nat)
    ensures r <= |text|
  {
    Along(text, p.col, Skipped(text, width, p.line, 0, 0))
  }

  /** Length of the first line. */
  function FirstLine(text: string): (n: nat)
    ensures n <= |text| && (n < |text| ==> text[n] == '\n')
    ensures forall k :: 0 <= k < n ==> text[k] != '\n'
  {
    if text == "" || text[0] == '\n' then 0 else 1 + FirstLine(text[1..])
  }

  /** Places go forward with the offset. */
  lemma {:induction false} PlaceForward(text: string, width: nat, i: nat, j: nat)
    requires i <= j <= |text|
    ensures PlaceOf(text, width, i).line <= PlaceOf(text, width, j).line
    ensures PlaceOf(text, width, i).line == PlaceOf(text, width, j).line ==>
              && PlaceOf(text, width, j).col == PlaceOf(text, width, i).col + (j - i)
              && forall k :: i <= k < j ==> text[k] != '\n'
    decreases j
  {
    if i < j { PlaceForward(text, width, i, j - 1); }
  }

  /** No two offsets share a place. */
  lemma PlaceInjective(text: string, width: nat, i: nat, j: nat)
    requires i <= |text| && j <= |text| && PlaceOf(text, width, i) == PlaceOf(text, width, j)
    ensures i == j
  {
    if i <= j { PlaceForward(text, width, i, j); } else { PlaceForward(text, width, j, i); }
  }

  lemma {:induction false} AlongLine(text: string, col: nat, i: nat)
    requires i + col <= |text| && forall k :: i <= k < i + col ==> text[k] != '\n'
    ensures Along(text, col, i) == i + col
    decreases col
  {
    if col > 0 { AlongLine(text, col - 1, i + 1); }
  }

  /** Behind the first line the count is one more than the column. */
  lemma {:induction false} SkipOn(text: string, width: nat, i: nat, target: nat)
    requires 0 < width && i <= target <= |text|
    ensures var p, q := PlaceOf(text, width, i), PlaceOf(text, width, target);
            p.line <= q.line &&
            var s := Skipped(text, width, q.line - p.line, p.col + 1, i);
            s <= target && PlaceOf(text, width, s).line == q.line
            && (p.line < q.line ==> PlaceOf(text, width, s).col == 0) && (p.line == q.line ==> s == i)
    decreases target - i
  {
    PlaceForward(text, width, i, target);
    if PlaceOf(text, width, i).line < PlaceOf(text, width, target).line {
      SkipOn(text, width, i + 1, target);
    }
  }

  /** In the first line the count is the column. */
  lemma {:induction false} SkipFirst(text: string, width: nat, i: nat, target: nat)
    requires FirstLine(text) < width && i <= FirstLine(text) && i <= target <= |text|
    ensures PlaceOf(text, width, i) == Place(0, i)
    ensures var q := PlaceOf(text, width, target);
            var s := Skipped(text, width, q.line, i, i);
            s <= target && PlaceOf(text, width, s).line == q.line
            && (0 < q.line ==> PlaceOf(text, width, s).col == 0) && (q.line == 0 ==> s == i)
    decreases target - i
  {
    FirstPlaces(text, width, i);
    if PlaceOf(text, width, target).line > 0 {
      if i == FirstLine(text) {
        SkipOn(text, width, i + 1, target);
      } else {
        SkipFirst(text, width, i + 1, target);
      }
    }
  }

  lemma {:induction false} FirstPlaces(text: string, width: nat, i: nat)
    requires i <= FirstLine(text) && i <= |text| && i < width
    ensures PlaceOf(text, width, i) == Place(0, i)
  {
    if i > 0 { FirstPlaces(text, width, i - 1); }
  }

  lemma ThereAndBack(text: string, width: nat, offset: nat)
    requires FirstLine(text) < width && offset <= |text|
    ensures OffsetOf(text, width, PlaceOf(text, width, offset)) == offset
  {
    SkipFirst(text, width, 0, offset);
    var p := PlaceOf(text, width, offset);
    var s := Skipped(text, width, p.line, 0, 0);
    PlaceForward(text, width, s, offset);
    AlongLine(text, p.col, s);
  }

  /** A text that stops at the end of the first screen line. */
  lemma {:induction false} SkipAll(text: string, width: nat, line: nat, i: nat)
    requires FirstLine(text) == |text| <= width && i <= |text| && 0 < line
    ensures Skipped(text, width, line, i, i) == |text|
    decreases |text| - i
  {
    if i < |text| { SkipAll(text, width, line, i + 1); }
  }

  /** A first line as long as the screen is wide makes the way back one character too long. */
  lemma {:induction false} SkipWrapped(text: string, width: nat, i: nat)
    requires i <= width <= FirstLine(text) && width < |text|
    ensures Skipped(text, width, 1, i, i) == width + 1
    decreases width - i
  {
    if i < width { SkipWrapped(text, width, i + 1); }
  }

  /** The way back undoes the way forth for all offsets of a text if and only if the first line is
      shorter than the screen is wide, or the text ends with the first screen line. */
  lemma RoundTripIff(text: string, width: nat)
    requires 0 < width
    ensures (forall offset: nat :: offset <= |text| ==> OffsetOf(text, width, PlaceOf(text, width, offset)) == offset)
            <==> FirstLine(text) < width || |text| == width
  {
    if FirstLine(text) < width {
      forall offset: nat | offset <= |text| ensures OffsetOf(text, width, PlaceOf(text, width, offset)) == offset {
        ThereAndBack(text, width, offset);
      }
    } else if |text| == width {
      forall offset: nat | offset <= |text| ensures OffsetOf(text, width, PlaceOf(text, width, offset)) == offset {
        if offset < width {
          FirstPlaces(text, width, offset);
          AlongLine(text, offset, 0);
        } else {
          FirstPlaces(text, width, width - 1);
          SkipAll(text, width, 1, 0);
        }
      }
    } else {
      FirstPlaces(text, width, width - 1);
      SkipWrapped(text, width, 0);
      assert PlaceOf(text, width, width) == Place(1, 0);
      assert OffsetOf(text, width, PlaceOf(text, width, width)) == width + 1;
    }
  }

  // ----- the editor's code; the text ends with a zero

  function CharAt(text: string, i: nat): char {
    if i < |text| then text[i] else 0 as char
  }

  method BufferOffsetToLineCol(text: string, width: nat, offset0: nat) returns (col: nat, line: nat)
    requires 0 < width < 0x1_0000 && forall k :: 0 <= k < |text| ==> text[k] != 0 as char
    ensures var p := PlaceOf(text, width, if offset0 <= |text| then offset0 else |text|);
            col == p.col && line == p.line % 0x1_0000
  {
    col, line := 0, 0;
    var offset, buff := offset0, 0;
    while offset > 0 && CharAt(text, buff) != 0 as char
      invariant 0 <= offset && 0 <= buff <= |text| && offset + buff == offset0
      invariant col == PlaceOf(text, width, buff).col < width
      invariant line == PlaceOf(text, width, buff).line % 0x1_0000
      decreases offset
    {
      if CharAt(text, buff) == '\n' {
        line := (line + 1) % 0x1_0000;
        col := 0;
      } else {
        col := (col + 1) % 0x1_0000;
        if col >= width {
          line := (line + 1) % 0x1_0000;
          col := 0;
        }
      }
      offset := offset - 1;
      buff := buff + 1;
    }
  }

  method LineColToBufferOffset(text: string, width: nat, col0: nat, line0: nat) returns (offset: nat)
    requires forall k :: 0 <= k < |text| ==> text[k] != 0 as char
    ensures offset == OffsetOf(text, width, Place(line0, col0))
  {
    var col, line, c, buff := col0, line0, 0, 0;
    offset := 0;
    while CharAt(text, buff) != 0 as char && line > 0
      invariant buff == offset <= |text|
      invariant Skipped(text, width, line0, 0, 0) == Skipped(text, width, line, c, buff)
      decreases |text| - buff
    {
      if CharAt(text, buff) == '\n' || c >= width {
        line := line - 1;
        c := 0;
      }
      c := c + 1;
      offset := offset + 1;
      buff := buff + 1;
    }
    while CharAt(text, buff) != 0 as char && col > 0
      invariant buff == offset <= |text|
      invariant OffsetOf(text, width, Place(line0, col0)) == Along(text, col, buff)
      decreases |text| - buff
    {
      if CharAt(text, buff) == '\n' { break; }
      col := col - 1;
      offset := offset + 1;
      buff := buff + 1;
    }
  }
}
