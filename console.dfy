/**
 * The application's text console: a fixed number of line slots used as a
 * ring, so that only the most recent lines are kept, with the line count
 * since the last clear deciding which slot the next line goes to and
 * which lines are drawn.
 */
module AppConsole {
  import opened DebugGeneral

  /** Euclidean division is determined by any quotient and remainder in range. */
  lemma ModUnique(a: int, b: int, q: int, r: int)
    requires b > 0 && 0 <= r < b && a == q * b + r
    ensures a % b == r && a / b == q
  {
    var q', r' := a / b, a % b;
    assert a == q' * b + r';
    ProductAtLeast(q - q', b);
    assert (q - q') * b == q * b - q' * b;
    ProductAtLeast(q' - q, b);
    assert (q' - q) * b == q' * b - q * b;
  }

  /** A positive multiple of w is at least w. */
  lemma ProductAtLeast(a: int, w: int)
    requires w >= 0
    ensures a >= 1 ==> a * w >= w
  {
    assert a * w == (a - 1) * w + w;
  }

  /**
   * C++ '%' on a positive divisor: the remainder takes the sign of the
   * dividend, so it is the Euclidean remainder, or that minus the divisor
   * for a negative dividend that is not a multiple.
   */
  function CRem(a: int, b: int): (r: int)
    requires b > 0
    ensures a >= 0 ==> r == a % b
    ensures a < 0 ==> r == (if a % b == 0 then 0 else a % b - b)
  {
    if a >= 0 then a % b
    else
      var s := (-a) % b;
      var q := (-a) / b;
      if s == 0 then ModUnique(a, b, -q, 0); 0
      else ModUnique(a, b, -q - 1, b - s); -s
  }

  /** A line cut to at most m characters; a negative m never cuts, as the unsigned comparison in draw makes it huge. */
  function Truncated(line: string, m: int): (r: string)
    ensures |r| <= |line| && r == line[..|r|]
    ensures m >= 0 ==> |r| == if |line| > m then m else |line|
    ensures m < 0 ==> r == line
  {
    if m >= 0 && |line| > m then line[..m] else line
  }

  /** The text draw hands to the renderer: each line truncated and followed by a newline. */
  function DrawnText(lines: seq<string>, m: int): string
  {
    if |lines| == 0 then "" else DrawnText(lines[..|lines| - 1], m) + Truncated(lines[|lines| - 1], m) + "\n"
  }

  /** The first line draw shows: at most min(size, maxLineCount) lines back from the end. */
  function FirstDrawnLine(total: int, size: int, maxLineCount: int): int
  {
    var drawLineCount := if size < maxLineCount then size else maxLineCount;
    if total - drawLineCount > 0 then total - drawLineCount else 0
  }

  /** Two line numbers less than size apart never share a slot. */
  lemma DistinctSlots(k: int, n: int, size: int)
    requires size > 0 && 0 <= k < n && n - k < size
    ensures k % size != n % size
  {
    var qk, qn := k / size, n / size;
    assert k == qk * size + k % size && n == qn * size + n % size;
    var d := qn - qk;
    assert n - k == d * size + (n % size - k % size);
    ProductAtLeast(d, size);
    ProductAtLeast(1 - d, size);
    assert (1 - d) * size == size - d * size;
  }

  /** Drawing one more line appends that line's text. */
  lemma DrawnTextStep(shown: seq<string>, j: int, m: int)
    requires 0 <= j < |shown|
    ensures DrawnText(shown[..j + 1], m) == DrawnText(shown[..j], m) + Truncated(shown[j], m) + "\n"
  {
    assert shown[..j + 1][..j] == shown[..j];
  }

  /** The lines draw shows, oldest first: none when the first line is past the end. */
  function DrawnLines(lines: seq<string>, size: int, maxLineCount: int): seq<string>
  {
    var first := FirstDrawnLine(|lines|, size, maxLineCount);
    if first < |lines| then lines[first..] else []
  }

  /** TextConsole: the line slots and the count of lines logged since the last clear. */
  class TextConsole {
    const textBuffer: array<string>
    var totalLineCount: int
    /** Every line logged since the last clear, oldest first. */
    ghost var lines: seq<string>

    /** The first line number whose slot still holds it. */
    ghost function WindowStart(): int
      reads this
    {
      if |lines| > textBuffer.Length then |lines| - textBuffer.Length else 0
    }

    /** Line k sits in slot k mod size. */
    ghost predicate SlotHolds(k: int)
      reads this, textBuffer
    {
      textBuffer.Length > 0 && 0 <= k < |lines| && textBuffer[k % textBuffer.Length] == lines[k]
    }

    /**
     * The ring keeps the last min(count, size) lines, line k in slot
     * k mod size, and slots never written since the last clear are blank.
     */
    ghost predicate Valid()
      reads this, textBuffer
    {
      totalLineCount == |lines|
      && (forall k :: WindowStart() <= k < |lines| ==> SlotHolds(k))
      && (forall j :: |lines| <= j < textBuffer.Length ==> textBuffer[j] == "")
    }

    /** The constructor: bufferSize blank slots (50 by default in the source). */
    constructor (bufferSize: nat)
      ensures Valid() && fresh(textBuffer)
      ensures textBuffer.Length == bufferSize && totalLineCount == 0 && lines == []
      ensures forall j :: 0 <= j < bufferSize ==> textBuffer[j] == ""
    {
      textBuffer := new string[bufferSize](_ => "");
      totalLineCount := 0;
      lines := [];
    }

    /** get_buffer_index: the slot of a line number, negative numbers included. */
    function GetBufferIndex(lineNum: int): (r: int)
      requires textBuffer.Length > 0
      ensures 0 <= r < textBuffer.Length
      ensures r == lineNum % textBuffer.Length
    {
      var bufferSize := textBuffer.Length;
      var shifted := CRem(lineNum, bufferSize) + bufferSize;
      if shifted >= bufferSize then
        ModUnique(shifted, bufferSize, 1, lineNum % bufferSize); CRem(shifted, bufferSize)
      else
        ModUnique(shifted, bufferSize, 0, lineNum % bufferSize); CRem(shifted, bufferSize)
    }

    /** A line still in the window is read back from its slot. */
    lemma SlotHoldsLine(i: int)
      requires Valid() && WindowStart() <= i < |lines| && textBuffer.Length > 0
      ensures textBuffer[GetBufferIndex(i)] == lines[i]
    {
      assert SlotHolds(i);
    }

    /** Stores one line in the next slot. */
    method PutLine(line: string)
      requires Valid() && textBuffer.Length > 0
      modifies this, textBuffer
      ensures Valid() && lines == old(lines) + [line]
      ensures totalLineCount == old(totalLineCount) + 1
    {
      var size := textBuffer.Length;
      var n := totalLineCount;
      var slot := GetBufferIndex(n);
      if n < size {
        ModUnique(n, size, 0, n);
      }
      textBuffer[slot] := line;
      totalLineCount := totalLineCount + 1;
      lines := lines + [line];
      forall k | WindowStart() <= k < n + 1
        ensures SlotHolds(k)
      {
        if k < n {
          assert old(SlotHolds(k));
          DistinctSlots(k, n, size);
          assert textBuffer[k % size] == old(textBuffer[k % size]) == lines[k];
        }
      }
    }

    /** log: the message's lines (split on '\n'; none for an empty message) go into the ring in order. */
    method Log(logMessage: string)
      requires Valid() && textBuffer.Length > 0
      modifies this, textBuffer
      ensures Valid()
      ensures lines == old(lines) + Split(logMessage, '\n')
      ensures totalLineCount == old(totalLineCount) + |Split(logMessage, '\n')|
    {
      var logLines := SplitString(logMessage, '\n');
      var i := 0;
      while i < |logLines|
        invariant 0 <= i <= |logLines|
        invariant Valid()
        invariant lines == old(lines) + logLines[..i]
      {
        PutLine(logLines[i]);
        assert logLines[..i + 1] == logLines[..i] + [logLines[i]];
        i := i + 1;
      }
      assert logLines[..i] == logLines;
    }

    /** clear: no lines and every slot blank, the number of slots unchanged. */
    method Clear()
      requires Valid()
      modifies this, textBuffer
      ensures Valid() && totalLineCount == 0 && lines == []
      ensures forall j :: 0 <= j < textBuffer.Length ==> textBuffer[j] == ""
    {
      totalLineCount := 0;
      lines := [];
      var i := 0;
      while i < textBuffer.Length
        invariant 0 <= i <= textBuffer.Length
        invariant totalLineCount == 0 && lines == []
        invariant forall j :: 0 <= j < i ==> textBuffer[j] == ""
      {
        textBuffer[i] := "";
        i := i + 1;
      }
    }

    /**
     * The text draw renders: the last min(size, maxLineCount) lines in
     * order, read back from the ring, each truncated to
     * maxCharactersPerLine. The window geometry that yields the two limits
     * is a parameter.
     */
    method DrawString(maxCharactersPerLine: int, maxLineCount: int) returns (drawString: string)
      requires Valid()
      ensures drawString == DrawnText(DrawnLines(lines, textBuffer.Length, maxLineCount), maxCharactersPerLine)
    {
      drawString := "";
      var drawLineCount := if textBuffer.Length < maxLineCount then textBuffer.Length else maxLineCount;
      var firstLine := if totalLineCount - drawLineCount > 0 then totalLineCount - drawLineCount else 0;
      var lastLine := totalLineCount;
      ghost var shown := if firstLine < lastLine then lines[firstLine..] else [];
      assert shown == DrawnLines(lines, textBuffer.Length, maxLineCount);
      assert firstLine < lastLine ==> textBuffer.Length > 0 && WindowStart() <= firstLine;
      var i := firstLine;
      while i < lastLine
        invariant firstLine <= i && i - firstLine <= |shown|
        invariant i < lastLine ==> |shown| == lastLine - firstLine && shown[i - firstLine] == lines[i]
        invariant drawString == DrawnText(shown[..i - firstLine], maxCharactersPerLine)
      {
        SlotHoldsLine(i);
        var lineIndex := GetBufferIndex(i);
        var lineStr := textBuffer[lineIndex];
        if maxCharactersPerLine >= 0 && |lineStr| > maxCharactersPerLine {
          lineStr := lineStr[..maxCharactersPerLine];
        }
        assert lineStr == Truncated(shown[i - firstLine], maxCharactersPerLine);
        DrawnTextStep(shown, i - firstLine, maxCharactersPerLine);
        drawString := drawString + lineStr + "\n";
        i := i + 1;
      }
      assert shown[..i - firstLine] == shown;
    }
  }

  /** A message of two one-character lines splits into those lines. */
  lemma TwoLines(x: char, y: char)
    requires x != '\n' && y != '\n'
    ensures Split([x, '\n', y], '\n') == [[x], [y]]
  {
    var s := [x, '\n', y];
    assert [x][..0] == [] && [] + [x] == [x];
    assert Pieces([x], '\n') == [[x]];
    assert [x, '\n'][..1] == [x];
    assert Pieces([x, '\n'], '\n') == [[x], []];
    assert s[..2] == [x, '\n'];
    var init := Pieces(s[..2], '\n');
    assert init == [[x], []];
    assert init[..1] == [[x]] && init[1] + [y] == [y];
  }

  /** After logging into a fresh console, the ring holds the most recent lines, the older ones overwritten. */
  method LoggedLinesReadBack() returns (first: string, second: string, third: string, count: int)
    ensures first == "c" && second == "d" && third == "b" && count == 4
  {
    var console := LogFourLines();
    console.SlotHoldsLine(2);
    console.SlotHoldsLine(3);
    console.SlotHoldsLine(1);
    first := console.textBuffer[console.GetBufferIndex(2)];
    second := console.textBuffer[console.GetBufferIndex(3)];
    third := console.textBuffer[console.GetBufferIndex(1)];
    count := console.totalLineCount;
  }

  /** A fresh three-slot console after logging "a\nb" and then "c\nd". */
  method LogFourLines() returns (console: TextConsole)
    ensures fresh(console) && console.Valid() && console.textBuffer.Length == 3
    ensures console.lines == ["a", "b", "c", "d"] && console.totalLineCount == 4
  {
    console := new TextConsole(3);
    console.Log(['a', '\n', 'b']);
    console.Log(['c', '\n', 'd']);
    TwoLines('a', 'b');
    TwoLines('c', 'd');
  }
}
