/**
 * The later circuit editor of the plot-circuit program: a text screen with
 * a heading, the qubit rows, instructions, the settings and a "+ / -"
 * line, whose line numbers the editor records while printing so that its
 * click handlers know which row was hit.
 */
module PlotCircuit {
  import opened BasicMath
  import opened Circuit

  /** The lines above the qubit rows. */
  const Heading: seq<string> := ["Quantum circuit:", ""]

  /** The lines between the qubit rows and the settings, naming the selected setting. */
  function Instructions(selected: nat): (r: seq<string>)
    requires IsSetting(selected)
    ensures |r| == 10
  {
    ["", "", "Press on the gates in circuit to change them, ex ..", "You can also change the gates already set!",
     "Currently selected: " + OpText(selected), "", "", "", "Press on the gate you want to use", ""]
  }

  /** The lines between the settings and the "+ / -" line. */
  const PlusMinusHelp: seq<string> := ["", "", "Press on + and - to change qubit count"]

  /** The line holding the qubit-count buttons. */
  const PlusMinusLine: string := " +   - "

  /** None of the fixed lines holds a newline. */
  lemma FixedLinesHaveNoBreaks(selected: nat)
    requires IsSetting(selected)
    ensures NoBreaks(Heading) && NoBreaks(Instructions(selected)) && NoBreaks(PlusMinusHelp) && NoBreak(PlusMinusLine)
  {
    assert NoBreak("Quantum circuit:");
    InstructionsHaveNoBreaks(selected);
    PlusMinusHelpHasNoBreaks();
  }

  /** None of the instruction lines holds a newline. */
  lemma InstructionsHaveNoBreaks(selected: nat)
    requires IsSetting(selected)
    ensures NoBreaks(Instructions(selected))
  {
    var r := Instructions(selected);
    PressTextsHaveNoBreaks();
    ChangeTextsHaveNoBreaks();
    assert NoBreak("Currently selected: " + OpText(selected));
    assert forall i :: 0 <= i < |r| ==> r[i] in {"", "Press on the gates in circuit to change them, ex ..",
      "You can also change the gates already set!", "Currently selected: " + OpText(selected), "Press on the gate you want to use"};
  }

  /** The instruction texts on pressing hold no newline. */
  lemma PressTextsHaveNoBreaks()
    ensures NoBreak("Press on the gates in circuit to change them, ex ..")
    ensures NoBreak("Press on the gate you want to use")
  {
    var head, tail := "Press on the gates in circuit ", "to change them, ex ..";
    assert NoBreak(head) && NoBreak(tail);
    assert head + tail == "Press on the gates in circuit to change them, ex ..";
  }

  /** The instruction texts on the selection hold no newline. */
  lemma ChangeTextsHaveNoBreaks()
    ensures NoBreak("You can also change the gates already set!")
    ensures NoBreak("Currently selected: ")
  {
  }

  /** The help line above the buttons holds no newline. */
  lemma PlusMinusHelpHasNoBreaks()
    ensures NoBreaks(PlusMinusHelp)
  {
    assert NoBreak("Press on + and - to change qubit count");
  }

  /** Every line of the screen, in order. */
  function PlotLines(ops: seq<Operation>, count: nat, circuitLength: nat, selected: nat): seq<string>
    requires OpsValid(ops) && IsSetting(selected)
  {
    Heading + QubitLines(ops, count, circuitLength) + Instructions(selected)
      + [SettingsList(|GateSettings|)] + PlusMinusHelp + [PlusMinusLine]
  }

  /** The whole text to_string returns: every line of the screen followed by a newline. */
  function PlotOutput(ops: seq<Operation>, count: nat, selected: nat): string
    requires OpsValid(ops) && IsSetting(selected)
  {
    Unlines(PlotLines(ops, count, |ops|, selected))
  }

  /**
   * Where each row sits: qubit j on line 2 + 2j, the settings on line
   * 12 + 2 * count, the buttons on line 16 + 2 * count, which is the last.
   */
  lemma PlotLayout(ops: seq<Operation>, count: nat, circuitLength: nat, selected: nat)
    requires OpsValid(ops) && IsSetting(selected)
    ensures var lines := PlotLines(ops, count, circuitLength, selected);
      |lines| == 17 + 2 * count
      && (forall j :: 0 <= j < count ==> lines[2 + 2 * j] == QubitRow(ops, j, circuitLength) && lines[3 + 2 * j] == "")
      && lines[12 + 2 * count] == SettingsList(|GateSettings|)
      && lines[16 + 2 * count] == PlusMinusLine
  {
    QubitRowsAt(ops, count, circuitLength);
    var rows := QubitLines(ops, count, circuitLength);
    ScreenPartsAt(Heading, rows, Instructions(selected), SettingsList(|GateSettings|), PlusMinusHelp, PlusMinusLine);
  }

  /** Where the parts of a screen with a two-line heading, ten instruction lines and three help lines land. */
  lemma ScreenPartsAt(heading: seq<string>, rows: seq<string>, instructions: seq<string>, settings: string,
                      help: seq<string>, buttons: string)
    requires |heading| == 2 && |instructions| == 10 && |help| == 3
    ensures var lines := heading + rows + instructions + [settings] + help + [buttons];
      |lines| == 17 + |rows|
      && (forall i :: 0 <= i < |rows| ==> lines[2 + i] == rows[i])
      && lines[12 + |rows|] == settings
      && lines[16 + |rows|] == buttons
  {
    var lines := heading + rows + instructions + [settings] + help + [buttons];
    var upper := heading + rows;
    assert lines == upper + (instructions + [settings] + help + [buttons]);
    forall i | 0 <= i < |rows|
      ensures lines[2 + i] == rows[i]
    {
      assert lines[2 + i] == upper[2 + i];
    }
  }

  /** Every line of the screen is free of newlines. */
  lemma PlotLinesNoBreaks(ops: seq<Operation>, count: nat, circuitLength: nat, selected: nat)
    requires OpsValid(ops) && IsSetting(selected)
    ensures NoBreaks(PlotLines(ops, count, circuitLength, selected))
  {
    FixedLinesHaveNoBreaks(selected);
    QubitLinesNoBreaks(ops, count, circuitLength);
    var rows := QubitLines(ops, count, circuitLength);
    var upper := Heading + rows;
    var lower := Instructions(selected) + [SettingsList(|GateSettings|)] + PlusMinusHelp + [PlusMinusLine];
    assert NoBreaks(upper);
    assert NoBreaks(lower);
    assert PlotLines(ops, count, circuitLength, selected) == upper + lower;
  }

  /** The plus button is column 1 and the minus button column 5 of its line; the handlers accept columns 0-2 and 4-6 around them. */
  lemma PlusMinusColumns()
    ensures |PlusMinusLine| == 7 && PlusMinusLine[1] == '+' && PlusMinusLine[5] == '-'
    ensures forall x :: 0 <= x < 7 && PlusMinusLine[x] != ' ' ==> (0 <= x <= 2 <==> PlusMinusLine[x] == '+')
  {
  }

  /** The text to_string returns splits into exactly those lines, and an empty remainder after the last newline. */
  lemma PlotLineNumbers(ops: seq<Operation>, count: nat, circuitLength: nat, selected: nat)
    requires OpsValid(ops) && IsSetting(selected)
    ensures SplitLines(Unlines(PlotLines(ops, count, circuitLength, selected)))
      == PlotLines(ops, count, circuitLength, selected) + [""]
  {
    var lines := PlotLines(ops, count, circuitLength, selected);
    PlotLinesNoBreaks(ops, count, circuitLength, selected);
    SplitUnlines(lines, "");
    assert Unlines(lines) + "" == Unlines(lines);
  }

  /** The screen's lines in the order to_string prints them. */
  lemma PlotLinesInOrder(ops: seq<Operation>, count: nat, circuitLength: nat, selected: nat)
    requires OpsValid(ops) && IsSetting(selected)
    ensures [] + Heading + QubitLines(ops, count, circuitLength) + Instructions(selected)
      + ([SettingsList(|GateSettings|)] + PlusMinusHelp) + [PlusMinusLine]
      == PlotLines(ops, count, circuitLength, selected)
  {
    assert [] + Heading == Heading;
  }

  /**
   * The line numbers to_string records are the lines of its text that
   * hold the first qubit row, the settings and the buttons: each equals
   * the count of newlines printed before that row.
   */
  lemma RecordedLineNumbers(ops: seq<Operation>, count: nat, circuitLength: nat, selected: nat)
    requires OpsValid(ops) && IsSetting(selected)
    ensures var shown := SplitLines(Unlines(PlotLines(ops, count, circuitLength, selected)));
      |shown| == 18 + 2 * count
      && (forall j :: 0 <= j < count ==> shown[2 + 2 * j] == QubitRow(ops, j, circuitLength))
      && shown[12 + 2 * count] == SettingsList(|GateSettings|)
      && shown[16 + 2 * count] == PlusMinusLine
  {
    PlotLineNumbers(ops, count, circuitLength, selected);
    PlotLayout(ops, count, circuitLength, selected);
  }

  /** Appends one line and its newline, as each "output_str += ...; line_num++" pair does. */
  method AddLine(text: string, ghost lines: seq<string>, line: string) returns (r: string)
    requires text == Unlines(lines)
    ensures r == Unlines(lines + [line])
  {
    UnlinesAppend(lines, line);
    r := text + line + "\n";
  }

  /** Appends fixed lines one at a time, counting them. */
  method AddLines(text: string, ghost lines: seq<string>, lineNum: int, more: seq<string>)
    returns (r: string, ghost rLines: seq<string>, rLineNum: int)
    requires text == Unlines(lines) && lineNum == |lines|
    ensures rLines == lines + more
    ensures r == Unlines(rLines) && rLineNum == |rLines|
  {
    r, rLines, rLineNum := text, lines, lineNum;
    var k := 0;
    while k < |more|
      invariant 0 <= k <= |more|
      invariant rLines == lines + more[..k]
      invariant r == Unlines(rLines) && rLineNum == |rLines|
    {
      r := AddLine(r, rLines, more[k]);
      rLines := rLines + [more[k]];
      rLineNum := rLineNum + 1;
      assert more[..k + 1] == more[..k] + [more[k]];
      k := k + 1;
    }
    assert more[..k] == more;
  }

  /** Printing qubit j's row and a blank line after the first j qubits' lines gives the first j + 1 qubits' lines. */
  lemma RowsStep(lines: seq<string>, ops: seq<Operation>, j: nat, circuitLength: nat)
    requires OpsValid(ops)
    ensures lines + QubitLines(ops, j, circuitLength) + [QubitRow(ops, j, circuitLength)] + [""]
      == lines + QubitLines(ops, j + 1, circuitLength)
  {
    assert QubitLines(ops, j + 1, circuitLength)
      == QubitLines(ops, j, circuitLength) + [QubitRow(ops, j, circuitLength), ""];
  }

  /**
   * check_setting_selection_pressed as written: the column guard is
   * inclusive of gate_settings.size()*4, so the last accepted column
   * selects index 5 of a 5-entry table.
   */
  function PlotSelectionAsWritten(charX: int, charY: int, selectionStart: int, selected: int): (r: int)
    ensures r != selected ==> charY == selectionStart && 0 <= charX <= |GateSettings| * 4 && r == charX / 4
  {
    if charY != selectionStart then selected
    else if !InRange(charX, 0, |GateSettings| * 4) then selected
    else charX / 4
  }

  /** Column 20 of the settings line is accepted as written, and selects a setting the table does not have. */
  lemma PlotSelectionAsWrittenOutOfRange(selectionStart: int)
    ensures PlotSelectionAsWritten(20, selectionStart, selectionStart, 1) == 5 && !IsSetting(5)
  {
  }

  /** The editor's state, with the line numbers of the last screen printed. */
  class PlotCircuitInterface {
    var selectedQubitSetting: int
    var circuit: QuantumCircuit
    var minQubitCount: int
    var qubitSettingsStart: int
    var qubitPlusMinusStart: int
    var qubitSettingsSelectionStart: int
    /** MAX_QUBIT_COUNT, the cap on the qubit rows. */
    const maxQubitCount: int

    ghost predicate Valid()
      reads this, circuit
    {
      1 <= minQubitCount && 1 <= maxQubitCount && IsSetting(selectedQubitSetting) && circuit.Valid()
    }

    constructor (maxQubitCount: int)
      requires 1 <= maxQubitCount
      ensures Valid() && fresh(circuit) && circuit.operations == [] && this.maxQubitCount == maxQubitCount
      ensures selectedQubitSetting == 1 && minQubitCount == 1
      ensures qubitSettingsStart == 0 && qubitPlusMinusStart == 0 && qubitSettingsSelectionStart == 0
    {
      selectedQubitSetting := 1;
      circuit := new QuantumCircuit();
      minQubitCount := 1;
      qubitSettingsStart := 0;
      qubitPlusMinusStart := 0;
      qubitSettingsSelectionStart := 0;
      this.maxQubitCount := maxQubitCount;
    }

    /** The qubit rows, counting two lines per qubit. */
    method AddQubitRows(text: string, ghost lines: seq<string>, lineNum: int, qubitCount: nat, circuitLength: nat)
      returns (r: string, ghost rLines: seq<string>, rLineNum: int)
      requires circuit.Valid() && text == Unlines(lines) && lineNum == |lines|
      ensures rLines == lines + QubitLines(circuit.operations, qubitCount, circuitLength)
      ensures r == Unlines(rLines) && rLineNum == |rLines|
    {
      r, rLines, rLineNum := text, lines, lineNum;
      var j := 0;
      while j < qubitCount
        invariant 0 <= j <= qubitCount
        invariant rLines == lines + QubitLines(circuit.operations, j, circuitLength)
        invariant r == Unlines(rLines) && rLineNum == |rLines|
      {
        var row := RowText(circuit, j, circuitLength);
        r := AddLine(r, rLines, row);
        rLines := rLines + [row];
        rLineNum := rLineNum + 1;
        r := AddLine(r, rLines, "");
        rLines := rLines + [""];
        rLineNum := rLineNum + 1;
        RowsStep(lines, circuit.operations, j, circuitLength);
        j := j + 1;
      }
    }

    /** The printing part of to_string: the screen's text and the line numbers counted while printing it. */
    method PrintScreen() returns (output: string, settingsStart: int, selectionStart: int, plusMinusStart: int)
      requires circuit.Valid() && IsSetting(selectedQubitSetting) && minQubitCount >= 0
      ensures output == PlotOutput(circuit.operations, minQubitCount, selectedQubitSetting)
      ensures settingsStart == 2 && selectionStart == 12 + 2 * minQubitCount && plusMinusStart == 16 + 2 * minQubitCount
    {
      ghost var lines: seq<string>;
      var lineNum: int;
      output, lines, lineNum := AddLines("", [], 0, Heading);

      settingsStart := lineNum;
      var qubitCount: nat := minQubitCount;
      var circuitLength := circuit.GetOperationsCount();
      output, lines, lineNum := AddQubitRows(output, lines, lineNum, qubitCount, circuitLength);
      output, lines, lineNum := AddLines(output, lines, lineNum, Instructions(selectedQubitSetting));

      selectionStart := lineNum;
      var settings := SettingsText();
      output, lines, lineNum := AddLines(output, lines, lineNum, [settings] + PlusMinusHelp);

      plusMinusStart := lineNum;
      output, lines, lineNum := AddLines(output, lines, lineNum, [PlusMinusLine]);
      PlotLinesInOrder(circuit.operations, qubitCount, circuitLength, selectedQubitSetting);
    }

    /** The first step of to_string: the row count grows to cover every qubit in use. */
    method UpdateQubitCount()
      requires Valid()
      modifies this
      ensures Valid() && circuit == old(circuit) && selectedQubitSetting == old(selectedQubitSetting)
      ensures minQubitCount == Max(CircuitMaxQubit(circuit.operations) + 1, old(minQubitCount))
    {
      var maxQubit := circuit.GetMaxQubit();
      minQubitCount := Max(maxQubit + 1, minQubitCount);
    }

    /** Prints the screen for the current row count and records where its rows landed. */
    method PrintAndRecord() returns (output: string)
      requires Valid()
      modifies this
      ensures Valid() && circuit == old(circuit) && selectedQubitSetting == old(selectedQubitSetting)
      ensures minQubitCount == old(minQubitCount) && circuit.operations == old(circuit.operations)
      ensures output == PlotOutput(circuit.operations, minQubitCount, selectedQubitSetting)
      ensures qubitSettingsStart == 2
      ensures qubitSettingsSelectionStart == 12 + 2 * minQubitCount
      ensures qubitPlusMinusStart == 16 + 2 * minQubitCount
    {
      var settingsStart, selectionStart, plusMinusStart;
      output, settingsStart, selectionStart, plusMinusStart := PrintScreen();
      qubitSettingsStart, qubitSettingsSelectionStart, qubitPlusMinusStart := settingsStart, selectionStart, plusMinusStart;
    }

    /**
     * to_string: raises the row count to cover every qubit in use, prints
     * the screen and records the line numbers of the qubit rows, the
     * settings and the buttons.
     */
    method ToString() returns (output: string)
      requires Valid()
      modifies this
      ensures Valid() && circuit == old(circuit) && selectedQubitSetting == old(selectedQubitSetting)
      ensures minQubitCount == Max(CircuitMaxQubit(circuit.operations) + 1, old(minQubitCount))
      ensures output == PlotOutput(circuit.operations, minQubitCount, selectedQubitSetting)
      ensures qubitSettingsStart == 2
      ensures qubitSettingsSelectionStart == 12 + 2 * minQubitCount
      ensures qubitPlusMinusStart == 16 + 2 * minQubitCount
    {
      UpdateQubitCount();
      output := PrintAndRecord();
    }

    /**
     * check_qubit_setting_pressed: a click inside the grid puts the
     * selected setting on qubit (charY - start) / 2 of operation
     * (charX - 6) / 6; a click outside changes nothing.
     */
    method CheckQubitSettingPressed(charX: int, charY: int)
      requires Valid()
      modifies circuit
      ensures Valid()
      ensures var maxX := (old(|circuit.operations|) + 1) * 6 + 6;
        var hit := qubitSettingsStart <= charY <= minQubitCount * 2 - 1 + qubitSettingsStart && 6 <= charX <= maxX;
        (!hit ==> circuit.operations == old(circuit.operations))
        && (hit ==>
              |circuit.operations| == Max(old(|circuit.operations|), (charX - 6) / 6 + 1)
              && circuit.GetQubitSetting((charX - 6) / 6, (charY - qubitSettingsStart) / 2)
                 == (if GateOf(selectedQubitSetting) == StandardGateIndex then 0 else selectedQubitSetting)
              && forall o: nat, q: nat :: (o, q) != ((charX - 6) / 6, (charY - qubitSettingsStart) / 2) ==>
                   circuit.GetQubitSetting(o, q) == old(circuit.GetQubitSetting(o, q)))
    {
      var maxX := (circuit.GetOperationsCount() + 1) * 6 + 6;
      var maxY := minQubitCount * 2 - 1 + qubitSettingsStart;
      if !InRange(charY, qubitSettingsStart, maxY) {
        return;
      }
      if !InRange(charX, 6, maxX) {
        return;
      }
      var operationNum := (charX - 6) / 6;
      var qubitNum := (charY - qubitSettingsStart) / 2;
      circuit.SetQubitSetting(operationNum, qubitNum, selectedQubitSetting);
    }

    /** check_plus_pressed: columns 0-2 of the button line add a qubit row, up to MAX_QUBIT_COUNT. */
    method CheckPlusPressed(charX: int, charY: int)
      requires Valid()
      modifies this
      ensures Valid() && circuit == old(circuit) && selectedQubitSetting == old(selectedQubitSetting)
      ensures qubitSettingsStart == old(qubitSettingsStart) && qubitPlusMinusStart == old(qubitPlusMinusStart)
      ensures qubitSettingsSelectionStart == old(qubitSettingsSelectionStart)
      ensures minQubitCount == if charY == qubitPlusMinusStart && 0 <= charX <= 2
        then (if old(minQubitCount) + 1 > maxQubitCount then maxQubitCount else old(minQubitCount) + 1)
        else old(minQubitCount)
    {
      if charY != qubitPlusMinusStart {
        return;
      }
      if !InRange(charX, 0, 2) {
        return;
      }
      minQubitCount := minQubitCount + 1;
      if minQubitCount > maxQubitCount {
        minQubitCount := maxQubitCount;
      }
    }

    /** check_minus_pressed: columns 4-6 of the button line remove a qubit row, never going below one. */
    method CheckMinusPressed(charX: int, charY: int)
      requires Valid()
      modifies this
      ensures Valid() && circuit == old(circuit) && selectedQubitSetting == old(selectedQubitSetting)
      ensures qubitSettingsStart == old(qubitSettingsStart) && qubitPlusMinusStart == old(qubitPlusMinusStart)
      ensures qubitSettingsSelectionStart == old(qubitSettingsSelectionStart)
      ensures minQubitCount == if charY == qubitPlusMinusStart && 4 <= charX <= 6
        then Max(old(minQubitCount) - 1, 1) else old(minQubitCount)
    {
      if charY != qubitPlusMinusStart {
        return;
      }
      if !InRange(charX, 4, 6) {
        return;
      }
      minQubitCount := minQubitCount - 1;
      if minQubitCount < 1 {
        minQubitCount := 1;
      }
    }

    /**
     * check_setting_selection_pressed with the column guard stopping
     * before gate_settings.size()*4 (the handler as written accepts that
     * column too and selects a sixth, missing, setting).
     */
    method CheckSettingSelectionPressed(charX: int, charY: int)
      requires Valid()
      modifies this
      ensures Valid() && circuit == old(circuit) && minQubitCount == old(minQubitCount)
      ensures qubitSettingsStart == old(qubitSettingsStart) && qubitPlusMinusStart == old(qubitPlusMinusStart)
      ensures qubitSettingsSelectionStart == old(qubitSettingsSelectionStart)
      ensures selectedQubitSetting
        == if charY == qubitSettingsSelectionStart && 0 <= charX < |GateSettings| * 4 then charX / 4
           else old(selectedQubitSetting)
      ensures charX != |GateSettings| * 4 ==>
        selectedQubitSetting == PlotSelectionAsWritten(charX, charY, qubitSettingsSelectionStart, old(selectedQubitSetting))
    {
      if charY != qubitSettingsSelectionStart {
        return;
      }
      if !InRange(charX, 0, |GateSettings| * 4 - 1) {
        return;
      }
      selectedQubitSetting := charX / 4;
    }

    /** The start of run_system: the row count is capped at MAX_QUBIT_COUNT. */
    method CapQubitCount()
      requires Valid()
      modifies this
      ensures Valid() && circuit == old(circuit) && selectedQubitSetting == old(selectedQubitSetting)
      ensures qubitSettingsStart == old(qubitSettingsStart) && qubitPlusMinusStart == old(qubitPlusMinusStart)
      ensures qubitSettingsSelectionStart == old(qubitSettingsSelectionStart)
      ensures minQubitCount == Min(old(minQubitCount), maxQubitCount)
    {
      if minQubitCount > maxQubitCount {
        minQubitCount := maxQubitCount;
      }
    }

    /**
     * update on a click at character cell (charX, charY): the four handlers
     * in order, then the cap on the row count that run_system applies. At
     * most one handler fires, and the row count ends between one and
     * MAX_QUBIT_COUNT.
     */
    method Click(charX: int, charY: int)
      requires Valid()
      modifies this, circuit
      ensures Valid() && circuit == old(circuit)
      ensures qubitSettingsStart == old(qubitSettingsStart) && qubitPlusMinusStart == old(qubitPlusMinusStart)
      ensures qubitSettingsSelectionStart == old(qubitSettingsSelectionStart)
      ensures var m := old(minQubitCount);
        var pressed := if charY == qubitPlusMinusStart && 0 <= charX <= 2 then Min(m + 1, maxQubitCount)
                       else if charY == qubitPlusMinusStart && 4 <= charX <= 6 then Max(m - 1, 1)
                       else m;
        minQubitCount == Min(pressed, maxQubitCount) && 1 <= minQubitCount <= maxQubitCount
      ensures selectedQubitSetting
        == if charY == qubitSettingsSelectionStart && 0 <= charX < |GateSettings| * 4 then charX / 4
           else old(selectedQubitSetting)
      ensures var maxX := (old(|circuit.operations|) + 1) * 6 + 6;
        var hit := qubitSettingsStart <= charY <= old(minQubitCount) * 2 - 1 + qubitSettingsStart && 6 <= charX <= maxX;
        (!hit ==> circuit.operations == old(circuit.operations))
        && (hit ==>
              |circuit.operations| == Max(old(|circuit.operations|), (charX - 6) / 6 + 1)
              && circuit.GetQubitSetting((charX - 6) / 6, (charY - qubitSettingsStart) / 2)
                 == (if GateOf(old(selectedQubitSetting)) == StandardGateIndex then 0 else old(selectedQubitSetting))
              && forall o: nat, q: nat :: (o, q) != ((charX - 6) / 6, (charY - qubitSettingsStart) / 2) ==>
                   circuit.GetQubitSetting(o, q) == old(circuit.GetQubitSetting(o, q)))
    {
      CheckQubitSettingPressed(charX, charY);
      CheckPlusPressed(charX, charY);
      CheckMinusPressed(charX, charY);
      CheckSettingSelectionPressed(charX, charY);
      CapQubitCount();
    }
  }
}
