/**
 * The quantum-circuit editor: the table of gate settings a qubit can be
 * given, the rule that decides which gate an operation (one column of the
 * circuit) applies, operations as per-qubit setting vectors that grow on
 * demand, the circuit as a growable vector of operations, and the
 * character-grid click handlers of the editor.
 */
module Circuit {
  import opened Wrappers
  import opened BasicMath
  import opened Strings
  import opened QuantumSim

  const StandardGateIndex: int := 0
  const HadamarGateIndex: int := 1

  /** QubitGateSetting: how a setting is shown, which gate it belongs to, its role in the gate. */
  datatype GateSetting = GateSetting(opStr: string, gateIndex: int, indexInGate: int)

  /** gate_settings. */
  const GateSettings: seq<GateSetting> := [
    GateSetting("..", StandardGateIndex, 0),
    GateSetting("H_", HadamarGateIndex, 0),
    GateSetting("T_", StandardGateIndex, 0),
    GateSetting("CC", StandardGateIndex, 0),
    GateSetting("CT", StandardGateIndex, 1)
  ]

  /** A setting number that indexes the table. */
  predicate IsSetting(s: int)
  {
    0 <= s < |GateSettings|
  }

  /** Every entry of a setting vector indexes the table. */
  predicate AllSettings(settings: seq<nat>)
  {
    forall i :: 0 <= i < |settings| ==> IsSetting(settings[i])
  }

  /** The gate a setting of a table belongs to. */
  function GateIn(table: seq<GateSetting>, s: nat): int
    requires s < |table|
  {
    table[s].gateIndex
  }

  /** The gate a setting of gate_settings belongs to. */
  function GateOf(s: nat): (g: int)
    requires IsSetting(s)
    ensures g == StandardGateIndex || g == HadamarGateIndex
    ensures g == HadamarGateIndex <==> s == 1
  {
    GateIn(GateSettings, s)
  }

  // ---- get_gate_index ----

  /** Every entry of a setting vector indexes the table. */
  predicate Indexes(table: seq<GateSetting>, settings: seq<nat>)
  {
    forall i :: 0 <= i < |settings| ==> settings[i] < |table|
  }

  /** The first position at or after i whose setting is not the standard gate, if any. */
  function FirstNonStandard(table: seq<GateSetting>, settings: seq<nat>, i: nat): (r: Option<nat>)
    requires Indexes(table, settings) && i <= |settings|
    ensures r.Some? ==> i <= r.value < |settings| && GateIn(table, settings[r.value]) != StandardGateIndex
    ensures r.Some? ==> forall j :: i <= j < r.value ==> GateIn(table, settings[j]) == StandardGateIndex
    ensures r.None? ==> forall j :: i <= j < |settings| ==> GateIn(table, settings[j]) == StandardGateIndex
    decreases |settings| - i
  {
    if i == |settings| then None
    else if GateIn(table, settings[i]) != StandardGateIndex then Some(i)
    else FirstNonStandard(table, settings, i + 1)
  }

  /** No entry belongs to a non-standard gate other than g. */
  predicate CompatibleWith(table: seq<GateSetting>, settings: seq<nat>, g: int)
    requires Indexes(table, settings)
  {
    forall j :: 0 <= j < |settings| ==> GateIn(table, settings[j]) == StandardGateIndex || GateIn(table, settings[j]) == g
  }

  /**
   * The gate of a setting vector: the gate of the first non-standard
   * entry, provided every other non-standard entry agrees with it; -1 on a
   * conflict; the standard gate when there is no non-standard entry.
   */
  function GateIndexOf(table: seq<GateSetting>, settings: seq<nat>): int
    requires Indexes(table, settings)
  {
    match FirstNonStandard(table, settings, 0)
    case None => StandardGateIndex
    case Some(i) =>
      var g := GateIn(table, settings[i]);
      if CompatibleWith(table, settings, g) then g else -1
  }

  /** get_gate_index: the scan for the first non-standard entry, then the scan for a conflicting one. */
  method GetGateIndex(table: seq<GateSetting>, settings: seq<nat>) returns (g: int)
    requires Indexes(table, settings)
    ensures g == GateIndexOf(table, settings)
  {
    var i := 0;
    while i < |settings|
      invariant 0 <= i <= |settings|
      invariant FirstNonStandard(table, settings, 0) == FirstNonStandard(table, settings, i)
    {
      var checkGateIndex := GateIn(table, settings[i]);
      if checkGateIndex != StandardGateIndex {
        var j := 0;
        while j < |settings|
          invariant 0 <= j <= |settings|
          invariant forall k :: 0 <= k < j ==> GateIn(table, settings[k]) == StandardGateIndex || GateIn(table, settings[k]) == checkGateIndex
        {
          var gateIndex := GateIn(table, settings[j]);
          if gateIndex != StandardGateIndex && gateIndex != checkGateIndex {
            return -1;
          }
          j := j + 1;
        }
        return checkGateIndex;
      }
      i := i + 1;
    }
    g := StandardGateIndex;
  }

  /** The three outcomes of get_gate_index, for any table. */
  lemma GateIndexCases(table: seq<GateSetting>, settings: seq<nat>)
    requires Indexes(table, settings)
    ensures (forall j :: 0 <= j < |settings| ==> GateIn(table, settings[j]) == StandardGateIndex) ==>
      GateIndexOf(table, settings) == StandardGateIndex
    ensures forall i, g ::
      (0 <= i < |settings| && g != StandardGateIndex && GateIn(table, settings[i]) == g && CompatibleWith(table, settings, g))
      ==> GateIndexOf(table, settings) == g
    ensures forall i, j ::
      (0 <= i < |settings| && 0 <= j < |settings| && GateIn(table, settings[i]) != StandardGateIndex
       && GateIn(table, settings[j]) != StandardGateIndex && GateIn(table, settings[i]) != GateIn(table, settings[j]))
      ==> GateIndexOf(table, settings) == -1
  {
    var first := FirstNonStandard(table, settings, 0);
    if first.Some? {
      var k := first.value;
      forall i, j | 0 <= i < |settings| && 0 <= j < |settings|
        && GateIn(table, settings[i]) != StandardGateIndex && GateIn(table, settings[j]) != StandardGateIndex
        && GateIn(table, settings[i]) != GateIn(table, settings[j])
        ensures !CompatibleWith(table, settings, GateIn(table, settings[k]))
      {
        if GateIn(table, settings[i]) == GateIn(table, settings[k]) {
          assert GateIn(table, settings[j]) != GateIn(table, settings[k]);
        } else {
          assert GateIn(table, settings[i]) != GateIn(table, settings[k]);
        }
      }
    }
  }

  /** gate_settings has one gate besides the standard one, so its operations never conflict; "H_" anywhere makes a Hadamard column. */
  lemma NoConflictInGateSettings(settings: seq<nat>)
    requires AllSettings(settings)
    ensures GateIndexOf(GateSettings, settings) == StandardGateIndex || GateIndexOf(GateSettings, settings) == HadamarGateIndex
    ensures GateIndexOf(GateSettings, settings) == HadamarGateIndex <==> exists i :: 0 <= i < |settings| && settings[i] == 1
  {
    var first := FirstNonStandard(GateSettings, settings, 0);
    forall i | 0 <= i < |settings| && settings[i] == 1
      ensures first.Some?
    {
      assert GateIn(GateSettings, settings[i]) != StandardGateIndex;
    }
  }

  // ---- Operation ----

  /** Operation: the setting of each qubit in one column of the circuit. */
  datatype Operation = Operation(qubitSettings: seq<nat>)

  /** get_qubit_setting: the stored setting, or 0 past the end. */
  function OperationSetting(op: Operation, qubitNum: nat): (s: nat)
    ensures qubitNum >= |op.qubitSettings| ==> s == 0
    ensures qubitNum < |op.qubitSettings| ==> s == op.qubitSettings[qubitNum]
  {
    if |op.qubitSettings| > qubitNum then op.qubitSettings[qubitNum] else 0
  }

  /** The stored settings are only ever 0 or 1 ("H_"), the standard ones being stored as 0. */
  predicate StoredOk(op: Operation)
  {
    forall i :: 0 <= i < |op.qubitSettings| ==> op.qubitSettings[i] <= 1
  }

  /**
   * Operation::set_qubit_setting: a standard setting clears an existing
   * slot (and never grows the vector); any other setting pads the vector
   * with 0s up to the qubit and stores the setting there.
   */
  method SetOperationSetting(op: Operation, qubitNum: nat, setting: nat) returns (r: Operation)
    requires IsSetting(setting)
    ensures OperationSetting(r, qubitNum) == if GateOf(setting) == StandardGateIndex then 0 else setting
    ensures forall j: nat :: j != qubitNum ==> OperationSetting(r, j) == OperationSetting(op, j)
    ensures |r.qubitSettings| == if GateOf(setting) == StandardGateIndex then |op.qubitSettings|
      else Max(|op.qubitSettings|, qubitNum + 1)
    ensures StoredOk(op) ==> StoredOk(r)
  {
    var settings := op.qubitSettings;
    var gateIndex := GateOf(setting);
    if gateIndex == StandardGateIndex {
      if |settings| > qubitNum {
        settings := settings[qubitNum := 0];
      }
    } else {
      while |settings| < qubitNum + 1
        invariant |op.qubitSettings| <= |settings| <= Max(|op.qubitSettings|, qubitNum + 1)
        invariant settings[..|op.qubitSettings|] == op.qubitSettings
        invariant forall j :: |op.qubitSettings| <= j < |settings| ==> settings[j] == 0
      {
        settings := settings + [StandardGateIndex];
      }
      settings := settings[qubitNum := setting];
    }
    r := Operation(settings);
    forall j: nat | j != qubitNum
      ensures OperationSetting(r, j) == OperationSetting(op, j)
    {
      if j < |op.qubitSettings| {
        assert settings[j] == settings[..|op.qubitSettings|][j];
      }
    }
  }

  /** get_max_qubit: the highest qubit whose setting is not 0, or -1. */
  function MaxQubit(settings: seq<nat>): (r: int)
    ensures -1 <= r < |settings|
    ensures r >= 0 ==> settings[r] != 0
    ensures forall j :: r < j < |settings| ==> settings[j] == 0
  {
    if |settings| == 0 then -1
    else if settings[|settings| - 1] != 0 then |settings| - 1
    else MaxQubit(settings[..|settings| - 1])
  }

  /** The scan of get_max_qubit: the last non-zero position among the first n, or -1. */
  method OperationMaxQubit(op: Operation) returns (maxQubit: int)
    ensures maxQubit == MaxQubit(op.qubitSettings)
  {
    maxQubit := -1;
    var i := 0;
    while i < |op.qubitSettings|
      invariant 0 <= i <= |op.qubitSettings|
      invariant maxQubit == MaxQubit(op.qubitSettings[..i])
    {
      assert op.qubitSettings[..i + 1][..i] == op.qubitSettings[..i];
      if op.qubitSettings[i] != 0 {
        maxQubit := i;
      }
      i := i + 1;
    }
    assert op.qubitSettings[..i] == op.qubitSettings;
  }

  // ---- running an operation ----

  /** Every qubit an operation puts a Hadamard gate on exists in a system of qubitCount qubits. */
  predicate HadamardsWithin(settings: seq<nat>, qubitCount: nat)
    requires AllSettings(settings)
  {
    forall i :: 0 <= i < |settings| && GateOf(settings[i]) == HadamarGateIndex ==> i < qubitCount
  }

  /** The state after run_hadamar has visited the first k qubits: hadamar on each "H_" one, in order. */
  function HadamarsImage<A>(s: seq<A>, qubitCount: nat, settings: seq<nat>, k: nat, sum: (A, A) -> A, diff: (A, A) -> A): (r: seq<A>)
    requires |s| == Pow2(qubitCount) && AllSettings(settings) && HadamardsWithin(settings, qubitCount) && k <= |settings|
    ensures |r| == |s|
  {
    if k == 0 then s
    else
      var prev := HadamarsImage(s, qubitCount, settings, k - 1, sum, diff);
      if GateOf(settings[k - 1]) == HadamarGateIndex then HadamarImage(prev, qubitCount, k - 1, sum, diff) else prev
  }

  /** An operation with no Hadamard setting leaves the state alone. */
  lemma {:induction false} NoHadamardsNoChange<A>(s: seq<A>, qubitCount: nat, settings: seq<nat>, k: nat, sum: (A, A) -> A, diff: (A, A) -> A)
    requires |s| == Pow2(qubitCount) && AllSettings(settings) && HadamardsWithin(settings, qubitCount) && k <= |settings|
    requires forall i :: 0 <= i < k ==> GateOf(settings[i]) == StandardGateIndex
    ensures HadamarsImage(s, qubitCount, settings, k, sum, diff) == s
  {
    if k > 0 {
      NoHadamardsNoChange(s, qubitCount, settings, k - 1, sum, diff);
    }
  }

  /** run_hadamar: hadamar on every qubit whose setting is "H_", in qubit order. */
  method RunHadamar<A>(system: QubitSystem<A>, settings: seq<nat>, sum: (A, A) -> A, diff: (A, A) -> A) returns (code: int)
    requires system.Valid() && AllSettings(settings) && HadamardsWithin(settings, system.qubitCount)
    modifies system
    ensures system.Valid() && system.qubitCount == old(system.qubitCount) && code == 0
    ensures system.states == HadamarsImage(old(system.states), system.qubitCount, settings, |settings|, sum, diff)
  {
    var i := 0;
    while i < |settings|
      invariant 0 <= i <= |settings|
      invariant system.Valid() && system.qubitCount == old(system.qubitCount)
      invariant system.states == HadamarsImage(old(system.states), system.qubitCount, settings, i, sum, diff)
    {
      if GateOf(settings[i]) == HadamarGateIndex {
        system.Hadamar(i, sum, diff);
      }
      i := i + 1;
    }
    code := 0;
  }

  /** The state after apply_operation: unchanged unless the operation is a Hadamard column. */
  function OperationImage<A>(s: seq<A>, qubitCount: nat, op: Operation, sum: (A, A) -> A, diff: (A, A) -> A): (r: seq<A>)
    requires |s| == Pow2(qubitCount) && AllSettings(op.qubitSettings) && HadamardsWithin(op.qubitSettings, qubitCount)
    ensures |r| == |s|
  {
    if GateIndexOf(GateSettings, op.qubitSettings) == HadamarGateIndex
    then HadamarsImage(s, qubitCount, op.qubitSettings, |op.qubitSettings|, sum, diff)
    else s
  }

  /**
   * apply_operation: -1 on a conflict, 0 without touching the state for
   * the standard gate, run_hadamar's result for the Hadamard gate.
   */
  method ApplyOperation<A>(op: Operation, system: QubitSystem<A>, sum: (A, A) -> A, diff: (A, A) -> A) returns (code: int)
    requires system.Valid() && AllSettings(op.qubitSettings) && HadamardsWithin(op.qubitSettings, system.qubitCount)
    modifies system
    ensures system.Valid() && system.qubitCount == old(system.qubitCount)
    ensures code == -1 <==> GateIndexOf(GateSettings, op.qubitSettings) == -1
    ensures code != -1 ==> code == 0
    ensures system.states == OperationImage(old(system.states), system.qubitCount, op, sum, diff)
  {
    var gateIndex := GetGateIndex(GateSettings, op.qubitSettings);
    if gateIndex == -1 {
      return -1;
    }
    if gateIndex == StandardGateIndex {
      return 0;
    }
    if gateIndex == HadamarGateIndex {
      code := RunHadamar(system, op.qubitSettings, sum, diff);
      return;
    }
    code := -1;
  }

  /** An operation whose settings are all standard has no effect on the state. */
  lemma StandardOperationNoEffect<A>(s: seq<A>, qubitCount: nat, op: Operation, sum: (A, A) -> A, diff: (A, A) -> A)
    requires |s| == Pow2(qubitCount) && AllSettings(op.qubitSettings) && HadamardsWithin(op.qubitSettings, qubitCount)
    requires forall i :: 0 <= i < |op.qubitSettings| ==> op.qubitSettings[i] != 1
    ensures OperationImage(s, qubitCount, op, sum, diff) == s
  {
    NoConflictInGateSettings(op.qubitSettings);
  }

  // ---- QuantumCircuit ----

  /** Every operation of the list has valid settings and Hadamards inside the system. */
  predicate OperationsFit(ops: seq<Operation>, qubitCount: nat)
  {
    forall j :: 0 <= j < |ops| ==> AllSettings(ops[j].qubitSettings) && HadamardsWithin(ops[j].qubitSettings, qubitCount)
  }

  /** The state after the first k operations of run_circuit. */
  function CircuitImage<A>(s: seq<A>, qubitCount: nat, ops: seq<Operation>, k: nat, sum: (A, A) -> A, diff: (A, A) -> A): (r: seq<A>)
    requires |s| == Pow2(qubitCount) && OperationsFit(ops, qubitCount) && k <= |ops|
    ensures |r| == |s|
  {
    if k == 0 then s
    else OperationImage(CircuitImage(s, qubitCount, ops, k - 1, sum, diff), qubitCount, ops[k - 1], sum, diff)
  }

  /** The highest of the operations' max qubits, or -1. */
  function CircuitMaxQubit(ops: seq<Operation>): (r: int)
    ensures r >= -1
  {
    if |ops| == 0 then -1 else Max(CircuitMaxQubit(ops[..|ops| - 1]), MaxQubit(ops[|ops| - 1].qubitSettings))
  }

  /** The circuit's max qubit is the largest of the operations' max qubits. */
  lemma {:induction false} CircuitMaxQubitBounds(ops: seq<Operation>)
    ensures forall j :: 0 <= j < |ops| ==> MaxQubit(ops[j].qubitSettings) <= CircuitMaxQubit(ops)
    ensures CircuitMaxQubit(ops) == -1 || exists j :: 0 <= j < |ops| && MaxQubit(ops[j].qubitSettings) == CircuitMaxQubit(ops)
  {
    if |ops| > 0 {
      var init := ops[..|ops| - 1];
      CircuitMaxQubitBounds(init);
      assert forall j :: 0 <= j < |ops| - 1 ==> init[j] == ops[j];
      if CircuitMaxQubit(ops) != MaxQubit(ops[|ops| - 1].qubitSettings) {
        assert CircuitMaxQubit(ops) == CircuitMaxQubit(init) != -1;
        var j :| 0 <= j < |init| && MaxQubit(init[j].qubitSettings) == CircuitMaxQubit(init);
        assert MaxQubit(ops[j].qubitSettings) == CircuitMaxQubit(ops);
      }
    }
  }

  /** Every operation holds settings of the table, and only 0 or 1. */
  predicate OpsValid(ops: seq<Operation>)
  {
    forall j :: 0 <= j < |ops| ==> AllSettings(ops[j].qubitSettings) && StoredOk(ops[j])
  }

  /** The setting of qubit q in operation o, 0 past the last operation. */
  function CircuitSetting(ops: seq<Operation>, o: nat, q: nat): (s: nat)
    ensures OpsValid(ops) ==> s <= 1
  {
    if |ops| < o + 1 then 0 else OperationSetting(ops[o], q)
  }

  /** The highest qubit in use, as get_max_qubit's callers read it. */
  lemma CircuitMaxQubitMeaning(ops: seq<Operation>)
    ensures var r := CircuitMaxQubit(ops);
      (r >= 0 ==> exists j :: 0 <= j < |ops| && r < |ops[j].qubitSettings| && ops[j].qubitSettings[r] != 0)
      && (forall j, q :: 0 <= j < |ops| && r < q < |ops[j].qubitSettings| ==> ops[j].qubitSettings[q] == 0)
      && (forall j, q :: 0 <= j < |ops| && 0 <= q < |ops[j].qubitSettings| && ops[j].qubitSettings[q] != 0 ==> q <= r)
  {
    CircuitMaxQubitBounds(ops);
  }

  /** QuantumCircuit: the operations, one per column. */
  class QuantumCircuit {
    var operations: seq<Operation>

    ghost predicate Valid()
      reads this
    {
      OpsValid(operations)
    }

    constructor ()
      ensures Valid() && operations == []
    {
      operations := [];
    }

    /** get_operations_count. */
    function GetOperationsCount(): nat
      reads this
    {
      |operations|
    }

    /** get_qubit_setting: 0 for an operation past the end, else the operation's setting. */
    function GetQubitSetting(operationIndex: nat, qubitIndex: nat): (s: nat)
      reads this
    {
      CircuitSetting(operations, operationIndex, qubitIndex)
    }

    /** get_max_qubit: the running maximum of the operations' max qubits. */
    method GetMaxQubit() returns (maxQubit: int)
      ensures maxQubit == CircuitMaxQubit(operations)
    {
      maxQubit := -1;
      var j := 0;
      while j < |operations|
        invariant 0 <= j <= |operations|
        invariant maxQubit == CircuitMaxQubit(operations[..j])
      {
        assert operations[..j + 1][..j] == operations[..j];
        var opMax := OperationMaxQubit(operations[j]);
        maxQubit := Max(maxQubit, opMax);
        j := j + 1;
      }
      assert operations[..j] == operations;
    }

    /**
     * set_qubit_setting: appends empty operations until the index exists,
     * then sets the qubit in that operation.
     */
    method SetQubitSetting(operationIndex: nat, qubitIndex: nat, setting: nat)
      requires Valid() && IsSetting(setting)
      modifies this
      ensures Valid()
      ensures |operations| == Max(old(|operations|), operationIndex + 1)
      ensures GetQubitSetting(operationIndex, qubitIndex) == if GateOf(setting) == StandardGateIndex then 0 else setting
      ensures forall o: nat, q: nat :: (o, q) != (operationIndex, qubitIndex) ==>
        GetQubitSetting(o, q) == old(GetQubitSetting(o, q))
    {
      while |operations| < operationIndex + 1
        invariant Valid()
        invariant old(|operations|) <= |operations| <= Max(old(|operations|), operationIndex + 1)
        invariant operations[..old(|operations|)] == old(operations)
        invariant forall j :: old(|operations|) <= j < |operations| ==> operations[j] == Operation([])
      {
        operations := operations + [Operation([])];
      }
      ghost var padded := operations;
      var updated := SetOperationSetting(operations[operationIndex], qubitIndex, setting);
      operations := operations[operationIndex := updated];
      forall o: nat, q: nat | (o, q) != (operationIndex, qubitIndex)
        ensures GetQubitSetting(o, q) == old(GetQubitSetting(o, q))
      {
        if o < old(|operations|) {
          assert padded[o] == padded[..old(|operations|)][o];
        }
      }
    }

    /** run_circuit: applies the operations in order, ignoring their return codes. */
    method RunCircuit<A>(system: QubitSystem<A>, sum: (A, A) -> A, diff: (A, A) -> A)
      requires Valid() && system.Valid() && OperationsFit(operations, system.qubitCount)
      modifies system
      ensures system.Valid() && system.qubitCount == old(system.qubitCount)
      ensures system.states == CircuitImage(old(system.states), system.qubitCount, operations, |operations|, sum, diff)
    {
      var i := 0;
      while i < |operations|
        invariant 0 <= i <= |operations|
        invariant system.Valid() && system.qubitCount == old(system.qubitCount)
        invariant system.states == CircuitImage(old(system.states), system.qubitCount, operations, i, sum, diff)
      {
        var _ := ApplyOperation(operations[i], system, sum, diff);
        i := i + 1;
      }
    }
  }

  // ---- the editor's screen (QuantumCircuitInterface::to_string) ----

  /** Lines each followed by a newline. */
  function Unlines(lines: seq<string>): string
  {
    if |lines| == 0 then "" else Unlines(lines[..|lines| - 1]) + lines[|lines| - 1] + "\n"
  }

  lemma UnlinesAppend(lines: seq<string>, line: string)
    ensures Unlines(lines + [line]) == Unlines(lines) + line + "\n"
  {
    assert (lines + [line])[..|lines|] == lines;
  }

  /** The lines of a text: the pieces between its newlines, as the console shows them. */
  function SplitLines(s: string): (r: seq<string>)
    ensures |r| >= 1
  {
    if |s| == 0 then [""]
    else
      var rest := SplitLines(s[1..]);
      if s[0] == '\n' then [""] + rest else [[s[0]] + rest[0]] + rest[1..]
  }

  /** A text without a newline. */
  predicate NoBreak(s: string)
  {
    '\n' !in s
  }

  /** No line holds a newline of its own. */
  predicate NoBreaks(lines: seq<string>)
  {
    forall i :: 0 <= i < |lines| ==> NoBreak(lines[i])
  }

  /** A text without newlines is one line. */
  lemma {:induction false} SplitSingle(s: string)
    requires NoBreak(s)
    ensures SplitLines(s) == [s]
  {
    if |s| > 0 {
      SplitSingle(s[1..]);
      assert [s[0]] + s[1..] == s;
    }
  }

  /** A line followed by a newline is the first line of the text. */
  lemma {:induction false} SplitFirstLine(line: string, rest: string)
    requires NoBreak(line)
    ensures SplitLines(line + "\n" + rest) == [line] + SplitLines(rest)
  {
    var s := line + "\n" + rest;
    if |line| == 0 {
      assert s[1..] == rest;
    } else {
      SplitFirstLine(line[1..], rest);
      assert s[1..] == line[1..] + "\n" + rest;
      assert [line[0]] + line[1..] == line;
    }
  }

  /** Text made of lines without newlines of their own splits back into those lines. */
  lemma {:induction false} SplitUnlines(lines: seq<string>, last: string)
    requires NoBreaks(lines)
    ensures SplitLines(Unlines(lines) + last) == lines + SplitLines(last)
  {
    if |lines| > 0 {
      var n := |lines|;
      var prefix, line := lines[..n - 1], lines[n - 1];
      assert NoBreak(line) && NoBreaks(prefix);
      calc {
        SplitLines(Unlines(lines) + last);
        { assert Unlines(lines) + last == Unlines(prefix) + (line + "\n" + last); }
        SplitLines(Unlines(prefix) + (line + "\n" + last));
        { SplitUnlines(prefix, line + "\n" + last); }
        prefix + SplitLines(line + "\n" + last);
        { SplitFirstLine(line, last); }
        prefix + ([line] + SplitLines(last));
        { assert lines == prefix + [line]; }
        lines + SplitLines(last);
      }
    } else {
      assert Unlines(lines) + last == last;
    }
  }

  /** How a setting is shown. */
  function OpText(s: nat): (t: string)
    requires IsSetting(s)
    ensures |t| == 2 && NoBreak(t)
  {
    GateSettings[s].opStr
  }

  /** The cell of qubit q in operation o: the setting's text between underscores. */
  function Cell(ops: seq<Operation>, o: nat, q: nat): (c: string)
    requires OpsValid(ops)
    ensures |c| == 6 && NoBreak(c)
  {
    "__" + OpText(CircuitSetting(ops, o, q)) + "__"
  }

  /** The cells of qubit q in the first n operations. */
  function Cells(ops: seq<Operation>, q: nat, n: nat): (r: string)
    requires OpsValid(ops)
    ensures |r| == 6 * n && NoBreak(r)
  {
    if n == 0 then "" else Cells(ops, q, n - 1) + Cell(ops, n - 1, q)
  }

  /** The label in front of a qubit's row. */
  function QubitLabel(q: nat): (r: string)
    ensures NoBreak(r)
  {
    "q" + DecimalString(q) + ":   "
  }

  /** A qubit's row: its label and one cell per operation plus an empty one to extend the circuit. */
  function QubitRow(ops: seq<Operation>, q: nat, circuitLength: nat): (r: string)
    requires OpsValid(ops)
    ensures NoBreak(r)
  {
    QubitLabel(q) + Cells(ops, q, circuitLength + 1)
  }

  /** The rows of the first count qubits, each followed by a blank line. */
  function QubitLines(ops: seq<Operation>, count: nat, circuitLength: nat): (r: seq<string>)
    requires OpsValid(ops)
    ensures |r| == 2 * count
  {
    if count == 0 then [] else QubitLines(ops, count - 1, circuitLength) + [QubitRow(ops, count - 1, circuitLength), ""]
  }

  /** No qubit row holds a newline, so each is one line of the screen. */
  lemma {:induction false} QubitLinesNoBreaks(ops: seq<Operation>, count: nat, circuitLength: nat)
    requires OpsValid(ops)
    ensures NoBreaks(QubitLines(ops, count, circuitLength))
  {
    if count > 0 {
      QubitLinesNoBreaks(ops, count - 1, circuitLength);
      var prev := QubitLines(ops, count - 1, circuitLength);
      var row := QubitRow(ops, count - 1, circuitLength);
      assert QubitLines(ops, count, circuitLength) == prev + [row, ""];
      assert NoBreaks([row, ""]);
      NoBreaksConcat(prev, [row, ""]);
    }
  }

  /** Lines without newlines, put together, are still without newlines. */
  lemma NoBreaksConcat(a: seq<string>, b: seq<string>)
    requires NoBreaks(a) && NoBreaks(b)
    ensures NoBreaks(a + b)
  {
    forall i | 0 <= i < |a + b|
      ensures NoBreak((a + b)[i])
    {
      if i < |a| {
        assert (a + b)[i] == a[i];
      } else {
        assert (a + b)[i] == b[i - |a|];
      }
    }
  }

  /** The first k settings of the table, separated by ", ". */
  function SettingsList(k: nat): (r: string)
    requires k <= |GateSettings|
    ensures k >= 1 ==> |r| == 4 * k - 2
    ensures NoBreak(r)
  {
    if k == 0 then "" else if k == 1 then OpText(0) else SettingsList(k - 1) + ", " + OpText(k - 1)
  }

  /** Every line of the screen before the selection: the qubit rows, "+  -" and the settings. */
  function ScreenLines(ops: seq<Operation>, count: nat, circuitLength: nat): seq<string>
    requires OpsValid(ops)
  {
    QubitLines(ops, count, circuitLength) + ["+  -", SettingsList(|GateSettings|)]
  }

  /** The screen's lines above the selection, written out one after the other. */
  lemma ScreenText(ops: seq<Operation>, count: nat, circuitLength: nat, settings: string)
    requires OpsValid(ops) && settings == SettingsList(|GateSettings|)
    ensures Unlines(ScreenLines(ops, count, circuitLength))
      == Unlines(QubitLines(ops, count, circuitLength)) + "+  -\n" + settings + "\n"
  {
    var lines := QubitLines(ops, count, circuitLength);
    var withPlus := lines + ["+  -"];
    UnlinesAppend(lines, "+  -");
    UnlinesAppend(withPlus, settings);
    assert withPlus + [settings] == ScreenLines(ops, count, circuitLength);
    assert Unlines(withPlus) == Unlines(lines) + "+  -\n";
    assert Unlines(ScreenLines(ops, count, circuitLength)) == Unlines(withPlus + [settings]);
  }

  /** The whole text to_string returns: the screen's lines, then the selection without a newline. */
  function ScreenOutput(ops: seq<Operation>, count: nat, selected: nat): string
    requires OpsValid(ops) && IsSetting(selected)
  {
    Unlines(ScreenLines(ops, count, |ops|)) + SelectionText(selected)
  }

  /** The text to_string returns, in the pieces it appends one after the other. */
  lemma ScreenOutputPieces(ops: seq<Operation>, count: nat, selected: nat, settings: string)
    requires OpsValid(ops) && IsSetting(selected) && settings == SettingsList(|GateSettings|)
    ensures ScreenOutput(ops, count, selected)
      == Unlines(QubitLines(ops, count, |ops|)) + "+  -\n" + settings + "\n" + "[" + OpText(selected) + "]"
  {
    ScreenText(ops, count, |ops|, settings);
    var head := Unlines(ScreenLines(ops, count, |ops|));
    var sel := OpText(selected);
    assert ScreenOutput(ops, count, selected) == head + ("[" + sel + "]");
    ConcatAssoc(head, "[" + sel, "]");
    ConcatAssoc(head, "[", sel);
  }

  lemma ConcatAssoc(a: string, b: string, c: string)
    ensures a + (b + c) == a + b + c
  {
  }

  /** The last line: the selected setting in brackets. */
  function SelectionText(selected: nat): (r: string)
    requires IsSetting(selected)
    ensures NoBreak(r)
  {
    "[" + OpText(selected) + "]"
  }

  /** Which line holds what: qubit j on line 2j, a blank line after it, then "+  -" and the settings. */
  lemma {:induction false} ScreenLayout(ops: seq<Operation>, count: nat, circuitLength: nat)
    requires OpsValid(ops)
    ensures var lines := ScreenLines(ops, count, circuitLength);
      |lines| == 2 * count + 2
      && (forall j :: 0 <= j < count ==> lines[2 * j] == QubitRow(ops, j, circuitLength) && lines[2 * j + 1] == "")
      && lines[2 * count] == "+  -" && lines[2 * count][0] == '+' && lines[2 * count][3] == '-'
      && lines[2 * count + 1] == SettingsList(|GateSettings|)
  {
    QubitRowsAt(ops, count, circuitLength);
  }

  lemma QubitRowsAt(ops: seq<Operation>, count: nat, circuitLength: nat)
    requires OpsValid(ops)
    ensures forall j :: 0 <= j < count ==>
      QubitLines(ops, count, circuitLength)[2 * j] == QubitRow(ops, j, circuitLength)
      && QubitLines(ops, count, circuitLength)[2 * j + 1] == ""
  {
    forall j | 0 <= j < count
      ensures QubitLines(ops, count, circuitLength)[2 * j] == QubitRow(ops, j, circuitLength)
      ensures QubitLines(ops, count, circuitLength)[2 * j + 1] == ""
    {
      QubitLineAt(ops, count, circuitLength, j);
    }
  }

  /** Qubit j's row is line 2j of the rows, a blank line after it. */
  lemma {:induction false} QubitLineAt(ops: seq<Operation>, count: nat, circuitLength: nat, j: nat)
    requires OpsValid(ops) && j < count
    ensures QubitLines(ops, count, circuitLength)[2 * j] == QubitRow(ops, j, circuitLength)
    ensures QubitLines(ops, count, circuitLength)[2 * j + 1] == ""
  {
    var prev := QubitLines(ops, count - 1, circuitLength);
    var row := QubitRow(ops, count - 1, circuitLength);
    var lines := prev + [row, ""];
    assert QubitLines(ops, count, circuitLength) == lines;
    PairAt(prev, row, 2 * j);
    if j < count - 1 {
      QubitLineAt(ops, count - 1, circuitLength, j);
      assert lines[2 * j] == prev[2 * j] && lines[2 * j + 1] == prev[2 * j + 1];
    }
  }

  /** Appending a row and a blank line keeps the earlier lines where they were. */
  lemma PairAt(prev: seq<string>, row: string, k: nat)
    requires k <= |prev|
    ensures k + 1 < |prev| ==> (prev + [row, ""])[k] == prev[k] && (prev + [row, ""])[k + 1] == prev[k + 1]
    ensures k == |prev| ==> (prev + [row, ""])[k] == row && (prev + [row, ""])[k + 1] == ""
  {
  }

  /** The text to_string returns has exactly the screen's lines, the selection last. */
  lemma ScreenLineNumbers(ops: seq<Operation>, count: nat, circuitLength: nat, selected: nat)
    requires OpsValid(ops) && IsSetting(selected)
    ensures SplitLines(Unlines(ScreenLines(ops, count, circuitLength)) + SelectionText(selected))
      == ScreenLines(ops, count, circuitLength) + [SelectionText(selected)]
  {
    QubitLinesNoBreaks(ops, count, circuitLength);
    SplitUnlines(ScreenLines(ops, count, circuitLength), SelectionText(selected));
    SplitSingle(SelectionText(selected));
  }

  /**
   * The rows a click is matched against: in the text to_string returns,
   * qubit j's row is line 2j, "+  -" line 2 * count and the settings the
   * line after it, then the selection.
   */
  lemma ScreenOutputLines(ops: seq<Operation>, count: nat, selected: nat)
    requires OpsValid(ops) && IsSetting(selected)
    ensures var shown := SplitLines(ScreenOutput(ops, count, selected));
      |shown| == 2 * count + 3
      && (forall j :: 0 <= j < count ==> shown[2 * j] == QubitRow(ops, j, |ops|))
      && shown[2 * count] == "+  -"
      && shown[2 * count + 1] == SettingsList(|GateSettings|)
      && shown[2 * count + 2] == SelectionText(selected)
  {
    ScreenLayout(ops, count, |ops|);
    ScreenLineNumbers(ops, count, |ops|, selected);
  }

  /** Column x of the first n cells lies in the cell of operation x / 6. */
  lemma {:induction false} CellsColumn(ops: seq<Operation>, q: nat, n: nat, x: nat)
    requires OpsValid(ops) && x < 6 * n
    ensures Cells(ops, q, n)[x] == Cell(ops, x / 6, q)[x % 6]
  {
    if x < 6 * (n - 1) {
      CellsColumn(ops, q, n - 1, x);
    } else {
      assert x / 6 == n - 1;
    }
  }

  /**
   * A click on column x of qubit q's row (q below 10, so the label is six
   * characters wide) falls on the cell of operation (x - 6) / 6: the one
   * check_qubit_setting_pressed edits. The row ends at the handler's
   * inclusive bound (circuitLength + 1) * 6 + 6, so that column lies just
   * past the text.
   */
  lemma QubitRowColumn(ops: seq<Operation>, q: nat, circuitLength: nat, x: nat)
    requires OpsValid(ops) && q < 10 && 6 <= x < (circuitLength + 1) * 6 + 6
    ensures |QubitRow(ops, q, circuitLength)| == (circuitLength + 1) * 6 + 6
    ensures QubitRow(ops, q, circuitLength)[x] == Cell(ops, (x - 6) / 6, q)[(x - 6) % 6]
  {
    assert |QubitLabel(q)| == 6;
    CellsColumn(ops, q, circuitLength + 1, x - 6);
  }

  /** Column x of the settings line lies in setting x / 4, whose text is in columns 4k and 4k + 1. */
  lemma {:induction false} SettingsColumn(k: nat, x: nat)
    requires 1 <= k <= |GateSettings| && x < 4 * k - 2 && x % 4 < 2
    ensures SettingsList(k)[x] == OpText(x / 4)[x % 4]
  {
    if x < 4 * (k - 1) - 2 {
      SettingsColumn(k - 1, x);
    } else {
      assert x / 4 == k - 1;
    }
  }

  /**
   * check_setting_selection_pressed as written: the column guard is
   * inclusive of gate_settings.size()*4, so the last accepted column
   * selects index 5 of a 5-entry table.
   */
  function SettingSelectionAsWritten(charX: int, charY: int, minQubitCount: int, selected: int): (r: int)
    ensures r != selected ==> charY == minQubitCount * 2 + 1 && 0 <= charX <= |GateSettings| * 4 && r == charX / 4
  {
    if !InRange(charY, minQubitCount * 2 + 1, minQubitCount * 2 + 1) then selected
    else if !InRange(charX, 0, |GateSettings| * 4) then selected
    else charX / 4
  }

  /** The settings line is 18 characters wide, yet columns up to 20 are accepted, and column 20 selects a setting the table does not have. */
  lemma SettingSelectionAsWrittenOutOfRange()
    ensures |SettingsList(|GateSettings|)| == 18
    ensures SettingSelectionAsWritten(20, 3, 1, 1) == 5 && !IsSetting(5)
  {
  }

  /** One qubit's row, cell by cell. */
  method RowText(circuit: QuantumCircuit, q: nat, circuitLength: nat) returns (row: string)
    requires circuit.Valid()
    ensures row == QubitRow(circuit.operations, q, circuitLength)
  {
    row := "q" + DecimalString(q) + ":   ";
    var i := 0;
    while i < circuitLength + 1
      invariant 0 <= i <= circuitLength + 1
      invariant row == QubitLabel(q) + Cells(circuit.operations, q, i)
    {
      var qubitSetting := circuit.GetQubitSetting(i, q);
      row := row + "__" + GateSettings[qubitSetting].opStr + "__";
      i := i + 1;
    }
  }

  /** One more qubit adds its row and a blank line to the text. */
  lemma QubitLinesStep(ops: seq<Operation>, j: nat, circuitLength: nat)
    requires OpsValid(ops)
    ensures Unlines(QubitLines(ops, j + 1, circuitLength))
      == Unlines(QubitLines(ops, j, circuitLength)) + QubitRow(ops, j, circuitLength) + "\n" + "\n"
  {
    var lines := QubitLines(ops, j, circuitLength);
    var row := QubitRow(ops, j, circuitLength);
    assert QubitLines(ops, j + 1, circuitLength) == lines + [row, ""];
    UnlinesRowAndBlank(lines, row);
  }

  /** A row and a blank line after it add the row and two newlines to the text. */
  lemma UnlinesRowAndBlank(lines: seq<string>, row: string)
    ensures Unlines(lines + [row, ""]) == Unlines(lines) + row + "\n" + "\n"
  {
    UnlinesAppend(lines, row);
    UnlinesAppend(lines + [row], "");
    assert lines + [row] + [""] == lines + [row, ""];
  }

  /** The rows of the first count qubits, each followed by a blank line. */
  method RowsText(circuit: QuantumCircuit, count: nat, circuitLength: nat) returns (text: string)
    requires circuit.Valid()
    ensures text == Unlines(QubitLines(circuit.operations, count, circuitLength))
  {
    text := "";
    var j := 0;
    while j < count
      invariant 0 <= j <= count
      invariant text == Unlines(QubitLines(circuit.operations, j, circuitLength))
    {
      var row := RowText(circuit, j, circuitLength);
      QubitLinesStep(circuit.operations, j, circuitLength);
      text := text + row + "\n" + "\n";
      j := j + 1;
    }
  }

  /** The settings joined by ", ". */
  method SettingsText() returns (text: string)
    ensures text == SettingsList(|GateSettings|)
  {
    text := "";
    var i := 0;
    while i < |GateSettings|
      invariant 0 <= i <= |GateSettings|
      invariant text == SettingsList(i)
    {
      if i != 0 {
        text := text + ", ";
      }
      text := text + GateSettings[i].opStr;
      i := i + 1;
    }
  }

  /** The editor's state: the qubit rows shown, the circuit and the selected setting. */
  class QuantumCircuitInterface {
    var minQubitCount: int
    var circuit: QuantumCircuit
    var selectedQubitSetting: int

    ghost predicate Valid()
      reads this, circuit
    {
      minQubitCount >= 1 && IsSetting(selectedQubitSetting) && circuit.Valid()
    }

    constructor ()
      ensures Valid() && fresh(circuit)
      ensures minQubitCount == 1 && selectedQubitSetting == 1 && circuit.operations == []
    {
      minQubitCount := 1;
      circuit := new QuantumCircuit();
      selectedQubitSetting := 1;
    }

    /** to_string's bookkeeping: the rows shown are raised to cover every qubit in use. */
    method UpdateQubitCount() returns (qubitCount: nat)
      requires Valid()
      modifies this
      ensures Valid() && circuit == old(circuit) && selectedQubitSetting == old(selectedQubitSetting)
      ensures qubitCount == minQubitCount == Max(CircuitMaxQubit(circuit.operations) + 1, old(minQubitCount))
    {
      var maxQubit := circuit.GetMaxQubit();
      qubitCount := Max(maxQubit + 1, minQubitCount);
      minQubitCount := qubitCount;
    }

    /** The printing part of to_string. */
    method PrintScreen() returns (output: string)
      requires Valid()
      ensures output == ScreenOutput(circuit.operations, minQubitCount, selectedQubitSetting)
    {
      var circuitLength := circuit.GetOperationsCount();
      var qubitCount: nat := minQubitCount;
      output := RowsText(circuit, qubitCount, circuitLength);
      output := output + "+  -\n";
      var settings := SettingsText();
      output := output + settings + "\n";
      output := output + "[" + GateSettings[selectedQubitSetting].opStr + "]";
      ScreenOutputPieces(circuit.operations, qubitCount, selectedQubitSetting, settings);
    }

    /**
     * to_string: after raising the row count, the qubit rows (each with a
     * blank line after it), "+  -", the settings and the selected setting.
     */
    method ToString() returns (output: string)
      requires Valid()
      modifies this
      ensures Valid() && circuit == old(circuit) && selectedQubitSetting == old(selectedQubitSetting)
      ensures minQubitCount == Max(CircuitMaxQubit(circuit.operations) + 1, old(minQubitCount))
      ensures output == ScreenOutput(circuit.operations, minQubitCount, selectedQubitSetting)
    {
      var qubitCount := UpdateQubitCount();
      output := PrintScreen();
    }

    /**
     * check_qubit_setting_pressed: a click on the cell grid puts the
     * selected setting on qubit charY / 2 of operation (charX - 6) / 6.
     */
    method CheckQubitSettingPressed(charX: int, charY: int)
      requires Valid()
      modifies circuit
      ensures Valid()
      ensures var maxX := (old(|circuit.operations|) + 1) * 6 + 6;
        var hit := 0 <= charY <= minQubitCount * 2 - 1 && 6 <= charX <= maxX;
        (!hit ==> circuit.operations == old(circuit.operations))
        && (hit ==>
              |circuit.operations| == Max(old(|circuit.operations|), (charX - 6) / 6 + 1)
              && circuit.GetQubitSetting((charX - 6) / 6, charY / 2)
                 == (if GateOf(selectedQubitSetting) == StandardGateIndex then 0 else selectedQubitSetting)
              && forall o: nat, q: nat :: (o, q) != ((charX - 6) / 6, charY / 2) ==>
                   circuit.GetQubitSetting(o, q) == old(circuit.GetQubitSetting(o, q)))
    {
      var maxX := (circuit.GetOperationsCount() + 1) * 6 + 6;
      var maxY := minQubitCount * 2 - 1;
      if !InRange(charY, 0, maxY) {
        return;
      }
      if !InRange(charX, 6, maxX) {
        return;
      }
      var operationNum := (charX - 6) / 6;
      var qubitNum := charY / 2;
      circuit.SetQubitSetting(operationNum, qubitNum, selectedQubitSetting);
    }

    /** check_plus_pressed: the '+' in column 0 of the line after the rows adds a qubit row. */
    method CheckPlusPressed(charX: int, charY: int)
      requires Valid()
      modifies this
      ensures Valid() && circuit == old(circuit) && selectedQubitSetting == old(selectedQubitSetting)
      ensures minQubitCount == if charY == old(minQubitCount) * 2 && charX == 0 then old(minQubitCount) + 1 else old(minQubitCount)
    {
      if !InRange(charY, minQubitCount * 2, minQubitCount * 2) {
        return;
      }
      if !InRange(charX, 0, 0) {
        return;
      }
      minQubitCount := minQubitCount + 1;
    }

    /** check_minus_pressed: the '-' in column 3 removes a qubit row, never going below one. */
    method CheckMinusPressed(charX: int, charY: int)
      requires Valid()
      modifies this
      ensures Valid() && circuit == old(circuit) && selectedQubitSetting == old(selectedQubitSetting)
      ensures minQubitCount == if charY == old(minQubitCount) * 2 && charX == 3 then Max(old(minQubitCount) - 1, 1) else old(minQubitCount)
    {
      if !InRange(charY, minQubitCount * 2, minQubitCount * 2) {
        return;
      }
      if !InRange(charX, 3, 3) {
        return;
      }
      minQubitCount := minQubitCount - 1;
      if minQubitCount < 1 {
        minQubitCount := 1;
      }
    }

    /**
     * check_setting_selection_pressed with the column guard stopping
     * before gate_settings.size()*4, so that the selection always names a
     * setting of the table; inside that range it agrees with the handler
     * as written.
     */
    method CheckSettingSelectionPressed(charX: int, charY: int)
      requires Valid()
      modifies this
      ensures Valid() && circuit == old(circuit) && minQubitCount == old(minQubitCount)
      ensures var hit := charY == minQubitCount * 2 + 1 && 0 <= charX < |GateSettings| * 4;
        selectedQubitSetting == if hit then charX / 4 else old(selectedQubitSetting)
      ensures charX != |GateSettings| * 4 ==>
        selectedQubitSetting == SettingSelectionAsWritten(charX, charY, minQubitCount, old(selectedQubitSetting))
    {
      if !InRange(charY, minQubitCount * 2 + 1, minQubitCount * 2 + 1) {
        return;
      }
      if !InRange(charX, 0, |GateSettings| * 4 - 1) {
        return;
      }
      selectedQubitSetting := charX / 4;
    }

    /** update on a click at character cell (charX, charY): the four handlers in order. */
    method Click(charX: int, charY: int)
      requires Valid()
      modifies this, circuit
      ensures Valid() && circuit == old(circuit)
      ensures var m := old(minQubitCount);
        minQubitCount == if charY == m * 2 && charX == 0 then m + 1
                         else if charY == m * 2 && charX == 3 then Max(m - 1, 1)
                         else m
      ensures selectedQubitSetting
        == if charY == old(minQubitCount) * 2 + 1 && 0 <= charX < |GateSettings| * 4 then charX / 4
           else old(selectedQubitSetting)
      ensures var maxX := (old(|circuit.operations|) + 1) * 6 + 6;
        var hit := 0 <= charY <= old(minQubitCount) * 2 - 1 && 6 <= charX <= maxX;
        (!hit ==> circuit.operations == old(circuit.operations))
        && (hit ==>
              |circuit.operations| == Max(old(|circuit.operations|), (charX - 6) / 6 + 1)
              && circuit.GetQubitSetting((charX - 6) / 6, charY / 2)
                 == (if GateOf(old(selectedQubitSetting)) == StandardGateIndex then 0 else old(selectedQubitSetting))
              && forall o: nat, q: nat :: (o, q) != ((charX - 6) / 6, charY / 2) ==>
                   circuit.GetQubitSetting(o, q) == old(circuit.GetQubitSetting(o, q)))
    {
      CheckQubitSettingPressed(charX, charY);
      CheckPlusPressed(charX, charY);
      CheckMinusPressed(charX, charY);
      CheckSettingSelectionPressed(charX, charY);
    }
  }
}
