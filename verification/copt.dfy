/**
 * The solver-independent logic of src/pyoptinterface_nb/copt.py: the tables
 * that translate COPT's raw LP/MIP status codes into termination statuses and
 * descriptions, the primal/dual status rules, the silent flag, and the
 * MIP-start bookkeeping of `Model.optimize`.
 *
 * What the native solver reports (`get_raw_attribute_int`) is an input, the
 * record `RawAttributes`. COPT's `Constants.*` codes are not fixed here: they
 * are a parameter `StatusCodes`, and the lemmas that need them to be distinct
 * say so.
 */
module Copt {
  import opened Wrappers
  import opened Forms

  datatype TerminationStatusCode =
    | OptimizeNotCalled
    | Optimal
    | Infeasible
    | DualInfeasible
    | InfeasibleOrUnbounded
    | NumericalError
    | AlmostOptimal
    | TimeLimit
    | NodeLimit
    | Interrupted

  datatype ResultStatusCode = FeasiblePoint | NoSolution

  /** The exceptions the module raises: `ValueError` with its subject, and the `NameError` of an unbound name. */
  datatype Error =
    | UnknownObjectiveSense(rawSense: int)
    | UnknownTerminationStatus(rawStatus: int)
    | UnknownConstraintType(kind: ConstraintType)
    | NameError(name: string)

  /** The integer attributes of the native model that the module reads. */
  datatype RawAttributes = RawAttributes(
    isMip: int,         // "IsMIP"
    lpStatus: int,      // "LpStatus"
    mipStatus: int,     // "MipStatus"
    hasLpSol: int,      // "HasLpSol"
    hasMipSol: int,     // "HasMipSol"
    logToConsole: int,  // "LogToConsole"
    objSense: int,      // "ObjSense"
    rows: int,          // "Rows"
    qConstrs: int)      // "QConstrs"

  /** The values of COPT's `Constants.*` that the module compares against. */
  datatype StatusCodes = StatusCodes(
    minimize: int, maximize: int,
    lpUnstarted: int, lpOptimal: int, lpInfeasible: int, lpUnbounded: int, lpNumerical: int,
    lpImprecise: int, lpTimeout: int, lpUnfinished: int, lpInterrupted: int,
    mipUnstarted: int, mipOptimal: int, mipInfeasible: int, mipUnbounded: int, mipInfOrUnb: int,
    mipNodeLimit: int, mipTimeout: int, mipUnfinished: int, mipInterrupted: int)
  {
    function LpCodes(): seq<int> {
      [lpUnstarted, lpOptimal, lpInfeasible, lpUnbounded, lpNumerical,
       lpImprecise, lpTimeout, lpUnfinished, lpInterrupted]
    }

    /** The LP codes as a set. */
    function LpCodeSet(): set<int> {
      {lpUnstarted, lpOptimal, lpInfeasible, lpUnbounded, lpNumerical,
       lpImprecise, lpTimeout, lpUnfinished, lpInterrupted}
    }

    /** The MIP codes as a set. */
    function MipCodeSet(): set<int> {
      {mipUnstarted, mipOptimal, mipInfeasible, mipUnbounded, mipInfOrUnb,
       mipNodeLimit, mipTimeout, mipUnfinished, mipInterrupted}
    }

    function MipCodes(): seq<int> {
      [mipUnstarted, mipOptimal, mipInfeasible, mipUnbounded, mipInfOrUnb,
       mipNodeLimit, mipTimeout, mipUnfinished, mipInterrupted]
    }

    /** COPT gives every LP status and every MIP status its own code. */
    predicate Distinct() {
      && (forall i, j :: 0 <= i < j < |LpCodes()| ==> LpCodes()[i] != LpCodes()[j])
      && (forall i, j :: 0 <= i < j < |MipCodes()| ==> MipCodes()[i] != MipCodes()[j])
    }
  }

  /** One row of a status table: the termination status and the raw status string. */
  datatype StatusEntry = StatusEntry(status: TerminationStatusCode, description: string)

  /**
   * `_RAW_LPSTATUS_STRINGS.get(raw, None)`. The codes are checked from the
   * last row of the dict display to the first, since a later row wins when
   * two codes coincide.
   */
  function LpStatusEntry(c: StatusCodes, raw: int): (r: Option<StatusEntry>)
    ensures r.Some? <==> raw in {c.lpUnstarted, c.lpOptimal, c.lpInfeasible, c.lpUnbounded, c.lpNumerical,
      c.lpImprecise, c.lpTimeout, c.lpUnfinished, c.lpInterrupted}
  {
    if raw == c.lpInterrupted then Some(StatusEntry(Interrupted, "The LP optimization is stopped by user interrupt."))
    else if raw == c.lpUnfinished then Some(StatusEntry(NumericalError,
      "The LP optimization is stopped but the solver cannot provide a solution because of numerical difficulties."))
    else if raw == c.lpTimeout then Some(StatusEntry(TimeLimit, "The LP optimization is stopped because of time limit."))
    else if raw == c.lpImprecise then Some(StatusEntry(AlmostOptimal,
      "The LP problem is solved to optimality with relaxed tolerances."))
    else if raw == c.lpNumerical then Some(StatusEntry(NumericalError, "Numerical trouble encountered."))
    else if raw == c.lpUnbounded then Some(StatusEntry(DualInfeasible, "The LP problem is unbounded."))
    else if raw == c.lpInfeasible then Some(StatusEntry(Infeasible, "The LP problem is infeasible."))
    else if raw == c.lpOptimal then Some(StatusEntry(Optimal, "The LP problem is solved to optimality."))
    else if raw == c.lpUnstarted then Some(StatusEntry(OptimizeNotCalled, "The LP optimization is not started yet."))
    else None
  }

  /** `_RAW_MIPSTATUS_STRINGS.get(raw, None)`, checked from the last row to the first likewise. */
  function MipStatusEntry(c: StatusCodes, raw: int): (r: Option<StatusEntry>)
    ensures r.Some? <==> raw in {c.mipUnstarted, c.mipOptimal, c.mipInfeasible, c.mipUnbounded, c.mipInfOrUnb,
      c.mipNodeLimit, c.mipTimeout, c.mipUnfinished, c.mipInterrupted}
  {
    if raw == c.mipInterrupted then Some(StatusEntry(Interrupted, "The MIP optimization is stopped by user interrupt."))
    else if raw == c.mipUnfinished then Some(StatusEntry(NumericalError,
      "The MIP optimization is stopped but the solver cannot provide a solution because of numerical difficulties."))
    else if raw == c.mipTimeout then Some(StatusEntry(TimeLimit, "The MIP optimization is stopped because of time limit."))
    else if raw == c.mipNodeLimit then Some(StatusEntry(NodeLimit, "The MIP optimization is stopped because of node limit."))
    else if raw == c.mipInfOrUnb then Some(StatusEntry(InfeasibleOrUnbounded, "The MIP problem is infeasible or unbounded."))
    else if raw == c.mipUnbounded then Some(StatusEntry(DualInfeasible, "The MIP problem is unbounded."))
    else if raw == c.mipInfeasible then Some(StatusEntry(Infeasible, "The MIP problem is infeasible."))
    else if raw == c.mipOptimal then Some(StatusEntry(Optimal, "The MIP problem is solved to optimality."))
    else if raw == c.mipUnstarted then Some(StatusEntry(OptimizeNotCalled, "The MIP optimization is not started yet."))
    else None
  }

  /** `Model._is_mip`: a zero or negative `IsMIP` attribute means an LP. */
  predicate IsMip(a: RawAttributes)
    ensures IsMip(a) ==> a.isMip >= 1
    ensures !IsMip(a) ==> a.isMip <= 0
  {
    a.isMip > 0
  }

  /** `get_objsense` as written: `ObjectiveSense` is not bound in the module, so a recognised sense raises `NameError`. */
  function GetObjSenseAsWritten(a: RawAttributes, c: StatusCodes): (r: Result<ObjectiveSense, Error>)
    ensures r.Err?
    ensures r.error.NameError? <==> a.objSense in {c.minimize, c.maximize}
    ensures a.objSense !in {c.minimize, c.maximize} ==> r.error == UnknownObjectiveSense(a.objSense)
  {
    if a.objSense == c.minimize then Err(NameError("ObjectiveSense"))
    else if a.objSense == c.maximize then Err(NameError("ObjectiveSense"))
    else Err(UnknownObjectiveSense(a.objSense))
  }

  /** `get_objsense` as intended: the sense the raw code names, `ValueError` for any other code. */
  function GetObjSense(a: RawAttributes, c: StatusCodes): (r: Result<ObjectiveSense, Error>)
    ensures r == Ok(Minimize) <==> a.objSense == c.minimize
    ensures r == Ok(Maximize) <==> a.objSense == c.maximize && a.objSense != c.minimize
    ensures r.Err? <==> a.objSense !in {c.minimize, c.maximize}
    ensures r.Err? ==> r.error == UnknownObjectiveSense(a.objSense)
  {
    if a.objSense == c.minimize then Ok(Minimize)
    else if a.objSense == c.maximize then Ok(Maximize)
    else Err(UnknownObjectiveSense(a.objSense))
  }

  /** Any minimising model shows the difference: the code as written raises where a sense is due. */
  lemma ObjSenseNameError(a: RawAttributes, c: StatusCodes)
    requires a.objSense == c.minimize
    ensures GetObjSenseAsWritten(a, c) == Err(NameError("ObjectiveSense"))
    ensures GetObjSense(a, c) == Ok(Minimize)
  {
  }

  /** `get_primalstatus`: a feasible point exactly when the solution flag of the problem's kind is set. */
  function GetPrimalStatus(a: RawAttributes): (r: ResultStatusCode)
    ensures r == FeasiblePoint <==> (if IsMip(a) then a.hasMipSol else a.hasLpSol) != 0
  {
    var hasSol := if IsMip(a) then a.hasMipSol else a.hasLpSol;
    if hasSol != 0 then FeasiblePoint else NoSolution
  }

  /** `get_dualstatus`: never a dual point for a MIP; for an LP one exactly when it has an LP solution. */
  function GetDualStatus(a: RawAttributes): (r: ResultStatusCode)
    ensures IsMip(a) ==> r == NoSolution
    ensures !IsMip(a) ==> (r == FeasiblePoint <==> a.hasLpSol != 0)
  {
    if !IsMip(a) && a.hasLpSol != 0 then FeasiblePoint else NoSolution
  }

  /** `get_terminationstatus`: the first component of the entry for the raw status, MIP table for a MIP, LP table otherwise. */
  function GetTerminationStatus(a: RawAttributes, c: StatusCodes): (r: Result<TerminationStatusCode, Error>)
    ensures r.Ok? <==> SelectedStatus(a) in (if IsMip(a) then c.MipCodeSet() else c.LpCodeSet())
    ensures r.Err? ==> r.error == UnknownTerminationStatus(SelectedStatus(a))
  {
    var raw := if IsMip(a) then a.mipStatus else a.lpStatus;
    var pair := if IsMip(a) then MipStatusEntry(c, raw) else LpStatusEntry(c, raw);
    if pair.None? then Err(UnknownTerminationStatus(raw)) else Ok(pair.value.status)
  }

  /** `get_rawstatusstring`: the second component, looked up the same way. */
  function GetRawStatusString(a: RawAttributes, c: StatusCodes): (r: Result<string, Error>)
    ensures r.Ok? <==> SelectedStatus(a) in (if IsMip(a) then c.MipCodeSet() else c.LpCodeSet())
    ensures r.Err? ==> r.error == UnknownTerminationStatus(SelectedStatus(a))
  {
    var raw := if IsMip(a) then a.mipStatus else a.lpStatus;
    var pair := if IsMip(a) then MipStatusEntry(c, raw) else LpStatusEntry(c, raw);
    if pair.None? then Err(UnknownTerminationStatus(raw)) else Ok(pair.value.description)
  }

  /** The raw status that decides the termination status: "MipStatus" for a MIP, "LpStatus" otherwise. */
  function SelectedStatus(a: RawAttributes): int {
    if IsMip(a) then a.mipStatus else a.lpStatus
  }

  /**
   * The two queries read the same entry: the MIP table when `IsMIP > 0`, the
   * LP table otherwise. Both succeed together, with the two components of that
   * entry, exactly when the raw status is one of that table's codes; otherwise
   * both raise the same `ValueError`.
   */
  lemma StatusQueriesAgree(a: RawAttributes, c: StatusCodes)
    ensures GetTerminationStatus(a, c).Ok? <==> GetRawStatusString(a, c).Ok?
    ensures GetTerminationStatus(a, c).Ok? ==>
      var entry := StatusEntry(GetTerminationStatus(a, c).value, GetRawStatusString(a, c).value);
      if IsMip(a) then MipStatusEntry(c, a.mipStatus) == Some(entry) else LpStatusEntry(c, a.lpStatus) == Some(entry)
    ensures GetTerminationStatus(a, c).Err? ==>
      GetTerminationStatus(a, c).error == GetRawStatusString(a, c).error == UnknownTerminationStatus(SelectedStatus(a))
  {
  }

  /** With distinct LP codes, the LP table reports optimality for the optimal code alone. */
  lemma LpOptimalCode(c: StatusCodes, raw: int)
    requires c.Distinct()
    ensures (LpStatusEntry(c, raw).Some? && LpStatusEntry(c, raw).value.status == Optimal) <==> raw == c.lpOptimal
  {
    LpOptimalOnly(c, raw);
    if raw == c.lpOptimal {
      var lp := c.LpCodes();
      assert lp[1] != lp[2] && lp[1] != lp[3] && lp[1] != lp[4] && lp[1] != lp[5];
      assert lp[1] != lp[6] && lp[1] != lp[7] && lp[1] != lp[8];
      LpOptimalRow(c);
    }
  }

  /** Only the optimal code's row of the LP table says optimal. */
  lemma LpOptimalOnly(c: StatusCodes, raw: int)
    ensures LpStatusEntry(c, raw).Some? && LpStatusEntry(c, raw).value.status == Optimal ==> raw == c.lpOptimal
  {
  }

  /** The optimal code reaches its own row when no later row shares it. */
  lemma LpOptimalRow(c: StatusCodes)
    requires c.lpOptimal !in {c.lpInfeasible, c.lpUnbounded, c.lpNumerical, c.lpImprecise, c.lpTimeout, c.lpUnfinished, c.lpInterrupted}
    ensures LpStatusEntry(c, c.lpOptimal).Some? && LpStatusEntry(c, c.lpOptimal).value.status == Optimal
  {
  }

  /** With distinct LP codes, the LP table reports a numerical error for the numerical and unfinished codes alone. */
  lemma LpNumericalCodes(c: StatusCodes, raw: int)
    requires c.Distinct()
    ensures (LpStatusEntry(c, raw).Some? && LpStatusEntry(c, raw).value.status == NumericalError) <==>
      raw in {c.lpNumerical, c.lpUnfinished}
  {
    var lp := c.LpCodes();
    assert lp[4] != lp[5] && lp[4] != lp[6] && lp[4] != lp[8] && lp[7] != lp[8];
  }

  /** With distinct MIP codes, the MIP table reports optimality for the optimal code alone. */
  lemma MipOptimalCode(c: StatusCodes, raw: int)
    requires c.Distinct()
    ensures (MipStatusEntry(c, raw).Some? && MipStatusEntry(c, raw).value.status == Optimal) <==> raw == c.mipOptimal
  {
    MipOptimalOnly(c, raw);
    if raw == c.mipOptimal {
      var mip := c.MipCodes();
      assert mip[1] != mip[2] && mip[1] != mip[3] && mip[1] != mip[4] && mip[1] != mip[5];
      assert mip[1] != mip[6] && mip[1] != mip[7] && mip[1] != mip[8];
      MipOptimalRow(c);
    }
  }

  /** Only the optimal code's row of the MIP table says optimal. */
  lemma MipOptimalOnly(c: StatusCodes, raw: int)
    ensures MipStatusEntry(c, raw).Some? && MipStatusEntry(c, raw).value.status == Optimal ==> raw == c.mipOptimal
  {
  }

  /** The optimal code reaches its own row when no later row shares it. */
  lemma MipOptimalRow(c: StatusCodes)
    requires c.mipOptimal !in {c.mipInfeasible, c.mipUnbounded, c.mipInfOrUnb, c.mipNodeLimit, c.mipTimeout, c.mipUnfinished, c.mipInterrupted}
    ensures MipStatusEntry(c, c.mipOptimal).Some? && MipStatusEntry(c, c.mipOptimal).value.status == Optimal
  {
  }

  /** With distinct MIP codes, the MIP table reports a numerical error for the unfinished code alone. */
  lemma MipNumericalCode(c: StatusCodes, raw: int)
    requires c.Distinct()
    ensures (MipStatusEntry(c, raw).Some? && MipStatusEntry(c, raw).value.status == NumericalError) <==>
      raw == c.mipUnfinished
  {
    var mip := c.MipCodes();
    assert mip[7] != mip[8];
  }

  /**
   * With distinct codes a model is reported optimal exactly for the optimal
   * code of its kind, and as a numerical error exactly for the numerical or
   * unfinished codes.
   */
  lemma OptimalAndNumericalCodes(a: RawAttributes, c: StatusCodes)
    requires c.Distinct()
    ensures GetTerminationStatus(a, c) == Ok(Optimal) <==>
      SelectedStatus(a) == (if IsMip(a) then c.mipOptimal else c.lpOptimal)
    ensures GetTerminationStatus(a, c) == Ok(NumericalError) <==>
      if IsMip(a) then a.mipStatus == c.mipUnfinished
      else a.lpStatus in {c.lpNumerical, c.lpUnfinished}
  {
    if IsMip(a) {
      MipOptimalCode(c, a.mipStatus);
      MipNumericalCode(c, a.mipStatus);
    } else {
      LpOptimalCode(c, a.lpStatus);
      LpNumericalCodes(c, a.lpStatus);
    }
  }

  /** `get_silent`: silent exactly when console logging is off; any nonzero `LogToConsole` is verbose. */
  predicate GetSilent(a: RawAttributes)
    ensures GetSilent(a) <==> a.logToConsole == 0
  {
    a.logToConsole == 0
  }

  /** `Model.number_of_constraints`: the row count of a linear or quadratic namespace; any other type raises. */
  function NumberOfConstraints(a: RawAttributes, kind: ConstraintType): (r: Result<int, Error>)
    ensures r.Err? <==> kind in {SOS1, SOS2}
    ensures r.Err? ==> r.error == UnknownConstraintType(kind)
    ensures kind == Linear ==> r == Ok(a.rows)
    ensures kind == Quadratic ==> r == Ok(a.qConstrs)
  {
    match kind
    case Linear => Ok(a.rows)
    case Quadratic => Ok(a.qConstrs)
    case _ => Err(UnknownConstraintType(kind))
  }

  /**
   * An insertion-ordered Python dict from variables to start values, as its
   * list of items.
   */
  type StartDict = seq<(VariableIndex, real)>

  predicate DistinctKeys(d: StartDict) {
    forall i, j :: 0 <= i < j < |d| ==> d[i].0 != d[j].0
  }

  /** `dict.get(v, None)`: the value stored with `v`, `None` when `v` is not a key. */
  function DictGet(d: StartDict, v: VariableIndex): (r: Option<real>)
    ensures r.None? <==> forall i :: 0 <= i < |d| ==> d[i].0 != v
    ensures DistinctKeys(d) ==> forall i :: 0 <= i < |d| && d[i].0 == v ==> r == Some(d[i].1)
  {
    if d == [] then None
    else if d[0].0 == v then Some(d[0].1)
    else DictGet(d[1..], v)
  }

  /** `dict.__setitem__(v, x)`: replaces the value of a present key in its slot, appends a new key. */
  function DictSet(d: StartDict, v: VariableIndex, x: real): (r: StartDict)
    ensures |r| == |d| || |r| == |d| + 1
    ensures (forall i :: 0 <= i < |d| ==> d[i].0 != v) ==> r == d + [(v, x)]
    ensures DistinctKeys(d) ==> forall i :: 0 <= i < |d| && d[i].0 == v ==> r == d[i := (v, x)]
    ensures forall i :: 0 <= i < |d| && d[i].0 != v ==> r[i] == d[i]
  {
    if d == [] then [(v, x)]
    else if d[0].0 == v then [(v, x)] + d[1..]
    else [d[0]] + DictSet(d[1..], v, x)
  }

  /** `list(dict.keys())` and `list(dict.values())`. */
  function DictKeys(d: StartDict): (ks: seq<VariableIndex>)
    ensures |ks| == |d|
  {
    seq(|d|, i requires 0 <= i < |d| => d[i].0)
  }

  function DictValues(d: StartDict): (vs: seq<real>)
    ensures |vs| == |d|
  {
    seq(|d|, i requires 0 <= i < |d| => d[i].1)
  }

  /** Storing a start value makes it the one read back and leaves the other variables' values alone. */
  lemma {:induction false} DictSetGet(d: StartDict, v: VariableIndex, x: real, w: VariableIndex)
    ensures DictGet(DictSet(d, v, x), w) == if w == v then Some(x) else DictGet(d, w)
  {
    if d != [] && d[0].0 != v {
      DictSetGet(d[1..], v, x, w);
      assert DictSet(d, v, x)[1..] == DictSet(d[1..], v, x);
    }
  }

  /** The variables of `DictSet` are the old ones, with `v` added at the end if it was new. */
  lemma DictSetKeys(d: StartDict, v: VariableIndex, x: real)
    requires DistinctKeys(d)
    ensures DistinctKeys(DictSet(d, v, x))
    ensures forall w :: w in DictKeys(DictSet(d, v, x)) <==> w == v || w in DictKeys(d)
  {
    if i :| 0 <= i < |d| && d[i].0 == v {
      DictSetPresentKeys(d, v, x, i);
    } else {
      DictSetAbsentKeys(d, v, x);
    }
  }

  /** Storing under a key already present keeps the key list as it is. */
  lemma DictSetPresentKeys(d: StartDict, v: VariableIndex, x: real, i: nat)
    requires DistinctKeys(d)
    requires i < |d| && d[i].0 == v
    ensures DistinctKeys(DictSet(d, v, x))
    ensures DictKeys(DictSet(d, v, x)) == DictKeys(d) && DictKeys(d)[i] == v
  {
    var r := DictSet(d, v, x);
    assert r == d[i := (v, x)];
    forall j | 0 <= j < |r| ensures r[j].0 == d[j].0 {
    }
  }

  /** Storing under a new key appends it to the key list. */
  lemma DictSetAbsentKeys(d: StartDict, v: VariableIndex, x: real)
    requires DistinctKeys(d)
    requires forall i :: 0 <= i < |d| ==> d[i].0 != v
    ensures DistinctKeys(DictSet(d, v, x))
    ensures DictKeys(DictSet(d, v, x)) == DictKeys(d) + [v]
  {
    var r := DictSet(d, v, x);
    assert r == d + [(v, x)];
    assert forall j :: 0 <= j < |d| ==> r[j] == d[j];
  }

  /**
   * The two lists handed to the native `add_mip_start` are parallel: the i-th
   * value is the start value stored for the i-th variable.
   */
  lemma {:induction false} StartListsMatch(d: StartDict, i: nat)
    requires DistinctKeys(d)
    requires i < |d|
    ensures DictGet(d, DictKeys(d)[i]) == Some(DictValues(d)[i])
  {
    if i > 0 {
      StartListsMatch(d[1..], i - 1);
      assert DictKeys(d[1..])[i - 1] == DictKeys(d)[i];
      assert DictValues(d[1..])[i - 1] == DictValues(d)[i];
    }
  }

  /** The arguments of one call of the native `add_mip_start`. */
  datatype MipStart = MipStart(variables: seq<VariableIndex>, values: seq<real>)

  /** The Python-side state of a COPT `Model`, and what it has handed to the native solver. */
  class CoptModel {
    /** The native attributes as the solver currently reports them. */
    var attributes: RawAttributes
    /** `mip_start_values`. */
    var mipStartValues: StartDict
    /** The calls made to the native `add_mip_start`, oldest first. */
    var submittedStarts: seq<MipStart>
    /** The number of calls made to the native `optimize`. */
    var solveCount: nat

    ghost predicate Valid()
      reads this
    {
      DistinctKeys(mipStartValues)
    }

    constructor (initial: RawAttributes)
      ensures Valid()
      ensures attributes == initial && mipStartValues == [] && submittedStarts == [] && solveCount == 0
    {
      attributes := initial;
      mipStartValues := [];
      submittedStarts := [];
      solveCount := 0;
    }

    /** `set_silent`: console logging off for `true`, on for `false`. */
    method SetSilent(value: bool)
      modifies this
      ensures attributes == old(attributes).(logToConsole := if value then 0 else 1)
      ensures GetSilent(attributes) == value
      ensures mipStartValues == old(mipStartValues) && submittedStarts == old(submittedStarts)
      ensures solveCount == old(solveCount)
    {
      if value {
        attributes := attributes.(logToConsole := 0);
      } else {
        attributes := attributes.(logToConsole := 1);
      }
    }

    /** Setting the `PrimalStart` attribute of a variable: `mip_start_values[v] = x`. */
    method SetPrimalStart(v: VariableIndex, x: real)
      requires Valid()
      modifies this
      ensures Valid()
      ensures mipStartValues == DictSet(old(mipStartValues), v, x)
      ensures DictGet(mipStartValues, v) == Some(x)
      ensures attributes == old(attributes) && submittedStarts == old(submittedStarts)
      ensures solveCount == old(solveCount)
    {
      DictSetKeys(mipStartValues, v, x);
      DictSetGet(mipStartValues, v, x, v);
      mipStartValues := DictSet(mipStartValues, v, x);
    }

    /**
     * `optimize`: for a MIP, hand every stored start to the solver, variables
     * and values in matching order, and empty the dict; for an LP leave the
     * dict alone. `solved` is what the native solver reports afterwards.
     */
    method Optimize(solved: RawAttributes)
      requires Valid()
      modifies this
      ensures Valid()
      ensures IsMip(old(attributes)) ==>
        && submittedStarts == old(submittedStarts) + [MipStart(DictKeys(old(mipStartValues)), DictValues(old(mipStartValues)))]
        && mipStartValues == []
      ensures !IsMip(old(attributes)) ==>
        submittedStarts == old(submittedStarts) && mipStartValues == old(mipStartValues)
      ensures solveCount == old(solveCount) + 1 && attributes == solved
    {
      if IsMip(attributes) {
        var variables := DictKeys(mipStartValues);
        var values := DictValues(mipStartValues);
        submittedStarts := submittedStarts + [MipStart(variables, values)];
        mipStartValues := [];
      }
      solveCount := solveCount + 1;
      attributes := solved;
    }
  }
}
