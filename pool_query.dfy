/**
 * Reading one project pool: the thirteen getters requested in one multicall, and
 * the all-or-nothing assembly of their results into a `Project` record.
 */
module PoolQuery {
  import opened Wrappers

  /** A JavaScript value as a multicall entry's `result` field can hold it. */
  datatype Value = Undefined | Null | Bool(b: bool) | Num(n: int) | Big(i: int) | Str(s: string)

  /** The values `!v` is true for (NaN and -0 are not modelled). */
  predicate Falsy(v: Value) {
    v == Undefined || v == Null || v == Bool(false) || v == Num(0) || v == Big(0) || v == Str("")
  }

  /** The record `formatProjectData` builds. Each field holds the result it was read from,
      as it is: the `as` casts of the source convert nothing. */
  datatype Project = Project(
    owner: Value,
    name: Value,
    totalFractions: Value,
    softCapAmount: Value,
    startTime: Value,
    buyingPeriodEnd: Value,
    maxRepaymentTime: Value,
    possibleReturn: Value,
    url: Value,
    user: Value,
    totalSold: Value,
    totalReInvested: Value,
    actualRepaymentTime: Value)

  /** A listed project at the types the `Project` interface declares, together with the
      pool's address and its current phase, as the project list supplies it to the pages.
      Unsigned on-chain integers are `nat`. */
  datatype ProjectListing = ProjectListing(
    owner: string,
    name: string,
    totalFractions: nat,
    softCapAmount: nat,
    startTime: nat,
    buyingPeriodEnd: nat,
    maxRepaymentTime: nat,
    possibleReturn: nat,
    url: string,
    user: string,
    totalSold: nat,
    totalReInvested: nat,
    actualRepaymentTime: nat,
    contractAddress: string,
    currentPhase: int)

  const FieldCount := 13

  /** The keys of the record literal, in the order it is written. */
  const FieldNames: seq<string> := [
    "owner", "name", "totalFractions", "softCapAmount", "startTime", "buyingPeriodEnd",
    "maxRepaymentTime", "possibleReturn", "url", "user", "totalSold", "totalReInvested",
    "actualRepaymentTime"]

  /** The `functionName` of each read in the multicall, in request order. */
  const ProjectReads: seq<string> := [
    "owner", "name", "totalFractions", "softCapAmount", "startTime", "buyingPeriodEnd",
    "maxRepaymentTime", "possibleReturn", "url", "user", "totalSold", "totalReInvested",
    "actualRepaymentTime"]

  /** The field filled from `data[i]`. */
  function FieldAt(p: Project, i: nat): Value
    requires i < FieldCount
  {
    if i == 0 then p.owner
    else if i == 1 then p.name
    else if i == 2 then p.totalFractions
    else if i == 3 then p.softCapAmount
    else if i == 4 then p.startTime
    else if i == 5 then p.buyingPeriodEnd
    else if i == 6 then p.maxRepaymentTime
    else if i == 7 then p.possibleReturn
    else if i == 8 then p.url
    else if i == 9 then p.user
    else if i == 10 then p.totalSold
    else if i == 11 then p.totalReInvested
    else p.actualRepaymentTime
  }

  /** `data[i]?.result`: an index past the end reads as `undefined`. */
  function ResultAt(data: seq<Value>, i: nat): Value {
    if i < |data| then data[i] else Undefined
  }

  /** The positions tested with `!` (owner, name, url, user); the others are tested
      with `=== undefined`. */
  predicate TestedForTruth(i: nat) {
    i == 0 || i == 1 || i == 8 || i == 9
  }

  /** Whether the result at position `i` passes its test. */
  predicate Acceptable(i: nat, v: Value) {
    if TestedForTruth(i) then !Falsy(v) else v != Undefined
  }

  /** `formatProjectData`: `None` (null) unless every one of the thirteen results passes
      its test; otherwise the record whose i-th field is the i-th result. */
  function FormatProjectData(data: seq<Value>): (r: Option<Project>)
    ensures r.Some? <==> forall i :: 0 <= i < FieldCount ==> Acceptable(i, ResultAt(data, i))
    ensures r.Some? ==> forall i :: 0 <= i < FieldCount ==> FieldAt(r.value, i) == ResultAt(data, i)
  {
    if Falsy(ResultAt(data, 0))
       || Falsy(ResultAt(data, 1))
       || ResultAt(data, 2) == Undefined
       || ResultAt(data, 3) == Undefined
       || ResultAt(data, 4) == Undefined
       || ResultAt(data, 5) == Undefined
       || ResultAt(data, 6) == Undefined
       || ResultAt(data, 7) == Undefined
       || Falsy(ResultAt(data, 8))
       || Falsy(ResultAt(data, 9))
       || ResultAt(data, 10) == Undefined
       || ResultAt(data, 11) == Undefined
       || ResultAt(data, 12) == Undefined
    then
      None
    else
      Some(Project(
        owner := ResultAt(data, 0),
        name := ResultAt(data, 1),
        totalFractions := ResultAt(data, 2),
        softCapAmount := ResultAt(data, 3),
        startTime := ResultAt(data, 4),
        buyingPeriodEnd := ResultAt(data, 5),
        maxRepaymentTime := ResultAt(data, 6),
        possibleReturn := ResultAt(data, 7),
        url := ResultAt(data, 8),
        user := ResultAt(data, 9),
        totalSold := ResultAt(data, 10),
        totalReInvested := ResultAt(data, 11),
        actualRepaymentTime := ResultAt(data, 12)))
  }

  /** The `project` that `useGetProject` derives: `null` while the multicall has no data,
      the formatted record (or `null`) once it has. */
  function UseGetProject(data: Option<seq<Value>>): (project: Option<Project>)
    ensures data.None? ==> project.None?
    ensures data.Some? ==> project == FormatProjectData(data.value)
  {
    if data.Some? then FormatProjectData(data.value) else None
  }

  /** The results a multicall delivers: entry i is what the pool's getter
      `getters[i]` returns, given as `chain`. */
  function Multicall(getters: seq<string>, chain: string -> Value): (data: seq<Value>)
    ensures |data| == |getters|
    ensures forall i :: 0 <= i < |getters| ==> data[i] == chain(getters[i])
  {
    seq(|getters|, i requires 0 <= i < |getters| => chain(getters[i]))
  }

  /** The getter requested at position i is the one named like the field filled from
      position i. */
  lemma ReadOrderMatchesFields()
    ensures |ProjectReads| == |FieldNames| == FieldCount
    ensures forall i :: 0 <= i < FieldCount ==> ProjectReads[i] == FieldNames[i]
  {
  }

  /** Whatever the pool returns, every field of the assembled project holds the result
      of the getter with the field's own name. */
  lemma FieldsComeFromSameNamedGetter(chain: string -> Value, p: Project)
    requires UseGetProject(Some(Multicall(ProjectReads, chain))) == Some(p)
    ensures forall i :: 0 <= i < FieldCount ==> FieldAt(p, i) == chain(FieldNames[i])
  {
    var data := Multicall(ProjectReads, chain);
    forall i | 0 <= i < FieldCount
      ensures FieldAt(p, i) == chain(FieldNames[i])
    {
      assert ResultAt(data, i) == chain(ProjectReads[i]);
    }
  }

  /** The hook yields a project exactly when every getter's result passes the test of
      the field it fills. */
  lemma ProjectExactlyWhenGettersAcceptable(chain: string -> Value)
    ensures UseGetProject(Some(Multicall(ProjectReads, chain))).Some?
            <==> forall i :: 0 <= i < FieldCount ==> Acceptable(i, chain(FieldNames[i]))
  {
    var data := Multicall(ProjectReads, chain);
    ReadOrderMatchesFields();
    forall i | 0 <= i < FieldCount
      ensures ResultAt(data, i) == chain(FieldNames[i])
    {
    }
  }

  /** Fewer than thirteen results never make a project. */
  lemma ShortDataRejected(data: seq<Value>)
    requires |data| < FieldCount
    ensures FormatProjectData(data) == None
  {
    assert !Acceptable(12, ResultAt(data, 12));
  }

  /** Results past the thirteenth are ignored. */
  lemma ExtraResultsIgnored(data: seq<Value>, extra: seq<Value>)
    requires |data| == FieldCount
    ensures FormatProjectData(data + extra) == FormatProjectData(data)
  {
    forall i: nat | i < FieldCount
      ensures ResultAt(data + extra, i) == ResultAt(data, i)
    {
    }
  }

  /** A complete set of results, with zero amounts, times and return. */
  function ZeroAmountsData(owner: string, name: string, url: string, user: string): seq<Value> {
    [Str(owner), Str(name), Big(0), Big(0), Big(0), Big(0), Big(0), Num(0),
     Str(url), Str(user), Big(0), Big(0), Big(0)]
  }

  /** Zero amounts pass (they are only tested against `undefined`), while an empty name,
      owner, url or user is falsy and rejects the whole record. */
  lemma ZeroAcceptedEmptyTextRejected(owner: string, name: string, url: string, user: string)
    requires owner != "" && url != "" && user != ""
    ensures FormatProjectData(ZeroAmountsData(owner, name, url, user)).Some? <==> name != ""
  {
    var data := ZeroAmountsData(owner, name, url, user);
    if name == "" {
      assert !Acceptable(1, ResultAt(data, 1));
    }
  }

  /** `null` is not `undefined`: a null amount passes its test and is copied into the record. */
  lemma NullAmountPasses(owner: string, name: string, url: string, user: string)
    requires owner != "" && name != "" && url != "" && user != ""
    ensures FormatProjectData(ZeroAmountsData(owner, name, url, user)[2 := Null]).Some?
    ensures FormatProjectData(ZeroAmountsData(owner, name, url, user)[2 := Null]).value.totalFractions == Null
  {
    var data := ZeroAmountsData(owner, name, url, user)[2 := Null];
    assert ResultAt(data, 2) == Null;
  }
}
