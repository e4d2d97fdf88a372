/**
 * The data model of the trajectory viewer: one step record of an uploaded
 * log, the four filter dimensions, the filter selections and the four
 * option lists shown in the filter drop-downs.
 *
 * Key fields are strings; a missing field is the empty string. `step` is an
 * integer, standing for `Number(step) || 0`.
 */
module Records {
  import opened Wrappers

  /** The selection value that means "no constraint on this dimension". */
  const ALL: string := "all"

  datatype Record = Record(
    model: string,
    env: string,
    level: string,
    runId: string,
    step: int,
    observationBefore: Option<string>,
    action: Option<string>,
    observationAfter: Option<string>)

  /** The four filter dimensions, in the order the filter engine checks them. */
  datatype Dimension = Model | Env | Level | RunId
  {
    /** The position of the dimension in that order. */
    function Index(): (n: nat)
      ensures n < 4
    {
      match this
      case Model => 0
      case Env => 1
      case Level => 2
      case RunId => 3
    }
  }

  function Field(r: Record, d: Dimension): string
  {
    match d
    case Model => r.model
    case Env => r.env
    case Level => r.level
    case RunId => r.runId
  }

  /** `data.map(r => r[d])`. */
  function Column(data: seq<Record>, d: Dimension): (col: seq<string>)
    ensures |col| == |data|
  {
    seq(|data|, i requires 0 <= i < |data| => Field(data[i], d))
  }

  /**
   * The trajectory key of a record: the template string
   * `${model || ''}|||${env || ''}|||${level || ''}|||${run_id || ''}`.
   */
  function GroupKey(r: Record): string
  {
    r.model + "|||" + r.env + "|||" + r.level + "|||" + r.runId
  }

  /** The current value of each filter drop-down. */
  datatype Selections = Selections(model: string, env: string, level: string, runId: string)
  {
    function Get(d: Dimension): string
    {
      match d
      case Model => model
      case Env => env
      case Level => level
      case RunId => runId
    }

    /** The selections with dimension `d` set to `v`. */
    function With(d: Dimension, v: string): (s: Selections)
      ensures s.Get(d) == v
      ensures forall e :: e != d ==> s.Get(e) == Get(e)
    {
      match d
      case Model => this.(model := v)
      case Env => this.(env := v)
      case Level => this.(level := v)
      case RunId => this.(runId := v)
    }

    /** How many dimensions are constrained. */
    function NonAllCount(): (n: nat)
      ensures n <= 4
      ensures n == 0 <==> this == NO_FILTER
    {
      (if model != ALL then 1 else 0) + (if env != ALL then 1 else 0)
      + (if level != ALL then 1 else 0) + (if runId != ALL then 1 else 0)
    }
  }

  /** Clearing a constrained dimension lowers the number of constrained dimensions by one. */
  lemma ClearLowersCount(sel: Selections, d: Dimension)
    requires sel.Get(d) != ALL
    ensures sel.With(d, ALL).NonAllCount() == sel.NonAllCount() - 1
  {
  }

  /** Every dimension unconstrained. */
  const NO_FILTER: Selections := Selections(ALL, ALL, ALL, ALL)

  /** The option lists of the four drop-downs. */
  datatype OptionLists = OptionLists(
    models: seq<string>,
    envs: seq<string>,
    levels: seq<string>,
    runIds: seq<string>)
  {
    function Get(d: Dimension): seq<string>
    {
      match d
      case Model => models
      case Env => envs
      case Level => levels
      case RunId => runIds
    }
  }
}
