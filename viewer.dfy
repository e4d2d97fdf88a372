/**
 * The state of the trajectory viewer component and its event handlers.
 *
 * The component's state variables are the fields of `TrajectoryViewer`. The
 * four filter selections are held as one `Selections` value, and the four
 * upload option lists and the four available option lists as one
 * `OptionLists` value each.
 *
 * Each handler runs its state updates and then, as the component's effects
 * do after the next render, re-synchronises the step-input buffer when the
 * step index changed and re-runs the filter effect when the loaded records
 * or a selection changed. The filter effect runs again after every reset it
 * performs, until it commits.
 */
module Viewer {
  import opened Wrappers
  import opened JsText
  import opened Records
  import opened Ingestion
  import opened FilterEngine

  /**
   * The step index a submitted step input asks for: `parseInt` of the input
   * must give a step number between 1 and the trajectory length `len`.
   */
  function StepTarget(input: string, len: nat): (target: Option<nat>)
    ensures target.Some? <==> ParseInt(input).Some? && 1 <= ParseInt(input).value <= len
    ensures target.Some? ==> target.value < len && ParseInt(input) == Some(target.value + 1)
  {
    var n := ParseInt(input);
    if n.Some? && 1 <= n.value <= len then Some(n.value - 1) else None
  }

  /** The buffer showing a step of the trajectory asks for exactly that step. */
  lemma StepTargetOfShownStep(i: nat, len: nat)
    requires i < len
    ensures StepTarget(DecimalString(i + 1), len) == Some(i)
  {
    ParseIntDecimalString(i + 1);
  }

  class TrajectoryViewer {
    var allData: seq<Record>
    var currentTrajectory: seq<Record>
    var currentStepIndex: nat
    var isPlaying: bool
    var stepInput: string
    var selections: Selections
    var options: OptionLists
    var available: OptionLists

    /** The index is a position of the trajectory, or 0 when the trajectory is empty. */
    predicate IndexInBounds()
      reads this`currentStepIndex, this`currentTrajectory
    {
      currentStepIndex == 0 || currentStepIndex < |currentTrajectory|
    }

    /** The filter effect has committed for the current records and selections. */
    ghost predicate Settled()
      reads this`allData, this`selections, this`currentTrajectory, this`available
    {
      CommittedState(allData, selections, currentTrajectory, available)
    }

    /** The upload option lists are those of the loaded records. */
    ghost predicate OptionsOfData()
      reads this`allData, this`options
    {
      options == UploadOptions(allData)
    }

    /**
     * The invariant between events: the index is in bounds, and once records
     * are loaded the trajectory and the available lists are those of the
     * current selections, which match at least one record. (That the upload
     * lists belong to the loaded records, `OptionsOfData`, is kept apart:
     * only an upload changes either.)
     */
    ghost predicate Valid()
      reads this`allData, this`selections, this`currentTrajectory, this`available, this`currentStepIndex
    {
      IndexInBounds() && (|allData| > 0 ==> Settled())
    }

    /** The initial state: nothing loaded, step input "1", every selection "all". */
    constructor()
      ensures Valid() && OptionsOfData()
      ensures allData == [] && currentTrajectory == [] && currentStepIndex == 0
      ensures !isPlaying && stepInput == "1"
      ensures selections == NO_FILTER
      ensures options == OptionLists([], [], [], []) && available == OptionLists([], [], [], [])
    {
      allData := [];
      currentTrajectory := [];
      currentStepIndex := 0;
      isPlaying := false;
      stepInput := "1";
      selections := NO_FILTER;
      options := OptionLists([], [], [], []);
      available := OptionLists([], [], [], []);
    }

    /**
     * `setCurrentStepIndex(i)` followed by the effect that copies the step
     * number into the input buffer, which fires only when the index changed.
     */
    method SetStepIndex(i: nat)
      modifies this`currentStepIndex, this`stepInput
      ensures currentStepIndex == i
      ensures stepInput == if i != old(currentStepIndex) then DecimalString(i + 1) else old(stepInput)
    {
      if i != currentStepIndex {
        stepInput := DecimalString(i + 1);
      }
      currentStepIndex := i;
    }

    /**
     * Back to the first step, paused: `setCurrentStepIndex(0)` and
     * `setIsPlaying(false)`, which several handlers and the filter effect do.
     * The step input shows "1" afterwards.
     */
    method Rewind()
      modifies this`currentStepIndex, this`stepInput, this`isPlaying
      ensures currentStepIndex == 0 && !isPlaying
      ensures stepInput == if old(currentStepIndex) != 0 then "1" else old(stepInput)
    {
      SetStepIndex(0);
      isPlaying := false;
    }

    /**
     * The commit of a pass: install the available lists and the trajectory,
     * rewind to the first step (re-synchronising the step input) and pause.
     */
    method Commit(avail: OptionLists, traj: seq<Record>)
      modifies this`available, this`currentTrajectory, this`currentStepIndex, this`stepInput, this`isPlaying
      ensures available == avail && currentTrajectory == traj
      ensures currentStepIndex == 0 && !isPlaying
      ensures stepInput == if old(currentStepIndex) != 0 then "1" else old(stepInput)
    {
      available := avail;
      currentTrajectory := traj;
      Rewind();
    }

    /**
     * One run of the filter effect: nothing without records; otherwise filter,
     * recompute the available lists, and either reset the first invalid
     * selection and stop, or install the available lists and the sorted
     * trajectory, rewind to the first step and stop playing.
     */
    method FilterPass() returns (outcome: PassOutcome)
      modifies this`selections, this`available, this`currentTrajectory, this`currentStepIndex, this`stepInput, this`isPlaying
      ensures outcome == PassOutcomeOf(allData, old(selections))
      ensures selections == if outcome.Reset? then old(selections).With(outcome.dim, ALL) else old(selections)
      ensures !outcome.Committed? ==>
        && available == old(available)
        && currentTrajectory == old(currentTrajectory)
        && currentStepIndex == old(currentStepIndex)
        && stepInput == old(stepInput)
        && isPlaying == old(isPlaying)
      ensures outcome.Committed? ==>
        && Settled()
        && currentStepIndex == 0
        && stepInput == (if old(currentStepIndex) != 0 then "1" else old(stepInput))
        && !isPlaying
    {
      if |allData| == 0 {
        return Skipped;
      }
      var sel := selections;
      var avail := Available(Filtered(allData, sel));
      var invalid := FirstInvalid(sel, avail);
      if invalid.Some? {
        selections := sel.With(invalid.value, ALL);
        return Reset(invalid.value);
      }
      PassOutcomeMeaning(allData, sel);
      var traj := SortTrajectory(allData, sel);
      Commit(avail, traj);
      return Committed;
    }

    /**
     * The filter effect together with the re-runs its own resets trigger. It
     * stops after at most four resets, with the settled selections, and, when
     * records are loaded, with the trajectory of those selections committed.
     */
    method RunFilterEffect() returns (resets: nat)
      requires IndexInBounds()
      modifies this`selections, this`available, this`currentTrajectory, this`currentStepIndex, this`stepInput, this`isPlaying
      ensures Valid()
      ensures resets <= 4
      ensures resets == old(selections.NonAllCount()) - selections.NonAllCount()
      ensures selections == SettleSelections(allData, old(selections))
      ensures |allData| == 0 ==>
        && available == old(available)
        && currentTrajectory == old(currentTrajectory)
        && currentStepIndex == old(currentStepIndex)
        && stepInput == old(stepInput)
        && isPlaying == old(isPlaying)
      ensures |allData| > 0 ==>
        && currentStepIndex == 0
        && stepInput == (if old(currentStepIndex) != 0 then "1" else old(stepInput))
        && !isPlaying
    {
      ghost var sel0 := selections;
      resets := 0;
      var settled := false;
      while !settled
        invariant SettleSelections(allData, selections) == SettleSelections(allData, sel0)
        invariant resets == sel0.NonAllCount() - selections.NonAllCount()
        invariant !settled || |allData| == 0 ==>
          && available == old(available)
          && currentTrajectory == old(currentTrajectory)
          && currentStepIndex == old(currentStepIndex)
          && stepInput == old(stepInput)
          && isPlaying == old(isPlaying)
        invariant settled ==> selections == SettleSelections(allData, sel0)
        invariant settled && |allData| > 0 ==>
          && Settled()
          && currentStepIndex == 0
          && stepInput == (if old(currentStepIndex) != 0 then "1" else old(stepInput))
          && !isPlaying
        decreases selections.NonAllCount(), !settled
      {
        ghost var before := selections;
        var outcome := FilterPass();
        if outcome.Reset? {
          ClearLowersCount(before, outcome.dim);
          resets := resets + 1;
        } else {
          settled := true;
        }
      }
    }

    /**
     * The state updates of a successful upload other than the option lists:
     * the records, the available lists (the upload lists until the effect
     * runs), the initial selections, the first step, paused.
     */
    method Install(data: seq<Record>, opts: OptionLists, sel: Selections)
      modifies this`allData, this`available, this`selections, this`currentStepIndex, this`stepInput, this`isPlaying
      ensures allData == data && available == opts && selections == sel
      ensures currentStepIndex == 0 && !isPlaying
      ensures stepInput == if old(currentStepIndex) != 0 then "1" else old(stepInput)
    {
      allData := data;
      available := opts;
      selections := sel;
      Rewind();
    }

    /**
     * The records `data` of a successful upload are installed and the filter
     * effect runs. Its first pass commits over loaded records and is skipped
     * without records, so it makes no reset and does not run again.
     */
    method Upload(data: seq<Record>, opts: OptionLists)
      modifies this`allData, this`available, this`selections
      modifies this`currentTrajectory, this`currentStepIndex, this`stepInput, this`isPlaying
      ensures Valid()
      ensures allData == data
      ensures selections == UploadSelections(data)
      ensures currentStepIndex == 0 && !isPlaying
      ensures stepInput == if old(currentStepIndex) != 0 then "1" else old(stepInput)
      ensures |data| == 0 ==> currentTrajectory == old(currentTrajectory) && available == opts
    {
      Install(data, opts, UploadSelections(data));
      if |data| > 0 {
        UploadCommits(data);
      }
      var _ := FilterPass();
    }

    /**
     * `handleFileUpload`: `file` is the text of the chosen file (`None` when
     * no file was chosen) and `jsonParse` stands for `JSON.parse` applied to
     * the cleaned text (`None` when it throws, which only raises an alert and
     * changes nothing).
     */
    method HandleFileUpload(file: Option<string>, jsonParse: string -> Option<seq<Record>>)
      modifies this`allData, this`options, this`available, this`selections
      modifies this`currentTrajectory, this`currentStepIndex, this`stepInput, this`isPlaying
      ensures file.None? || jsonParse(ReplaceNaN(file.value)).None? ==> unchanged(this)
      ensures file.Some? && jsonParse(ReplaceNaN(file.value)).Some? ==>
        && Valid()
        && OptionsOfData()
        && allData == jsonParse(ReplaceNaN(file.value)).value
        && selections == UploadSelections(allData)
        && currentStepIndex == 0
        && !isPlaying
        && stepInput == (if old(currentStepIndex) != 0 then "1" else old(stepInput))
        && (|allData| == 0 ==> currentTrajectory == old(currentTrajectory) && available == OptionLists([], [], [], []))
    {
      if file.None? {
        return;
      }
      var cleaned := ReplaceNaN(file.value);
      var parsed := jsonParse(cleaned);
      if parsed.None? {
        return;
      }
      var opts := UploadOptions(parsed.value);
      options := opts;
      Upload(parsed.value, opts);
    }

    /**
     * A change of one filter drop-down. Choosing the value already selected
     * changes nothing; any other value triggers the filter effect.
     */
    method SelectOption(d: Dimension, v: string)
      requires Valid()
      modifies this`selections, this`available, this`currentTrajectory, this`currentStepIndex, this`stepInput, this`isPlaying
      ensures Valid()
      ensures v == old(selections.Get(d)) ==> unchanged(this)
      ensures v != old(selections.Get(d)) ==> selections == SettleSelections(allData, old(selections).With(d, v))
      ensures v != old(selections.Get(d)) && |allData| > 0 ==>
        && currentStepIndex == 0
        && !isPlaying
        && stepInput == (if old(currentStepIndex) != 0 then "1" else old(stepInput))
      ensures v != old(selections.Get(d)) && |allData| == 0 ==>
        && available == old(available)
        && currentTrajectory == old(currentTrajectory)
        && currentStepIndex == old(currentStepIndex)
        && stepInput == old(stepInput)
        && isPlaying == old(isPlaying)
    {
      if v != selections.Get(d) {
        selections := selections.With(d, v);
        var _ := RunFilterEffect();
      }
    }

    /**
     * `resetAllFilters`: every selection back to "all", first step, paused.
     * The filter effect runs only when some selection actually changed.
     */
    method ResetAllFilters()
      requires Valid()
      modifies this`selections, this`available, this`currentTrajectory, this`currentStepIndex, this`stepInput, this`isPlaying
      ensures Valid()
      ensures selections == NO_FILTER
      ensures currentStepIndex == 0 && !isPlaying
      ensures stepInput == if old(currentStepIndex) != 0 then "1" else old(stepInput)
      ensures |allData| > 0 ==> currentTrajectory == CommittedTrajectory(allData, NO_FILTER)
    {
      if selections != NO_FILTER {
        ClearSelections();
      } else {
        Rewind();
      }
    }

    /** The reset when some selection is not `'all'`: the state changes, then the filter effect runs. */
    method ClearSelections()
      requires IndexInBounds()
      modifies this`selections, this`available, this`currentTrajectory, this`currentStepIndex, this`stepInput, this`isPlaying
      ensures Valid()
      ensures selections == NO_FILTER
      ensures currentStepIndex == 0 && !isPlaying
      ensures stepInput == if old(currentStepIndex) != 0 then "1" else old(stepInput)
      ensures |allData| > 0 ==> currentTrajectory == CommittedTrajectory(allData, NO_FILTER)
    {
      NoFilterSettles(allData);
      selections := NO_FILTER;
      Rewind();
      var _ := RunFilterEffect();
    }

    /** `nextStep`: one step forward, saturating at the last step. */
    method NextStep()
      requires IndexInBounds()
      modifies this`currentStepIndex, this`stepInput
      ensures IndexInBounds()
      ensures currentStepIndex == if old(currentStepIndex) < |currentTrajectory| - 1 then old(currentStepIndex) + 1 else old(currentStepIndex)
      ensures stepInput == if currentStepIndex != old(currentStepIndex) then DecimalString(currentStepIndex + 1) else old(stepInput)
    {
      if currentStepIndex < |currentTrajectory| - 1 {
        SetStepIndex(currentStepIndex + 1);
      }
    }

    /** `prevStep`: one step back, saturating at the first step. */
    method PrevStep()
      requires IndexInBounds()
      modifies this`currentStepIndex, this`stepInput
      ensures IndexInBounds()
      ensures currentStepIndex == if old(currentStepIndex) > 0 then old(currentStepIndex) - 1 else 0
      ensures stepInput == if currentStepIndex != old(currentStepIndex) then DecimalString(currentStepIndex + 1) else old(stepInput)
    {
      if currentStepIndex > 0 {
        SetStepIndex(currentStepIndex - 1);
      }
    }

    /** `togglePlayPause`: flips playing; at the last step it first rewinds to the first. */
    method TogglePlayPause()
      requires IndexInBounds()
      modifies this`currentStepIndex, this`stepInput, this`isPlaying
      ensures IndexInBounds()
      ensures isPlaying == !old(isPlaying)
      ensures currentStepIndex == if old(currentStepIndex) == |currentTrajectory| - 1 then 0 else old(currentStepIndex)
      ensures stepInput == if currentStepIndex != old(currentStepIndex) then "1" else old(stepInput)
    {
      if currentStepIndex == |currentTrajectory| - 1 {
        SetStepIndex(0);
      }
      isPlaying := !isPlaying;
    }

    /**
     * The auto-advance timer firing while playing: one step forward, or stop
     * playing at the last step. Nothing happens while paused.
     */
    method Tick()
      requires IndexInBounds()
      modifies this`currentStepIndex, this`stepInput, this`isPlaying
      ensures IndexInBounds()
      ensures !old(isPlaying) ==> currentStepIndex == old(currentStepIndex) && !isPlaying && stepInput == old(stepInput)
      ensures old(isPlaying) && old(currentStepIndex) < |currentTrajectory| - 1 ==>
        currentStepIndex == old(currentStepIndex) + 1 && isPlaying && stepInput == DecimalString(currentStepIndex + 1)
      ensures old(isPlaying) && old(currentStepIndex) >= |currentTrajectory| - 1 ==>
        currentStepIndex == old(currentStepIndex) && !isPlaying && stepInput == old(stepInput)
    {
      if !isPlaying {
        return;
      }
      if currentStepIndex < |currentTrajectory| - 1 {
        SetStepIndex(currentStepIndex + 1);
      } else {
        isPlaying := false;
      }
    }

    /** `handleStepInputChange`: the buffer takes whatever was typed. */
    method ChangeStepInput(value: string)
      modifies this`stepInput
      ensures stepInput == value
    {
      stepInput := value;
    }

    /**
     * `handleStepInputSubmit`: only the Enter key (`key`) or leaving the
     * field (`eventType == "blur"`) submits the step input. A step number
     * of the trajectory jumps to that step and pauses; anything else
     * restores the buffer to the current step number.
     */
    method SubmitStepInput(key: string, eventType: string)
      requires IndexInBounds()
      modifies this`currentStepIndex, this`stepInput, this`isPlaying
      ensures IndexInBounds()
      ensures key != "Enter" && eventType != "blur" ==>
        currentStepIndex == old(currentStepIndex) && stepInput == old(stepInput) && isPlaying == old(isPlaying)
      ensures (key == "Enter" || eventType == "blur") ==>
        match StepTarget(old(stepInput), |currentTrajectory|)
        case Some(i) =>
          currentStepIndex == i && !isPlaying
          && stepInput == if i != old(currentStepIndex) then DecimalString(i + 1) else old(stepInput)
        case None =>
          currentStepIndex == old(currentStepIndex) && isPlaying == old(isPlaying)
          && stepInput == DecimalString(currentStepIndex + 1)
    {
      if key == "Enter" || eventType == "blur" {
        ApplyStepInput();
      }
    }

    /** The submission itself: jump to the requested step and pause, or restore the buffer. */
    method ApplyStepInput()
      requires IndexInBounds()
      modifies this`currentStepIndex, this`stepInput, this`isPlaying
      ensures IndexInBounds()
      ensures match StepTarget(old(stepInput), |currentTrajectory|)
        case Some(i) =>
          currentStepIndex == i && !isPlaying
          && stepInput == if i != old(currentStepIndex) then DecimalString(i + 1) else old(stepInput)
        case None =>
          currentStepIndex == old(currentStepIndex) && isPlaying == old(isPlaying)
          && stepInput == DecimalString(currentStepIndex + 1)
    {
      var target := StepTarget(stepInput, |currentTrajectory|);
      if target.Some? {
        SetStepIndex(target.value);
        isPlaying := false;
      } else {
        stepInput := DecimalString(currentStepIndex + 1);
      }
    }

    /**
     * The navigation handlers keep the whole invariant: they change only the
     * step index, the step input and the playing flag, none of which the
     * rest of `Valid` depends on, and they keep the index in bounds.
     */
    twostate lemma NavigationKeepsValid()
      requires old(Valid())
      requires unchanged(this`allData, this`selections, this`currentTrajectory, this`available)
      requires IndexInBounds()
      ensures Valid()
    {
    }

    /** With records loaded, the trajectory is never empty: some record always matches. */
    lemma LoadedTrajectoryNonEmpty()
      requires Valid() && |allData| > 0
      ensures |currentTrajectory| > 0
      ensures currentStepIndex < |currentTrajectory|
    {
    }
  }
}
