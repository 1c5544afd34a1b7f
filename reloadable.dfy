/**
 * lectern-core's Reloadable interface: the initialisation check and the two
 * default methods that combine `reload` and `save`, as the sequence of steps
 * they run.
 */
module Reloadable {
  import opened Wrappers
  import opened Errors

  /** The two operations a reloadable object provides. */
  datatype Step = Reload | Save

  /** `checkInit()`: the file, or ConfigNotInitializedException when `file()` is null. */
  function CheckInit(file: Option<string>): (r: Result<string>)
    ensures r.Ok? <==> file.Some?
    ensures r.Ok? ==> r.value == file.value
    ensures r.Err? ==> r.error == NotInitialized
  {
    match file
    case None => Err(NotInitialized)
    case Some(f) => Ok(f)
  }

  /** `reloadOrSave()`: reload when the file exists, save when it does not. */
  function ReloadOrSavePlan(file: Option<string>, present: bool): (r: Result<seq<Step>>)
    ensures r.Err? <==> file.None?
    ensures r.Err? ==> r.error == NotInitialized
    ensures r.Ok? ==> |r.value| == 1 && (r.value[0] == Reload <==> present)
  {
    match CheckInit(file)
    case Err(e) => Err(e)
    case Ok(_) => if present then Ok([Reload]) else Ok([Save])
  }

  /** `reloadAndSave()`: reload when the file exists, and then save in every case. */
  function ReloadAndSavePlan(file: Option<string>, present: bool): (r: Result<seq<Step>>)
    ensures r.Err? <==> file.None?
    ensures r.Err? ==> r.error == NotInitialized
    ensures r.Ok? ==> |r.value| > 0 && r.value[|r.value| - 1] == Save
    ensures r.Ok? ==> (Reload in r.value <==> present) && (present ==> r.value == [Reload, Save])
  {
    match CheckInit(file)
    case Err(e) => Err(e)
    case Ok(_) => if present then Ok([Reload, Save]) else Ok([Save])
  }

  /** On a missing file the two methods agree: both only save. */
  lemma PlansAgreeWithoutFile(file: Option<string>)
    ensures ReloadOrSavePlan(file, false) == ReloadAndSavePlan(file, false)
    ensures file.Some? ==> ReloadOrSavePlan(file, false) == Ok([Save])
  {
  }

  /** On an existing file `reloadAndSave` is `reloadOrSave` followed by a save. */
  lemma ReloadAndSaveExtends(file: string)
    ensures ReloadAndSavePlan(Some(file), true).value == ReloadOrSavePlan(Some(file), true).value + [Save]
  {
  }
}
