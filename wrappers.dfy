/** Failure-carrying results for the converter's fatal data errors. */
module Wrappers {

  /** The conditions under which the converter raises instead of producing output. */
  datatype Error =
    | MissingSpace(ref: string)    // a reference with no space between book and chapter
    | MissingColon(ref: string)    // a reference whose rest has no colon between chapter and verse
    | NotAnInteger(key: string)    // a chapter or verse key that int() rejects

  datatype Result<+T> = Ok(value: T) | Err(error: Error)

  datatype Option<+T> = None | Some(value: T)

  /** A run of steps that may each fail, taken in order: the first failure stops the
      run; otherwise the run yields every step's value, in order. */
  function Collect<T>(rs: seq<Result<T>>): Result<seq<T>>
  {
    if rs == [] then Ok([])
    else
      match Collect(rs[..|rs| - 1])
      case Err(e) => Err(e)
      case Ok(done) =>
        match rs[|rs| - 1]
        case Err(e) => Err(e)
        case Ok(v) => Ok(done + [v])
  }

  /** A run succeeds exactly when every step does, and then yields one value per step,
      in step order. */
  lemma {:induction false} CollectEach<T>(rs: seq<Result<T>>)
    ensures Collect(rs).Ok? <==> forall i :: 0 <= i < |rs| ==> rs[i].Ok?
    ensures Collect(rs).Ok? ==>
      |Collect(rs).value| == |rs| && forall i :: 0 <= i < |rs| ==> rs[i] == Ok(Collect(rs).value[i])
  {
    if rs != [] {
      var init := rs[..|rs| - 1];
      CollectEach(init);
      assert forall i :: 0 <= i < |init| ==> init[i] == rs[i];
    }
  }

  /** A failing run reports the failure of its first failing step. */
  lemma {:induction false} CollectFirstError<T>(rs: seq<Result<T>>)
    requires Collect(rs).Err?
    ensures exists k :: 0 <= k < |rs| && rs[k] == Err(Collect(rs).error) && forall i :: 0 <= i < k ==> rs[i].Ok?
  {
    var init := rs[..|rs| - 1];
    if Collect(init).Err? {
      CollectFirstError(init);
      var k :| 0 <= k < |init| && init[k] == Err(Collect(init).error) && forall i :: 0 <= i < k ==> init[i].Ok?;
      assert rs[k] == init[k];
      assert forall i :: 0 <= i < k ==> rs[i] == init[i];
    } else {
      CollectEach(init);
      assert forall i :: 0 <= i < |init| ==> rs[i] == init[i];
    }
  }

  /** Once a prefix of the steps fails, the whole run fails the same way. */
  lemma {:induction false} CollectErrorPersists<T>(rs: seq<Result<T>>, k: nat)
    requires k <= |rs| && Collect(rs[..k]).Err?
    ensures Collect(rs) == Collect(rs[..k])
    decreases |rs| - k
  {
    if k < |rs| {
      assert rs[..k + 1][..k] == rs[..k];
      CollectErrorPersists(rs, k + 1);
    } else {
      assert rs[..k] == rs;
    }
  }

  /** One more step: the run so far, then that step. */
  lemma CollectSnoc<T>(rs: seq<Result<T>>, k: nat)
    requires k < |rs|
    ensures Collect(rs[..k + 1]) ==
      match Collect(rs[..k])
      case Err(e) => Err(e)
      case Ok(done) =>
        match rs[k]
        case Err(e) => Err(e)
        case Ok(v) => Ok(done + [v])
  {
    assert rs[..k + 1][..k] == rs[..k];
  }
}
