/**
 * The two automatic timestamp fields of a model, `created_at`
 * (`auto_now_add=True`) and `updated_at` (`auto_now=True`). Neither is set
 * when the object is built; the framework fills both while saving it, from
 * the clock reading `now` that the caller supplies.
 */
module Timestamps {
  import opened Wrappers

  /** `auto_now_add`: the first save records the time; later saves keep it. */
  function AddedOnSave(stamp: Option<int>, now: int): Option<int> {
    if stamp.None? then Some(now) else stamp
  }

  /** A saved object carries both stamps; an unsaved one neither, and it was never updated before it was created. */
  predicate Consistent(created: Option<int>, updated: Option<int>) {
    created.Some? == updated.Some? &&
    (created.Some? ==> created.value <= updated.value)
  }

  /** After any save the creation stamp is set, and it is never later than that save. */
  lemma SaveSetsCreation(created: Option<int>, now: int)
    requires created.Some? ==> created.value <= now
    ensures AddedOnSave(created, now).Some? && AddedOnSave(created, now).value <= now
  {}

  /** The creation time of the first save survives every later save, whatever the clock says then. */
  lemma CreationKept(created: Option<int>, now: int, later: int)
    ensures AddedOnSave(AddedOnSave(created, now), later) == AddedOnSave(created, now)
    ensures created.Some? ==> AddedOnSave(created, later) == created
  {}

  /**
   * `auto_now` makes every save record `now` as the update time. With a clock
   * that never runs backwards, a save keeps the two stamps consistent.
   */
  lemma SaveKeepsConsistent(created: Option<int>, updated: Option<int>, now: int)
    requires Consistent(created, updated)
    requires updated.Some? ==> updated.value <= now
    ensures Consistent(AddedOnSave(created, now), Some(now))
  {}
}
