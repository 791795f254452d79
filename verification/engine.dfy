/**
 * What both store versions share: the outcome record of an operation and the
 * way a caller-supplied callback acts on the working copy.
 */
module Engine {
  import opened Wrappers
  import opened Json
  import opened Disk

  /**
   * The state after an operation on a store: its new in-memory state, the file
   * system, and the error it threw, if any.
   */
  datatype Step<S, E> = Step(store: S, fs: FileSystem, error: Option<E>)

  /**
   * The working copy after a callback ran on it. The callback is handed the
   * store's value by reference: it can change the members of an object or the
   * elements of an array in place, but it cannot rebind the store's field,
   * turn an object into an array or change a primitive. `effect` gives the
   * value the callback leaves behind; an effect that changes the kind of value
   * is not something a callback can do, and leaves the working copy as it was.
   * What the callback returns (awaited when it is a Promise) is discarded.
   */
  function InPlace(effect: JVal -> JVal, v: JVal): (r: JVal)
    ensures r.JObj? <==> v.JObj?
    ensures r.JArr? <==> v.JArr?
    ensures !v.JObj? && !v.JArr? ==> r == v
    ensures (v.JObj? && effect(v).JObj?) || (v.JArr? && effect(v).JArr?) ==> r == effect(v)
  {
    match v
    case JObj(_) => if effect(v).JObj? then effect(v) else v
    case JArr(_) => if effect(v).JArr? then effect(v) else v
    case _ => v
  }
}
