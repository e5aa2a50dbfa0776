/**
 * The teardown observer: one replaceable slot, consulted whenever a pool that
 * owns a buffer is destroyed. The slot is an object passed to whoever destroys
 * pools rather than a global.
 */
module Diagnostics {
  import opened Stats

  /**
   * The default observer prints the record (printing is not modelled); an
   * installed callback is known by an identity and by whether it throws.
   */
  datatype Observer = PrintPoolInfo | Callback(id: nat, throws: bool)

  /** One invocation of an observer with a final record. */
  datatype Report = Report(observer: Observer, info: PoolInfo)

  class Hub {
    var observer: Observer
    ghost var log: seq<Report>

    /** Starts with the printing observer and no reports. */
    constructor ()
      ensures observer == PrintPoolInfo && log == []
    {
      observer := PrintPoolInfo;
      log := [];
    }

    /** Replaces the observer; every later teardown reports to the new one. */
    method SetOnPoolDest(o: Observer)
      modifies this
      ensures observer == o && log == old(log)
    {
      observer := o;
    }

    /**
     * Invokes the current observer once with the record. An exception it
     * throws is caught and discarded here; swallowed says whether one was.
     */
    method Notify(info: PoolInfo) returns (swallowed: bool)
      modifies this
      ensures observer == old(observer)
      ensures log == old(log) + [Report(observer, info)]
      ensures swallowed <==> observer.Callback? && observer.throws
    {
      log := log + [Report(observer, info)];
      swallowed := observer.Callback? && observer.throws;
    }
  }
}
