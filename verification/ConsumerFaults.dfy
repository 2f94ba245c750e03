/** What a fault makes of a consumer's pass over a batch. */
module ConsumerFaults {
  import opened ChatSync
  import opened EventLog

  /** Without a fault a batch is handled whole; a handler that raises leaves its event and those after it. */
  lemma WhatFaultsDo(batch: seq<Event>, fault: Fault)
    ensures HandledBy(batch, fault) ==
            match fault
            case None => |batch|
            case DeleteFails => |batch|
            case ListFails => 0
            case HandlerFails(at) => if at < |batch| then at else |batch|
    ensures Completes(batch, fault) <==> batch != [] && (fault == None || (fault.HandlerFails? && fault.at >= |batch|))
  {
  }
}
