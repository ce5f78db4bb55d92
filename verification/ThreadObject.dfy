/**
  The thread object (struct rt_thread), with the fields that scheduling and
  waiting read and write.
*/
module ThreadObject {
  const EOK := 0
  const ERROR := -1
  const ETIMEOUT := -2
  const EFULL := -3

  /** event_set and event_info of a thread: the bits of an event it waits for,
      and later those it received; whether it waits for all or for any of them,
      and whether it clears what it receives.  A 32-bit word is the set of the
      numbers of its bits that are one. */
  datatype Ask = Ask(bits: set<nat>, all: bool, any: bool, clear: bool)

  datatype Stat = Init | Ready | Suspended | Closed

  class Thread {
    var currentPriority: int
    var stat: Stat
    // where the ready bitmap keeps the priority: computed with it
    var number: nat    // priority / 8, with more than 32 levels
    var groupBit: nat  // the bit of number_mask
    var highBit: nat   // the bit of high_mask
    var initPriority: int
    var initTick: int
    var remainingTick: int
    var error: int
    var ask: Ask

    /** rt_thread_init: what depends on the priority is left to the start. */
    constructor (priority: int, tick: int)
      ensures initPriority == priority && currentPriority == priority && stat == Init && error == EOK
      ensures initTick == tick && remainingTick == tick
    {
      initPriority, currentPriority, stat, error := priority, priority, Init, EOK;
      number, groupBit, highBit := 0, 0, 0;
      initTick, remainingTick, ask := tick, tick, Ask({}, false, false, false);
    }
  }
}
