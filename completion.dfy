/** The completion rule that the consumer's handler and the producer's delivery
    loop share: a counter starts at zero, is bumped by one per counted event,
    and a signal is sent whenever the bumped value equals the batch size. */
module Completion {

  /** How many signals have been sent once the counter has been bumped `bumps`
      times: exactly one as soon as `seedSize` bumps have happened (for a
      positive batch size), none before, and never a second one, since the
      counter only grows and so equals `seedSize` at one bump at most. */
  function SignalsAfter(seedSize: int, bumps: nat): (signals: nat)
    ensures signals <= 1
    ensures signals == 1 <==> 1 <= seedSize <= bumps
  {
    if bumps == 0 then 0
    else SignalsAfter(seedSize, bumps - 1) + (if bumps == seedSize then 1 else 0)
  }
}
