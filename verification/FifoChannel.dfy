/** What both write queues promise: a first-in-first-out channel, with nothing lost, doubled or
    overtaken between what was accepted and what was delivered. */
module FifoChannel {

  datatype Channel<M> = Channel(accepted: seq<M>, delivered: seq<M>)

  ghost predicate Valid<M>(c: Channel<M>) {
    c.delivered <= c.accepted
  }

  /** One move of the channel: accept a message, deliver the oldest undelivered one, or rest. */
  ghost predicate Next<M>(c: Channel<M>, d: Channel<M>) {
    || d == c
    || (d.delivered == c.delivered && |d.accepted| == |c.accepted| + 1 && c.accepted <= d.accepted)
    || (&& d.accepted == c.accepted && |c.delivered| < |c.accepted|
        && d.delivered == c.delivered + [c.accepted[|c.delivered|]])
  }

  /** So what is delivered is always the beginning of what was accepted, and neither is ever taken back. */
  lemma NextKeepsValid<M>(c: Channel<M>, d: Channel<M>)
    requires Valid(c) && Next(c, d)
    ensures Valid(d) && c.accepted <= d.accepted && c.delivered <= d.delivered
    ensures |d.delivered| <= |c.delivered| + 1 && |d.accepted| <= |c.accepted| + 1
  {
  }
}
