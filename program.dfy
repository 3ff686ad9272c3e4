/**
  The firmware's debug log: every message is appended to a queue that the
  status page reads, and the queue is cut back to its newest 150 entries.
 */
module Program {

  /** The most messages the queue keeps. */
  const LogCapacity := 150

  /** The queue after dropping from the head while it holds more than 150 messages. */
  function Retained(q: seq<string>): (r: seq<string>)
    ensures |r| == if |q| <= LogCapacity then |q| else LogCapacity
    ensures r == q[|q| - |r|..]
    decreases |q|
  {
    if |q| > LogCapacity then Retained(q[1..]) else q
  }

  /** The static state of Program that Log touches. */
  class Program {
    var webLog: seq<string>

    /** Program.Main starts with an empty queue. */
    constructor ()
      ensures webLog == []
    {
      webLog := [];
    }

    /** Log: enqueue the message, then dequeue while the count exceeds 150. */
    method Log(message: string)
      modifies this
      ensures webLog == Retained(old(webLog) + [message])
    {
      webLog := webLog + [message];
      while |webLog| > LogCapacity
        invariant Retained(webLog) == Retained(old(webLog) + [message])
        decreases |webLog|
      {
        webLog := webLog[1..];
      }
    }
  }

  /** The message just logged is the newest entry and is never dropped by its own call. */
  lemma NewestIsLast(q: seq<string>, m: string)
    ensures Retained(q + [m]) != [] && Retained(q + [m])[|Retained(q + [m])| - 1] == m
  {
  }

  /** Below capacity nothing is dropped. */
  lemma NoEvictionBelowCapacity(q: seq<string>, m: string)
    requires |q| < LogCapacity
    ensures Retained(q + [m]) == q + [m]
  {
  }
}
