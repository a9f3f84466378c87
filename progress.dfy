/**
 * The progress reporter handed to the review pipeline, in both the review panel
 * and the chat participant: it remembers the last message it passed on and
 * drops empty messages and immediate repeats.
 */
module Progress {

  /** `message && message !== progress.lastMessage`. */
  predicate ShouldForward(message: string, lastMessage: string) {
    message != [] && message != lastMessage
  }

  /** The last message of `ms`, or the initial `''` when there is none. */
  function LastOf(ms: seq<string>): string {
    if ms == [] then "" else ms[|ms| - 1]
  }

  /** What a fresh reporter passes on when `reports` are reported to it in order. */
  function Forwarded(reports: seq<string>): seq<string> {
    if reports == [] then []
    else
      var before := Forwarded(reports[..|reports| - 1]);
      var m := reports[|reports| - 1];
      if ShouldForward(m, LastOf(before)) then before + [m] else before
  }

  /** No message is empty and no message repeats the one before it. */
  ghost predicate NoStutter(ms: seq<string>) {
    && (forall i :: 0 <= i < |ms| ==> ms[i] != [])
    && (forall i :: 0 < i < |ms| ==> ms[i] != ms[i - 1])
  }

  /** What is passed on has no empty message and no immediate repeat. */
  lemma {:induction false} ForwardedNoStutter(reports: seq<string>)
    ensures NoStutter(Forwarded(reports))
  {
    if reports != [] {
      ForwardedNoStutter(reports[..|reports| - 1]);
    }
  }

  /** Everything passed on was reported, in the same order: the forwarded list is a subsequence of the reports. */
  lemma {:induction false} ForwardedSubsequence(reports: seq<string>) returns (idx: seq<nat>)
    ensures |idx| == |Forwarded(reports)|
    ensures forall k :: 0 <= k < |idx| ==> idx[k] < |reports| && reports[idx[k]] == Forwarded(reports)[k]
    ensures forall k, l :: 0 <= k < l < |idx| ==> idx[k] < idx[l]
  {
    if reports == [] {
      idx := [];
    } else {
      var n := |reports| - 1;
      var front := reports[..n];
      var before := Forwarded(front);
      idx := ForwardedSubsequence(front);
      if ShouldForward(reports[n], LastOf(before)) {
        idx := idx + [n];
      }
    }
  }

  /** A list already free of empties and repeats passes through unchanged. */
  lemma {:induction false} ForwardedOfClean(ms: seq<string>)
    requires NoStutter(ms)
    ensures Forwarded(ms) == ms
  {
    if ms != [] {
      var front := ms[..|ms| - 1];
      assert NoStutter(front);
      ForwardedOfClean(front);
      assert ms == front + [ms[|ms| - 1]];
    }
  }

  /** Forwarding is idempotent. */
  lemma ForwardedIdempotent(reports: seq<string>)
    ensures Forwarded(Forwarded(reports)) == Forwarded(reports)
  {
    ForwardedNoStutter(reports);
    ForwardedOfClean(Forwarded(reports));
  }

  /**
   * The `progress` object. `posted` records the messages passed on to the
   * webview (or the chat stream); the ghost `reports` records every call.
   */
  class Reporter {
    var lastMessage: string
    var posted: seq<string>
    ghost var reports: seq<string>

    ghost predicate Valid()
      reads this
    {
      posted == Forwarded(reports) && lastMessage == LastOf(posted)
    }

    constructor()
      ensures Valid() && reports == [] && posted == [] && lastMessage == ""
    {
      lastMessage := "";
      posted := [];
      reports := [];
    }

    /** `progress.report({ message })`. */
    method Report(message: string)
      requires Valid()
      modifies this
      ensures Valid() && reports == old(reports) + [message]
      ensures ShouldForward(message, old(lastMessage)) ==> posted == old(posted) + [message] && lastMessage == message
      ensures !ShouldForward(message, old(lastMessage)) ==> posted == old(posted) && lastMessage == old(lastMessage)
    {
      if message != [] && message != lastMessage {
        posted := posted + [message];
        lastMessage := message;
      }
      reports := reports + [message];
      assert reports[..|reports| - 1] == old(reports);
    }
  }
}
