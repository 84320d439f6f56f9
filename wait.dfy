/** The wait both call kinds perform, without threads or clocks: each
    Received event during the wait makes one TryRead, recorded in order
    (None when TryRead returned false); the callback keeps the first report
    its acceptance rule takes. */
module Waits {
  import opened Common
  import opened Reports

  function FirstAccepted(accept: Report -> bool, received: seq<Option<Report>>): (r: Option<Report>)
    ensures r.Some? ==> accept(r.value)
  {
    if received == [] then None
    else if received[0].Some? && accept(received[0].value) then received[0]
    else FirstAccepted(accept, received[1..])
  }

  /** FirstAccepted is the earliest accepted report, and nothing only when
      no report was accepted. */
  lemma {:induction false} FirstAcceptedIsEarliest(accept: Report -> bool, received: seq<Option<Report>>)
    ensures FirstAccepted(accept, received).None? <==>
              forall k :: 0 <= k < |received| && received[k].Some? ==> !accept(received[k].value)
    ensures forall k :: 0 <= k < |received| && received[k].Some? && accept(received[k].value)
                        && (forall j :: 0 <= j < k && received[j].Some? ==> !accept(received[j].value)) ==>
              FirstAccepted(accept, received) == received[k]
  {
    if received != [] {
      var tail := received[1..];
      FirstAcceptedIsEarliest(accept, tail);
      assert forall k :: 0 <= k < |tail| ==> tail[k] == received[k + 1];
      if FirstAccepted(accept, received).None? {
        forall k | 0 <= k < |received| && received[k].Some?
          ensures !accept(received[k].value)
        {
          if k > 0 {
            assert received[k] == tail[k - 1];
          }
        }
      }
    }
  }
}
