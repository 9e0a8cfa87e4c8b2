/** What a port takes of the octets a transport wants to send (write_to_port in
    emodbus/transport/rtu.c:157-166 and tcp.c:192-199): each write, as many as it grants. */
module Ports {
  import opened Words

  // What the port takes of the unsent octets over a schedule of writes.
  function Taken(unsent: seq<byte>, grants: seq<nat>): (t: seq<byte>)
    decreases |grants|
  {
    if grants == [] then []
    else
      var n := if grants[0] < |unsent| then grants[0] else |unsent|;
      unsent[..n] + Taken(unsent[n..], grants[1..])
  }

  function Sum(grants: seq<nat>): nat { if grants == [] then 0 else grants[0] + Sum(grants[1..]) }

  // The line gets the octets in order, and all of them exactly when the grants add up.
  lemma {:induction false} TakenAll(unsent: seq<byte>, grants: seq<nat>)
    ensures var t := Taken(unsent, grants);
            && |t| == (if Sum(grants) < |unsent| then Sum(grants) else |unsent|)
            && t == unsent[..|t|]
    decreases |grants|
  {
    if grants != [] {
      var n := if grants[0] < |unsent| then grants[0] else |unsent|;
      TakenAll(unsent[n..], grants[1..]);
      var rest := Taken(unsent[n..], grants[1..]);
      assert unsent[n..][..|rest|] == unsent[n..n + |rest|];
      assert unsent[..n] + unsent[n..n + |rest|] == unsent[..n + |rest|];
    }
  }
}
