/**
 * The relay task (`manage_messages`): the single consumer of the inbound
 * channel that every session posts to, republishing each message on the
 * broadcast channel every session and the push dispatcher read from.
 *
 * The loop never ends on its own, so it is modelled over a finite prefix of
 * its input: the messages received in order, the number of live broadcast
 * receivers at the moment each one is republished, and whether the inbound
 * channel is closed once they are drained.
 */
module Relay {

  import opened ChatMessages

  /** Capacity of the inbound and of the broadcast channel at startup. */
  const InboundCapacity := 100
  const BroadcastCapacity := 100

  const ClosingPanic := "Message channel is closing"

  /** Where the loop stands after the given input: blocked on the next receive, or panicked. */
  datatype Outcome = Waiting | Panicked(message: string)

  /** The broadcast log: the received messages that met at least one live receiver. */
  function Broadcasts(inbound: seq<ChatMessage>, receivers: seq<nat>): seq<ChatMessage>
    requires |receivers| == |inbound|
    decreases |inbound|
  {
    if inbound == [] then []
    else
      var n := |inbound| - 1;
      Broadcasts(inbound[..n], receivers[..n]) + (if receivers[n] > 0 then [inbound[n]] else [])
  }

  /** The messages logged and dropped because nobody was listening. */
  function Dropped(inbound: seq<ChatMessage>, receivers: seq<nat>): seq<ChatMessage>
    requires |receivers| == |inbound|
    decreases |inbound|
  {
    if inbound == [] then []
    else
      var n := |inbound| - 1;
      Dropped(inbound[..n], receivers[..n]) + (if receivers[n] == 0 then [inbound[n]] else [])
  }

  /** `xs` is `ys` with some elements left out, the rest in their order. */
  predicate IsSubsequence<T(==)>(xs: seq<T>, ys: seq<T>)
    decreases |ys|
  {
    if xs == [] then true
    else if ys == [] then false
    else if xs[|xs| - 1] == ys[|ys| - 1] then IsSubsequence(xs[..|xs| - 1], ys[..|ys| - 1])
    else IsSubsequence(xs, ys[..|ys| - 1])
  }

  /**
   * The loop over the given input. Each received message is sent to the
   * broadcaster unchanged; a send that finds no receiver is logged and the
   * message dropped; a closed inbound channel makes the loop panic.
   */
  method ManageMessages(inbound: seq<ChatMessage>, receivers: seq<nat>, closed: bool)
    returns (broadcast: seq<ChatMessage>, dropped: seq<ChatMessage>, outcome: Outcome)
    requires |receivers| == |inbound|
    ensures broadcast == Broadcasts(inbound, receivers)
    ensures dropped == Dropped(inbound, receivers)
    ensures outcome == if closed then Panicked(ClosingPanic) else Waiting
  {
    broadcast, dropped := [], [];
    var i := 0;
    while i < |inbound|
      invariant 0 <= i <= |inbound|
      invariant broadcast == Broadcasts(inbound[..i], receivers[..i])
      invariant dropped == Dropped(inbound[..i], receivers[..i])
    {
      var message := inbound[i];
      if receivers[i] > 0 {
        broadcast := broadcast + [message];
      } else {
        dropped := dropped + [message];
      }
      assert inbound[..i + 1][..i] == inbound[..i];
      assert receivers[..i + 1][..i] == receivers[..i];
      i := i + 1;
    }
    assert inbound[..i] == inbound && receivers[..i] == receivers;
    outcome := if closed then Panicked(ClosingPanic) else Waiting;
  }

  /** Broadcast order is receive order, and nothing is broadcast twice. */
  lemma {:induction false} BroadcastIsSubsequence(inbound: seq<ChatMessage>, receivers: seq<nat>)
    requires |receivers| == |inbound|
    ensures IsSubsequence(Broadcasts(inbound, receivers), inbound)
    decreases |inbound|
  {
    if inbound != [] {
      var n := |inbound| - 1;
      BroadcastIsSubsequence(inbound[..n], receivers[..n]);
      var prefix := Broadcasts(inbound[..n], receivers[..n]);
      if receivers[n] > 0 {
        var b := prefix + [inbound[n]];
        assert b[..|b| - 1] == prefix;
        assert inbound[..|inbound| - 1] == inbound[..n];
      } else {
        assert Broadcasts(inbound, receivers) == prefix;
        SubsequenceOfLonger(prefix, inbound[..n], inbound[n]);
        assert inbound[..n] + [inbound[n]] == inbound;
      }
    }
  }

  lemma {:induction false} SubsequenceOfLonger<T>(xs: seq<T>, ys: seq<T>, y: T)
    requires IsSubsequence(xs, ys)
    ensures IsSubsequence(xs, ys + [y])
    decreases |ys|, 1
  {
    var zs := ys + [y];
    assert zs[..|zs| - 1] == ys;
    if xs != [] && xs[|xs| - 1] == y {
      SubsequenceDropLast(xs, ys);
    }
  }

  lemma {:induction false} SubsequenceDropLast<T>(xs: seq<T>, ys: seq<T>)
    requires xs != [] && IsSubsequence(xs, ys)
    ensures IsSubsequence(xs[..|xs| - 1], ys)
    decreases |ys|, 0
  {
    if ys != [] {
      var xs' := xs[..|xs| - 1];
      var ys' := ys[..|ys| - 1];
      assert ys' + [ys[|ys| - 1]] == ys;
      if xs[|xs| - 1] == ys[|ys| - 1] {
        SubsequenceOfLonger(xs', ys', ys[|ys| - 1]);
      } else {
        SubsequenceDropLast(xs, ys');
        SubsequenceOfLonger(xs', ys', ys[|ys| - 1]);
      }
    }
  }

  /** Every received message is either broadcast or dropped, exactly once. */
  lemma {:induction false} NothingInventedOrLost(inbound: seq<ChatMessage>, receivers: seq<nat>)
    requires |receivers| == |inbound|
    ensures multiset(Broadcasts(inbound, receivers)) + multiset(Dropped(inbound, receivers))
         == multiset(inbound)
    decreases |inbound|
  {
    if inbound != [] {
      var n := |inbound| - 1;
      NothingInventedOrLost(inbound[..n], receivers[..n]);
      assert inbound[..n] + [inbound[n]] == inbound;
    }
  }

  /** With at least one receiver at every send, the broadcast log is the input. */
  lemma {:induction false} AllBroadcastWhenListened(inbound: seq<ChatMessage>, receivers: seq<nat>)
    requires |receivers| == |inbound|
    requires forall i :: 0 <= i < |receivers| ==> receivers[i] > 0
    ensures Broadcasts(inbound, receivers) == inbound
    ensures Dropped(inbound, receivers) == []
    decreases |inbound|
  {
    if inbound != [] {
      var n := |inbound| - 1;
      AllBroadcastWhenListened(inbound[..n], receivers[..n]);
      assert inbound[..n] + [inbound[n]] == inbound;
    }
  }
}
