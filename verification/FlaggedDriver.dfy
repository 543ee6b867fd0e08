/** The flagged message driver: a publisher that sends each message to one of two drivers, and a subscriber that merges
    what the two deliver. */
module FlaggedDriver {
  import opened Wrappers

  type Message = nat

  /** The messages whose flag has the given value, in their order. */
  function Routed(messages: seq<Message>, flags: seq<bool>, experiment: bool): seq<Message>
    requires |flags| == |messages|
  {
    if messages == [] then []
    else
      var n := |messages| - 1;
      Routed(messages[..n], flags[..n], experiment) + if flags[n] == experiment then [messages[n]] else []
  }

  /** `out` consists of the elements of `xs` and of `ys`, each list in its order. */
  predicate Interleaves(out: seq<Message>, xs: seq<Message>, ys: seq<Message>) {
    if out == [] then xs == [] && ys == []
    else
      var n, last := |out| - 1, out[|out| - 1];
      || (xs != [] && xs[|xs| - 1] == last && Interleaves(out[..n], xs[..|xs| - 1], ys))
      || (ys != [] && ys[|ys| - 1] == last && Interleaves(out[..n], xs, ys[..|ys| - 1]))
  }

  lemma {:induction false} InterleavingContents(out: seq<Message>, xs: seq<Message>, ys: seq<Message>)
    requires Interleaves(out, xs, ys)
    ensures multiset(out) == multiset(xs) + multiset(ys)
  {
    if out == [] {
    } else {
      var n := |out| - 1;
      assert out == out[..n] + [out[n]];
      if xs != [] && xs[|xs| - 1] == out[n] && Interleaves(out[..n], xs[..|xs| - 1], ys) {
        InterleavingContents(out[..n], xs[..|xs| - 1], ys);
        assert xs == xs[..|xs| - 1] + [out[n]];
      } else {
        InterleavingContents(out[..n], xs, ys[..|ys| - 1]);
        assert ys == ys[..|ys| - 1] + [out[n]];
      }
    }
  }

  /** Both streams appear in order: there are increasing positions at which `out` shows them, and no position belongs
      to both. */
  lemma {:induction false} InterleavingKeepsOrder(out: seq<Message>, xs: seq<Message>, ys: seq<Message>)
    returns (atX: seq<nat>, atY: seq<nat>)
    requires Interleaves(out, xs, ys)
    ensures |atX| == |xs| && |atY| == |ys| && |out| == |xs| + |ys|
    ensures forall k :: 0 <= k < |xs| ==> atX[k] < |out| && out[atX[k]] == xs[k]
    ensures forall k :: 0 <= k < |ys| ==> atY[k] < |out| && out[atY[k]] == ys[k]
    ensures forall k, m :: 0 <= k < m < |xs| ==> atX[k] < atX[m]
    ensures forall k, m :: 0 <= k < m < |ys| ==> atY[k] < atY[m]
    ensures forall k, m :: 0 <= k < |xs| && 0 <= m < |ys| ==> atX[k] != atY[m]
  {
    if out == [] {
      atX, atY := [], [];
    } else {
      var n := |out| - 1;
      if xs != [] && xs[|xs| - 1] == out[n] && Interleaves(out[..n], xs[..|xs| - 1], ys) {
        atX, atY := InterleavingKeepsOrder(out[..n], xs[..|xs| - 1], ys);
        atX := atX + [n];
      } else {
        atX, atY := InterleavingKeepsOrder(out[..n], xs, ys[..|ys| - 1]);
        atY := atY + [n];
      }
    }
  }

  /** What goes to one driver are the messages whose flag names it, each once, in the order of publication. */
  lemma {:induction false} RoutedPositions(messages: seq<Message>, flags: seq<bool>, experiment: bool)
    returns (at: seq<nat>)
    requires |flags| == |messages|
    ensures |at| == |Routed(messages, flags, experiment)|
    ensures forall k :: 0 <= k < |at| ==> at[k] < |messages| && flags[at[k]] == experiment
                                          && Routed(messages, flags, experiment)[k] == messages[at[k]]
    ensures forall k, m :: 0 <= k < m < |at| ==> at[k] < at[m]
    ensures forall i :: 0 <= i < |messages| && flags[i] == experiment ==> i in at
  {
    if messages == [] {
      at := [];
    } else {
      var n := |messages| - 1;
      at := RoutedPositions(messages[..n], flags[..n], experiment);
      if flags[n] == experiment {
        at := at + [n];
      }
    }
  }

  lemma {:induction false} RoutingSplits(messages: seq<Message>, flags: seq<bool>)
    requires |flags| == |messages|
    ensures multiset(messages) == multiset(Routed(messages, flags, false)) + multiset(Routed(messages, flags, true))
  {
    if messages == [] {
    } else {
      var n := |messages| - 1;
      RoutingSplits(messages[..n], flags[..n]);
      assert messages == messages[..n] + [messages[n]];
    }
  }

  /** Whatever the flags say, a subscriber that has seen both drivers close has emitted every message exactly as often
      as it was published. */
  lemma DeliversExactlyOnce(messages: seq<Message>, flags: seq<bool>, out: seq<Message>)
    requires |flags| == |messages|
    requires Interleaves(out, Routed(messages, flags, false), Routed(messages, flags, true))
    ensures multiset(out) == multiset(messages)
  {
    RoutingSplits(messages, flags);
    InterleavingContents(out, Routed(messages, flags, false), Routed(messages, flags, true));
  }

  class Driver {
    /** What each driver has accepted. */
    var base: seq<Message>
    var experiment: seq<Message>

    constructor ()
      ensures base == experiment == []
    {
      base, experiment := [], [];
    }

    /** Publishes in order, each message to the driver its flag names, and stops at the first that is refused. */
    method Publish(messages: seq<Message>, flags: seq<bool>, refused: seq<bool>) returns (sent: nat)
      requires |flags| == |messages| == |refused|
      modifies this
      ensures sent <= |messages| && (sent < |messages| ==> refused[sent])
      ensures forall i :: 0 <= i < sent ==> !refused[i]
      ensures base == old(base) + Routed(messages[..sent], flags[..sent], false)
      ensures experiment == old(experiment) + Routed(messages[..sent], flags[..sent], true)
    {
      sent := 0;
      while sent < |messages|
        invariant sent <= |messages| && forall i :: 0 <= i < sent ==> !refused[i]
        invariant base == old(base) + Routed(messages[..sent], flags[..sent], false)
        invariant experiment == old(experiment) + Routed(messages[..sent], flags[..sent], true)
      {
        if refused[sent] {
          return;
        }
        assert messages[..sent + 1][..sent] == messages[..sent] && flags[..sent + 1][..sent] == flags[..sent];
        if flags[sent] {
          experiment := experiment + [messages[sent]];
        } else {
          base := base + [messages[sent]];
        }
        sent := sent + 1;
      }
    }
  }

  /** Merges two subscriptions. `base` and `experiment` are what each delivers until it closes; a drained channel is
      set to None. `done(n)` says whether the context has ended when the loop selects for the n-th time; which of the
      ready channels is then taken is not determined. The loop stops early only if the context has ended, and every
      turn before forwarded a message or found a channel closed. */
  method Subscribe(base: seq<Message>, experiment: seq<Message>, done: nat -> bool)
    returns (out: seq<Message>, cancelled: bool)
    ensures cancelled ==> exists n: nat :: done(n) && |out| <= n <= |out| + 1
    ensures exists b, e :: 0 <= b <= |base| && 0 <= e <= |experiment|
                           && Interleaves(out, base[..b], experiment[..e])
    ensures !cancelled ==> Interleaves(out, base, experiment)
  {
    var baseRest, experimentRest := Some(base), Some(experiment);
    out, cancelled := [], false;
    var turn: nat := 0;
    ghost var b, e := 0, 0;
    while baseRest.Some? || experimentRest.Some?
      invariant 0 <= b <= |base| && 0 <= e <= |experiment| && Interleaves(out, base[..b], experiment[..e])
      invariant if baseRest.Some? then baseRest.value == base[b..] else b == |base|
      invariant if experimentRest.Some? then experimentRest.value == experiment[e..] else e == |experiment|
      invariant turn == |out| + (if baseRest.None? then 1 else 0) + (if experimentRest.None? then 1 else 0)
      decreases (if baseRest.Some? then 1 + |baseRest.value| else 0)
                + if experimentRest.Some? then 1 + |experimentRest.value| else 0
    {
      if {
        case baseRest.Some? =>
          if baseRest.value == [] {
            baseRest := None;
          } else {
            assert base[..b + 1][..b] == base[..b] && (out + [base[b]])[..|out|] == out;
            out := out + [baseRest.value[0]];
            baseRest := Some(baseRest.value[1..]);
            b := b + 1;
          }
        case experimentRest.Some? =>
          if experimentRest.value == [] {
            experimentRest := None;
          } else {
            assert experiment[..e + 1][..e] == experiment[..e] && (out + [experiment[e]])[..|out|] == out;
            out := out + [experimentRest.value[0]];
            experimentRest := Some(experimentRest.value[1..]);
            e := e + 1;
          }
        case done(turn) =>
          cancelled := true;
          return;
      }
      turn := turn + 1;
    }
    assert base[..b] == base && experiment[..e] == experiment;
  }
}
