/** The executor's event handler: which executions it runs, the registry of their cancel functions, and shutdown.
    Registry and flag are guarded by one mutex, so each critical section is one step; an execution's goroutine starts
    some time after it was registered, and ends at any time. */
module ExecutorHandler {
  /** The address of one message's cancel function. */
  type Handle = nat

  datatype Registry = Registry(
    closed: bool,
    cancels: seq<Handle>,
    cancelled: set<Handle>,               // cancel functions that were called
    registered: set<Handle>,              // registered, goroutine not yet started
    running: set<Handle>,
    used: set<Handle>)                    // every handle ever created

  datatype Step =
    | Register(handle: Handle)            // the critical section at the start of HandleEntityEvent
    | Reject(handle: Handle)              // the same section when the handler is closed
    | StartRun(handle: Handle)            // the message parses: the goroutine starts
    | FailToParse(handle: Handle)         // the message does not parse: its entry stays behind
    | Complete(handle: Handle)            // the goroutine's deferred removal
    | Shutdown

  function Without(cancels: seq<Handle>, handle: Handle): (r: seq<Handle>)
    ensures handle !in r
    ensures forall h :: h != handle ==> multiset(r)[h] == multiset(cancels)[h]
  {
    if cancels == [] then []
    else
      assert cancels == [cancels[0]] + cancels[1..];
      if cancels[0] == handle then Without(cancels[1..], handle)
      else [cancels[0]] + Without(cancels[1..], handle)
  }

  lemma WithoutAbsent(cancels: seq<Handle>, handle: Handle)
    requires handle !in cancels
    ensures Without(cancels, handle) == cancels
  {
    if cancels != [] {
      WithoutAbsent(cancels[1..], handle);
    }
  }

  /** Removing a handle that occurs once takes out its entry and leaves the others in their order. */
  lemma {:induction false} WithoutOne(before: seq<Handle>, handle: Handle, after: seq<Handle>)
    requires handle !in before && handle !in after
    ensures Without(before + [handle] + after, handle) == before + after
  {
    var all := before + [handle] + after;
    if before == [] {
      assert all[1..] == after;
      WithoutAbsent(after, handle);
    } else {
      assert all[1..] == before[1..] + [handle] + after;
      WithoutOne(before[1..], handle, after);
      assert before + after == [before[0]] + (before[1..] + after);
    }
  }

  predicate Enabled(s: Registry, step: Step) {
    match step
    case Register(h) => h !in s.used && !s.closed
    case Reject(h) => h !in s.used && s.closed
    case StartRun(h) => h in s.registered
    case FailToParse(h) => h in s.registered
    case Complete(h) => h in s.running
    case Shutdown => !s.closed
  }

  function Next(s: Registry, step: Step): Registry
    requires Enabled(s, step)
  {
    match step
    case Register(h) => s.(cancels := s.cancels + [h], registered := s.registered + {h}, used := s.used + {h})
    case Reject(h) => s.(cancelled := s.cancelled + {h}, used := s.used + {h})
    case StartRun(h) => s.(registered := s.registered - {h}, running := s.running + {h})
    case FailToParse(h) => s.(registered := s.registered - {h})
    case Complete(h) => s.(cancels := Without(s.cancels, h), running := s.running - {h})
    case Shutdown => s.(closed := true, cancelled := s.cancelled + set h | h in s.cancels)
  }

  predicate IsStep(s: Registry, step: Step, t: Registry) {
    Enabled(s, step) && t == Next(s, step)
  }

  const NEW := Registry(false, [], {}, {}, {}, {})

  predicate IsRun(states: seq<Registry>, steps: seq<Step>) {
    && |states| == |steps| + 1 && states[0] == NEW
    && forall i {:trigger steps[i]} :: 0 <= i < |steps| ==> IsStep(states[i], steps[i], states[i + 1])
  }

  /** No handle has two entries, each execution under way has its own, and once closed each of them is cancelled. */
  predicate Valid(s: Registry) {
    && (forall i, j :: 0 <= i < j < |s.cancels| ==> s.cancels[i] != s.cancels[j])
    && (forall h :: h in s.cancels ==> h in s.used)
    && (forall h :: h in s.registered + s.running ==> h in s.cancels)
    && s.registered !! s.running
    && (s.closed ==> s.registered + s.running <= s.cancelled)
  }

  /** With distinct entries, removing a handle cuts out its one entry. */
  lemma RemovalCutsOut(s: Registry, h: Handle) returns (before: seq<Handle>, after: seq<Handle>)
    requires Valid(s) && h in s.cancels
    ensures s.cancels == before + [h] + after && h !in before + after
    ensures Without(s.cancels, h) == before + after
  {
    var i :| 0 <= i < |s.cancels| && s.cancels[i] == h;
    before, after := s.cancels[..i], s.cancels[i + 1..];
    assert s.cancels == before + [h] + after;
    WithoutOne(before, h, after);
  }

  lemma CompleteStaysValid(s: Registry, h: Handle)
    requires Valid(s) && h in s.running
    ensures Valid(Next(s, Complete(h)))
  {
    var before, after := RemovalCutsOut(s, h);
    forall g | g in s.cancels && g != h ensures g in before + after {
      assert g in before + [h] + after;
    }
    forall g | g in before + after ensures g in s.cancels {
      assert g in before + [h] + after;
    }
    forall i, j | 0 <= i < j < |before + after| ensures (before + after)[i] != (before + after)[j] {
      var i', j' := if i < |before| then i else i + 1, if j < |before| then j else j + 1;
      assert (before + after)[i] == s.cancels[i'] && (before + after)[j] == s.cancels[j'];
    }
  }

  lemma ValidStep(s: Registry, step: Step)
    requires Valid(s) && Enabled(s, step)
    ensures Valid(Next(s, step))
  {
    if step.Complete? {
      CompleteStaysValid(s, step.handle);
    }
  }

  /** In every reachable state of a closed handler, all executions under way have been cancelled. */
  lemma {:induction false} ClosedMeansCancelled(states: seq<Registry>, steps: seq<Step>, k: nat)
    requires IsRun(states, steps) && k < |states|
    ensures Valid(states[k])
    ensures states[k].closed ==> forall h :: h in states[k].running ==> h in states[k].cancelled
  {
    if k > 0 {
      ClosedMeansCancelled(states, steps, k - 1);
      assert IsStep(states[k - 1], steps[k - 1], states[k]);
      ValidStep(states[k - 1], steps[k - 1]);
    }
  }

  /** After shutdown the executions under way only dwindle: none is registered, and what still starts was registered,
      and cancelled, before. */
  lemma {:induction false} NothingNewAfterShutdown(states: seq<Registry>, steps: seq<Step>, i: nat, k: nat)
    requires IsRun(states, steps) && i <= k < |states| && states[i].closed
    ensures states[k].closed
    ensures states[k].registered + states[k].running <= states[i].registered + states[i].running
    ensures k < |steps| ==> !steps[k].Register?
  {
    if k < |steps| {
      assert IsStep(states[k], steps[k], states[k + 1]);
    }
    if i < k {
      NothingNewAfterShutdown(states, steps, i, k - 1);
      assert IsStep(states[k - 1], steps[k - 1], states[k]);
    }
  }

  /** Completing removes the execution's own entry and nothing else: the other entries stay, in their order. */
  lemma CompletionRemovesOwnEntry(states: seq<Registry>, steps: seq<Step>, k: nat, h: Handle)
    requires IsRun(states, steps) && k < |steps| && steps[k] == Complete(h)
    ensures exists before, after ::
              && states[k].cancels == before + [h] + after
              && states[k + 1].cancels == before + after
              && h !in before + after
  {
    ClosedMeansCancelled(states, steps, k);
    assert IsStep(states[k], steps[k], states[k + 1]);
    var before, after := RemovalCutsOut(states[k], h);
  }

  /** The handler itself. `View` is its value in the protocol above. */
  class ExecutorEventHandler {
    var closed: bool
    var cancels: seq<Handle>
    ghost var cancelled: set<Handle>
    ghost var registered: set<Handle>
    ghost var running: set<Handle>
    ghost var used: set<Handle>

    ghost function View(): Registry
      reads this
    {
      Registry(closed, cancels, cancelled, registered, running, used)
    }

    constructor ()
      ensures View() == NEW
    {
      closed, cancels, cancelled, registered, running, used := false, [], {}, {}, {}, {};
    }

    /** The goroutine that waits for the end of the handler's context. */
    method Shutdown()
      requires !closed
      modifies this
      ensures View() == Next(old(View()), Step.Shutdown)
      ensures closed && cancels == old(cancels) && running == old(running) && registered == old(registered)
      ensures forall h :: h in cancelled <==> h in old(cancelled) || h in cancels
    {
      closed := true;
      for i := 0 to |cancels|
        invariant closed && unchanged(this`cancels) && unchanged(this`registered)
        invariant unchanged(this`running) && unchanged(this`used)
        invariant cancelled == old(cancelled) + set h | h in cancels[..i]
      {
        assert cancels[..i + 1] == cancels[..i] + [cancels[i]];
        cancelled := cancelled + {cancels[i]};
      }
      assert cancels[..|cancels|] == cancels;
    }

    /** Registers a new message; rejects it, cancelling its context, when the handler is closed. */
    method Admit(handle: Handle) returns (admitted: bool)
      requires handle !in used
      modifies this
      ensures admitted == !old(closed)
      ensures View() == Next(old(View()), if admitted then Register(handle) else Reject(handle))
      ensures admitted ==> cancels == old(cancels) + [handle] && registered == old(registered) + {handle}
      ensures !admitted ==> cancels == old(cancels) && registered == old(registered) && handle in cancelled
      ensures closed == old(closed) && running == old(running)
    {
      used := used + {handle};
      if closed {
        cancelled := cancelled + {handle};
        return false;
      }
      cancels := cancels + [handle];
      registered := registered + {handle};
      admitted := true;
    }

    method Begin(handle: Handle, parses: bool)
      requires handle in registered
      modifies this
      ensures View() == Next(old(View()), if parses then StartRun(handle) else FailToParse(handle))
      ensures running == old(running) + if parses then {handle} else {}
      ensures registered == old(registered) - {handle} && cancels == old(cancels) && cancelled == old(cancelled)
    {
      registered := registered - {handle};
      if parses {
        running := running + {handle};
      }
    }

    /** Deletes every entry equal to the handle, keeping the order of the others. */
    method Finish(handle: Handle)
      requires handle in running
      modifies this
      ensures View() == Next(old(View()), Complete(handle))
      ensures handle !in cancels && running == old(running) - {handle} && cancelled == old(cancelled)
      ensures forall h :: h != handle ==> multiset(cancels)[h] == multiset(old(cancels))[h]
    {
      var kept: seq<Handle> := [];
      for i := 0 to |cancels|
        invariant View() == old(View())
        invariant kept + Without(cancels[i..], handle) == Without(cancels, handle)
      {
        assert cancels[i..][1..] == cancels[i + 1..];
        if cancels[i] != handle {
          kept := kept + [cancels[i]];
        }
      }
      cancels := kept;
      running := running - {handle};
    }
  }
}
