/**
 * Binding of event-channel ports to irq numbers: irq_evtchn[] maps an irq to its port (0 for none),
 * evtchn_to_irq[] maps a port to its irq (-1 for none).
 */
module EventBinding {

  import opened Common

  const NR_IRQS := 256
  const NR_EVENT_CHANNELS := 4096

  /** The two maps are inverse to each other on the irqs in use, and port 0 is bound to nothing. */
  ghost predicate Inverse(evtchn: seq<nat>, inuse: seq<bool>, toIrq: seq<int>) {
    && |evtchn| == |inuse|
    && (forall irq :: 0 <= irq < |evtchn| && evtchn[irq] != 0 ==>
          inuse[irq] && evtchn[irq] < |toIrq| && toIrq[evtchn[irq]] == irq)
    && (forall port :: 0 <= port < |toIrq| && toIrq[port] >= 0 ==>
          port != 0 && toIrq[port] < |evtchn| && evtchn[toIrq[port]] == port)
  }

  /** Entering a port for a free irq keeps the maps inverse exactly if the port is real and unbound. */
  lemma BindKeepsInverse(evtchn: seq<nat>, inuse: seq<bool>, toIrq: seq<int>, irq: nat, port: nat)
    requires Inverse(evtchn, inuse, toIrq)
    requires irq < |evtchn| && !inuse[irq] && port < |toIrq|
    ensures Inverse(evtchn[irq := port], inuse[irq := true], toIrq[port := irq])
       <==> port != 0 && toIrq[port] < 0
  {
    var evtchn', toIrq' := evtchn[irq := port], toIrq[port := irq];
    assert evtchn[irq] == 0;
    if port == 0 {
      assert toIrq'[0] >= 0;
    } else if toIrq[port] >= 0 {
      var other := toIrq[port];
      assert evtchn'[other] == port && toIrq'[port] == irq;
    }
  }

  /** Irq 1 takes port 0, and irq 2 takes the port of irq 1. */
  lemma BindBreaksInverse()
    ensures Inverse([0, 0], [false, false], [-1, -1]) && !Inverse([0, 0], [false, true], [1, -1])
    ensures Inverse([0, 1, 0], [false, true, false], [-1, 1]) && !Inverse([0, 1, 1], [false, true, true], [-1, 2])
  {
    BindKeepsInverse([0, 0], [false, false], [-1, -1], 1, 0);
    BindKeepsInverse([0, 1, 0], [false, true, false], [-1, 1], 2, 1);
    assert [0, 0][1 := 0] == [0, 0] && [false, false][1 := true] == [false, true] && [-1, -1][0 := 1] == [1, -1];
    assert [0, 1, 0][2 := 1] == [0, 1, 1] && [false, true, false][2 := true] == [false, true, true] && [-1, 1][1 := 2] == [-1, 2];
  }

  lemma UnbindKeepsInverse(evtchn: seq<nat>, inuse: seq<bool>, toIrq: seq<int>, irq: nat)
    requires Inverse(evtchn, inuse, toIrq)
    requires irq < |evtchn|
    ensures Inverse(evtchn[irq := 0], inuse[irq := false],
                    if evtchn[irq] != 0 then toIrq[evtchn[irq] := -1] else toIrq)
  {
  }

  class Binding {
    const evtchn: array<nat>
    const inuse: array<bool>
    const toIrq: array<int>
    const mask: array<bool>
    ghost var stale: set<nat>   // bound before the last resume and not yet unbound

    ghost predicate Valid()
      reads this, evtchn, inuse, toIrq, mask
    {
      && evtchn.Length == inuse.Length == NR_IRQS
      && toIrq.Length == mask.Length == NR_EVENT_CHANNELS
      && inuse != mask
      && !inuse[0]
      && Inverse(evtchn[..], inuse[..], toIrq[..])
      && forall irq :: irq in stale ==> irq < NR_IRQS && inuse[irq] && evtchn[irq] == 0
    }

    /** masked are the mask bits as the hypervisor has set them. */
    constructor (masked: nat -> bool)
      ensures Valid() && stale == {} && forall port: nat :: port < NR_EVENT_CHANNELS ==> mask[port] == masked(port)
      ensures forall irq :: 0 <= irq < NR_IRQS ==> !inuse[irq]
      ensures forall port :: 0 <= port < NR_EVENT_CHANNELS ==> toIrq[port] == -1
    {
      evtchn := new nat[NR_IRQS](_ => 0);
      inuse := new bool[NR_IRQS](_ => false);
      toIrq := new int[NR_EVENT_CHANNELS](_ => -1);
      mask := new bool[NR_EVENT_CHANNELS](port requires 0 <= port => masked(port));
      stale := {};
    }

    /** alloc_xen_irq: the lowest free irq from 1 on, or -1 where the driver returns -ENOSPC. */
    method AllocIrq() returns (irq: int)
      requires Valid()
      modifies inuse
      ensures Valid() && evtchn[..] == old(evtchn[..]) && toIrq[..] == old(toIrq[..]) && mask[..] == old(mask[..])
      ensures irq == -1 || 1 <= irq < NR_IRQS
      ensures irq == -1 <==> forall i :: 1 <= i < NR_IRQS ==> old(inuse[i])
      ensures irq == -1 ==> inuse[..] == old(inuse[..])
      ensures irq > 0 ==>
                && !old(inuse[irq]) && evtchn[irq] == 0 && irq !in stale
                && inuse[..] == old(inuse[..])[irq := true]
                && forall i :: 1 <= i < irq ==> old(inuse[i])
    {
      irq := 1;
      while irq < NR_IRQS
        invariant 1 <= irq <= NR_IRQS
        invariant forall i :: 1 <= i < irq ==> inuse[i]
      {
        if !inuse[irq] {
          assert evtchn[..][irq] == 0;
          inuse[irq] := true;
          return;
        }
        irq := irq + 1;
      }
      irq := -1;
    }

    /**
     * bind_caller_port_to_irqhandler. The caller names any port; the maps stay inverse exactly when
     * the port is real and unbound.
     */
    method BindCallerPort(port: nat) returns (irq: int)
      requires Valid() && port < NR_EVENT_CHANNELS
      modifies evtchn, inuse, toIrq, mask
      ensures irq == -1 <==> forall i :: 1 <= i < NR_IRQS ==> old(inuse[i])
      ensures irq == -1 ==> Valid() && toIrq[..] == old(toIrq[..]) && evtchn[..] == old(evtchn[..]) && inuse[..] == old(inuse[..])
      ensures irq != -1 ==>
                && 1 <= irq < NR_IRQS && !old(inuse[irq])
                && evtchn[..] == old(evtchn[..])[irq := port]
                && toIrq[..] == old(toIrq[..])[port := irq]
                && inuse[..] == old(inuse[..])[irq := true]
                && mask[..] == old(mask[..])[port := false]
                && (Valid() <==> port != 0 && old(toIrq[port]) < 0)
    {
      ghost var in0 := inuse[..];
      irq := AllocIrq();
      if irq < 0 {
        return;
      }
      BindKeepsInverse(old(evtchn[..]), in0, old(toIrq[..]), irq, port);
      evtchn[irq] := port;
      toIrq[port] := irq;
      mask[port] := false;
    }

    /**
     * bind_listening_port_to_irqhandler. The hypervisor refuses, or hands out a port that is not bound.
     */
    method BindListeningPort(answer: Option<nat>) returns (irq: int)
      requires Valid() && (answer.Some? ==> 0 < answer.value < NR_EVENT_CHANNELS && toIrq[answer.value] < 0)
      modifies evtchn, inuse, toIrq, mask
      ensures Valid()
      ensures irq == -1 <==> answer.None? || forall i :: 1 <= i < NR_IRQS ==> old(inuse[i])
      ensures irq == -1 ==> toIrq[..] == old(toIrq[..]) && evtchn[..] == old(evtchn[..]) && inuse[..] == old(inuse[..]) && mask[..] == old(mask[..])
      ensures irq != -1 ==>
                && 1 <= irq < NR_IRQS && !old(inuse[irq]) && forall i :: 1 <= i < irq ==> old(inuse[i])
      ensures irq != -1 ==>
                && evtchn[..] == old(evtchn[..])[irq := answer.value]
                && toIrq[..] == old(toIrq[..])[answer.value := irq]
                && inuse[..] == old(inuse[..])[irq := true]
                && mask[..] == old(mask[..])[answer.value := false]
    {
      ghost var in0 := inuse[..];
      irq := AllocIrq();
      if irq < 0 {
        return;
      }
      if answer.None? {
        FreeIrq(irq);
        assert inuse[..] == in0;
        return -1;
      }
      var port := answer.value;
      BindKeepsInverse(old(evtchn[..]), in0, old(toIrq[..]), irq, port);
      evtchn[irq] := port;
      toIrq[port] := irq;
      mask[port] := false;
    }

    /** free_xen_irq */
    method FreeIrq(irq: nat)
      requires irq < NR_IRQS == inuse.Length
      modifies inuse
      ensures inuse[..] == old(inuse[..])[irq := false]
    {
      inuse[irq] := false;
    }

    /**
     * unbind_from_irqhandler. An irq that a resume left without a port gives its number back and
     * touches nothing else: whatever port was bound since stays bound and unmasked.
     */
    method Unbind(irq: nat)
      requires Valid() && irq < NR_IRQS
      modifies this`stale, evtchn, inuse, toIrq, mask
      ensures Valid()
      ensures evtchn[..] == old(evtchn[..])[irq := 0] && inuse[..] == old(inuse[..])[irq := false]
      ensures stale == old(stale) - {irq}
      ensures old(evtchn[irq]) != 0 ==>
                && toIrq[..] == old(toIrq[..])[old(evtchn[irq]) := -1]
                && mask[..] == old(mask[..])[old(evtchn[irq]) := true]
      ensures irq in old(stale) || old(evtchn[irq]) == 0 ==>
                && toIrq[..] == old(toIrq[..]) && mask[..] == old(mask[..])
                && forall i :: 0 <= i < NR_IRQS ==> evtchn[i] == old(evtchn[i])
    {
      UnbindKeepsInverse(evtchn[..], inuse[..], toIrq[..], irq);
      var port := evtchn[irq];
      if port != 0 {
        assert evtchn[..][irq] != 0;
        toIrq[port] := -1;
        mask[port] := true;
      }
      evtchn[irq] := 0;
      FreeIrq(irq);
      stale := stale - {irq};
    }

    /** irq_resume: every port is masked and unbound, while the irq numbers stay taken. */
    method Resume()
      requires Valid()
      modifies this`stale, evtchn, toIrq, mask
      ensures Valid()
      ensures forall port :: 0 <= port < NR_EVENT_CHANNELS ==> mask[port] && toIrq[port] == -1
      ensures forall irq :: 0 <= irq < NR_IRQS ==> evtchn[irq] == 0
      ensures stale == set irq | 0 <= irq < NR_IRQS && inuse[irq]
    {
      var port := 0;
      while port < NR_EVENT_CHANNELS
        invariant 0 <= port <= NR_EVENT_CHANNELS
        invariant inuse[..] == old(inuse[..])
        invariant forall p :: 0 <= p < port ==> mask[p] && toIrq[p] == -1
      {
        mask[port] := true;
        toIrq[port] := -1;
        port := port + 1;
      }
      var irq := 0;
      while irq < NR_IRQS
        invariant 0 <= irq <= NR_IRQS
        invariant inuse[..] == old(inuse[..])
        invariant forall p :: 0 <= p < NR_EVENT_CHANNELS ==> mask[p] && toIrq[p] == -1
        invariant forall i :: 0 <= i < irq ==> evtchn[i] == 0
      {
        evtchn[irq] := 0;
        irq := irq + 1;
      }
      stale := set i: nat | 0 <= i < NR_IRQS && inuse[i];
    }
  }
}
