/**
 * Who owns the encoded buffers of the transmitter: every one allocated is freed
 * exactly once, also those of contexts that passed the unlocked test for a full
 * ring and failed the locked one.
 */
module TxOwnership {
  import opened Bytes
  import opened Cobs
  import opened Message
  import opened TxRing
  import opened TxProtocol

  /** The buffer a pushing context holds. */
  function Held(p: Pusher): Option<nat> {
    match p
    case Encoded(_, id) => Some(id)
    case Refused(id) => Some(id)
    case _ => None
  }

  /** The buffer the comm task has taken out of the ring but not freed. */
  function Taken(t: Task): Option<nat> {
    match t
    case TxReset(_, id) => Some(id)
    case TxFree(_, id) => Some(id)
    case _ => None
  }

  function Queue(s: State): seq<nat>
    requires |s.store.ring.slots| == SIZE
  {
    s.store.ring.Queue()
  }

  predicate HeldBy(s: State, k: nat, id: nat) { k in s.pushers && Held(s.pushers[k]) == Some(id) }

  /**
   * Every allocated buffer is in exactly one place: a ring slot, one pushing
   * context, or the comm task; every other buffer ever allocated was freed,
   * once.
   */
  ghost predicate Ownership(s: State)
    requires |s.store.ring.slots| == SIZE
  {
    var q := Queue(s);
    && (forall i :: 0 <= i < |q| ==> q[i] in s.store.heap)
    && (forall i, j :: 0 <= i < j < |q| ==> q[i] != q[j])
    && (forall k, id :: HeldBy(s, k, id) ==> id in s.store.heap && id !in q && Taken(s.task) != Some(id))
    && (forall k, k', id :: HeldBy(s, k, id) && HeldBy(s, k', id) ==> k == k')
    && (Taken(s.task).Some? ==> Taken(s.task).value in s.store.heap && Taken(s.task).value !in q)
    && (forall id :: id in s.store.heap ==> id in q || Taken(s.task) == Some(id) || exists k :: HeldBy(s, k, id))
    && (forall id :: id in s.store.heap ==> id < s.store.next && id !in s.store.freed)
    && (forall i :: 0 <= i < |s.store.freed| ==> s.store.freed[i] < s.store.next)
    && (forall i, j :: 0 <= i < j < |s.store.freed| ==> s.store.freed[i] != s.store.freed[j])
    && (forall id: nat :: id < s.store.next ==> id in s.store.heap || id in s.store.freed)
  }

  // Steps that touch neither buffers nor their holders.
  lemma OwnershipUntouched(s: State, s': State)
    requires |s.store.ring.slots| == |s'.store.ring.slots| == SIZE && Ownership(s)
    requires Queue(s') == Queue(s) && s'.store.heap == s.store.heap
    requires s'.store.next == s.store.next && s'.store.freed == s.store.freed
    requires Taken(s'.task) == Taken(s.task)
    requires forall k, id :: HeldBy(s', k, id) <==> HeldBy(s, k, id)
    ensures Ownership(s')
  {}

  // What a step of context k does to the other contexts.
  lemma HoldersAfter(s: State, s': State, k: nat)
    requires k in s.pushers
    requires s'.pushers == s.pushers - {k} || (k in s'.pushers && s'.pushers == s.pushers[k := s'.pushers[k]])
    ensures forall j, id :: j != k ==> (HeldBy(s', j, id) <==> HeldBy(s, j, id))
  {}

  lemma OwnershipMalloc(s: State, s': State, k: nat, e: bytes)
    requires |s.store.ring.slots| == SIZE && Ownership(s)
    requires s'.store == s.store.(heap := s.store.heap[s.store.next := e], next := s.store.next + 1)
    requires Taken(s'.task) == Taken(s.task)
    requires forall j, id :: HeldBy(s', j, id) <==> HeldBy(s, j, id) || (j == k && id == s.store.next)
    requires forall id :: !HeldBy(s, k, id)
    ensures Ownership(s')
  {
    hide Ring.Queue;
    assert Queue(s') == Queue(s) && s.store.next !in s.store.heap && s.store.next !in s.store.freed;
    forall id: nat | id < s'.store.next ensures id in s'.store.heap || id in s'.store.freed {
      assert id < s.store.next || id == s.store.next;
    }
    forall id | id in s'.store.heap && id !in Queue(s') && Taken(s'.task) != Some(id)
      ensures exists j :: HeldBy(s', j, id)
    {
      if id == s.store.next {
        assert HeldBy(s', k, id);
      } else {
        var j :| HeldBy(s, j, id);
        assert HeldBy(s', j, id);
      }
    }
  }

  // A buffer moves from its holder to the end of the queue.
  lemma OwnershipQueued(s: State, s': State, k: nat, id0: nat)
    requires |s.store.ring.slots| == |s'.store.ring.slots| == SIZE && Ownership(s) && HeldBy(s, k, id0)
    requires Queue(s') == Queue(s) + [id0]
    requires s'.store == s.store.(ring := s'.store.ring, committed := s'.store.committed)
    requires Taken(s'.task) == Taken(s.task)
    requires forall j, id :: HeldBy(s', j, id) <==> HeldBy(s, j, id) && j != k
    ensures Ownership(s')
  {}

  // Giving up a buffer: its holder lets go of it and it is freed.
  lemma OwnershipReleased(s: State, s': State, id0: nat)
    requires |s.store.ring.slots| == SIZE && Ownership(s)
    requires id0 in s.store.heap && id0 !in Queue(s)
    requires s'.store == Release(s.store, id0)
    requires Taken(s'.task) == if Taken(s.task) == Some(id0) then None else Taken(s.task)
    requires forall k, id :: HeldBy(s', k, id) <==> HeldBy(s, k, id) && id != id0
    ensures Ownership(s')
  {
    hide Ring.Queue;
    forall id | id in s'.store.heap && id !in Queue(s') && Taken(s'.task) != Some(id)
      ensures exists k :: HeldBy(s', k, id)
    {
      var k :| HeldBy(s, k, id);
      assert HeldBy(s', k, id);
    }
    forall id: nat | id < s'.store.next
      ensures id in s'.store.heap || id in s'.store.freed
    {
      if id in s.store.freed {
        var i :| 0 <= i < |s.store.freed| && s.store.freed[i] == id;
        assert s'.store.freed[i] == id;
      } else if id == id0 {
        assert s'.store.freed[|s.store.freed|] == id0;
      }
    }
  }

  /** A buffer a context holds exists and is nowhere else. */
  lemma HolderFacts(s: State, k: nat, id0: nat)
    requires |s.store.ring.slots| == SIZE && Ownership(s) && HeldBy(s, k, id0)
    ensures id0 in s.store.heap && id0 !in Queue(s) && Taken(s.task) != Some(id0)
    ensures forall j :: HeldBy(s, j, id0) ==> j == k
  {}

  lemma OwnershipKeptPush(s: State, k: nat, choice: bool)
    requires CanStep(s, Push(k, choice)) && s.store.ring.Valid() && Ownership(s)
    requires s.pushers[k].Encoded? ==> !WrappedFull(s.store.ring)
    ensures ApplyPush(s, k, choice).store.ring.Valid() && Ownership(ApplyPush(s, k, choice))
  {
    hide Encode, Body, Ownership, Ring.Queue, Ring.Push, Ring.LiteralFull;
    var s' := ApplyPush(s, k, choice);
    HoldersAfter(s, s', k);
    if s.pushers[k].Allocating? && choice {
      assert forall id :: !HeldBy(s, k, id);
      assert forall id :: HeldBy(s', k, id) <==> id == s.store.next;
      OwnershipMalloc(s, s', k, Encode(Body(s.pushers[k].packet)));
    } else if s.pushers[k].Encoded? && !s.store.ring.LiteralFull() {
      var id0 := s.pushers[k].id;
      LiteralFullAgrees(s.store.ring);
      PushAppends(s.store.ring, id0);
      assert HeldBy(s, k, id0) && forall id :: !HeldBy(s', k, id);
      OwnershipQueued(s, s', k, id0);
    } else if s.pushers[k].Refused? {
      var id0 := s.pushers[k].id;
      assert HeldBy(s, k, id0);
      assert forall id :: HeldBy(s, k, id) ==> id == id0;
      assert forall id :: !HeldBy(s', k, id);
      HolderFacts(s, k, id0);
      OwnershipReleased(s, s', id0);
    } else {
      assert forall id :: HeldBy(s', k, id) <==> HeldBy(s, k, id);
      OwnershipUntouched(s, s');
    }
  }

  // The comm task is done with the head of the ring.
  lemma OwnershipPop(s: State, s': State)
    requires s.store.ring.Valid() && Ownership(s) && s.task.TxCopy?
    requires s.store.ring.Used() > 0 && s.task.id == Queue(s)[0]
    requires s' == s.(store := s.store.(ring := s.store.ring.Pop()), task := TxReset(s.task.free, s.task.id))
    ensures s'.store.ring.Valid() && Ownership(s')
  {
    hide Ring.Queue, Ring.Pop;
    var q := Queue(s);
    PopRemoves(s.store.ring);
    assert Queue(s') == q[1..];
    assert forall id :: id in q <==> id == q[0] || id in q[1..];
    forall j, id ensures HeldBy(s', j, id) <==> HeldBy(s, j, id) {}
    forall id | id in s'.store.heap && id !in Queue(s') && Taken(s'.task) != Some(id)
      ensures exists j :: HeldBy(s', j, id)
    {
      var j :| HeldBy(s, j, id);
      assert HeldBy(s', j, id);
    }
  }

  lemma TakenFacts(s: State, id0: nat)
    requires |s.store.ring.slots| == SIZE && Ownership(s) && Taken(s.task) == Some(id0)
    ensures id0 in s.store.heap && id0 !in Queue(s)
    ensures forall k :: !HeldBy(s, k, id0)
  {}

  lemma OwnershipFree(s: State, s': State)
    requires |s.store.ring.slots| == SIZE && Ownership(s) && s.task.TxFree?
    requires s' == s.(store := Release(s.store, s.task.id), task := TxLoop(s.task.free))
    ensures Ownership(s')
  {
    hide Ownership, Ring.Queue;
    TakenFacts(s, s.task.id);
    OwnershipReleased(s, s', s.task.id);
  }

  /** The comm task copies out of the head of the ring. */
  predicate CopiesHead(s: State)
    requires |s.store.ring.slots| == SIZE
  {
    s.task.TxCopy? ==> !s.store.ring.Empty() && s.task.id == Queue(s)[0]
  }

  predicate AtEnd(s: State) {
    s.task.TxCopy? && s.task.id in s.store.heap && s.task.i == |s.store.heap[s.task.id]|
  }

  lemma TaskFrame(s: State)
    requires CanStep(s, TaskStep) && !AtEnd(s) && !s.task.TxFree?
    requires s.task.TxCopy? ==> s.task.i <= |s.store.heap[s.task.id]|
    ensures var s' := ApplyTask(s);
            s'.store == s.store && s'.pushers == s.pushers && Taken(s'.task) == Taken(s.task)
  {
    hide Ring.Pop, Ring.Empty;
  }

  lemma OwnershipKeptTask(s: State)
    requires CanStep(s, TaskStep) && s.store.ring.Valid() && Ownership(s)
    requires s.task.TxCopy? ==> CopiesHead(s) && s.task.i <= |s.store.heap[s.task.id]|
    ensures ApplyTask(s).store.ring.Valid() && Ownership(ApplyTask(s))
  {
    hide Ownership, Ring.Queue, Ring.Pop, Ring.Valid;
    var s' := ApplyTask(s);
    if AtEnd(s) {
      EmptyIsZeroUsed(s.store.ring);
      OwnershipPop(s, s');
    } else if s.task.TxFree? {
      OwnershipFree(s, s');
    } else {
      TaskFrame(s);
      OwnershipUntouched(s, s');
    }
  }
}
