/** `search_term_in_linuxpath`: resolves one query of one session to a verdict,
    in simple or reconciling mode, updating that session's retry queue. */
module Resolver {
  import opened Corpus
  import opened RetryQueue

  /** The two answers a query can get. */
  datatype Verdict = Exists | NotFound

  /** The exact bytes written back to the client. */
  function Response(v: Verdict): (r: string)
    ensures r == "STRING EXISTS\n" || r == "STRING NOT FOUND\n"
    ensures r == "STRING EXISTS\n" <==> v == Exists
  {
    match v
    case Exists => "STRING EXISTS\n"
    case NotFound => "STRING NOT FOUND\n"
  }

  /** The process-wide mode flag `global_reread_on_query`. */
  datatype Mode = Simple | Reconciling

  /** Peer address as reported by the transport: host and port. */
  datatype Addr = Addr(host: string, port: int)

  /** `client_queues`: each connected peer's retry queue. */
  type Registry = map<Addr, seq<string>>

  /** `client_queues.get(addr, [])`: the session's queue, or a fresh empty list
      that belongs to no session. */
  function QueueOf(reg: Registry, addr: Addr): (q: seq<string>)
    ensures addr in reg ==> q == reg[addr]
    ensures addr !in reg ==> q == []
  {
    if addr in reg then reg[addr] else []
  }

  /** What a query's answer rests on in each mode: substring containment in the
      text just read (simple), or a grep of the file (reconciling). */
  predicate Found(mode: Mode, s: Snapshot, term: string) {
    match mode
    case Simple => SubstringHit(s, term)
    case Reconciling => Grep(s, term)
  }

  /** Result of reconciling one query against one queue. */
  datatype Outcome = Outcome(verdict: Verdict, queue: seq<string>)

  /** Reconciling mode on one queue: remove the term if queued, grep it, queue it
      again on a miss unless already queued, then sweep a copy of the queue and
      drop every term the grep now finds. */
  function ResolveQueue(q: seq<string>, term: string, hit: string -> bool): (r: Outcome)
    ensures r.verdict == Exists <==> hit(term)
    ensures term in r.queue <==> r.verdict == NotFound
    ensures forall t :: t in r.queue ==> !hit(t)
    ensures forall t :: t in r.queue ==> t in q || t == term
    ensures forall t :: t in q && t != term && !hit(t) ==> t in r.queue
    ensures NoDup(q) ==> NoDup(r.queue)
  {
    var removed := if term in q then ListRemove(q, term) else q;
    var found := hit(term);
    var queued := if !found && term !in removed then removed + [term] else removed;
    assert forall t :: t in q && t != term ==> t in removed by {
      if term in q {
        assert multiset(removed) == multiset(q) - multiset{term};
        assert forall t :: t in q && t != term ==> t in multiset(removed);
      }
    }
    assert forall t :: t in removed ==> t in q by {
      if term in q {
        assert forall t :: t in removed ==> t in multiset(q);
      }
    }
    assert !found ==> term in queued;
    assert NoDup(q) ==> NoDup(queued);
    Outcome(if found then Exists else NotFound, Sweep(queued, hit))
  }

  /** Result of one query against the whole registry. */
  datatype Step = Step(verdict: Verdict, registry: Registry)

  /** `search_term_in_linuxpath(addr, term)` under `mode`, with the corpus fixed to
      snapshot `s` for the whole call. */
  function Resolve(reg: Registry, addr: Addr, term: string, mode: Mode, s: Snapshot): (r: Step)
    ensures r.verdict == Exists <==> Found(mode, s, term)
    ensures r.registry.Keys == reg.Keys
    ensures forall a :: a in reg && a != addr ==> r.registry[a] == reg[a]
    ensures mode == Simple || addr !in reg ==> r.registry == reg
    ensures mode == Reconciling && addr in reg ==>
      && (term in r.registry[addr] <==> r.verdict == NotFound)
      && (forall t :: t in r.registry[addr] ==> !Grep(s, t))
      && (forall t :: t in r.registry[addr] ==> t in reg[addr] || t == term)
      && (forall t :: t in reg[addr] && t != term && !Grep(s, t) ==> t in r.registry[addr])
      && (NoDup(reg[addr]) ==> NoDup(r.registry[addr]))
  {
    match mode
    case Simple =>
      Step(if SubstringHit(s, term) then Exists else NotFound, reg)
    case Reconciling =>
      var o := ResolveQueue(QueueOf(reg, addr), term, t => Grep(s, t));
      Step(o.verdict, if addr in reg then reg[addr := o.queue] else reg)
  }

  /** With no duplicates in the queue, reconciling has a closed form: the queue
      without the term, filtered to the terms still missing, in their old order,
      followed by the term itself exactly when it missed. */
  lemma {:induction false} ResolveQueueExact(q: seq<string>, term: string, hit: string -> bool)
    requires NoDup(q)
    ensures ResolveQueue(q, term, hit).queue
         == Pending(Erase(q, term), hit) + (if hit(term) then [] else [term])
  {
    var removed := if term in q then ListRemove(q, term) else q;
    RemoveIsErase(q, term);
    assert removed == Erase(q, term);
    if hit(term) {
      assert Pending([term], hit) == [];
      PendingAppend(removed, [], hit);
    } else {
      assert Pending([term], hit) == [term];
      PendingAppend(removed, [term], hit);
    }
  }

  /** Asking the same term twice in a row against the same corpus changes nothing
      the second time: same verdict, same queue. */
  lemma ResolveQueueIdempotent(q: seq<string>, term: string, hit: string -> bool)
    requires NoDup(q)
    ensures ResolveQueue(ResolveQueue(q, term, hit).queue, term, hit) == ResolveQueue(q, term, hit)
  {
    var first := ResolveQueue(q, term, hit);
    var second := ResolveQueue(first.queue, term, hit);
    var kept := Pending(Erase(q, term), hit);
    var tail: seq<string> := if hit(term) then [] else [term];
    ResolveQueueExact(q, term, hit);
    assert first.queue == kept + tail;
    assert Erase(first.queue, term) == kept by {
      if hit(term) {
        assert first.queue == kept;
        NotInErase(kept, term);
      } else {
        EraseAppend(kept, term);
      }
    }
    ResolveQueueExact(first.queue, term, hit);
    PendingTwice(Erase(q, term), hit);
    assert second.queue == first.queue;
    assert second.verdict == first.verdict;
  }
}
