/** `handle_client` and the startup flag: a session's queue is created on connect,
    fed one query per received chunk, and deleted on disconnect. */
module Sessions {
  import opened Wrappers
  import opened Corpus
  import opened RetryQueue
  import opened Resolver

  /** `client_queues[addr] = []`: a fresh empty queue, replacing any earlier one. */
  function Connect(reg: Registry, addr: Addr): (r: Registry)
    ensures addr in r && r[addr] == []
    ensures r.Keys == reg.Keys + {addr}
    ensures forall a :: a in reg && a != addr ==> r[a] == reg[a]
  {
    reg[addr := []]
  }

  /** `del client_queues[addr]`: Python raises `KeyError` when the key is absent. */
  function Disconnect(reg: Registry, addr: Addr): (r: Option<Registry>)
    ensures r.None? <==> addr !in reg
    ensures r.Some? ==> r.value.Keys == reg.Keys - {addr}
    ensures r.Some? ==> forall a :: a in r.value ==> r.value[a] == reg[a]
  {
    if addr in reg then Some(map a | a in reg && a != addr :: reg[a]) else None
  }

  /** Connecting and then disconnecting the same address removes its entry,
      whatever queue it had before, and leaves every other session as it was. */
  lemma ConnectThenDisconnect(reg: Registry, addr: Addr)
    ensures Disconnect(Connect(reg, addr), addr) == Some(reg - {addr})
  {
    var after := Disconnect(Connect(reg, addr), addr).value;
    assert after.Keys == (reg - {addr}).Keys;
    assert forall a :: a in after ==> after[a] == (reg - {addr})[a];
    assert after == reg - {addr};
  }

  /** One `reader.read` result, and the corpus as it stands when that query is resolved. */
  datatype Request = Request(data: string, snapshot: Snapshot)

  /** How many reads the loop answers: all of them up to the first empty one
      (end of stream); running out of reads is the end of stream too. */
  function Answered(reqs: seq<Request>): (n: nat)
    ensures n <= |reqs|
    ensures forall i :: 0 <= i < n ==> reqs[i].data != ""
    ensures n < |reqs| ==> reqs[n].data == ""
  {
    if reqs == [] || reqs[0].data == "" then 0 else 1 + Answered(reqs[1..])
  }

  /** Verdicts written back during a session and the registry it leaves behind. */
  datatype Session = Session(verdicts: seq<Verdict>, registry: Registry)

  /** The terms of the first `n` reads. */
  function Asked(reqs: seq<Request>, n: nat): (terms: set<string>)
    requires n <= |reqs|
    ensures forall i :: 0 <= i < n ==> reqs[i].data in terms
    ensures forall t :: t in terms ==> exists i :: 0 <= i < n && reqs[i].data == t
  {
    set i | 0 <= i < n :: reqs[i].data
  }

  /** The terms asked after the first read are among those asked overall. */
  lemma AskedShift(reqs: seq<Request>, n: nat)
    requires n < |reqs|
    ensures Asked(reqs[1..], n) + {reqs[0].data} == Asked(reqs, n + 1)
  {
    var tail := reqs[1..];
    forall t | t in Asked(tail, n)
      ensures t in Asked(reqs, n + 1)
    {
      var i :| 0 <= i < n && tail[i].data == t;
      assert reqs[i + 1].data == t;
    }
    forall t | t in Asked(reqs, n + 1) && t != reqs[0].data
      ensures t in Asked(tail, n)
    {
      var i :| 0 <= i < n + 1 && reqs[i].data == t;
      assert tail[i - 1].data == t;
    }
  }

  /** The `while True` loop of `handle_client`: resolve each non-empty read in
      order, stop at the first empty one. The address must have an entry: after
      each resolution the loop prints `client_queues[addr]`, which raises
      `KeyError` before any answer is written when the entry is missing. */
  function Serve(reg: Registry, addr: Addr, mode: Mode, reqs: seq<Request>): (r: Session)
    requires addr in reg
    ensures |r.verdicts| == Answered(reqs)
    ensures forall i :: 0 <= i < |r.verdicts| ==>
      (r.verdicts[i] == Exists <==> Found(mode, reqs[i].snapshot, reqs[i].data))
    ensures r.registry.Keys == reg.Keys
    ensures forall a :: a in reg && a != addr ==> r.registry[a] == reg[a]
    ensures mode == Simple ==> r.registry == reg
    ensures NoDup(reg[addr]) ==> NoDup(r.registry[addr])
    decreases |reqs|
  {
    if reqs == [] || reqs[0].data == "" then
      Session([], reg)
    else
      var step := Resolve(reg, addr, reqs[0].data, mode, reqs[0].snapshot);
      var rest := Serve(step.registry, addr, mode, reqs[1..]);
      assert forall i :: 1 <= i < 1 + |rest.verdicts| ==> reqs[i] == reqs[1..][i - 1];
      Session([step.verdict] + rest.verdicts, rest.registry)
  }

  /** A session's queue only ever holds terms it held at the start or that the
      session asked for. */
  lemma {:induction false} ServeQueuesOnlyAsked(reg: Registry, addr: Addr, mode: Mode, reqs: seq<Request>)
    requires addr in reg
    ensures forall t :: t in Serve(reg, addr, mode, reqs).registry[addr] ==>
      t in reg[addr] || t in Asked(reqs, Answered(reqs))
    decreases |reqs|
  {
    if reqs != [] && reqs[0].data != "" {
      var tail := reqs[1..];
      var step := Resolve(reg, addr, reqs[0].data, mode, reqs[0].snapshot);
      var n := Answered(tail);
      assert Answered(reqs) == n + 1;
      assert Serve(reg, addr, mode, reqs).registry == Serve(step.registry, addr, mode, tail).registry;
      ServeQueuesOnlyAsked(step.registry, addr, mode, tail);
      AskedShift(reqs, n);
      assert forall t :: t in step.registry[addr] ==> t in reg[addr] || t == reqs[0].data;
    }
  }

  /** After a reconciling session has answered at least one read, no term left in
      its queue is found by the grep of the last answered read. */
  lemma {:induction false} ServeEndsSwept(reg: Registry, addr: Addr, reqs: seq<Request>)
    requires addr in reg && Answered(reqs) > 0
    ensures forall t :: t in Serve(reg, addr, Reconciling, reqs).registry[addr] ==>
      !Grep(reqs[Answered(reqs) - 1].snapshot, t)
    decreases |reqs|
  {
    var step := Resolve(reg, addr, reqs[0].data, Reconciling, reqs[0].snapshot);
    if Answered(reqs[1..]) > 0 {
      ServeEndsSwept(step.registry, addr, reqs[1..]);
      assert reqs[1..][Answered(reqs[1..]) - 1] == reqs[Answered(reqs) - 1];
    }
  }

  /** `handle_client` from connect to disconnect, for a connection whose teardown
      (`close`, `wait_closed`) completes so that the final `del` runs. */
  function HandleClient(reg: Registry, addr: Addr, mode: Mode, reqs: seq<Request>): (r: Session)
    ensures |r.verdicts| == Answered(reqs)
    ensures forall i :: 0 <= i < |r.verdicts| ==>
      (r.verdicts[i] == Exists <==> Found(mode, reqs[i].snapshot, reqs[i].data))
    ensures r.registry.Keys == reg.Keys - {addr}
    ensures forall a :: a in r.registry ==> r.registry[a] == reg[a]
  {
    var served := Serve(Connect(reg, addr), addr, mode, reqs);
    match Disconnect(served.registry, addr)
    case Some(after) => Session(served.verdicts, after)
  }

  /** A first term not asked again is not among the tail's asked terms. */
  lemma NotAskedLater(reqs: seq<Request>)
    requires Answered(reqs) > 0
    requires forall j :: 0 < j < Answered(reqs) ==> reqs[j].data != reqs[0].data
    ensures reqs[0].data !in Asked(reqs[1..], Answered(reqs[1..]))
  {
    var tail := reqs[1..];
    assert forall j :: 0 <= j < Answered(tail) ==> tail[j] == reqs[j + 1];
  }

  /** The first read of a session, answered EXISTS and not asked again, leaves the queue. */
  lemma FirstExistsLeavesQueue(reg: Registry, addr: Addr, reqs: seq<Request>)
    requires addr in reg && Answered(reqs) > 0
    requires Resolve(reg, addr, reqs[0].data, Reconciling, reqs[0].snapshot).verdict == Exists
    requires forall j :: 0 < j < Answered(reqs) ==> reqs[j].data != reqs[0].data
    ensures reqs[0].data !in Serve(reg, addr, Reconciling, reqs).registry[addr]
  {
    var t := reqs[0].data;
    var step := Resolve(reg, addr, t, Reconciling, reqs[0].snapshot);
    var tail := reqs[1..];
    ServeQueuesOnlyAsked(step.registry, addr, Reconciling, tail);
    NotAskedLater(reqs);
  }

  /** Within a session the queue holds a term only while its latest answer was
      NOT FOUND: once a query is answered EXISTS, its term is gone from the queue
      for as long as it is not asked again. */
  lemma {:induction false} AnsweredExistsLeavesQueue(reg: Registry, addr: Addr, reqs: seq<Request>, i: nat)
    requires addr in reg
    requires i < Answered(reqs)
    requires Serve(reg, addr, Reconciling, reqs).verdicts[i] == Exists
    requires forall j :: i < j < Answered(reqs) ==> reqs[j].data != reqs[i].data
    ensures reqs[i].data !in Serve(reg, addr, Reconciling, reqs).registry[addr]
    decreases i
  {
    var step := Resolve(reg, addr, reqs[0].data, Reconciling, reqs[0].snapshot);
    if i == 0 {
      FirstExistsLeavesQueue(reg, addr, reqs);
    } else {
      var tail := reqs[1..];
      ShiftLater(reqs, i);
      AnsweredExistsLeavesQueue(step.registry, addr, tail, i - 1);
    }
  }

  /** Reads after read `i` are the reads after read `i - 1` of the tail. */
  lemma ShiftLater(reqs: seq<Request>, i: nat)
    requires 0 < i < Answered(reqs)
    ensures Answered(reqs[1..]) == Answered(reqs) - 1
    ensures reqs[1..][i - 1] == reqs[i]
    ensures forall j :: i - 1 < j < Answered(reqs[1..]) ==> reqs[1..][j] == reqs[j + 1]
  {
  }

  /** In simple mode, if the file cannot be read for any of a session's queries,
      every answer is NOT FOUND: the loop only resolves non-empty reads, and no
      non-empty term is in "". */
  lemma UnreadableSessionFindsNothing(reg: Registry, addr: Addr, reqs: seq<Request>)
    requires forall i :: 0 <= i < |reqs| ==> reqs[i].snapshot.file.None?
    ensures forall v :: v in HandleClient(reg, addr, Simple, reqs).verdicts ==> v == NotFound
  {
    var r := HandleClient(reg, addr, Simple, reqs);
    forall i | 0 <= i < |r.verdicts|
      ensures r.verdicts[i] == NotFound
    {
      UnreadableFindsNothing(reqs[i].snapshot, reqs[i].data);
    }
  }

  /** `len(sys.argv) == 2 and sys.argv[1] == 'True'`: the program name plus exactly
      the token `True` turns reconciling mode on; anything else leaves simple mode. */
  function ParseMode(argv: seq<string>): (m: Mode)
    ensures m == Reconciling <==> |argv| == 2 && argv[1] == "True"
  {
    if |argv| == 2 && argv[1] == "True" then Reconciling else Simple
  }
}
