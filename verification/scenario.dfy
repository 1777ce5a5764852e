/** An apple/banana/cherry walk-through of both modes: the corpus "apple\nbanana\n",
    later extended with a "cherry" line by an outside writer. */
module Scenario {
  import opened Wrappers
  import opened Text
  import opened Corpus
  import opened Resolver
  import opened Sessions

  const Before: string := "apple\nbanana\n"
  const After: string := "apple\nbanana\ncherry\n"

  /** Simple mode: "apple" is in the text, "cherry" is not. */
  lemma SimpleModeExample(reg: Registry, addr: Addr, g: (Option<string>, string) -> bool)
    ensures Response(Resolve(reg, addr, "apple", Simple, Snapshot(Some(Before), g)).verdict)
         == "STRING EXISTS\n"
    ensures Response(Resolve(reg, addr, "cherry", Simple, Snapshot(Some(Before), g)).verdict)
         == "STRING NOT FOUND\n"
  {
    assert OccursAt(Before, "apple", 0);
    assert forall i :: 0 <= i < |Before| ==> Before[i] != 'c';
    assert forall i: nat :: OccursAt(Before, "cherry", i) ==> Before[i] == 'c';
  }

  /** Reconciling mode: "cherry" misses and is queued; after the file gains a cherry
      line, an unrelated query for "apple" sweeps "cherry" out of the queue without
      the client asking for it again. */
  lemma ReconcilingExample(reg: Registry, addr: Addr, g: (Option<string>, string) -> bool)
    requires !g(Some(Before), "cherry") && g(Some(After), "apple") && g(Some(After), "cherry")
    ensures var first := Resolve(Connect(reg, addr), addr, "cherry", Reconciling, Snapshot(Some(Before), g));
            && first.verdict == NotFound
            && first.registry[addr] == ["cherry"]
            && var second := Resolve(first.registry, addr, "apple", Reconciling, Snapshot(Some(After), g));
               && second.verdict == Exists
               && second.registry[addr] == []
  {
  }

  /** Reconciling mode does not answer NOT FOUND just because the file is missing:
      the term is passed to grep unprotected, so a term grep takes as an option
      (GNU grep's `--version` exits with status 0 without opening any file) is
      answered EXISTS. */
  lemma OptionTermOnMissingFile(reg: Registry, addr: Addr)
    ensures var g := (file: Option<string>, term: string) => term == "--version";
            && Resolve(reg, addr, "--version", Reconciling, Snapshot(None, g)).verdict == Exists
            && Resolve(reg, addr, "--version", Simple, Snapshot(None, g)).verdict == NotFound
  {
    NothingInEmpty("--version");
  }
}
