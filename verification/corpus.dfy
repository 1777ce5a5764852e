/** The corpus file as seen by one resolution. The file is re-read on every
    access; within one call the model fixes a single snapshot of it. */
module Corpus {
  import opened Wrappers
  import opened Text

  /** `file` is the file's text, or `None` when it cannot be opened or read.
      `grepMatch(file, term)` says whether the external program `grep term path`
      exits with status 0 on that file. The term reaches grep as a bare argument,
      so grep may read it as a pattern or as an option (and a flag term can leave
      grep reading standard input instead of the file); its regex, line and
      option semantics are not modelled, not even for an unreadable file. */
  datatype Snapshot = Snapshot(file: Option<string>, grepMatch: (Option<string>, string) -> bool)

  /** `read_file_contents`: the file's text, with a read error turned into "". */
  function ReadFileContents(s: Snapshot): (r: string)
    ensures s.file.Some? ==> r == s.file.value
    ensures s.file.None? ==> r == ""
  {
    s.file.GetOr("")
  }

  /** `search_string_with_grep`: true exactly when grep exits with status 0 on the
      file as it stands in this snapshot; any other exit status means "not found". */
  predicate Grep(s: Snapshot, term: string): (r: bool)
    ensures r <==> s.grepMatch(s.file, term)
  {
    s.grepMatch(s.file, term)
  }

  /** The simple-mode test: `term in read_file_contents()`. */
  predicate SubstringHit(s: Snapshot, term: string) {
    Contains(ReadFileContents(s), term)
  }

  /** An unreadable file reads as "", in which no non-empty term occurs. */
  lemma UnreadableFindsNothing(s: Snapshot, term: string)
    requires s.file.None? && term != ""
    ensures !SubstringHit(s, term)
  {
    NothingInEmpty(term);
  }
}
