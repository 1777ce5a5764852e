# Text-search server: query resolution and retry queues

A Dafny model of the query-resolution core of a small asyncio text-search
server (`server_socket.py`). Clients connect and send query terms; for each
term the server answers `"STRING EXISTS\n"` or `"STRING NOT FOUND\n"` against a
corpus file. In simple mode the answer is Python substring containment in the
file's text, read fresh for every query. In reconciling mode the answer comes
from running `grep`. Each session also keeps a retry queue of terms it was told
are missing. Every query removes its own term from that queue, queues the term
again if it missed, and then sweeps the queue, dropping every term that `grep`
now finds.

Layout (one module per component):

- `wrappers.dfy` (`Wrappers`): `Option`, used for a failed file read and for `del` on a missing key.
- `text.dfy` (`Text`): Python's `needle in hay` on strings, proved equal to "occurs at some index".
- `queue.dfy` (`RetryQueue`): the retry queue as a list, with `list.remove`, the pending-term filter and the sweep loop exactly as written (iterate over a copy, `remove` each hit).
- `corpus.dfy` (`Corpus`): one snapshot of the corpus file (`read_file_contents` and the abstract `grep` test).
- `resolver.dfy` (`Resolver`): verdicts, the mode flag, the session registry and `search_term_in_linuxpath`.
- `sessions.dfy` (`Sessions`): connect, disconnect, the per-connection read loop and the startup flag.
- `scenario.dfy` (`Scenario`): an apple/banana/cherry walk-through of both modes, with the file gaining a line between two queries.

Environment abstractions:

- The file is an `Option<string>` per query, with `None` meaning it could not be opened or read.
- `grep` is an uninterpreted parameter `grepMatch(file, term)`, given the same `Option<string>` view of the file. It decides the unreadable case too, because the term reaches grep as a bare argument that grep may parse as an option. It is deliberately not identified with substring containment, because the two modes really do match differently.
- Every call sees one fixed snapshot of the file.
- A session's read loop is a sequence of `Request(data, snapshot)`. The loop ends at the first empty read, or when the sequence runs out.

Facts about the code that shape the model:

- The retry queue is a Python list. The model keeps its order and proves it never holds duplicates.
- Reconciling mode runs the external `grep` program, with its regex and line semantics. That test is left abstract.
- `del client_queues[addr]` raises `KeyError` on a missing key. `Disconnect` models this as `None`, and `HandleClient` proves that case never arises.

## Model

| member | source | states |
|---|---|---|
| Resolver.Response | server_socket.py:87-90 | only the two literals `"STRING EXISTS\n"` and `"STRING NOT FOUND\n"` are ever sent, and the EXISTS literal is sent exactly for the Exists verdict |
| Resolver.QueueOf | server_socket.py:81 | `get(addr, [])` yields the session's own queue when it has one and an empty list otherwise |
| Resolver.ResolveQueue | server_socket.py:83-97 | Exists iff grep finds the term; afterwards the term is queued iff the answer was NOT FOUND; no queued term is found by grep; nothing is queued that was not there before except the term; every other still-missing term stays queued; a duplicate-free queue stays duplicate-free |
| Resolver.Resolve | server_socket.py:49-108 | the verdict is Exists iff the mode's test holds (substring of the text read in simple mode, grep in reconciling mode); the registry keeps its keys and every other session's queue; simple mode, or an address with no entry, leaves the registry unchanged; in reconciling mode the caller's queue gets the guarantees of ResolveQueue |
| Resolver.ResolveQueueExact | server_socket.py:84-97 | on a duplicate-free queue the new queue is the old one without the term, filtered to the terms grep misses in their old order, followed by the term exactly when it missed |
| Resolver.ResolveQueueIdempotent | server_socket.py:84-97 | asking the same term twice against the same corpus gives the same verdict and leaves the queue as the first query left it |
| RetryQueue.ListRemove | server_socket.py:85 | `list.remove` takes out exactly one copy of a term that is present, and on a duplicate-free list leaves no copy |
| RetryQueue.RemoveIsErase | server_socket.py:84-85 | on a duplicate-free list, removing the term when it is present is the same as erasing every occurrence |
| RetryQueue.Pending | server_socket.py:95-97 | the reference filter: a term survives iff it was in the list and grep misses it; it never grows the list and keeps it duplicate-free |
| RetryQueue.SweepFrom | server_socket.py:95-97 | iterating over a copy and removing each hit from the live list never removes an absent element, and leaves exactly the reference filter's result |
| RetryQueue.Sweep | server_socket.py:95-97 | the whole sweep equals the reference filter: hits removed, misses kept in order, nothing added |
| Text.Contains | server_socket.py:101 | `term in file_contents` holds iff the term occurs at some index of the text |
| Text.NothingInEmpty | server_socket.py:101 | no non-empty term is contained in the empty text |
| Corpus.ReadFileContents | server_socket.py:110-122 | a readable file yields its text, and a read error yields `""` |
| Corpus.Grep | server_socket.py:60-75 | the reconciling test is true exactly when the `grep` run exits with status 0; nothing else about grep is fixed, not even for an unreadable file |
| Corpus.UnreadableFindsNothing | server_socket.py:117-122 | with the file unreadable, the simple-mode test finds no non-empty term in the fallback `""` |
| Sessions.Connect | server_socket.py:27 | the address gets an empty queue, replacing any earlier one, and every other session is kept |
| Sessions.Disconnect | server_socket.py:47 | fails exactly when the address has no entry; otherwise removes that key alone and keeps every other queue |
| Sessions.ConnectThenDisconnect | server_socket.py:27-47 | connecting and then disconnecting an address is the same as removing its key: whatever it held is gone and every other session is kept |
| Sessions.Answered | server_socket.py:30-33 | the loop answers every read before the first empty one, and all of those are non-empty |
| Sessions.Serve | server_socket.py:30-40 | for an address with an entry (line 38 raises `KeyError` otherwise), one verdict per answered read, each decided by that read's term and corpus snapshot alone; other sessions untouched; simple mode leaves the registry alone; the session's queue stays duplicate-free |
| Sessions.ServeQueuesOnlyAsked | server_socket.py:30-40 | a session's queue only ever holds terms it held at the start or that the session asked for |
| Sessions.ServeEndsSwept | server_socket.py:83-97 | after a reconciling session has answered a read, no queued term is found by that last read's grep |
| Sessions.HandleClient | server_socket.py:15-47 | a connection whose teardown completes answers each read by its own term and snapshot, and afterwards the address has no entry while every other session is as before |
| Sessions.AnsweredExistsLeavesQueue | server_socket.py:84-97 | once a term is answered EXISTS it stays out of the queue until it is asked again |
| Sessions.UnreadableSessionFindsNothing | server_socket.py:30-37 | in simple mode, when the file cannot be read, every query of a session is answered NOT FOUND |
| Sessions.ParseMode | server_socket.py:141-142 | reconciling mode is on iff there is exactly one argument after the program name and it is exactly `True` |
| Scenario.SimpleModeExample | server_socket.py:98-104 | on the corpus "apple\nbanana\n", "apple" gets `STRING EXISTS` and "cherry" gets `STRING NOT FOUND` |
| Scenario.OptionTermOnMissingFile | server_socket.py:71-90 | with the file missing, a term grep accepts as an option such as `--version` is answered EXISTS in reconciling mode and NOT FOUND in simple mode |
| Scenario.ReconcilingExample | server_socket.py:83-97 | a missed "cherry" is queued; once the file gains it, an unrelated query for "apple" sweeps it out of the queue |

## Left out

- The asyncio server, stream reads and writes, `drain`, `close` and all printing (server_socket.py:15-47, 124-138): this is I/O plumbing. Only the registry updates and the one-answer-per-read loop are modelled.
- `data.decode()` failing on bytes that are not valid UTF-8 (server_socket.py:34): requests are modelled as already-decoded strings.
- The `grep` subprocess (server_socket.py:71-75): an external program with regex, line and option semantics, kept as the uninterpreted `grepMatch`. The term reaches grep as a bare argument (no `-e` or `--`), so grep may parse it as an option; the model therefore fixes nothing about grep on an unreadable file.
- UnreadableFindsNothing: promises nothing about grep, because grep can exit with status 0 on a missing file when the term is an option such as `--version`.
- UnreadableSessionFindsNothing: holds for simple mode only, for the same reason.
- Corpus.ReadFileContents: a file whose bytes do not decode in the locale encoding makes `file.read()` (server_socket.py:119) raise `UnicodeDecodeError`, which `except IOError` does not catch; the connection then closes without an answer. The model treats every file as either readable text or unreadable.
- Corpus.Grep: a term containing a NUL character makes `subprocess.check_output` (server_socket.py:72) raise `ValueError`, and line 74 catches only `CalledProcessError`; the connection then closes without an answer. A term that grep reads as a flag (`-v`, `-i`, `-c`, `-n`, or `-e`/`-f`, which take the file path as their argument) leaves grep with no file operand. grep then reads the server's inherited standard input instead of the corpus, and the call may never return; because `check_output` blocks inside the coroutine, every session stalls with it, at the query and again at every later sweep while the term is queued. The model gives every term a verdict like any other, so Serve and HandleClient answer every non-empty read.
- Sessions.HandleClient: promises removal of the entry only for a teardown that completes. When the peer resets the connection or a write fails, the exception re-raised by `writer.wait_closed()` (server_socket.py:45) ends the `finally` block before `del client_queues[addr]` (server_socket.py:47) runs, so the entry and its queue stay in the registry. The model always completes the teardown.
- The actual file open and read (server_socket.py:117-119): each query gets an `Option<string>`.
- Concurrent access to `client_queues`, and the file changing between the greps of one call: each call sees one snapshot, and each session is modelled in isolation from the others.
- Registry changes made by other connections between two reads of one session: each session's loop is modelled on its own.
- The interactive client (client_socket.py): a socket REPL whose only logic is the `bye` check.
