# rdfs node request handlers, modelled in Dafny

This project models the two request handlers of an rdfs node (`lib/server.rb`):

- `Files#api_handler` ingests, clones by digest, deletes and probes files. It works on the
  storage root `RDFS_PATH` and on the `files` table of `RDFS_DB`.
- `Nodes#api_handler` registers and unregisters peers in the `nodes` table.

The state of one node has four parts:

- `store`: the regular files with their bytes.
- `dirs`: the directories below the root. The root `""` always exists.
- `catalog`: the rows of `files`, in insertion order.
- `nodes`: the rows of `nodes`.

The model has three layers:

- `ContentStore`, `Catalog` and `Registry` give the effect of each `File`/`FileUtils` call
  and each SQL statement as a pure function with its own contract.
- `Api` gives each `api_call` as a pure function from the old state to the new state and
  the response. `Properties` proves lemmas about sequences of requests.
- `Server.RdfsNode` is a class with the four state fields. It has one imperative method per
  `api_call` and one per handler. Each state-changing method's `ensures` sets its new state
  and its response equal to the `Api` function applied to the old state. `AddQuery` changes
  nothing, so it modifies nothing and states its answer directly in terms of
  `Catalog.Known`.

A handler either returns its `[200, "text/plain", response_text]` triple (`Done(Reply)`) or
raises an exception (`Raised(Fault)`). WEBrick turns an exception into a 500 answer. In the
model these cases raise, and no others (the file system and the database never fail on
their own; see "## Left out"):

- `filename` is missing (`nil`) in `add` or `delete`, where it is joined to the root path.
- `content` is missing in `add`, where it goes to `Base64.decode64`.
- `filename` is missing in `add_dup` and some catalog row carries the digest. When no row
  matches, `filename` is never used and the answer is NOT_FOUND.
- `mkdir_p` meets a regular file where a directory belongs.
- `File.write` targets a directory.
- `FileUtils.cp` gets a source that is not a regular file, a target equal to its source, or
  a target that cannot be opened.

A missing `sha256sum` does not raise. It is bound as NULL, the `WHERE sha256 = NULL` query
matches no row, and `add_dup` and `add_query` answer NOT_FOUND.

Base64 decoding and SHA-256 are the two fields of `Api.Env`, so every property holds for any
decoder and any digest function. `Time.now.to_i` is the parameter `now`.

The model follows the code as written. It differs from a tombstone-based replicated store
in these ways:

- `add` appends a catalog row without checking for an existing row at that name
  (`Properties.ReingestAppends`).
- `add_dup` copies bytes but adds no catalog row.
- `delete` removes the file and leaves its catalog row in place. There are no tombstones, so
  `add_query` keeps answering `EXISTS`, and a later `add_dup` copies from a file that is gone
  and raises ENOENT (`Properties.StaleCatalogAfterDeletes`).
- Every answer has status 200; there are no per-outcome status codes.

Two lines of `add_dup` (lib/server.rb:80 and :84) read as if they would raise. They are
listed under "## Findings". The handler the rest of the model uses, `Api.AddDup`, is the
evidently intended one: look up `RDFS_DB`'s `files` table and copy from the name in the
earliest matching row (`Catalog.FirstMatch`).

The model also fixes one library behaviour. `FileUtils.rmdir` on a non-empty directory
returns without error in the FileUtils of the Ruby releases this code was written for. So
`delete` of a non-empty directory answers "OK" and changes nothing.

## Model

| member | source | states |
|---|---|---|
| `Paths.NoSlashNoAncestors` | lib/server.rb:54-56 | a name without '/' has no ancestor directory, so skipping `mkdir_p` for it loses nothing |
| `Paths.NotOwnAncestor` | lib/server.rb:54-60 | no name is among its own ancestors, so `mkdir_p` never turns the target name into a directory |
| `Paths.AncestorOfAncestor` | lib/server.rb:55 | the directories `mkdir_p` creates are closed under taking ancestors |
| `Paths.Ancestors` | lib/server.rb:55 | the directories `mkdir_p(File.dirname(p))` needs: a name is among them exactly when `p` continues it after a '/' |
| `Paths.Basename` | lib/server.rb:86 | `File.basename` is the whole part of the path after its last '/': a suffix holding no '/', preceded by a '/' or by nothing |
| `Paths.BasenameOfPlainName` | lib/server.rb:86 | a name with no '/' is its own basename |
| `Paths.JoinedBasename` | lib/server.rb:86 | `dir/name` with no '/' in `name` has basename `name` |
| `Paths.Join` | lib/server.rb:86 | `File.join(dir, name)` is `name` at the root; otherwise, for a `name` with no '/', its ancestors are exactly `dir` and `dir`'s ancestors (it lies directly inside `dir`) and its basename is `name` |
| `Paths.JoinedAncestors` | lib/server.rb:86 | `dir/name` with no '/' in `name` has exactly `dir` and `dir`'s ancestors as ancestors |
| `ContentStore.Exists` | lib/server.rb:98 | `File.exists?` holds for the root, every directory and every regular file; in a well-formed tree an existing name has all its ancestors |
| `ContentStore.IsDir` | lib/server.rb:100 | `File.directory?` holds for the root and every directory; in a well-formed tree no directory is also a regular file |
| `ContentStore.MakeParents` | lib/server.rb:54-56 | `mkdir_p` succeeds iff no ancestor is a regular file; it then adds exactly the ancestors to `dirs`, touches no file and keeps the tree well formed; otherwise it raises EEXIST |
| `ContentStore.Write` | lib/server.rb:60 | `File.write` succeeds iff the name is no directory and all its ancestors exist; it then sets exactly that file's bytes; it raises EISDIR, ENOENT or ENOTDIR otherwise; it keeps the tree well formed |
| `ContentStore.Destination` | lib/server.rb:86 | the copy goes to the given name unless that is a directory, in which case its ancestors are exactly that directory and the directory's ancestors (it lies directly inside it) and its basename is the source's; at the root it is the source's basename itself |
| `ContentStore.Copy` | lib/server.rb:86 | `FileUtils.cp` succeeds iff the source is a regular file, differs from the target, and the target can be written; it then gives the target the source's bytes and changes nothing else; a missing source raises ENOENT, the same file raises ArgumentError |
| `ContentStore.Rmdir` | lib/server.rb:100-101 | the directory goes iff it is empty; nothing else changes and no error is raised; the tree stays well formed |
| `ContentStore.RmF` | lib/server.rb:103-104 | the file is gone, every other file keeps its bytes, directories are untouched, the tree stays well formed |
| `Catalog.Matches` | lib/server.rb:80-82 | the `SELECT ... WHERE sha256 = :sha256` result: exactly the matching rows, each once, in insertion order |
| `Catalog.MatchesNonEmpty` | lib/server.rb:83 | `row.count > 0` iff some catalog row carries the digest |
| `Catalog.FirstMatch` | lib/server.rb:84 | `row[0]` is the earliest row carrying the digest |
| `Registry.Count` | lib/server.rb:153-156 | `row.count` of the `SELECT ip` is positive iff the address has a row |
| `Registry.CountAppend` | lib/server.rb:157-159 | the INSERT adds one row for the address and none for any other |
| `Registry.UniqueCount` | lib/server.rb:153-159 | in a duplicate-free table a registered address has exactly one row |
| `Registry.Remove` | lib/server.rb:166-168 | the DELETE removes every row of the address, keeps the row count of every other address, and keeps the table duplicate-free |
| `Registry.RemoveAbsent` | lib/server.rb:166-168 | deleting an absent address leaves the table as it is |
| `Api.Add` | lib/server.rb:49-73 | "OK" iff `filename` and `content` are present, the name is no directory and no ancestor is a regular file. On success the store holds the decoded bytes at the name, the ancestors exist, and exactly one row `{name, SHA-256 of the stored bytes, now, 0, 0}` is appended after the unchanged earlier rows. On one of the modelled exceptions no file or row changes (only `mkdir_p`'s directories remain when `content` is missing). Node rows are never touched. Validity is kept. |
| `Api.AddDup` | lib/server.rb:75-91 | "NOT_FOUND" iff no row carries the digest (or it is missing), and then nothing changes. Otherwise it is the copy from the earliest such row's name: "OK" with the target given that file's bytes iff the copy succeeds, else its exception with no change. The catalog, directories and node rows are never touched. |
| `Api.Delete` | lib/server.rb:93-108 | "NOT_FOUND" with no change iff the name does not exist. Otherwise "OK": a file is removed, or a directory is removed iff it is empty. The catalog and node rows are never touched. Validity is kept. |
| `Api.AddQuery` | lib/server.rb:110-120 | "EXISTS" iff some catalog row carries the digest, "NOT_FOUND" otherwise; no state changes |
| `Api.AddNode` | lib/server.rb:152-163 | the address ends up registered. The answer is "added" iff it was absent and "already registered" iff it was present, with no change in that case. It gains exactly one row when new, other addresses keep their row counts, files and catalog are untouched, and the table stays duplicate-free. |
| `Api.DeleteNode` | lib/server.rb:165-169 | always "removed"; the address has no row afterwards, other addresses keep their row counts, files and catalog are untouched, the table stays duplicate-free |
| `Api.Added` | lib/server.rb:160 | the "added" message starts with "Node with IP ", continues with the address, and differs from the other two node messages |
| `Api.AlreadyRegistered` | lib/server.rb:162 | the "already registered" message starts with "Node with IP ", continues with the address, and differs from the "removed" message |
| `Api.Removed` | lib/server.rb:169 | the "removed" message starts with "Node with IP " and continues with the address |
| `Api.FilesApi` | lib/server.rb:40-124 | every answer is 200 `text/plain` with body OK, EXISTS or NOT_FOUND; an unrecognised `api_call` changes nothing and answers OK; node rows are untouched; validity is kept |
| `Api.NodesApi` | lib/server.rb:142-173 | never raises; every answer is 200 `text/plain`; an unrecognised `api_call` changes nothing and answers OK; files and catalog are untouched; validity is kept |
| `Properties.AddNodeTwice` | lib/server.rb:152-163 | a second `add_node` from the same address answers "already registered", changes nothing, and exactly one row remains |
| `Properties.DeleteNodeTwice` | lib/server.rb:165-169 | a repeated `delete_node` gives the same state and the same answer |
| `Properties.IngestThenQuery` | lib/server.rb:60-73 | after `add` the new row's digest is the SHA-256 of the bytes stored at the name (and of the decoded content), and `add_query` on it answers EXISTS |
| `Properties.ReingestAppends` | lib/server.rb:67-73 | ingesting a name twice gives two catalog rows for it, and the last content wins in the store (on a `files` table that allows duplicate names) |
| `Properties.DeleteKeepsQueryAnswers` | lib/server.rb:93-120 | no `delete` changes what any later `add_query` answers |
| `Properties.SingleParent` | lib/server.rb:54-55 | `dir/name` with no '/' in either part has exactly `dir` as ancestor, a corollary of `Paths.JoinedAncestors` |
| `Properties.ScenarioIngest` | lib/server.rb:49-73 | ingesting "a/b.txt" on an empty node gives directory "a", that one file and its catalog row |
| `Properties.ScenarioClone` | lib/server.rb:75-86 | cloning by its digest gives "a/c.txt" the same bytes and no new row |
| `Properties.ScenarioDeletes` | lib/server.rb:93-108 | deleting both files empties the store and leaves the row |
| `Properties.ScenarioStale` | lib/server.rb:75-120 | with only the stale row left, `add_query` answers EXISTS and `add_dup` raises ENOENT |
| `Properties.StaleCatalogAfterDeletes` | lib/server.rb:49-120 | the whole sequence ingest, probe, clone, delete both: each step answers as shown, and the catalog still reports the deleted content |
| `AsWritten.AddDupWithDb` | lib/server.rb:80 | with `DB` undefined, `add_dup` raises for every request and changes nothing |
| `AsWritten.AddDupWithRowIndex` | lib/server.rb:80-84 | with `row[0]` unavailable, `add_dup` raises iff some row carries the digest, answers NOT_FOUND otherwise, and changes nothing |
| `AsWritten.DbLookupNeverAnswers` | lib/server.rb:80 | the `DB` reading never gives the answer the intended handler gives |
| `AsWritten.RowIndexOnlyAnswersNotFound` | lib/server.rb:80-86 | the `row[0]` reading agrees with the intended handler exactly on NOT_FOUND, and raises wherever the intended handler finds a row |
| `AsWritten.CloneFailsAsWritten` | lib/server.rb:75-86 | the clone of "a/b.txt" as "a/c.txt" that the intended handler performs raises under both readings |
| `Server.RdfsNode.Add` | lib/server.rb:49-73 | new fields and response are `Api.Add` of the old ones; validity is kept |
| `Server.RdfsNode.AddDup` | lib/server.rb:75-91 | new fields and response are `Api.AddDup` of the old ones; validity is kept |
| `Server.RdfsNode.Delete` | lib/server.rb:93-108 | new fields and response are `Api.Delete` of the old ones; validity is kept |
| `Server.RdfsNode.AddQuery` | lib/server.rb:110-120 | modifies nothing; answers EXISTS iff some catalog row carries the digest, NOT_FOUND otherwise |
| `Server.RdfsNode.AddNode` | lib/server.rb:152-163 | new fields and response are `Api.AddNode` of the old ones; validity is kept |
| `Server.RdfsNode.DeleteNode` | lib/server.rb:165-169 | new fields and response are `Api.DeleteNode` of the old ones; validity is kept |
| `Server.RdfsNode.FilesApiHandler` | lib/server.rb:40-124 | new fields and reply are `Api.FilesApi` of the old ones; validity is kept |
| `Server.RdfsNode.NodesApiHandler` | lib/server.rb:142-173 | new fields and reply are `Api.NodesApi` of the old ones; validity is kept |

## Findings

Both rows come from reading the code; nothing was executed.

| source | as written | input that shows it | evidently intended | confidence | as-written member | corrected member |
|---|---|---|---|---|---|---|
| lib/server.rb:80 | the lookup calls `DB.prepare`, and no constant `DB` is defined in this file; every other query uses `RDFS_DB`. If `DB` is not defined elsewhere either, every `add_dup` raises NameError and WEBrick answers 500 | any `add_dup`, for example cloning "a/b.txt" as "a/c.txt" by a digest the catalog holds | query `RDFS_DB` | low, not executed: `DB` may be defined in a file that is not part of this model | `AsWritten.AddDupWithDb`, `AsWritten.DbLookupNeverAnswers`, `AsWritten.CloneFailsAsWritten` | `Api.AddDup` |
| lib/server.rb:84 | `row[0]` indexes the result set of `query.execute`. With a sqlite3-ruby whose `ResultSet` has no `[]`, this raises NoMethodError whenever a row matches. Were it an array of rows, `row[0]` would be an Array, and `String + Array` raises TypeError. Either way the answer is 500 and nothing is copied | `add_dup` whose digest the catalog holds, as above | the name of the earliest matching row | medium, not executed: it depends on the sqlite3-ruby release | `AsWritten.AddDupWithRowIndex`, `AsWritten.RowIndexOnlyAnswersNotFound`, `AsWritten.CloneFailsAsWritten` | `Api.AddDup` |

## Left out

- WEBrick setup, mounting, `do_POST` and the 500 page for an exception (lib/server.rb:3-36, 133-138): HTTP transport. The model stops at `Raised(fault)`.
- Logger configuration (lib/server.rb:11-16): output only. It compares with `==` instead of assigning, so it has no effect anyway.
- The SHA-256 and Base64 algorithms: foreign library calls, modelled as arbitrary functions in `Api.Env`.
- The unused `sha256file` helper (lib/server.rb:176-178): it is the same hash as `Env.sha256`.
- `Time.now.to_i`: the clock becomes the parameter `now`.
- SQL text and parameter binding: only their effect on the rows is modelled. `updated` and `deleted` are bound as the string '0' and modelled as the number 0.
- Catalog.Matches: the model takes the rows of `SELECT ... WHERE sha256 = :sha256` in rowid (insertion) order. The query has no ORDER BY, and SQLite's choice of order without one is not modelled, so which row `add_dup` copies from when several match is an assumption.
- File system and database failures: the model assumes every `mkdir_p`, `File.write`, `FileUtils.cp`, `rm_f`, `rmdir`, SELECT, INSERT and DELETE succeeds, apart from the cases listed above as raising. A full disk (ENOSPC), a permission error (EACCES), a full or locked database and an I/O error are not modelled. Nor are names the operating system refuses: a NUL byte (ArgumentError) or a segment longer than NAME_MAX (ENAMETOOLONG). The model accepts such names and answers OK.
- Api.Add: `File.write` (lib/server.rb:60) and the INSERT (lib/server.rb:67-73) are not in one transaction. If the INSERT raises after the write, the program leaves the new bytes at the name with no catalog row for them, and the caller gets 500. The model never takes this path. A `File.write` that fails after truncating the target is not modelled either.
- Properties.ReingestAppends: the `files` schema is not part of this model. The lemma assumes it has no uniqueness constraint on `name`. With such a constraint, a re-ingest would overwrite the bytes and then raise at the INSERT, leaving the old row with the old digest.
- Concurrency: requests are sequential steps. The race between the check and the insert in `add_node`, and between `add_query` and `add_dup`, is not modelled.
- Path normalisation: names are literal strings. Empty segments, a trailing '/', and "." or ".." segments are not resolved, so "a//b" and "a/b" are different names. One visible effect: a name ending in '/' is accepted by the model and refused by the program. On an empty node, `add` of "a/" answers OK in the model, creates directory "a" and stores a file "a/". In Ruby, `File.dirname` of ".../a/" is the root, so `mkdir_p` creates nothing, and opening ".../a/" for writing fails with EISDIR, so the request raises.
- Api.Delete: deleting "" when the storage root is empty would remove the root itself; the model keeps the root.
- ContentStore.Copy: when the catalogued name has since become a directory, `FileUtils.cp` truncates the target before it fails reading. The model raises with no change.
- ContentStore.MakeParents: it is exact only for a well-formed tree. There, the first regular file on the way stops `mkdir_p` before it creates anything.
- ContentStore.Write: when an ancestor is missing and another is a regular file, the model names ENOTDIR; the exact errno depends on which one the system reaches first.
- Ruby releases whose `FileUtils.rmdir` raises ENOTEMPTY: the model follows the older behaviour that ignores the error.
- The replica transmitter, tombstone purge and peer propagation: this source file does not have them.
