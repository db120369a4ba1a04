# stones and repository labels, modelled in Dafny

This project models two parts of the `byakugan` build tooling.

The first is `stones`, a minimal log-structured key/value store. It has three parts:

- The **memtable** is a sorted in-memory map from byte keys to byte values.
- An **SSTable** is one file holding a sorted map. Each entry is written as `le32(|key|) ++ le32(|value|) ++ key ++ value`, in key order, with no header or footer.
- The **LSM tree** ties them together. `put` writes to the memtable and flushes it to `<dir>/sst-<n>.sst` once it holds 1000 entries. `get` looks in the memtable first, then in the directory's `.sst` files in ascending name order. `delete` touches only the memtable.

The second is the validation of the repository part of a build label (`@repo//pkg:name`). A repository name must match `^@[\w\-.][\w\-.~]*$` and must occur in the label it came from.

Modules, one per concept:

- `Wrappers`: `Option` and `Result`.
- `Lex`: the byte-string order of `Vec<u8>` and the string order of `String`.
- `SortedMap`: `BTreeMap<Vec<u8>, Vec<u8>>` as a strictly ascending entry sequence. `ToMap` gives the mapping it stands for; for a repeated key, the later write wins.
- `Memtable`: `memtable.rs`.
- `FileSystem`: regular files by path, the set of directories, the one I/O error, and the write faults the environment can inject.
- `SSTable`: `sstable.rs`. This covers the codec, the decoder as written next to the decoder as intended, and create/read/delete/exists.
- `LsmTree`: `lsmtree.rs`, as a sequential state machine. Each operation takes the tree and the file system and returns the result, the new tree and the new file system.
- `Label`: `label.rs`. The repository pattern is compiled to a small automaton and proved equal to its description. It also covers `str::contains`, the error span and the first `//` split of `Label::new`.

The store is modelled as the code behaves, including two defects:

- **The SSTable decoder misreads every record.** Its loop test reads 4 bytes and throws them away. The key length is then read from the encoder's value-length field. `SSTable.Decode` keeps that behaviour, and so does the store's read path. The round trip asserted in `crates/lib/stones/tests/sstable.rs:25-26` therefore does not hold for the map that test uses (see Findings).
- **Every flush writes the same file.** Flush names its file after the memtable's entry count. As long as every earlier put succeeded (`LsmTree.RunKeepsInv`), a flush happens exactly when that count reaches 1000, so every flush writes `<dir>/sst-1000.sst` and replaces the previous generation. After a failed flush the memtable keeps its 1000 entries, and the next put of a new key flushes to `<dir>/sst-1001.sst` (`LsmTree.FailedFlushShiftsFileName`).

Where the code and its comments disagree, the model follows the code:

- The doc comment on `Repo` says repository names contain only alphanumerics and underscores. The pattern also admits `-` and `.` anywhere after the `@`, and `~` after the second character.

## Model

| member | source | states |
|---|---|---|
| Memtable.New | crates/lib/stones/src/memtable.rs:11-13 | a new memtable holds no entries |
| Memtable.Put | crates/lib/stones/src/memtable.rs:15-18 | afterwards the key maps to the value and every other key keeps its value; the entry count grows by one exactly when the key was new |
| Memtable.Get | crates/lib/stones/src/memtable.rs:20-23 | returns the value the key maps to, or None when the key is absent |
| Memtable.Delete | crates/lib/stones/src/memtable.rs:25-28 | afterwards the key is absent and every other key is unchanged; deleting an absent key leaves the memtable unchanged |
| Memtable.IsFull | crates/lib/stones/src/memtable.rs:30-33 | true exactly when the number of distinct keys is at least the given size |
| Memtable.GetAfterPut | crates/lib/stones/src/memtable.rs:15-23 | reading a key just written gives the written value; every other key reads as before |
| Memtable.PutOverwrites | crates/lib/stones/src/memtable.rs:15-18 | two puts of one key leave the same memtable as the second put alone |
| Memtable.GetAfterDelete | crates/lib/stones/src/memtable.rs:20-28 | after a delete the key reads as absent; every other key reads as before |
| SortedMap.Insert | crates/lib/stones/src/memtable.rs:17 | the BTreeMap insert keeps keys strictly ascending and updates exactly the one key |
| SortedMap.TableExtensional | crates/lib/stones/src/memtable.rs:7 | a key-sorted map is determined by its contents, so two with equal contents are identical |
| SSTable.EncodedLength | crates/lib/stones/src/sstable.rs:25-36 | the encoding's length is the sum over entries of 8 + key length + value length; only the empty map encodes to no bytes |
| SSTable.ReadEncodedRecord | crates/lib/stones/src/sstable.rs:28-33 | a record whose lengths fit in 32 bits reads back as its key and value, with the following bytes left unread |
| SSTable.ReadRecordConsumesRecord | crates/lib/stones/src/sstable.rs:43-55 | a successful record read consumed exactly one encoded record with 32-bit lengths |
| SSTable.DecodeShortInput | crates/lib/stones/src/sstable.rs:39-42 | an empty file, or one of fewer than 4 bytes, decodes to the empty map |
| SSTable.DecodeFrames | crates/lib/stones/src/sstable.rs:42-58 | each loop iteration skips 4 bytes, reads one record and inserts it; decoding then continues with the remaining bytes |
| SSTable.DecodeFrameLayout | crates/lib/stones/src/sstable.rs:39-60 | frames of 4 skipped bytes plus a record, followed by fewer than 4 trailing bytes, decode to the frames' records inserted in order; trailing bytes are ignored |
| SSTable.DecodePaddedTable | crates/lib/stones/src/sstable.rs:42-57 | round trip for the layout the decoder expects: a sorted map written with 4 arbitrary bytes before each record decodes to that map |
| SSTable.DecodeRepeatedKey | crates/lib/stones/src/sstable.rs:57 | when a stream repeats a key, the decoded map holds the later value only |
| SSTable.ReadTruncatedRecord | crates/lib/stones/src/sstable.rs:44-55 | a record cut short at any byte is a read error |
| SSTable.DecodeTruncatedFrame | crates/lib/stones/src/sstable.rs:42-55 | once the probe succeeds, a record cut short makes the whole decode an error, whatever was read before; no partial map is returned |
| SSTable.DecodeMisreadsEncoding | crates/lib/stones/src/sstable.rs:42-55 | the decoder fails on the encoder's output whenever the first key's first 4 bytes, read as a number, exceed the file length |
| SSTable.CreateAndReadTestFails | crates/lib/stones/tests/sstable.rs:15-26 | the test's map {key1: value1, key2: value2} does not read back: decoding its encoding is an error, while the corrected decoder returns the map |
| SSTable.DecodeIntendedRoundTrip | crates/lib/stones/src/sstable.rs:25-60 | with the probe read used as the key-length read, decoding an encoded sorted map (lengths below 2^32) gives back the map |
| SSTable.Create | crates/lib/stones/src/sstable.rs:25-36 | succeeds iff the path is not a directory, the open is not refused and no write fails before the end; on success the file holds the encoding, on a failed write a proper prefix of it; no other path changes |
| SSTable.Read | crates/lib/stones/src/sstable.rs:38-42 | a regular file reads as the decoder's verdict on its bytes; a directory opens but fails the first probe read, which only ends the loop, so it reads as the empty map; a missing path is an error |
| SSTable.Delete | crates/lib/stones/src/sstable.rs:63-66 | succeeds iff the path is a regular file, and removes exactly that file |
| SSTable.ReadAfterCreate | crates/lib/stones/src/sstable.rs:25-42 | after a successful create the table exists and reads back as the decoder makes of the encoding, whatever the path held before |
| SSTable.DeleteThenNotExists | crates/lib/stones/src/sstable.rs:63-70 | after a successful delete, exists is false |
| LsmTree.New | crates/lib/stones/src/lsmtree.rs:17-22 | a new tree has an empty memtable over the given directory and satisfies the size invariant |
| LsmTree.Put | crates/lib/stones/src/lsmtree.rs:24-30 | below 1000 entries the write stays in the memtable and the file system is untouched; at or above 1000 the put's outcome is that of creating `<dir>/sst-<count>.sst` with the memtable, which is emptied on success; a failed put still leaves the write in the memtable |
| LsmTree.Flush | crates/lib/stones/src/lsmtree.rs:52-61 | the outcome is that of creating the file named after the entry count; on success that file holds the encoded memtable and the memtable is empty; on failure the tree is unchanged; no other path appears or disappears |
| LsmTree.Delete | crates/lib/stones/src/lsmtree.rs:47-50 | always succeeds, leaves the file system alone and removes only the key from the memtable |
| LsmTree.SstFiles | crates/lib/stones/src/lsmtree.rs:63-75 | listing a missing directory is an error; otherwise it lists exactly the regular files directly in the directory with extension `sst`, in strictly ascending order |
| LsmTree.Get | crates/lib/stones/src/lsmtree.rs:32-35 | a key in the memtable is answered from it, whatever the files hold; a miss with no directory is an error |
| LsmTree.ScanFindsFirstHit | crates/lib/stones/src/lsmtree.rs:37-44 | the scan returns a value iff some file is the first to hold the key; None iff every file reads and misses it; an error iff some file fails to read before any hit |
| LsmTree.GetResolvesInFileOrder | crates/lib/stones/src/lsmtree.rs:32-44 | on a memtable miss, get answers with the value in the first `.sst` file, in ascending name order, that holds the key, or None when no file does |
| LsmTree.PutKeepsInv | crates/lib/stones/src/lsmtree.rs:9-30 | a successful put keeps the memtable below 1000 entries |
| LsmTree.DeleteKeepsInv | crates/lib/stones/src/lsmtree.rs:47-50 | delete keeps the memtable below 1000 entries |
| LsmTree.RunKeepsInv | crates/lib/stones/src/lsmtree.rs:24-58 | any sequence of puts, deletes and gets that all succeed keeps the memtable below 1000 entries |
| LsmTree.EveryFlushWritesSst1000 | crates/lib/stones/src/lsmtree.rs:53-56 | under the invariant a flushing put has exactly 1000 entries and writes `<dir>/sst-1000.sst`, replacing that file's previous content |
| LsmTree.FailedFlushShiftsFileName | crates/lib/stones/src/lsmtree.rs:24-58 | with 999 entries, a put of a new key whose flush cannot open its file fails and leaves 1000 entries; the next put of a new key then succeeds, empties the memtable and writes `<dir>/sst-1001.sst` |
| LsmTree.FailedFlushKeepsMemtable | crates/lib/stones/src/lsmtree.rs:56-58 | when the flush's create fails, put returns the error and the memtable keeps every entry, the new write included |
| LsmTree.GetAfterPut | crates/lib/stones/src/lsmtree.rs:24-35 | a put that does not flush is returned by the next get, and every other key's answer is unchanged |
| LsmTree.DeleteDoesNotShadowFiles | crates/lib/stones/src/lsmtree.rs:37-50 | after delete, a key that a listed file holds is still answered from that file |
| LsmTree.DeleteIsLocal | crates/lib/stones/src/lsmtree.rs:47-50 | delete changes no other key's answer, and a second delete of the same key changes nothing |
| Label.IsRepoMatch | crates/lib/utils/src/label.rs:13 | the automaton accepts exactly `@`, then one of `[\w\-.]`, then any number of `[\w\-.~]` |
| Label.Contains | crates/lib/utils/src/label.rs:43 | true iff the needle occurs at some position of the haystack |
| Label.Parse | crates/lib/utils/src/label.rs:42-53 | succeeds iff the repo matches the pattern and occurs in the label; the result wraps exactly the repo and displays as it; the error is InvalidRepoName with span offset 0 and the repo's UTF-8 byte length |
| Label.New | crates/lib/utils/src/label.rs:38-40 | `Repo::new` delegates to `parse`: it accepts and rejects the same names, with the same error |
| Label.AcceptedRepoShape | crates/lib/utils/src/label.rs:13 | an accepted repo has at least 2 characters, starts with `@`, has no `~` right after it, and its byte length equals its character count |
| Label.RepoExamples | crates/lib/utils/tests/lib.rs:13-17 | `@foo` is accepted from `@foo//bar:baz` and displays as `@foo`; `@~a` is rejected and `@a~` accepted |
| Label.FirstSegment | crates/lib/utils/src/label.rs:128 | the first piece of splitting on `//` is the longest prefix with no `//` in it, ending at the first `//` or at the end |
| Label.LabelNew | crates/lib/utils/src/label.rs:126-135 | Label::new rejects exactly when the text before the first `//` is not a valid repository of the label; otherwise it stops at the unfinished part with that repository |
| Label.AsWrittenDisplayRejected | crates/lib/utils/src/label.rs:75 | every label with a valid repository displays, as written, to a string that Label::new rejects, because the repo part starts with `@@` |
| Label.AsWrittenDisplayExample | crates/lib/utils/src/label.rs:120-124 | the doc-comment label `@foo`, `bar`, `baz` displays as `@@foo//bar:baz`, which Label::new rejects |
| Label.DisplayRepoRoundTrip | crates/lib/utils/src/label.rs:56-58 | with the display `{repo}//{pkg}:{name}`, Label::new recovers exactly the label's repository |

## Left out

- Locking: the `RwLock` around the memtable, the `Arc` around it, and the race between a flush's snapshot and its clear (`lsmtree.rs:53`, `lsmtree.rs:58`) are concurrency. A flush is one atomic step here, so lost writes from that race are not modelled.
- The operating system: `read_dir`, `is_file`, error kinds, permissions and path normalisation are replaced by a map of regular files plus a set of directories. There is a single I/O error. Why a write fails is the `WriteFault` parameter. Directory paths are joined with `/` exactly as `format!` joins them.
- The failure of one directory entry inside `read_dir`, and the panic of `to_str().unwrap()` on a non-UTF-8 path, are not modelled. Paths are strings.
- Memory: allocation failure in `vec![0; n]`, including a huge length read from a corrupt file, is not modelled.
- SSTable.Create: whether the directory holding the path exists is part of the fault parameter; the model does not check parent directories.
- SSTable.EncodeRecord: `len() as u32` keeps the low 32 bits of each length. This is modelled explicitly. Round trips are proved only for lengths below 2^32, where the cast loses nothing.
- The store's read path uses the decoder as written, so store-level lemmas are stated in terms of what `SSTable.Read` returns rather than in terms of what was flushed.
- SSTable.Read: read faults are not modelled. An I/O error at a probe read would end the loop and return the map read so far; an I/O error at a record read would fail the whole read. A directory is read as on Unix, where opening it succeeds; the store itself never reads one, because it lists regular files only.
- Label.AcceptedRepoShape: the clause that the byte length equals the character count follows from the ASCII reading of `\w`. With the regex crate's Unicode `\w`, `@é` is accepted and is 3 bytes long but 2 characters.
- Label.IsRepoMatch: `\w` is taken as ASCII `[A-Za-z0-9_]`. The regex crate's `\w` is Unicode-aware, so the model rejects some non-ASCII letters and digits the source accepts.
- `Label::new` past the repository check, and `Label::parse`, are `todo!()` in the source (`label.rs:135`, `label.rs:162`). Only the `//` split and the repository check are modelled. The `InvalidLabel` error of `label.rs:128-131` cannot occur, because splitting always yields a first piece.
- `Repo`'s derived `Default` (an empty name the pattern rejects), and the derived orderings, hashing and getters, are not modelled.
- Everything else in the repository is out of scope: the CLI, the file watcher, build-tool detection, the progress-bar binaries, the log renderer and the error-message enums.

## Findings

| source | as written | input that shows it | evidently intended | confidence | as-written member | corrected member |
|---|---|---|---|---|---|---|
| crates/lib/stones/src/sstable.rs:42 | the loop test `read_exact(&mut [0; 4])` consumes 4 bytes and discards them, so every record is read 4 bytes late | the map {key1: value1, key2: value2} of `tests/sstable.rs:15-26`: the key length is read as 6, the value length as 0x3179656B, and the value read runs past the end | the 4-byte read that tests for more data is the key-length read, so decoding an encoded map gives the map back | high (not executed) | SSTable.DecodeMisreadsEncoding | SSTable.DecodeIntendedRoundTrip |
| crates/lib/utils/src/label.rs:75 | `Label` displays as `@{repo}//{pkg}:{name}`, but a valid `Repo` already starts with `@` | Label with repo `@foo`, pkg `bar`, name `baz` displays as `@@foo//bar:baz`, and Label::new rejects that string | `{repo}//{pkg}:{name}`, giving `@foo//bar:baz` as in the doc comment of `label.rs:120-124` | medium (not executed) | Label.AsWrittenDisplayRejected | Label.DisplayRepoRoundTrip |
