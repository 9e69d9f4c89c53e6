# MMseqs2 cluster partitioner

`scripts/write_mmseqs_clusters.py` reads the `all_seqs.fasta` stream that
MMseqs2 `easy-cluster` writes. In that stream a record with an empty
sequence is a marker and starts a new cluster. The script cuts the stream
into clusters in one pass:

- a group of two or more members goes to `<cluster>.fasta`, and the
  index `cluster` then goes up by one;
- a group of one member goes to `singleton.txt`, and its identifier is
  printed.

The model follows `run()` from the moment the four locals are set up to the
closing of `singleton.txt`. Every file operation becomes an `Event` appended
to a log, so a run's whole observable behaviour is one `Partition` value.

- `cluster_spec.dfy` (module `ClusterSpec`): the records, events and state
  as datatypes. One loop iteration is the function `Step`, and the loop is
  the left fold `Scan`. The lemmas here state what a step and a scan do.
- `write_mmseqs_clusters.dfy` (module `WriteMmseqsClusters`): the loop as
  imperative code. The class `Partitioner` holds the script's locals as
  fields, and its `Step` method updates them in place. The method `Run`
  loops over the records. Each method is proved equal to its function in
  `ClusterSpec`.
- `scenarios.dfy` (module `Scenarios`): small inputs, most in the shape of
  MMseqs2 output, worked through to their exact event logs, both as
  written and with the flush.
- `end_of_input_flush.dfy` (module `EndOfInputFlush`): the missing flush at
  end of input, with the corrected run and its properties (see Findings).

Three behaviours of `run()` are easy to misread:

- Nothing after the loop writes the last group: the loop is followed only
  by `singleton_record.close()`, so the group still pending at end of
  input is lost. In an MMseqs2 file, where each marker is followed by its
  members, that is always the last cluster. See Findings.
- A marker that finds an output open and an empty group raises
  `IndexError`. `SeqIO.write([])` to `singleton.txt` runs first, and then
  `cluster_seqs[0]` fails. This happens at a marker that follows an earlier
  marker with no ordinary record between them, unless that earlier marker
  is the first one and records came before it. The model records the empty
  write and aborts the run at that record (`ClusterSpec.ScanAbortsIff`,
  `ClusterSpec.AdjacentMarkersAbort`, `ClusterSpec.AbortAtAdjacentMarkers`, `Scenarios.EmptyGroupRaises`,
  `Scenarios.LeadingRecordsBeforeDoubleMarker`).
- Records before the first marker stay in `cluster_seqs` and join the first
  cluster (`ClusterSpec.LeadingRecordsKept`,
  `Scenarios.LeadingRecordJoinsFirstCluster`).

## Model

| member | source | states |
|---|---|---|
| ClusterSpec.Init | scripts/write_mmseqs_clusters.py:15-20 | the run starts with an empty group, count 0, index 0, no per-cluster output, and only `singleton.txt` opened; this state satisfies the invariant `Valid` |
| ClusterSpec.UpTo | scripts/write_mmseqs_clusters.py:26 | the sequence of the indices a run hands out, `0, 1, ..., n - 1`: length `n` and element `i` equal to `i` |
| ClusterSpec.FinalizeCluster | scripts/write_mmseqs_clusters.py:24-26 | a group of two or more is written in order to the open file, which is named by the current index; the group and count are reset, the output is closed and the index goes up by one; the log's written records grow by exactly that group and its cluster indices by exactly `[cluster]` |
| ClusterSpec.FinalizeSingleton | scripts/write_mmseqs_clusters.py:27-32 | a group of one is written to `singleton.txt` and its identifier is named; the group is reset, the output is closed and the index is unchanged; the written records grow by the group and no cluster file is written |
| ClusterSpec.FinalizeEmpty | scripts/write_mmseqs_clusters.py:27-29 | an empty group reaches the singleton branch: the empty write to `singleton.txt` is logged and IndexError is raised, with nothing else changed |
| ClusterSpec.StepRoutes | scripts/write_mmseqs_clusters.py:22-36 | a step fails exactly at a marker that finds an output open and an empty group; the index never goes down; an ordinary record is appended to the group with nothing else changed; the first marker only opens `<cluster>.fasta`; a later marker finalizes the group and then opens a file; every marker that does not fail leaves open the file named by the current index, as the last event |
| ClusterSpec.StepLog | scripts/write_mmseqs_clusters.py:22-36 | the records a step writes are exactly the group, and only at a marker with an output open; a step writes a cluster file exactly when, in addition, the group has more than one member, and then under the current index |
| ClusterSpec.StepPreservesValid | scripts/write_mmseqs_clusters.py:22-36 | every step, failing or not, keeps the invariant: the count equals the group's length, an open output is named by the current index, and the cluster files written are exactly `0, ..., cluster - 1` in order |
| ClusterSpec.StepAgrees | scripts/write_mmseqs_clusters.py:22-36 | a successful step on the next record keeps the state in agreement with the input read so far |
| ClusterSpec.ScanInvariant | scripts/write_mmseqs_clusters.py:21-36 | after any prefix the state is valid; if the prefix was scanned to its end, an output is open exactly when a marker has been seen, the group is the pending group, and the records written followed by the group are the ordinary records of the input, in input order |
| ClusterSpec.EmptyGroupInFront | scripts/write_mmseqs_clusters.py:23-29 | a marker that finds an empty group in a prefix of the input finds it in the whole input too |
| ClusterSpec.ScanAbortsIff | scripts/write_mmseqs_clusters.py:21-29 | the scan raises IndexError if and only if some marker finds an output open and an empty pending group, that is, a marker that follows an earlier marker with no ordinary record between them, unless that earlier marker is the first and records came before it; the scan stops at the first such marker |
| ClusterSpec.ScanPrefix | scripts/write_mmseqs_clusters.py:21-36 | a scan that reaches the end of the input reached the end of every prefix, and the prefix's log and index were a prefix of the log and a lower bound of the index |
| ClusterSpec.ScanAbortIsFinal | scripts/write_mmseqs_clusters.py:21-29 | once a prefix raises, every longer input raises at the same record with the same state |
| ClusterSpec.BeforeFirstMarker | scripts/write_mmseqs_clusters.py:22-36 | records before the first marker are only gathered: nothing is opened or written |
| ClusterSpec.LeadingRecordsKept | scripts/write_mmseqs_clusters.py:23-33 | the first marker keeps the records gathered before it and opens `0.fasta`, so they belong to the first cluster |
| ClusterSpec.AdjacentMarkersAbort | scripts/write_mmseqs_clusters.py:23-29 | two markers in a row, the first at the start or after some marker, make the run raise, at the second of them at the latest |
| ClusterSpec.NoMarkerPending | scripts/write_mmseqs_clusters.py:22-36 | while no marker has been read, the pending group is every record read so far |
| ClusterSpec.AbortAtAdjacentMarkers | scripts/write_mmseqs_clusters.py:23-29 | the converse of `AdjacentMarkersAbort`: a run that raises does so at a marker directly after another marker, and that earlier marker is the first record or follows an earlier marker |
| ClusterSpec.RunOutcome | scripts/write_mmseqs_clusters.py:21-37 | in every run the cluster files are exactly `0, ..., cluster - 1`, in order; a run that ends normally has written every ordinary record but the last pending group, once and in input order, has an output open exactly when the input had a marker, and closes `singleton.txt` last |
| WriteMmseqsClusters.Partitioner.constructor | scripts/write_mmseqs_clusters.py:15-20 | the fields start as the initial state |
| WriteMmseqsClusters.Partitioner.Step | scripts/write_mmseqs_clusters.py:22-36 | updating the fields in place gives exactly the state that `ClusterSpec.Step` gives, and reports whether the record raised IndexError |
| WriteMmseqsClusters.Partitioner.Finish | scripts/write_mmseqs_clusters.py:37 | `singleton.txt` is closed and nothing else changes |
| WriteMmseqsClusters.Run | scripts/write_mmseqs_clusters.py:15-37 | the loop over the records, stopping at the first IndexError, gives exactly `ClusterSpec.Run` of the input |
| Scenarios.FirstMarker | scripts/write_mmseqs_clusters.py:23-33 | a lone marker opens only `0.fasta` |
| Scenarios.FirstGroup | scripts/write_mmseqs_clusters.py:34-36 | members after the marker are gathered in order and counted |
| Scenarios.SecondMarker | scripts/write_mmseqs_clusters.py:24-33 | the next marker writes the pair to `0.fasta`, closes it and opens `1.fasta` |
| Scenarios.TwoClusters | scripts/write_mmseqs_clusters.py:21-37 | for marker, s1, s2, marker, s3, the exact log is: open singleton.txt, open 0, write `[s1, s2]` to 0, close, open 1, close singleton.txt; s3 is still pending |
| Scenarios.TrailingSingletonLost | scripts/write_mmseqs_clusters.py:21-37 | for marker, s1, nothing is written to any file |
| Scenarios.EmptyGroupRaises | scripts/write_mmseqs_clusters.py:27-29 | two markers at the start: the empty write to `singleton.txt` happens and the run raises at the second marker, leaving `singleton.txt` open |
| Scenarios.EmptyInput | scripts/write_mmseqs_clusters.py:20-37 | no records: `singleton.txt` is opened and closed and nothing else happens |
| Scenarios.LeadingThenMarker | scripts/write_mmseqs_clusters.py:23-36 | a record before the first marker is still the group after it |
| Scenarios.LeadingRecordsBeforeDoubleMarker | scripts/write_mmseqs_clusters.py:22-33 | for s1, marker, marker, the second marker finds the group `[s1]`: it is written to `singleton.txt` and named, `0.fasta` is opened again, and no IndexError is raised |
| Scenarios.LeadingRecordJoinsFirstCluster | scripts/write_mmseqs_clusters.py:21-36 | for s1, marker, s2, marker, the pair `[s1, s2]` is written to `0.fasta` |
| Scenarios.SingletonFirst | scripts/write_mmseqs_clusters.py:27-33 | a group of one goes to `singleton.txt`, is named, and `0.fasta` is opened again |
| Scenarios.SingletonThenPair | scripts/write_mmseqs_clusters.py:22-36 | after a singleton, the next group of two members is gathered under index 0 |
| Scenarios.SingletonKeepsIndex | scripts/write_mmseqs_clusters.py:21-36 | a singleton does not use up an index: the next group of two is written to `0.fasta` |
| Scenarios.RunLosesLastGroup | scripts/write_mmseqs_clusters.py:21-37 | as written, for marker, s1, the ordinary record s1 is in the input but is written to no file |
| EndOfInputFlush.RunFlushedWritesEveryMember | scripts/write_mmseqs_clusters.py:21-37 | with the flush, a run that ends normally after a marker has written every ordinary record exactly once, in input order, under cluster files `0, ..., cluster - 1`, and leaves no output open; the flush adds no failure: the flushed run raises exactly when the scan raises, and finishes whenever the run as written finishes |
| EndOfInputFlush.FlushNothingPending | scripts/write_mmseqs_clusters.py:32-37 | corrected flush, with an output open and nothing pending: the open output is only closed, then `singleton.txt`; nothing is written and no cluster index is added |
| EndOfInputFlush.FlushPending | scripts/write_mmseqs_clusters.py:24-32 | corrected flush, with an output open and a group pending: the group is finalized by the same size rule as at a marker, then `singleton.txt` is closed; the written records grow by exactly the group and the cluster indices stay `0, ..., cluster - 1` |
| EndOfInputFlush.FlushWritesPending | scripts/write_mmseqs_clusters.py:24-37 | the corrected flush never fails, always leaves no per-cluster output open, writes the pending group exactly when an output is open, and keeps the cluster files `0, ..., cluster - 1` |
| Scenarios.RunFlushedEndsOnMarker | scripts/write_mmseqs_clusters.py:21-37 | for marker, s1, s2, marker, both the run as written and the flushed run finish; the flushed run writes `[s1, s2]` to `0.fasta` and closes `1.fasta` without writing to it |
| Scenarios.RunFlushedKeepsLastGroup | scripts/write_mmseqs_clusters.py:21-37 | with the flush, for marker, s1, s1 goes to `singleton.txt` and is named |

## Left out

- Argument parsing and path joining (lines 8-13, 20, 33) are left out. Output files are named only by the `Open(idx)` event and `OpenSingleton`.
- FASTA parsing and writing by Bio.SeqIO are left out. The input is the sequence of records the parser yields, and a write is an event that carries the records it writes.
- The meaning of a file handle is left out. A reopened `<cluster>.fasta` is truncated; this happens when a singleton keeps the index. The last per-cluster handle is never closed by the script. The log shows both, but the model does not compute file contents.
- The notice is modelled as `Notice(id)`, an event that names the record. The exact text printed to stdout is left out.
- I/O errors are left out: a missing input file, an unwritable folder, a failed open.
- An IndexError is modelled only as the run stopping at that record, with the state at that moment. The traceback and the exit status are left out.
- The Python interpreter's outer layers are left out: `if __name__ == '__main__'`, the imports. They do not affect the partition.

## Findings

| source | as written | input that shows it | evidently intended | confidence | as-written member | corrected member |
|---|---|---|---|---|---|---|
| scripts/write_mmseqs_clusters.py:21-37 | the last group is finalized only by a following marker, and nothing after the loop writes it, so the group pending at end of input (in an MMseqs2 file the last cluster) is never written and its `<cluster>.fasta` is never closed by the script | a marker followed by one record `s1`: `s1` is written to no file | after the loop, the pending group is written by the same size rule, and the open output is closed; when nothing is pending it is only closed | high; not executed | Scenarios.RunLosesLastGroup | EndOfInputFlush.RunFlushedWritesEveryMember |
