/** The end of input, as run() handles it and as it evidently means to.

    run() finalizes a group only when the next marker arrives, and nothing
    runs after its loop but the closing of singleton.txt. The group still
    pending at end of input (in an MMseqs2 file always the last cluster)
    therefore never reaches any output, and its per-cluster file is never
    closed by the script. `RunFlushed` is run() with the flush added: after
    the loop, an open per-cluster output gets the pending group under the
    same size rule, and is closed; when that group is empty (as after an
    input that ends on a marker following an earlier marker) the output is
    only closed. */
module EndOfInputFlush {
  import opened ClusterSpec

  /** The missing flush on the state the loop ends in: an open output gets
      the pending group under the same size rule and is closed, or is only
      closed when nothing is pending; then singleton.txt is closed. */
  function Flush(t: Partition, n: nat): RunResult
  {
    if t.out.Some? && t.group == [] then
      Completed(t.(out := None, log := t.log + [Close] + [CloseSingleton]))
    else if t.out.Some? then
      match Finalize(t)
      case Stepped(u) => Completed(u.(log := u.log + [CloseSingleton]))
      case IndexError(u) => Aborted(u, n)
    else
      Completed(t.(log := t.log + [CloseSingleton]))
  }

  /** run() with the missing end-of-input flush. */
  function RunFlushed(rs: seq<Record>): RunResult
  {
    match Scan(rs)
    case Aborted(t, at) => Aborted(t, at)
    case Completed(t) => Flush(t, |rs|)
  }

  /** With an output open and nothing pending, the flush only closes. */
  lemma {:induction false} FlushNothingPending(t: Partition, n: nat)
    requires Valid(t) && t.out.Some? && t.group == []
    ensures Flush(t, n) == Completed(t.(out := None, log := t.log + [Close] + [CloseSingleton]))
    ensures Written(Flush(t, n).st.log) == Written(t.log)
    ensures ClusterIndices(Flush(t, n).st.log) == UpTo(Flush(t, n).st.cluster)
  {
    var l1 := t.log + [Close];
    LogAppend(t.log, Close);
    LogAppend(l1, CloseSingleton);
  }

  /** With an output open and a group pending, the flush finalizes it. */
  lemma {:induction false} FlushPending(t: Partition, n: nat)
    requires Valid(t) && t.out.Some? && t.group != []
    ensures Finalize(t).Stepped?
    ensures Flush(t, n) == Completed(Finalize(t).st.(log := Finalize(t).st.log + [CloseSingleton]))
    ensures Written(Flush(t, n).st.log) == Written(t.log) + t.group
    ensures ClusterIndices(Flush(t, n).st.log) == UpTo(Flush(t, n).st.cluster)
  {
    if |t.group| > 1 {
      FinalizeCluster(t);
    } else {
      FinalizeSingleton(t);
    }
    LogAppend(Finalize(t).st.log, CloseSingleton);
  }

  /** The flush never fails, writes the pending group exactly when an output
      is open, keeps the cluster files 0, 1, ..., cluster - 1, and leaves no
      per-cluster output open. */
  lemma {:induction false} FlushWritesPending(t: Partition, n: nat)
    requires Valid(t)
    ensures Flush(t, n).Completed?
    ensures Flush(t, n).st.out.None?
    ensures Written(Flush(t, n).st.log) == Written(t.log) + (if t.out.Some? then t.group else [])
    ensures ClusterIndices(Flush(t, n).st.log) == UpTo(Flush(t, n).st.cluster)
  {
    if t.out.Some? && t.group == [] {
      FlushNothingPending(t, n);
    } else if t.out.Some? {
      FlushPending(t, n);
    } else {
      LogAppend(t.log, CloseSingleton);
      assert Flush(t, n) == Completed(t.(log := t.log + [CloseSingleton]));
    }
  }

  /** With the flush, once a marker has been seen every ordinary record is
      written exactly once, in input order; the cluster files are still
      0, 1, ..., cluster - 1; and no per-cluster output is left open. The
      flush adds no failure: the flushed run aborts exactly when the scan
      does, and finishes whenever run() as written finishes. */
  lemma {:induction false} RunFlushedWritesEveryMember(rs: seq<Record>)
    ensures RunFlushed(rs).Aborted? <==> Scan(rs).Aborted?
    ensures Run(rs).Completed? ==> RunFlushed(rs).Completed?
    ensures ClusterIndices(RunFlushed(rs).st.log) == UpTo(RunFlushed(rs).st.cluster)
    ensures RunFlushed(rs).Completed? && HasMarker(rs) ==>
      Written(RunFlushed(rs).st.log) == Members(rs) && RunFlushed(rs).st.out.None?
  {
    ScanInvariant(rs);
    match Scan(rs)
    case Aborted(t, at) =>
      assert RunFlushed(rs) == Aborted(t, at);
    case Completed(t) =>
      assert Agrees(t, rs);
      FlushWritesPending(t, |rs|);
      assert RunFlushed(rs) == Flush(t, |rs|);
  }
}
