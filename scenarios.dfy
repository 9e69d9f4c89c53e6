/** Small inputs worked through the partitioner, most in the shape of
    MMseqs2 output: a marker record (the representative's name with no
    sequence) and then the members of its cluster. Some put records before
    the first marker or two markers in a row, to show how run() treats
    them. The last few compare run() as written with the flushed run. */
module Scenarios {
  import opened ClusterSpec
  import EndOfInputFlush

  const m := Record("rep", "")
  const s1 := Record("s1", "ACGT")
  const s2 := Record("s2", "TTTT")
  const s3 := Record("s3", "GGGG")

  /** The first marker only opens 0.fasta. */
  lemma {:induction false} FirstMarker()
    ensures Scan([m]) == Completed(Partition([], 0, 0, Some(0), [OpenSingleton, Open(0)]))
  {
    LeadingRecordsKept([], m);
    assert [] + [m] == [m];
  }

  lemma {:induction false} FirstGroup()
    ensures Scan([m, s1, s2]) == Completed(Partition([s1, s2], 2, 0, Some(0), [OpenSingleton, Open(0)]))
  {
    FirstMarker();
    ScanSnoc([m], s1);
    assert [m] + [s1] == [m, s1];
    ScanSnoc([m, s1], s2);
    assert [m, s1] + [s2] == [m, s1, s2];
    assert [s1] + [s2] == [s1, s2];
  }

  lemma {:induction false} SecondMarker()
    ensures Scan([m, s1, s2, m]) == Completed(Partition([], 0, 1, Some(1),
      [OpenSingleton, Open(0), WriteCluster(0, [s1, s2]), Close, Open(1)]))
  {
    FirstGroup();
    ScanSnoc([m, s1, s2], m);
    assert [m, s1, s2] + [m] == [m, s1, s2, m];
  }

  /** Two clusters: the first, of two records, goes to 0.fasta; the second,
      a single record with no marker after it, is never written. */
  lemma {:induction false} TwoClusters()
    ensures Run([m, s1, s2, m, s3]) ==
      Completed(Partition([s3], 1, 1, Some(1),
        [OpenSingleton, Open(0), WriteCluster(0, [s1, s2]), Close, Open(1), CloseSingleton]))
  {
    SecondMarker();
    ScanSnoc([m, s1, s2, m], s3);
    assert [m, s1, s2, m] + [s3] == [m, s1, s2, m, s3];
  }

  /** One record after the only marker: nothing is written, neither to
      0.fasta nor to singleton.txt. */
  lemma {:induction false} TrailingSingletonLost()
    ensures Scan([m, s1]) == Completed(Partition([s1], 1, 0, Some(0), [OpenSingleton, Open(0)]))
    ensures Run([m, s1]) ==
      Completed(Partition([s1], 1, 0, Some(0), [OpenSingleton, Open(0), CloseSingleton]))
  {
    FirstMarker();
    ScanSnoc([m], s1);
    assert [m] + [s1] == [m, s1];
  }

  /** Two markers in a row at the start: the second finds an open output and
      an empty group; the empty write to singleton.txt happens and then the
      run raises IndexError at that record. */
  lemma {:induction false} EmptyGroupRaises()
    ensures Run([m, m, s1]) ==
      Aborted(Partition([], 0, 0, Some(0), [OpenSingleton, Open(0), WriteSingleton([])]), 1)
  {
    FirstMarker();
    ScanSnoc([m], m);
    assert [m] + [m] == [m, m];
    ScanSnoc([m, m], s1);
    assert [m, m] + [s1] == [m, m, s1];
  }

  /** No records at all: singleton.txt is opened and closed, nothing else. */
  lemma {:induction false} EmptyInput()
    ensures Run([]) == Completed(Partition([], 0, 0, None, [OpenSingleton, CloseSingleton]))
  {
  }

  lemma {:induction false} LeadingThenMarker()
    ensures Scan([s1, m, s2]) == Completed(Partition([s1, s2], 2, 0, Some(0), [OpenSingleton, Open(0)]))
  {
    LeadingRecordsKept([s1], m);
    assert [s1] + [m] == [s1, m];
    ScanSnoc([s1, m], s2);
    assert [s1, m] + [s2] == [s1, m, s2];
    assert [s1] + [s2] == [s1, s2];
  }

  /** Two markers in a row do not raise when records came before the first
      of them: the second marker finds the group of those records. */
  lemma {:induction false} LeadingRecordsBeforeDoubleMarker()
    ensures Scan([s1, m, m]) == Completed(Partition([], 0, 0, Some(0),
      [OpenSingleton, Open(0), WriteSingleton([s1]), Notice("s1"), Close, Open(0)]))
  {
    LeadingRecordsKept([s1], m);
    assert [s1] + [m] == [s1, m];
    ScanSnoc([s1, m], m);
    assert [s1, m] + [m] == [s1, m, m];
    assert [s1][0].id == "s1";
  }

  /** A record before the first marker is written with the first cluster. */
  lemma {:induction false} LeadingRecordJoinsFirstCluster()
    ensures Run([s1, m, s2, m]) ==
      Completed(Partition([], 0, 1, Some(1),
        [OpenSingleton, Open(0), WriteCluster(0, [s1, s2]), Close, Open(1), CloseSingleton]))
  {
    LeadingThenMarker();
    ScanSnoc([s1, m, s2], m);
    assert [s1, m, s2] + [m] == [s1, m, s2, m];
  }

  lemma {:induction false} SingletonFirst()
    ensures Scan([m, s1, m]) == Completed(Partition([], 0, 0, Some(0),
      [OpenSingleton, Open(0), WriteSingleton([s1]), Notice("s1"), Close, Open(0)]))
  {
    FirstMarker();
    ScanSnoc([m], s1);
    assert [m] + [s1] == [m, s1];
    assert Scan([m, s1]) == Completed(Partition([s1], 1, 0, Some(0), [OpenSingleton, Open(0)]));
    ScanSnoc([m, s1], m);
    assert [m, s1] + [m] == [m, s1, m];
    assert [s1][0].id == "s1";
  }

  lemma {:induction false} SingletonThenPair()
    ensures Scan([m, s1, m, s2, s3]) == Completed(Partition([s2, s3], 2, 0, Some(0),
      [OpenSingleton, Open(0), WriteSingleton([s1]), Notice("s1"), Close, Open(0)]))
  {
    SingletonFirst();
    ScanSnoc([m, s1, m], s2);
    assert [m, s1, m] + [s2] == [m, s1, m, s2];
    ScanSnoc([m, s1, m, s2], s3);
    assert [m, s1, m, s2] + [s3] == [m, s1, m, s2, s3];
    assert [s2] + [s3] == [s2, s3];
  }

  /** A singleton goes to singleton.txt, is named, and leaves the index at 0,
      so the next cluster of two is written to 0.fasta. */
  lemma {:induction false} SingletonKeepsIndex()
    ensures Run([m, s1, m, s2, s3, m]) ==
      Completed(Partition([], 0, 1, Some(1),
        [OpenSingleton, Open(0), WriteSingleton([s1]), Notice("s1"), Close, Open(0),
         WriteCluster(0, [s2, s3]), Close, Open(1), CloseSingleton]))
  {
    SingletonThenPair();
    ScanSnoc([m, s1, m, s2, s3], m);
    assert [m, s1, m, s2, s3] + [m] == [m, s1, m, s2, s3, m];
  }

  /** As written: a cluster of one record after the only marker is read, and
      neither written to a cluster file nor to singleton.txt. */
  lemma {:induction false} RunLosesLastGroup()
    ensures Members([m, s1]) == [s1]
    ensures Run([m, s1]).Completed?
    ensures Written(Run([m, s1]).st.log) == []
  {
    var rs := [m, s1];
    TrailingSingletonLost();
    RunOutcome(rs);
    assert rs[..1] == [m] && [m][..0] == [];
    assert IsMarker(m) && !IsMarker(s1);
    assert Members([m]) == [] && PendingGroup([m]) == [];
    assert Members(rs) == [s1] && PendingGroup(rs) == [s1];
    var w := Written(Run(rs).st.log);
    assert w + [s1] == [s1];
    assert |w| == 0;
  }

  /** With the flush, the lone trailing record goes to singleton.txt and is
      named. */
  lemma {:induction false} RunFlushedKeepsLastGroup()
    ensures EndOfInputFlush.RunFlushed([m, s1]) ==
      Completed(Partition([], 0, 0, None,
        [OpenSingleton, Open(0), WriteSingleton([s1]), Notice("s1"), Close, CloseSingleton]))
  {
    TrailingSingletonLost();
    assert [s1][0].id == "s1";
  }

  /** An input that ends on a marker right after a complete cluster leaves
      nothing pending: the flush then only closes the open output, and
      run() as written also finishes. */
  lemma {:induction false} RunFlushedEndsOnMarker()
    ensures Run([m, s1, s2, m]).Completed?
    ensures EndOfInputFlush.RunFlushed([m, s1, s2, m]) ==
      Completed(Partition([], 0, 1, None,
        [OpenSingleton, Open(0), WriteCluster(0, [s1, s2]), Close, Open(1),
         Close, CloseSingleton]))
  {
    SecondMarker();
  }
}
