/** run() of write_mmseqs_clusters.py as an object whose fields are the
    script's local variables, updated record by record, and a loop over the
    input. Each method is proved to do what the functions of ClusterSpec
    say, so everything proved there holds of these methods. */
module WriteMmseqsClusters {
  import opened ClusterSpec

  class Partitioner {
    var group: seq<Record>    // cluster_seqs
    var numSeqs: nat          // num_seqs
    var cluster: nat          // cluster
    var out: Option<nat>      // out_fh, as the index its file was named with
    var log: seq<Event>       // every write, open, close and notice so far

    /** The fields as one value. */
    function State(): Partition
      reads this
    {
      Partition(group, numSeqs, cluster, out, log)
    }

    /** The locals start empty and singleton.txt is opened. */
    constructor ()
      ensures State() == Init()
    {
      group := [];
      numSeqs := 0;
      cluster := 0;
      out := None;
      log := [OpenSingleton];
    }

    /** The loop body for one record; `ok` is false when it raised IndexError. */
    method Step(rec: Record) returns (ok: bool)
      modifies this
      ensures ok == ClusterSpec.Step(old(State()), rec).Stepped?
      ensures State() == ClusterSpec.Step(old(State()), rec).st
    {
      if IsMarker(rec) {
        if out.Some? {
          if numSeqs > 1 {
            log := log + [WriteCluster(out.value, group)];
            cluster := cluster + 1;
          } else {
            log := log + [WriteSingleton(group)];
            if |group| == 0 {
              return false;
            }
            log := log + [Notice(group[0].id)];
          }
          group := [];
          numSeqs := 0;
          log := log + [Close];
          out := None;
        }
        out := Some(cluster);
        log := log + [Open(cluster)];
      } else {
        group := group + [rec];
        numSeqs := numSeqs + 1;
      }
      ok := true;
    }

    /** singleton.txt is closed. */
    method Finish()
      modifies this
      ensures State() == old(State()).(log := old(log) + [CloseSingleton])
    {
      log := log + [CloseSingleton];
    }
  }

  /** The whole script on the records the FASTA parser yields: a fresh
      partitioner, one step per record until one raises, then singleton.txt
      is closed. The result is what ClusterSpec.Run describes. */
  method Run(records: seq<Record>) returns (result: RunResult)
    ensures result == ClusterSpec.Run(records)
  {
    var p := new Partitioner();
    var i := 0;
    while i < |records|
      invariant 0 <= i <= |records|
      invariant Scan(records[..i]) == Completed(p.State())
    {
      assert records[..i + 1][..i] == records[..i];
      var ok := p.Step(records[i]);
      if !ok {
        ScanAbortIsFinal(records, i + 1);
        return Aborted(p.State(), i);
      }
      i := i + 1;
    }
    assert records[..i] == records;
    p.Finish();
    result := Completed(p.State());
  }
}
