/** Ring-buffer optimisation (internal/ringbuffer/ringbuffer.go): the
    per-NIC decision, the pass over all discovered NICs, and the table of
    results. */
module RingBuffer {
  import opened Common
  import opened GoText
  import opened Ethtool
  import opened Nic

  // ---------------------------------------------------------------------
  // The ring writer

  /** One `ethtool -G <iface> rx <rx> tx <tx>` invocation. */
  datatype SetCall = SetCall(iface: string, rx: int, tx: int)

  /** The command that writes ring sizes.  Every call is logged in `calls`;
      whether the host accepts it is the host's answer `accepts`. */
  class RingWriter {
    var calls: seq<SetCall>
    const accepts: SetCall -> bool

    constructor (accepts: SetCall -> bool)
      ensures calls == [] && this.accepts == accepts
    {
      calls := [];
      this.accepts := accepts;
    }

    /** ethtoolWrapper.SetRingBufferSettings: true when the write succeeds. */
    method SetRingBufferSettings(iface: string, rx: int, tx: int) returns (ok: bool)
      modifies this
      ensures calls == old(calls) + [SetCall(iface, rx, tx)]
      ensures ok == accepts(SetCall(iface, rx, tx))
    {
      calls := calls + [SetCall(iface, rx, tx)];
      ok := accepts(SetCall(iface, rx, tx));
    }
  }

  // ---------------------------------------------------------------------
  // OptimizeNIC

  /** The four checks of OptimizeNIC, in the order the code makes them. */
  datatype Decision = SkipInfiniband | AlreadyOptimal | InvalidMax | Write

  function Decide(v: NicRecord): Decision {
    if v.linkType == Infiniband then SkipInfiniband
    else if v.isOptimal then AlreadyOptimal
    else if v.rxMax <= 0 || v.txMax <= 0 then InvalidMax
    else Write
  }

  /** A write is due exactly for a non-Infiniband record that is not yet
      optimal and has two positive maxima; the maxima are only judged
      invalid for a non-Infiniband record that is not yet optimal. */
  lemma DecideWrites(v: NicRecord)
    ensures Decide(v) == Write <==> v.linkType != Infiniband && !v.isOptimal && v.rxMax > 0 && v.txMax > 0
    ensures Decide(v) == InvalidMax ==> v.linkType != Infiniband && !v.isOptimal
  {
  }

  /** The write OptimizeNIC asks for: both rings at their maxima. */
  function Request(v: NicRecord): SetCall {
    SetCall(v.name, v.rxMax, v.txMax)
  }

  /** The writes OptimizeNIC issues for a record: one, or none. */
  function Writes(v: NicRecord): seq<SetCall> {
    if Decide(v) == Write then [Request(v)] else []
  }

  /** What OptimizeNIC returns, and the record afterwards. */
  datatype Outcome = Outcome(optimized: bool, error: Option<Error>, after: NicRecord)

  /** OptimizeNIC as a function of the record and the host's answer to the
      write.  An accepted write is trusted: the current sizes are set to
      the maxima without reading them back. */
  function Optimize(v: NicRecord, accepts: SetCall -> bool): Outcome
  {
    match Decide(v)
    case SkipInfiniband => Outcome(false, None, v)
    case AlreadyOptimal => Outcome(false, None, v)
    case InvalidMax => Outcome(false, Some(InvalidMaxValues(v.name, v.rxMax, v.txMax)), v)
    case Write =>
      if accepts(Request(v)) then Outcome(true, None, v.(rxCurrent := v.rxMax, txCurrent := v.txMax, isOptimal := true))
      else Outcome(false, Some(SetRingFailed(v.name)), v)
  }

  /** Only an accepted write reports an optimisation, and only then does
      the record change; a change touches nothing but the two current sizes
      and the optimal flag. */
  lemma OptimizeFrame(v: NicRecord, accepts: SetCall -> bool)
    ensures var o := Optimize(v, accepts);
      && (o.optimized ==> o.error == None && Decide(v) == Write && accepts(Request(v)))
      && (!o.optimized ==> o.after == v)
      && o.after.(rxCurrent := v.rxCurrent, txCurrent := v.txCurrent, isOptimal := v.isOptimal) == v
  {
  }

  /** ringbuffer.go's OptimizeNIC, updating the record in place. */
  method OptimizeNIC(nic: NIC, w: RingWriter) returns (optimized: bool, err: Option<Error>)
    modifies nic, w
    ensures var o := Optimize(old(nic.View()), w.accepts);
      optimized == o.optimized && err == o.error && nic.View() == o.after
    ensures w.calls == old(w.calls) + Writes(old(nic.View()))
  {
    if nic.linkType == Infiniband {
      return false, None;
    }
    if nic.isOptimal {
      return false, None;
    }
    if nic.rxMax <= 0 || nic.txMax <= 0 {
      return false, Some(InvalidMaxValues(nic.name, nic.rxMax, nic.txMax));
    }
    var ok := w.SetRingBufferSettings(nic.name, nic.rxMax, nic.txMax);
    if !ok {
      return false, Some(SetRingFailed(nic.name));
    }
    nic.rxCurrent := nic.rxMax;
    nic.txCurrent := nic.txMax;
    nic.isOptimal := true;
    return true, None;
  }

  /** The outcome of each check: an Infiniband record is left alone; an
      optimal one is skipped before its maxima are looked at, so zero maxima
      are no error there; invalid maxima and a refused write are errors that
      change nothing; only an accepted write changes the record, and then
      only its current sizes and its optimal flag. */
  lemma OptimizeCases(v: NicRecord, accepts: SetCall -> bool)
    ensures var o := Optimize(v, accepts);
      (v.linkType == Infiniband ==> o == Outcome(false, None, v) && Writes(v) == [])
      && (v.linkType != Infiniband && v.isOptimal ==> o == Outcome(false, None, v) && Writes(v) == [])
      && (v.linkType != Infiniband && !v.isOptimal && (v.rxMax <= 0 || v.txMax <= 0) ==>
            o == Outcome(false, Some(InvalidMaxValues(v.name, v.rxMax, v.txMax)), v) && Writes(v) == [])
      && (Decide(v) == Write ==>
            (Writes(v) == [SetCall(v.name, v.rxMax, v.txMax)]
             && (accepts(Request(v)) ==>
                   (o.optimized && o.error == None
                    && o.after.rxCurrent == v.rxMax && o.after.txCurrent == v.txMax && o.after.isOptimal
                    && o.after.(rxCurrent := v.rxCurrent, txCurrent := v.txCurrent, isOptimal := v.isOptimal) == v))
             && (!accepts(Request(v)) ==> o == Outcome(false, Some(SetRingFailed(v.name)), v))))
  {
  }

  /** An outcome reports an optimisation only without an error, and an
      error-free pass leaves every non-Infiniband record optimal. */
  lemma OptimizeSucceedsOptimal(v: NicRecord, accepts: SetCall -> bool)
    ensures var o := Optimize(v, accepts);
      (o.optimized ==> o.error == None)
      && (o.error == None && v.linkType != Infiniband ==> o.after.isOptimal)
      && (o.error.Some? ==> o.after == v && !v.isOptimal && v.linkType != Infiniband)
  {
  }

  /** OptimizeNIC keeps "optimal means current equals maximum", and a second
      run after an error-free one writes nothing and changes nothing. */
  lemma OptimizeIdempotent(v: NicRecord, accepts: SetCall -> bool, again: SetCall -> bool)
    ensures var o := Optimize(v, accepts);
      (OptimalIsExact(v) ==> OptimalIsExact(o.after))
      && (o.error == None ==> Optimize(o.after, again) == Outcome(false, None, o.after) && Writes(o.after) == [])
  {
  }

  /** An interface whose `ethtool -g` output has no `RX:` or `TX:` line is
      discovered with four zero sizes, hence as optimal, and OptimizeNIC
      then skips it as already optimal, without an error for its zero
      maxima and without a write. */
  lemma ZeroRingChain(host: Host, minSpeed: int, name: string, accepts: SetCall -> bool)
    requires Kept(host, minSpeed, name) && host.linkType(name) != Infiniband
    requires host.ringInfo(name).Ran?
    requires forall i :: 0 <= i < |host.ringInfo(name).lines| ==>
      !HasPrefix(host.ringInfo(name).lines[i], "RX:") && !HasPrefix(host.ringInfo(name).lines[i], "TX:")
    ensures var v := Enriched(host, name);
      v.rxMax == 0 && v.txMax == 0 && v.isOptimal && Decide(v) == AlreadyOptimal
      && Optimize(v, accepts) == Outcome(false, None, v) && Writes(v) == []
  {
    NoSizeLinesAllZero(host.ringInfo(name).lines);
  }

  // ---------------------------------------------------------------------
  // OptimizeAll, on records

  /** The records that go to the workers: every link type but Infiniband,
      in discovery order. */
  function EthernetOf(vs: seq<NicRecord>): (r: seq<NicRecord>)
    ensures |r| <= |vs|
  {
    if vs == [] then []
    else
      var n := |vs| - 1;
      EthernetOf(vs[..n]) + (if vs[n].linkType != Infiniband then [vs[n]] else [])
  }

  /** The Infiniband records, in discovery order. */
  function InfinibandOf(vs: seq<NicRecord>): (r: seq<NicRecord>)
    ensures |r| <= |vs|
  {
    if vs == [] then []
    else
      var n := |vs| - 1;
      InfinibandOf(vs[..n]) + (if vs[n].linkType == Infiniband then [vs[n]] else [])
  }

  /** Every record lands in exactly one of the two lists, and Unknown goes
      with Ethernet. */
  lemma {:induction false} SplitPartition(vs: seq<NicRecord>)
    ensures multiset(EthernetOf(vs)) + multiset(InfinibandOf(vs)) == multiset(vs)
    decreases |vs|
  {
    if vs != [] {
      var n := |vs| - 1;
      SplitPartition(vs[..n]);
      assert vs == vs[..n] + [vs[n]];
      assert multiset(vs) == multiset(vs[..n]) + multiset{vs[n]};
    }
  }

  /** Ethernet gets exactly the records that are not Infiniband. */
  lemma {:induction false} SplitMembers(vs: seq<NicRecord>)
    ensures forall v :: v in EthernetOf(vs) <==> v in vs && v.linkType != Infiniband
    ensures forall v :: v in InfinibandOf(vs) <==> v in vs && v.linkType == Infiniband
    decreases |vs|
  {
    if vs != [] {
      var n := |vs| - 1;
      SplitMembers(vs[..n]);
      assert vs == vs[..n] + [vs[n]];
    }
  }

  /** With no record for the workers, every record is Infiniband. */
  lemma {:induction false} AllInfiniband(vs: seq<NicRecord>)
    requires EthernetOf(vs) == []
    ensures InfinibandOf(vs) == vs
    decreases |vs|
  {
    if vs != [] {
      var n := |vs| - 1;
      assert EthernetOf(vs[..n]) == [];
      AllInfiniband(vs[..n]);
      assert vs == vs[..n] + [vs[n]];
    }
  }

  /** The records after the workers ran. */
  function Afters(vs: seq<NicRecord>, accepts: SetCall -> bool): (r: seq<NicRecord>)
    ensures |r| == |vs|
  {
    if vs == [] then []
    else
      var n := |vs| - 1;
      Afters(vs[..n], accepts) + [Optimize(vs[n], accepts).after]
  }

  /** The number of error-free results that report an optimisation. */
  function OptimizedTotal(vs: seq<NicRecord>, accepts: SetCall -> bool): nat {
    if vs == [] then 0
    else
      var n := |vs| - 1;
      var o := Optimize(vs[n], accepts);
      OptimizedTotal(vs[..n], accepts) + (if o.error == None && o.optimized then 1 else 0)
  }

  /** The records OptimizeAll returns: error-free results that report an
      optimisation, or whose record is optimal afterwards. */
  function Selected(vs: seq<NicRecord>, accepts: SetCall -> bool): seq<NicRecord> {
    if vs == [] then []
    else
      var n := |vs| - 1;
      var o := Optimize(vs[n], accepts);
      Selected(vs[..n], accepts) + (if o.error == None && (o.optimized || o.after.isOptimal) then [o.after] else [])
  }

  /** The writes the workers issue, in dispatch order. */
  function AllWrites(vs: seq<NicRecord>): seq<SetCall> {
    if vs == [] then []
    else
      var n := |vs| - 1;
      AllWrites(vs[..n]) + Writes(vs[n])
  }

  /** The records that end up optimal. */
  function OptimalOf(vs: seq<NicRecord>): seq<NicRecord> {
    if vs == [] then []
    else
      var n := |vs| - 1;
      OptimalOf(vs[..n]) + (if vs[n].isOptimal then [vs[n]] else [])
  }

  /** For non-Infiniband records the returned list is exactly the records
      that end up optimal: no errored record is in it, and the optimised
      ones are counted among it. */
  lemma {:induction false} SelectedAreOptimal(vs: seq<NicRecord>, accepts: SetCall -> bool)
    requires forall i :: 0 <= i < |vs| ==> vs[i].linkType != Infiniband
    ensures Selected(vs, accepts) == OptimalOf(Afters(vs, accepts))
    ensures OptimizedTotal(vs, accepts) <= |Selected(vs, accepts)| <= |vs|
    decreases |vs|
  {
    if vs != [] {
      var n := |vs| - 1;
      SelectedAreOptimal(vs[..n], accepts);
      OptimizeSucceedsOptimal(vs[n], accepts);
      var a := Afters(vs, accepts);
      assert a[..|a| - 1] == Afters(vs[..n], accepts);
    }
  }

  // ---------------------------------------------------------------------
  // OptimizeAll, on NICs

  /** What a worker sends back (ringbuffer.go's Result). */
  datatype Report = Report(nic: NIC, optimized: bool, error: Option<Error>)

  function ReportedNICs(rs: seq<Report>): (nics: seq<NIC>)
    ensures |nics| == |rs| && forall k :: 0 <= k < |rs| ==> nics[k] == rs[k].nic
  {
    if rs == [] then [] else ReportedNICs(rs[..|rs| - 1]) + [rs[|rs| - 1].nic]
  }

  function ReportCount(rs: seq<Report>): nat {
    if rs == [] then 0
    else
      var r := rs[|rs| - 1];
      ReportCount(rs[..|rs| - 1]) + (if r.error == None && r.optimized then 1 else 0)
  }

  /** The NICs the receiving loop keeps, in the order their reports come. */
  function Chosen(rs: seq<Report>): seq<NIC>
    reads set r | r in rs :: r.nic
  {
    if rs == [] then []
    else
      var r := rs[|rs| - 1];
      Chosen(rs[..|rs| - 1]) + (if r.error == None && (r.optimized || r.nic.isOptimal) then [r.nic] else [])
  }

  lemma {:induction false} ReportsAppend(a: seq<Report>, b: seq<Report>)
    ensures ReportedNICs(a + b) == ReportedNICs(a) + ReportedNICs(b)
    ensures ReportCount(a + b) == ReportCount(a) + ReportCount(b)
    decreases |b|
  {
    if b == [] {
      assert a + b == a;
    } else {
      var n := |b| - 1;
      ReportsAppend(a, b[..n]);
      assert (a + b)[..|a + b| - 1] == a + b[..n];
    }
  }

  lemma {:induction false} ChosenAppend(a: seq<Report>, b: seq<Report>)
    ensures Chosen(a + b) == Chosen(a) + Chosen(b)
    decreases |b|
  {
    if b == [] {
      assert a + b == a;
    } else {
      var n := |b| - 1;
      ChosenAppend(a, b[..n]);
      assert (a + b)[..|a + b| - 1] == a + b[..n];
    }
  }

  lemma SingleReport(r: Report)
    ensures ReportedNICs([r]) == [r.nic]
    ensures ReportCount([r]) == if r.error == None && r.optimized then 1 else 0
    ensures Chosen([r]) == if r.error == None && (r.optimized || r.nic.isOptimal) then [r.nic] else []
  {
    assert [r][..0] == [];
  }

  /** Taking one report out of the pending ones splits each measure. */
  lemma TakeOne(pending: seq<Report>, k: nat)
    requires k < |pending|
    ensures var rest := pending[..k] + pending[k + 1..];
      multiset(ReportedNICs(pending)) == multiset(ReportedNICs(rest)) + multiset(ReportedNICs([pending[k]]))
      && ReportCount(pending) == ReportCount(rest) + ReportCount([pending[k]])
  {
    var a, b := pending[..k], pending[k + 1..];
    assert pending == a + [pending[k]] + b;
    ReportsAppend(a + [pending[k]], b);
    ReportsAppend(a, [pending[k]]);
    ReportsAppend(a, b);
  }

  lemma TakeOneChosen(pending: seq<Report>, k: nat)
    requires k < |pending|
    ensures var rest := pending[..k] + pending[k + 1..];
      multiset(Chosen(pending)) == multiset(Chosen(rest)) + multiset(Chosen([pending[k]]))
  {
    var a, b := pending[..k], pending[k + 1..];
    assert pending == a + [pending[k]] + b;
    ChosenAppend(a + [pending[k]], b);
    ChosenAppend(a, [pending[k]]);
    ChosenAppend(a, b);
  }

  /** Receiving one more report extends each account by that report's
      share, and moves the report from the pending ones to the received. */
  lemma ReceiveStep(received: seq<Report>, pending: seq<Report>, k: nat)
    requires k < |pending|
    ensures var r, now := pending[k], received + [pending[k]];
      ReportedNICs(now) == ReportedNICs(received) + [r.nic]
      && ReportCount(now) == ReportCount(received) + (if r.error == None && r.optimized then 1 else 0)
      && Chosen(now) == Chosen(received) + (if r.error == None && (r.optimized || r.nic.isOptimal) then [r.nic] else [])
      && multiset(now) + multiset(pending[..k] + pending[k + 1..]) == multiset(received) + multiset(pending)
  {
    var r := pending[k];
    ReportsAppend(received, [r]);
    ChosenAppend(received, [r]);
    SingleReport(r);
    RemoveAt(pending, k);
  }

  /** The accounts of the receiving loop do not depend on the order in
      which the reports arrive. */
  lemma {:induction false} Reordered(a: seq<Report>, b: seq<Report>)
    requires multiset(a) == multiset(b)
    ensures multiset(ReportedNICs(a)) == multiset(ReportedNICs(b))
    ensures ReportCount(a) == ReportCount(b)
    decreases |a|
  {
    if a == [] {
      assert |b| == |multiset(b)| == 0;
    } else {
      var n := |a| - 1;
      var j := Matching(a, b);
      Reordered(a[..n], b[..j] + b[j + 1..]);
      TakeOne(b, j);
      SingleReport(a[n]);
      assert ReportedNICs(a) == ReportedNICs(a[..n]) + [a[n].nic];
    }
  }

  lemma {:induction false} ReorderedChosen(a: seq<Report>, b: seq<Report>)
    requires multiset(a) == multiset(b)
    ensures multiset(Chosen(a)) == multiset(Chosen(b))
    decreases |a|
  {
    if a == [] {
      assert |b| == |multiset(b)| == 0;
    } else {
      var n := |a| - 1;
      var j := Matching(a, b);
      ReorderedChosen(a[..n], b[..j] + b[j + 1..]);
      TakeOneChosen(b, j);
      SingleReport(a[n]);
      assert Chosen(a) == Chosen(a[..n]) + Chosen([a[n]]);
    }
  }

  /** The last element of a sequence, found in a reordering of it: what is
      left on both sides is again a reordering. */
  lemma Matching<T>(a: seq<T>, b: seq<T>) returns (j: nat)
    requires a != [] && multiset(a) == multiset(b)
    ensures j < |b| && b[j] == a[|a| - 1]
    ensures multiset(a[..|a| - 1]) == multiset(b[..j] + b[j + 1..])
  {
    var n := |a| - 1;
    assert a[n] in multiset(b);
    j :| 0 <= j < |b| && b[j] == a[n];
    RemoveAt(b, j);
    RemoveAt(a, n);
    assert a[..n] + a[n + 1..] == a[..n];
  }

  /** ringbuffer.go's ethernet/Infiniband split. */
  method Split(nics: seq<NIC>) returns (ethernet: seq<NIC>, infiniband: seq<NIC>)
    requires Distinct(nics)
    ensures Views(ethernet) == EthernetOf(Views(nics))
    ensures Views(infiniband) == InfinibandOf(Views(nics))
    ensures Distinct(ethernet)
    ensures forall x :: x in ethernet ==> x in nics && x.linkType != Infiniband
    ensures forall x :: x in infiniband ==> x in nics && x.linkType == Infiniband
    ensures forall x :: x in nics ==> (x in ethernet <==> x.linkType != Infiniband) && (x in infiniband <==> x.linkType == Infiniband)
  {
    ethernet, infiniband := [], [];
    var i := 0;
    while i < |nics|
      invariant 0 <= i <= |nics|
      invariant ethernet == EthernetNICs(nics[..i]) && infiniband == InfinibandNICs(nics[..i])
    {
      var n := nics[i];
      assert nics[..i + 1][..i] == nics[..i];
      if n.linkType == Infiniband {
        infiniband := infiniband + [n];
      } else {
        ethernet := ethernet + [n];
      }
      i := i + 1;
    }
    assert nics[..|nics|] == nics;
    SplitViews(nics);
    SplitKeeps(nics);
    EthernetDistinct(nics);
  }

  /** The split of Split, on the NICs themselves. */
  function EthernetNICs(nics: seq<NIC>): seq<NIC>
    reads set i | 0 <= i < |nics| :: nics[i]
  {
    if nics == [] then []
    else
      var n := |nics| - 1;
      EthernetNICs(nics[..n]) + (if nics[n].linkType != Infiniband then [nics[n]] else [])
  }

  function InfinibandNICs(nics: seq<NIC>): seq<NIC>
    reads set i | 0 <= i < |nics| :: nics[i]
  {
    if nics == [] then []
    else
      var n := |nics| - 1;
      InfinibandNICs(nics[..n]) + (if nics[n].linkType == Infiniband then [nics[n]] else [])
  }

  /** Splitting the NICs splits their records the same way. */
  lemma {:induction false} SplitViews(nics: seq<NIC>)
    ensures Views(EthernetNICs(nics)) == EthernetOf(Views(nics))
    ensures Views(InfinibandNICs(nics)) == InfinibandOf(Views(nics))
    decreases |nics|
  {
    if nics != [] {
      var n := |nics| - 1;
      SplitViews(nics[..n]);
      assert Views(nics)[..n] == Views(nics[..n]);
      ViewsAppend(EthernetNICs(nics[..n]), if nics[n].linkType != Infiniband then [nics[n]] else []);
      ViewsAppend(InfinibandNICs(nics[..n]), if nics[n].linkType == Infiniband then [nics[n]] else []);
    }
  }

  /** The split keeps each NIC in the list its link type names, and puts
      nothing else in either list. */
  lemma {:induction false} SplitKeeps(nics: seq<NIC>)
    ensures forall x :: x in EthernetNICs(nics) ==> x in nics && x.linkType != Infiniband
    ensures forall x :: x in InfinibandNICs(nics) ==> x in nics && x.linkType == Infiniband
    ensures forall x :: x in nics && x.linkType != Infiniband ==> x in EthernetNICs(nics)
    ensures forall x :: x in nics && x.linkType == Infiniband ==> x in InfinibandNICs(nics)
    decreases |nics|
  {
    if nics != [] {
      var n := |nics| - 1;
      SplitKeeps(nics[..n]);
      assert nics == nics[..n] + [nics[n]];
    }
  }

  /** The Ethernet list holds each of its NICs once. */
  lemma {:induction false} EthernetDistinct(nics: seq<NIC>)
    requires Distinct(nics)
    ensures Distinct(EthernetNICs(nics))
    decreases |nics|
  {
    if nics != [] {
      var n := |nics| - 1;
      var init := nics[..n];
      assert Distinct(init) by {
        forall a, b | 0 <= a < b < |init|
          ensures init[a] != init[b]
        {
          assert init[a] == nics[a] && init[b] == nics[b];
        }
      }
      EthernetDistinct(init);
      if nics[n].linkType != Infiniband {
        SplitKeeps(init);
        assert nics[n] !in init by {
          forall a | 0 <= a < n
            ensures init[a] != nics[n]
          {
            assert init[a] == nics[a];
          }
        }
        var e := EthernetNICs(init);
        assert EthernetNICs(nics) == e + [nics[n]];
        forall a, b | 0 <= a < b < |e| + 1
          ensures (e + [nics[n]])[a] != (e + [nics[n]])[b]
        {
          if b == |e| {
            assert e[a] in e;
          }
        }
      }
    }
  }

  /** The workers, one after the other in dispatch order: OptimizeNIC on
      every record of the list, each exactly once. */
  method Dispatch(ethernet: seq<NIC>, ghost before: seq<NicRecord>, w: RingWriter) returns (reports: seq<Report>)
    requires Distinct(ethernet) && Shows(ethernet, before)
    modifies (set i | 0 <= i < |ethernet| :: ethernet[i]), w
    ensures |reports| == |ethernet|
    ensures forall k :: 0 <= k < |ethernet| ==>
      var o := Optimize(before[k], w.accepts);
      reports[k] == Report(ethernet[k], o.optimized, o.error)
    ensures forall k :: 0 <= k < |ethernet| ==> ethernet[k].View() == Optimize(before[k], w.accepts).after
    ensures w.calls == old(w.calls) + AllWrites(before)
  {
    reports := [];
    ghost var start := w.calls;
    var i := 0;
    while i < |ethernet|
      invariant 0 <= i <= |ethernet| && |reports| == i
      invariant forall k :: 0 <= k < i ==>
        var o := Optimize(before[k], w.accepts);
        reports[k] == Report(ethernet[k], o.optimized, o.error)
      invariant forall k :: 0 <= k < |ethernet| ==>
        ethernet[k].View() == if k < i then Optimize(before[k], w.accepts).after else before[k]
      invariant w.calls == start + AllWrites(before[..i])
    {
      var n := ethernet[i];
      ghost var calls := w.calls;
      assert n.View() == before[i];
      assert forall k :: 0 <= k < |ethernet| && k != i ==> ethernet[k] != n;
      ghost var o := Optimize(before[i], w.accepts);
      var optimized, err := OptimizeNIC(n, w);
      assert optimized == o.optimized && err == o.error && n.View() == o.after;
      reports := reports + [Report(n, optimized, err)];
      assert before[..i + 1][..i] == before[..i];
      assert AllWrites(before[..i + 1]) == AllWrites(before[..i]) + Writes(before[i]);
      assert w.calls == calls + Writes(before[i]);
      Associative(start, AllWrites(before[..i]), Writes(before[i]));
      i := i + 1;
    }
    assert before[..|ethernet|] == before;
  }

  lemma Associative<T>(a: seq<T>, b: seq<T>, c: seq<T>)
    ensures (a + b) + c == a + (b + c)
  {
  }

  /** The receiving loop.  Reports arrive in an order the model does not
      fix: `arrival` picks the next one among those still pending.  Whatever
      it picks, every NIC is processed once, and the count and the kept
      NICs are those of the reports in any order. */
  method Receive(reports: seq<Report>, arrival: seq<Report> -> nat)
    returns (processed: seq<NIC>, optimizedNICs: seq<NIC>, optimizedCount: nat)
    ensures multiset(processed) == multiset(ReportedNICs(reports))
    ensures optimizedCount == ReportCount(reports)
    ensures multiset(optimizedNICs) == multiset(Chosen(reports))
  {
    var pending := reports;
    ghost var received: seq<Report> := [];
    processed, optimizedNICs, optimizedCount := [], [], 0;
    while pending != []
      invariant processed == ReportedNICs(received)
      invariant optimizedCount == ReportCount(received)
      invariant optimizedNICs == Chosen(received)
      invariant multiset(received) + multiset(pending) == multiset(reports)
      decreases |pending|
    {
      var k := arrival(pending) % |pending|;
      var result := pending[k];
      ReceiveStep(received, pending, k);
      pending, received := pending[..k] + pending[k + 1..], received + [result];

      var n := result.nic;
      processed := processed + [n];
      if result.error != None {
      } else if result.optimized {
        optimizedCount := optimizedCount + 1;
        optimizedNICs := optimizedNICs + [n];
      } else if n.isOptimal {
        optimizedNICs := optimizedNICs + [n];
      }
    }
    Reordered(received, reports);
    ReorderedChosen(received, reports);
  }

  /** The reports of the workers, read against the records they started
      from. */
  lemma {:induction false} ReportsMatch(reports: seq<Report>, before: seq<NicRecord>, accepts: SetCall -> bool)
    requires |reports| == |before|
    requires forall k :: 0 <= k < |before| ==>
      var o := Optimize(before[k], accepts);
      reports[k].optimized == o.optimized && reports[k].error == o.error && reports[k].nic.View() == o.after
    ensures ReportCount(reports) == OptimizedTotal(before, accepts)
    ensures Views(Chosen(reports)) == Selected(before, accepts)
    ensures Views(ReportedNICs(reports)) == Afters(before, accepts)
    decreases |before|
  {
    if before != [] {
      var n := |before| - 1;
      ReportsMatch(reports[..n], before[..n], accepts);
      ViewsAppend(Chosen(reports[..n]), [reports[n].nic]);
      ViewsAppend(ReportedNICs(reports[..n]), [reports[n].nic]);
    }
  }

  /** A list of NICs holds, one by one, the given records. */
  predicate Shows(nics: seq<NIC>, vs: seq<NicRecord>)
    reads set i | 0 <= i < |nics| :: nics[i]
  {
    |nics| == |vs| && forall k :: 0 <= k < |vs| ==> nics[k].View() == vs[k]
  }

  lemma ViewsAppend(a: seq<NIC>, b: seq<NIC>)
    ensures Views(a + b) == Views(a) + Views(b)
  {
    assert forall i :: 0 <= i < |a + b| ==> Views(a + b)[i] == (Views(a) + Views(b))[i];
  }

  /** Views of two orderings of the same NICs are the same records. */
  lemma {:induction false} ViewsPermutation(a: seq<NIC>, b: seq<NIC>)
    requires multiset(a) == multiset(b)
    ensures multiset(Views(a)) == multiset(Views(b))
    decreases |a|
  {
    if a == [] {
      assert |b| == |multiset(b)| == 0;
    } else {
      var n := |a| - 1;
      var j := Matching(a, b);
      ViewsPermutation(a[..n], b[..j] + b[j + 1..]);
      ViewsRemoveAt(b, j);
      ViewsRemoveAt(a, n);
      assert a[..n] + a[n + 1..] == a[..n];
    }
  }

  lemma RemoveAt<T>(b: seq<T>, j: nat)
    requires j < |b|
    ensures multiset(b[..j] + b[j + 1..]) == multiset(b) - multiset{b[j]}
  {
    assert b == b[..j] + [b[j]] + b[j + 1..];
  }

  lemma ViewsRemoveAt(b: seq<NIC>, j: nat)
    requires j < |b|
    ensures multiset(Views(b)) == multiset(Views(b[..j] + b[j + 1..])) + multiset{b[j].View()}
  {
    assert b == b[..j] + [b[j]] + b[j + 1..];
    ViewsAppend(b[..j] + [b[j]], b[j + 1..]);
    ViewsAppend(b[..j], [b[j]]);
    ViewsAppend(b[..j], b[j + 1..]);
  }

  /** ringbuffer.go's OptimizeAll, with the workers run one after the
      other.  `found` is the discovered records before any change; `shown`
      is the list handed to DisplayFormattedResults when showAll is set. */
  method OptimizeAll(host: Host, minSpeed: int, maxWorkers: int, showAll: bool, w: RingWriter,
                     arrival: seq<Report> -> nat)
    returns (optimizedNICs: seq<NIC>, optimizedCount: nat, err: Option<Error>, shown: Option<seq<NIC>>,
             ghost found: seq<NicRecord>)
    requires maxWorkers >= 1
    modifies w
    ensures Discover(host, minSpeed).Err? ==>
      err == Some(ReadDirFailed) && optimizedNICs == [] && optimizedCount == 0 && shown == None
      && w.calls == old(w.calls)
    ensures Discover(host, minSpeed).Ok? ==>
      err == None && found == Discover(host, minSpeed).value
      && optimizedCount == OptimizedTotal(EthernetOf(found), w.accepts)
      && multiset(Views(optimizedNICs)) == multiset(Selected(EthernetOf(found), w.accepts))
      && w.calls == old(w.calls) + AllWrites(EthernetOf(found))
      && (shown.Some? <==> showAll)
      && (shown.Some? ==>
            |shown.value| == |found|
            && Views(shown.value[..|InfinibandOf(found)|]) == InfinibandOf(found)
            && multiset(Views(shown.value[|InfinibandOf(found)|..])) == multiset(Afters(EthernetOf(found), w.accepts)))
  {
    var discovered := GetHighSpeedNICs(host, minSpeed);
    if discovered.Err? {
      return [], 0, Some(discovered.error), None, [];
    }
    found := Views(discovered.value);
    optimizedNICs, optimizedCount, shown := OptimizeFound(discovered.value, found, showAll, w, arrival);
    err := None;
  }

  /** OptimizeAll once the NICs are discovered: split them by link type,
      optimise the Ethernet ones and collect the results. */
  method OptimizeFound(nics: seq<NIC>, ghost found: seq<NicRecord>, showAll: bool, w: RingWriter,
                       arrival: seq<Report> -> nat)
    returns (optimizedNICs: seq<NIC>, optimizedCount: nat, shown: Option<seq<NIC>>)
    requires Distinct(nics)
    requires Views(nics) == found
    modifies (set i | 0 <= i < |nics| :: nics[i]), w
    ensures optimizedCount == OptimizedTotal(EthernetOf(found), w.accepts)
    ensures multiset(Views(optimizedNICs)) == multiset(Selected(EthernetOf(found), w.accepts))
    ensures w.calls == old(w.calls) + AllWrites(EthernetOf(found))
    ensures shown.Some? <==> showAll
    ensures shown.Some? ==>
      |shown.value| == |found|
      && Views(shown.value[..|InfinibandOf(found)|]) == InfinibandOf(found)
      && multiset(Views(shown.value[|InfinibandOf(found)|..])) == multiset(Afters(EthernetOf(found), w.accepts))
  {
    var ethernet, infiniband := Split(nics);
    Apart(ethernet, infiniband);
    optimizedNICs, optimizedCount, shown := OptimizeSplit(nics, ethernet, infiniband, found, showAll, w, arrival);
  }

  /** NICs of different link types are different NICs. */
  lemma Apart(ethernet: seq<NIC>, infiniband: seq<NIC>)
    requires forall x :: x in ethernet ==> x.linkType != Infiniband
    requires forall x :: x in infiniband ==> x.linkType == Infiniband
    ensures forall i, j :: 0 <= i < |ethernet| && 0 <= j < |infiniband| ==> ethernet[i] != infiniband[j]
  {
    forall i, j | 0 <= i < |ethernet| && 0 <= j < |infiniband|
      ensures ethernet[i] != infiniband[j]
    {
      assert ethernet[i] in ethernet && infiniband[j] in infiniband;
    }
  }

  /** OptimizeAll once the NICs are split: nothing to do without an
      Ethernet NIC; otherwise the workers, the receiving loop, and the list
      to display. */
  method OptimizeSplit(nics: seq<NIC>, ethernet: seq<NIC>, infiniband: seq<NIC>, ghost found: seq<NicRecord>,
                       showAll: bool, w: RingWriter, arrival: seq<Report> -> nat)
    returns (optimizedNICs: seq<NIC>, optimizedCount: nat, shown: Option<seq<NIC>>)
    requires Distinct(ethernet)
    requires forall i, j :: 0 <= i < |ethernet| && 0 <= j < |infiniband| ==> ethernet[i] != infiniband[j]
    requires Views(nics) == found
    requires Views(ethernet) == EthernetOf(found) && Views(infiniband) == InfinibandOf(found)
    modifies (set i | 0 <= i < |ethernet| :: ethernet[i]), w
    ensures optimizedCount == OptimizedTotal(EthernetOf(found), w.accepts)
    ensures multiset(Views(optimizedNICs)) == multiset(Selected(EthernetOf(found), w.accepts))
    ensures w.calls == old(w.calls) + AllWrites(EthernetOf(found))
    ensures shown.Some? <==> showAll
    ensures shown.Some? ==>
      |shown.value| == |found|
      && Views(shown.value[..|InfinibandOf(found)|]) == InfinibandOf(found)
      && multiset(Views(shown.value[|InfinibandOf(found)|..])) == multiset(Afters(EthernetOf(found), w.accepts))
  {
    if |ethernet| == 0 {
      if showAll {
        shown := Some(nics);
        NoEthernetLayout(nics, found, w.accepts);
      } else {
        shown := None;
      }
      assert Views([]) == [];
      return [], 0, shown;
    }

    optimizedNICs, optimizedCount, shown := OptimizeEthernet(ethernet, infiniband, found, showAll, w, arrival);
  }

  /** OptimizeAll for a non-empty Ethernet list: the workers, the
      receiving loop, and the list to display. */
  method OptimizeEthernet(ethernet: seq<NIC>, infiniband: seq<NIC>, ghost found: seq<NicRecord>, showAll: bool,
                          w: RingWriter, arrival: seq<Report> -> nat)
    returns (optimizedNICs: seq<NIC>, optimizedCount: nat, shown: Option<seq<NIC>>)
    requires Distinct(ethernet)
    requires forall i, j :: 0 <= i < |ethernet| && 0 <= j < |infiniband| ==> ethernet[i] != infiniband[j]
    requires Views(ethernet) == EthernetOf(found) && Views(infiniband) == InfinibandOf(found)
    modifies (set i | 0 <= i < |ethernet| :: ethernet[i]), w
    ensures optimizedCount == OptimizedTotal(EthernetOf(found), w.accepts)
    ensures multiset(Views(optimizedNICs)) == multiset(Selected(EthernetOf(found), w.accepts))
    ensures w.calls == old(w.calls) + AllWrites(EthernetOf(found))
    ensures shown.Some? <==> showAll
    ensures shown.Some? ==>
      |shown.value| == |found|
      && Views(shown.value[..|InfinibandOf(found)|]) == InfinibandOf(found)
      && multiset(Views(shown.value[|InfinibandOf(found)|..])) == multiset(Afters(EthernetOf(found), w.accepts))
  {
    ghost var touched := set i | 0 <= i < |ethernet| :: ethernet[i];
    assert forall j :: 0 <= j < |infiniband| ==> infiniband[j] !in touched;
    var processed;
    processed, optimizedNICs, optimizedCount := RunWorkers(ethernet, EthernetOf(found), w, arrival);
    assert forall j :: 0 <= j < |infiniband| ==> infiniband[j].View() == old(infiniband[j].View());
    if showAll {
      shown := Some(infiniband + processed);
      ShownLayout(infiniband, processed, found, w.accepts);
    } else {
      shown := None;
    }
  }

  /** With no Ethernet NIC, the list OptimizeAll displays is the discovered
      one, which holds only Infiniband NICs. */
  lemma NoEthernetLayout(nics: seq<NIC>, found: seq<NicRecord>, accepts: SetCall -> bool)
    requires Views(nics) == found && EthernetOf(found) == []
    ensures var n := |InfinibandOf(found)|;
      |nics| == |found| && Views(nics[..n]) == InfinibandOf(found)
      && multiset(Views(nics[n..])) == multiset(Afters(EthernetOf(found), accepts))
  {
    AllInfiniband(found);
    assert nics[..|found|] == nics;
  }

  /** The list OptimizeAll displays: the Infiniband NICs as discovered,
      then the processed ones, each once. */
  lemma ShownLayout(infiniband: seq<NIC>, processed: seq<NIC>, found: seq<NicRecord>, accepts: SetCall -> bool)
    requires Views(infiniband) == InfinibandOf(found)
    requires multiset(Views(processed)) == multiset(Afters(EthernetOf(found), accepts))
    ensures var all, n := infiniband + processed, |InfinibandOf(found)|;
      |all| == |found| && Views(all[..n]) == InfinibandOf(found)
      && multiset(Views(all[n..])) == multiset(Afters(EthernetOf(found), accepts))
  {
    SplitPartition(found);
    var all := infiniband + processed;
    assert |multiset(Views(processed))| == |processed|;
    assert |multiset(EthernetOf(found))| + |multiset(InfinibandOf(found))| == |multiset(found)|;
    assert all[..|infiniband|] == infiniband && all[|infiniband|..] == processed;
  }

  /** OptimizeAll's workers and receiving loop for a non-empty list: each
      NIC is optimised once, and the results are those of OptimizeNIC on
      the records the NICs held, whatever order the reports come in. */
  method RunWorkers(ethernet: seq<NIC>, ghost before: seq<NicRecord>, w: RingWriter, arrival: seq<Report> -> nat)
    returns (processed: seq<NIC>, optimizedNICs: seq<NIC>, optimizedCount: nat)
    requires Distinct(ethernet) && Views(ethernet) == before
    modifies (set i | 0 <= i < |ethernet| :: ethernet[i]), w
    ensures optimizedCount == OptimizedTotal(before, w.accepts)
    ensures multiset(Views(optimizedNICs)) == multiset(Selected(before, w.accepts))
    ensures multiset(Views(processed)) == multiset(Afters(before, w.accepts))
    ensures w.calls == old(w.calls) + AllWrites(before)
  {
    var reports := Dispatch(ethernet, before, w);
    processed, optimizedNICs, optimizedCount := Receive(reports, arrival);
    ReceivedMatch(ethernet, reports, before, w.accepts, processed, optimizedNICs, optimizedCount);
  }

  /** The receiving loop's results, read against the records the workers
      started from. */
  lemma ReceivedMatch(ethernet: seq<NIC>, reports: seq<Report>, before: seq<NicRecord>, accepts: SetCall -> bool,
                      processed: seq<NIC>, optimizedNICs: seq<NIC>, optimizedCount: nat)
    requires |reports| == |ethernet| == |before|
    requires forall k :: 0 <= k < |ethernet| ==>
      var o := Optimize(before[k], accepts);
      reports[k] == Report(ethernet[k], o.optimized, o.error)
    requires forall k :: 0 <= k < |ethernet| ==> ethernet[k].View() == Optimize(before[k], accepts).after
    requires multiset(processed) == multiset(ReportedNICs(reports))
    requires optimizedCount == ReportCount(reports)
    requires multiset(optimizedNICs) == multiset(Chosen(reports))
    ensures optimizedCount == OptimizedTotal(before, accepts)
    ensures multiset(Views(optimizedNICs)) == multiset(Selected(before, accepts))
    ensures multiset(Views(processed)) == multiset(Afters(before, accepts))
  {
    assert forall k :: 0 <= k < |before| ==> reports[k].nic == ethernet[k];
    ReportsMatch(reports, before, accepts);
    ViewsPermutation(optimizedNICs, Chosen(reports));
    ViewsPermutation(processed, ReportedNICs(reports));
  }

  // ---------------------------------------------------------------------
  // DisplayFormattedResults

  /** The status column: SKIPPED, OPTIMIZED or SUB-OPTIMAL. */
  datatype Status = Skipped | Optimized | SubOptimal

  /** One row of the results table, before padding. */
  datatype Row = Row(name: string, speed: int, linkType: LinkType, driver: string, mac: string,
                     ring: string, status: Status)

  /** The summary line's counters. */
  datatype Summary = Summary(total: nat, ethernet: nat, infiniband: nat, optimized: nat)

  /** The ring column: "N/A" for Infiniband, otherwise "<rx>/<tx>" of the
      current sizes. */
  function RingCell(v: NicRecord): (cell: string)
    ensures cell == "N/A" <==> v.linkType == Infiniband
  {
    if v.linkType == Infiniband then "N/A"
    else
      var cell := IntToString(v.rxCurrent) + "/" + IntToString(v.txCurrent);
      assert cell[0] == '-' || IsDigit(cell[0]);
      cell
  }

  function RowOf(v: NicRecord): (row: Row)
    ensures row.name == v.name && row.speed == v.speed && row.linkType == v.linkType
      && row.driver == v.driver && row.mac == v.mac && row.ring == RingCell(v)
    ensures row.status == Skipped <==> v.linkType == Infiniband
    ensures row.status == Optimized <==> v.linkType != Infiniband && v.isOptimal
    ensures row.status == SubOptimal <==> v.linkType != Infiniband && !v.isOptimal
  {
    var status := if v.linkType == Infiniband then Skipped else if v.isOptimal then Optimized else SubOptimal;
    Row(v.name, v.speed, v.linkType, v.driver, v.mac, RingCell(v), status)
  }

  function Rows(vs: seq<NicRecord>): seq<Row> {
    if vs == [] then [] else Rows(vs[..|vs| - 1]) + [RowOf(vs[|vs| - 1])]
  }

  /** The three counters over the records. */
  function Tally(vs: seq<NicRecord>): (s: Summary)
    ensures s.total == |vs|
    ensures s.ethernet + s.infiniband == s.total && s.optimized <= s.ethernet
  {
    if vs == [] then Summary(0, 0, 0, 0)
    else
      var t := Tally(vs[..|vs| - 1]);
      var v := vs[|vs| - 1];
      if v.linkType == Infiniband then t.(total := t.total + 1, infiniband := t.infiniband + 1)
      else t.(total := t.total + 1, ethernet := t.ethernet + 1, optimized := t.optimized + (if v.isOptimal then 1 else 0))
  }

  /** ringbuffer.go's DisplayFormattedResults: the rows, and the summary,
      which is printed only for a non-empty list. */
  method DisplayFormattedResults(nics: seq<NIC>) returns (rows: seq<Row>, summary: Option<Summary>)
    ensures rows == Rows(Views(nics))
    ensures nics == [] <==> summary == None
    ensures summary.Some? ==> summary.value == Tally(Views(nics))
  {
    ghost var vs := Views(nics);
    rows := [];
    var ethernetCount, infinibandCount, optimizedCount := 0, 0, 0;
    var i := 0;
    while i < |nics|
      invariant 0 <= i <= |nics|
      invariant rows == Rows(vs[..i])
      invariant Tally(vs[..i]) == Summary(i, ethernetCount, infinibandCount, optimizedCount)
    {
      var n := nics[i];
      assert vs[..i + 1][..i] == vs[..i];
      assert n.View() == vs[i];
      assert Rows(vs[..i + 1]) == rows + [RowOf(vs[i])];
      var status := SubOptimal;
      if n.linkType == Infiniband {
        infinibandCount := infinibandCount + 1;
        status := Skipped;
        rows := rows + [Row(n.name, n.speed, n.linkType, n.driver, n.mac, "N/A", status)];
      } else {
        ethernetCount := ethernetCount + 1;
        if n.isOptimal {
          optimizedCount := optimizedCount + 1;
          status := Optimized;
        }
        var ring := IntToString(n.rxCurrent) + "/" + IntToString(n.txCurrent);
        rows := rows + [Row(n.name, n.speed, n.linkType, n.driver, n.mac, ring, status)];
      }
      i := i + 1;
    }
    assert vs[..|nics|] == vs;
    if |nics| == 0 {
      summary := None;
    } else {
      summary := Some(Summary(|nics|, ethernetCount, infinibandCount, optimizedCount));
    }
  }

  /** The number of rows with a given status. */
  function CountStatus(rows: seq<Row>, s: Status): nat {
    if rows == [] then 0
    else CountStatus(rows[..|rows| - 1], s) + (if rows[|rows| - 1].status == s then 1 else 0)
  }

  /** The counters agree with OptimizeAll's split: Ethernet and Infiniband
      add up to the total and are the lengths of EthernetOf and
      InfinibandOf, and the optimised count never exceeds the Ethernet one. */
  lemma {:induction false} TallySplit(vs: seq<NicRecord>)
    ensures var s := Tally(vs);
      s.ethernet + s.infiniband == s.total
      && s.optimized <= s.ethernet
      && s.infiniband == |InfinibandOf(vs)|
      && s.ethernet == |EthernetOf(vs)|
    decreases |vs|
  {
    if vs != [] {
      TallySplit(vs[..|vs| - 1]);
    }
  }

  /** The counters agree with the rows: the Infiniband count is the SKIPPED
      rows, the optimised count the OPTIMIZED rows, and the rest of the
      Ethernet NICs the SUB-OPTIMAL rows. */
  lemma {:induction false} TallyMatchesRows(vs: seq<NicRecord>)
    ensures var s := Tally(vs);
      s.infiniband == CountStatus(Rows(vs), Skipped)
      && s.optimized == CountStatus(Rows(vs), Optimized)
      && s.ethernet - s.optimized == CountStatus(Rows(vs), SubOptimal)
    decreases |vs|
  {
    if vs != [] {
      var n := |vs| - 1;
      TallyMatchesRows(vs[..n]);
      TallySplit(vs[..n]);
      var rows := Rows(vs);
      assert rows[..|rows| - 1] == Rows(vs[..n]);
      assert rows[|rows| - 1] == RowOf(vs[n]);
    }
  }

  /** The digits and sign "%d" writes contain no slash. */
  lemma NoSlash(n: int)
    ensures '/' !in IntToString(n)
  {
    var s := IntToString(n);
    if n < 0 {
      assert s == "-" + NatToString(-n);
      assert forall k :: 1 <= k < |s| ==> IsDigit(s[k]);
    } else {
      assert forall k :: 0 <= k < |s| ==> IsDigit(s[k]);
    }
  }

  /** The ring cell of an Ethernet row reads back: split at its slash, the
      two parts parse to the current RX and TX sizes. */
  lemma RingCellReadsBack(v: NicRecord)
    requires v.linkType != Infiniband
    requires MinInt64 <= v.rxCurrent <= MaxInt64 && MinInt64 <= v.txCurrent <= MaxInt64
    ensures var parts := SplitN2(RingCell(v), '/');
      |parts| == 2 && ParseInt(parts[0]) == Parsed(v.rxCurrent) && ParseInt(parts[1]) == Parsed(v.txCurrent)
  {
    var rx, tx := IntToString(v.rxCurrent), IntToString(v.txCurrent);
    NoSlash(v.rxCurrent);
    IntToStringParses(v.rxCurrent);
    IntToStringParses(v.txCurrent);
    SplitAtSlash(rx, tx);
  }

  /** Splitting `a/b` at its first slash gives back `a` and `b` when `a`
      holds no slash. */
  lemma SplitAtSlash(a: string, b: string)
    requires '/' !in a
    ensures SplitN2(a + "/" + b, '/') == [a, b]
  {
    var cell := a + "/" + b;
    assert cell == a + ['/'] + b;
    assert cell[|a|] == '/';
    var parts := SplitN2(cell, '/');
    var p := parts[0];
    assert cell == p + ['/'] + parts[1];
    assert cell[|p|] == '/';
    assert forall k :: 0 <= k < |a| ==> cell[k] == a[k] != '/';
    assert |p| >= |a|;
    assert forall k :: 0 <= k < |p| ==> cell[k] == p[k] != '/';
    assert p == cell[..|p|] == cell[..|a|] == a;
    assert parts[1] == cell[|a| + 1..] == b;
  }
}
