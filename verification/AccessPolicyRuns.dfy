/**
 * What repeated, interrupted and reordered runs of SyncPolicies lead to. A run is what the method
 * promises of one call: `Applied`, with the names whose writes reached the server.
 */
module AccessPolicyRuns {
  import opened GoTypes
  import opened AccessRules
  import opened AccessPolicies

  /** A list a run can start from: Cloudflare's IDs are unique and below the next one it gives out. */
  ghost predicate Sound(ps: seq<Stored>, nextID: nat) {
    UniqueIDs(ps) && forall i :: 0 <= i < |ps| ==> ps[i].id < nextID
  }

  /** The set of names still to be written shrinks by `done`, up to two exact leftovers. */
  lemma NeedsWriteAfter(before: seq<Stored>, D: map<Name, Params>, done: set<Name>, lo: nat, hi: nat,
                        created: seq<Stored>, after: seq<Stored>, n: Name)
    requires UniqueIDs(before) && Named(D) && Applied(before, D, done, lo, hi, created, after)
    ensures NeedsWrite(Latest(after), D, n) <==>
            if n !in done then NeedsWrite(Latest(before), D, n)
            else if n in D then !Readable(D[n])
            else Count(before, n) > 1
  {
    LatestIsLast(before);
    LatestIsLast(after);
    if n in D {
      ReadBackExact(D[n]);
      if Last(before, n).Some? {
        SurvivorAfter(before, D, done, lo, hi, created, after, n);
      } else {
        NewcomerAfter(before, D, done, lo, hi, created, after, n);
      }
    } else {
      UndesiredAfter(before, D, done, lo, hi, created, after, n);
      CountLast(before, n);
      CountLast(after, n);
      assert n in done ==> NeedsWrite(Latest(before), D, n);
    }
  }

  lemma DistinctAfter(before: seq<Stored>, D: map<Name, Params>, done: set<Name>, lo: nat, hi: nat,
                      created: seq<Stored>, after: seq<Stored>)
    requires UniqueIDs(before) && DistinctNames(before) && Named(D) && Applied(before, D, done, lo, hi, created, after)
    ensures DistinctNames(after)
  {
    var L := Latest(before);
    var kept := Edited(before, L, D, done);
    EditedDistinctNames(before, L, D, done);
    CreatedFacts(created, done - L.Keys, D, lo, hi);
    LatestIsLast(before);
    forall i, j | 0 <= i < |kept| && 0 <= j < |created| ensures kept[i].wire.name != created[j].wire.name {
      var k := EditedFrom(before, L, D, done, kept[i]);
      LastIn(before, created[j].wire.name);
    }
  }

  /** How many policies are undesired, missing or mismatched. */
  function Distance(ps: seq<Stored>, D: map<Name, Params>): nat {
    |Planned(Latest(ps), D)|
  }

  predicate AllReadable(D: map<Name, Params>) {
    forall n :: n in D ==> Readable(D[n])
  }

  /**
   * One run, however it ended, from distinct remote names and readable params: the writes it got
   * through are exactly the names no longer undesired, missing or mismatched, so the distance falls by
   * one per successful write and never rises.
   */
  lemma RunProgress(before: seq<Stored>, D: map<Name, Params>, done: set<Name>, lo: nat, hi: nat,
                    created: seq<Stored>, after: seq<Stored>)
    requires UniqueIDs(before) && DistinctNames(before) && Named(D) && AllReadable(D)
    requires Applied(before, D, done, lo, hi, created, after)
    ensures Planned(Latest(after), D) == Planned(Latest(before), D) - done
    ensures Distance(after, D) + |done| == Distance(before, D)
  {
    forall n
      ensures n in done ==> n in Planned(Latest(before), D)
      ensures n in Planned(Latest(after), D) <==> n in Planned(Latest(before), D) && n !in done
    {
      PlannedAfter(before, D, done, lo, hi, created, after, n);
    }
    Remainder(Planned(Latest(before), D), done, Planned(Latest(after), D));
  }

  lemma PlannedAfter(before: seq<Stored>, D: map<Name, Params>, done: set<Name>, lo: nat, hi: nat,
                     created: seq<Stored>, after: seq<Stored>, n: Name)
    requires UniqueIDs(before) && DistinctNames(before) && Named(D) && AllReadable(D)
    requires Applied(before, D, done, lo, hi, created, after)
    ensures n in done ==> n in Planned(Latest(before), D)
    ensures n in Planned(Latest(after), D) <==> n in Planned(Latest(before), D) && n !in done
  {
    NeedsWriteAfter(before, D, done, lo, hi, created, after, n);
    LastDistinct(before, n);
    InPlanned(Latest(before), D, n);
    InPlanned(Latest(after), D, n);
  }

  // ---------------------------------------------------------------- partial failure and retry

  /** One call of SyncPolicies: its writes, and the store it left. */
  datatype Run = Run(done: set<Name>, created: seq<Stored>, after: seq<Stored>, nextID: nat)

  /** Calls one after another for the same desired policies, nobody else writing. */
  ghost predicate Runs(before: seq<Stored>, nextID: nat, D: map<Name, Params>, rs: seq<Run>)
    decreases |rs|
  {
    rs == [] ||
    (Applied(before, D, rs[0].done, nextID, rs[0].nextID, rs[0].created, rs[0].after) &&
     Runs(rs[0].after, rs[0].nextID, D, rs[1..]))
  }

  function Final(before: seq<Stored>, rs: seq<Run>): seq<Stored> {
    if rs == [] then before else rs[|rs| - 1].after
  }

  function FinalID(nextID: nat, rs: seq<Run>): nat {
    if rs == [] then nextID else rs[|rs| - 1].nextID
  }

  function Writes(rs: seq<Run>): nat {
    if rs == [] then 0 else |rs[0].done| + Writes(rs[1..])
  }

  /** Where any number of such runs may start. */
  ghost predicate Ready(before: seq<Stored>, nextID: nat, D: map<Name, Params>) {
    Sound(before, nextID) && DistinctNames(before) && Named(D) && AllReadable(D)
  }

  lemma OneRun(before: seq<Stored>, nextID: nat, D: map<Name, Params>, r: Run)
    requires Ready(before, nextID, D) && Applied(before, D, r.done, nextID, r.nextID, r.created, r.after)
    ensures Ready(r.after, r.nextID, D)
    ensures Distance(r.after, D) + |r.done| == Distance(before, D)
  {
    SoundAfter(before, nextID, D, r);
    DistinctAfter(before, D, r.done, nextID, r.nextID, r.created, r.after);
    RunProgress(before, D, r.done, nextID, r.nextID, r.created, r.after);
  }

  lemma SoundAfter(before: seq<Stored>, nextID: nat, D: map<Name, Params>, r: Run)
    requires Sound(before, nextID) && Named(D)
    requires Applied(before, D, r.done, nextID, r.nextID, r.created, r.after)
    ensures Sound(r.after, r.nextID)
  {
    AppliedValid(before, D, r.done, nextID, r.nextID, r.created, r.after);
  }

  lemma FirstRun(before: seq<Stored>, nextID: nat, D: map<Name, Params>, rs: seq<Run>)
    requires Ready(before, nextID, D) && Runs(before, nextID, D, rs) && rs != []
    ensures Ready(rs[0].after, rs[0].nextID, D) && Runs(rs[0].after, rs[0].nextID, D, rs[1..])
    ensures Distance(rs[0].after, D) + |rs[0].done| == Distance(before, D)
  {
    OneRun(before, nextID, D, rs[0]);
  }

  /** Over any runs the writes spent and the distance left add up to the distance at the start. */
  lemma {:induction false} WritesConserved(before: seq<Stored>, nextID: nat, D: map<Name, Params>, rs: seq<Run>)
    requires Ready(before, nextID, D) && Runs(before, nextID, D, rs)
    ensures Distance(Final(before, rs), D) + Writes(rs) == Distance(before, D)
    decreases |rs|
  {
    if rs != [] {
      var r := rs[0];
      FirstRun(before, nextID, D, rs);
      WritesConserved(r.after, r.nextID, D, rs[1..]);
      FinalTail(before, nextID, rs);
    }
  }

  lemma FinalTail(before: seq<Stored>, nextID: nat, rs: seq<Run>)
    requires rs != []
    ensures Final(before, rs) == Final(rs[0].after, rs[1..]) && FinalID(nextID, rs) == FinalID(rs[0].nextID, rs[1..])
  {
    if |rs| > 1 { assert rs[1..][|rs| - 2] == rs[|rs| - 1]; }
  }

  lemma {:induction false} StaysReady(before: seq<Stored>, nextID: nat, D: map<Name, Params>, rs: seq<Run>)
    requires Ready(before, nextID, D) && Runs(before, nextID, D, rs)
    ensures Ready(Final(before, rs), FinalID(nextID, rs), D)
    decreases |rs|
  {
    if rs != [] {
      FirstRun(before, nextID, D, rs);
      StaysReady(rs[0].after, rs[0].nextID, D, rs[1..]);
      FinalTail(before, nextID, rs);
    }
  }

  /** The store holds exactly the desired policies, one per name, reading back as desired. */
  ghost predicate Converged(ps: seq<Stored>, D: map<Name, Params>) {
    && DistinctNames(ps) && |ps| == |D|
    && forall i :: 0 <= i < |ps| ==> ps[i].wire.name in D && FromWire(ps[i].wire) == D[ps[i].wire.name]
  }

  lemma InPlanned(L: map<Name, Stored>, D: map<Name, Params>, n: Name)
    ensures n in Planned(L, D) <==> NeedsWrite(L, D, n)
  {
  }

  lemma NothingPlanned(ps: seq<Stored>, D: map<Name, Params>)
    requires DistinctNames(ps) && Planned(Latest(ps), D) == {}
    ensures Converged(ps, D)
  {
    LatestIsLast(ps);
    forall n ensures !NeedsWrite(Latest(ps), D, n) { InPlanned(Latest(ps), D, n); }
    forall i | 0 <= i < |ps| ensures ps[i].wire.name in D && FromWire(ps[i].wire) == D[ps[i].wire.name] {
      LastDistinct(ps, ps[i].wire.name);
      assert !NeedsWrite(Latest(ps), D, ps[i].wire.name);
    }
    forall n | n in D ensures Last(ps, n).Some? { assert !NeedsWrite(Latest(ps), D, n); }
    NamesOnce(ps, D);
  }

  lemma NamesOnce(ps: seq<Stored>, D: map<Name, Params>)
    requires DistinctNames(ps)
    requires forall i :: 0 <= i < |ps| ==> ps[i].wire.name in D
    requires forall n :: n in D ==> Last(ps, n).Some?
    ensures |ps| == |D|
  {
    var names := seq(|ps|, i requires 0 <= i < |ps| => ps[i].wire.name);
    forall n | n in D ensures n in names {
      LastIn(ps, n);
      var i :| 0 <= i < |ps| && ps[i] == Last(ps, n).value;
      assert names[i] == n;
    }
    ListsAll(names, D.Keys);
  }

  /** A run without error from distinct names and readable params leaves nothing to write. */
  lemma LastRun(mid: seq<Stored>, nextID: nat, D: map<Name, Params>, last: Run)
    requires Ready(mid, nextID, D) && last.done == Planned(Latest(mid), D)
    requires Applied(mid, D, last.done, nextID, last.nextID, last.created, last.after)
    ensures Planned(Latest(last.after), D) == {} && Converged(last.after, D)
  {
    OneRun(mid, nextID, D, last);
    RunProgress(mid, D, last.done, nextID, last.nextID, last.created, last.after);
    NothingPlanned(last.after, D);
  }

  /**
   * After any aborted runs, one run without error converges; every later run then writes nothing and
   * leaves the store as it is.
   */
  lemma Recovery(before: seq<Stored>, nextID: nat, D: map<Name, Params>, aborted: seq<Run>, last: Run, later: seq<Run>)
    requires Ready(before, nextID, D) && Runs(before, nextID, D, aborted + [last])
    requires last.done == Planned(Latest(Final(before, aborted)), D)
    requires Runs(last.after, last.nextID, D, later)
    ensures Converged(last.after, D)
    ensures forall k :: 0 <= k < |later| ==> later[k].done == {} && later[k].after == last.after
    ensures Writes(aborted + [last]) == Distance(before, D)
  {
    RunsAppend(before, nextID, D, aborted, last);
    StaysReady(before, nextID, D, aborted);
    LastRun(Final(before, aborted), FinalID(nextID, aborted), D, last);
    WritesConserved(before, nextID, D, aborted + [last]);
    IdleRuns(last.after, last.nextID, D, later);
  }

  lemma {:induction false} IdleRuns(ps: seq<Stored>, nextID: nat, D: map<Name, Params>, rs: seq<Run>)
    requires Planned(Latest(ps), D) == {} && Runs(ps, nextID, D, rs)
    ensures forall k :: 0 <= k < |rs| ==> rs[k].done == {} && rs[k].after == ps
    decreases |rs|
  {
    if rs != [] {
      var r := rs[0];
      Idle(ps, D, r.done, nextID, r.nextID, r.created, r.after);
      IdleRuns(r.after, r.nextID, D, rs[1..]);
      assert forall k :: 0 < k < |rs| ==> rs[k] == rs[1..][k - 1];
    }
  }

  lemma {:induction false} RunsAppend(before: seq<Stored>, nextID: nat, D: map<Name, Params>, rs: seq<Run>, last: Run)
    requires Runs(before, nextID, D, rs + [last])
    ensures Runs(before, nextID, D, rs)
    ensures Applied(Final(before, rs), D, last.done, FinalID(nextID, rs), last.nextID, last.created, last.after)
    decreases |rs|
  {
    if rs == [] {
      assert ([] + [last])[0] == last;
    } else {
      assert (rs + [last])[1..] == rs[1..] + [last] && (rs + [last])[0] == rs[0];
      RunsAppend(rs[0].after, rs[0].nextID, D, rs[1..], last);
      FinalTail(before, nextID, rs);
    }
  }

  /** With nothing planned a run has nothing to write. */
  lemma Idle(ps: seq<Stored>, D: map<Name, Params>, done: set<Name>, lo: nat, hi: nat, created: seq<Stored>, after: seq<Stored>)
    requires Planned(Latest(ps), D) == {} && Applied(ps, D, done, lo, hi, created, after)
    ensures done == {} && after == ps
  {
    forall n ensures n !in done { InPlanned(Latest(ps), D, n); }
    assert done == {};
    assert {} - Latest(ps).Keys == {};
    EditedNothing(ps, Latest(ps), D);
  }

  /**
   * Without readability: after a run without error the next one will write exactly those names it just
   * wrote whose params do not survive the wire (approval groups, list rules), and so on for ever.
   */
  lemma UnreadableRewritten(before: seq<Stored>, D: map<Name, Params>, lo: nat, hi: nat, created: seq<Stored>, after: seq<Stored>)
    requires UniqueIDs(before) && DistinctNames(before) && Named(D)
    requires Applied(before, D, Planned(Latest(before), D), lo, hi, created, after)
    ensures Planned(Latest(after), D) == set n | n in Planned(Latest(before), D) && n in D && !Readable(D[n])
  {
    forall n ensures n in Planned(Latest(after), D) <==> n in Planned(Latest(before), D) && n in D && !Readable(D[n]) {
      NeedsWriteAfter(before, D, Planned(Latest(before), D), lo, hi, created, after, n);
      LastDistinct(before, n);
    }
  }

  /**
   * With repeated remote names and unreadable params too: a run without error leaves nothing to write
   * exactly if every desired name it wrote is readable and every undesired one had a single copy.
   */
  lemma SettledExactly(before: seq<Stored>, D: map<Name, Params>, lo: nat, hi: nat, created: seq<Stored>, after: seq<Stored>)
    requires UniqueIDs(before) && Named(D)
    requires Applied(before, D, Planned(Latest(before), D), lo, hi, created, after)
    ensures Planned(Latest(after), D) == {} <==>
            forall n :: n in Planned(Latest(before), D) ==> if n in D then Readable(D[n]) else Count(before, n) <= 1
  {
    var done := Planned(Latest(before), D);
    forall n ensures n in Planned(Latest(after), D) <==> n in done && if n in D then !Readable(D[n]) else Count(before, n) > 1 {
      NeedsWriteAfter(before, D, done, lo, hi, created, after, n);
      InPlanned(Latest(before), D, n);
      InPlanned(Latest(after), D, n);
    }
  }

  /** Surplus copies of a desired name are never removed: one run adds a copy only of a missing name and takes none away. */
  lemma DesiredCount(before: seq<Stored>, D: map<Name, Params>, done: set<Name>, lo: nat, hi: nat,
                     created: seq<Stored>, after: seq<Stored>, n: Name)
    requires UniqueIDs(before) && Named(D) && Applied(before, D, done, lo, hi, created, after) && n in D
    ensures Count(after, n) == Count(before, n) + (if n in done && Count(before, n) == 0 then 1 else 0)
  {
    var L := Latest(before);
    WholeIsTail(before);
    LatestIsLast(before);
    EditedCount(before, L, D, done, n);
    CountConcat(Edited(before, L, D, done), created, n);
    CreatedFacts(created, done - L.Keys, D, lo, hi);
    CreatedLast(created, done - L.Keys, D, lo, hi, n);
    LastDistinct(created, n);
    CountLast(created, n);
    CountLast(before, n);
  }

  /** So over any runs they stay. */
  lemma {:induction false} SurplusStays(before: seq<Stored>, nextID: nat, D: map<Name, Params>, rs: seq<Run>, n: Name)
    requires Sound(before, nextID) && Named(D) && Runs(before, nextID, D, rs) && n in D
    ensures Count(Final(before, rs), n) == Count(before, n) || (Count(before, n) == 0 && Count(Final(before, rs), n) == 1)
    decreases |rs|
  {
    if rs != [] {
      var r := rs[0];
      DesiredCount(before, D, r.done, nextID, r.nextID, r.created, r.after, n);
      SoundAfter(before, nextID, D, r);
      SurplusStays(r.after, r.nextID, D, rs[1..], n);
      FinalTail(before, nextID, rs);
    }
  }

  ghost predicate SingleCopies(ps: seq<Stored>) {
    forall n :: Count(ps, n) <= 1
  }

  lemma {:induction false} SingleIsDistinct(ps: seq<Stored>)
    ensures SingleCopies(ps) <==> DistinctNames(ps)
  {
    if DistinctNames(ps) {
      forall n ensures Count(ps, n) <= 1 { LastDistinct(ps, n); }
    }
    if SingleCopies(ps) && ps != [] {
      forall n ensures Count(ps[1..], n) <= 1 { assert Count(ps, n) <= 1; }
      SingleIsDistinct(ps[1..]);
      var n := ps[0].wire.name;
      assert Count(ps, n) <= 1;
      CountLast(ps[1..], n);
      LastIn(ps[1..], n);
      assert forall i :: 0 < i < |ps| ==> ps[i] == ps[1..][i - 1];
    }
  }

  /**
   * A run without error converges exactly if no name had two copies and every desired name it wrote is
   * readable.
   */
  lemma ConvergesExactly(before: seq<Stored>, D: map<Name, Params>, lo: nat, hi: nat, created: seq<Stored>, after: seq<Stored>)
    requires UniqueIDs(before) && Named(D)
    requires Applied(before, D, Planned(Latest(before), D), lo, hi, created, after)
    ensures Converged(after, D) <==>
            SingleCopies(before) && forall n :: n in D && n in Planned(Latest(before), D) ==> Readable(D[n])
  {
    var done := Planned(Latest(before), D);
    SettledExactly(before, D, lo, hi, created, after);
    SingleIsDistinct(before);
    if DistinctNames(before) && forall n :: n in D && n in done ==> Readable(D[n]) {
      DistinctAfter(before, D, done, lo, hi, created, after);
      NothingPlanned(after, D);
    }
    if Converged(after, D) {
      ConvergedSettled(before, D, lo, hi, created, after);
      forall n ensures Count(before, n) <= 1 {
        SingleBefore(before, D, lo, hi, created, after, n);
      }
    }
  }

  lemma ConvergedSettled(before: seq<Stored>, D: map<Name, Params>, lo: nat, hi: nat, created: seq<Stored>, after: seq<Stored>)
    requires UniqueIDs(before) && Named(D) && Converged(after, D)
    requires Applied(before, D, Planned(Latest(before), D), lo, hi, created, after)
    ensures Planned(Latest(after), D) == {}
  {
    LatestIsLast(after);
    LatestIsLast(before);
    forall n ensures n !in Planned(Latest(after), D) {
      InPlanned(Latest(before), D, n);
      InPlanned(Latest(after), D, n);
      LastIn(after, n);
      if n in D {
        WantedThere(before, D, lo, hi, created, after, n);
      }
    }
  }

  lemma SingleBefore(before: seq<Stored>, D: map<Name, Params>, lo: nat, hi: nat, created: seq<Stored>, after: seq<Stored>, n: Name)
    requires UniqueIDs(before) && Named(D) && Converged(after, D)
    requires Applied(before, D, Planned(Latest(before), D), lo, hi, created, after)
    ensures Count(before, n) <= 1
  {
    var done := Planned(Latest(before), D);
    LastDistinct(after, n);
    CountLast(before, n);
    CountLast(after, n);
    LatestIsLast(before);
    if n in D {
      DesiredCount(before, D, done, lo, hi, created, after, n);
    } else {
      UndesiredAfter(before, D, done, lo, hi, created, after, n);
      InPlanned(Latest(before), D, n);
      LastIn(after, n);
    }
  }

  // ---------------------------------------------------------------- convergence and confluence

  /**
   * A run without error from distinct remote names: exactly the desired names remain, each survivor
   * under its old ID, and the returned IDs are all the IDs in the store.
   */
  lemma RunConverges(before: seq<Stored>, D: map<Name, Params>, lo: nat, hi: nat, created: seq<Stored>, after: seq<Stored>,
                     ids: seq<nat>)
    requires Sound(before, lo) && DistinctNames(before) && Named(D)
    requires Applied(before, D, Planned(Latest(before), D), lo, hi, created, after) && HolderIDs(ids, after, D)
    ensures DistinctNames(after) && |after| == |D| == |ids|
    ensures forall i :: 0 <= i < |after| ==> after[i].wire.name in D && after[i].id in ids
    ensures forall i :: 0 <= i < |after| ==> after[i].wire == ToWire(D[after[i].wire.name]) || FromWire(after[i].wire) == D[after[i].wire.name]
    ensures forall i, j :: 0 <= i < |after| && 0 <= j < |before| && after[i].wire.name == before[j].wire.name ==>
              after[i].id == before[j].id
  {
    var done := Planned(Latest(before), D);
    DistinctAfter(before, D, done, lo, hi, created, after);
    forall n ensures n in D ==> Last(after, n).Some? && Last(after, n).value.id in ids {}
    forall i | 0 <= i < |after|
      ensures after[i].wire.name in D && after[i].id in ids
      ensures after[i].wire == ToWire(D[after[i].wire.name]) || FromWire(after[i].wire) == D[after[i].wire.name]
      ensures forall j :: 0 <= j < |before| && after[i].wire.name == before[j].wire.name ==> after[i].id == before[j].id
    {
      LastDistinct(after, after[i].wire.name);
      LastDistinct(before, after[i].wire.name);
      ConvergedAt(before, D, lo, hi, created, after, after[i]);
    }
    NamesOnce(after, D);
  }

  lemma ConvergedAt(before: seq<Stored>, D: map<Name, Params>, lo: nat, hi: nat, created: seq<Stored>, after: seq<Stored>, p: Stored)
    requires UniqueIDs(before) && DistinctNames(before) && Named(D)
    requires Applied(before, D, Planned(Latest(before), D), lo, hi, created, after)
    requires Last(after, p.wire.name) == Some(p)
    ensures p.wire.name in D
    ensures p.wire == ToWire(D[p.wire.name]) || FromWire(p.wire) == D[p.wire.name]
    ensures Last(before, p.wire.name).Some? ==> p.id == Last(before, p.wire.name).value.id
  {
    var done := Planned(Latest(before), D);
    var n := p.wire.name;
    LatestIsLast(before);
    LastDistinct(before, n);
    CountLast(after, n);
    CountLast(before, n);
    InPlanned(Latest(before), D, n);
    if n !in D {
      UndesiredAfter(before, D, done, lo, hi, created, after, n);
    } else if Last(before, n).Some? {
      SurvivorAfter(before, D, done, lo, hi, created, after, n);
    } else {
      NewcomerAfter(before, D, done, lo, hi, created, after, n);
    }
  }

  function Wires(ps: seq<Stored>): seq<Wire> {
    if ps == [] then [] else Wires(ps[..|ps| - 1]) + [ps[|ps| - 1].wire]
  }

  lemma {:induction false} CreatedWires(created: seq<Stored>, names: set<Name>, D: map<Name, Params>, lo: nat, hi: nat)
    requires Named(D) && CreatedFor(created, names, D, lo, hi)
    ensures names <= D.Keys
    ensures multiset(Wires(created)) == multiset(set n | n in names && n in D :: ToWire(D[n]))
  {
    if created != [] {
      var p := created[|created| - 1];
      var n := p.wire.name;
      CreatedWires(created[..|created| - 1], names - {n}, D, lo, p.id);
      var rest := set m | m in names - {n} && m in D :: ToWire(D[m]);
      var all := set m | m in names && m in D :: ToWire(D[m]);
      assert p.wire !in rest;
      assert all == rest + {p.wire} by {
        forall w | w in all ensures w in rest + {p.wire} {
          var m :| m in names && m in D && ToWire(D[m]) == w;
          assert m != n ==> m in names - {n};
        }
      }
    }
  }

  /**
   * Two runs without error from the same list, whatever order their maps were iterated in: both keep
   * the same edited list, and the policies they append have the same contents up to order and IDs.
   */
  lemma OrderIndependent(before: seq<Stored>, D: map<Name, Params>, lo: nat, hi1: nat, created1: seq<Stored>, after1: seq<Stored>,
                         hi2: nat, created2: seq<Stored>, after2: seq<Stored>)
    requires UniqueIDs(before) && Named(D)
    requires Applied(before, D, Planned(Latest(before), D), lo, hi1, created1, after1)
    requires Applied(before, D, Planned(Latest(before), D), lo, hi2, created2, after2)
    ensures exists kept :: after1 == kept + created1 && after2 == kept + created2
    ensures multiset(Wires(created1)) == multiset(Wires(created2))
    ensures forall n :: Last(after1, n).Some? <==> Last(after2, n).Some?
    ensures forall n :: n in D ==> Last(after1, n).Some? && Last(after1, n).value.wire == Last(after2, n).value.wire &&
                                   (Last(before, n).Some? ==> Last(after1, n).value.id == Last(before, n).value.id == Last(after2, n).value.id)
  {
    var done := Planned(Latest(before), D);
    var names := done - Latest(before).Keys;
    CreatedWires(created1, names, D, lo, hi1);
    CreatedWires(created2, names, D, lo, hi2);
    assert after1 == Edited(before, Latest(before), D, done) + created1;
    LatestIsLast(before);
    forall n
      ensures Last(after1, n).Some? <==> Last(after2, n).Some?
      ensures n in D ==> Last(after1, n).Some? && Last(after1, n).value.wire == Last(after2, n).value.wire &&
                         (Last(before, n).Some? ==> Last(after1, n).value.id == Last(before, n).value.id == Last(after2, n).value.id)
    {
      if n !in D {
        UndesiredAfter(before, D, done, lo, hi1, created1, after1, n);
        UndesiredAfter(before, D, done, lo, hi2, created2, after2, n);
        CountLast(after1, n);
        CountLast(after2, n);
      } else if Last(before, n).Some? {
        SurvivorAfter(before, D, done, lo, hi1, created1, after1, n);
        SurvivorAfter(before, D, done, lo, hi2, created2, after2, n);
      } else {
        assert NeedsWrite(Latest(before), D, n);
        NewcomerAfter(before, D, done, lo, hi1, created1, after1, n);
        NewcomerAfter(before, D, done, lo, hi2, created2, after2, n);
      }
    }
  }

  // ---------------------------------------------------------------- draining duplicates

  /** Every run in the sequence ended without error. */
  ghost predicate AllComplete(before: seq<Stored>, D: map<Name, Params>, rs: seq<Run>)
    decreases |rs|
  {
    rs == [] || (rs[0].done == Planned(Latest(before), D) && AllComplete(rs[0].after, D, rs[1..]))
  }

  /** Each run without error removes exactly one copy of an undesired name, as long as there is one. */
  lemma {:induction false} Drain(before: seq<Stored>, nextID: nat, D: map<Name, Params>, rs: seq<Run>, n: Name)
    requires Sound(before, nextID) && Named(D) && n !in D
    requires Runs(before, nextID, D, rs) && AllComplete(before, D, rs)
    ensures Count(Final(before, rs), n) == if |rs| <= Count(before, n) then Count(before, n) - |rs| else 0
    decreases |rs|
  {
    if rs != [] {
      var r := rs[0];
      UndesiredAfter(before, D, r.done, nextID, r.nextID, r.created, r.after, n);
      LatestIsLast(before);
      CountLast(before, n);
      assert n in r.done <==> NeedsWrite(Latest(before), D, n);
      AppliedValid(before, D, r.done, nextID, r.nextID, r.created, r.after);
      Drain(r.after, r.nextID, D, rs[1..], n);
      FinalTail(before, nextID, rs);
    }
  }

  /** After as many runs as the largest multiplicity no undesired policy is left. */
  lemma Drained(before: seq<Stored>, nextID: nat, D: map<Name, Params>, rs: seq<Run>)
    requires Sound(before, nextID) && Named(D)
    requires Runs(before, nextID, D, rs) && AllComplete(before, D, rs)
    requires forall n :: n !in D ==> Count(before, n) <= |rs|
    ensures forall i :: 0 <= i < |Final(before, rs)| ==> Final(before, rs)[i].wire.name in D
  {
    forall i | 0 <= i < |Final(before, rs)| ensures Final(before, rs)[i].wire.name in D {
      var n := Final(before, rs)[i].wire.name;
      if n !in D {
        Drain(before, nextID, D, rs, n);
        CountLast(Final(before, rs), n);
        LastIn(Final(before, rs), n);
      }
    }
  }

  // ---------------------------------------------------------------- desired policies from the custom resource

  datatype CRDApprovalGroup = CRDApprovalGroup(emails: seq<string>, emailDomain: string, approvalsNeeded: int)

  /** AccessPolicyRule of the custom resource. */
  datatype PolicyRule = PolicyRule(
    name: Name,
    decision: string,
    precedence: Option<int>,
    includeRules: seq<CRDRule>,
    excludeRules: seq<CRDRule>,
    requireRules: seq<CRDRule>,
    sessionDuration: string,
    justificationRequired: bool,
    justificationPrompt: string,
    approvalRequired: bool,
    approvalGroups: seq<CRDApprovalGroup>)

  function ApprovalGroups(groups: seq<CRDApprovalGroup>): Slice<ApprovalGroup> {
    Appended(seq(|groups|, i requires 0 <= i < |groups| => ApprovalGroup(groups[i].emails, "", groups[i].approvalsNeeded)))
  }

  /** The params the reconciler asks for: rule i has precedence i + 1 unless it says otherwise. */
  function ParamsFor(rule: PolicyRule, i: nat): Params {
    Params(rule.name, rule.decision, if rule.precedence.Some? then rule.precedence.value else i + 1,
           Converted(rule.includeRules), Converted(rule.excludeRules), Converted(rule.requireRules),
           rule.sessionDuration, rule.justificationRequired, rule.justificationPrompt, rule.approvalRequired,
           ApprovalGroups(rule.approvalGroups))
  }

  /**
   * A policy written in the custom resource stops being rewritten on every sync exactly when it has no
   * approval groups and none of its rules refers to an IP or email list.
   */
  lemma RuleReadable(rule: PolicyRule, i: nat)
    ensures Readable(ParamsFor(rule, i)) <==>
            rule.approvalGroups == [] && NoListRules(rule.includeRules) && NoListRules(rule.excludeRules) && NoListRules(rule.requireRules)
  {
    ConvertedRoundTrip(rule.includeRules);
    ConvertedRoundTrip(rule.excludeRules);
    ConvertedRoundTrip(rule.requireRules);
    EchoExact(Converted(rule.includeRules));
    EchoExact(Converted(rule.excludeRules));
    EchoExact(Converted(rule.requireRules));
  }

  method RuleParams(rule: PolicyRule, i: nat) returns (p: Params)
    ensures p == ParamsFor(rule, i)
  {
    var precedence: int := i + 1;
    if rule.precedence.Some? {
      precedence := rule.precedence.value;
    }
    var includeParams, includeParts := ConvertAccessRules(rule.includeRules);
    var excludeParams, excludeParts := ConvertAccessRules(rule.excludeRules);
    var requireParams, requireParts := ConvertAccessRules(rule.requireRules);
    p := Params(rule.name, rule.decision, precedence, includeParams, excludeParams, requireParams, rule.sessionDuration,
                rule.justificationRequired, rule.justificationPrompt, rule.approvalRequired,
                ApprovalGroups(rule.approvalGroups));
  }

  /** The rules as params, in order. */
  function SpecFor(rules: seq<PolicyRule>): (ps: seq<Params>)
    ensures |ps| == |rules|
  {
    seq(|rules|, i requires 0 <= i < |rules| => ParamsFor(rules[i], i))
  }

  lemma SpecForAt(rules: seq<PolicyRule>, i: nat)
    requires i < |rules|
    ensures SpecFor(rules)[i] == ParamsFor(rules[i], i)
  {
  }

  method SpecParams(rules: seq<PolicyRule>) returns (params: seq<Params>)
    ensures params == SpecFor(rules)
  {
    params := [];
    for i := 0 to |rules|
      invariant params == SpecFor(rules)[..i]
    {
      var p := RuleParams(rules[i], i);
      SpecForAt(rules, i);
      TakeStep(SpecFor(rules), i);
      params := params + [p];
    }
  }

  /** What the params made of the i-th written policy must be, field by field and request by request. */
  ghost predicate Asks(rule: PolicyRule, i: nat, p: Params) {
    && p.name == rule.name && p.decision == rule.decision && p.sessionDuration == rule.sessionDuration
    && p.justificationRequired == rule.justificationRequired && p.justificationPrompt == rule.justificationPrompt
    && p.approvalRequired == rule.approvalRequired
    && (rule.precedence.Some? ==> p.precedence == rule.precedence.value) && (rule.precedence.None? ==> p.precedence == i + 1)
    && p.includeRules == Converted(rule.includeRules) && p.excludeRules == Converted(rule.excludeRules)
    && p.requireRules == Converted(rule.requireRules)
    && (forall q: Request :: AnyParam(p.includeRules, q) <==> AnyRule(rule.includeRules, q))
    && (forall q: Request :: AnyParam(p.excludeRules, q) <==> AnyRule(rule.excludeRules, q))
    && AsksGroups(rule.approvalGroups, p.approvalGroups.Items())
  }

  predicate AsksGroups(written: seq<CRDApprovalGroup>, groups: seq<ApprovalGroup>) {
    |groups| == |written| &&
    forall k :: 0 <= k < |written| ==> groups[k].emails == written[k].emails && groups[k].approvalsNeeded == written[k].approvalsNeeded
  }

  lemma ParamsAsk(rule: PolicyRule, i: nat)
    ensures Asks(rule, i, ParamsFor(rule, i))
  {
    forall q: Request
      ensures AnyParam(Converted(rule.includeRules), q) <==> AnyRule(rule.includeRules, q)
      ensures AnyParam(Converted(rule.excludeRules), q) <==> AnyRule(rule.excludeRules, q)
    {
      AnyPreserved(rule.includeRules, q);
      AnyPreserved(rule.excludeRules, q);
    }
  }

  /** What a stored policy does with a request. */
  predicate StoredApplies(w: Wire, q: Request) {
    AnyOf(w.includeRules, q) && !AnyOf(w.excludeRules, q) && AllOf(w.requireRules, q)
  }

  /** The policy says what the rule says apart from whom it is for. */
  predicate SameTerms(rule: PolicyRule, i: nat, w: Wire) {
    && w.name == rule.name && w.decision == rule.decision && w.sessionDuration == rule.sessionDuration
    && w.precedence == (if rule.precedence.Some? then rule.precedence.value else i + 1)
    && w.justificationRequired == rule.justificationRequired && w.justificationPrompt == rule.justificationPrompt
    && w.approvalRequired == rule.approvalRequired
  }

  predicate Legible(w: Wire) {
    forall c :: c in w.includeRules + w.excludeRules + w.requireRules ==> !c.Unrecognised?
  }

  /**
   * The policy stored for the i-th rule: if it was written it is for the requests the deployed rule is
   * for; if it was left alone, and has only rule kinds the client reads, for those that meet an include
   * and no exclude rule as written and every require value.
   */
  ghost predicate InForce(rule: PolicyRule, i: nat, w: Wire, written: bool) {
    && SameTerms(rule, i, w)
    && (written ==> forall q: Request ::
          StoredApplies(w, q) <==> DeployedApplies(rule.includeRules, rule.excludeRules, rule.requireRules, q))
    && (!written && Legible(w) ==> forall q: Request ::
          StoredApplies(w, q) <==>
          AnyRule(rule.includeRules, q) && !AnyRule(rule.excludeRules, q) && AllParams(Converted(rule.requireRules), q))
  }

  /** A list read back means what it means on the wire. */
  lemma ReadMeans(wire: seq<Condition>, q: Request)
    requires forall c :: c in wire ==> !c.Unrecognised?
    ensures AnyParam(ReadSlice(wire), q) <==> AnyOf(wire, q)
    ensures AllParams(ReadSlice(wire), q) <==> AllOf(wire, q)
  {
    ReadEach(wire);
    var ps := ReadAll(wire);
    forall i | 0 <= i < |wire| ensures ParamHolds(ps[i], q) <==> Meets(q, wire[i]) { ReadHolds(wire[i], q); }
    assert ReadSlice(wire).Items() == ps;
    if AnyOf(wire, q) {
      var i :| 0 <= i < |wire| && Meets(q, wire[i]);
      assert ps[i] in ps && ParamHolds(ps[i], q);
    }
    forall c | c in wire && AllParams(ReadSlice(wire), q) ensures Meets(q, c) {
      var i :| 0 <= i < |wire| && wire[i] == c;
      assert ps[i] in ps;
    }
  }

  lemma StoredInForce(rule: PolicyRule, i: nat, w: Wire, written: bool)
    requires AsDesired(w, ParamsFor(rule, i), written)
    ensures InForce(rule, i, w, written)
  {
    if !written && Legible(w) {
      forall q: Request
        ensures StoredApplies(w, q) <==>
                AnyRule(rule.includeRules, q) && !AnyRule(rule.excludeRules, q) && AllParams(Converted(rule.requireRules), q)
      {
        ReadMeans(w.includeRules, q);
        ReadMeans(w.excludeRules, q);
        ReadMeans(w.requireRules, q);
        AnyPreserved(rule.includeRules, q);
        AnyPreserved(rule.excludeRules, q);
      }
    }
  }

  /** No later rule has the name. */
  predicate LastRule(rules: seq<PolicyRule>, i: nat) {
    i < |rules| && forall j :: i < j < |rules| ==> rules[j].name != rules[i].name
  }

  /** Every rule that counts is in force under its name. */
  ghost predicate AllInForce(rules: seq<PolicyRule>, done: set<Name>, after: seq<Stored>) {
    forall i: nat :: LastRule(rules, i) ==>
      Last(after, rules[i].name).Some? && InForce(rules[i], i, Last(after, rules[i].name).value.wire, rules[i].name in done)
  }

  lemma SpecNames(rules: seq<PolicyRule>)
    ensures |SpecFor(rules)| == |rules| && forall i :: 0 <= i < |rules| ==> SpecFor(rules)[i].name == rules[i].name
  {
    forall i | 0 <= i < |rules| ensures SpecFor(rules)[i].name == rules[i].name { SpecForAt(rules, i); }
  }

  lemma SpecInForce(rules: seq<PolicyRule>, done: set<Name>, after: seq<Stored>)
    requires AllThere(SpecFor(rules), done, after)
    ensures AllInForce(rules, done, after)
  {
    SpecNames(rules);
    forall i: nat | LastRule(rules, i)
      ensures Last(after, rules[i].name).Some? && InForce(rules[i], i, Last(after, rules[i].name).value.wire, rules[i].name in done)
    {
      assert LastOfName(SpecFor(rules), i);
      SpecForAt(rules, i);
      StoredInForce(rules[i], i, Last(after, rules[i].name).value.wire, rules[i].name in done);
    }
  }

  lemma SpecAsks(rules: seq<PolicyRule>)
    ensures |SpecFor(rules)| == |rules| && forall i :: 0 <= i < |rules| ==> Asks(rules[i], i, SpecFor(rules)[i])
  {
    forall i | 0 <= i < |rules| ensures Asks(rules[i], i, SpecFor(rules)[i]) {
      SpecForAt(rules, i);
      ParamsAsk(rules[i], i);
    }
  }

  /**
   * syncPolicies of the reconciler: convert every rule in order, then synchronise. Without an error every
   * rule that no later one of its name replaces is in force.
   */
  method SyncSpecPolicies(api: PolicyAPI, rules: seq<PolicyRule>)
    returns (r: Result<seq<nat>, Error>, ghost desired: seq<Params>, ghost done: set<Name>, ghost created: seq<Stored>)
    requires api.Valid()
    modifies api
    ensures api.Valid()
    ensures |desired| == |rules| && forall i :: 0 <= i < |rules| ==> Asks(rules[i], i, desired[i])
    ensures Applied(old(api.policies), Wanted(desired), done, old(api.nextID), api.nextID, created, api.policies)
    ensures r.Ok? ==> done == Planned(Latest(old(api.policies)), Wanted(desired)) && HolderIDs(r.value, api.policies, Wanted(desired))
    ensures api.faults == old(api.faults) + (if r.Ok? then 0 else 1)
    ensures OldOrDesired(old(api.policies), desired, api.policies)
    ensures r.Ok? ==> AllInForce(rules, done, api.policies)
  {
    var params := SpecParams(rules);
    desired := params;
    r, done, created := SyncPolicies(api, params);
    SpecAsks(rules);
    if r.Ok? {
      SpecInForce(rules, done, api.policies);
    }
  }
}
