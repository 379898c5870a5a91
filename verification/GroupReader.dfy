/** Reading a group of inputs: archive members are pulled in by undefined references, and the archives are read again
    until a whole round pulls in nothing. */
module GroupReaders {
  import opened ResolveInfos
  import StaticResolvers
  import opened NamePools

  /** One entry of an archive's symbol map: a name and the offset of the member that defines it. */
  datatype ArSymbol = ArSymbol(name: string, offset: nat)

  datatype Status = Include | Exclude | Unknown

  /** An archive as it is stored: its symbol map and the object member at each offset. */
  datatype ArchiveFile = ArchiveFile(armap: seq<ArSymbol>, members: map<nat, Symbols>)
  {
    ghost predicate Valid() {
      forall k :: 0 <= k < |armap| ==> armap[k].offset in members
    }
  }

  /** The inputs of a group, by what the format probes find them to be. */
  datatype Input =
    | ArchiveInput(file: ArchiveFile)
    | BinaryInput(symbols: Symbols)
    | ObjectInput(symbols: Symbols)
    | SharedInput(symbols: Symbols)
    | Unrecognized

  /** What is read into the module: an input of the group itself, or a member of one of its archives. */
  datatype Load = Own(input: nat) | Pulled(input: nat, offset: nat)

  ghost predicate ValidInputs(inputs: seq<Input>) {
    forall i :: 0 <= i < |inputs| && inputs[i].ArchiveInput? ==> inputs[i].file.Valid()
  }

  ghost predicate ValidLoad(inputs: seq<Input>, load: Load) {
    && load.input < |inputs|
    && match load
       case Own(i) => !inputs[i].ArchiveInput? && !inputs[i].Unrecognized?
       case Pulled(i, off) => inputs[i].ArchiveInput? && off in inputs[i].file.members
  }

  ghost predicate ValidLoads(inputs: seq<Input>, loads: seq<Load>) {
    forall i :: 0 <= i < |loads| ==> ValidLoad(inputs, loads[i])
  }

  ghost function SymbolsOf(inputs: seq<Input>, load: Load): Symbols
    requires ValidLoad(inputs, load)
  {
    match load
    case Own(i) => inputs[i].symbols
    case Pulled(i, off) => inputs[i].file.members[off]
  }

  /** The name pool after reading `loads` in order. */
  ghost function After(start: Table, inputs: seq<Input>, loads: seq<Load>): Table
    requires ValidLoads(inputs, loads)
  {
    if |loads| == 0 then start
    else InsertAll(After(start, inputs, loads[..|loads| - 1]), SymbolsOf(inputs, loads[|loads| - 1]))
  }

  /** The member at `off` is listed under a name that is undefined, and not merely weak. */
  ghost predicate IsCalledFor(file: ArchiveFile, off: nat, t: Table) {
    exists k ::
      0 <= k < |file.armap| && file.armap[k].offset == off && IsWanted(t, file.armap[k].name)
  }

  /** A member is pulled in only when it is called for. */
  ghost predicate JustifiedAt(start: Table, inputs: seq<Input>, loads: seq<Load>, i: nat)
    requires ValidLoads(inputs, loads) && i < |loads|
  {
    loads[i].Pulled? ==>
      IsCalledFor(inputs[loads[i].input].file, loads[i].offset, After(start, inputs, loads[..i]))
  }

  /** Everything read was read once, and every archive member for a reason. */
  ghost predicate Justified(start: Table, inputs: seq<Input>, loads: seq<Load>) {
    && ValidLoads(inputs, loads)
    && (forall i, j :: 0 <= i < j < |loads| ==> loads[i] != loads[j])
    && forall i :: 0 <= i < |loads| ==> JustifiedAt(start, inputs, loads, i)
  }

  lemma AppendLoad(start: Table, inputs: seq<Input>, loads: seq<Load>, load: Load)
    requires Justified(start, inputs, loads) && ValidLoad(inputs, load) && load !in loads
    requires load.Pulled? ==> IsCalledFor(inputs[load.input].file, load.offset, After(start, inputs, loads))
    ensures Justified(start, inputs, loads + [load])
    ensures After(start, inputs, loads + [load]) == InsertAll(After(start, inputs, loads), SymbolsOf(inputs, load))
  {
    var longer := loads + [load];
    assert longer[..|loads|] == loads;
    forall i | 0 <= i < |longer| ensures JustifiedAt(start, inputs, longer, i) {
      if i < |loads| {
        assert longer[..i] == loads[..i] && JustifiedAt(start, inputs, loads, i);
      }
    }
  }

  /** The decisions already taken about an archive agree with the pool. */
  ghost predicate Consistent(file: ArchiveFile, status: seq<Status>, included: set<nat>, t: Table) {
    && |status| == |file.armap|
    && (forall k :: 0 <= k < |status| && status[k] == Exclude ==> IsDefined(t, file.armap[k].name))
    && (forall k :: 0 <= k < |status| && status[k] == Include ==> file.armap[k].offset in included)
  }

  /** An archive of the group: the input it stands for, the file, the decision taken about each entry of the symbol
      map, and the keys of the object member map. */
  datatype Archive = Archive(position: nat, file: ArchiveFile, status: seq<Status>, included: set<nat>)

  /** The archive agrees with the pool and with what has been read. */
  ghost predicate Tracked(ar: Archive, loads: seq<Load>, t: Table) {
    && Consistent(ar.file, ar.status, ar.included, t)
    && forall off :: off in ar.included <==> Pulled(ar.position, off) in loads
  }

  lemma StaysConsistent(file: ArchiveFile, status: seq<Status>, included: set<nat>, more: set<nat>, t: Table,
                        s: Symbols)
    requires Consistent(file, status, included, t)
    ensures Consistent(file, status, included + more, InsertAll(t, s))
  {
    forall k | 0 <= k < |status| && status[k] == Exclude ensures IsDefined(InsertAll(t, s), file.armap[k].name) {
      InsertAllKeepsDefined(t, s, file.armap[k].name);
    }
  }

  /** The archive after one more input has been read. */
  ghost function Extended(ar: Archive, load: Load): Archive {
    if load.Pulled? && load.input == ar.position then ar.(included := ar.included + {load.offset}) else ar
  }

  /** Reading one more input keeps every archive tracked. */
  lemma StaysTracked(ar: Archive, loads: seq<Load>, t: Table, load: Load, s: Symbols)
    requires Tracked(ar, loads, t)
    ensures Tracked(Extended(ar, load), loads + [load], InsertAll(t, s))
  {
    var more := if load.Pulled? && load.input == ar.position then {load.offset} else {};
    assert ar.included + {} == ar.included;
    StaysConsistent(ar.file, ar.status, ar.included, more, t, s);
  }

  lemma TrackedMembers(ar: Archive, loads: seq<Load>, t: Table)
    requires Tracked(ar, loads, t)
    ensures |ar.status| == |ar.file.armap| && Consistent(ar.file, ar.status, ar.included, t)
    ensures forall off :: off in ar.included <==> Pulled(ar.position, off) in loads
  {}

  /** No reference that the archive could satisfy is left. */
  ghost predicate Closed(ar: Archive, t: Table) {
    forall k :: 0 <= k < |ar.file.armap| && IsWanted(t, ar.file.armap[k].name) ==>
      ar.file.armap[k].offset in ar.included
  }

  /** `after` continues `before` with members of the archive at `position` only. */
  ghost predicate ContinuedFrom(before: seq<Load>, after: seq<Load>, position: nat) {
    && |before| <= |after| && after[..|before|] == before
    && forall p :: |before| <= p < |after| ==> after[p].Pulled? && after[p].input == position
  }

  lemma ContinuedIsPrefix(before: seq<Load>, after: seq<Load>, position: nat)
    requires ContinuedFrom(before, after, position)
    ensures before <= after
  {}

  lemma ContinuedFromSelf(loads: seq<Load>, position: nat)
    ensures ContinuedFrom(loads, loads, position)
  {}

  ghost function Undecided(status: seq<Status>): nat {
    if |status| == 0 then 0
    else Undecided(status[..|status| - 1]) + if status[|status| - 1] == Unknown then 1 else 0
  }

  lemma {:induction false} DecideOne(status: seq<Status>, k: nat, s: Status)
    requires k < |status| && status[k] == Unknown && s != Unknown
    ensures Undecided(status[k := s]) == Undecided(status) - 1
  {
    var n := |status| - 1;
    if k < n {
      DecideOne(status[..n], k, s);
      assert status[k := s][..n] == status[..n][k := s];
    } else {
      assert status[k := s][..n] == status[..n];
    }
  }

  /** How many members the archives have included between them. */
  function TotalSize(archives: seq<Archive>): nat {
    if |archives| == 0 then 0 else TotalSize(archives[..|archives| - 1]) + |archives[|archives| - 1].included|
  }

  /** The same archives, each with at least the members it had. */
  ghost predicate Grown(before: seq<Archive>, after: seq<Archive>) {
    |before| == |after| && forall a :: 0 <= a < |before| ==> GrownOne(before[a], after[a])
  }

  ghost predicate GrownOne(before: Archive, after: Archive) {
    before.position == after.position && before.file == after.file && before.included <= after.included
  }

  lemma SubsetSize(a: set<nat>, b: set<nat>)
    requires a <= b
    ensures |a| <= |b| && (|a| == |b| ==> a == b)
  {
    assert b == a + (b - a);
    if |a| == |b| {
      assert |b - a| == 0;
    }
  }

  /** Archives that only grow and end with the same total have included nothing. */
  lemma {:induction false} GrownTotal(before: seq<Archive>, after: seq<Archive>)
    requires Grown(before, after)
    ensures TotalSize(before) <= TotalSize(after)
    ensures TotalSize(before) == TotalSize(after) ==> SameMembers(before, after)
  {
    var n := |before| - 1;
    if n >= 0 {
      GrownTotal(before[..n], after[..n]);
      SubsetSize(before[n].included, after[n].included);
      if TotalSize(before) == TotalSize(after) {
        forall a | 0 <= a < |before| ensures before[a].included == after[a].included {
          assert a < n ==> before[a] == before[..n][a] && after[a] == after[..n][a];
        }
      }
    }
  }

  ghost predicate SameMembers(before: seq<Archive>, after: seq<Archive>)
    requires |before| == |after|
  {
    forall a :: 0 <= a < |before| ==> before[a].included == after[a].included
  }

  /** Every archive was made for an input of its own. */
  ghost predicate Shape(inputs: seq<Input>, archives: seq<Archive>) {
    && ValidInputs(inputs)
    && (forall a, b :: 0 <= a < b < |archives| ==> archives[a].position != archives[b].position)
    && forall a :: 0 <= a < |archives| ==>
         archives[a].position < |inputs| && inputs[archives[a].position] == ArchiveInput(archives[a].file)
  }

  /** The state of a reader: what has been read accounts for the pool and for every archive. */
  ghost predicate State(start: Table, inputs: seq<Input>, archives: seq<Archive>, loads: seq<Load>, t: Table) {
    && Shape(inputs, archives)
    && Justified(start, inputs, loads)
    && t == After(start, inputs, loads)
    && forall a :: 0 <= a < |archives| ==> Tracked(archives[a], loads, t)
  }

  lemma ReadMember(start: Table, inputs: seq<Input>, archives: seq<Archive>, loads: seq<Load>, t: Table, a: nat,
                   off: nat)
    requires State(start, inputs, archives, loads, t) && a < |archives|
    requires off in archives[a].file.members && off !in archives[a].included && IsCalledFor(archives[a].file, off, t)
    ensures State(start, inputs, archives[a := archives[a].(included := archives[a].included + {off})],
                  loads + [Pulled(archives[a].position, off)], InsertAll(t, archives[a].file.members[off]))
  {
    hide Justified, Tracked, After, StaticResolvers.WellFormed, Insert, InsertAll;
    var load := Pulled(archives[a].position, off);
    TrackedMembers(archives[a], loads, t);
    AppendLoad(start, inputs, loads, load);
    forall b | 0 <= b < |archives| {
      StaysTracked(archives[b], loads, t, load, archives[a].file.members[off]);
    }
  }

  lemma ReadInput(start: Table, inputs: seq<Input>, archives: seq<Archive>, loads: seq<Load>, t: Table, i: nat)
    requires State(start, inputs, archives, loads, t) && ValidLoad(inputs, Own(i)) && Own(i) !in loads
    ensures State(start, inputs, archives, loads + [Own(i)], InsertAll(t, inputs[i].symbols))
  {
    hide Justified, Tracked, After, StaticResolvers.WellFormed, Insert, InsertAll;
    AppendLoad(start, inputs, loads, Own(i));
    forall b | 0 <= b < |archives| {
      StaysTracked(archives[b], loads, t, Own(i), inputs[i].symbols);
    }
  }

  /** A decision that the pool or the object map already implies. */
  ghost predicate Implied(ar: Archive, k: nat, s: Status, t: Table)
    requires k < |ar.file.armap|
  {
    && (s == Exclude ==> IsDefined(t, ar.file.armap[k].name))
    && (s == Include ==> ar.file.armap[k].offset in ar.included)
  }

  lemma Decide(start: Table, inputs: seq<Input>, archives: seq<Archive>, loads: seq<Load>, t: Table, a: nat, k: nat,
               s: Status)
    requires State(start, inputs, archives, loads, t) && a < |archives|
    requires k < |archives[a].status| == |archives[a].file.armap| && archives[a].status[k] == Unknown && s != Unknown
    requires Implied(archives[a], k, s, t)
    ensures State(start, inputs, archives[a := archives[a].(status := archives[a].status[k := s])], loads, t)
    ensures Undecided(archives[a].status[k := s]) == Undecided(archives[a].status) - 1
  {
    hide Justified, After, StaticResolvers.WellFormed, Insert, InsertAll;
    DecideOne(archives[a].status, k, s);
  }

  /** Nothing but archive `a` has changed between the two sequences, and it only by including members. */
  ghost predicate OnlyGrew(before: seq<Archive>, after: seq<Archive>, a: nat)
    requires a < |before|
  {
    |before| == |after| && after == before[a := after[a]] && GrownOne(before[a], after[a])
  }

  /** What reading an archive, or a part of its symbol map, does to the rest of the reader. */
  ghost predicate Progress(before: seq<Archive>, loadsBefore: seq<Load>, tableBefore: Table,
                           after: seq<Archive>, loadsAfter: seq<Load>, tableAfter: Table, a: nat)
    requires a < |before|
  {
    && OnlyGrew(before, after, a)
    && ContinuedFrom(loadsBefore, loadsAfter, before[a].position)
    && (before[a].included == after[a].included ==> loadsBefore == loadsAfter && tableBefore == tableAfter)
  }

  lemma ProgressTransitive(b0: seq<Archive>, l0: seq<Load>, t0: Table, b1: seq<Archive>, l1: seq<Load>, t1: Table,
                           b2: seq<Archive>, l2: seq<Load>, t2: Table, a: nat)
    requires a < |b0| == |b1| && Progress(b0, l0, t0, b1, l1, t1, a) && Progress(b1, l1, t1, b2, l2, t2, a)
    ensures Progress(b0, l0, t0, b2, l2, t2, a)
  {
    assert l2[..|l0|] == l2[..|l1|][..|l0|];
    assert b0[a].included <= b1[a].included <= b2[a].included;
  }

  /** The first `n` entries of the symbol map leave nothing to include. */
  ghost predicate ClosedUpTo(ar: Archive, n: nat, t: Table) {
    forall k :: 0 <= k < n <= |ar.file.armap| && IsWanted(t, ar.file.armap[k].name) ==>
      ar.file.armap[k].offset in ar.included
  }

  ghost predicate AllClosed(archives: seq<Archive>, t: Table) {
    forall a :: 0 <= a < |archives| ==> Closed(archives[a], t)
  }

  lemma {:induction false} TotalSizeStep(before: seq<Archive>, after: seq<Archive>, a: nat)
    requires a < |before| && OnlyGrew(before, after, a)
    ensures Grown(before, after)
    ensures TotalSize(after[..a + 1]) == TotalSize(before[..a]) + |after[a].included|
  {
    assert after[..a + 1][..a] == before[..a];
  }

  lemma GrownAt(before: seq<Archive>, after: seq<Archive>, a: nat)
    requires Grown(before, after) && a < |before|
    ensures after[a].position == before[a].position
  {
    assert GrownOne(before[a], after[a]);
  }

  lemma GrownSelf(archives: seq<Archive>)
    ensures Grown(archives, archives)
  {}

  lemma OnlyGrewPrefix(before: seq<Archive>, after: seq<Archive>)
    requires |before| > 0 && OnlyGrew(before, after, |before| - 1)
    ensures after[..|before| - 1] == before[..|before| - 1]
    ensures after[|before| - 1].position == before[|before| - 1].position
  {}

  lemma GrownTransitive(a: seq<Archive>, b: seq<Archive>, c: seq<Archive>)
    requires Grown(a, b) && Grown(b, c)
    ensures Grown(a, c)
    ensures SameMembers(a, c) ==> SameMembers(a, b) && SameMembers(b, c)
  {
    forall i | 0 <= i < |a| ensures GrownOne(a[i], c[i]) && GrownOne(a[i], b[i]) && GrownOne(b[i], c[i]) {}
  }

  /** The loads come in the order of the inputs, each archive's members where the archive stands. */
  ghost predicate InOrder(loads: seq<Load>) {
    forall p, q :: 0 <= p < q < |loads| ==> loads[p].input <= loads[q].input
  }

  ghost predicate IsReadable(input: Input) {
    !input.ArchiveInput? && !input.Unrecognized?
  }

  /** The inputs before `n`, and only those, have been dealt with. */
  ghost predicate ReadUpTo(inputs: seq<Input>, archives: seq<Archive>, loads: seq<Load>, n: nat)
    requires n <= |inputs|
  {
    && (forall i :: 0 <= i < n && inputs[i].ArchiveInput? ==>
      exists a :: 0 <= a < |archives| && archives[a].position == i)
    && (forall i :: 0 <= i < n && IsReadable(inputs[i]) ==> Own(i) in loads)
    && (forall a :: 0 <= a < |archives| ==> archives[a].position < n)
    && (forall p :: 0 <= p < |loads| ==> loads[p].input < n)
    && InOrder(loads)
  }

  lemma NotReadYet(inputs: seq<Input>, archives: seq<Archive>, loads: seq<Load>, n: nat)
    requires n <= |inputs| && ReadUpTo(inputs, archives, loads, n)
    ensures Own(n) !in loads && forall off :: Pulled(n, off) !in loads
    ensures forall a :: 0 <= a < |archives| ==> archives[a].position != n
  {}

  lemma ReadUpToNext(inputs: seq<Input>, archives: seq<Archive>, loads: seq<Load>, n: nat)
    requires n < |inputs| && ReadUpTo(inputs, archives, loads, n)
    ensures inputs[n].Unrecognized? ==> ReadUpTo(inputs, archives, loads, n + 1)
    ensures IsReadable(inputs[n]) ==> ReadUpTo(inputs, archives, loads + [Own(n)], n + 1)
  {}

  lemma ReadUpToArchive(inputs: seq<Input>, archives: seq<Archive>, loads: seq<Load>, n: nat,
                        after: seq<Archive>, loadsAfter: seq<Load>)
    requires n < |inputs| && inputs[n].ArchiveInput? && ReadUpTo(inputs, archives, loads, n)
    requires |after| == |archives| + 1 && after[|archives|].position == n && after[..|archives|] == archives
    requires ContinuedFrom(loads, loadsAfter, n)
    ensures ReadUpTo(inputs, after, loadsAfter, n + 1)
  {
    forall i | 0 <= i <= n && inputs[i].ArchiveInput? ensures exists a :: 0 <= a < |after| && after[a].position == i {
      if i < n {
        var a :| 0 <= a < |archives| && archives[a].position == i;
        assert after[a] == after[..|archives|][a];
      } else {
        assert after[|archives|].position == i;
      }
    }
    forall i | 0 <= i <= n && IsReadable(inputs[i]) ensures Own(i) in loadsAfter {
      assert Own(i) in loadsAfter[..|loads|];
    }
    forall a | 0 <= a < |after| ensures after[a].position < n + 1 {
      assert a < |archives| ==> after[a] == after[..|archives|][a];
    }
    forall p | 0 <= p < |loads| ensures loadsAfter[p] == loads[p] {
      assert loadsAfter[p] == loadsAfter[..|loads|][p];
    }
  }

  /** How many members the archives hold between them. */
  ghost function Capacity(archives: seq<Archive>): nat {
    if |archives| == 0 then 0
    else Capacity(archives[..|archives| - 1]) + |archives[|archives| - 1].file.members.Keys|
  }

  lemma {:induction false} SizeWithinCapacity(archives: seq<Archive>)
    requires forall a :: 0 <= a < |archives| ==> archives[a].included <= archives[a].file.members.Keys
    ensures TotalSize(archives) <= Capacity(archives)
  {
    var n := |archives| - 1;
    if n >= 0 {
      SizeWithinCapacity(archives[..n]);
      SubsetSize(archives[n].included, archives[n].file.members.Keys);
    }
  }

  lemma {:induction false} SameCapacity(before: seq<Archive>, after: seq<Archive>)
    requires Grown(before, after)
    ensures Capacity(before) == Capacity(after)
  {
    var n := |before| - 1;
    if n >= 0 {
      assert GrownOne(before[n], after[n]);
      forall a | 0 <= a < n ensures GrownOne(before[..n][a], after[..n][a]) {
        assert GrownOne(before[a], after[a]);
      }
      SameCapacity(before[..n], after[..n]);
    }
  }

  lemma StateWithinCapacity(start: Table, inputs: seq<Input>, archives: seq<Archive>, loads: seq<Load>, t: Table)
    requires State(start, inputs, archives, loads, t)
    ensures TotalSize(archives) <= Capacity(archives)
  {
    forall a | 0 <= a < |archives| ensures archives[a].included <= archives[a].file.members.Keys {
      TrackedMembers(archives[a], loads, t);
      forall off | off in archives[a].included ensures off in archives[a].file.members {
        var p :| 0 <= p < |loads| && loads[p] == Pulled(archives[a].position, off);
      }
    }
    SizeWithinCapacity(archives);
  }

  ghost predicate HasMember(loads: seq<Load>) {
    exists p :: 0 <= p < |loads| && loads[p].Pulled?
  }

  /** The count of members tells whether any has been read. */
  lemma CountTellsMembers(start: Table, inputs: seq<Input>, archives: seq<Archive>, loads: seq<Load>, t: Table)
    requires State(start, inputs, archives, loads, t) && ReadUpTo(inputs, archives, loads, |inputs|)
    ensures TotalSize(archives) > 0 <==> HasMember(loads)
  {
    hide Consistent, After, JustifiedAt, StaticResolvers.WellFormed;
    TotalSizeZero(archives);
    if HasMember(loads) {
      var p :| 0 <= p < |loads| && loads[p].Pulled?;
      assert ValidLoad(inputs, loads[p]);
      var a :| 0 <= a < |archives| && archives[a].position == loads[p].input;
      TrackedMembers(archives[a], loads, t);
      assert loads[p].offset in archives[a].included;
    } else {
      forall a | 0 <= a < |archives| ensures archives[a].included == {} {
        TrackedMembers(archives[a], loads, t);
        assert forall off :: Pulled(archives[a].position, off) !in loads;
      }
    }
  }

  lemma {:induction false} TotalSizeZero(archives: seq<Archive>)
    ensures TotalSize(archives) == 0 <==> forall a :: 0 <= a < |archives| ==> archives[a].included == {}
  {
    var n := |archives| - 1;
    if n >= 0 {
      TotalSizeZero(archives[..n]);
      assert archives[n].included == {} <==> |archives[n].included| == 0;
      assert forall a :: 0 <= a < n ==> archives[..n][a] == archives[a];
    }
  }

  ghost predicate HasObject(inputs: seq<Input>) {
    exists i :: 0 <= i < |inputs| && inputs[i].ObjectInput?
  }

  /** The inputs before `n` that are read themselves, in order. */
  ghost function OwnBefore(inputs: seq<Input>, n: nat): (loads: seq<Load>)
    requires n <= |inputs|
    ensures ValidLoads(inputs, loads) && !HasMember(loads)
  {
    if n == 0 then []
    else if IsReadable(inputs[n - 1]) then OwnBefore(inputs, n - 1) + [Own(n - 1)]
    else OwnBefore(inputs, n - 1)
  }

  /** The archive lists a name that is wanted. */
  ghost predicate CallsFor(file: ArchiveFile, t: Table) {
    exists k :: 0 <= k < |file.armap| && IsWanted(t, file.armap[k].name)
  }

  /** The input is an archive that lists a name which the inputs up to `n` of the group, or what was read before it,
      refer to and do not define. */
  ghost predicate IsCalled(start: Table, inputs: seq<Input>, i: nat, n: nat)
    requires i < |inputs| && n <= |inputs|
  {
    inputs[i].ArchiveInput? && CallsFor(inputs[i].file, After(start, inputs, OwnBefore(inputs, n)))
  }

  /** The first `n` inputs have pulled members in exactly if one of them was called for when its turn came. */
  ghost predicate FirstPass(start: Table, inputs: seq<Input>, loads: seq<Load>, n: nat)
    requires n <= |inputs|
  {
    && (!HasMember(loads) ==> loads == OwnBefore(inputs, n))
    && (HasMember(loads) <==> exists i :: 0 <= i < n && IsCalled(start, inputs, i, i))
  }

  lemma NothingRead(start: Table, inputs: seq<Input>)
    ensures ReadUpTo(inputs, [], [], 0) && FirstPass(start, inputs, [], 0) && TotalSize([]) == 0
    ensures HasObject(inputs) <==> exists i :: 0 <= i < |inputs| && inputs[i].ObjectInput?
  {}

  lemma FirstPassOwn(start: Table, inputs: seq<Input>, loads: seq<Load>, n: nat)
    requires n < |inputs| && FirstPass(start, inputs, loads, n) && !inputs[n].ArchiveInput?
    ensures FirstPass(start, inputs, if IsReadable(inputs[n]) then loads + [Own(n)] else loads, n + 1)
  {
    hide IsCalled;
    assert forall i :: 0 <= i < n + 1 && IsCalled(start, inputs, i, i) ==> i < n by { NotCalled(start, inputs, n); }
    HasMemberAppend(loads, Own(n));
  }

  lemma NotCalled(start: Table, inputs: seq<Input>, n: nat)
    requires n < |inputs| && !inputs[n].ArchiveInput?
    ensures !IsCalled(start, inputs, n, n)
  {}

  lemma HasMemberAppend(loads: seq<Load>, load: Load)
    ensures HasMember(loads + [load]) <==> HasMember(loads) || load.Pulled?
  {
    if HasMember(loads) {
      var p :| 0 <= p < |loads| && loads[p].Pulled?;
      assert (loads + [load])[p].Pulled?;
    } else if load.Pulled? {
      assert (loads + [load])[|loads|].Pulled?;
    }
  }

  lemma FirstPassArchive(start: Table, inputs: seq<Input>, loads: seq<Load>, n: nat, after: seq<Load>)
    requires n < |inputs| && FirstPass(start, inputs, loads, n) && inputs[n].ArchiveInput? && ValidLoads(inputs, loads)
    requires HasMember(after) <==> HasMember(loads) || CallsFor(inputs[n].file, After(start, inputs, loads))
    requires !HasMember(after) ==> after == loads
    ensures FirstPass(start, inputs, after, n + 1)
  {
    hide CallsFor, After;
    if i :| 0 <= i < n && IsCalled(start, inputs, i, i) {
      assert HasMember(loads);
    } else {
      assert loads == OwnBefore(inputs, n);
      assert IsCalled(start, inputs, n, n) <==> CallsFor(inputs[n].file, After(start, inputs, loads));
    }
  }

  /** Reading an archive for the first time pulls a member in exactly if it is called for. */
  lemma NewArchiveMembers(start: Table, inputs: seq<Input>, before: seq<Archive>, loads: seq<Load>, t: Table,
                          after: seq<Archive>, loadsAfter: seq<Load>, tableAfter: Table, a: nat)
    requires State(start, inputs, before, loads, t) && State(start, inputs, after, loadsAfter, tableAfter)
    requires a < |before| && Progress(before, loads, t, after, loadsAfter, tableAfter, a)
    requires before[a].included == {} && Closed(after[a], tableAfter)
    ensures HasMember(loadsAfter) <==> HasMember(loads) || CallsFor(before[a].file, t)
    ensures !HasMember(loadsAfter) ==> loadsAfter == loads
  {
    hide Justified, After, Consistent, IsWanted;
    var ar := after[a];
    StateLoads(start, inputs, before, loads, t);
    TrackedMembers(before[a], loads, t);
    TrackedMembers(ar, loadsAfter, tableAfter);
    ContinuedIsPrefix(loads, loadsAfter, ar.position);
    if |loadsAfter| > |loads| {
      FirstNewLoad(start, inputs, loads, loadsAfter);
      assert loadsAfter[|loads|].Pulled? && inputs[loadsAfter[|loads|].input] == ArchiveInput(ar.file);
    } else {
      assert loadsAfter == loads;
    }
  }

  lemma FirstNewLoad(start: Table, inputs: seq<Input>, loads: seq<Load>, after: seq<Load>)
    requires Justified(start, inputs, after) && ValidLoads(inputs, loads) && loads <= after && |after| > |loads|
    requires after[|loads|].Pulled?
    ensures after[|loads|].input < |inputs| && inputs[after[|loads|].input].ArchiveInput?
    ensures CallsFor(inputs[after[|loads|].input].file, After(start, inputs, loads))
    ensures HasMember(loads) ==> HasMember(after)
  {
    hide After;
    assert after[..|loads|] == loads;
    assert ValidLoad(inputs, after[|loads|]) && JustifiedAt(start, inputs, after, |loads|);
    if p :| 0 <= p < |loads| && loads[p].Pulled? {
      assert after[p].Pulled?;
    }
  }

  lemma StateLoads(start: Table, inputs: seq<Input>, archives: seq<Archive>, loads: seq<Load>, t: Table)
    requires State(start, inputs, archives, loads, t)
    ensures Justified(start, inputs, loads) && ValidLoads(inputs, loads) && t == After(start, inputs, loads)
  {}

  /** What a reader of a group is left with: the postconditions of `ReadGroup`. */
  ghost predicate GroupRead(start: Table, inputs: seq<Input>, first: seq<Load>, archives: seq<Archive>,
                            loads: seq<Load>, t: Table) {
    && State(start, inputs, archives, loads, t)
    && (forall i :: 0 <= i < |inputs| && IsReadable(inputs[i]) ==> Own(i) in loads)
    && (forall i :: 0 <= i < |inputs| && inputs[i].ArchiveInput? ==>
      exists a :: 0 <= a < |archives| && archives[a].position == i)
    && first <= loads && InOrder(first) && FirstPass(start, inputs, first, |inputs|)
    && (HasObject(inputs) || HasMember(first) ==> AllClosed(archives, t))
    && (!HasObject(inputs) && !HasMember(first) ==> loads == first)
  }

  /** The archives are read again only if the first pass has read an object or a member, which decides whether a
      wanted name can be left behind: nothing is left exactly if there is an object, or an archive is called for when
      its turn comes, or none is called for by all the other inputs together. */
  lemma ClosedExactly(start: Table, inputs: seq<Input>, first: seq<Load>, archives: seq<Archive>, loads: seq<Load>,
                      t: Table)
    requires GroupRead(start, inputs, first, archives, loads, t)
    ensures AllClosed(archives, t)
       <==> HasObject(inputs)
            || (exists i :: 0 <= i < |inputs| && IsCalled(start, inputs, i, i))
            || (forall i :: 0 <= i < |inputs| ==> !IsCalled(start, inputs, i, |inputs|))
  {
    hide Justified, After, Consistent, IsWanted;
    if !HasObject(inputs) && !HasMember(first) {
      forall a | 0 <= a < |archives|
        ensures Closed(archives[a], t) <==> !IsCalled(start, inputs, archives[a].position, |inputs|)
      {
        TrackedMembers(archives[a], loads, t);
        NothingIncluded(archives[a], loads);
      }
      forall i | 0 <= i < |inputs| && IsCalled(start, inputs, i, |inputs|)
        ensures exists a :: 0 <= a < |archives| && archives[a].position == i && !Closed(archives[a], t)
      {
        var a :| 0 <= a < |archives| && archives[a].position == i;
      }
    }
  }

  lemma NothingIncluded(ar: Archive, loads: seq<Load>)
    requires !HasMember(loads) && forall off :: off in ar.included <==> Pulled(ar.position, off) in loads
    ensures ar.included == {}
  {}

  /** In an archive followed by a shared object that refers to one of its members, the reference stays undefined and
      the member is left out. */
  lemma SharedReferenceIsMissed(file: ArchiveFile, k: nat, g: GlobalSymbol, first: seq<Load>, archives: seq<Archive>,
                                loads: seq<Load>, t: Table)
    requires k < |file.armap| && file.armap[k].name == g.name && g.isDyn && g.desc == Undefined && g.binding == Global
    requires GroupRead(map[], [ArchiveInput(file), SharedInput([g])], first, archives, loads, t)
    ensures !AllClosed(archives, t)
  {
    hide GroupRead, IsCalled, HasObject, AllClosed;
    CalledForByShared(file, k, g);
    ClosedExactly(map[], [ArchiveInput(file), SharedInput([g])], first, archives, loads, t);
  }

  lemma CalledForByShared(file: ArchiveFile, k: nat, g: GlobalSymbol)
    requires k < |file.armap| && file.armap[k].name == g.name && g.isDyn && g.desc == Undefined && g.binding == Global
    ensures var inputs := [ArchiveInput(file), SharedInput([g])];
      && !HasObject(inputs) && !IsCalled(map[], inputs, 0, 0) && !IsCalled(map[], inputs, 1, 1)
      && |inputs| == 2 && IsCalled(map[], inputs, 0, 2)
  {
    hide After, Insert, InsertAll, OwnBefore;
    var inputs := [ArchiveInput(file), SharedInput([g])];
    OwnOfTwo(inputs);
    AfterOne(inputs, g);
    WantedAfter(g);
    assert !CallsFor(file, map[]);
    assert IsWanted(Insert(map[], g), file.armap[k].name);
    assert inputs[0] == ArchiveInput(file) && inputs[1].SharedInput?;
  }

  lemma OwnOfTwo(inputs: seq<Input>)
    requires |inputs| == 2 && inputs[0].ArchiveInput? && inputs[1].SharedInput?
    ensures OwnBefore(inputs, 0) == [] && OwnBefore(inputs, 1) == [] && OwnBefore(inputs, 2) == [Own(1)]
  {}

  lemma AfterOne(inputs: seq<Input>, g: GlobalSymbol)
    requires |inputs| == 2 && StaticResolvers.WellFormed(g.Attributes()) && inputs[1] == SharedInput([g])
    ensures After(map[], inputs, []) == map[] && After(map[], inputs, [Own(1)]) == Insert(map[], g)
  {
    hide Insert, InsertAll;
    assert [Own(1)][..0] == [];
    InsertAllOne(g);
  }

  lemma WantedAfter(g: GlobalSymbol)
    requires StaticResolvers.WellFormed(g.Attributes()) && g.desc == Undefined && g.binding == Global
    ensures IsWanted(Insert(map[], g), g.name)
  {
    InsertedNew(map[], g);
  }

  lemma InsertAllOne(g: GlobalSymbol)
    requires StaticResolvers.WellFormed(g.Attributes())
    ensures InsertAll(map[], [g]) == Insert(map[], g)
  {
    assert [g][..0] == [];
    assert InsertAll(map[], [g][..0]) == map[];
  }

  class GroupReader {
    const inputs: seq<Input>
    const pool: NamePool
    var loads: seq<Load>         // the objects and libraries of the module, in reading order
    var archives: seq<Archive>
    ghost const start: Table

    constructor (inputs: seq<Input>, pool: NamePool)
      requires ValidInputs(inputs) && pool.Valid()
      ensures Valid() && this.inputs == inputs && this.pool == pool && start == pool.contents
      ensures loads == [] && archives == []
    {
      this.inputs, this.pool := inputs, pool;
      loads, archives := [], [];
      start := pool.contents;
    }

    ghost predicate Valid()
      reads this, pool, pool.Repr
    {
      pool.Valid() && State(start, inputs, archives, loads, pool.contents)
    }

    /** What to do about a name of an archive's symbol map. */
    method ShouldIncludeSymbol(name: string) returns (status: Status)
      requires pool.Valid()
      ensures status == if IsWanted(pool.contents, name) then Include
                        else if IsDefined(pool.contents, name) then Exclude
                        else Unknown
      ensures status == Include <==>
        name in pool.contents && pool.contents[name].info.desc == Undefined && pool.contents[name].info.binding != Weak
      ensures status == Exclude <==> name in pool.contents && pool.contents[name].info.desc != Undefined
    {
      hide Unpack;
      if name in pool.infos {
        var info := pool.infos[name].View();
        if info.desc != Undefined {
          return Exclude;
        }
        if info.binding == Weak {
          return Unknown;
        }
        return Include;
      }
      return Unknown;
    }

    /** Include one member: record it, and read its symbols into the pool. */
    method IncludeMember(a: nat, off: nat)
      requires Valid() && a < |archives| && off in archives[a].file.members && off !in archives[a].included
      requires IsCalledFor(archives[a].file, off, pool.contents)
      modifies this`loads, this`archives, pool, pool.Repr
      ensures Valid() && fresh(pool.Repr - old(pool.Repr))
      ensures loads == old(loads) + [Pulled(old(archives)[a].position, off)]
      ensures archives == old(archives)[a := old(archives)[a].(included := old(archives)[a].included + {off})]
    {
      hide NamePool.Valid, State, StaticResolvers.WellFormed, Insert, InsertAll;
      ReadMember(start, inputs, archives, loads, pool.contents, a, off);
      var ar := archives[a];
      archives := archives[a := ar.(included := ar.included + {off})];
      loads := loads + [Pulled(ar.position, off)];
      pool.InsertSymbols(ar.file.members[off]);
    }

    method SetStatus(a: nat, k: nat, s: Status)
      requires Valid() && a < |archives| && k < |archives[a].status| == |archives[a].file.armap|
      requires archives[a].status[k] == Unknown && s != Unknown && Implied(archives[a], k, s, pool.contents)
      modifies this`archives
      ensures Valid()
      ensures archives == old(archives)[a := old(archives)[a].(status := old(archives)[a].status[k := s])]
      ensures Undecided(archives[a].status) < Undecided(old(archives)[a].status)
    {
      hide NamePool.Valid, State, StaticResolvers.WellFormed;
      Decide(start, inputs, archives, loads, pool.contents, a, k, s);
      archives := archives[a := archives[a].(status := archives[a].status[k := s])];
    }

    /** One entry of the symbol map: skip it if it is decided, otherwise decide it if possible. `pulled` says that its
        member has just been included. */
    method ExamineSymbol(a: nat, k: nat) returns (pulled: bool)
      requires Valid() && a < |archives| && k < |archives[a].status| == |archives[a].file.armap|
      modifies this`loads, this`archives, pool, pool.Repr
      ensures Valid() && fresh(pool.Repr - old(pool.Repr))
      ensures Progress(old(archives), old(loads), old(pool.contents), archives, loads, pool.contents, a)
      ensures |archives[a].status| == |old(archives)[a].status|
      ensures if pulled then Undecided(archives[a].status) < Undecided(old(archives)[a].status)
              else Undecided(archives[a].status) <= Undecided(old(archives)[a].status)
      ensures !pulled ==> archives[a].included == old(archives)[a].included
      ensures IsWanted(pool.contents, archives[a].file.armap[k].name) ==>
        archives[a].file.armap[k].offset in archives[a].included
    {
      hide NamePool.Valid, StaticResolvers.WellFormed, Insert, InsertAll, Justified, After, Tracked;
      ghost var before := archives;
      var ar := archives[a];
      TrackedMembers(ar, loads, pool.contents);
      pulled := false;
      if ar.status[k] != Unknown {
        return;
      }
      if ar.file.armap[k].offset in ar.included {
        SetStatus(a, k, Include);
        return;
      }
      var status := ShouldIncludeSymbol(ar.file.armap[k].name);
      if status == Exclude {
        SetStatus(a, k, Exclude);
      } else if status == Include {
        IncludeMember(a, ar.file.armap[k].offset);
        SetStatus(a, k, Include);
        pulled := true;
      }
    }

    /** Read an archive: go over its symbol map until a whole pass includes nothing. */
    method ReadArchive(a: nat)
      requires Valid() && a < |archives|
      modifies this`loads, this`archives, pool, pool.Repr
      ensures Valid() && fresh(pool.Repr - old(pool.Repr))
      ensures Progress(old(archives), old(loads), old(pool.contents), archives, loads, pool.contents, a)
      ensures Closed(archives[a], pool.contents)
    {
      hide NamePool.Valid, StaticResolvers.WellFormed, Insert, InsertAll, Justified, After, Tracked, ContinuedFrom,
        IsWanted;
      ghost var archives0, loads0, table0 := archives, loads, pool.contents;
      TrackedMembers(archives[a], loads, pool.contents);
      assert ContinuedFrom(loads, loads, archives[a].position) by { ContinuedFromSelf(loads, archives[a].position); }
      hide State;
      var willSymResolved := true;
      while willSymResolved
        invariant Valid() && fresh(pool.Repr - old(pool.Repr))
        invariant Progress(archives0, loads0, table0, archives, loads, pool.contents, a)
        invariant |archives[a].status| == |archives[a].file.armap|
        invariant !willSymResolved ==> Closed(archives[a], pool.contents)
        decreases Undecided(archives[a].status), willSymResolved
      {
        willSymResolved := false;
        ghost var undecided := Undecided(archives[a].status);
        for k := 0 to |archives[a].status|
          invariant Valid() && fresh(pool.Repr - old(pool.Repr))
          invariant Progress(archives0, loads0, table0, archives, loads, pool.contents, a)
          invariant |archives[a].status| == |archives[a].file.armap| == |archives0[a].file.armap|
          invariant if willSymResolved then Undecided(archives[a].status) < undecided
                    else Undecided(archives[a].status) <= undecided
          invariant !willSymResolved ==> ClosedUpTo(archives[a], k, pool.contents)
        {
          ghost var archives1, loads1, table1 := archives, loads, pool.contents;
          var pulled := ExamineSymbol(a, k);
          ProgressTransitive(archives0, loads0, table0, archives1, loads1, table1, archives, loads, pool.contents, a);
          willSymResolved := willSymResolved || pulled;
        }
      }
    }

    /** Read an object or a library of the group itself. */
    method ReadOwn(i: nat, symbols: Symbols)
      requires Valid() && ValidLoad(inputs, Own(i)) && symbols == inputs[i].symbols && Own(i) !in loads
      modifies this`loads, pool, pool.Repr
      ensures Valid() && fresh(pool.Repr - old(pool.Repr)) && loads == old(loads) + [Own(i)]
    {
      hide NamePool.Valid, State, StaticResolvers.WellFormed, Insert, InsertAll;
      ReadInput(start, inputs, archives, loads, pool.contents, i);
      loads := loads + [Own(i)];
      pool.InsertSymbols(symbols);
    }

    method AddArchive(i: nat)
      requires Valid() && i < |inputs| && inputs[i].ArchiveInput?
      requires (forall a :: 0 <= a < |archives| ==> archives[a].position != i) && forall off :: Pulled(i, off) !in loads
      modifies this`archives
      ensures Valid() && |archives| == |old(archives)| + 1 && archives[..|old(archives)|] == old(archives)
      ensures archives[|old(archives)|].position == i && archives[|old(archives)|].file == inputs[i].file
      ensures archives[|old(archives)|].included == {}
    {
      hide NamePool.Valid, StaticResolvers.WellFormed, Insert, InsertAll, Justified, After;
      var file := inputs[i].file;
      archives := archives + [Archive(i, file, seq(|file.armap|, k => Unknown), {})];
    }

    /** One more reading of every archive. `count` is the number of objects and members read by now. */
    method ReadArchivesAgain(nonArchive: nat) returns (count: nat)
      requires Valid()
      modifies this`loads, this`archives, pool, pool.Repr
      ensures Valid() && fresh(pool.Repr - old(pool.Repr))
      ensures Grown(old(archives), archives) && count == nonArchive + TotalSize(archives)
      ensures old(loads) <= loads
      ensures SameMembers(old(archives), archives) ==> AllClosed(archives, pool.contents)
    {
      hide NamePool.Valid, State, StaticResolvers.WellFormed, Insert, InsertAll, ContinuedFrom, GrownOne;
      ghost var archives0, loads0, table0 := archives, loads, pool.contents;
      count := nonArchive;
      assert Grown(archives, archives) by { GrownSelf(archives); }
      for a := 0 to |archives|
        invariant Valid() && fresh(pool.Repr - old(pool.Repr)) && |archives| == |archives0|
        invariant Grown(archives0, archives) && count == nonArchive + TotalSize(archives[..a]) && loads0 <= loads
        invariant SameMembers(archives0, archives) ==> pool.contents == table0 && AllClosed(archives[..a], table0)
      {
        ghost var archives1, loads1 := archives, loads;
        ReadArchive(a);
        ContinuedIsPrefix(loads1, loads, archives1[a].position);
        TotalSizeStep(archives1, archives, a);
        GrownTransitive(archives0, archives1, archives);
        count := count + |archives[a].included|;
        assert archives[..a] == archives1[..a];
        assert archives[..a + 1] == archives[..a] + [archives[a]];
      }
      assert archives[..|archives|] == archives;
    }

    /** An archive of the group, when the first pass comes to it. */
    method ReadNewArchive(i: nat) returns (members: nat)
      requires Valid() && i < |inputs| && inputs[i].ArchiveInput? && ReadUpTo(inputs, archives, loads, i)
      modifies this`loads, this`archives, pool, pool.Repr
      ensures Valid() && fresh(pool.Repr - old(pool.Repr))
      ensures ReadUpTo(inputs, archives, loads, i + 1) && TotalSize(archives) == TotalSize(old(archives)) + members
      ensures HasMember(loads) <==> HasMember(old(loads)) || CallsFor(inputs[i].file, old(pool.contents))
      ensures !HasMember(loads) ==> loads == old(loads)
    {
      hide NamePool.Valid, State, StaticResolvers.WellFormed, Insert, InsertAll, GrownOne, ContinuedFrom, ReadUpTo;
      hide HasMember, CallsFor, Closed;
      ghost var archives0, loads0, table0 := archives, loads, pool.contents;
      NotReadYet(inputs, archives, loads, i);
      AddArchive(i);
      ghost var archives1 := archives;
      ReadArchive(|archives| - 1);
      TotalSizeStep(archives1, archives, |archives| - 1);
      assert archives[..|archives|] == archives && archives1[..|archives| - 1] == archives0;
      OnlyGrewPrefix(archives1, archives);
      ReadUpToArchive(inputs, archives0, loads0, i, archives, loads);
      NewArchiveMembers(start, inputs, archives1, loads0, table0, archives, loads, pool.contents, |archives| - 1);
      members := |archives[|archives| - 1].included|;
    }

    /** One input of the first pass. `members` and `objects` are what it adds to the counts. */
    method ReadOneInput(i: nat) returns (members: nat, objects: nat)
      requires Valid() && i < |inputs| && ReadUpTo(inputs, archives, loads, i) && FirstPass(start, inputs, loads, i)
      modifies this`loads, this`archives, pool, pool.Repr
      ensures Valid() && fresh(pool.Repr - old(pool.Repr))
      ensures ReadUpTo(inputs, archives, loads, i + 1) && FirstPass(start, inputs, loads, i + 1)
      ensures TotalSize(archives) == TotalSize(old(archives)) + members
      ensures objects == if inputs[i].ObjectInput? then 1 else 0
    {
      hide NamePool.Valid, State, StaticResolvers.WellFormed, Insert, InsertAll, ReadUpTo, FirstPass, HasMember,
        CallsFor, After;
      NotReadYet(inputs, archives, loads, i);
      ReadUpToNext(inputs, archives, loads, i);
      StateLoads(start, inputs, archives, loads, pool.contents);
      members, objects := 0, 0;
      if !inputs[i].ArchiveInput? {
        FirstPassOwn(start, inputs, loads, i);
      }
      match inputs[i]
      case ArchiveInput(_) =>
        ghost var loads0 := loads;
        members := ReadNewArchive(i);
        FirstPassArchive(start, inputs, loads0, i, loads);
      case BinaryInput(symbols) =>
        ReadOwn(i, symbols);
      case ObjectInput(symbols) =>
        ReadOwn(i, symbols);
        objects := 1;
      case SharedInput(symbols) =>
        ReadOwn(i, symbols);
      case Unrecognized =>
    }

    /** The first pass over the group. `nonArchive` counts the relocatable objects. */
    method ReadInputs() returns (count: nat, nonArchive: nat)
      requires Valid() && loads == [] && archives == []
      modifies this`loads, this`archives, pool, pool.Repr
      ensures Valid() && fresh(pool.Repr - old(pool.Repr))
      ensures ReadUpTo(inputs, archives, loads, |inputs|)
      ensures FirstPass(start, inputs, loads, |inputs|)
      ensures count == nonArchive + TotalSize(archives) && (nonArchive > 0 <==> HasObject(inputs))
    {
      hide *;
      NothingRead(start, inputs);
      count, nonArchive := 0, 0;
      for i := 0 to |inputs|
        invariant Valid() && fresh(pool.Repr - old(pool.Repr))
        invariant ReadUpTo(inputs, archives, loads, i) && FirstPass(start, inputs, loads, i)
        invariant count == nonArchive + TotalSize(archives)
        invariant nonArchive > 0 <==> exists j :: 0 <= j < i && inputs[j].ObjectInput?
      {
        var members, objects := ReadOneInput(i);
        count, nonArchive := count + members + objects, nonArchive + objects;
      }
    }

    /** Read the archives again until a round includes nothing. */
    method ReadUntilStable(firstCount: nat, nonArchive: nat)
      requires Valid() && firstCount == nonArchive + TotalSize(archives)
      modifies this`loads, this`archives, pool, pool.Repr
      ensures Valid() && fresh(pool.Repr - old(pool.Repr))
      ensures old(loads) <= loads && Grown(old(archives), archives)
      ensures if firstCount > 0 then AllClosed(archives, pool.contents)
              else loads == old(loads)
    {
      hide NamePool.Valid, State, StaticResolvers.WellFormed, Insert, InsertAll, Closed, GrownOne;
      var count, last := firstCount, 0;
      ghost var loads0, archives0, capacity := loads, archives, Capacity(archives);
      GrownSelf(archives);
      StateWithinCapacity(start, inputs, archives, loads, pool.contents);
      while count != last
        invariant Valid() && fresh(pool.Repr - old(pool.Repr))
        invariant Grown(archives0, archives) && loads0 <= loads && Capacity(archives) == capacity
        invariant last <= count == nonArchive + TotalSize(archives) <= nonArchive + capacity
        invariant if last == 0 then loads == loads0 && archives == archives0
                  else last == count ==> AllClosed(archives, pool.contents)
        invariant last > 0 ==> firstCount > 0
        decreases nonArchive + capacity - last
      {
        ghost var archives1 := archives;
        last := count;
        count := ReadArchivesAgain(nonArchive);
        GrownTotal(archives1, archives);
        GrownTransitive(archives0, archives1, archives);
        SameCapacity(archives1, archives);
        StateWithinCapacity(start, inputs, archives, loads, pool.contents);
      }
    }

    /** Read the group: every input once, and then the archives again and again. `first` is what the first pass reads.
        */
    method ReadGroup() returns (ghost first: seq<Load>)
      requires Valid() && loads == [] && archives == []
      modifies this`loads, this`archives, pool, pool.Repr
      ensures Valid() && fresh(pool.Repr - old(pool.Repr))
      ensures GroupRead(start, inputs, first, archives, loads, pool.contents)
    {
      hide NamePool.Valid, State, StaticResolvers.WellFormed, Insert, InsertAll, Closed, GrownOne;
      var count, nonArchive := ReadInputs();
      first := loads;
      ghost var archives0 := archives;
      CountTellsMembers(start, inputs, archives, loads, pool.contents);
      ReadUntilStable(count, nonArchive);
      assert forall i :: 0 <= i < |first| ==> first[i] == loads[i];
      forall i | 0 <= i < |inputs| && inputs[i].ArchiveInput?
        ensures exists a :: 0 <= a < |archives| && archives[a].position == i
      {
        var a :| 0 <= a < |archives0| && archives0[a].position == i;
        GrownAt(archives0, archives, a);
      }
    }
  }
}
