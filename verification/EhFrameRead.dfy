/** Reading an exception frame section record by record, and the round trip: what the writer emits for a merged frame
    reads back as the same records, each entry under its own CIE. */
module EhFrameRead {
  import opened Options
  import opened EhFrames
  import opened EhFrameMerge
  import opened EhFrameEmit

  /** What reading a record yields. `cie` is the file offset of the CIE the entry was found to point to. */
  datatype Entry = CieEntry(offset: int) | FdeEntry(offset: int, cie: int)

  /** The states of the reader's automaton that have outgoing edges. */
  datatype State = Q0 | Q1

  /** The record of `size` bytes at `at`, or nothing if it is not acceptable there. `base` is the file offset of the
      section, `cies` the offsets of the CIEs found so far, and `parse` says whether a CIE's contents can be made
      sense of. */
  function EntryAt(b: seq<Byte>, base: int, at: nat, size: nat, cies: set<int>, parse: seq<Byte> -> bool): Option<Entry>
    requires at + 8 <= |b| && at + size <= |b|
  {
    if Word(b, at + 4) == 0 then
      if parse(b[at..at + size]) then Some(CieEntry(base + at)) else None
    else
      var cie := CieOffset(base + at + 4, Word(b, at + 4));
      if size == 8 || cie !in cies then None else Some(FdeEntry(base + at, cie))
  }

  function Found(cies: set<int>, e: Entry): set<int> {
    if e.CieEntry? then cies + {e.offset} else cies
  }

  /** The size of the record at `at`, or nothing if it does not fit. A length that does not even cover the id is not
      refused, as long as the id is inside the section. */
  function SizeAt(b: seq<Byte>, at: nat): (r: Option<nat>)
    requires at + 4 <= |b|
    ensures r.Some? ==> r.value >= 4 && at + r.value <= |b| && at + 8 <= |b|
  {
    var size := Word(b, at) + 4;
    if at + 8 > |b| || at + size > |b| || Word(b, at) == 0xFFFF_FFFF then None else Some(size)
  }

  /** Read the records from `at` on. */
  function ReadFrom(b: seq<Byte>, base: int, at: nat, state: State, cies: set<int>,
                    parse: seq<Byte> -> bool): Option<seq<Entry>>
    requires at <= |b|
    decreases |b| - at
  {
    if at + 4 > |b| then None
    else if Word(b, at) == 0 then Some([])
    else if SizeAt(b, at).None? then None
    else
      var size := SizeAt(b, at).value;
      if state == Q0 && Word(b, at + 4) != 0 then
        if at + size == |b| then Some([]) else None
      else
        var e := EntryAt(b, base, at, size, cies, parse);
        if e.None? then None
        else if at + size == |b| then Some([e.value])
        else
          var rest := ReadFrom(b, base, at + size, Q1, Found(cies, e.value), parse);
          Prefixed([e.value], rest)
  }

  function Prefixed(found: seq<Entry>, rest: Option<seq<Entry>>): Option<seq<Entry>> {
    if rest.None? then None else Some(found + rest.value)
  }

  lemma PrefixedOnce(found: seq<Entry>, e: Entry, rest: Option<seq<Entry>>)
    ensures Prefixed(found, Prefixed([e], rest)) == Prefixed(found + [e], rest)
    ensures Prefixed(found, Some([])) == Some(found) && Prefixed(found, None) == None
    ensures Prefixed(found, Some([e])) == Some(found + [e])
    ensures Prefixed([], rest) == rest
  {
    assert found + [] == found;
    assert rest.Some? ==> found + ([e] + rest.value) == found + [e] + rest.value && [] + rest.value == rest.value;
  }

  /** The reader's loop. */
  method Read(b: seq<Byte>, base: int, parse: seq<Byte> -> bool) returns (entries: Option<seq<Entry>>)
    ensures entries == if |b| == 0 then Some([]) else ReadFrom(b, base, 0, Q0, {}, parse)
  {
    if |b| == 0 {
      return Some([]);
    }
    hide Word, EntryAt, SizeAt, Prefixed;
    var at, state, cies: set<int> := 0, Q0, {};
    var found: seq<Entry> := [];
    PrefixedOnce([], CieEntry(0), ReadFrom(b, base, 0, Q0, {}, parse));
    while true
      invariant at <= |b|
      invariant ReadFrom(b, base, 0, Q0, {}, parse) == Prefixed(found, ReadFrom(b, base, at, state, cies, parse))
      decreases |b| - at
    {
      PrefixedOnce(found, CieEntry(0), None);
      if at + 4 > |b| {
        return None;
      }
      if Word(b, at) == 0 {
        return Some(found);
      }
      var size := SizeAt(b, at);
      if size.None? {
        return None;
      }
      var last := at + size.value == |b|;
      if state == Q0 && Word(b, at + 4) != 0 {
        return if last then Some(found) else None;
      }
      var e := EntryAt(b, base, at, size.value, cies, parse);
      if e.None? {
        return None;
      }
      PrefixedOnce(found, e.value, Some([]));
      PrefixedOnce(found, e.value, ReadFrom(b, base, at + size.value, Q1, Found(cies, e.value), parse));
      found := found + [e.value];
      if last {
        return Some(found);
      }
      at, state, cies := at + size.value, Q1, Found(cies, e.value);
    }
  }

  // ----- the round trip -----

  ghost predicate IsCie(f: Frame, p: nat, k: nat) {
    p < |f.fragments| && k < |f.cies| && f.cies[k].fragment == f.fragments[p]
  }

  /** Every fragment is a record with its length in front; a CIE has id 0 and can be parsed, an FDE has room for more
      than its pointer. */
  ghost predicate ValidRecords(f: Frame, parse: seq<Byte> -> bool) {
    && (forall p: nat :: p < |f.fragments| ==>
          && |f.fragments[p].bytes| >= 8 && Word(f.fragments[p].bytes, 0) == |f.fragments[p].bytes| - 4
          && ((exists k: nat :: IsCie(f, p, k)) || exists k: nat, j: nat :: FdeAt(f, p, k, j)))
    && (forall p: nat, k: nat :: IsCie(f, p, k) ==> Word(f.fragments[p].bytes, 4) == 0 && parse(f.fragments[p].bytes))
    && (forall p: nat, k: nat, j: nat :: FdeAt(f, p, k, j) ==> |f.fragments[p].bytes| > 8)
  }

  /** What the record at `p` should read back as. */
  ghost predicate ReadsAs(f: Frame, base: int, p: nat, e: Entry)
    requires p < |f.fragments|
  {
    && (forall k: nat :: IsCie(f, p, k) ==> e == CieEntry(base + OffsetOf(f.fragments, p)))
    && (forall k: nat, j: nat :: FdeAt(f, p, k, j) ==>
      e == FdeEntry(base + OffsetOf(f.fragments, p), base + CieStart(f, k)))
  }

  /** The offsets of the CIEs before `p`. */
  ghost predicate CiesBefore(f: Frame, base: int, p: nat, cies: set<int>) {
    forall q: nat, k: nat :: q < p && IsCie(f, q, k) ==> base + OffsetOf(f.fragments, q) in cies
  }

  /** What is asked of a merged frame for it to read back. */
  ghost predicate Readable(f: Frame, cur: seq<Fragment>, parse: seq<Byte> -> bool) {
    && WellBuilt(f) && RoomForPointers(f) && ValidRecords(f, parse)
    && PatchedUpTo(f, cur, |f.cies|, 0) && |Flatten(cur)| < TWO_31
  }

  lemma NotBoth(f: Frame, p: nat, k: nat)
    requires WellBuilt(f) && IsCie(f, p, k)
    ensures forall k': nat, j': nat :: !FdeAt(f, p, k', j')
  {
    forall k': nat, j': nat ensures !FdeAt(f, p, k', j') {
      if k' < |f.cies| {
        assert CieApart(f.cies[k], f.cies[k']);
      }
    }
  }

  /** Where the record at `p` stands in the emitted bytes, and what its first word is. */
  lemma RecordStands(f: Frame, cur: seq<Fragment>, parse: seq<Byte> -> bool, p: nat)
    requires Readable(f, cur, parse) && p < |f.fragments|
    ensures |cur| == |f.fragments| && |cur[p].bytes| == |f.fragments[p].bytes| >= 8
    ensures var b, at, size := Flatten(cur), OffsetOf(f.fragments, p), |f.fragments[p].bytes|;
      && at == OffsetOf(cur, p) && at + size <= |b|
      && Word(b, at) == size - 4 && SizeAt(b, at) == Some(size) && b[at..at + size] == cur[p].bytes
      && Word(b, at + 4) == Word(cur[p].bytes, 4)
  {
    hide WellBuilt, Flatten, OffsetOf, PatchedUpTo, FdeAt, IsCie, Word;
    SameLayout(f, cur, p);
    SizesKept(f, cur, |f.cies|, 0, p);
    RecordAt(cur, p);
    RecordWord(cur, p, 0);
    RecordWord(cur, p, 4);
    FirstWordKept(f, cur, p);
  }

  lemma UntouchedThere(f: Frame, cur: seq<Fragment>, p: nat)
    requires RoomForPointers(f) && PatchedUpTo(f, cur, |f.cies|, 0) && p < |f.fragments|
    ensures |cur| == |f.fragments|
    ensures (forall k: nat, j: nat :: !FdeAt(f, p, k, j)) ==> cur[p] == f.fragments[p]
  {}

  lemma FirstWordKept(f: Frame, cur: seq<Fragment>, p: nat)
    requires RoomForPointers(f) && PatchedUpTo(f, cur, |f.cies|, 0) && p < |f.fragments| && |f.fragments[p].bytes| >= 8
    ensures |cur| == |f.fragments| && |cur[p].bytes| == |f.fragments[p].bytes|
      && Word(cur[p].bytes, 0) == Word(f.fragments[p].bytes, 0)
  {
    hide Word, Encode, CiePointer, PatchedUpTo, WithPointer, OffsetOf, Position, RoomForPointers;
    UntouchedThere(f, cur, p);
    SizesKept(f, cur, |f.cies|, 0, p);
    if k: nat, j: nat :| FdeAt(f, p, k, j) {
      PatchedThere(f, cur, k, j, p);
      PointerWord(f.fragments[p], CiePointer(OffsetOf(f.fragments, p) + 4, CieStart(f, k)));
    }
  }

  lemma CieReads(f: Frame, cur: seq<Fragment>, base: int, parse: seq<Byte> -> bool, p: nat, k: nat, cies: set<int>)
    requires Readable(f, cur, parse) && IsCie(f, p, k)
    ensures var b, at, size := Flatten(cur), OffsetOf(f.fragments, p), |f.fragments[p].bytes|;
      && size >= 8 && at + size <= |b| && Word(b, at + 4) == 0
      && EntryAt(b, base, at, size, cies, parse) == Some(CieEntry(base + at))
      && ReadsAs(f, base, p, CieEntry(base + at))
  {
    hide WellBuilt, Flatten, OffsetOf, Word, Position, Repaired, SizeAt;
    RecordStands(f, cur, parse, p);
    NotBoth(f, p, k);
    assert cur[p] == f.fragments[p];
  }

  lemma FdeReads(f: Frame, cur: seq<Fragment>, base: int, parse: seq<Byte> -> bool, p: nat, k: nat, j: nat,
                 cies: set<int>)
    requires Readable(f, cur, parse) && FdeAt(f, p, k, j) && CiesBefore(f, base, p, cies)
    ensures p > 0
    ensures var b, at, size := Flatten(cur), OffsetOf(f.fragments, p), |f.fragments[p].bytes|;
      && size >= 8 && at + size <= |b| && Word(b, at + 4) != 0
      && EntryAt(b, base, at, size, cies, parse) == Some(FdeEntry(base + at, base + CieStart(f, k)))
      && ReadsAs(f, base, p, FdeEntry(base + at, base + CieStart(f, k)))
  {
    hide WellBuilt, Flatten, OffsetOf, PatchedUpTo, Word, Position;
    RecordStands(f, cur, parse, p);
    EmittedPointersDecode(f, cur, k, j, p);
    var p', q := WhereIs(f, k, j);
    SamePlace(f, p, p', k, j, k, j);
    OffsetsIncrease(f.fragments, q, p);
    assert IsCie(f, q, k);
    forall k': nat ensures !IsCie(f, p, k') {
      if IsCie(f, p, k') {
        NotBoth(f, p, k');
      }
    }
    forall k': nat, j': nat | FdeAt(f, p, k', j') ensures k' == k {
      SamePlace(f, p, p, k, j, k', j');
    }
  }

  lemma OneRecordReads(f: Frame, cur: seq<Fragment>, base: int, parse: seq<Byte> -> bool, p: nat,
                       cies: set<int>) returns (e: Entry)
    requires Readable(f, cur, parse) && p < |f.fragments| && CiesBefore(f, base, p, cies)
    ensures var b, at, size := Flatten(cur), OffsetOf(f.fragments, p), |f.fragments[p].bytes|;
      && size >= 8 && at + size <= |b|
      && EntryAt(b, base, at, size, cies, parse) == Some(e) && ReadsAs(f, base, p, e)
      && (p == 0 ==> Word(b, at + 4) == 0)
    ensures CiesBefore(f, base, p + 1, Found(cies, e))
  {
    hide WellBuilt, Flatten, PatchedUpTo, Word, EntryAt, RoomForPointers, IsCie, OffsetOf;
    if k: nat :| IsCie(f, p, k) {
      CieReads(f, cur, base, parse, p, k, cies);
      e := CieEntry(base + OffsetOf(f.fragments, p));
    } else {
      var k: nat, j: nat :| FdeAt(f, p, k, j);
      FdeReads(f, cur, base, parse, p, k, j, cies);
      e := FdeEntry(base + OffsetOf(f.fragments, p), base + CieStart(f, k));
    }
  }

  /** The emitted bytes of a merged frame read back record by record: every CIE at its offset, and every FDE at its
      offset under the CIE it was merged to. */
  lemma {:induction false} EmittedFrameReadsBack(f: Frame, cur: seq<Fragment>, base: int, parse: seq<Byte> -> bool,
                                                 p: nat, cies: set<int>)
    requires Readable(f, cur, parse) && p < |f.fragments| && CiesBefore(f, base, p, cies)
    ensures OffsetOf(f.fragments, p) <= |Flatten(cur)|
    ensures var r := ReadFrom(Flatten(cur), base, OffsetOf(f.fragments, p), if p == 0 then Q0 else Q1, cies, parse);
      && r.Some? && |r.value| == |f.fragments| - p
      && forall i :: 0 <= i < |r.value| ==> ReadsAs(f, base, p + i, r.value[i])
    decreases |f.fragments| - p
  {
    hide Readable, Flatten, Word, EntryAt, ReadsAs, SizeAt, CiesBefore;
    var b, at, size := Flatten(cur), OffsetOf(f.fragments, p), |f.fragments[p].bytes|;
    RecordStands(f, cur, parse, p);
    WholeLength(f, cur, parse);
    var e := OneRecordReads(f, cur, base, parse, p, cies);
    if p + 1 < |f.fragments| {
      OffsetsIncrease(f.fragments, p + 1, |f.fragments|);
      RecordStands(f, cur, parse, p + 1);
      EmittedFrameReadsBack(f, cur, base, parse, p + 1, Found(cies, e));
      var rest := ReadFrom(b, base, at + size, Q1, Found(cies, e), parse);
      forall i | 0 <= i < 1 + |rest.value| ensures ReadsAs(f, base, p + i, ([e] + rest.value)[i]) {
        assert i > 0 ==> ReadsAs(f, base, p + 1 + (i - 1), rest.value[i - 1]);
      }
    }
  }

  lemma WholeLength(f: Frame, cur: seq<Fragment>, parse: seq<Byte> -> bool)
    requires Readable(f, cur, parse)
    ensures |Flatten(cur)| == OffsetOf(f.fragments, |f.fragments|)
  {
    hide WellBuilt, PatchedUpTo;
    SameLayout(f, cur, |f.fragments|);
  }

  // ----- what is accepted -----

  /** The bytes at `at` are a record that fits the section: a CIE of id 0 that can be parsed, or an FDE with more than
      its pointer, which is the signed distance back to its CIE. */
  ghost predicate IsRecord(b: seq<Byte>, base: int, at: nat, e: Entry, parse: seq<Byte> -> bool) {
    && at + 8 <= |b| && at + 4 + Word(b, at) <= |b| && Word(b, at) != 0 && Word(b, at) != 0xFFFF_FFFF
    && e.offset == base + at
    && match e
      case CieEntry(_) => Word(b, at + 4) == 0 && parse(b[at..at + 4 + Word(b, at)])
      case FdeEntry(_, cie) =>
        && Word(b, at + 4) != 0 && Word(b, at) != 4
        && -TWO_31 <= base + at + 4 - cie < TWO_31 && (base + at + 4 - cie) % TWO_32 == Word(b, at + 4)
  }

  /** An FDE's CIE is among those found before. */
  ghost predicate FindsCie(entries: seq<Entry>, i: nat, cies: set<int>)
    requires i < |entries|
  {
    entries[i].FdeEntry? ==> entries[i].cie in cies || CieEntry(entries[i].cie) in entries[..i]
  }

  /** The entries are the records one behind another from `at` on, up to the end of the section or to a length of 0. */
  ghost predicate IsReading(b: seq<Byte>, base: int, at: nat, cies: set<int>, parse: seq<Byte> -> bool,
                            places: seq<nat>, entries: seq<Entry>) {
    && |places| == |entries| + 1 && places[0] == at
    && (forall i :: 0 <= i < |entries| ==> ReadsOn(b, base, cies, parse, places, entries, i))
    && EndsAt(b, places[|entries|], |entries|)
  }

  ghost predicate ReadsOn(b: seq<Byte>, base: int, cies: set<int>, parse: seq<Byte> -> bool,
                          places: seq<nat>, entries: seq<Entry>, i: nat)
    requires i < |entries| && |places| == |entries| + 1
  {
    && IsRecord(b, base, places[i], entries[i], parse) && FindsCie(entries, i, cies)
    && places[i + 1] == places[i] + 4 + Word(b, places[i])
  }

  ghost predicate EndsAt(b: seq<Byte>, end: nat, n: nat) {
    (n > 0 && end == |b|) || (end + 4 <= |b| && Word(b, end) == 0)
  }

  lemma RecordExactly(b: seq<Byte>, base: int, at: nat, cies: set<int>, parse: seq<Byte> -> bool, e: Entry)
    ensures IsRecord(b, base, at, e, parse) && (e.FdeEntry? ==> e.cie in cies)
       <==> at + 4 <= |b| && Word(b, at) != 0 && SizeAt(b, at).Some?
            && EntryAt(b, base, at, SizeAt(b, at).value, cies, parse) == Some(e)
  {
    hide Word;
    if at + 8 <= |b| {
      WordFits(b, at + 4);
      SignedExactly(Word(b, at + 4), base + at + 4 - (if e.FdeEntry? then e.cie else 0));
    }
  }

  lemma WordFits(b: seq<Byte>, at: nat)
    requires at + 4 <= |b|
    ensures Word(b, at) < TWO_32
  {}

  lemma SignedExactly(word: nat, distance: int)
    requires word < TWO_32
    ensures ToInt32(word) == distance <==> -TWO_31 <= distance < TWO_31 && distance % TWO_32 == word
  {}

  /** The rest of a reading is a reading that knows the CIE just found. */
  lemma RestReads(b: seq<Byte>, base: int, at: nat, cies: set<int>, parse: seq<Byte> -> bool,
                  places: seq<nat>, entries: seq<Entry>)
    requires |entries| > 0 && |places| == |entries| + 1 && places[0] == at && IsRecord(b, base, at, entries[0], parse)
    requires places[1] == at + 4 + Word(b, at) && (entries[0].FdeEntry? ==> entries[0].cie in cies)
    requires |entries| > 1 || places[1] < |b|
    ensures IsReading(b, base, at, cies, parse, places, entries)
       <==> IsReading(b, base, places[1], Found(cies, entries[0]), parse, places[1..], entries[1..])
  {
    hide Word, IsRecord, FindsCie;
    var more, ps, es := Found(cies, entries[0]), places[1..], entries[1..];
    assert FindsCie(entries, 0, cies) by { hide *; FirstFinds(entries, cies); }
    forall i | 0 < i < |entries|
      ensures ReadsOn(b, base, cies, parse, places, entries, i) <==> ReadsOn(b, base, more, parse, ps, es, i - 1)
    {
      NextFinds(entries, cies, i);
    }
    assert ReadsOn(b, base, cies, parse, places, entries, 0);
    if IsReading(b, base, at, cies, parse, places, entries) {
      forall i | 0 <= i < |es| ensures ReadsOn(b, base, more, parse, ps, es, i) {
        assert ReadsOn(b, base, cies, parse, places, entries, i + 1);
      }
    } else if IsReading(b, base, places[1], more, parse, ps, es) {
      forall i | 0 <= i < |entries| ensures ReadsOn(b, base, cies, parse, places, entries, i) {
        assert i > 0 ==> ReadsOn(b, base, more, parse, ps, es, i - 1);
      }
    }
  }

  lemma FirstFinds(entries: seq<Entry>, cies: set<int>)
    requires |entries| > 0 && (entries[0].FdeEntry? ==> entries[0].cie in cies)
    ensures FindsCie(entries, 0, cies)
  {}

  lemma NextFinds(entries: seq<Entry>, cies: set<int>, i: nat)
    requires 0 < i < |entries|
    ensures FindsCie(entries, i, cies) <==> FindsCie(entries[1..], i - 1, Found(cies, entries[0]))
  {
    assert entries[..i] == [entries[0]] + entries[1..][..i - 1];
  }

  /** A record is read, and then what is behind it, unless the section ends there. */
  lemma ReadNext(b: seq<Byte>, base: int, at: nat, cies: set<int>, parse: seq<Byte> -> bool, e: Entry)
    requires at + 4 <= |b| && IsRecord(b, base, at, e, parse) && (e.FdeEntry? ==> e.cie in cies)
    ensures ReadFrom(b, base, at, Q1, cies, parse)
         == if at + 4 + Word(b, at) == |b| then Some([e])
            else Prefixed([e], ReadFrom(b, base, at + 4 + Word(b, at), Q1, Found(cies, e), parse))
  {
    hide EntryAt, Prefixed, IsRecord, Word;
    RecordExactly(b, base, at, cies, parse, e);
  }

  /** Only a record is read, or nothing at all where the section ends. */
  lemma NothingElse(b: seq<Byte>, base: int, at: nat, cies: set<int>, parse: seq<Byte> -> bool)
    requires at <= |b| && ReadFrom(b, base, at, Q1, cies, parse).Some?
    ensures var es := ReadFrom(b, base, at, Q1, cies, parse).value;
      && (es == [] ==> EndsAt(b, at, 0))
      && (es != [] ==> IsRecord(b, base, at, es[0], parse) && (es[0].FdeEntry? ==> es[0].cie in cies))
  {
    hide EntryAt, IsRecord, Word;
    var es := ReadFrom(b, base, at, Q1, cies, parse).value;
    if es != [] {
      RecordExactly(b, base, at, cies, parse, es[0]);
    }
  }

  lemma {:induction false} ReadsToEnd(b: seq<Byte>, base: int, at: nat, cies: set<int>, parse: seq<Byte> -> bool)
    returns (places: seq<nat>)
    requires at <= |b| && ReadFrom(b, base, at, Q1, cies, parse).Some?
    ensures IsReading(b, base, at, cies, parse, places, ReadFrom(b, base, at, Q1, cies, parse).value)
    decreases |b| - at
  {
    hide ReadFrom, IsRecord, Word, IsReading, EndsAt;
    var es := ReadFrom(b, base, at, Q1, cies, parse).value;
    NothingElse(b, base, at, cies, parse);
    if es == [] {
      places := [at];
      NothingRead(b, base, at, cies, parse);
    } else {
      var next, more := NextPlace(b, base, at, es[0], parse), Found(cies, es[0]);
      ReadNext(b, base, at, cies, parse, es[0]);
      if next == |b| {
        places := [at, next];
        LastReads(b, base, at, cies, parse, es[0]);
      } else {
        var rest := ReadsToEnd(b, base, next, more, parse);
        places := [at] + rest;
        ReadingStarts(b, base, next, more, parse, rest, ReadFrom(b, base, next, Q1, more, parse).value);
        assert places[1..] == rest && es[1..] == ReadFrom(b, base, next, Q1, more, parse).value;
        RestReads(b, base, at, cies, parse, places, es);
      }
    }
  }

  function NextPlace(b: seq<Byte>, base: int, at: nat, e: Entry, parse: seq<Byte> -> bool): (next: nat)
    requires IsRecord(b, base, at, e, parse)
    ensures at < next <= |b| && at + 4 <= |b| && next == at + 4 + Word(b, at)
  {
    at + 4 + Word(b, at)
  }

  lemma ReadingStarts(b: seq<Byte>, base: int, at: nat, cies: set<int>, parse: seq<Byte> -> bool,
                      places: seq<nat>, entries: seq<Entry>)
    requires IsReading(b, base, at, cies, parse, places, entries)
    ensures |places| == |entries| + 1 && places[0] == at
    ensures entries == [] ==> EndsAt(b, at, 0)
    ensures entries != [] ==>
      && IsRecord(b, base, at, entries[0], parse) && (entries[0].FdeEntry? ==> entries[0].cie in cies)
      && places[1] == at + 4 + Word(b, at)
    ensures |entries| == 1 ==> EndsAt(b, places[1], 1)
    ensures |entries| > 1 ==> places[1] < |b|
  {
    hide Word;
    if entries != [] {
      assert ReadsOn(b, base, cies, parse, places, entries, 0);
      if |entries| > 1 {
        assert ReadsOn(b, base, cies, parse, places, entries, 1);
      }
    }
  }

  lemma NothingRead(b: seq<Byte>, base: int, at: nat, cies: set<int>, parse: seq<Byte> -> bool)
    requires EndsAt(b, at, 0)
    ensures IsReading(b, base, at, cies, parse, [at], [])
  {}

  lemma LastReads(b: seq<Byte>, base: int, at: nat, cies: set<int>, parse: seq<Byte> -> bool, e: Entry)
    requires IsRecord(b, base, at, e, parse) && (e.FdeEntry? ==> e.cie in cies) && at + 4 + Word(b, at) == |b|
    ensures IsReading(b, base, at, cies, parse, [at, |b|], [e])
  {
    hide Word, IsRecord;
    FirstFinds([e], cies);
    assert ReadsOn(b, base, cies, parse, [at, |b|], [e], 0);
  }

  lemma {:induction false} ReadingIsRead(b: seq<Byte>, base: int, at: nat, cies: set<int>, parse: seq<Byte> -> bool,
                                         places: seq<nat>, entries: seq<Entry>)
    requires at <= |b| && IsReading(b, base, at, cies, parse, places, entries)
    ensures ReadFrom(b, base, at, Q1, cies, parse) == Some(entries)
    decreases |entries|
  {
    hide ReadFrom, IsRecord, Word, IsReading, EndsAt;
    ReadingStarts(b, base, at, cies, parse, places, entries);
    if entries == [] {
      ReadsNothing(b, base, at, cies, parse);
    } else {
      var next := NextPlace(b, base, at, entries[0], parse);
      ReadNext(b, base, at, cies, parse, entries[0]);
      if next == |b| {
        assert entries == [entries[0]];
      } else {
        RestReads(b, base, at, cies, parse, places, entries);
        ReadingIsRead(b, base, next, Found(cies, entries[0]), parse, places[1..], entries[1..]);
        assert [entries[0]] + entries[1..] == entries;
      }
    }
  }

  lemma ReadsNothing(b: seq<Byte>, base: int, at: nat, cies: set<int>, parse: seq<Byte> -> bool)
    requires at <= |b| && EndsAt(b, at, 0)
    ensures ReadFrom(b, base, at, Q1, cies, parse) == Some([])
  {}

  /** A section that is one FDE and nothing else. */
  ghost predicate IsLoneFde(b: seq<Byte>) {
    |b| >= 8 && Word(b, 4) != 0 && Word(b, 0) !in {0, 0xFFFF_FFFF} && 4 + Word(b, 0) == |b|
  }

  /** A section that is not empty is accepted, with these entries, exactly if it is made of them, one record behind
      another; or if it is one FDE without a CIE, which yields no entry. */
  lemma ReadExactly(b: seq<Byte>, base: int, parse: seq<Byte> -> bool, entries: seq<Entry>)
    requires |b| > 0
    ensures ReadFrom(b, base, 0, Q0, {}, parse) == Some(entries)
       <==> (exists places :: IsReading(b, base, 0, {}, parse, places, entries)) || (entries == [] && IsLoneFde(b))
  {
    hide ReadFrom, IsReading, IsLoneFde;
    FirstState(b, base, parse);
    if ReadFrom(b, base, 0, Q1, {}, parse) == Some(entries) {
      var places := ReadsToEnd(b, base, 0, {}, parse);
    }
    if places :| IsReading(b, base, 0, {}, parse, places, entries) {
      ReadingIsRead(b, base, 0, {}, parse, places, entries);
    }
  }

  lemma FirstState(b: seq<Byte>, base: int, parse: seq<Byte> -> bool)
    requires |b| > 0
    ensures ReadFrom(b, base, 0, Q0, {}, parse)
         == if IsLoneFde(b) then Some([]) else ReadFrom(b, base, 0, Q1, {}, parse)
    ensures IsLoneFde(b) ==> ReadFrom(b, base, 0, Q1, {}, parse) == None
  {
    hide Word;
  }

  /** Whatever is accepted begins with a CIE, and each FDE in it points to a CIE before it. */
  lemma {:induction false} AcceptedFdesHaveCies(b: seq<Byte>, base: int, at: nat, state: State, cies: set<int>,
                                                parse: seq<Byte> -> bool)
    requires at <= |b|
    ensures var r := ReadFrom(b, base, at, state, cies, parse);
      r.Some? ==>
        && (state == Q0 && r.value != [] ==> r.value[0].CieEntry?)
        && forall i :: 0 <= i < |r.value| && r.value[i].FdeEntry? ==>
             r.value[i].cie in cies || exists j :: 0 <= j < i && r.value[j] == CieEntry(r.value[i].cie)
    decreases |b| - at
  {
    hide Word, SizeAt;
    var r := ReadFrom(b, base, at, state, cies, parse);
    if r.Some? && |r.value| > 1 {
      var size := SizeAt(b, at).value;
      var e := EntryAt(b, base, at, size, cies, parse).value;
      AcceptedFdesHaveCies(b, base, at + size, Q1, Found(cies, e), parse);
      var rest := ReadFrom(b, base, at + size, Q1, Found(cies, e), parse).value;
      assert r.value == [e] + rest;
      forall i | 0 <= i < |r.value| && r.value[i].FdeEntry?
        ensures r.value[i].cie in cies || exists j :: 0 <= j < i && r.value[j] == CieEntry(r.value[i].cie)
      {
        if i > 0 {
          assert r.value[i] == rest[i - 1];
          if r.value[i].cie in Found(cies, e) && r.value[i].cie !in cies {
            assert r.value[0] == CieEntry(r.value[i].cie);
          } else if r.value[i].cie !in cies {
            var j :| 0 <= j < i - 1 && rest[j] == CieEntry(r.value[i].cie);
            assert r.value[j + 1] == rest[j];
          }
        }
      }
    }
  }
}
