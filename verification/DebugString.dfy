/** The merged .debug_str section: every string of every input once, and its place in the output. */
module DebugStrings {
  import opened Options

  type Byte = bv8

  /** Section data in which every string ends. */
  ghost predicate Terminated(data: seq<Byte>) {
    data == [] || data[|data| - 1] == 0
  }

  /** The string that starts at `p`, without its end. */
  ghost function StringAt(data: seq<Byte>, p: nat): (s: seq<Byte>)
    requires Terminated(data) && p < |data|
    ensures p + |s| < |data| && data[p + |s|] == 0 && s == data[p..p + |s|] && 0 !in s
    decreases |data| - p
  {
    if data[p] == 0 then [] else [data[p]] + StringAt(data, p + 1)
  }

  /** A place where a string starts: the beginning, or behind the end of another. */
  ghost predicate IsStart(data: seq<Byte>, p: nat) {
    p < |data| && (p == 0 || data[p - 1] == 0)
  }

  /** All strings that start before `n`. */
  ghost function StringsBefore(data: seq<Byte>, n: nat): set<seq<Byte>>
    requires Terminated(data) && n <= |data|
  {
    set p | 0 <= p < n && IsStart(data, p) :: StringAt(data, p)
  }

  ghost function Strings(data: seq<Byte>): set<seq<Byte>>
    requires Terminated(data)
  {
    StringsBefore(data, |data|)
  }

  lemma NoStartInside(data: seq<Byte>, p: nat, q: nat)
    requires Terminated(data) && p < |data| && p < q <= p + |StringAt(data, p)|
    ensures !IsStart(data, q)
  {
    assert data[q - 1] == StringAt(data, p)[q - 1 - p];
  }

  /** Between a start and the end of its string no other string starts. */
  lemma NextStart(data: seq<Byte>, p: nat)
    requires Terminated(data) && IsStart(data, p)
    ensures var next := p + |StringAt(data, p)| + 1;
      StringsBefore(data, next) == StringsBefore(data, p) + {StringAt(data, p)}
        && (next == |data| || IsStart(data, next))
  {
    hide StringAt, Terminated;
    var s := StringAt(data, p);
    var next := p + |s| + 1;
    forall q | 0 <= q < next && IsStart(data, q) ensures q <= p {
      if p < q {
        NoStartInside(data, p, q);
      }
    }
    forall x | x in StringsBefore(data, next) ensures x in StringsBefore(data, p) + {s} {
      var q :| 0 <= q < next && IsStart(data, q) && StringAt(data, q) == x;
    }
  }

  /** What the output section holds when the strings stand in a certain order. */
  ghost function Image(keys: seq<seq<Byte>>): (image: seq<Byte>)
  {
    if keys == [] then [] else Image(keys[..|keys| - 1]) + keys[|keys| - 1] + [0]
  }

  /** Where the i-th of the strings stands. */
  ghost function Place(keys: seq<seq<Byte>>, i: nat): nat
    requires i <= |keys|
  {
    |Image(keys[..i])|
  }

  lemma WholeImage(keys: seq<seq<Byte>>)
    ensures Place(keys, 0) == 0 && Place(keys, |keys|) == |Image(keys)| && Image(keys[..0]) == []
  {
    assert keys[..|keys|] == keys;
  }

  lemma PlaceNext(keys: seq<seq<Byte>>, i: nat)
    requires i < |keys|
    ensures Place(keys, i + 1) == Place(keys, i) + |keys[i]| + 1
    ensures Image(keys[..i + 1]) == Image(keys[..i]) + keys[i] + [0]
  {
    assert keys[..i + 1][..i] == keys[..i];
  }

  lemma {:induction false} PrefixOfImage(keys: seq<seq<Byte>>, i: nat)
    requires i <= |keys|
    ensures Image(keys[..i]) <= Image(keys)
    decreases |keys| - i
  {
    if i == |keys| {
      assert keys[..i] == keys;
    } else {
      PlaceNext(keys, i);
      PrefixOfImage(keys, i + 1);
    }
  }

  /** At its place, each string stands with its end behind it. */
  lemma StandsInImage(keys: seq<seq<Byte>>, i: nat)
    requires i < |keys|
    ensures Place(keys, i) <= Place(keys, i + 1) == Place(keys, i) + |keys[i]| + 1 <= |Image(keys)|
    ensures Image(keys)[Place(keys, i)..Place(keys, i + 1)] == keys[i] + [0]
  {
    PlaceNext(keys, i);
    PrefixOfImage(keys, i + 1);
    var whole, part := Image(keys), Image(keys[..i + 1]);
    assert whole[Place(keys, i)..Place(keys, i + 1)] == part[Place(keys, i)..];
  }

  /** Every byte of the output belongs to exactly one string: the places tile it. */
  lemma {:induction false} PlacesTile(keys: seq<seq<Byte>>, at: nat) returns (i: nat)
    requires at < |Image(keys)|
    ensures i < |keys| && Place(keys, i) <= at < Place(keys, i + 1)
    ensures forall j :: 0 <= j < |keys| && Place(keys, j) <= at < Place(keys, j + 1) ==> j == i
  {
    i := 0;
    assert Place(keys, 0) == 0;
    assert keys[..|keys|] == keys;
    while !(at < Place(keys, i + 1))
      invariant i < |keys| && Place(keys, i) <= at
      decreases |keys| - i
    {
      i := i + 1;
    }
    forall j | 0 <= j < |keys| && Place(keys, j) <= at < Place(keys, j + 1) ensures j == i {
      if j < i {
        PlacesRise(keys, j + 1, i);
      } else if i < j {
        PlacesRise(keys, i + 1, j);
      }
    }
  }

  lemma {:induction false} PlacesRise(keys: seq<seq<Byte>>, i: nat, j: nat)
    requires i <= j <= |keys|
    ensures Place(keys, i) <= Place(keys, j)
  {
    if i < j {
      PlacesRise(keys, i, j - 1);
      PlaceNext(keys, j - 1);
    }
  }

  ghost function SetOf(keys: seq<seq<Byte>>): set<seq<Byte>> {
    set k | k in keys
  }

  /** A hash table may change the order of its entries, but not the entries. */
  ghost predicate Permutes(order: seq<seq<Byte>> -> seq<seq<Byte>>) {
    forall l :: multiset(order(l)) == multiset(l)
  }

  ghost predicate Distinct(keys: seq<seq<Byte>>) {
    forall i, j :: 0 <= i < j < |keys| ==> keys[i] != keys[j]
  }

  /** The first `n` strings have the offsets at which they stand. */
  ghost predicate PlacedBefore(keys: seq<seq<Byte>>, offsets: map<seq<Byte>, nat>, n: nat)
    requires n <= |keys|
  {
    forall i :: 0 <= i < n ==> keys[i] in offsets && offsets[keys[i]] == Place(keys, i)
  }

  lemma NothingPlaced(keys: seq<seq<Byte>>, offsets: map<seq<Byte>, nat>)
    ensures PlacedBefore(keys, offsets, 0) && Place(keys, 0) == 0
  {}

  lemma OneMorePlaced(keys: seq<seq<Byte>>, offsets: map<seq<Byte>, nat>, n: nat)
    requires Distinct(keys) && offsets.Keys == SetOf(keys) && n < |keys| && PlacedBefore(keys, offsets, n)
    ensures var more := offsets[keys[n] := Place(keys, n)]; more.Keys == SetOf(keys) && PlacedBefore(keys, more, n + 1)
  {
    assert keys[n] in SetOf(keys);
  }

  /** Each string once, with the offset it will have. The strings stand in the order of a hash table, which any
      insertion may change altogether. */
  class MergedStringTable {
    var keys: seq<seq<Byte>>
    var offsets: map<seq<Byte>, nat>
    const rehash: seq<seq<Byte>> -> seq<seq<Byte>>

    ghost predicate Valid()
      reads this
    {
      && Distinct(keys)
      && offsets.Keys == SetOf(keys)
      && Permutes(rehash)
    }

    /** The offsets are those of the image. */
    ghost predicate Finalized()
      requires Valid()
      reads this
    {
      PlacedBefore(keys, offsets, |keys|)
    }

    constructor (rehash: seq<seq<Byte>> -> seq<seq<Byte>>)
      requires Permutes(rehash)
      ensures Valid() && keys == []
    {
      keys, offsets, this.rehash := [], map[], rehash;
    }

    method InsertString(s: seq<Byte>) returns (added: bool)
      requires Valid()
      modifies this
      ensures Valid() && added == (s !in old(offsets))
      ensures offsets.Keys == old(offsets).Keys + {s}
    {
      added := s !in offsets;
      if added {
        Permuted(keys, s, rehash(keys + [s]));
        keys := rehash(keys + [s]);
        offsets := offsets[s := 0];
      }
    }

    method FinalizeOffset() returns (size: nat)
      requires Valid()
      modifies this`offsets
      ensures Valid() && Finalized() && size == |Image(keys)|
    {
      hide Permutes, Distinct, SetOf, Place;
      NothingPlaced(keys, offsets);
      hide PlacedBefore;
      size := 0;
      var i := 0;
      while i < |keys|
        invariant i <= |keys| && size == Place(keys, i) && Valid()
        invariant PlacedBefore(keys, offsets, i)
      {
        PlaceNext(keys, i);
        OneMorePlaced(keys, offsets, i);
        offsets := offsets[keys[i] := size];
        size := size + |keys[i]| + 1;
        i := i + 1;
      }
      WholeImage(keys);
    }

    /** Copies the strings, one behind the other. The region is zero beforehand, which is what ends the strings. */
    method Emit(region: array<Byte>)
      requires Valid() && |Image(keys)| <= region.Length
      requires forall k :: 0 <= k < |Image(keys)| ==> region[k] == 0
      modifies region
      ensures region[..|Image(keys)|] == Image(keys)
      ensures region[|Image(keys)|..] == old(region[|Image(keys)|..])
    {
      hide *;
      var p, i := 0, 0;
      WholeImage(keys);
      while i < |keys|
        invariant i <= |keys| && p == Place(keys, i) <= |Image(keys)|
        invariant region[..p] == Image(keys[..i])
        invariant forall k :: p <= k < |Image(keys)| ==> region[k] == 0
        invariant region[|Image(keys)|..] == old(region[|Image(keys)|..])
      {
        PlaceNext(keys, i);
        PlacesRise(keys, i + 1, |keys|);
        EmitString(region, p, keys[i], |Image(keys)|);
        p := p + |keys[i]| + 1;
        i := i + 1;
      }
      assert keys[..|keys|] == keys;
    }

    /** One string, and the zero that is there already. */
    method EmitString(region: array<Byte>, p: nat, s: seq<Byte>, ghost end: nat)
      requires p + |s| + 1 <= end <= region.Length
      requires forall k :: p <= k < end ==> region[k] == 0
      modifies region
      ensures region[..p + |s| + 1] == old(region[..p]) + s + [0]
      ensures forall k :: p + |s| + 1 <= k < end ==> region[k] == 0
      ensures region[end..] == old(region[end..])
    {
      Copy(region, p, s);
      assert forall k :: p + |s| <= k < region.Length ==> region[k] == old(region[k]) by {
        assert forall k :: p + |s| <= k < region.Length ==>
          region[k] == region[p + |s|..][k - p - |s|] && old(region[k]) == old(region[p + |s|..])[k - p - |s|];
      }
      assert region[..p + |s|] == region[..p] + region[p..p + |s|];
      assert region[..p + |s| + 1] == region[..p + |s|] + [region[p + |s|]];
    }

    /** memcpy. */
    method Copy(region: array<Byte>, at: nat, s: seq<Byte>)
      requires at + |s| <= region.Length
      modifies region
      ensures region[at..at + |s|] == s
      ensures region[..at] == old(region[..at]) && region[at + |s|..] == old(region[at + |s|..])
    {
      forall k | 0 <= k < |s| {
        region[at + k] := s[k];
      }
    }

    /** None is the assertion that stops the program. */
    function GetOutputOffset(s: seq<Byte>): Option<nat>
      reads this
    {
      if s in offsets then Some(offsets[s]) else None
    }
  }

  lemma Permuted(keys: seq<seq<Byte>>, s: seq<Byte>, more: seq<seq<Byte>>)
    requires Distinct(keys)
    requires s !in SetOf(keys) && multiset(more) == multiset(keys + [s])
    ensures Distinct(more)
    ensures SetOf(more) == SetOf(keys) + {s}
  {
    forall x ensures multiset(keys)[x] <= 1 {
      Unique(keys, x);
    }
    assert s !in multiset(keys);
    forall i, j | 0 <= i < j < |more| ensures more[i] != more[j] {
      if more[i] == more[j] {
        Twice(more, i, j);
      }
    }
    forall x ensures x in SetOf(more) <==> x in SetOf(keys) + {s} {
      assert x in more <==> x in multiset(more);
      assert x in keys + [s] <==> x in multiset(keys + [s]);
    }
  }

  lemma {:induction false} Unique(keys: seq<seq<Byte>>, x: seq<Byte>)
    requires Distinct(keys)
    ensures multiset(keys)[x] <= 1
  {
    if keys != [] {
      assert keys == [keys[0]] + keys[1..];
      Unique(keys[1..], x);
      if x == keys[0] {
        assert x !in keys[1..];
        assert x !in multiset(keys[1..]);
      }
    }
  }

  lemma Twice(keys: seq<seq<Byte>>, i: nat, j: nat)
    requires i < j < |keys| && keys[i] == keys[j]
    ensures multiset(keys)[keys[i]] >= 2
  {
    assert keys == keys[..i] + [keys[i]] + keys[i + 1..j] + [keys[j]] + keys[j + 1..];
  }

  /** The strings of the first `n` inputs. */
  ghost function AllStrings(inputs: seq<seq<Byte>>, n: nat): set<seq<Byte>>
    requires n <= |inputs| && forall i :: 0 <= i < |inputs| ==> Terminated(inputs[i])
  {
    if n == 0 then {} else AllStrings(inputs, n - 1) + Strings(inputs[n - 1])
  }

  lemma {:induction false} StringsOfEach(inputs: seq<seq<Byte>>, i: nat, n: nat)
    requires i < n <= |inputs| && forall i :: 0 <= i < |inputs| ==> Terminated(inputs[i])
    ensures Strings(inputs[i]) <= AllStrings(inputs, n)
  {
    if i + 1 < n {
      StringsOfEach(inputs, i, n - 1);
    }
  }

  lemma NoneBefore(data: seq<Byte>)
    requires Terminated(data)
    ensures StringsBefore(data, 0) == {} && StringsBefore(data, |data|) == Strings(data)
    ensures data != [] ==> IsStart(data, 0)
  {}

  class DebugString {
    const table: MergedStringTable
    var size: nat

    constructor (table: MergedStringTable)
      ensures this.table == table
    {
      this.table := table;
      size := 0;
    }

    method StringLength(data: seq<Byte>, p: nat) returns (len: nat)
      requires Terminated(data) && p < |data|
      ensures len == |StringAt(data, p)|
    {
      len := 0;
      while data[p + len] != 0
        invariant p + len < |data| && len + |StringAt(data, p + len)| == |StringAt(data, p)|
        decreases |data| - len
      {
        len := len + 1;
      }
    }

    /** Splits the data of an input section into its strings, and inserts each. */
    method Merge(data: seq<Byte>)
      requires table.Valid() && Terminated(data)
      modifies table
      ensures table.Valid() && table.offsets.Keys == old(table.offsets.Keys) + Strings(data)
    {
      hide *;
      var p := 0;
      NoneBefore(data);
      while p < |data|
        invariant p <= |data| && table.Valid() && (p < |data| ==> IsStart(data, p))
        invariant table.offsets.Keys == old(table.offsets.Keys) + StringsBefore(data, p)
      {
        NextStart(data, p);
        var len := StringLength(data, p);
        var _ := table.InsertString(data[p..p + len]);
        p := p + len + 1;
      }
    }

    /** Merges all inputs: the table holds exactly their strings. */
    method MergeAll(inputs: seq<seq<Byte>>)
      requires table.Valid() && table.offsets == map[] && forall i :: 0 <= i < |inputs| ==> Terminated(inputs[i])
      modifies table
      ensures table.Valid() && table.offsets.Keys == AllStrings(inputs, |inputs|)
    {
      var i := 0;
      hide Strings, Terminated;
      while i < |inputs|
        invariant i <= |inputs| && table.Valid() && table.offsets.Keys == AllStrings(inputs, i)
      {
        Merge(inputs[i]);
        i := i + 1;
      }
    }

    method ComputeOffsetSize() returns (r: nat)
      requires table.Valid()
      modifies table`offsets, this`size
      ensures table.Valid() && table.Finalized() && r == size == |Image(table.keys)|
    {
      r := table.FinalizeOffset();
      size := r;
    }

    /** The offset to which a relocation to a place in an input section's data is changed; none if the string from
        there on is not in the table. */
    method ApplyOffset(data: seq<Byte>, offset: nat) returns (r: Option<nat>)
      requires Terminated(data) && offset < |data|
      ensures r.Some? <==> StringAt(data, offset) in table.offsets
      ensures r.Some? && table.Valid() && table.Finalized() ==> StandsAt(table.keys, StringAt(data, offset), r.value)
    {
      var len := StringLength(data, offset);
      r := table.GetOutputOffset(data[offset..offset + len]);
      if r.Some? && table.Valid() && table.Finalized() {
        FoundAt(table.keys, table.offsets, StringAt(data, offset));
      }
    }
  }

  /** The string and its end stand at an offset of the image. */
  ghost predicate StandsAt(keys: seq<seq<Byte>>, s: seq<Byte>, at: nat) {
    at + |s| + 1 <= |Image(keys)| && Image(keys)[at..at + |s| + 1] == s + [0]
  }

  /** Some input has the string from one of its starts on. */
  ghost predicate StartsSomewhere(inputs: seq<seq<Byte>>, s: seq<Byte>)
    requires forall i :: 0 <= i < |inputs| ==> Terminated(inputs[i])
  {
    exists j: nat, q: nat :: j < |inputs| && IsStart(inputs[j], q) && StringAt(inputs[j], q) == s
  }

  lemma {:induction false} StringsComeFromStarts(inputs: seq<seq<Byte>>, s: seq<Byte>, n: nat)
    requires n <= |inputs| && (forall i :: 0 <= i < |inputs| ==> Terminated(inputs[i])) && s in AllStrings(inputs, n)
    ensures StartsSomewhere(inputs, s)
  {
    if n > 0 && s in Strings(inputs[n - 1]) {
      var q :| 0 <= q < |inputs[n - 1]| && IsStart(inputs[n - 1], q) && StringAt(inputs[n - 1], q) == s;
    } else if n > 0 {
      StringsComeFromStarts(inputs, s, n - 1);
    }
  }

  /** After all inputs are merged and the offsets computed, every place in an input, whether a string starts there or
      not: it has an offset exactly if the string from there on starts somewhere in an input, and what is emitted at
      that offset is then that string and its end. */
  lemma PlaceIsFound(table: MergedStringTable, inputs: seq<seq<Byte>>, i: nat, p: nat)
    requires table.Valid() && table.Finalized()
    requires forall k :: 0 <= k < |inputs| ==> Terminated(inputs[k])
    requires table.offsets.Keys == AllStrings(inputs, |inputs|) && i < |inputs| && p < |inputs[i]|
    ensures var s := StringAt(inputs[i], p);
      && (table.GetOutputOffset(s).Some? <==> StartsSomewhere(inputs, s))
      && (table.GetOutputOffset(s).Some? ==> StandsAt(table.keys, s, table.GetOutputOffset(s).value))
  {
    hide Permutes, Distinct, Place, Image, Terminated, AllStrings, PlacedBefore, SetOf, StandsAt;
    var s := StringAt(inputs[i], p);
    if s in table.offsets {
      StringsComeFromStarts(inputs, s, |inputs|);
      FoundAt(table.keys, table.offsets, s);
    }
    if StartsSomewhere(inputs, s) {
      var j: nat, q: nat :| j < |inputs| && IsStart(inputs[j], q) && StringAt(inputs[j], q) == s;
      StartIsIn(inputs, j, q);
    }
  }

  lemma StartIsIn(inputs: seq<seq<Byte>>, j: nat, q: nat)
    requires (forall i :: 0 <= i < |inputs| ==> Terminated(inputs[i])) && j < |inputs| && IsStart(inputs[j], q)
    ensures StringAt(inputs[j], q) in AllStrings(inputs, |inputs|)
  {
    StringsOfEach(inputs, j, |inputs|);
    assert StringAt(inputs[j], q) in Strings(inputs[j]);
  }

  /** So a place where a string starts always has one. */
  lemma EveryStringIsFound(table: MergedStringTable, inputs: seq<seq<Byte>>, i: nat, p: nat)
    requires table.Valid() && table.Finalized()
    requires forall k :: 0 <= k < |inputs| ==> Terminated(inputs[k])
    requires table.offsets.Keys == AllStrings(inputs, |inputs|) && i < |inputs| && IsStart(inputs[i], p)
    ensures var s := StringAt(inputs[i], p);
      table.GetOutputOffset(s).Some? && StandsAt(table.keys, s, table.GetOutputOffset(s).value)
  {
    hide Permutes, Distinct, Place, Image, Terminated, AllStrings, PlacedBefore, SetOf, StandsAt;
    PlaceIsFound(table, inputs, i, p);
  }

  lemma FoundAt(keys: seq<seq<Byte>>, offsets: map<seq<Byte>, nat>, s: seq<Byte>)
    requires PlacedBefore(keys, offsets, |keys|) && s in SetOf(keys)
    ensures s in offsets && StandsAt(keys, s, offsets[s])
  {
    var k :| 0 <= k < |keys| && keys[k] == s;
    hide Image, Place;
    StandsInImage(keys, k);
  }

  /** An offset into the middle of a string is not always found: "ab" is merged, but "b" is not. */
  lemma SuffixIsMissed()
    ensures var data: seq<Byte> := [97, 98, 0];
      Terminated(data) && StringAt(data, 1) == [98] && StringAt(data, 1) !in AllStrings([data], 1)
  {
    var data: seq<Byte> := [97, 98, 0];
    assert StringAt(data, 2) == [] && StringAt(data, 1) == [98] && StringAt(data, 0) == [97, 98];
    assert AllStrings([data], 1) == AllStrings([data], 0) + Strings(data);
    forall p | 0 <= p < 3 && IsStart(data, p) ensures p == 0 {
      assert data[0] != 0 && data[1] != 0;
    }
  }
}
