/** The packed attributes of a symbol, and what each modifier does to them. The bit layout is one word; `Info` is the
    record that word stands for. */
module ResolveInfos {

  datatype Desc = Undefined | Define | Common | Indirect

  datatype Binding = Global | Weak | Local | Absolute

  datatype Visibility = Default | Internal | Hidden | Protected

  /** The attributes of a symbol, unpacked. `tag` is the symbol flag and the reserved nibble; `identity` is what an
      override never touches: the length of the name and the InDyn flag. */
  datatype Info = Info(
    size: nat,
    kind: bv32,
    desc: Desc,
    binding: Binding,
    dyn: bool,
    visibility: Visibility,
    tag: bv32,
    identity: bv32)

  const GLOBAL_MASK: bv32 := 0x1
  const DYN_MASK: bv32 := 0x2
  const DESC_MASK: bv32 := 0xC
  const LOCAL_MASK: bv32 := 0x10
  const BINDING_MASK: bv32 := 0x11
  const VISIBILITY_MASK: bv32 := 0x60
  const TYPE_MASK: bv32 := 0x780
  const TAG_MASK: bv32 := 0xF800
  const SYMBOL_FLAG: bv32 := 0x800
  const INFO_MASK: bv32 := 0xF
  const RESOLVE_MASK: bv32 := 0xFFFF
  // RESOLVE_MASK without VISIBILITY_MASK
  const OVERRIDE_MASK: bv32 := 0xFF9F

  function DescBits(d: Desc): bv32 {
    match d
    case Undefined => 0x0
    case Define => 0x4
    case Common => 0x8
    case Indirect => 0xC
  }

  function DescOf(bits: bv32): Desc {
    if bits & DESC_MASK == 0x0 then Undefined
    else if bits & DESC_MASK == 0x4 then Define
    else if bits & DESC_MASK == 0x8 then Common
    else Indirect
  }

  function BindingBits(b: Binding): bv32 {
    (if b == Local || b == Absolute then LOCAL_MASK else 0) | (if b == Weak || b == Absolute then GLOBAL_MASK else 0)
  }

  function BindingOf(bits: bv32): Binding {
    if bits & LOCAL_MASK != 0 then
      if bits & GLOBAL_MASK != 0 then Absolute else Local
    else if bits & GLOBAL_MASK == 0 then Global
    else Weak
  }

  function VisibilityBits(v: Visibility): bv32 {
    match v
    case Default => 0x0
    case Internal => 0x20
    case Hidden => 0x40
    case Protected => 0x60
  }

  function VisibilityOf(bits: bv32): Visibility {
    if bits & VISIBILITY_MASK == 0x0 then Default
    else if bits & VISIBILITY_MASK == 0x20 then Internal
    else if bits & VISIBILITY_MASK == 0x40 then Hidden
    else Protected
  }

  /** The record a word of attributes stands for. */
  function Unpack(size: nat, bits: bv32): Info {
    Info(size, bits & TYPE_MASK, DescOf(bits), BindingOf(bits), bits & DYN_MASK != 0, VisibilityOf(bits),
         bits & TAG_MASK, bits & !RESOLVE_MASK)
  }

  /** No attribute is lost by unpacking: the record determines the word. */
  lemma UnpackInjective(s: nat, b: bv32, s': nat, b': bv32)
    requires Unpack(s, b) == Unpack(s', b')
    ensures s == s' && b == b'
  {
    assert b & DESC_MASK == b' & DESC_MASK && b & BINDING_MASK == b' & BINDING_MASK;
    assert b & VISIBILITY_MASK == b' & VISIBILITY_MASK && b & DYN_MASK == b' & DYN_MASK;
  }

  /** STV_INTERNAL is the most constrained visibility, then hidden, then protected, then default. */
  function Strictness(v: Visibility): nat {
    match v
    case Default => 0
    case Protected => 1
    case Hidden => 2
    case Internal => 3
  }

  function MostConstrained(a: Visibility, b: Visibility): (r: Visibility)
    ensures r == a || r == b
    ensures Strictness(r) >= Strictness(a) && Strictness(r) >= Strictness(b)
  {
    if Strictness(a) < Strictness(b) then b else a
  }

  /** A symbol's attributes after another symbol has overridden it. */
  function Overridden(old_: Info, new_: Info): Info {
    new_.(visibility := MostConstrained(old_.visibility, new_.visibility), identity := old_.identity)
  }

  lemma Masked(b: bv32, m: bv32, v: bv32, k: bv32)
    requires v & !m == 0
    ensures k & m == 0 ==> ((b & !m) | v) & k == b & k
    ensures ((b & !m) | v) & m == v
  {}

  /** Writing one field of the word leaves every other field as it was. */
  lemma FieldReplaced(b: bv32, m: bv32, v: bv32)
    requires v & !m == 0
    ensures var r := (b & !m) | v;
      && r & m == v
      && (GLOBAL_MASK & m == 0 ==> r & GLOBAL_MASK == b & GLOBAL_MASK)
      && (LOCAL_MASK & m == 0 ==> r & LOCAL_MASK == b & LOCAL_MASK)
      && (DYN_MASK & m == 0 ==> r & DYN_MASK == b & DYN_MASK)
      && (DESC_MASK & m == 0 ==> r & DESC_MASK == b & DESC_MASK)
      && (VISIBILITY_MASK & m == 0 ==> r & VISIBILITY_MASK == b & VISIBILITY_MASK)
      && (TYPE_MASK & m == 0 ==> r & TYPE_MASK == b & TYPE_MASK)
      && (TAG_MASK & m == 0 ==> r & TAG_MASK == b & TAG_MASK)
      && (!RESOLVE_MASK & m == 0 ==> r & !RESOLVE_MASK == b & !RESOLVE_MASK)
  {
    Masked(b, m, v, GLOBAL_MASK);
    Masked(b, m, v, LOCAL_MASK);
    Masked(b, m, v, DYN_MASK);
    Masked(b, m, v, DESC_MASK);
    Masked(b, m, v, VISIBILITY_MASK);
    Masked(b, m, v, TYPE_MASK);
    Masked(b, m, v, TAG_MASK);
    Masked(b, m, v, !RESOLVE_MASK);
  }

  lemma DescReplaced(s: nat, b: bv32, d: Desc)
    ensures Unpack(s, (b & !DESC_MASK) | DescBits(d)) == Unpack(s, b).(desc := d)
  {
    FieldReplaced(b, DESC_MASK, DescBits(d));
  }

  lemma BindingReplaced(s: nat, b: bv32, k: Binding)
    ensures Unpack(s, (b & !BINDING_MASK) | BindingBits(k)) == Unpack(s, b).(binding := k)
  {
    FieldReplaced(b, BINDING_MASK, BindingBits(k));
  }

  /** The attributes of a symbol just made by the name pool. */
  function Incoming(isDyn: bool, kind: bv32, desc: Desc, binding: Binding, size: nat, visibility: Visibility): Info {
    Info(size, kind & TYPE_MASK, desc, binding, isDyn, visibility, SYMBOL_FLAG, 0)
  }

  lemma BlankWord(s: nat)
    ensures Unpack(s, 0) == Info(s, 0, Undefined, Global, false, Default, 0, 0)
  {}

  function TypeBits(b: bv32, kind: bv32): bv32 {
    (b & !TYPE_MASK) | (kind & TYPE_MASK)
  }

  lemma TypeReplaced(s: nat, b: bv32, kind: bv32)
    ensures Unpack(s, TypeBits(b, kind)) == Unpack(s, b).(kind := kind & TYPE_MASK)
  {
    FieldReplaced(b, TYPE_MASK, kind & TYPE_MASK);
  }

  function TagBits(b: bv32, tag: bv32): bv32 {
    (b & !TAG_MASK) | (tag & TAG_MASK)
  }

  lemma TagReplaced(s: nat, b: bv32, tag: bv32)
    ensures Unpack(s, TagBits(b, tag)) == Unpack(s, b).(tag := tag & TAG_MASK)
  {
    FieldReplaced(b, TAG_MASK, tag & TAG_MASK);
  }

  lemma SetAndClear(b: bv32, m: bv32)
    ensures b | m == (b & !m) | m
    ensures b & !m == (b & !m) | 0
  {}

  function SourceBits(b: bv32, isDyn: bool): bv32 {
    if isDyn then b | DYN_MASK else b & !DYN_MASK
  }

  lemma SourceReplaced(s: nat, b: bv32, isDyn: bool)
    ensures Unpack(s, SourceBits(b, isDyn)) == Unpack(s, b).(dyn := isDyn)
  {
    SetAndClear(b, DYN_MASK);
    if isDyn {
      FieldReplaced(b, DYN_MASK, DYN_MASK);
    } else {
      FieldReplaced(b, DYN_MASK, 0);
    }
  }

  lemma VisibilityReplaced(s: nat, b: bv32, v: Visibility)
    ensures Unpack(s, (b & !VISIBILITY_MASK) | VisibilityBits(v)) == Unpack(s, b).(visibility := v)
  {
    FieldReplaced(b, VISIBILITY_MASK, VisibilityBits(v));
  }

  lemma Mixed(b: bv32, f: bv32, m: bv32, k: bv32)
    ensures k & m == k ==> ((b & !m) | (f & m)) & k == f & k
    ensures k & m == 0 ==> ((b & !m) | (f & m)) & k == b & k
  {}

  lemma MixFields(b: bv32, f: bv32, r: bv32)
    requires r == (b & !OVERRIDE_MASK) | (f & OVERRIDE_MASK)
    ensures r & GLOBAL_MASK == f & GLOBAL_MASK && r & LOCAL_MASK == f & LOCAL_MASK
    ensures r & DYN_MASK == f & DYN_MASK && r & DESC_MASK == f & DESC_MASK
    ensures r & TYPE_MASK == f & TYPE_MASK && r & TAG_MASK == f & TAG_MASK
    ensures r & VISIBILITY_MASK == b & VISIBILITY_MASK && r & !RESOLVE_MASK == b & !RESOLVE_MASK
  {
    Mixed(b, f, OVERRIDE_MASK, GLOBAL_MASK);
    Mixed(b, f, OVERRIDE_MASK, LOCAL_MASK);
    Mixed(b, f, OVERRIDE_MASK, DYN_MASK);
    Mixed(b, f, OVERRIDE_MASK, DESC_MASK);
    Mixed(b, f, OVERRIDE_MASK, TYPE_MASK);
    Mixed(b, f, OVERRIDE_MASK, TAG_MASK);
    Mixed(b, f, OVERRIDE_MASK, VISIBILITY_MASK);
    Mixed(b, f, OVERRIDE_MASK, !RESOLVE_MASK);
  }

  /** The visibility and the identity bits of `b` with every other bit of `f`. */
  method MixBits(s: nat, b: bv32, fs: nat, f: bv32) returns (r: bv32)
    ensures Unpack(s, r)
         == Unpack(fs, f).(size := Unpack(s, b).size, visibility := Unpack(s, b).visibility,
                           identity := Unpack(s, b).identity)
  {
    r := (b & !OVERRIDE_MASK) | (f & OVERRIDE_MASK);
    MixFields(b, f, r);
    SameFields(s, r, fs, f, b);
  }

  /** Words that agree under every mask but the visibility's and the identity's unpack alike. */
  lemma SameFields(s: nat, r: bv32, fs: nat, f: bv32, b: bv32)
    requires r & GLOBAL_MASK == f & GLOBAL_MASK && r & LOCAL_MASK == f & LOCAL_MASK
    requires r & DYN_MASK == f & DYN_MASK && r & DESC_MASK == f & DESC_MASK
    requires r & TYPE_MASK == f & TYPE_MASK && r & TAG_MASK == f & TAG_MASK
    requires r & VISIBILITY_MASK == b & VISIBILITY_MASK && r & !RESOLVE_MASK == b & !RESOLVE_MASK
    ensures Unpack(s, r)
         == Unpack(fs, f).(size := s, visibility := VisibilityOf(b), identity := b & !RESOLVE_MASK)
  {}

  class ResolveInfo {
    var size: nat
    var bits: bv32

    /** A symbol as the name pool makes it: every attribute set, one after another, on a blank word. */
    constructor (isDyn: bool, kind: bv32, desc: Desc, binding: Binding, size: nat, visibility: Visibility)
      ensures View() == Incoming(isDyn, kind, desc, binding, size, visibility)
      ensures fresh(this)
    {
      this.size, bits := 0, 0;
      new;
      BlankWord(0);
      hide Unpack, TypeBits, TagBits;
      TagReplaced(this.size, bits, SYMBOL_FLAG);
      bits := TagBits(bits, SYMBOL_FLAG);
      SetSource(isDyn);
      TypeReplaced(this.size, bits, kind);
      bits := TypeBits(bits, kind);
      SetDesc(desc);
      SetBinding(binding);
      SetVisibility(visibility);
      SetSize(size);
    }

    function View(): Info
      reads this
    {
      Unpack(size, bits)
    }

    method SetSize(s: nat)
      modifies this
      ensures View() == old(View()).(size := s)
    {
      hide DescOf, BindingOf, VisibilityOf;
      size := s;
    }

    method SetDynamic()
      modifies this
      ensures View() == old(View()).(dyn := true)
    {
      SetSource(true);
    }

    method SetSource(isDyn: bool)
      modifies this
      ensures View() == old(View()).(dyn := isDyn)
    {
      hide Unpack, SourceBits;
      SourceReplaced(size, bits, isDyn);
      bits := SourceBits(bits, isDyn);
    }

    method SetDesc(d: Desc)
      modifies this
      ensures View() == old(View()).(desc := d)
    {
      DescReplaced(size, bits, d);
      hide Unpack;
      bits := (bits & !DESC_MASK) | DescBits(d);
    }

    method SetBinding(b: Binding)
      modifies this
      ensures View() == old(View()).(binding := b)
    {
      BindingReplaced(size, bits, b);
      hide Unpack;
      bits := (bits & !BINDING_MASK) | BindingBits(b);
    }

    method SetVisibility(v: Visibility)
      modifies this
      ensures View() == old(View()).(visibility := v)
    {
      VisibilityReplaced(size, bits, v);
      hide Unpack;
      bits := (bits & !VISIBILITY_MASK) | VisibilityBits(v);
    }

    /** Everything but the size and the visibility comes from `from`; the name and the InDyn flag stay. */
    method OverrideAttributes(from: ResolveInfo)
      modifies this
      ensures View() == old(from.View()).(size := old(View()).size, visibility := old(View()).visibility,
                                          identity := old(View()).identity)
    {
      hide Unpack;
      bits := MixBits(size, bits, from.size, from.bits);
    }

    /** The numeric order of the visibilities is the reverse of their strictness, zero aside. */
    method OverrideVisibility(from: ResolveInfo)
      modifies this
      ensures View() == old(View()).(visibility := MostConstrained(old(View()).visibility, old(from.View()).visibility))
    {
      hide Unpack;
      var fromVis := from.View().visibility;
      var curVis := View().visibility;
      if VisibilityBits(fromVis) != 0 {
        if VisibilityBits(curVis) == 0 {
          SetVisibility(fromVis);
        } else if VisibilityBits(curVis) > VisibilityBits(fromVis) {
          SetVisibility(fromVis);
        }
      }
    }

    method Override(from: ResolveInfo)
      requires from != this
      modifies this
      ensures View() == Overridden(old(View()), old(from.View()))
    {
      size := from.size;
      OverrideAttributes(from);
      OverrideVisibility(from);
    }
  }
}
