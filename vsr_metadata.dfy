/** The size computation of the vehicle-state record description (vsr_metadata.rs): a
    record type is a list of subtypes, each a list of (name, type, description) fields, and
    `get_size` adds up the byte sizes of the field types, giving up on any type it does not
    know. */
module VsrMetadata {
  import opened Bits

  /** The Rust types a field may be declared with; `Other` stands for every type
      `get_size` has no size for (such as `bool`). */
  datatype FieldType = U8 | I8 | U16 | I16 | U32 | I32 | F32 | U64 | I64 | F64 | Other(name: string)

  datatype VsrField = VsrField(name: string, ty: FieldType, description: string)

  datatype VsrSubtype = VsrSubtype(name: string, fields: seq<VsrField>)

  datatype VsrType = VsrType(version: nat, subtypes: seq<VsrSubtype>)

  /** The byte size of a field type, or None for a type without one. */
  function TypeSize(t: FieldType): (r: Option<nat>)
    ensures r.None? <==> t.Other?
    ensures r.Some? ==> r.value in {1, 2, 4, 8}
  {
    match t
    case U8 => Some(1)
    case I8 => Some(1)
    case U16 => Some(2)
    case I16 => Some(2)
    case U32 => Some(4)
    case I32 => Some(4)
    case F32 => Some(4)
    case U64 => Some(8)
    case I64 => Some(8)
    case F64 => Some(8)
    case Other(_) => None
  }

  /** Every field of a subtype list, in declaration order. */
  function AllFields(subs: seq<VsrSubtype>): (r: seq<VsrField>)
    ensures subs == [] ==> r == []
  {
    if subs == [] then [] else AllFields(subs[..|subs| - 1]) + subs[|subs| - 1].fields
  }

  /** The summed size of a field list, or None if any field has no size. */
  function FieldsSize(fs: seq<VsrField>): Option<nat>
  {
    if fs == [] then Some(0)
    else
      match (FieldsSize(fs[..|fs| - 1]), TypeSize(fs[|fs| - 1].ty))
      case (Some(a), Some(b)) => Some(a + b)
      case _ => None
  }

  /** The size `get_size` should report: the sum over all fields of all subtypes. */
  function Size(v: VsrType): Option<nat>
  {
    FieldsSize(AllFields(v.subtypes))
  }

  predicate HasUnsizedField(fs: seq<VsrField>)
  {
    exists i :: 0 <= i < |fs| && fs[i].ty.Other?
  }

  /** The sum is missing exactly when some field has a type without a size. */
  lemma {:induction false} FieldsSizeNoneIffUnsized(fs: seq<VsrField>)
    ensures FieldsSize(fs).None? <==> HasUnsizedField(fs)
  {
    if fs != [] {
      var init := fs[..|fs| - 1];
      FieldsSizeNoneIffUnsized(init);
      if HasUnsizedField(init) {
        var i :| 0 <= i < |init| && init[i].ty.Other?;
        assert fs[i] == init[i];
      }
      if HasUnsizedField(fs) && !fs[|fs| - 1].ty.Other? {
        var i :| 0 <= i < |fs| && fs[i].ty.Other?;
        assert init[i] == fs[i];
      }
    }
  }

  /** A fields list of sized types sums to at least one byte per field and at most eight. */
  lemma {:induction false} FieldsSizeBounds(fs: seq<VsrField>)
    requires !HasUnsizedField(fs)
    ensures FieldsSize(fs).Some?
    ensures |fs| <= FieldsSize(fs).value <= 8 * |fs|
  {
    FieldsSizeNoneIffUnsized(fs);
    if fs != [] {
      var init := fs[..|fs| - 1];
      assert !HasUnsizedField(init) by {
        forall i | 0 <= i < |init| ensures !init[i].ty.Other? { assert init[i] == fs[i]; }
      }
      FieldsSizeBounds(init);
    }
  }

  /** `get_size`: the nested loops over subtypes and their fields, returning None at the
      first field whose type has no size. */
  method GetSize(v: VsrType) returns (r: Option<nat>)
    ensures r == Size(v)
  {
    var total := 0;
    for s := 0 to |v.subtypes|
      invariant Some(total) == FieldsSize(AllFields(v.subtypes[..s]))
    {
      var sub := v.subtypes[s];
      ghost var before := AllFields(v.subtypes[..s]);
      assert before + sub.fields[..0] == before;
      for f := 0 to |sub.fields|
        invariant Some(total) == FieldsSize(before + sub.fields[..f])
      {
        var size := TypeSize(sub.fields[f].ty);
        FieldsSizeStep(before, sub.fields, f);
        if size.None? {
          NoneExtends(v, s, f);
          return None;
        }
        total := total + size.value;
      }
      AllFieldsStep(v.subtypes, s);
    }
    assert v.subtypes[..|v.subtypes|] == v.subtypes;
    r := Some(total);
  }

  lemma FieldsSizeStep(before: seq<VsrField>, fs: seq<VsrField>, f: nat)
    requires f < |fs|
    ensures FieldsSize(before + fs[..f + 1]) ==
      match (FieldsSize(before + fs[..f]), TypeSize(fs[f].ty))
      case (Some(a), Some(b)) => Some(a + b)
      case _ => None
  {
    var l := before + fs[..f + 1];
    assert l[..|l| - 1] == before + fs[..f];
  }

  lemma AllFieldsStep(subs: seq<VsrSubtype>, s: nat)
    requires s < |subs|
    ensures AllFields(subs[..s + 1]) == AllFields(subs[..s]) + subs[s].fields[..|subs[s].fields|]
  {
    assert subs[..s + 1][..s] == subs[..s];
    assert subs[s].fields[..|subs[s].fields|] == subs[s].fields;
  }

  /** An unsized field in subtype s makes the whole size None. */
  lemma NoneExtends(v: VsrType, s: nat, f: nat)
    requires s < |v.subtypes| && f < |v.subtypes[s].fields| && v.subtypes[s].fields[f].ty.Other?
    ensures Size(v) == None
  {
    var all := AllFields(v.subtypes);
    var k := AllFieldsIndex(v.subtypes, s, f);
    FieldsSizeNoneIffUnsized(all);
    assert all[k].ty.Other?;
  }

  /** Field f of subtype s sits at some position of the flattened field list. */
  lemma {:induction false} AllFieldsIndex(subs: seq<VsrSubtype>, s: nat, f: nat) returns (k: nat)
    requires s < |subs| && f < |subs[s].fields|
    ensures k < |AllFields(subs)| && AllFields(subs)[k] == subs[s].fields[f]
  {
    var init := subs[..|subs| - 1];
    if s == |subs| - 1 {
      k := |AllFields(init)| + f;
    } else {
      k := AllFieldsIndex(init, s, f);
    }
  }

  /** With no subtypes, or only subtypes without fields, the size is Some(0). */
  lemma {:induction false} NoFieldsSizeZero(subs: seq<VsrSubtype>)
    requires forall i :: 0 <= i < |subs| ==> subs[i].fields == []
    ensures Size(VsrType(1, subs)) == Some(0)
  {
    NoFieldsFlatten(subs);
  }

  lemma {:induction false} NoFieldsFlatten(subs: seq<VsrSubtype>)
    requires forall i :: 0 <= i < |subs| ==> subs[i].fields == []
    ensures AllFields(subs) == []
  {
    if subs != [] {
      NoFieldsFlatten(subs[..|subs| - 1]);
    }
  }

  /** The record declared in vsr.rs, field types only. */
  function DeclaredVsr(): VsrType
  {
    VsrType(1, [
      VsrSubtype("motor_power", [F("measured_dc_voltage_v", F32), F("calculated_dc_current_a", F32),
                                 F("motor_current_limit_arms", F32)]),
      VsrSubtype("motor_speed", [F("quadrature_current", F32), F("direct_current", F32), F("motor_speed", I16)]),
      VsrSubtype("motor_safety", [F("protection_code", U8), F("safety_error_code", U8), F("motor_temp", I16),
                                  F("inverter_bridge_temp", I16), F("bus_cap_temp", I16), F("pwm_status", U8)]),
      VsrSubtype("motor_control", [F("current_reference", I32), F("discharge_limit_pct", U8),
                                   F("charge_limit_pct", U8)]),
      VsrSubtype("motor_error", [F("motor_state", U32)]),
      VsrSubtype("pedal", [F("pedal_supply_voltage", F32), F("pedal_position_pct", F32), F("pedal_raw_1", F32),
                           F("pedal_raw_2", F32), F("tx_value", I32), F("use_pedal", Other("bool"))]),
      VsrSubtype("motor_prot1", [F("can_timeout_ms", U16), F("dc_regen_current_limit_neg_a", U16),
                                 F("dc_traction_current_limit_a", U16), F("stall_protection_type", U8),
                                 F("stall_protection_time_ms", U16), F("stall_protection_current_a", U16),
                                 F("overspeed_protection_speed_rpm", U8)]),
      VsrSubtype("motor_prot2", [F("max_motor_temp_c", U8), F("motor_temp_high_gain_a_per_c", U8),
                                 F("max_inverter_temp_c", U8), F("inverter_temp_high_gain_a_per_c", U8),
                                 F("id_overcurrent_limit_a", U16), F("overvoltage_limit_v", U16),
                                 F("shutdown_voltage_limit_v", U16)])
    ])
  }

  function F(name: string, ty: FieldType): VsrField
  {
    VsrField(name, ty, "")
  }

  /** The declared record has a `bool` field (`use_pedal`), so its size is None. */
  lemma DeclaredVsrHasNoSize()
    ensures Size(DeclaredVsr()) == None
  {
    NoneExtends(DeclaredVsr(), 5, 5);
  }
}
