/** What Marshal computes: the fixed block of a record, its wire fields laid
    end to end in declaration order. */
module Encoding {
  import opened Wire
  import opened Errors
  import opened WinTypes
  import opened Meta
  import opened Values
  import opened Decoding

  /** Whether the primitive of a wire type ignores the field's value. */
  predicate IsPointer(f: Field)
  {
    f.wt.kind == WideStringPointer || f.wt.kind == BytePointer
  }

  /** The ToBytes primitive of one wire field. Unsigned fields are cut to
      their width, doubles are written as their bit pattern, and pointers are
      written as a null pointer whatever the field holds (ZeroWord: the
      eight bytes of the number 0). */
  function EncodeField(f: Field, vals: Values): Result<seq<Byte>>
  {
    match f.wt.kind
    case Unsigned =>
      var u := UintProperty(vals, f.name);
      if u.Failure? then Failure(u.error) else Success(LeBytes(u.value, f.wt.size))
    case Double =>
      var bits := FloatProperty(vals, f.name);
      if bits.Failure? then Failure(bits.error) else Success(LeBytes(bits.value, 8))
    case WideStringPointer => Success(Zeros(8))
    case BytePointer => Success(Zeros(8))
  }

  function EncodeFields(fields: seq<Field>, vals: Values): Result<seq<Byte>>
  {
    if fields == [] then Success([])
    else
      var head := EncodeField(fields[0], vals);
      var tail := EncodeFields(fields[1..], vals);
      if head.Failure? then head
      else if tail.Failure? then tail
      else Success(head.value + tail.value)
  }

  /** Marshal: the record type's metadata, then each wire field's bytes in turn. */
  function Marshaled(decls: seq<FieldDecl>, vals: Values): Result<seq<Byte>>
  {
    var m := MetaOf(decls);
    if m.Failure? then Failure(m.error) else EncodeFields(m.value.fields, vals)
  }

  /** The field's value is one its primitive can read: an unsigned integer
      for an unsigned type, a double for a double, anything for a pointer. */
  predicate Encodable(f: Field, vals: Values)
  {
    match f.wt.kind
    case Unsigned => f.name in vals && vals[f.name].UintValue?
    case Double => f.name in vals && vals[f.name].FloatValue?
    case _ => true
  }

  lemma ZeroWord()
    ensures LeBytes(0, 8) == Zeros(8)
  {
  }

  /** A field encodes exactly when its primitive can read its value, and
      otherwise fails naming it. */
  lemma EncodeFieldOutcome(f: Field, vals: Values)
    ensures EncodeField(f, vals).Success? <==> Encodable(f, vals)
    ensures EncodeField(f, vals).Failure? ==> EncodeField(f, vals).error == BadProperty(f.name)
  {
  }

  /** One field's bytes: the value of an unsigned field modulo 2^(8 * width),
      the bit pattern of a double, and eight zero bytes for a pointer. */
  lemma EncodeFieldSpec(f: Field, vals: Values)
    ensures EncodeField(f, vals).Success? <==> Encodable(f, vals)
    ensures EncodeField(f, vals).Failure? ==> EncodeField(f, vals).error == BadProperty(f.name)
    ensures EncodeField(f, vals).Success? ==> |EncodeField(f, vals).value| == ReadWidth(f.wt)
    ensures EncodeField(f, vals).Success? && f.wt.kind == Unsigned ==>
      LeValue(EncodeField(f, vals).value) == vals[f.name].u % Pow256(f.wt.size)
    ensures EncodeField(f, vals).Success? && f.wt.kind == Double ==>
      LeValue(EncodeField(f, vals).value) == vals[f.name].bits
    ensures IsPointer(f) ==> EncodeField(f, vals) == Success(Zeros(8))
  {
    EncodeFieldOutcome(f, vals);
    if Encodable(f, vals) {
      EncodeFieldWidth(f, vals);
      match f.wt.kind
      case Unsigned => EncodeUnsignedValue(f, vals);
      case Double => EncodeDoubleValue(f, vals);
      case _ => ZeroWord();
    }
  }

  /** An unsigned field's bytes read back as its value modulo 2^(8 * width). */
  lemma EncodeUnsignedValue(f: Field, vals: Values)
    requires f.wt.kind == Unsigned && Encodable(f, vals)
    ensures EncodeField(f, vals).Success?
    ensures LeValue(EncodeField(f, vals).value) == vals[f.name].u % Pow256(f.wt.size)
  {
    LeRoundTrip(vals[f.name].u, f.wt.size);
  }

  /** A double's bytes read back as its bit pattern. */
  lemma EncodeDoubleValue(f: Field, vals: Values)
    requires f.wt.kind == Double && Encodable(f, vals)
    ensures EncodeField(f, vals).Success?
    ensures LeValue(EncodeField(f, vals).value) == vals[f.name].bits
  {
    var bits := vals[f.name].bits;
    LeRoundTrip(bits, 8);
    Pow256Eight();
    DivModUnique(bits, TWO64, 0, bits);
  }

  /** A field that encodes writes exactly the width its primitive reads. */
  lemma EncodeFieldWidth(f: Field, vals: Values)
    requires EncodeField(f, vals).Success?
    ensures |EncodeField(f, vals).value| == ReadWidth(f.wt)
  {
  }

  /** Total width of a run of fields as their primitives write them. */
  function Widths(fields: seq<Field>): nat
  {
    if fields == [] then 0 else ReadWidth(fields[0].wt) + Widths(fields[1..])
  }

  lemma {:induction false} WidthsOfWellSized(fields: seq<Field>)
    requires AllWellSized(fields)
    ensures Widths(fields) == FieldsSize(fields)
  {
    if fields != [] {
      assert AllWellSized(fields[1..]) by {
        forall k | 0 <= k < |fields[1..]| ensures WellSized(fields[1..][k].wt) {
          assert fields[1..][k] == fields[k + 1];
        }
      }
      WidthsOfWellSized(fields[1..]);
    }
  }

  /** The fields encode exactly when each holds a value its primitive reads,
      the first one that does not naming the failure; the bytes are the
      fields' widths long. */
  lemma EncodeFieldsSpec(fields: seq<Field>, vals: Values)
    ensures EncodeFields(fields, vals).Success? <==> forall k :: 0 <= k < |fields| ==> Encodable(fields[k], vals)
    ensures EncodeFields(fields, vals).Failure? ==>
      exists k :: 0 <= k < |fields| && !Encodable(fields[k], vals)
        && EncodeFields(fields, vals).error == BadProperty(fields[k].name)
        && forall j :: 0 <= j < k ==> Encodable(fields[j], vals)
    ensures EncodeFields(fields, vals).Success? ==> |EncodeFields(fields, vals).value| == Widths(fields)
  {
    EncodeFieldsOutcome(fields, vals);
    EncodeFieldsLength(fields, vals);
  }

  lemma {:induction false} EncodeFieldsOutcome(fields: seq<Field>, vals: Values)
    ensures EncodeFields(fields, vals).Success? <==> forall k :: 0 <= k < |fields| ==> Encodable(fields[k], vals)
    ensures EncodeFields(fields, vals).Failure? ==>
      exists k :: 0 <= k < |fields| && !Encodable(fields[k], vals)
        && EncodeFields(fields, vals).error == BadProperty(fields[k].name)
        && forall j :: 0 <= j < k ==> Encodable(fields[j], vals)
  {
    if fields != [] {
      EncodeFieldOutcome(fields[0], vals);
      EncodeFieldsOutcome(fields[1..], vals);
      assert forall k :: 1 <= k < |fields| ==> fields[1..][k - 1] == fields[k];
      if EncodeFields(fields, vals).Failure? && Encodable(fields[0], vals) {
        var k :| 0 <= k < |fields[1..]| && !Encodable(fields[1..][k], vals)
          && EncodeFields(fields[1..], vals).error == BadProperty(fields[1..][k].name)
          && forall j :: 0 <= j < k ==> Encodable(fields[1..][j], vals);
        assert !Encodable(fields[k + 1], vals);
      }
    }
  }

  lemma {:induction false} EncodeFieldsLength(fields: seq<Field>, vals: Values)
    ensures EncodeFields(fields, vals).Success? ==> |EncodeFields(fields, vals).value| == Widths(fields)
  {
    if fields != [] && EncodeFields(fields, vals).Success? {
      EncodeFieldWidth(fields[0], vals);
      EncodeFieldsLength(fields[1..], vals);
    }
  }

  /** The encoding of field k sits at the sum of the widths before it. */
  lemma {:induction false} EncodeFieldsSlot(fields: seq<Field>, vals: Values, k: nat)
    requires EncodeFields(fields, vals).Success? && k < |fields|
    ensures EncodeField(fields[k], vals).Success?
    ensures Widths(fields[..k]) + ReadWidth(fields[k].wt) <= |EncodeFields(fields, vals).value|
    ensures EncodeFields(fields, vals).value[Widths(fields[..k])..Widths(fields[..k]) + ReadWidth(fields[k].wt)]
      == EncodeField(fields[k], vals).value
  {
    EncodeFieldWidth(fields[0], vals);
    var head := EncodeField(fields[0], vals).value;
    var tail := EncodeFields(fields[1..], vals).value;
    assert EncodeFields(fields, vals).value == head + tail;
    if k == 0 {
      assert fields[..0] == [];
    } else {
      var rest := fields[1..];
      EncodeFieldsSlot(rest, vals, k - 1);
      assert rest[k - 1] == fields[k];
      assert fields[..k][1..] == rest[..k - 1];
      var lo := Widths(rest[..k - 1]);
      assert Widths(fields[..k]) == |head| + lo;
      SliceAfter(head, tail, lo, lo + ReadWidth(fields[k].wt));
    }
  }

  /** Marshal's output is exactly the record's fixed size long. */
  lemma MarshaledLength(decls: seq<FieldDecl>, vals: Values)
    requires Marshaled(decls, vals).Success?
    ensures MetaOf(decls).Success?
    ensures |Marshaled(decls, vals).value| == MetaOf(decls).value.size
  {
    var m := MetaOf(decls).value;
    MetaOfSuccess(decls);
    MetaFieldsWellSized(decls);
    WidthsOfWellSized(m.fields);
    EncodeFieldsSpec(m.fields, vals);
  }

  /** Marshal fails on an unknown wire type, or on the first wire field whose
      value its primitive cannot read; otherwise it succeeds. */
  lemma MarshaledOutcome(decls: seq<FieldDecl>, vals: Values)
    ensures MetaOf(decls).Failure? ==> Marshaled(decls, vals) == Failure(MetaOf(decls).error)
    ensures MetaOf(decls).Success? ==>
      (Marshaled(decls, vals).Success? <==>
        forall k :: 0 <= k < |MetaOf(decls).value.fields| ==> Encodable(MetaOf(decls).value.fields[k], vals))
  {
    if MetaOf(decls).Success? {
      EncodeFieldsSpec(MetaOf(decls).value.fields, vals);
    }
  }

  /** Every pointer slot of the output holds eight zero bytes, whatever the
      pointer field holds. */
  lemma MarshaledPointerSlots(decls: seq<FieldDecl>, vals: Values, k: nat)
    requires Marshaled(decls, vals).Success?
    requires k < |MetaOf(decls).value.fields| && IsPointer(MetaOf(decls).value.fields[k])
    ensures var fields := MetaOf(decls).value.fields;
      Offset(fields, k) + 8 <= |Marshaled(decls, vals).value|
      && Marshaled(decls, vals).value[Offset(fields, k)..Offset(fields, k) + 8] == Zeros(8)
  {
    var fields := MetaOf(decls).value.fields;
    MetaFieldsWellSized(decls);
    assert AllWellSized(fields[..k]) by {
      forall j | 0 <= j < k ensures WellSized(fields[..k][j].wt) {
        assert fields[..k][j] == fields[j];
      }
    }
    WidthsOfWellSized(fields[..k]);
    EncodeFieldsSlot(fields, vals, k);
    EncodeFieldSpec(fields[k], vals);
  }

  /** Every unsigned slot holds the field's value modulo 2^(8 * width), and
      every double slot the double's bit pattern, at the field's offset. */
  lemma MarshaledScalarSlots(decls: seq<FieldDecl>, vals: Values, k: nat)
    requires Marshaled(decls, vals).Success?
    requires k < |MetaOf(decls).value.fields| && !IsPointer(MetaOf(decls).value.fields[k])
    ensures var f := MetaOf(decls).value.fields[k];
      var lo := Offset(MetaOf(decls).value.fields, k);
      && lo + f.wt.size <= |Marshaled(decls, vals).value|
      && f.name in vals
      && (f.wt.kind == Unsigned ==>
            && vals[f.name].UintValue?
            && LeValue(Marshaled(decls, vals).value[lo..lo + f.wt.size]) == vals[f.name].u % Pow256(f.wt.size))
      && (f.wt.kind == Double ==>
            && vals[f.name].FloatValue?
            && LeValue(Marshaled(decls, vals).value[lo..lo + f.wt.size]) == vals[f.name].bits)
  {
    var fields := MetaOf(decls).value.fields;
    MetaFieldsWellSized(decls);
    assert Marshaled(decls, vals) == EncodeFields(fields, vals);
    EncodeFieldsScalarAt(fields, vals, k);
  }

  /** The same for a list of catalogue fields and its encoding. */
  lemma EncodeFieldsScalarAt(fields: seq<Field>, vals: Values, k: nat)
    requires EncodeFields(fields, vals).Success? && AllWellSized(fields)
    requires k < |fields| && !IsPointer(fields[k])
    ensures var f := fields[k];
      var lo := Offset(fields, k);
      var out := EncodeFields(fields, vals).value;
      && lo + f.wt.size <= |out|
      && f.name in vals
      && (f.wt.kind == Unsigned ==>
            && vals[f.name].UintValue?
            && LeValue(out[lo..lo + f.wt.size]) == vals[f.name].u % Pow256(f.wt.size))
      && (f.wt.kind == Double ==>
            && vals[f.name].FloatValue?
            && LeValue(out[lo..lo + f.wt.size]) == vals[f.name].bits)
  {
    var f := fields[k];
    assert AllWellSized(fields[..k]) by {
      forall j | 0 <= j < k ensures WellSized(fields[..k][j].wt) {
        assert fields[..k][j] == fields[j];
      }
    }
    WidthsOfWellSized(fields[..k]);
    EncodeFieldsSlot(fields, vals, k);
    EncodeFieldOutcome(f, vals);
    assert ReadWidth(f.wt) == f.wt.size;
    if f.wt.kind == Unsigned {
      EncodeUnsignedValue(f, vals);
    } else {
      EncodeDoubleValue(f, vals);
    }
  }

  /** Two records that agree on every field an unsigned or double slot reads
      encode the same: pointer fields, and fields off the wire, have no say. */
  lemma {:induction false} EncodeFieldsOnlyScalars(fields: seq<Field>, a: Values, b: Values)
    requires forall k :: 0 <= k < |fields| && !IsPointer(fields[k]) ==>
      (fields[k].name in a <==> fields[k].name in b)
      && (fields[k].name in a ==> a[fields[k].name] == b[fields[k].name])
    ensures EncodeFields(fields, a) == EncodeFields(fields, b)
  {
    if fields != [] {
      assert forall k :: 0 <= k < |fields[1..]| ==> fields[1..][k] == fields[k + 1];
      EncodeFieldsOnlyScalars(fields[1..], a, b);
    }
  }

  /** Whatever a pointer field holds, Marshal writes the same bytes, as long as
      no unsigned or double field shares its name. */
  lemma MarshaledIgnoresPointerValue(decls: seq<FieldDecl>, vals: Values, name: string, v: Value)
    requires MetaOf(decls).Success?
    requires var fs := MetaOf(decls).value.fields;
      forall k :: 0 <= k < |fs| && fs[k].name == name ==> IsPointer(fs[k])
    ensures Marshaled(decls, vals[name := v]) == Marshaled(decls, vals)
  {
    EncodeFieldsOnlyScalars(MetaOf(decls).value.fields, vals[name := v], vals);
  }

  /** One more encodable field appends its bytes to the encoding. */
  lemma {:induction false} EncodeFieldsSnoc(a: seq<Field>, f: Field, vals: Values)
    requires EncodeFields(a, vals).Success? && EncodeField(f, vals).Success?
    ensures EncodeFields(a + [f], vals) == Success(EncodeFields(a, vals).value + EncodeField(f, vals).value)
  {
    if a == [] {
      assert a + [f] == [f];
      assert [f][1..] == [];
      assert EncodeFields([f], vals) == Success(EncodeField(f, vals).value + []);
      assert EncodeField(f, vals).value + [] == [] + EncodeField(f, vals).value;
    } else {
      var af := a + [f];
      assert af[0] == a[0];
      assert af[1..] == a[1..] + [f];
      EncodeFieldsSnoc(a[1..], f, vals);
      var h := EncodeField(a[0], vals).value;
      var t := EncodeFields(a[1..], vals).value;
      assert h + (t + EncodeField(f, vals).value) == (h + t) + EncodeField(f, vals).value;
    }
  }

  /** The first field that does not encode is where the whole encoding stops,
      with that field's failure. */
  lemma {:induction false} EncodeFieldsStopsAt(fields: seq<Field>, vals: Values, i: nat)
    requires i < |fields| && EncodeFields(fields[..i], vals).Success? && EncodeField(fields[i], vals).Failure?
    ensures EncodeFields(fields, vals) == Failure(EncodeField(fields[i], vals).error)
  {
    if i > 0 {
      assert fields[..i][0] == fields[0] && fields[..i][1..] == fields[1..][..i - 1];
      assert fields[1..][i - 1] == fields[i];
      EncodeFieldsStopsAt(fields[1..], vals, i - 1);
    }
  }
}
