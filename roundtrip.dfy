/** Marshal and Unmarshal against each other: decoding an encoded record
    restores its scalar fields, and encoding a decoded block gives the block
    back with its pointer slots cleared. */
module RoundTrip {
  import opened Wire
  import opened Errors
  import opened WinTypes
  import opened Meta
  import opened Values
  import opened NativeMemory
  import opened Decoding
  import opened Encoding

  /** No two wire fields write the same property. */
  predicate DistinctFieldNames(fields: seq<Field>)
  {
    forall i, j :: 0 <= i < j < |fields| ==> fields[i].name != fields[j].name
  }

  lemma DistinctFieldNamesTail(fields: seq<Field>)
    requires fields != [] && DistinctFieldNames(fields)
    ensures DistinctFieldNames(fields[1..])
    ensures forall k :: 0 <= k < |fields[1..]| ==> fields[1..][k].name != fields[0].name
  {
    forall i, j | 0 <= i < j < |fields[1..]|
      ensures fields[1..][i].name != fields[1..][j].name
    {
      assert fields[1..][i] == fields[i + 1] && fields[1..][j] == fields[j + 1];
    }
    forall k | 0 <= k < |fields[1..]|
      ensures fields[1..][k].name != fields[0].name
    {
      assert fields[1..][k] == fields[k + 1];
    }
  }

  lemma AllWellSizedTail(fields: seq<Field>)
    requires fields != [] && AllWellSized(fields)
    ensures AllWellSized(fields[1..])
  {
    forall k | 0 <= k < |fields[1..]| ensures WellSized(fields[1..][k].wt) {
      assert fields[1..][k] == fields[k + 1];
    }
  }

  /** What a wire field of x holds once it has travelled through the block
      into a record that held y: the unsigned value cut to the field's width,
      the double's bit pattern, and for a pointer the value y held. */
  ghost predicate Restored(f: Field, x: Values, y: Values, r: Values)
  {
    f.name in x && f.name in y && f.name in r &&
    match f.wt.kind
    case Unsigned => x[f.name].UintValue? && r[f.name].UintValue? && r[f.name].u == x[f.name].u % Pow256(f.wt.size)
    case Double => r[f.name] == x[f.name]
    case _ => r[f.name] == y[f.name]
  }

  /** One wire field: its bytes, decoded into y, give y with that field
      restored and nothing else changed. */
  lemma DecodeEncodedField(f: Field, x: Values, y: Values, rest: seq<Byte>, mem: Memory)
    requires WellSized(f.wt) && f.name in x
    requires EncodeField(f, x).Success? && SameShape(x, y)
    ensures var d := DecodeField(f, EncodeField(f, x).value + rest, mem, y);
      && d.Success?
      && d.value.rest == rest
      && SameShape(y, d.value.vals)
      && Restored(f, x, y, d.value.vals)
      && (forall n :: n in y && n != f.name ==> d.value.vals[n] == y[n])
  {
    EncodeFieldSpec(f, x);
    var head := EncodeField(f, x).value;
    var w := ReadWidth(f.wt);
    assert (head + rest)[w..] == rest;
    ReadUintPrefix(head, rest, w);
    assert head + [] == head;
    if f.wt.kind == Unsigned {
      ReadUintOfLeBytes(x[f.name].u, w, []);
    } else if f.wt.kind == Double {
      ReadUintOfLeBytes(x[f.name].bits, 8, []);
      Pow256Eight();
    } else {
      ZeroWord();
      assert Take(head, 8) == head;
      assert ReadUint(head, w) == 0;
    }
    DecodeFieldFrame(f, head + rest, mem, y);
  }

  /** Decoding the encoding of x's wire fields, followed by any tail, into a
      record y of the same shape succeeds, leaves the tail unread, restores
      every wire field as Restored says and leaves every other property of y
      as it was. */
  lemma {:induction false} DecodeEncodedFields(fields: seq<Field>, x: Values, y: Values, tail: seq<Byte>, mem: Memory)
    requires AllWellSized(fields) && DistinctFieldNames(fields)
    requires EncodeFields(fields, x).Success? && SameShape(x, y)
    requires forall k :: 0 <= k < |fields| ==> fields[k].name in x
    ensures var r := DecodeFields(fields, EncodeFields(fields, x).value + tail, mem, y);
      && r.Success?
      && r.value.rest == tail
      && SameShape(y, r.value.vals)
      && (forall k :: 0 <= k < |fields| ==> Restored(fields[k], x, y, r.value.vals))
      && (forall n :: n in y && (forall k :: 0 <= k < |fields| ==> fields[k].name != n) ==> r.value.vals[n] == y[n])
  {
    if fields == [] {
      assert EncodeFields(fields, x).value + tail == tail;
    } else {
      var f := fields[0];
      var head := EncodeField(f, x).value;
      var more := EncodeFields(fields[1..], x).value;
      assert EncodeFields(fields, x).value + tail == head + (more + tail);
      DecodeEncodedField(f, x, y, more + tail, mem);
      var y1 := DecodeField(f, head + (more + tail), mem, y).value.vals;
      DistinctFieldNamesTail(fields);
      AllWellSizedTail(fields);
      assert forall k :: 0 <= k < |fields[1..]| ==> fields[1..][k] == fields[k + 1];
      DecodeEncodedFields(fields[1..], x, y1, tail, mem);
      var r := DecodeFields(fields[1..], more + tail, mem, y1).value.vals;
      RestoredCons(fields, x, y, y1, r);
    }
  }

  /** Restoring the first field into y and then the others into the result
      restores them all into y. */
  lemma RestoredCons(fields: seq<Field>, x: Values, y: Values, y1: Values, r: Values)
    requires fields != [] && DistinctFieldNames(fields)
    requires Restored(fields[0], x, y, y1) && SameShape(y, y1) && SameShape(y1, r)
    requires forall n :: n in y && n != fields[0].name ==> y1[n] == y[n]
    requires forall k :: 0 <= k < |fields[1..]| ==> Restored(fields[1..][k], x, y1, r)
    requires forall n :: n in y1 && (forall k :: 0 <= k < |fields[1..]| ==> fields[1..][k].name != n) ==> r[n] == y1[n]
    ensures forall k :: 0 <= k < |fields| ==> Restored(fields[k], x, y, r)
    ensures forall n :: n in y && (forall k :: 0 <= k < |fields| ==> fields[k].name != n) ==> r[n] == y[n]
  {
    DistinctFieldNamesTail(fields);
    forall k | 0 <= k < |fields|
      ensures Restored(fields[k], x, y, r)
    {
      if k > 0 {
        assert fields[1..][k - 1] == fields[k];
        assert Restored(fields[1..][k - 1], x, y1, r);
      }
    }
    forall n | n in y && (forall k :: 0 <= k < |fields| ==> fields[k].name != n)
      ensures r[n] == y[n]
    {
      assert fields[0].name != n;
      forall k | 0 <= k < |fields[1..]| ensures fields[1..][k].name != n {
        assert fields[1..][k] == fields[k + 1];
      }
    }
  }

  /** The wire fields of a record type with distinct field names have
      distinct names too, and each is a declared field. */
  lemma MetaFieldNames(decls: seq<FieldDecl>)
    requires MetaOf(decls).Success?
    ensures forall k :: 0 <= k < |MetaOf(decls).value.fields| ==> MetaOf(decls).value.fields[k].name in Names(decls)
    ensures DistinctNames(decls) ==> DistinctFieldNames(MetaOf(decls).value.fields)
  {
    var fields := MetaOf(decls).value.fields;
    MetaOfSuccess(decls);
    WiredDistinct(decls);
    assert forall k :: 0 <= k < |fields| ==> fields[k].name == Wired(decls)[k].name;
    forall k | 0 <= k < |fields| ensures fields[k].name in Names(decls) {
      assert Wired(decls)[k] in decls;
    }
  }

  /** Unmarshal after Marshal: the bytes Marshal writes for x, followed by any
      tail, decode into a record y of the same shape without error, consume
      exactly the fixed block, restore each wire field as Restored says, and
      leave every field off the wire as y had it. */
  lemma UnmarshalMarshaled(decls: seq<FieldDecl>, x: Values, y: Values, tail: seq<Byte>, mem: Memory)
    requires DistinctNames(decls) && Conforms(decls, x) && SameShape(x, y)
    requires Marshaled(decls, x).Success?
    ensures MetaOf(decls).Success?
    ensures var fields := MetaOf(decls).value.fields;
      var r := Unmarshaled(decls, Marshaled(decls, x).value + tail, mem, y);
      && r.Success?
      && r.value.rest == tail
      && SameShape(y, r.value.vals)
      && (forall k :: 0 <= k < |fields| ==> Restored(fields[k], x, y, r.value.vals))
      && (forall n :: n in y && (forall k :: 0 <= k < |fields| ==> fields[k].name != n) ==> r.value.vals[n] == y[n])
  {
    var fields := MetaOf(decls).value.fields;
    MarshaledLength(decls, x);
    MetaFieldsWellSized(decls);
    MetaFieldNames(decls);
    DecodeEncodedFields(fields, x, y, tail, mem);
  }

  /** A field 8 bytes wide survives the round trip unchanged: no unsigned
      value is cut, and a double keeps its bit pattern. */
  lemma FullWidthRestored(f: Field, x: Values, y: Values, r: Values)
    requires Restored(f, x, y, r) && f.wt.size == 8 && !IsPointer(f)
    ensures r[f.name] == x[f.name]
  {
    Pow256Eight();
  }

  /** The block with every pointer slot replaced by eight zero bytes. */
  function Masked(fields: seq<Field>, block: seq<Byte>): (r: seq<Byte>)
    requires Widths(fields) <= |block|
  {
    if fields == [] then []
    else
      var w := ReadWidth(fields[0].wt);
      (if IsPointer(fields[0]) then Zeros(8) else block[..w]) + Masked(fields[1..], block[w..])
  }

  /** Without pointer fields nothing is masked. */
  lemma {:induction false} MaskedNoPointers(fields: seq<Field>, block: seq<Byte>)
    requires Widths(fields) <= |block|
    requires forall k :: 0 <= k < |fields| ==> !IsPointer(fields[k])
    ensures Masked(fields, block) == block[..Widths(fields)]
  {
    if fields != [] {
      var w := ReadWidth(fields[0].wt);
      assert forall k :: 0 <= k < |fields[1..]| ==> fields[1..][k] == fields[k + 1];
      MaskedNoPointers(fields[1..], block[w..]);
      assert block[..w] + block[w..][..Widths(fields[1..])] == block[..Widths(fields)];
    }
  }

  /** Marshal after Unmarshal, field by field: encoding the values decoded
      from a block gives the block back with its pointer slots cleared. */
  lemma {:induction false} EncodeDecodedFields(fields: seq<Field>, block: seq<Byte>, mem: Memory, y: Values)
    requires AllWellSized(fields) && DistinctFieldNames(fields) && Widths(fields) <= |block|
    requires DecodeFields(fields, block, mem, y).Success?
    ensures EncodeFields(fields, DecodeFields(fields, block, mem, y).value.vals) == Success(Masked(fields, block))
  {
    if fields != [] {
      var f := fields[0];
      var w := ReadWidth(f.wt);
      var y1 := DecodeField(f, block, mem, y).value.vals;
      assert DecodeField(f, block, mem, y).value.rest == block[w..];
      var r := DecodeFields(fields[1..], block[w..], mem, y1).value.vals;
      DistinctFieldNamesTail(fields);
      AllWellSizedTail(fields);
      EncodeDecodedFields(fields[1..], block[w..], mem, y1);
      DecodeFieldsFrame(fields[1..], block[w..], mem, y1);
      EncodeFieldSpec(f, r);
      if !IsPointer(f) {
        assert f.name in y1;
        assert r[f.name] == y1[f.name];
        LeBytesOfValue(block[..w]);
        assert Take(block, Min(w, 8)) == block[..w];
      }
    }
  }

  /** Marshal after Unmarshal: encoding what a record's fixed block decodes
      to gives the block back with its pointer slots cleared. */
  lemma MarshalUnmarshaled(decls: seq<FieldDecl>, block: seq<Byte>, mem: Memory, y: Values)
    requires DistinctNames(decls)
    requires Unmarshaled(decls, block, mem, y).Success?
    requires |block| == MetaOf(decls).value.size
    ensures Widths(MetaOf(decls).value.fields) == |block|
    ensures Marshaled(decls, Unmarshaled(decls, block, mem, y).value.vals)
      == Success(Masked(MetaOf(decls).value.fields, block))
  {
    var fields := MetaOf(decls).value.fields;
    MetaOfSuccess(decls);
    MetaFieldsWellSized(decls);
    WidthsOfWellSized(fields);
    MetaFieldNames(decls);
    var vals := DecodeFields(fields, block, mem, y).value.vals;
    assert Unmarshaled(decls, block, mem, y).value.vals == vals;
    EncodeDecodedFields(fields, block, mem, y);
  }

  /** For a record type without pointer fields, Marshal after Unmarshal gives
      back the very block that was decoded. */
  lemma MarshalUnmarshaledScalars(decls: seq<FieldDecl>, block: seq<Byte>, mem: Memory, y: Values)
    requires DistinctNames(decls)
    requires Unmarshaled(decls, block, mem, y).Success?
    requires |block| == MetaOf(decls).value.size
    requires forall k :: 0 <= k < |MetaOf(decls).value.fields| ==> !IsPointer(MetaOf(decls).value.fields[k])
    ensures Marshaled(decls, Unmarshaled(decls, block, mem, y).value.vals) == Success(block)
  {
    MarshalUnmarshaled(decls, block, mem, y);
    MaskedNoPointers(MetaOf(decls).value.fields, block);
    assert block[..|block|] == block;
  }
}
