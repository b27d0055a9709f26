/** The codec's entry points and per-type primitives, step by step: Marshal
    writes into a fresh buffer, Unmarshal consumes a shared buffer and writes
    the record's fields in place. Each is proved against the functions of
    Encoding and Decoding. */
module WinStruct {
  import opened Wire
  import opened Errors
  import opened WinTypes
  import opened Meta
  import opened Values
  import opened ByteBuffer
  import opened Primitives
  import opened NativeMemory
  import opened Decoding
  import opened Encoding

  /** The ToBytes primitive of a wire field: uint16ToBytes, uint32ToBytes and
      uint64ToBytes read the unsigned value, float64ToBytes the double's bits,
      and the two pointer primitives write a null pointer. */
  method FieldToBytes(f: Field, r: Record) returns (res: Result<seq<Byte>>)
    ensures res == EncodeField(f, r.values)
  {
    match f.wt.kind
    case Unsigned =>
      var v := UintProperty(r.values, f.name);
      if v.Failure? {
        return Failure(v.error);
      }
      var a := UintToBytes(v.value, f.wt.size);
      res := Success(a[..]);
    case Double =>
      var v := FloatProperty(r.values, f.name);
      if v.Failure? {
        return Failure(v.error);
      }
      var a := UintToBytes(v.value, 8);
      res := Success(a[..]);
    case WideStringPointer =>
      var a := UintToBytes(0, 8);
      ZeroWord();
      res := Success(a[..]);
    case BytePointer =>
      var a := UintToBytes(0, 8);
      ZeroWord();
      res := Success(a[..]);
  }

  /** Marshal: a fresh buffer holding every wire field's bytes in order. */
  method Marshal(r: Record) returns (b: Buffer, ok: Outcome)
    ensures fresh(b)
    ensures ok == OutcomeOf(Marshaled(r.decls, r.values))
    ensures ok.Pass? ==> b.unread == Marshaled(r.decls, r.values).value
  {
    b := new Buffer([]);
    var m := GetMeta(r.decls);
    if m.Failure? {
      return b, Fail(m.error);
    }
    var fields := m.value.fields;
    for i := 0 to |fields|
      invariant EncodeFields(fields[..i], r.values) == Success(b.unread)
    {
      var bytes := FieldToBytes(fields[i], r);
      if bytes.Failure? {
        EncodeFieldsStopsAt(fields, r.values, i);
        return b, Fail(bytes.error);
      }
      EncodeFieldsSnoc(fields[..i], fields[i], r.values);
      assert fields[..i + 1] == fields[..i] + [fields[i]];
      b.Write(bytes.value);
    }
    assert fields[..|fields|] == fields;
    ok := Pass;
  }

  /** bytesToStringFromPointer: reads the pointer and, unless it is null,
      stores the string it points to. */
  method BytesToStringFromPointer(b: Buffer, r: Record, f: Field, mem: Memory) returns (ok: Outcome)
    requires f.wt.kind == WideStringPointer
    modifies b, r
    ensures var d := DecodeField(f, old(b.unread), mem, old(r.values));
      && ok == OutcomeOf(d)
      && (d.Success? ==> b.unread == d.value.rest && r.values == d.value.vals)
      && (d.Failure? ==> r.values == old(r.values))
  {
    var ptr := BytesToUint(b, 8);
    if ptr != 0 {
      var s := Utf16PtrToString(mem, ptr);
      if s.Failure? {
        return Fail(s.error);
      }
      ok := r.Set(f.name, StringValue(s.value));
    } else {
      ok := Pass;
    }
  }

  /** byteArrayPointerFromBytes: reads the pointer; unless it is null or the
      option is an integer literal, takes the length from the field the option
      names and copies that many bytes from the pointer. */
  method ByteArrayPointerFromBytes(b: Buffer, r: Record, f: Field, mem: Memory) returns (ok: Outcome)
    requires f.wt.kind == BytePointer
    modifies b, r
    ensures var d := DecodeField(f, old(b.unread), mem, old(r.values));
      && ok == OutcomeOf(d)
      && (d.Success? ==> b.unread == d.value.rest && r.values == d.value.vals)
      && (d.Failure? ==> r.values == old(r.values))
  {
    var ptr := BytesToUint(b, 8);
    if ptr == 0 {
      return Pass;
    }
    if IsAtoiLiteral(f.options) {
      return Pass;
    }
    var size := LengthField(r.values, f.options);
    if size.Failure? {
      return Fail(size.error);
    }
    if size.value == 0 {
      return Pass;
    }
    var end := (ptr + size.value) % TWO64;
    var data := CopyBytes(mem, ptr, end);
    if data.Failure? {
      return Fail(data.error);
    }
    ok := r.Set(f.name, BytesValue(data.value));
  }

  /** The FromBytes primitive of a wire field. */
  method FieldFromBytes(b: Buffer, r: Record, f: Field, mem: Memory) returns (ok: Outcome)
    modifies b, r
    ensures var d := DecodeField(f, old(b.unread), mem, old(r.values));
      && ok == OutcomeOf(d)
      && (d.Success? ==> b.unread == d.value.rest && r.values == d.value.vals)
      && (d.Failure? ==> r.values == old(r.values))
  {
    match f.wt.kind
    case Unsigned =>
      var v := BytesToUint(b, f.wt.size);
      ok := r.Set(f.name, UintValue(v));
    case Double =>
      var v := BytesToUint(b, 8);
      ok := r.Set(f.name, FloatValue(v));
    case WideStringPointer =>
      ok := BytesToStringFromPointer(b, r, f, mem);
    case BytePointer =>
      ok := ByteArrayPointerFromBytes(b, r, f, mem);
  }

  /** Unmarshal: checks the buffer holds the record's fixed block, then
      decodes the wire fields in order from the buffer into the record. A
      short buffer is reported before anything is read or written; the
      record remains an instance of its type whatever happens. */
  method Unmarshal(b: Buffer, r: Record, mem: Memory) returns (ok: Outcome)
    requires r.Valid()
    modifies b, r
    ensures r.Valid()
    ensures var u := Unmarshaled(r.decls, old(b.unread), mem, old(r.values));
      && ok == OutcomeOf(u)
      && (u.Success? ==> b.unread == u.value.rest && r.values == u.value.vals)
    ensures ok.Fail? && ok.error.BufferTooSmall? ==> b.unread == old(b.unread) && r.values == old(r.values)
  {
    ghost var input := b.unread;
    ghost var vals := r.values;
    var m := GetMeta(r.decls);
    if m.Failure? {
      MetaOfErrorUnknown(r.decls);
      return Fail(m.error);
    }
    if b.Len() < m.value.size {
      return Fail(BufferTooSmall(m.value.size, b.Len()));
    }
    ok := FieldsFromBytes(b, r, m.value.fields, mem);
    DecodeFieldsNeverTooSmall(m.value.fields, input, mem, vals);
  }

  /** The field loop of Unmarshal: the FromBytes primitive of each wire field
      in order, each reading where the previous one stopped; the first
      failure ends the loop. */
  method FieldsFromBytes(b: Buffer, r: Record, fields: seq<Field>, mem: Memory) returns (ok: Outcome)
    requires r.Valid()
    modifies b, r
    ensures r.Valid()
    ensures var d := DecodeFields(fields, old(b.unread), mem, old(r.values));
      && ok == OutcomeOf(d)
      && (d.Success? ==> b.unread == d.value.rest && r.values == d.value.vals)
  {
    ghost var input := b.unread;
    ghost var vals := r.values;
    for i := 0 to |fields|
      invariant DecodeFields(fields[..i], input, mem, vals) == Success(Decoded(r.values, b.unread))
      invariant r.Valid()
    {
      ghost var before := r.values;
      ghost var unread := b.unread;
      ok := FieldFromBytes(b, r, fields[i], mem);
      DecodeFieldsAppend(fields[..i], [fields[i]], input, mem, vals);
      DecodeFieldsAppend(fields[..i], fields[i..], input, mem, vals);
      assert fields[..i] + fields[i..] == fields;
      assert fields[..i + 1] == fields[..i] + [fields[i]];
      if ok.Fail? {
        return;
      }
      DecodeFieldFrame(fields[i], unread, mem, before);
      SameShapeConforms(r.decls, before, r.values);
    }
    assert fields[..|fields|] == fields;
    ok := Pass;
  }

  /** Size: the width of the record type's fixed block. */
  function Size(decls: seq<FieldDecl>): (r: Result<nat>)
    ensures r.Success? <==> MetaOf(decls).Success?
  {
    var m := MetaOf(decls);
    if m.Failure? then Failure(m.error) else Success(m.value.size)
  }

  /** NewByteBuffer: a buffer of Size zero bytes, the block of a record whose
      every field is zero. */
  method NewByteBuffer(decls: seq<FieldDecl>) returns (b: Buffer, ok: Outcome)
    ensures fresh(b)
    ensures ok == OutcomeOf(Size(decls))
    ensures ok.Pass? ==> b.unread == Zeros(Size(decls).value)
  {
    var m := GetMeta(decls);
    if m.Failure? {
      b := new Buffer([]);
      return b, Fail(m.error);
    }
    b := new Buffer(Zeros(m.value.size));
    ok := Pass;
  }

  /** The sizes of two record types add up when their fields are joined. */
  lemma SizeAdditive(a: seq<FieldDecl>, b: seq<FieldDecl>)
    requires Size(a).Success? && Size(b).Success?
    ensures Size(a + b) == Success(Size(a).value + Size(b).value)
  {
    MetaAppend(a, b);
  }

  /** Size is the length of what Marshal writes. */
  lemma SizeIsMarshaledLength(decls: seq<FieldDecl>, vals: Values)
    requires Marshaled(decls, vals).Success?
    ensures Size(decls) == Success(|Marshaled(decls, vals).value|)
  {
    MarshaledLength(decls, vals);
  }

  /** Size is the sum of the widths of the wire fields, whatever skipped
      fields lie among them. */
  lemma SizeOfWired(decls: seq<FieldDecl>)
    requires Size(decls).Success?
    ensures Size(decls) == Size(Wired(decls))
    ensures Size(decls).value == FieldsSize(MetaOf(decls).value.fields)
  {
    MetaOnlyWired(decls);
    MetaOfSuccess(decls);
  }

  /** Every unsigned wire field is declared with an unsigned Go type and
      every double with a floating-point one, so Marshal can read them. */
  predicate TagsMatchTypes(decls: seq<FieldDecl>)
  {
    forall k :: 0 <= k < |Wired(decls)| && Resolves(Wired(decls)[k]) ==>
      && (ResolveField(Wired(decls)[k]).value.wt.kind == Unsigned ==> Wired(decls)[k].goType == GoUint)
      && (ResolveField(Wired(decls)[k]).value.wt.kind == Double ==> Wired(decls)[k].goType == GoFloat)
  }

  /** Each scalar wire field holds zero. */
  predicate ZeroScalars(fields: seq<Field>, vals: Values)
  {
    forall k :: 0 <= k < |fields| ==> ZeroSlot(fields[k], vals)
  }

  /** An unsigned field holds the unsigned zero and a double field the double zero. */
  predicate ZeroSlot(f: Field, vals: Values)
  {
    && (f.wt.kind == Unsigned ==> f.name in vals && vals[f.name] == UintValue(0))
    && (f.wt.kind == Double ==> f.name in vals && vals[f.name] == FloatValue(0))
  }

  lemma {:induction false} LeBytesOfZero(s: nat)
    ensures LeBytes(0, s) == Zeros(s)
  {
    if s > 0 {
      LeBytesOfZero(s - 1);
      assert [0] + Zeros(s - 1) == Zeros(s);
    }
  }

  /** Fields that all hold zero encode as zero bytes. */
  lemma {:induction false} EncodeZeroScalars(fields: seq<Field>, vals: Values)
    requires ZeroScalars(fields, vals)
    ensures EncodeFields(fields, vals) == Success(Zeros(Widths(fields)))
  {
    if fields != [] {
      var f := fields[0];
      assert ZeroScalars(fields[1..], vals) by {
        forall k | 0 <= k < |fields[1..]| ensures fields[1..][k] == fields[k + 1] { }
      }
      EncodeZeroScalars(fields[1..], vals);
      LeBytesOfZero(ReadWidth(f.wt));
      assert Zeros(ReadWidth(f.wt)) + Zeros(Widths(fields[1..])) == Zeros(Widths(fields));
    }
  }

  /** The zero buffer NewByteBuffer makes is what Marshal writes for the
      record whose every field is zero, when tags and Go types agree. */
  lemma NewBufferIsMarshaledZero(decls: seq<FieldDecl>)
    requires DistinctNames(decls) && TagsMatchTypes(decls) && Size(decls).Success?
    ensures Marshaled(decls, ZeroValues(decls)) == Success(Zeros(Size(decls).value))
  {
    var fields := MetaOf(decls).value.fields;
    var z := ZeroValues(decls);
    MetaFieldsFit(decls);
    WidthsOfWellSized(fields);
    MetaZeroScalars(decls);
    assert Marshaled(decls, z) == EncodeFields(fields, z);
    EncodeZeroScalars(fields, z);
  }

  /** In the zero record of such a type every scalar wire field holds zero. */
  lemma MetaZeroScalars(decls: seq<FieldDecl>)
    requires DistinctNames(decls) && TagsMatchTypes(decls) && MetaOf(decls).Success?
    ensures ZeroScalars(MetaOf(decls).value.fields, ZeroValues(decls))
  {
    var fields := MetaOf(decls).value.fields;
    MetaOfSuccess(decls);
    WiredDistinct(decls);
    forall k | 0 <= k < |fields|
      ensures ZeroSlot(fields[k], ZeroValues(decls))
    {
      var d := Wired(decls)[k];
      assert d in decls && Resolves(d);
      ZeroSlotOf(decls, d, fields[k]);
    }
  }

  /** A declaration of the type whose Go type matches its wire type holds
      the right zero in the zero record. */
  lemma ZeroSlotOf(decls: seq<FieldDecl>, d: FieldDecl, f: Field)
    requires DistinctNames(decls) && d in decls && f.name == d.name
    requires f.wt.kind == Unsigned ==> d.goType == GoUint
    requires f.wt.kind == Double ==> d.goType == GoFloat
    ensures ZeroSlot(f, ZeroValues(decls))
  {
    ZeroValuesConform(decls);
  }
}
