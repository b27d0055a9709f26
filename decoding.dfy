/** What Unmarshal computes: the record values after each wire field has been
    read from the front of the block, and the bytes left unread. */
module Decoding {
  import opened Wire
  import opened Errors
  import opened WinTypes
  import opened Meta
  import opened Values
  import opened NativeMemory

  datatype Decoded = Decoded(vals: Values, rest: seq<Byte>)

  /** The bytes the primitive of a wire type reads and writes: the width of
      an unsigned type, and a 64-bit word for doubles and pointers. */
  function ReadWidth(wt: WinType): (w: nat)
    ensures WellSized(wt) ==> w == wt.size
  {
    if wt.kind == Unsigned then wt.size else 8
  }

  const TWO63: int := 0x8000_0000_0000_0000

  /** The decimal value of a run of digits. */
  function DecimalValue(s: string): nat
  {
    if s == [] then 0
    else
      var d := s[|s| - 1];
      var digit := if '0' <= d <= '9' then (d as int) - ('0' as int) else 0;
      DecimalValue(s[..|s| - 1]) * 10 + digit
  }

  predicate AllDigits(s: string)
  {
    forall i :: 0 <= i < |s| ==> '0' <= s[i] <= '9'
  }

  /** strconv.Atoi accepts the option: an optional sign, at least one decimal
      digit, and a value inside the 64-bit int range. */
  predicate IsAtoiLiteral(s: string)
  {
    var signed := |s| > 0 && (s[0] == '+' || s[0] == '-');
    var digits := if signed then s[1..] else s;
    && |digits| > 0
    && AllDigits(digits)
    && (if signed && s[0] == '-' then DecimalValue(digits) <= TWO63 else DecimalValue(digits) < TWO63)
  }

  /** int(u) for a uint64 u: the same 64 bits read as a signed number. */
  function AsGoInt(u: U64): (r: int)
    ensures -TWO63 <= r < TWO63
    ensures r % TWO64 == u
  {
    if u < TWO63 then u else u - TWO64
  }

  /** The length a byte-pointer field takes from the field its option names:
      that field's current value, which must be a signed or unsigned integer. */
  function LengthField(vals: Values, name: string): (r: Result<int>)
    ensures r.Success? <==> name in vals && (vals[name].UintValue? || vals[name].IntValue?)
    ensures r.Failure? ==> r.error == (if name in vals then NotAnInteger(name) else FieldNotFound(name))
    ensures r.Success? ==> r.value % TWO64 == (if vals[name].UintValue? then vals[name].u else vals[name].i % TWO64)
    ensures r.Success? ==> (r.value == 0 <==> vals[name] == UintValue(0) || vals[name] == IntValue(0))
  {
    if name !in vals then Failure(FieldNotFound(name))
    else match vals[name]
      case UintValue(u) => Success(AsGoInt(u))
      case IntValue(i) => Success(i)
      case _ => Failure(NotAnInteger(name))
  }

  /** The number of addresses the copy loop visits: from ptr up to ptr + size
      in 64-bit pointer arithmetic, which wraps around; none when the end does
      not lie above ptr. */
  function CopyLength(ptr: U64, size: int): nat
  {
    var end := (ptr + size) % TWO64;
    if end > ptr then end - ptr else 0
  }

  /** When ptr + size does not wrap, the loop copies exactly size bytes. */
  lemma CopyLengthNoWrap(ptr: U64, size: int)
    requires 0 <= size && ptr + size < TWO64
    ensures CopyLength(ptr, size) == size
  {
  }

  /** A negative length, or one that carries the end past 2^64, copies less
      than requested: never more than the addresses left above ptr. */
  lemma CopyLengthBound(ptr: U64, size: int)
    ensures CopyLength(ptr, size) < TWO64 - ptr
    ensures size <= 0 && ptr + size >= 0 ==> CopyLength(ptr, size) == 0
  {
  }

  function WithRest(r: Result<Values>, rest: seq<Byte>): Result<Decoded>
  {
    if r.Failure? then Failure(r.error) else Success(Decoded(r.value, rest))
  }

  /** The FromBytes primitive of one wire field: it reads the field's word from
      the front of input, whatever happens next, and stores what the word
      means into the field's property. */
  function DecodeField(f: Field, input: seq<Byte>, mem: Memory, vals: Values): Result<Decoded>
  {
    var w := ReadWidth(f.wt);
    var raw := ReadUint(input, w);
    var rest := Drop(input, w);
    match f.wt.kind
    case Unsigned => WithRest(SetProperty(vals, f.name, UintValue(raw)), rest)
    case Double => WithRest(SetProperty(vals, f.name, FloatValue(raw)), rest)
    case WideStringPointer =>
      if raw == 0 then Success(Decoded(vals, rest))
      else
        var s := WideStringAt(mem, raw);
        if s.Failure? then Failure(s.error)
        else WithRest(SetProperty(vals, f.name, StringValue(s.value)), rest)
    case BytePointer =>
      if raw == 0 || IsAtoiLiteral(f.options) then Success(Decoded(vals, rest))
      else
        var len := LengthField(vals, f.options);
        if len.Failure? then Failure(len.error)
        else if len.value == 0 then Success(Decoded(vals, rest))
        else
          var data := BytesAt(mem, raw, CopyLength(raw, len.value));
          if data.Failure? then Failure(data.error)
          else WithRest(SetProperty(vals, f.name, BytesValue(data.value)), rest)
  }

  /** The fields decoded in order, each from where the previous one stopped,
      each seeing the values the earlier ones stored. */
  function DecodeFields(fields: seq<Field>, input: seq<Byte>, mem: Memory, vals: Values): Result<Decoded>
  {
    if fields == [] then Success(Decoded(vals, input))
    else
      var d := DecodeField(fields[0], input, mem, vals);
      if d.Failure? then d
      else DecodeFields(fields[1..], d.value.rest, mem, d.value.vals)
  }

  /** Unmarshal: the record type's metadata, the size check on the whole
      buffer, then the fields in order. */
  function Unmarshaled(decls: seq<FieldDecl>, input: seq<Byte>, mem: Memory, vals: Values): Result<Decoded>
  {
    var m := MetaOf(decls);
    if m.Failure? then Failure(m.error)
    else if |input| < m.value.size then Failure(BufferTooSmall(m.value.size, |input|))
    else DecodeFields(m.value.fields, input, mem, vals)
  }

  /** Every wire field of the list has a catalogue width. */
  predicate AllWellSized(fields: seq<Field>)
  {
    forall k :: 0 <= k < |fields| ==> WellSized(fields[k].wt)
  }

  /** The fields of a record type's metadata are catalogue entries. */
  lemma MetaFieldsWellSized(decls: seq<FieldDecl>)
    requires MetaOf(decls).Success?
    ensures AllWellSized(MetaOf(decls).value.fields)
  {
    var m := MetaOf(decls).value;
    MetaOfSuccess(decls);
    CatalogueWellSized();
    forall k | 0 <= k < |m.fields|
      ensures WellSized(m.fields[k].wt)
    {
      var d := Wired(decls)[k];
      var (name, _) := ParseTag(d.tag);
      LookupSound(Catalogue, name);
    }
  }

  /** The fields of a record type's metadata are catalogue entries whose
      widths add up to the block size. */
  lemma MetaFieldsFit(decls: seq<FieldDecl>)
    requires MetaOf(decls).Success?
    ensures AllWellSized(MetaOf(decls).value.fields)
    ensures MetaOf(decls).value.size == FieldsSize(MetaOf(decls).value.fields)
  {
    MetaOfSuccess(decls);
    MetaFieldsWellSized(decls);
  }

  /** One field consumes exactly its width, and its outcome depends on no
      byte beyond it. */
  lemma DecodeFieldPrefix(f: Field, block: seq<Byte>, tail: seq<Byte>, mem: Memory, vals: Values)
    requires WellSized(f.wt) && f.wt.size <= |block|
    ensures DecodeField(f, block, mem, vals).Success? ==>
      DecodeField(f, block, mem, vals).value.rest == block[f.wt.size..]
    ensures DecodeField(f, block + tail, mem, vals) ==
      if DecodeField(f, block, mem, vals).Failure? then DecodeField(f, block, mem, vals)
      else Success(Decoded(DecodeField(f, block, mem, vals).value.vals, block[f.wt.size..] + tail))
  {
    ReadUintPrefix(block, tail, f.wt.size);
  }

  /** The fields consume exactly the sum of their widths from any input that
      holds them all, and bytes after those play no part: decoding the
      block followed by anything leaves that anything unread. */
  lemma {:induction false} DecodeFieldsPrefix(fields: seq<Field>, block: seq<Byte>, tail: seq<Byte>, mem: Memory, vals: Values)
    requires AllWellSized(fields) && FieldsSize(fields) <= |block|
    ensures DecodeFields(fields, block, mem, vals).Success? ==>
      DecodeFields(fields, block, mem, vals).value.rest == block[FieldsSize(fields)..]
    ensures DecodeFields(fields, block + tail, mem, vals) ==
      if DecodeFields(fields, block, mem, vals).Failure? then DecodeFields(fields, block, mem, vals)
      else Success(Decoded(DecodeFields(fields, block, mem, vals).value.vals, block[FieldsSize(fields)..] + tail))
  {
    if fields == [] {
      assert block + tail == block[0..] + tail;
    } else {
      var f := fields[0];
      DecodeFieldPrefix(f, block, tail, mem, vals);
      var d := DecodeField(f, block, mem, vals);
      if d.Success? {
        var rest := block[f.wt.size..];
        assert AllWellSized(fields[1..]) by {
          forall k | 0 <= k < |fields[1..]| ensures WellSized(fields[1..][k].wt) {
            assert fields[1..][k] == fields[k + 1];
          }
        }
        DecodeFieldsPrefix(fields[1..], rest, tail, mem, d.value.vals);
        assert rest[FieldsSize(fields[1..])..] == block[FieldsSize(fields)..];
      }
    }
  }

  /** The size check is the only source of BufferTooSmall: Unmarshal reports it
      exactly when the type's metadata is sound and the input is shorter than
      its fixed block, and then with the two sizes. */
  lemma UnmarshaledTooSmall(decls: seq<FieldDecl>, input: seq<Byte>, mem: Memory, vals: Values)
    ensures (Unmarshaled(decls, input, mem, vals).Failure? && Unmarshaled(decls, input, mem, vals).error.BufferTooSmall?)
      <==> MetaOf(decls).Success? && |input| < MetaOf(decls).value.size
    ensures MetaOf(decls).Success? && |input| < MetaOf(decls).value.size ==>
      Unmarshaled(decls, input, mem, vals) == Failure(BufferTooSmall(MetaOf(decls).value.size, |input|))
  {
    if MetaOf(decls).Success? && |input| >= MetaOf(decls).value.size {
      DecodeFieldsNeverTooSmall(MetaOf(decls).value.fields, input, mem, vals);
    } else if MetaOf(decls).Failure? {
      MetaOfErrorUnknown(decls);
    }
  }

  lemma DecodeFieldNeverTooSmall(f: Field, input: seq<Byte>, mem: Memory, vals: Values)
    ensures DecodeField(f, input, mem, vals).Failure? ==> !DecodeField(f, input, mem, vals).error.BufferTooSmall?
  {
    var raw := ReadUint(input, ReadWidth(f.wt));
    WideStringAtFault(mem, raw);
    if f.wt.kind == BytePointer && raw != 0 && !IsAtoiLiteral(f.options) {
      var len := LengthField(vals, f.options);
      if len.Success? && len.value != 0 {
        var data := BytesAt(mem, raw, CopyLength(raw, len.value));
      }
    }
  }

  /** No field decoder reports a short buffer. */
  lemma {:induction false} DecodeFieldsNeverTooSmall(fields: seq<Field>, input: seq<Byte>, mem: Memory, vals: Values)
    ensures DecodeFields(fields, input, mem, vals).Failure? ==> !DecodeFields(fields, input, mem, vals).error.BufferTooSmall?
  {
    if fields != [] {
      var d := DecodeField(fields[0], input, mem, vals);
      DecodeFieldNeverTooSmall(fields[0], input, mem, vals);
      if d.Success? {
        DecodeFieldsNeverTooSmall(fields[1..], d.value.rest, mem, d.value.vals);
      }
    }
  }

  /** A successful Unmarshal consumes exactly the record's fixed size and
      leaves the rest of the buffer unread. */
  lemma UnmarshaledConsumesSize(decls: seq<FieldDecl>, input: seq<Byte>, mem: Memory, vals: Values)
    requires Unmarshaled(decls, input, mem, vals).Success?
    ensures MetaOf(decls).Success? && MetaOf(decls).value.size <= |input|
    ensures Unmarshaled(decls, input, mem, vals).value.rest == input[MetaOf(decls).value.size..]
  {
    var m := MetaOf(decls).value;
    MetaFieldsWellSized(decls);
    MetaOfSuccess(decls);
    DecodeFieldsPrefix(m.fields, input, [], mem, vals);
  }

  /** Unmarshal reads only the record's fixed block: decoding a block followed
      by further bytes gives the same values and leaves those bytes unread. */
  lemma UnmarshaledPrefix(decls: seq<FieldDecl>, block: seq<Byte>, tail: seq<Byte>, mem: Memory, vals: Values)
    requires MetaOf(decls).Success? && |block| == MetaOf(decls).value.size
    ensures Unmarshaled(decls, block + tail, mem, vals) ==
      if Unmarshaled(decls, block, mem, vals).Failure? then Unmarshaled(decls, block, mem, vals)
      else Success(Decoded(Unmarshaled(decls, block, mem, vals).value.vals, tail))
  {
    var m := MetaOf(decls).value;
    MetaFieldsWellSized(decls);
    MetaOfSuccess(decls);
    DecodeFieldsPrefix(m.fields, block, tail, mem, vals);
    assert Unmarshaled(decls, block + tail, mem, vals) == DecodeFields(m.fields, block + tail, mem, vals);
    assert Unmarshaled(decls, block, mem, vals) == DecodeFields(m.fields, block, mem, vals);
    assert block[|block|..] + tail == tail;
  }

  /** A single field changes no property but its own, and keeps every
      property's Go type. */
  lemma DecodeFieldFrame(f: Field, input: seq<Byte>, mem: Memory, vals: Values)
    requires DecodeField(f, input, mem, vals).Success?
    ensures SameShape(vals, DecodeField(f, input, mem, vals).value.vals)
    ensures forall n :: n in vals && n != f.name ==> DecodeField(f, input, mem, vals).value.vals[n] == vals[n]
  {
  }

  /** Decoding keeps the record an instance of its type, and leaves every
      property that no wire field names as it was. */
  lemma {:induction false} DecodeFieldsFrame(fields: seq<Field>, input: seq<Byte>, mem: Memory, vals: Values)
    requires DecodeFields(fields, input, mem, vals).Success?
    ensures SameShape(vals, DecodeFields(fields, input, mem, vals).value.vals)
    ensures forall n :: n in vals && (forall k :: 0 <= k < |fields| ==> fields[k].name != n) ==>
      DecodeFields(fields, input, mem, vals).value.vals[n] == vals[n]
  {
    if fields != [] {
      var d := DecodeField(fields[0], input, mem, vals).value;
      DecodeFieldFrame(fields[0], input, mem, vals);
      DecodeFieldsFrame(fields[1..], d.rest, mem, d.vals);
      forall n | n in vals && (forall k :: 0 <= k < |fields| ==> fields[k].name != n)
        ensures DecodeFields(fields, input, mem, vals).value.vals[n] == vals[n]
      {
        assert fields[0].name != n;
        forall k | 0 <= k < |fields[1..]| ensures fields[1..][k].name != n {
          assert fields[1..][k] == fields[k + 1];
        }
      }
    }
  }

  /** An unsigned field takes the little-endian value of its bytes, which is
      below 2^(8 * width); the field must hold an unsigned integer. */
  lemma DecodeUnsignedField(f: Field, input: seq<Byte>, mem: Memory, vals: Values)
    requires f.wt.kind == Unsigned && f.wt.size <= 8 && f.wt.size <= |input|
    ensures DecodeField(f, input, mem, vals).Success? <==> f.name in vals && vals[f.name].UintValue?
    ensures DecodeField(f, input, mem, vals).Success? ==>
      && DecodeField(f, input, mem, vals).value.vals[f.name] == UintValue(LeValue(input[..f.wt.size]))
      && LeValue(input[..f.wt.size]) < Pow256(f.wt.size)
      && DecodeField(f, input, mem, vals).value.rest == input[f.wt.size..]
  {
    LeValueBound(input[..f.wt.size]);
  }

  /** A double field takes the 64-bit pattern of its eight bytes, as
      math.Float64frombits receives it, and changes nothing else; the field
      must hold a float. */
  lemma DecodeDoubleField(f: Field, input: seq<Byte>, mem: Memory, vals: Values)
    requires f.wt.kind == Double && 8 <= |input|
    ensures DecodeField(f, input, mem, vals).Success? <==> f.name in vals && vals[f.name].FloatValue?
    ensures DecodeField(f, input, mem, vals).Success? ==>
      && LeValue(input[..8]) < TWO64
      && DecodeField(f, input, mem, vals).value.vals == vals[f.name := FloatValue(LeValue(input[..8]))]
      && DecodeField(f, input, mem, vals).value.rest == input[8..]
  {
    LeValueBound(input[..8]);
  }

  /** A wide-string field always consumes its 8-byte pointer. A null pointer
      leaves the property as it was; any other pointer stores the code units
      that lie before the first zero unit at that address. */
  lemma DecodeWideStringField(f: Field, input: seq<Byte>, mem: Memory, vals: Values)
    requires f.wt.kind == WideStringPointer && 8 <= |input|
    ensures var ptr := LeValue(input[..8]);
      var r := DecodeField(f, input, mem, vals);
      && (r.Success? ==> r.value.rest == input[8..])
      && (ptr == 0 ==> r == Success(Decoded(vals, input[8..])))
      && (ptr != 0 ==>
            (r.Success? <==> f.name in vals && vals[f.name].StringValue?
                             && exists k: nat :: ptr + 2 * k + 2 <= |mem| && UnitAt(mem, ptr + 2 * k) == 0))
      && (ptr != 0 && r.Success? ==>
            var s := r.value.vals[f.name].units;
            && r.value.vals[f.name].StringValue?
            && ptr + 2 * |s| + 2 <= |mem|
            && s == Units(mem, ptr, |s|)
            && (forall i :: 0 <= i < |s| ==> s[i] != 0)
            && UnitAt(mem, ptr + 2 * |s|) == 0)
  {
    WideStringAtSpec(mem, LeValue(input[..8]));
  }

  /** A byte-pointer field always consumes its 8-byte pointer. A null pointer
      or an integer option leaves the property as it was without looking at
      any other field; otherwise the option must name an integer field, a
      zero length leaves the property as it was, and any other length copies
      the bytes at the pointer. */
  lemma DecodeBytePointerField(f: Field, input: seq<Byte>, mem: Memory, vals: Values)
    requires f.wt.kind == BytePointer && 8 <= |input|
    ensures var ptr := LeValue(input[..8]);
      var r := DecodeField(f, input, mem, vals);
      && (r.Success? ==> r.value.rest == input[8..])
      && (ptr == 0 || IsAtoiLiteral(f.options) ==> r == Success(Decoded(vals, input[8..])))
      && (ptr != 0 && !IsAtoiLiteral(f.options) && f.options !in vals ==> r == Failure(FieldNotFound(f.options)))
      && ((ptr != 0 && !IsAtoiLiteral(f.options) && f.options in vals
           && !vals[f.options].UintValue? && !vals[f.options].IntValue?) ==> r == Failure(NotAnInteger(f.options)))
      && ((ptr != 0 && !IsAtoiLiteral(f.options) && f.options in vals
           && (vals[f.options] == UintValue(0) || vals[f.options] == IntValue(0))) ==> r == Success(Decoded(vals, input[8..])))
  {
  }

  /** When the byte-pointer field does copy, it stores exactly the length
      field's value in bytes, read from the pointer on, provided the end
      address does not wrap around; the read faults when those bytes are not
      all inside memory. */
  lemma DecodeBytePointerCopy(f: Field, input: seq<Byte>, mem: Memory, vals: Values, len: nat)
    requires f.wt.kind == BytePointer && 8 <= |input|
    requires LeValue(input[..8]) != 0 && !IsAtoiLiteral(f.options)
    requires f.options in vals && len > 0
    requires (vals[f.options].UintValue? && vals[f.options].u == len) || (vals[f.options].IntValue? && vals[f.options].i == len)
    requires LeValue(input[..8]) + len < TWO64
    ensures var ptr := LeValue(input[..8]);
      var r := DecodeField(f, input, mem, vals);
      && (ptr + len > |mem| ==> r == Failure(MemoryFault(Max(ptr, |mem|))))
      && (ptr + len <= |mem| ==>
            (r.Success? <==> f.name in vals && vals[f.name].BytesValue?))
      && (r.Success? ==> r.value.vals[f.name] == BytesValue(mem[ptr..ptr + len]))
  {
    var ptr := LeValue(input[..8]);
    assert ReadUint(input, 8) == ptr;
    var n := LengthField(vals, f.options).value;
    assert n % TWO64 == len;
    assert n == len || n == len - TWO64;
    assert CopyLength(ptr, n) == len;
  }

  /** Decoding two runs of fields is decoding the first and then the second
      from where the first stopped, with the values the first stored. */
  lemma {:induction false} DecodeFieldsAppend(a: seq<Field>, b: seq<Field>, input: seq<Byte>, mem: Memory, vals: Values)
    ensures DecodeFields(a + b, input, mem, vals) ==
      var d := DecodeFields(a, input, mem, vals);
      if d.Failure? then d else DecodeFields(b, d.value.rest, mem, d.value.vals)
  {
    if a == [] {
      assert a + b == b;
    } else {
      assert (a + b)[0] == a[0];
      assert (a + b)[1..] == a[1..] + b;
      var d := DecodeField(a[0], input, mem, vals);
      if d.Success? {
        DecodeFieldsAppend(a[1..], b, d.value.rest, mem, d.value.vals);
      }
    }
  }

  /** Slot i of a field list can be looked at on its own: the fields fit the
      input, the slot's property is in the record and no other field has
      its name. */
  predicate SlotReady(fields: seq<Field>, input: seq<Byte>, vals: Values, i: nat)
  {
    && i < |fields| && AllWellSized(fields) && FieldsSize(fields) <= |input|
    && (forall j :: 0 <= j < |fields| && j != i ==> fields[j].name != fields[i].name)
    && fields[i].name in vals
  }

  /** The field at slot i of a successful decode: it read its word at its
      offset, starting from values that hold what the caller's record held
      under its name, and no other field touched its property afterwards. */
  lemma DecodeFieldsSlot(fields: seq<Field>, input: seq<Byte>, mem: Memory, vals: Values, i: nat) returns (w: Values)
    requires SlotReady(fields, input, vals, i) && DecodeFields(fields, input, mem, vals).Success?
    ensures Offset(fields, i) + fields[i].wt.size <= |input|
    ensures fields[i].name in w && w[fields[i].name] == vals[fields[i].name]
    ensures DecodeField(fields[i], input[Offset(fields, i)..], mem, w).Success?
    ensures var n := fields[i].name;
      var r := DecodeFields(fields, input, mem, vals).value.vals;
      && n in r && n in DecodeField(fields[i], input[Offset(fields, i)..], mem, w).value.vals
      && r[n] == DecodeField(fields[i], input[Offset(fields, i)..], mem, w).value.vals[n]
  {
    var n := fields[i].name;
    var a, b := fields[..i], fields[i..];
    assert a + b == fields;
    DecodeFieldsAppend(a, b, input, mem, vals);
    SlotBefore(fields, input, mem, vals, i);
    var d1 := DecodeFields(a, input, mem, vals).value;
    w := d1.vals;
    assert b[0] == fields[i] && b[1..] == fields[i + 1..];
    var d2 := DecodeField(fields[i], d1.rest, mem, w).value;
    DecodeFieldFrame(fields[i], d1.rest, mem, w);
    SlotAfter(fields, i, d2.rest, mem, d2.vals);
  }

  /** The fields before slot i decode up to the slot's offset and leave its
      property as the caller's record held it. */
  lemma SlotBefore(fields: seq<Field>, input: seq<Byte>, mem: Memory, vals: Values, i: nat)
    requires SlotReady(fields, input, vals, i) && DecodeFields(fields[..i], input, mem, vals).Success?
    ensures Offset(fields, i) + fields[i].wt.size <= |input|
    ensures var d := DecodeFields(fields[..i], input, mem, vals).value;
      && d.rest == input[Offset(fields, i)..]
      && fields[i].name in d.vals && d.vals[fields[i].name] == vals[fields[i].name]
  {
    var a, b := fields[..i], fields[i..];
    assert a + b == fields;
    FieldsSizeAppend(a, b);
    assert b[0] == fields[i];
    assert AllWellSized(a) by {
      forall k | 0 <= k < |a| ensures WellSized(a[k].wt) {
        assert a[k] == fields[k];
      }
    }
    DecodeFieldsPrefix(a, input, [], mem, vals);
    DecodeFieldsFrame(a, input, mem, vals);
    assert forall k :: 0 <= k < |a| ==> a[k].name != fields[i].name by {
      forall k | 0 <= k < |a| ensures a[k].name != fields[i].name {
        assert a[k] == fields[k];
      }
    }
  }

  /** The fields after slot i leave its property as they found it. */
  lemma SlotAfter(fields: seq<Field>, i: nat, input: seq<Byte>, mem: Memory, vals: Values)
    requires i < |fields| && fields[i].name in vals
    requires forall j :: 0 <= j < |fields| && j != i ==> fields[j].name != fields[i].name
    requires DecodeFields(fields[i + 1..], input, mem, vals).Success?
    ensures var r := DecodeFields(fields[i + 1..], input, mem, vals).value.vals;
      fields[i].name in r && r[fields[i].name] == vals[fields[i].name]
  {
    var c := fields[i + 1..];
    DecodeFieldsFrame(c, input, mem, vals);
    assert forall k :: 0 <= k < |c| ==> c[k].name != fields[i].name by {
      forall k | 0 <= k < |c| ensures c[k].name != fields[i].name {
        assert c[k] == fields[i + 1 + k];
      }
    }
  }

  /** An unsigned field of a successful decode holds the little-endian value
      of the bytes at its offset. */
  lemma DecodeFieldsUnsignedAt(fields: seq<Field>, input: seq<Byte>, mem: Memory, vals: Values, i: nat)
    requires SlotReady(fields, input, vals, i) && DecodeFields(fields, input, mem, vals).Success?
    requires fields[i].wt.kind == Unsigned
    ensures Offset(fields, i) + fields[i].wt.size <= |input|
    ensures var r := DecodeFields(fields, input, mem, vals).value.vals;
      var o := Offset(fields, i);
      && fields[i].name in r && r[fields[i].name].UintValue?
      && r[fields[i].name].u == LeValue(input[o..o + fields[i].wt.size])
  {
    var w := DecodeFieldsSlot(fields, input, mem, vals, i);
    UnsignedAtOffset(fields[i], input, Offset(fields, i), mem, w);
  }

  /** A wide-string field of a successful decode keeps the caller's value
      when the pointer at its offset is null, and otherwise holds the string
      found at that address. */
  lemma DecodeFieldsWideStringAt(fields: seq<Field>, input: seq<Byte>, mem: Memory, vals: Values, i: nat)
    requires SlotReady(fields, input, vals, i) && DecodeFields(fields, input, mem, vals).Success?
    requires fields[i].wt.kind == WideStringPointer
    ensures Offset(fields, i) + 8 <= |input|
    ensures var r := DecodeFields(fields, input, mem, vals).value.vals;
      var ptr := LeValue(input[Offset(fields, i)..Offset(fields, i) + 8]);
      && fields[i].name in r
      && (ptr == 0 ==> r[fields[i].name] == vals[fields[i].name])
      && (ptr != 0 ==> WideStringAt(mem, ptr).Success? && r[fields[i].name] == StringValue(WideStringAt(mem, ptr).value))
  {
    var w := DecodeFieldsSlot(fields, input, mem, vals, i);
    WideStringAtOffset(fields[i], input, Offset(fields, i), mem, w);
  }

  /** An unsigned field read at offset o takes the little-endian value of
      the bytes from o on. */
  lemma UnsignedAtOffset(f: Field, input: seq<Byte>, o: nat, mem: Memory, w: Values)
    requires f.wt.kind == Unsigned && f.wt.size <= 8 && o + f.wt.size <= |input|
    ensures var d := DecodeField(f, input[o..], mem, w);
      d.Success? ==>
        && f.name in d.value.vals && d.value.vals[f.name].UintValue?
        && d.value.vals[f.name].u == LeValue(input[o..o + f.wt.size])
  {
    var slot := input[o..];
    DecodeUnsignedField(f, slot, mem, w);
    assert slot[..f.wt.size] == input[o..o + f.wt.size];
  }

  /** A wide-string field read at offset o takes its pointer from the eight
      bytes from o on. */
  lemma WideStringAtOffset(f: Field, input: seq<Byte>, o: nat, mem: Memory, w: Values)
    requires f.wt.kind == WideStringPointer && o + 8 <= |input|
    ensures var ptr := LeValue(input[o..o + 8]);
      var d := DecodeField(f, input[o..], mem, w);
      && (ptr == 0 ==> d == Success(Decoded(w, input[o + 8..])))
      && (ptr != 0 && d.Success? ==> WideStringAt(mem, ptr).Success? && f.name in d.value.vals && d.value.vals[f.name] == StringValue(WideStringAt(mem, ptr).value))
  {
    assert input[o..][..8] == input[o..o + 8];
    assert ReadUint(input[o..], 8) == LeValue(input[o..o + 8]);
  }

  /** A double field read at offset o takes the bit pattern of the eight
      bytes from o on. */
  lemma DoubleAtOffset(f: Field, input: seq<Byte>, o: nat, mem: Memory, w: Values)
    requires f.wt.kind == Double && o + 8 <= |input|
    ensures var d := DecodeField(f, input[o..], mem, w);
      d.Success? ==>
        && f.name in d.value.vals && d.value.vals[f.name].FloatValue?
        && d.value.vals[f.name].bits == LeValue(input[o..o + 8])
  {
    var slot := input[o..];
    DecodeDoubleField(f, slot, mem, w);
    assert slot[..8] == input[o..o + 8];
  }

  /** A double field of a successful decode holds the bit pattern of the
      eight bytes at its offset. */
  lemma DecodeFieldsDoubleAt(fields: seq<Field>, input: seq<Byte>, mem: Memory, vals: Values, i: nat)
    requires SlotReady(fields, input, vals, i) && DecodeFields(fields, input, mem, vals).Success?
    requires fields[i].wt.kind == Double
    ensures Offset(fields, i) + 8 <= |input|
    ensures var r := DecodeFields(fields, input, mem, vals).value.vals;
      var o := Offset(fields, i);
      && fields[i].name in r && r[fields[i].name].FloatValue?
      && r[fields[i].name].bits == LeValue(input[o..o + 8])
  {
    var w := DecodeFieldsSlot(fields, input, mem, vals, i);
    assert fields[i].wt.size == 8 by { assert WellSized(fields[i].wt); }
    DoubleAtOffset(fields[i], input, Offset(fields, i), mem, w);
  }

  /** No two wire fields share a name. */
  ghost predicate UniqueFieldNames(fs: seq<Field>)
  {
    forall i, j :: 0 <= i < |fs| && 0 <= j < |fs| && i != j ==> fs[i].name != fs[j].name
  }

  /** DecodeFieldsUnsignedAt for a whole Unmarshal: slot i of the record
      type's wire fields. */
  lemma UnmarshaledUnsignedAt(decls: seq<FieldDecl>, input: seq<Byte>, mem: Memory, vals: Values, i: nat)
    requires MetaOf(decls).Success? && i < |MetaOf(decls).value.fields|
    requires UniqueFieldNames(MetaOf(decls).value.fields)
    requires MetaOf(decls).value.fields[i].name in vals && MetaOf(decls).value.fields[i].wt.kind == Unsigned
    requires Unmarshaled(decls, input, mem, vals).Success?
    ensures var fs := MetaOf(decls).value.fields;
      var o := Offset(fs, i);
      var r := Unmarshaled(decls, input, mem, vals).value.vals;
      && o + fs[i].wt.size <= |input|
      && fs[i].name in r && r[fs[i].name].UintValue?
      && r[fs[i].name].u == LeValue(input[o..o + fs[i].wt.size])
  {
    var fs := MetaOf(decls).value.fields;
    MetaFieldsFit(decls);
    assert Unmarshaled(decls, input, mem, vals) == DecodeFields(fs, input, mem, vals);
    DecodeFieldsUnsignedAt(fs, input, mem, vals, i);
  }

  /** DecodeFieldsWideStringAt for a whole Unmarshal: slot i of the record
      type's wire fields. */
  lemma UnmarshaledWideStringAt(decls: seq<FieldDecl>, input: seq<Byte>, mem: Memory, vals: Values, i: nat)
    requires MetaOf(decls).Success? && i < |MetaOf(decls).value.fields|
    requires UniqueFieldNames(MetaOf(decls).value.fields)
    requires MetaOf(decls).value.fields[i].name in vals && MetaOf(decls).value.fields[i].wt.kind == WideStringPointer
    requires Unmarshaled(decls, input, mem, vals).Success?
    ensures var fs := MetaOf(decls).value.fields;
      var o := Offset(fs, i);
      var r := Unmarshaled(decls, input, mem, vals).value.vals;
      var n := fs[i].name;
      && o + 8 <= |input|
      && n in r
      && (LeValue(input[o..o + 8]) == 0 ==> r[n] == vals[n])
      && (LeValue(input[o..o + 8]) != 0 ==>
            WideStringAt(mem, LeValue(input[o..o + 8])).Success?
            && r[n] == StringValue(WideStringAt(mem, LeValue(input[o..o + 8])).value))
  {
    var fs := MetaOf(decls).value.fields;
    MetaFieldsFit(decls);
    assert Unmarshaled(decls, input, mem, vals) == DecodeFields(fs, input, mem, vals);
    DecodeFieldsWideStringAt(fs, input, mem, vals, i);
  }

  /** DecodeFieldsDoubleAt for a whole Unmarshal: slot i of the record
      type's wire fields. */
  lemma UnmarshaledDoubleAt(decls: seq<FieldDecl>, input: seq<Byte>, mem: Memory, vals: Values, i: nat)
    requires MetaOf(decls).Success? && i < |MetaOf(decls).value.fields|
    requires UniqueFieldNames(MetaOf(decls).value.fields)
    requires MetaOf(decls).value.fields[i].name in vals && MetaOf(decls).value.fields[i].wt.kind == Double
    requires Unmarshaled(decls, input, mem, vals).Success?
    ensures var fs := MetaOf(decls).value.fields;
      var o := Offset(fs, i);
      var r := Unmarshaled(decls, input, mem, vals).value.vals;
      && o + 8 <= |input|
      && fs[i].name in r && r[fs[i].name].FloatValue?
      && r[fs[i].name].bits == LeValue(input[o..o + 8])
  {
    var fs := MetaOf(decls).value.fields;
    MetaFieldsFit(decls);
    assert Unmarshaled(decls, input, mem, vals) == DecodeFields(fs, input, mem, vals);
    DecodeFieldsDoubleAt(fs, input, mem, vals, i);
  }

  /** A property that no wire field of the type names keeps, through a
      whole Unmarshal, the value the caller's record held. */
  lemma UnmarshaledKeeps(decls: seq<FieldDecl>, input: seq<Byte>, mem: Memory, vals: Values, n: string)
    requires MetaOf(decls).Success? && n in vals
    requires forall k :: 0 <= k < |MetaOf(decls).value.fields| ==> MetaOf(decls).value.fields[k].name != n
    requires Unmarshaled(decls, input, mem, vals).Success?
    ensures var r := Unmarshaled(decls, input, mem, vals).value.vals;
      n in r && r[n] == vals[n]
  {
    DecodeFieldsFrame(MetaOf(decls).value.fields, input, mem, vals);
  }

  /** Unmarshaling keeps the record an instance of its type. */
  lemma UnmarshaledShape(decls: seq<FieldDecl>, input: seq<Byte>, mem: Memory, vals: Values)
    requires Unmarshaled(decls, input, mem, vals).Success?
    ensures SameShape(vals, Unmarshaled(decls, input, mem, vals).value.vals)
  {
    DecodeFieldsFrame(MetaOf(decls).value.fields, input, mem, vals);
  }
}
