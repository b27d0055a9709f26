/** The two request handlers that read lists of records from the camera
    driver: the property descriptors, each with its enumerated options, and
    the current property values. The driver calls themselves are outside the
    model: what the driver writes into a buffer is a parameter. */
module PropertyLists {
  import opened Wire
  import opened Errors
  import opened ByteBuffer
  import opened Meta
  import opened Values
  import opened NativeMemory
  import opened Decoding
  import opened WinStruct
  import opened Layouts
  import opened Names

  /** The id at index i of the property list the driver writes: bytes 4i to
      4i + 3, the first one lowest, combined with shifts and additions. */
  function PropertyIdAt(ids: seq<Byte>, i: nat): nat
    requires 4 * i + 4 <= |ids|
  {
    var offs := 4 * i;
    (ids[offs] as int) + (ids[offs + 1] as int) * 0x100
      + (ids[offs + 2] as int) * 0x1_0000 + (ids[offs + 3] as int) * 0x100_0000
  }

  /** The id is the little-endian value of its four bytes, which is what
      the codec's bytesToUint reads from them; it fits in 32 bits. */
  lemma PropertyIdIsLittleEndian(ids: seq<Byte>, i: nat)
    requires 4 * i + 4 <= |ids|
    ensures PropertyIdAt(ids, i) == LeValue(ids[4 * i..4 * i + 4])
    ensures PropertyIdAt(ids, i) == ReadUint(ids[4 * i..], 4)
    ensures PropertyIdAt(ids, i) < 0x1_0000_0000
  {
    var w := ids[4 * i..4 * i + 4];
    assert w[1..][1..][1..][1..] == [];
    assert LeValue(w[1..][1..][1..]) == w[3] as int;
    assert LeValue(w[1..][1..]) == w[2] as int + 256 * w[3] as int;
    assert LeValue(w[1..]) == w[1] as int + 256 * (w[2] as int + 256 * w[3] as int);
    assert Take(ids[4 * i..], 4) == w;
  }

  /** What a driver call leaves in a buffer it is handed: data written over
      the buffer's start, never past its end. */
  function Overlay(buf: seq<Byte>, data: seq<Byte>): (r: seq<Byte>)
    ensures |r| == |buf|
    ensures forall k :: 0 <= k < |r| ==> r[k] == if k < |data| then data[k] else buf[k]
  {
    if |data| >= |buf| then data[..|buf|] else data + buf[|data|..]
  }

  // ------------------------------------------------ records read in a row

  /** count records decoded one after the other from a single buffer by a
      decoding step; the first failure ends the walk. */
  function Walk(step: seq<Byte> -> Result<Decoded>, input: seq<Byte>, count: nat): Result<seq<Values>>
    decreases count
  {
    if count == 0 then Success([])
    else
      var first := step(input);
      if first.Failure? then Failure(first.error)
      else
        var rest := Walk(step, first.value.rest, count - 1);
        if rest.Failure? then rest else Success([first.value.vals] + rest.value)
  }

  /** Decoding one record into a fresh zero record of its type. */
  function RecordStep(decls: seq<FieldDecl>, mem: Memory): seq<Byte> -> Result<Decoded>
  {
    input => Unmarshaled(decls, input, mem, ZeroValues(decls))
  }

  /** count records of one type read from a single buffer, each into a fresh
      zero record. */
  function DecodeSequence(decls: seq<FieldDecl>, input: seq<Byte>, count: nat, mem: Memory): Result<seq<Values>>
  {
    Walk(RecordStep(decls, mem), input, count)
  }

  /** A step that reads exactly its first size bytes: what follows them does
      not change the outcome and is left over. */
  ghost predicate ReadsBlock(step: seq<Byte> -> Result<Decoded>, size: nat)
  {
    forall block: seq<Byte>, tail: seq<Byte> :: |block| == size ==>
      step(block + tail) == if step(block).Failure? then step(block) else Success(Decoded(step(block).value.vals, tail))
  }

  /** A step that fails on fewer than size bytes. */
  ghost predicate NeedsBlock(step: seq<Byte> -> Result<Decoded>, size: nat)
  {
    forall input: seq<Byte> :: |input| < size ==> step(input).Failure?
  }

  /** Unmarshal reads exactly the record's size and fails on less. */
  lemma RecordStepReadsBlock(decls: seq<FieldDecl>, mem: Memory)
    requires MetaOf(decls).Success?
    ensures ReadsBlock(RecordStep(decls, mem), MetaOf(decls).value.size)
    ensures NeedsBlock(RecordStep(decls, mem), MetaOf(decls).value.size)
  {
    var size := MetaOf(decls).value.size;
    var z := ZeroValues(decls);
    forall block: seq<Byte>, tail: seq<Byte> | |block| == size
      ensures RecordStep(decls, mem)(block + tail) ==
        if RecordStep(decls, mem)(block).Failure? then RecordStep(decls, mem)(block)
        else Success(Decoded(RecordStep(decls, mem)(block).value.vals, tail))
    {
      UnmarshaledPrefix(decls, block, tail, mem, z);
    }
    forall input: seq<Byte> | |input| < size ensures RecordStep(decls, mem)(input).Failure? {
      UnmarshaledTooSmall(decls, input, mem, z);
    }
  }

  /** The records already decoded, ahead of what the rest of the walk gives. */
  function Then<T>(done: seq<T>, rest: Result<seq<T>>): Result<seq<T>>
  {
    if rest.Failure? then rest else Success(done + rest.value)
  }

  lemma ThenNothing<T>(r: Result<seq<T>>)
    ensures Then([], r) == r
  {
    if r.Success? {
      assert [] + r.value == r.value;
    }
  }

  lemma ThenThen<T>(a: seq<T>, b: seq<T>, r: Result<seq<T>>)
    ensures Then(a, Then(b, r)) == Then(a + b, r)
  {
    if r.Success? {
      assert a + (b + r.value) == a + b + r.value;
    }
  }

  /** One step of the walk: the first record, then the walk over what it
      leaves; or the first record's failure. */
  lemma WalkStep(step: seq<Byte> -> Result<Decoded>, input: seq<Byte>, count: nat)
    requires count > 0
    ensures step(input).Failure? ==> Walk(step, input, count) == Failure(step(input).error)
    ensures step(input).Success? ==>
      Walk(step, input, count) == Then([step(input).value.vals], Walk(step, step(input).value.rest, count - 1))
  {
  }

  /** The loop of the property values handler: count times, a fresh record
      is unmarshalled from the shared buffer and appended to the list. */
  method UnmarshalEach(decls: seq<FieldDecl>, b: Buffer, count: nat, mem: Memory) returns (r: Result<seq<Values>>)
    requires DistinctNames(decls)
    modifies b
    ensures r == DecodeSequence(decls, old(b.unread), count, mem)
  {
    ghost var input := b.unread;
    ghost var step := RecordStep(decls, mem);
    ZeroValuesConform(decls);
    var properties: seq<Values> := [];
    ThenNothing(Walk(step, input, count));
    for i := 0 to count
      invariant Walk(step, input, count) == Then(properties, Walk(step, b.unread, count - i))
    {
      ghost var before := b.unread;
      var property := new Record(decls, ZeroValues(decls));
      var ok := Unmarshal(b, property, mem);
      assert step(before) == Unmarshaled(decls, before, mem, ZeroValues(decls));
      WalkStep(step, before, count - i);
      if ok.Fail? {
        return Failure(ok.error);
      }
      ThenThen(properties, [property.values], Walk(step, b.unread, count - i - 1));
      properties := properties + [property.values];
    }
    assert properties + [] == properties;
    r := Success(properties);
  }

  /** The k-th block of a buffer cut into blocks of size bytes (shorter, or
      empty, where the buffer runs out). */
  function Block(input: seq<Byte>, size: nat, k: nat): seq<Byte>
  {
    Take(Drop(input, k * size), size)
  }

  lemma BlockShift(input: seq<Byte>, size: nat, k: nat)
    requires size <= |input|
    ensures Block(input[size..], size, k) == Block(input, size, k + 1)
  {
    assert (k + 1) * size == k * size + size;
    if k * size <= |input| - size {
      assert input[size..][k * size..] == input[(k + 1) * size..];
    }
  }

  /** Block k of a buffer that holds n blocks, k < n, is the slice at k * size;
      its leading bytes are the buffer's bytes from there. */
  lemma BlockSlice(input: seq<Byte>, size: nat, k: nat, n: nat)
    requires |input| == size * n && k < n
    ensures size * k + size <= |input|
    ensures Block(input, size, k) == input[size * k..size * k + size]
    ensures forall a, b :: 0 <= a <= b <= size ==> Block(input, size, k)[a..b] == input[size * k + a..size * k + b]
  {
    BlockWithin(size, k, n);
    assert k * size == size * k;
    var x := size * k;
    assert Block(input, size, k) == input[x..x + size];
    forall a, b | 0 <= a <= b <= size ensures Block(input, size, k)[a..b] == input[x + a..x + b] {
      SliceOfSlice(input, x, x + size, a, b);
    }
  }

  /** Block k of n, k < n, ends within the n blocks. */
  lemma BlockWithin(size: nat, k: nat, n: nat)
    requires k < n
    ensures size * k + size <= size * n
  {
    MulAddLeft(size, k, n - k);
    MulStep(size, n - k);
  }

  lemma SliceOfSlice(s: seq<Byte>, i: nat, j: nat, a: nat, b: nat)
    requires i <= j <= |s| && a <= b <= j - i
    ensures s[i..j][a..b] == s[i + a..i + b]
  {
    forall t | 0 <= t < b - a ensures s[i..j][a..b][t] == s[i + a..i + b][t] {
      assert s[i..j][a..b][t] == s[i..j][a + t] == s[i + a + t];
    }
  }

  /** Every one of the first n blocks decodes on its own. */
  ghost predicate BlocksDecode(step: seq<Byte> -> Result<Decoded>, input: seq<Byte>, size: nat, n: nat)
  {
    forall k :: 0 <= k < n ==> step(Block(input, size, k)).Success?
  }

  /** The first n blocks decode exactly when the first block does and the n - 1
      blocks after it do. */
  lemma BlocksDecodeShift(step: seq<Byte> -> Result<Decoded>, input: seq<Byte>, size: nat, n: nat)
    requires n > 0 && size <= |input|
    ensures BlocksDecode(step, input, size, n) <==>
      step(Block(input, size, 0)).Success? && BlocksDecode(step, input[size..], size, n - 1)
  {
    forall k | 0 <= k < n - 1 ensures Block(input[size..], size, k) == Block(input, size, k + 1) {
      BlockShift(input, size, k);
    }
    if step(Block(input, size, 0)).Success? && BlocksDecode(step, input[size..], size, n - 1) {
      forall k | 0 <= k < n ensures step(Block(input, size, k)).Success? {
        if k > 0 {
          assert Block(input[size..], size, k - 1) == Block(input, size, k);
        }
      }
    }
  }

  /** Record k of rs is what block k of the input decodes into on its own. */
  ghost predicate RecordsOfBlocks(step: seq<Byte> -> Result<Decoded>, input: seq<Byte>, size: nat, rs: seq<Values>)
  {
    forall k :: 0 <= k < |rs| ==> step(Block(input, size, k)).Success? && rs[k] == step(Block(input, size, k)).value.vals
  }

  /** The record of the first block, ahead of the records of the blocks after it. */
  lemma RecordsOfBlocksCons(step: seq<Byte> -> Result<Decoded>, input: seq<Byte>, size: nat, v: Values, rs: seq<Values>)
    requires size <= |input|
    requires step(Block(input, size, 0)).Success? && v == step(Block(input, size, 0)).value.vals
    requires RecordsOfBlocks(step, input[size..], size, rs)
    ensures RecordsOfBlocks(step, input, size, [v] + rs)
  {
    forall k | 0 <= k < |[v] + rs|
      ensures step(Block(input, size, k)).Success? && ([v] + rs)[k] == step(Block(input, size, k)).value.vals
    {
      if k > 0 {
        BlockShift(input, size, k - 1);
        assert ([v] + rs)[k] == rs[k - 1];
      }
    }
  }

  /** A buffer holding count blocks is walked block by block: the walk
      succeeds exactly when every block decodes on its own, and record k is
      what block k alone decodes into. */
  lemma {:induction false} WalkBlocks(step: seq<Byte> -> Result<Decoded>, size: nat, input: seq<Byte>, count: nat)
    requires ReadsBlock(step, size) && size * count <= |input|
    ensures var r := Walk(step, input, count);
      && (r.Success? <==> BlocksDecode(step, input, size, count))
      && (r.Success? ==> |r.value| == count && RecordsOfBlocks(step, input, size, r.value))
    decreases count
  {
    if count > 0 {
      MulStep(size, count);
      var tail := input[size..];
      assert input[..size] + tail == input;
      assert Block(input, size, 0) == input[..size];
      assert step(input[..size] + tail) == if step(input[..size]).Failure? then step(input[..size]) else Success(Decoded(step(input[..size]).value.vals, tail));
      WalkBlocks(step, size, tail, count - 1);
      BlocksDecodeShift(step, input, size, count);
      WalkStep(step, input, count);
      var r := Walk(step, input, count);
      if r.Success? {
        var first := step(input);
        var rest := Walk(step, tail, count - 1);
        assert first.Success? && first.value.vals == step(Block(input, size, 0)).value.vals;
        assert rest.Success? && r.value == [first.value.vals] + rest.value;
        RecordsOfBlocksCons(step, input, size, first.value.vals, rest.value);
      }
    }
  }

  /** A buffer shorter than count blocks cannot be walked count times: some
      step fails, at the latest the one that finds too few bytes left. */
  lemma {:induction false} WalkOverrun(step: seq<Byte> -> Result<Decoded>, size: nat, input: seq<Byte>, count: nat)
    requires ReadsBlock(step, size) && NeedsBlock(step, size) && |input| < size * count
    ensures Walk(step, input, count).Failure?
    decreases count
  {
    CountPositive(size, count, |input|);
    WalkStep(step, input, count);
    if size <= |input| {
      var tail := input[size..];
      assert input[..size] + tail == input;
      assert step(input[..size] + tail) == if step(input[..size]).Failure? then step(input[..size]) else Success(Decoded(step(input[..size]).value.vals, tail));
      if step(input).Success? {
        MulStep(size, count);
        WalkOverrun(step, size, tail, count - 1);
      }
    }
  }

  /** count records read from a buffer that holds count of them: the read
      succeeds exactly when each block decodes, into what it decodes to. */
  lemma DecodeSequenceBlocks(decls: seq<FieldDecl>, input: seq<Byte>, count: nat, mem: Memory)
    requires MetaOf(decls).Success? && MetaOf(decls).value.size * count <= |input|
    ensures var size := MetaOf(decls).value.size;
      var r := DecodeSequence(decls, input, count, mem);
      && (r.Success? <==> forall k :: 0 <= k < count ==> Unmarshaled(decls, Block(input, size, k), mem, ZeroValues(decls)).Success?)
      && (r.Success? ==>
            && |r.value| == count
            && forall k :: 0 <= k < count ==> r.value[k] == Unmarshaled(decls, Block(input, size, k), mem, ZeroValues(decls)).value.vals)
  {
    RecordStepReadsBlock(decls, mem);
    WalkBlocks(RecordStep(decls, mem), MetaOf(decls).value.size, input, count);
  }

  /** Reading more records than the buffer holds fails. */
  lemma DecodeSequenceOverrun(decls: seq<FieldDecl>, input: seq<Byte>, count: nat, mem: Memory)
    requires MetaOf(decls).Success? && |input| < MetaOf(decls).value.size * count
    ensures DecodeSequence(decls, input, count, mem).Failure?
  {
    RecordStepReadsBlock(decls, mem);
    WalkOverrun(RecordStep(decls, mem), MetaOf(decls).value.size, input, count);
  }

  lemma CountPositive(size: nat, count: nat, n: nat)
    requires n < size * count
    ensures count > 0
  {
  }

  // ------------------------------------------------------ driver buffers

  /** A buffer made for a record type (NewByteBuffer) after the driver has
      written data into it. */
  function DriverBlock(decls: seq<FieldDecl>, data: seq<Byte>): (r: Result<seq<Byte>>)
    ensures r.Success? <==> Size(decls).Success?
    ensures r.Success? ==> |r.value| == Size(decls).value
  {
    var size := Size(decls);
    if size.Failure? then Failure(size.error) else Success(Overlay(Zeros(size.value), data))
  }

  /** The value of an unsigned property, read as a plain field access; a
      record of the right type always holds one. */
  function UintOf(vals: Values, name: string): nat
  {
    if name in vals && vals[name].UintValue? then vals[name].u else 0
  }

  // ------------------------------------------------ the property values handler

  /** The property values handler: the driver first reports how many
      properties there are (sized); none at all is an error. A buffer of
      that many property value blocks is handed to the driver, which writes
      data into it and reports count again; count records are then read
      from the buffer one after the other. */
  method GetCameraProperties(sized: nat, written: seq<Byte>, count: nat, mem: Memory) returns (r: Result<seq<Values>>)
    ensures sized == 0 ==> r == Failure(NoProperties)
    ensures sized > 0 ==> r == DecodeSequence(PropertyValueDecls, Overlay(Zeros(16 * sized), written), count, mem)
  {
    if sized == 0 {
      return Failure(NoProperties);
    }
    PropertyValueLayout();
    PropertyValueNamesDistinct();
    var neededSize := Size(PropertyValueDecls).value;
    var buffer := new Buffer(Overlay(Zeros(neededSize * sized), written));
    r := UnmarshalEach(PropertyValueDecls, buffer, count, mem);
  }

  /** What the property values handler returns. When the driver reports no
      more properties than it was sized for, the list succeeds exactly when
      every block decodes, record k holds the id and value in the first
      eight bytes of block k, and the list has count entries; when it
      reports more, the request fails. */
  lemma PropertyValuesRead(sized: nat, written: seq<Byte>, count: nat, mem: Memory)
    requires sized > 0
    ensures var buf := Overlay(Zeros(16 * sized), written);
      var r := DecodeSequence(PropertyValueDecls, buf, count, mem);
      && (count > sized ==> r.Failure?)
      && (count <= sized ==>
            && (r.Success? <==> forall k :: 0 <= k < count ==>
                  Unmarshaled(PropertyValueDecls, Block(buf, 16, k), mem, ZeroValues(PropertyValueDecls)).Success?)
            && (r.Success? ==>
                  && |r.value| == count
                  && forall k :: 0 <= k < count ==>
                       && r.value[k] == Unmarshaled(PropertyValueDecls, Block(buf, 16, k), mem, ZeroValues(PropertyValueDecls)).value.vals
                       && 16 * k + 16 <= |buf|
                       && UintOf(r.value[k], "ID") == LeValue(buf[16 * k..16 * k + 4])
                       && UintOf(r.value[k], "Value") == LeValue(buf[16 * k + 4..16 * k + 8])))
  {
    var buf := Overlay(Zeros(16 * sized), written);
    PropertyValueLayout();
    if count > sized {
      assert |buf| < 16 * count;
      DecodeSequenceOverrun(PropertyValueDecls, buf, count, mem);
    } else {
      assert 16 * count <= |buf|;
      DecodeSequenceBlocks(PropertyValueDecls, buf, count, mem);
      var r := DecodeSequence(PropertyValueDecls, buf, count, mem);
      if r.Success? {
        forall k | 0 <= k < count
          ensures 16 * k + 16 <= |buf|
          ensures UintOf(r.value[k], "ID") == LeValue(buf[16 * k..16 * k + 4])
          ensures UintOf(r.value[k], "Value") == LeValue(buf[16 * k + 4..16 * k + 8])
        {
          PropertyValueBlock(buf, sized, k, mem);
        }
      }
    }
  }

  /** A fresh property value record: every field present and zero. */
  lemma ZeroPropertyValue()
    ensures var z := ZeroValues(PropertyValueDecls);
      && "ID" in z && "Value" in z && "Text" in z && z["Text"] == StringValue([])
  {
    PropertyValueNamesDistinct();
    ZeroValuesAt(PropertyValueDecls, 0);
    ZeroValuesAt(PropertyValueDecls, 1);
    ZeroValuesAt(PropertyValueDecls, 2);
    assert PropertyValueDecls[0].name == "ID" && PropertyValueDecls[1].name == "Value";
    assert PropertyValueDecls[2] == FieldDecl("Text", GoString, "LPWSTR");
  }

  /** Block k of the property buffer, decoded on its own. */
  lemma PropertyValueBlock(buf: seq<Byte>, sized: nat, k: nat, mem: Memory)
    requires |buf| == 16 * sized && k < sized
    requires Unmarshaled(PropertyValueDecls, Block(buf, 16, k), mem, ZeroValues(PropertyValueDecls)).Success?
    ensures 16 * k + 16 <= |buf|
    ensures var v := Unmarshaled(PropertyValueDecls, Block(buf, 16, k), mem, ZeroValues(PropertyValueDecls)).value.vals;
      && UintOf(v, "ID") == LeValue(buf[16 * k..16 * k + 4])
      && UintOf(v, "Value") == LeValue(buf[16 * k + 4..16 * k + 8])
  {
    var z := ZeroValues(PropertyValueDecls);
    ZeroPropertyValue();
    BlockSlice(buf, 16, k, sized);
    var block := Block(buf, 16, k);
    PropertyValueContents(block, mem, z);
  }

  // ------------------------------------------- the property descriptors handler

  /** A property descriptor as the handler returns it: the decoded record,
      the name of its data type and its enumerated options in order. */
  datatype Descriptor = Descriptor(record: Values, typeName: string, options: seq<Values>)

  /** Values read one after the other, each from its index and the value
      read before it (prev for the first); the first failure ends the list. */
  function Chain(next: (nat, Values) -> Result<Values>, j: nat, n: nat, prev: Values): Result<seq<Values>>
    decreases n - j
  {
    if j >= n then Success([])
    else
      var v := next(j, prev);
      if v.Failure? then Failure(v.error)
      else Then([v.value], Chain(next, j + 1, n, v.value))
  }

  /** Option j of property id: the block the driver writes for it,
      unmarshaled over the option record as the previous option left it. */
  function OptionRead(id: nat, optionData: (nat, nat) -> seq<Byte>, j: nat, prev: Values, mem: Memory): Result<Values>
  {
    var block := DriverBlock(PropertyValueOptionDecls, optionData(id, j));
    if block.Failure? then Failure(block.error)
    else
      var u := Unmarshaled(PropertyValueOptionDecls, block.value, mem, prev);
      if u.Failure? then Failure(u.error) else Success(u.value.vals)
  }

  function OptionStep(id: nat, optionData: (nat, nat) -> seq<Byte>, mem: Memory): (nat, Values) -> Result<Values>
  {
    (j: nat, prev: Values) => OptionRead(id, optionData, j, prev, mem)
  }

  /** The n options of property id. One option record serves them all, so
      each option starts from the one before it. */
  function OptionsOf(id: nat, optionData: (nat, nat) -> seq<Byte>, n: nat, mem: Memory): Result<seq<Values>>
  {
    Chain(OptionStep(id, optionData, mem), 0, n, ZeroValues(PropertyValueOptionDecls))
  }

  /** The descriptor of property id: its record decoded from the block the
      driver writes, its type name from its type code and, when it has
      options, ValueCount of them. */
  function Describe(id: nat, descriptorData: nat -> seq<Byte>, optionData: (nat, nat) -> seq<Byte>, mem: Memory): Result<Descriptor>
  {
    var block := DriverBlock(PropertyDescriptorDecls, descriptorData(id));
    if block.Failure? then Failure(block.error)
    else
      var u := Unmarshaled(PropertyDescriptorDecls, block.value, mem, ZeroValues(PropertyDescriptorDecls));
      if u.Failure? then Failure(u.error)
      else
        var pd := u.value.vals;
        var n := UintOf(pd, "ValueCount");
        var options := if n > 0 then OptionsOf(id, optionData, n, mem) else Success([]);
        if options.Failure? then Failure(options.error)
        else Success(Descriptor(pd, TypeIdToString(UintOf(pd, "TypeId")), options.value))
  }

  /** Descriptors i to count - 1 of the ids in the id buffer; reading an id
      past the end of the buffer fails at the first index beyond it. */
  function DescribeFrom(describe: nat -> Result<Descriptor>, ids: seq<Byte>, i: nat, count: nat): Result<seq<Descriptor>>
    decreases count - i
  {
    if i >= count then Success([])
    else if 4 * i + 4 > |ids| then Failure(IndexOutOfRange(Max(4 * i, |ids|), |ids|))
    else
      var d := describe(PropertyIdAt(ids, i));
      if d.Failure? then Failure(d.error)
      else Then([d.value], DescribeFrom(describe, ids, i + 1, count))
  }

  function DescribeStep(descriptorData: nat -> seq<Byte>, optionData: (nat, nat) -> seq<Byte>, mem: Memory): nat -> Result<Descriptor>
  {
    (id: nat) => Describe(id, descriptorData, optionData, mem)
  }

  /** What the descriptors handler returns. Unless the driver's first answer
      asks for a retry the list is empty; a retry with no ids fails when the
      empty id buffer is handed to the driver; otherwise the driver writes
      the ids into a buffer of four bytes per id and reports count again. */
  function PropertyDescriptors(retry: bool, sized: nat, written: seq<Byte>, count: nat, descriptorData: nat -> seq<Byte>,
                               optionData: (nat, nat) -> seq<Byte>, mem: Memory): Result<seq<Descriptor>>
  {
    if !retry then Success([])
    else if sized == 0 then Failure(SliceOutOfRange(1, 0))
    else DescribeFrom(DescribeStep(descriptorData, optionData, mem), Overlay(Zeros(4 * sized), written), 0, count)
  }

  /** The option loop of the descriptors handler: one option record is
      declared before the loop; each pass makes a buffer for it, lets the
      driver fill the buffer, unmarshals into the record and appends it. */
  method ReadOptions(id: nat, optionData: (nat, nat) -> seq<Byte>, n: nat, mem: Memory) returns (r: Result<seq<Values>>)
    ensures r == OptionsOf(id, optionData, n, mem)
  {
    PropertyValueOptionNamesDistinct();
    ZeroValuesConform(PropertyValueOptionDecls);
    var option := new Record(PropertyValueOptionDecls, ZeroValues(PropertyValueOptionDecls));
    r := ReadOptionsInto(option, id, optionData, n, mem);
  }

  /** The loop itself, over the option record as it stands before the loop. */
  method ReadOptionsInto(option: Record, id: nat, optionData: (nat, nat) -> seq<Byte>, n: nat, mem: Memory)
    returns (r: Result<seq<Values>>)
    requires option.Valid() && option.decls == PropertyValueOptionDecls
    modifies option
    ensures r == Chain(OptionStep(id, optionData, mem), 0, n, old(option.values))
  {
    ghost var next := OptionStep(id, optionData, mem);
    var options: seq<Values> := [];
    ThenNothing(Chain(next, 0, n, option.values));
    for j := 0 to n
      invariant option.Valid() && option.decls == PropertyValueOptionDecls
      invariant Chain(next, 0, n, old(option.values)) == Then(options, Chain(next, j, n, option.values))
    {
      ghost var before := option.values;
      var optionBuffer, made := NewByteBuffer(option.decls);
      if made.Fail? {
        assert next(j, before).Failure?;
        return Failure(made.error);
      }
      optionBuffer.unread := Overlay(optionBuffer.unread, optionData(id, j));
      var ok := Unmarshal(optionBuffer, option, mem);
      if ok.Fail? {
        assert next(j, before) == Failure(ok.error);
        return Failure(ok.error);
      }
      assert next(j, before) == Success(option.values);
      ThenThen(options, [option.values], Chain(next, j + 1, n, option.values));
      options := options + [option.values];
    }
    r := Success(options);
    assert options + [] == options;
  }

  /** The body of the descriptors loop for one id: a fresh descriptor
      record, a buffer for it that the driver fills, the type name, and the
      options when there are any. */
  method ReadDescriptor(id: nat, descriptorData: nat -> seq<Byte>, optionData: (nat, nat) -> seq<Byte>, mem: Memory)
    returns (r: Result<Descriptor>)
    ensures r == Describe(id, descriptorData, optionData, mem)
  {
    PropertyDescriptorNamesDistinct();
    ZeroValuesConform(PropertyDescriptorDecls);
    var pd := new Record(PropertyDescriptorDecls, ZeroValues(PropertyDescriptorDecls));
    var buffer, made := NewByteBuffer(pd.decls);
    if made.Fail? {
      return Failure(made.error);
    }
    buffer.unread := Overlay(buffer.unread, descriptorData(id));
    var ok := Unmarshal(buffer, pd, mem);
    if ok.Fail? {
      return Failure(ok.error);
    }
    var typeName := TypeIdToString(UintOf(pd.values, "TypeId"));
    var options: seq<Values> := [];
    var valueCount := UintOf(pd.values, "ValueCount");
    if valueCount > 0 {
      var read := ReadOptions(id, optionData, valueCount, mem);
      if read.Failure? {
        return Failure(read.error);
      }
      options := read.value;
    }
    r := Success(Descriptor(pd.values, typeName, options));
  }

  /** The descriptors handler: a retry answer from the driver with sized
      ids makes a buffer of four bytes per id, which the driver fills. */
  method GetCameraPropertyDescriptors(retry: bool, sized: nat, written: seq<Byte>, count: nat,
                                      descriptorData: nat -> seq<Byte>, optionData: (nat, nat) -> seq<Byte>, mem: Memory)
    returns (r: Result<seq<Descriptor>>)
    ensures r == PropertyDescriptors(retry, sized, written, count, descriptorData, optionData, mem)
  {
    if !retry {
      return Success([]);
    }
    if sized == 0 {
      return Failure(SliceOutOfRange(1, 0));
    }
    var b := Overlay(Zeros(sized * 4), written);
    assert sized * 4 == 4 * sized;
    r := DescribeAll(b, count, DescribeStep(descriptorData, optionData, mem), descriptorData, optionData, mem);
  }

  /** describe gives, for every id, the descriptor Describe gives it. The
      correspondence is only used where a Describe term is already at hand. */
  ghost predicate DescribesAs(describe: nat -> Result<Descriptor>, descriptorData: nat -> seq<Byte>,
                              optionData: (nat, nat) -> seq<Byte>, mem: Memory)
  {
    forall id {:trigger Describe(id, descriptorData, optionData, mem)} :: describe(id) == Describe(id, descriptorData, optionData, mem)
  }

  /** ReadDescriptor, seen through a descriptor function it agrees with. */
  method ReadDescriptorAs(id: nat, ghost describe: nat -> Result<Descriptor>, descriptorData: nat -> seq<Byte>,
                          optionData: (nat, nat) -> seq<Byte>, mem: Memory)
    returns (r: Result<Descriptor>)
    requires DescribesAs(describe, descriptorData, optionData, mem)
    ensures r == describe(id)
  {
    r := ReadDescriptor(id, descriptorData, optionData, mem);
  }

  /** The loop of the descriptors handler: for each of count ids in the id
      buffer, the id's descriptor, appended to the list. */
  method DescribeAll(b: seq<Byte>, count: nat, ghost describe: nat -> Result<Descriptor>,
                     descriptorData: nat -> seq<Byte>, optionData: (nat, nat) -> seq<Byte>, mem: Memory)
    returns (r: Result<seq<Descriptor>>)
    requires DescribesAs(describe, descriptorData, optionData, mem)
    ensures r == DescribeFrom(describe, b, 0, count)
  {
    var descriptors: seq<Descriptor> := [];
    ThenNothing(DescribeFrom(describe, b, 0, count));
    for i := 0 to count
      invariant DescribeFrom(describe, b, 0, count) == Then(descriptors, DescribeFrom(describe, b, i, count))
    {
      var offs := i * 4;
      if offs + 4 > |b| {
        DescribeFromOverrun(describe, b, i, count);
        return Failure(IndexOutOfRange(Max(offs, |b|), |b|));
      }
      var id := PropertyIdOf(b, i);
      var pd := ReadDescriptorAs(id, describe, descriptorData, optionData, mem);
      DescribeFromStep(describe, b, i, count);
      if pd.Failure? {
        return Failure(pd.error);
      }
      ThenThen(descriptors, [pd.value], DescribeFrom(describe, b, i + 1, count));
      descriptors := descriptors + [pd.value];
    }
    assert descriptors + [] == descriptors;
    r := Success(descriptors);
  }

  /** Id i of a buffer that holds it: its descriptor, then the rest. */
  lemma DescribeFromStep(describe: nat -> Result<Descriptor>, ids: seq<Byte>, i: nat, count: nat)
    requires i < count && 4 * i + 4 <= |ids|
    ensures var d := describe(PropertyIdAt(ids, i));
      && (d.Failure? ==> DescribeFrom(describe, ids, i, count) == Failure(d.error))
      && (d.Success? ==> DescribeFrom(describe, ids, i, count) == Then([d.value], DescribeFrom(describe, ids, i + 1, count)))
  {
  }

  /** Reading id i of a buffer too short to hold it fails at the first byte
      past the buffer's end. */
  lemma DescribeFromOverrun(describe: nat -> Result<Descriptor>, ids: seq<Byte>, i: nat, count: nat)
    requires i < count && 4 * i + 4 > |ids|
    ensures DescribeFrom(describe, ids, i, count) == Failure(IndexOutOfRange(Max(4 * i, |ids|), |ids|))
  {
  }

  /** Id i, assembled from its four bytes by shifts as the handler does. */
  method PropertyIdOf(b: seq<Byte>, i: nat) returns (id: nat)
    requires i * 4 + 4 <= |b|
    ensures id == PropertyIdAt(b, i)
  {
    var offs := i * 4;
    id := (b[offs] as nat) + (b[offs + 1] as nat) * 0x100 + (b[offs + 2] as nat) * 0x1_0000 + (b[offs + 3] as nat) * 0x100_0000;
  }

  /** Values r, value k made by the step at index j + k from the value
      before it (prev for the first). */
  ghost predicate ChainedFrom(next: (nat, Values) -> Result<Values>, j: nat, prev: Values, r: seq<Values>)
  {
    forall k :: 0 <= k < |r| ==> next(j + k, if k == 0 then prev else r[k - 1]) == Success(r[k])
  }

  /** A successful chain holds one value per index, each what its step made
      of the value before it. */
  lemma {:induction false} ChainValues(next: (nat, Values) -> Result<Values>, j: nat, n: nat, prev: Values)
    requires j <= n
    ensures var r := Chain(next, j, n, prev);
      r.Success? ==> |r.value| == n - j && ChainedFrom(next, j, prev, r.value)
    decreases n - j
  {
    if j < n {
      var v := next(j, prev);
      if v.Success? {
        ChainValues(next, j + 1, n, v.value);
        var rest := Chain(next, j + 1, n, v.value);
        if rest.Success? {
          var r := Chain(next, j, n, prev).value;
          assert r == [v.value] + rest.value;
          forall k | 0 <= k < n - j
            ensures next(j + k, if k == 0 then prev else r[k - 1]) == Success(r[k])
          {
            if k > 0 {
              assert r[k] == rest.value[k - 1];
              assert r[k - 1] == if k - 1 == 0 then v.value else rest.value[k - 2];
            }
          }
        }
      }
    }
  }

  /** The 16 bytes the driver leaves in the buffer of option j of property id. */
  function OptionBlock(id: nat, optionData: (nat, nat) -> seq<Byte>, j: nat): (r: seq<Byte>)
    ensures |r| == 16
  {
    Overlay(Zeros(16), optionData(id, j))
  }

  /** A fresh option record: every field present, the name empty. */
  lemma ZeroOption()
    ensures var z := ZeroValues(PropertyValueOptionDecls);
      && "Value" in z && "ValuePad" in z && "Name" in z && z["Name"] == StringValue([])
  {
    PropertyValueOptionNamesDistinct();
    ZeroValuesAt(PropertyValueOptionDecls, 0);
    ZeroValuesAt(PropertyValueOptionDecls, 1);
    ZeroValuesAt(PropertyValueOptionDecls, 2);
    assert PropertyValueOptionDecls[0].name == "Value" && PropertyValueOptionDecls[1].name == "ValuePad";
    assert PropertyValueOptionDecls[2] == FieldDecl("Name", GoString, "LPWSTR");
  }

  /** One option read: its value from the first four bytes of its block and
      its name from the pointer at offset 8, or the previous name when that
      pointer is null. */
  lemma OptionReadContents(id: nat, optionData: (nat, nat) -> seq<Byte>, j: nat, prev: Values, mem: Memory)
    requires "Value" in prev && "ValuePad" in prev && "Name" in prev
    requires OptionRead(id, optionData, j, prev, mem).Success?
    ensures var v := OptionRead(id, optionData, j, prev, mem).value;
      var blk := OptionBlock(id, optionData, j);
      var ptr := LeValue(blk[8..16]);
      && v.Keys == prev.Keys
      && UintOf(v, "Value") == LeValue(blk[..4])
      && "Name" in v
      && (ptr == 0 ==> v["Name"] == prev["Name"])
      && (ptr != 0 ==> WideStringAt(mem, ptr).Success? && v["Name"] == StringValue(WideStringAt(mem, ptr).value))
  {
    PropertyValueOptionLayout();
    var blk := OptionBlock(id, optionData, j);
    assert DriverBlock(PropertyValueOptionDecls, optionData(id, j)) == Success(blk);
    PropertyValueOptionContents(blk, mem, prev);
    UnmarshaledShape(PropertyValueOptionDecls, blk, mem, prev);
  }

  /** The option record as it stands before option k is read into it. */
  function PriorOption(r: seq<Values>, k: nat): Values
    requires k <= |r|
  {
    if k == 0 then ZeroValues(PropertyValueOptionDecls) else r[k - 1]
  }

  /** Each option of a successful read keeps the option record's fields. */
  lemma {:induction false} OptionKeys(id: nat, optionData: (nat, nat) -> seq<Byte>, mem: Memory, r: seq<Values>, k: nat)
    requires k <= |r| && ChainedFrom(OptionStep(id, optionData, mem), 0, ZeroValues(PropertyValueOptionDecls), r)
    ensures PriorOption(r, k).Keys == ZeroValues(PropertyValueOptionDecls).Keys
    decreases k
  {
    if k > 0 {
      ZeroOption();
      OptionKeys(id, optionData, mem, r, k - 1);
      assert OptionStep(id, optionData, mem)(0 + (k - 1), PriorOption(r, k - 1)) == Success(r[k - 1]);
      OptionReadContents(id, optionData, k - 1, PriorOption(r, k - 1), mem);
    }
  }

  /** Option k of a list of options, as its own block describes it: the
      value from the first four bytes, the name from the pointer at offset
      8; a null name pointer leaves the name the option before it had, and
      the empty name for the first option. */
  ghost predicate OptionFromBlock(id: nat, optionData: (nat, nat) -> seq<Byte>, mem: Memory, r: seq<Values>, k: nat)
    requires k < |r|
  {
    var blk := OptionBlock(id, optionData, k);
    var ptr := LeValue(blk[8..16]);
    && UintOf(r[k], "Value") == LeValue(blk[..4])
    && "Name" in r[k]
    && (ptr == 0 && k == 0 ==> r[k]["Name"] == StringValue([]))
    && (ptr == 0 && k > 0 ==> "Name" in r[k - 1] && r[k]["Name"] == r[k - 1]["Name"])
    && (ptr != 0 ==> WideStringAt(mem, ptr).Success? && r[k]["Name"] == StringValue(WideStringAt(mem, ptr).value))
  }

  /** Option k of a chained read, described by its own block. */
  lemma OptionAt(id: nat, optionData: (nat, nat) -> seq<Byte>, mem: Memory, r: seq<Values>, k: nat)
    requires k < |r| && ChainedFrom(OptionStep(id, optionData, mem), 0, ZeroValues(PropertyValueOptionDecls), r)
    ensures OptionFromBlock(id, optionData, mem, r, k)
  {
    ZeroOption();
    OptionKeys(id, optionData, mem, r, k);
    assert OptionStep(id, optionData, mem)(0 + k, PriorOption(r, k)) == Success(r[k]);
    OptionReadContents(id, optionData, k, PriorOption(r, k), mem);
  }

  /** The n options of a property, each as its own block describes it. The
      option record is shared, so an option whose name pointer is null
      repeats the name of the option before it. */
  lemma OptionsRead(id: nat, optionData: (nat, nat) -> seq<Byte>, n: nat, mem: Memory)
    ensures var r := OptionsOf(id, optionData, n, mem);
      r.Success? ==> |r.value| == n && forall k :: 0 <= k < n ==> OptionFromBlock(id, optionData, mem, r.value, k)
  {
    var r := OptionsOf(id, optionData, n, mem);
    ChainValues(OptionStep(id, optionData, mem), 0, n, ZeroValues(PropertyValueOptionDecls));
    if r.Success? {
      forall k | 0 <= k < n
        ensures OptionFromBlock(id, optionData, mem, r.value, k)
      {
        OptionAt(id, optionData, mem, r.value, k);
      }
    }
  }

  /** The 20 bytes the driver leaves in the descriptor buffer of property id. */
  function DescriptorBlock(id: nat, descriptorData: nat -> seq<Byte>): (r: seq<Byte>)
    ensures |r| == 20
  {
    Overlay(Zeros(20), descriptorData(id))
  }

  /** A fresh descriptor record: every field present, the name empty. */
  lemma ZeroDescriptor()
    ensures var z := ZeroValues(PropertyDescriptorDecls);
      && "ID" in z && "TypeId" in z && "Type" in z && "Flags" in z && "Name" in z && "ValueCount" in z && "Values" in z
      && z["Name"] == StringValue([])
  {
    PropertyDescriptorNamesDistinct();
    ZeroValuesAt(PropertyDescriptorDecls, 0);
    ZeroValuesAt(PropertyDescriptorDecls, 1);
    ZeroValuesAt(PropertyDescriptorDecls, 2);
    ZeroValuesAt(PropertyDescriptorDecls, 3);
    ZeroValuesAt(PropertyDescriptorDecls, 4);
    ZeroValuesAt(PropertyDescriptorDecls, 5);
    ZeroValuesAt(PropertyDescriptorDecls, 6);
    assert PropertyDescriptorDecls[0].name == "ID" && PropertyDescriptorDecls[1].name == "TypeId";
    assert PropertyDescriptorDecls[2].name == "Type" && PropertyDescriptorDecls[3].name == "Flags";
    assert PropertyDescriptorDecls[4] == FieldDecl("Name", GoString, "LPWSTR");
    assert PropertyDescriptorDecls[5].name == "ValueCount" && PropertyDescriptorDecls[6].name == "Values";
  }

  /** The descriptor record read from its block into a fresh record. */
  lemma DescriptorRecord(blk: seq<Byte>, mem: Memory)
    requires Unmarshaled(PropertyDescriptorDecls, blk, mem, ZeroValues(PropertyDescriptorDecls)).Success?
    ensures |blk| >= 20
    ensures var pd := Unmarshaled(PropertyDescriptorDecls, blk, mem, ZeroValues(PropertyDescriptorDecls)).value.vals;
      var ptr := LeValue(blk[8..16]);
      && UintOf(pd, "ID") == LeValue(blk[..4])
      && UintOf(pd, "TypeId") == LeValue(blk[4..6])
      && UintOf(pd, "Flags") == LeValue(blk[6..8])
      && UintOf(pd, "ValueCount") == LeValue(blk[16..20])
      && "Name" in pd
      && (ptr == 0 ==> pd["Name"] == StringValue([]))
      && (ptr != 0 ==> WideStringAt(mem, ptr).Success? && pd["Name"] == StringValue(WideStringAt(mem, ptr).value))
  {
    ZeroDescriptor();
    PropertyDescriptorContents(blk, mem, ZeroValues(PropertyDescriptorDecls));
    PropertyDescriptorName(blk, mem, ZeroValues(PropertyDescriptorDecls));
  }

  /** A descriptor as its block describes it: id, flags and name from the
      block, the type name from the type code in the two bytes at offset 4,
      and as many options as the four bytes at offset 16 say, each as its
      own option block describes it. */
  lemma DescribeContents(id: nat, descriptorData: nat -> seq<Byte>, optionData: (nat, nat) -> seq<Byte>, mem: Memory)
    ensures var d := Describe(id, descriptorData, optionData, mem);
      var blk := DescriptorBlock(id, descriptorData);
      var ptr := LeValue(blk[8..16]);
      d.Success? ==>
        && UintOf(d.value.record, "ID") == LeValue(blk[..4])
        && UintOf(d.value.record, "Flags") == LeValue(blk[6..8])
        && d.value.typeName == TypeIdToString(LeValue(blk[4..6]))
        && "Name" in d.value.record
        && (ptr == 0 ==> d.value.record["Name"] == StringValue([]))
        && (ptr != 0 ==> WideStringAt(mem, ptr).Success? && d.value.record["Name"] == StringValue(WideStringAt(mem, ptr).value))
        && |d.value.options| == LeValue(blk[16..20])
        && forall k :: 0 <= k < |d.value.options| ==> OptionFromBlock(id, optionData, mem, d.value.options, k)
  {
    var d := Describe(id, descriptorData, optionData, mem);
    if d.Success? {
      var blk := DescriptorBlock(id, descriptorData);
      PropertyDescriptorLayout();
      assert DriverBlock(PropertyDescriptorDecls, descriptorData(id)) == Success(blk);
      DescriptorRecord(blk, mem);
      var n := LeValue(blk[16..20]);
      OptionsRead(id, optionData, n, mem);
    }
  }

  /** Descriptors i to count - 1: the walk succeeds exactly when the id
      buffer holds them all and each of their ids is described, and then
      descriptor k is that of id i + k. */
  lemma {:induction false} DescribeFromValues(describe: nat -> Result<Descriptor>, ids: seq<Byte>, i: nat, count: nat)
    requires i <= count
    ensures var r := DescribeFrom(describe, ids, i, count);
      && (r.Success? <==> (i == count || 4 * count <= |ids|) && forall k :: i <= k < count ==> describe(PropertyIdAt(ids, k)).Success?)
      && (r.Success? ==>
            && |r.value| == count - i
            && forall k :: 0 <= k < count - i ==> describe(PropertyIdAt(ids, i + k)) == Success(r.value[k]))
    decreases count - i
  {
    if i < count && 4 * i + 4 <= |ids| {
      var d := describe(PropertyIdAt(ids, i));
      DescribeFromValues(describe, ids, i + 1, count);
      var rest := DescribeFrom(describe, ids, i + 1, count);
      if d.Success? && rest.Success? {
        var r := DescribeFrom(describe, ids, i, count).value;
        assert r == [d.value] + rest.value;
        forall k | 0 <= k < count - i
          ensures describe(PropertyIdAt(ids, i + k)) == Success(r[k])
        {
          if k > 0 {
            assert r[k] == rest.value[k - 1];
            assert i + k == (i + 1) + (k - 1);
          }
        }
      } else if d.Success? {
        if i + 1 < count && 4 * count <= |ids| {
          var k :| i + 1 <= k < count && !describe(PropertyIdAt(ids, k)).Success?;
        }
      }
    }
  }

  /** The descriptors walk over an id buffer of sized ids: it succeeds
      exactly when count ids fit and each is described, and descriptor k is
      that of the little-endian id in bytes 4k to 4k + 3. */
  lemma DescribeIds(describe: nat -> Result<Descriptor>, sized: nat, written: seq<Byte>, count: nat)
    ensures var ids := Overlay(Zeros(4 * sized), written);
      var r := DescribeFrom(describe, ids, 0, count);
      && (r.Success? <==> count <= sized && forall k :: 0 <= k < count ==> describe(LeValue(ids[4 * k..4 * k + 4])).Success?)
      && (r.Success? ==>
            && |r.value| == count
            && forall k :: 0 <= k < count ==> describe(LeValue(ids[4 * k..4 * k + 4])) == Success(r.value[k]))
  {
    var ids := Overlay(Zeros(4 * sized), written);
    DescribeFromValues(describe, ids, 0, count);
    var r := DescribeFrom(describe, ids, 0, count);
    if count <= sized {
      forall k | 0 <= k < count
        ensures PropertyIdAt(ids, k) == LeValue(ids[4 * k..4 * k + 4])
        ensures PropertyIdAt(ids, 0 + k) == LeValue(ids[4 * k..4 * k + 4])
      {
        PropertyIdIsLittleEndian(ids, k);
      }
    }
  }

  /** The descriptors handler. Without a retry answer the list is empty;
      a retry with no ids fails; otherwise the handler succeeds exactly
      when the id buffer holds count ids and each of them is described,
      and descriptor k is that of the little-endian id in bytes 4k to 4k + 3. */
  lemma PropertyDescriptorsRead(retry: bool, sized: nat, written: seq<Byte>, count: nat, descriptorData: nat -> seq<Byte>,
                                optionData: (nat, nat) -> seq<Byte>, mem: Memory)
    ensures var r := PropertyDescriptors(retry, sized, written, count, descriptorData, optionData, mem);
      var ids := Overlay(Zeros(4 * sized), written);
      && (!retry ==> r == Success([]))
      && (retry && sized == 0 ==> r == Failure(SliceOutOfRange(1, 0)))
      && (retry && sized > 0 ==>
            && (r.Success? <==> count <= sized && forall k :: 0 <= k < count ==>
                  Describe(LeValue(ids[4 * k..4 * k + 4]), descriptorData, optionData, mem).Success?)
            && (r.Success? ==>
                  && |r.value| == count
                  && forall k :: 0 <= k < count ==>
                       Describe(LeValue(ids[4 * k..4 * k + 4]), descriptorData, optionData, mem) == Success(r.value[k])))
  {
    DescribeIds(DescribeStep(descriptorData, optionData, mem), sized, written, count);
  }

  lemma MulStep(size: nat, count: nat)
    requires count > 0
    ensures size * count == size * (count - 1) + size
  {
  }
}
