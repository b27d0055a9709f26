/** The record types the camera service exchanges with the camera driver,
    written as declaration lists with their `windows` tags, and the block
    layout each one gets: its wire fields, their offsets and its size. */
module Layouts {
  import opened Errors
  import opened Wire
  import opened NativeMemory
  import opened WinTypes
  import opened Meta
  import opened Values
  import opened Decoding
  import opened WinStruct

  const WORD := WinType("WORD", 2, Unsigned)
  const DWORD := WinType("DWORD", 4, Unsigned)
  const DOUBLE := WinType("double", 8, Double)
  const LPWSTR := WinType("LPWSTR", 8, WideStringPointer)
  const LPBYTE := WinType("LPBYTE", 8, BytePointer)

  /** The tag that declares field f: its wire type's name, then the option
      after a comma when there is one. */
  function TagFor(f: Field): string
  {
    if f.options == "" then f.wt.name else f.wt.name + [','] + f.options
  }

  /** A declaration carrying the tag of a catalogue field resolves to that field. */
  lemma TagResolves(d: FieldDecl, f: Field)
    requires d.name == f.name && f.wt in Catalogue && d.tag == TagFor(f)
    ensures ResolveField(d) == Success(f)
    ensures !IsSkipped(d)
  {
    CatalogueNamesPlain();
    ParseTagOf(f.wt.name, f.options);
    GetWinTypeExact(f.wt.name);
    assert f.wt in Catalogue && f.wt.name == f.wt.name;
    if f.options != "" {
      assert |d.tag| > |f.wt.name| >= 1;
    }
  }

  /** A run of consecutive fields declared with the same Go type and tag. */
  function Run(names: seq<string>, goType: GoType, tag: string): (r: seq<FieldDecl>)
    ensures |r| == |names|
  {
    seq(|names|, i requires 0 <= i < |names| => FieldDecl(names[i], goType, tag))
  }

  /** The wire fields of such a run. */
  function RunFields(names: seq<string>, wt: WinType, options: string): (r: seq<Field>)
    ensures |r| == |names|
  {
    seq(|names|, i requires 0 <= i < |names| => Field(names[i], wt, options))
  }

  /** The fields of a run sit back to back, each one width after the last. */
  lemma {:induction false} RunFieldsSize(names: seq<string>, wt: WinType, options: string)
    ensures FieldsSize(RunFields(names, wt, options)) == |names| * wt.size
    ensures forall i :: 0 <= i <= |names| ==> Offset(RunFields(names, wt, options), i) == i * wt.size
  {
    if names != [] {
      assert RunFields(names, wt, options)[1..] == RunFields(names[1..], wt, options);
      RunFieldsSize(names[1..], wt, options);
    }
    forall i | 0 <= i <= |names|
      ensures Offset(RunFields(names, wt, options), i) == i * wt.size
    {
      assert RunFields(names, wt, options)[..i] == RunFields(names[..i], wt, options);
      if i < |names| {
        RunFieldsSize(names[..i], wt, options);
      } else {
        assert names[..i] == names;
      }
    }
  }

  /** A run tagged with a catalogue type resolves field by field to that type. */
  lemma RunLayout(names: seq<string>, goType: GoType, wt: WinType, options: string)
    requires wt in Catalogue
    ensures MetaOf(Run(names, goType, TagFor(Field("", wt, options))))
      == Success(Meta(|names| * wt.size, RunFields(names, wt, options)))
  {
    var tag := TagFor(Field("", wt, options));
    forall n: string
      ensures ResolveField(FieldDecl(n, goType, tag)) == Success(Field(n, wt, options))
      ensures !IsSkipped(FieldDecl(n, goType, tag))
    {
      assert TagFor(Field(n, wt, options)) == tag;
      TagResolves(FieldDecl(n, goType, tag), Field(n, wt, options));
    }
    RunWith(ResolveField, names, goType, tag, wt, options);
    MetaOfSuccess(Run(names, goType, tag));
    RunFieldsSize(names, wt, options);
  }

  /** The same for any resolution that maps each declaration of the run to
      its field. */
  lemma {:induction false} RunWith(resolve: FieldDecl -> Result<Field>, names: seq<string>, goType: GoType, tag: string, wt: WinType, options: string)
    requires forall n: string :: resolve(FieldDecl(n, goType, tag)) == Success(Field(n, wt, options))
    requires forall n: string :: !IsSkipped(FieldDecl(n, goType, tag))
    ensures MetaWith(resolve, Run(names, goType, tag)).Success?
    ensures MetaWith(resolve, Run(names, goType, tag)).value.fields == RunFields(names, wt, options)
  {
    if names != [] {
      var k := |names| - 1;
      var init, d := Run(names[..k], goType, tag), FieldDecl(names[k], goType, tag);
      assert Run(names, goType, tag) == init + [d];
      RunWith(resolve, names[..k], goType, tag, wt, options);
      MetaWithSnoc(resolve, init, d);
      assert !IsSkipped(d) && resolve(d) == Success(Field(names[k], wt, options));
      assert RunFields(names[..k], wt, options) + [Field(names[k], wt, options)] == RunFields(names, wt, options);
    }
  }

  /** A run of skipped declarations puts nothing on the wire. */
  lemma {:induction false} SkipRun(names: seq<string>, goType: GoType)
    ensures MetaOf(Run(names, goType, SkipTag)) == Success(Meta(0, []))
  {
    if names != [] {
      var n := |names| - 1;
      assert Run(names, goType, SkipTag)[..n] == Run(names[..n], goType, SkipTag);
      SkipRun(names[..n], goType);
    }
  }

  /** The names of a declaration list, in order. */
  function DeclNames(decls: seq<FieldDecl>): (r: seq<string>)
    ensures |r| == |decls| && forall i :: 0 <= i < |decls| ==> r[i] == decls[i].name
  {
    seq(|decls|, i requires 0 <= i < |decls| => decls[i].name)
  }

  predicate UniqueStrings(names: seq<string>)
  {
    forall i, j :: 0 <= i < j < |names| ==> names[i] != names[j]
  }

  /** The names of a run are the names it was built from. */
  lemma RunNames(names: seq<string>, goType: GoType, tag: string)
    ensures DeclNames(Run(names, goType, tag)) == names
  {
  }

  /** The names of joined lists are the joined names. */
  lemma JoinNames(a: seq<FieldDecl>, b: seq<FieldDecl>, na: seq<string>, nb: seq<string>)
    requires DeclNames(a) == na && DeclNames(b) == nb
    ensures DeclNames(a + b) == na + nb
  {
  }

  /** Two name lists without repeats and without a name in common join
      into one without repeats. */
  lemma UniqueJoin(a: seq<string>, b: seq<string>)
    requires UniqueStrings(a) && UniqueStrings(b)
    requires forall i, j :: 0 <= i < |a| && 0 <= j < |b| ==> a[i] != b[j]
    ensures UniqueStrings(a + b)
  {
  }

  /** A declaration list has distinct names when its list of names has no repeats. */
  lemma UniqueDeclNames(decls: seq<FieldDecl>, names: seq<string>)
    requires DeclNames(decls) == names && UniqueStrings(names)
    ensures DistinctNames(decls)
  {
    forall i, j | 0 <= i < j < |decls| ensures decls[i].name != decls[j].name {
      assert decls[i].name == names[i] && decls[j].name == names[j];
    }
  }

  /** Offsets within the middle one of three joined field lists are shifted
      by the width of the first. */
  lemma OffsetWithin(a: seq<Field>, b: seq<Field>, c: seq<Field>, i: nat)
    requires i <= |b|
    ensures Offset(a + b + c, |a| + i) == FieldsSize(a) + Offset(b, i)
  {
    assert a + b + c == a + (b + c);
    OffsetAppend(a, b + c, i);
    assert (b + c)[..i] == b[..i];
  }

  /** Offsets in the second of two joined field lists are shifted by the
      width of the first. */
  lemma OffsetAppend(a: seq<Field>, b: seq<Field>, i: nat)
    requires i <= |b|
    ensures Offset(a + b, |a| + i) == FieldsSize(a) + Offset(b, i)
  {
    var s := (a + b)[..|a| + i];
    assert s == a + b[..i] by {
      forall k | 0 <= k < |s| ensures s[k] == (a + b[..i])[k] {
        if k >= |a| {
          assert s[k] == b[k - |a|];
        }
      }
    }
    FieldsSizeAppend(a, b[..i]);
  }

  // ---------------------------------------------------------------- device

  /** An enumerated camera: four wide-string pointers. */
  const DeviceNames: seq<string> := ["ID", "Manufacturer", "Model", "RegistryPath"]

  const DeviceDecls: seq<FieldDecl> := Run(DeviceNames, GoString, "LPWSTR")

  /** The device block is four 8-byte pointers, 32 bytes in all. */
  lemma DeviceLayout()
    ensures MetaOf(DeviceDecls) == Success(Meta(32, RunFields(DeviceNames, LPWSTR, "")))
    ensures Size(DeviceDecls) == Success(32)
    ensures forall k :: 0 <= k <= 4 ==> Offset(RunFields(DeviceNames, LPWSTR, ""), k) == 8 * k
  {
    RunLayout(DeviceNames, GoString, LPWSTR, "");
    RunFieldsSize(DeviceNames, LPWSTR, "");
  }

  lemma DeviceNamesDistinct()
    ensures DistinctNames(DeviceDecls)
  {
  }

  // ------------------------------------------------------------ deviceInfo

  const InfoDwords: seq<string> := [
    "Version", "SensorImageWidth", "SensorImageHeight", "CroppedImageWidth",
    "CroppedImageHeight", "BayerXOffset", "BayerYOffset", "CropMode"]
  const InfoDoubles: seq<string> := [
    "ExposureTimeMin", "ExposureTimeMax", "ExposureTimeStep", "PixelWidth", "PixelHeight"]
  const InfoBitsPerPixel: seq<string> := ["BitsPerPixel", "BppPad"]
  const InfoStrings: seq<string> := [
    "Manufacturer", "Model", "SerialNumber", "DeviceName", "SensorName", "DeviceVersion"]

  /** The description of a camera the driver reports: eight DWORDs, five
      doubles, two DWORDs (the second pads the pointers that follow to an
      8-byte boundary) and six wide-string pointers. */
  const DeviceInfoDecls: seq<FieldDecl> :=
    Run(InfoDwords, GoUint, "DWORD") + Run(InfoDoubles, GoFloat, "double")
    + Run(InfoBitsPerPixel, GoUint, "DWORD") + Run(InfoStrings, GoString, "LPWSTR")

  const DeviceInfoFields: seq<Field> :=
    RunFields(InfoDwords, DWORD, "") + RunFields(InfoDoubles, DOUBLE, "")
    + RunFields(InfoBitsPerPixel, DWORD, "") + RunFields(InfoStrings, LPWSTR, "")

  /** The deviceInfo block is 128 bytes, its fields those of the four runs
      in order. */
  lemma DeviceInfoLayout()
    ensures MetaOf(DeviceInfoDecls) == Success(Meta(128, DeviceInfoFields))
    ensures Size(DeviceInfoDecls) == Success(128)
  {
    var d1, d2, d3, d4 := Run(InfoDwords, GoUint, "DWORD"), Run(InfoDoubles, GoFloat, "double"),
      Run(InfoBitsPerPixel, GoUint, "DWORD"), Run(InfoStrings, GoString, "LPWSTR");
    var f1, f2, f3, f4 := RunFields(InfoDwords, DWORD, ""), RunFields(InfoDoubles, DOUBLE, ""),
      RunFields(InfoBitsPerPixel, DWORD, ""), RunFields(InfoStrings, LPWSTR, "");
    RunLayout(InfoDwords, GoUint, DWORD, "");
    RunLayout(InfoDoubles, GoFloat, DOUBLE, "");
    RunLayout(InfoBitsPerPixel, GoUint, DWORD, "");
    RunLayout(InfoStrings, GoString, LPWSTR, "");
    MetaJoin(d1, d2, Meta(32, f1), Meta(40, f2));
    MetaJoin(d1 + d2, d3, Meta(72, f1 + f2), Meta(8, f3));
    MetaJoin(d1 + d2 + d3, d4, Meta(80, f1 + f2 + f3), Meta(48, f4));
  }

  /** DWORDs from 0, doubles from 32, BitsPerPixel at 72 and its pad at 76,
      then the six pointers on 8-byte boundaries from 80, the last one
      ending at byte 127. */
  lemma DeviceInfoOffsets()
    ensures forall k :: 0 <= k <= 8 ==> Offset(DeviceInfoFields, k) == 4 * k
    ensures forall k :: 8 <= k <= 13 ==> Offset(DeviceInfoFields, k) == 32 + 8 * (k - 8)
    ensures Offset(DeviceInfoFields, 14) == 76
    ensures forall k :: 15 <= k <= 21 ==> Offset(DeviceInfoFields, k) == 80 + 8 * (k - 15)
  {
    var f1, f2, f3, f4 := RunFields(InfoDwords, DWORD, ""), RunFields(InfoDoubles, DOUBLE, ""),
      RunFields(InfoBitsPerPixel, DWORD, ""), RunFields(InfoStrings, LPWSTR, "");
    RunFieldsSize(InfoDwords, DWORD, "");
    RunFieldsSize(InfoDoubles, DOUBLE, "");
    RunFieldsSize(InfoBitsPerPixel, DWORD, "");
    RunFieldsSize(InfoStrings, LPWSTR, "");
    FieldsSizeAppend(f1, f2);
    FieldsSizeAppend(f1 + f2, f3);
    forall k | 0 <= k <= 8 ensures Offset(DeviceInfoFields, k) == 4 * k {
      OffsetWithin([], f1, f2 + f3 + f4, k);
      assert [] + f1 + (f2 + f3 + f4) == DeviceInfoFields;
    }
    forall k | 8 <= k <= 13 ensures Offset(DeviceInfoFields, k) == 32 + 8 * (k - 8) {
      OffsetWithin(f1, f2, f3 + f4, k - 8);
      assert f1 + f2 + (f3 + f4) == DeviceInfoFields;
    }
    OffsetWithin(f1 + f2, f3, f4, 1);
    forall k | 15 <= k <= 21 ensures Offset(DeviceInfoFields, k) == 80 + 8 * (k - 15) {
      OffsetAppend(f1 + f2 + f3, f4, k - 15);
    }
  }

  lemma DeviceInfoNamesDistinct()
    ensures DistinctNames(DeviceInfoDecls)
  {
    var d1, d2, d3, d4 := Run(InfoDwords, GoUint, "DWORD"), Run(InfoDoubles, GoFloat, "double"),
      Run(InfoBitsPerPixel, GoUint, "DWORD"), Run(InfoStrings, GoString, "LPWSTR");
    RunNames(InfoDwords, GoUint, "DWORD");
    RunNames(InfoDoubles, GoFloat, "double");
    RunNames(InfoBitsPerPixel, GoUint, "DWORD");
    RunNames(InfoStrings, GoString, "LPWSTR");
    JoinNames(d1, d2, InfoDwords, InfoDoubles);
    JoinNames(d3, d4, InfoBitsPerPixel, InfoStrings);
    JoinNames(d1 + d2, d3 + d4, InfoDwords + InfoDoubles, InfoBitsPerPixel + InfoStrings);
    InfoNamesUnique();
    assert DeviceInfoDecls == (d1 + d2) + (d3 + d4);
    UniqueDeclNames(DeviceInfoDecls, (InfoDwords + InfoDoubles) + (InfoBitsPerPixel + InfoStrings));
  }

  lemma InfoNamesUnique()
    ensures UniqueStrings((InfoDwords + InfoDoubles) + (InfoBitsPerPixel + InfoStrings))
  {
    InfoNamesApart();
    UniqueJoin(InfoDwords + InfoDoubles, InfoBitsPerPixel + InfoStrings);
  }

  lemma InfoNamesApart()
    ensures UniqueStrings(InfoDwords + InfoDoubles) && UniqueStrings(InfoBitsPerPixel + InfoStrings)
    ensures forall i, j :: 0 <= i < 13 && 0 <= j < 8 ==> (InfoDwords + InfoDoubles)[i] != (InfoBitsPerPixel + InfoStrings)[j]
  {
  }

  // ---------------------------------------------------------------- camera

  const CameraDwords: seq<string> := [
    "Flags", "SensorImageWidth", "SensorImageHeight", "CroppedImageWidth",
    "CroppedImageHeight", "PreviewWidth", "PreviewHeight", "BayerXOffset",
    "BayerYOffset", "Pad"]
  const CameraDoubles: seq<string> := ["PixelWidth", "PixelHeight"]

  /** A camera being learnt: ten DWORDs, the last one padding, then two doubles. */
  const CameraDecls: seq<FieldDecl> :=
    Run(CameraDwords, GoUint, "DWORD") + Run(CameraDoubles, GoFloat, "double")

  const CameraFields: seq<Field> :=
    RunFields(CameraDwords, DWORD, "") + RunFields(CameraDoubles, DOUBLE, "")

  /** The camera block is 56 bytes: ten DWORDs, then the doubles at 40 and 48. */
  lemma CameraLayout()
    ensures MetaOf(CameraDecls) == Success(Meta(56, CameraFields))
    ensures Size(CameraDecls) == Success(56)
  {
    RunLayout(CameraDwords, GoUint, DWORD, "");
    RunLayout(CameraDoubles, GoFloat, DOUBLE, "");
    MetaAppend(Run(CameraDwords, GoUint, "DWORD"), Run(CameraDoubles, GoFloat, "double"));
  }

  lemma CameraOffsets()
    ensures forall k :: 0 <= k <= 10 ==> Offset(CameraFields, k) == 4 * k
    ensures Offset(CameraFields, 11) == 48
  {
    var f1, f2 := RunFields(CameraDwords, DWORD, ""), RunFields(CameraDoubles, DOUBLE, "");
    RunFieldsSize(CameraDwords, DWORD, "");
    RunFieldsSize(CameraDoubles, DOUBLE, "");
    forall k | 0 <= k <= 10 ensures Offset(CameraFields, k) == 4 * k {
      OffsetWithin([], f1, f2, k);
      assert [] + f1 + f2 == CameraFields;
    }
    OffsetAppend(f1, f2, 1);
  }

  lemma CameraNamesDistinct()
    ensures DistinctNames(CameraDecls)
  {
  }

  // --------------------------------------------------- propertyValueOption

  /** One choice of an enumerated property: its value, a pad, and its name. */
  const PropertyValueOptionDecls: seq<FieldDecl> :=
    Run(["Value", "ValuePad"], GoUint, "DWORD") + Run(["Name"], GoString, "LPWSTR")

  const PropertyValueOptionFields: seq<Field> :=
    RunFields(["Value", "ValuePad"], DWORD, "") + RunFields(["Name"], LPWSTR, "")

  /** The option block is 16 bytes with the name pointer at offset 8. */
  lemma PropertyValueOptionLayout()
    ensures MetaOf(PropertyValueOptionDecls) == Success(Meta(16, PropertyValueOptionFields))
    ensures Size(PropertyValueOptionDecls) == Success(16)
  {
    RunLayout(["Value", "ValuePad"], GoUint, DWORD, "");
    RunLayout(["Name"], GoString, LPWSTR, "");
    MetaAppend(Run(["Value", "ValuePad"], GoUint, "DWORD"), Run(["Name"], GoString, "LPWSTR"));
  }

  lemma PropertyValueOptionOffsets()
    ensures Offset(PropertyValueOptionFields, 1) == 4 && Offset(PropertyValueOptionFields, 2) == 8
  {
    var f1, f2 := RunFields(["Value", "ValuePad"], DWORD, ""), RunFields(["Name"], LPWSTR, "");
    RunFieldsSize(["Value", "ValuePad"], DWORD, "");
    OffsetWithin([], f1, f2, 1);
    assert [] + f1 + f2 == PropertyValueOptionFields;
    OffsetAppend(f1, f2, 0);
  }

  lemma PropertyValueOptionNamesDistinct()
    ensures DistinctNames(PropertyValueOptionDecls)
  {
  }

  /** An option block holds the option's value in its first four bytes and
      a pointer to its name at offset 8; a null name pointer leaves the
      record's name as it was. */
  lemma PropertyValueOptionContents(block: seq<Byte>, mem: Memory, y: Values)
    requires "Value" in y && "ValuePad" in y && "Name" in y
    requires Unmarshaled(PropertyValueOptionDecls, block, mem, y).Success?
    ensures |block| >= 16
    ensures var r := Unmarshaled(PropertyValueOptionDecls, block, mem, y).value.vals;
      var ptr := LeValue(block[8..16]);
      && "Value" in r && r["Value"].UintValue? && r["Value"].u == LeValue(block[..4])
      && "Name" in r
      && (ptr == 0 ==> r["Name"] == y["Name"])
      && (ptr != 0 ==> WideStringAt(mem, ptr).Success? && r["Name"] == StringValue(WideStringAt(mem, ptr).value))
  {
    PropertyValueOptionLayout();
    PropertyValueOptionOffsets();
    assert PropertyValueOptionFields == [Field("Value", DWORD, ""), Field("ValuePad", DWORD, ""), Field("Name", LPWSTR, "")];
    UnmarshaledUnsignedAt(PropertyValueOptionDecls, block, mem, y, 0);
    UnmarshaledWideStringAt(PropertyValueOptionDecls, block, mem, y, 2);
  }

  // --------------------------------------------------------- propertyValue

  /** The current value of a property: its id, its value and a text pointer. */
  const PropertyValueDecls: seq<FieldDecl> :=
    Run(["ID", "Value"], GoUint, "DWORD") + Run(["Text"], GoString, "LPWSTR")

  const PropertyValueFields: seq<Field> :=
    RunFields(["ID", "Value"], DWORD, "") + RunFields(["Text"], LPWSTR, "")

  /** The property value block is 16 bytes with the text pointer at offset 8. */
  lemma PropertyValueLayout()
    ensures MetaOf(PropertyValueDecls) == Success(Meta(16, PropertyValueFields))
    ensures Size(PropertyValueDecls) == Success(16)
  {
    RunLayout(["ID", "Value"], GoUint, DWORD, "");
    RunLayout(["Text"], GoString, LPWSTR, "");
    MetaAppend(Run(["ID", "Value"], GoUint, "DWORD"), Run(["Text"], GoString, "LPWSTR"));
  }

  lemma PropertyValueOffsets()
    ensures Offset(PropertyValueFields, 1) == 4 && Offset(PropertyValueFields, 2) == 8
  {
    var f1, f2 := RunFields(["ID", "Value"], DWORD, ""), RunFields(["Text"], LPWSTR, "");
    RunFieldsSize(["ID", "Value"], DWORD, "");
    OffsetWithin([], f1, f2, 1);
    assert [] + f1 + f2 == PropertyValueFields;
    OffsetAppend(f1, f2, 0);
  }

  lemma PropertyValueNamesDistinct()
    ensures DistinctNames(PropertyValueDecls)
  {
  }

  /** A property value block holds the id in its first four bytes, the
      value in the next four and a pointer to the text at offset 8; a null
      text pointer leaves the record's text as it was. */
  lemma PropertyValueContents(block: seq<Byte>, mem: Memory, y: Values)
    requires "ID" in y && "Value" in y && "Text" in y
    requires Unmarshaled(PropertyValueDecls, block, mem, y).Success?
    ensures |block| >= 16
    ensures var r := Unmarshaled(PropertyValueDecls, block, mem, y).value.vals;
      var ptr := LeValue(block[8..16]);
      && "ID" in r && r["ID"].UintValue? && r["ID"].u == LeValue(block[..4])
      && "Value" in r && r["Value"].UintValue? && r["Value"].u == LeValue(block[4..8])
      && "Text" in r
      && (ptr == 0 ==> r["Text"] == y["Text"])
      && (ptr != 0 ==> WideStringAt(mem, ptr).Success? && r["Text"] == StringValue(WideStringAt(mem, ptr).value))
  {
    PropertyValueLayout();
    PropertyValueOffsets();
    assert PropertyValueFields == [Field("ID", DWORD, ""), Field("Value", DWORD, ""), Field("Text", LPWSTR, "")];
    UnmarshaledUnsignedAt(PropertyValueDecls, block, mem, y, 0);
    UnmarshaledUnsignedAt(PropertyValueDecls, block, mem, y, 1);
    UnmarshaledWideStringAt(PropertyValueDecls, block, mem, y, 2);
  }

  // ---------------------------------------------------- propertyDescriptor

  /** The description of a camera property. Its type name and its list of
      enumerated options are filled in by the service, not read from the block. */
  const PropertyDescriptorDecls: seq<FieldDecl> :=
    Run(["ID"], GoUint, "DWORD") + Run(["TypeId"], GoUint, "WORD") + Run(["Type"], GoString, SkipTag)
    + Run(["Flags"], GoUint, "WORD") + Run(["Name"], GoString, "LPWSTR")
    + Run(["ValueCount"], GoUint, "DWORD") + Run(["Values"], GoOther, SkipTag)

  const PropertyDescriptorFields: seq<Field> :=
    RunFields(["ID"], DWORD, "") + RunFields(["TypeId"], WORD, "") + RunFields(["Flags"], WORD, "")
    + RunFields(["Name"], LPWSTR, "") + RunFields(["ValueCount"], DWORD, "")

  /** The two declarations without a wire type stay off the wire: the
      descriptor block holds five fields in 20 bytes. */
  lemma PropertyDescriptorLayout()
    ensures MetaOf(PropertyDescriptorDecls) == Success(Meta(20, PropertyDescriptorFields))
    ensures Size(PropertyDescriptorDecls) == Success(20)
  {
    var d1, d2, d3 := Run(["ID"], GoUint, "DWORD"), Run(["TypeId"], GoUint, "WORD"), Run(["Type"], GoString, SkipTag);
    var d4, d5 := Run(["Flags"], GoUint, "WORD"), Run(["Name"], GoString, "LPWSTR");
    var d6, d7 := Run(["ValueCount"], GoUint, "DWORD"), Run(["Values"], GoOther, SkipTag);
    RunLayout(["ID"], GoUint, DWORD, "");
    RunLayout(["TypeId"], GoUint, WORD, "");
    SkipRun(["Type"], GoString);
    RunLayout(["Flags"], GoUint, WORD, "");
    RunLayout(["Name"], GoString, LPWSTR, "");
    RunLayout(["ValueCount"], GoUint, DWORD, "");
    SkipRun(["Values"], GoOther);
    MetaAppend(d1, d2);
    MetaAppend(d1 + d2, d3);
    MetaAppend(d1 + d2 + d3, d4);
    MetaAppend(d1 + d2 + d3 + d4, d5);
    MetaAppend(d1 + d2 + d3 + d4 + d5, d6);
    MetaAppend(d1 + d2 + d3 + d4 + d5 + d6, d7);
  }

  /** ID at 0, the type code at 4, the flags at 6, the name pointer at 8 and
      the option count at 16. */
  lemma PropertyDescriptorOffsets()
    ensures Offset(PropertyDescriptorFields, 1) == 4 && Offset(PropertyDescriptorFields, 2) == 6
    ensures Offset(PropertyDescriptorFields, 3) == 8 && Offset(PropertyDescriptorFields, 4) == 16
  {
    var f1, f2, f3 := RunFields(["ID"], DWORD, ""), RunFields(["TypeId"], WORD, ""), RunFields(["Flags"], WORD, "");
    var f4, f5 := RunFields(["Name"], LPWSTR, ""), RunFields(["ValueCount"], DWORD, "");
    RunFieldsSize(["ID"], DWORD, "");
    RunFieldsSize(["TypeId"], WORD, "");
    RunFieldsSize(["Flags"], WORD, "");
    RunFieldsSize(["Name"], LPWSTR, "");
    FieldsSizeAppend(f1, f2);
    FieldsSizeAppend(f1 + f2, f3);
    FieldsSizeAppend(f1 + f2 + f3, f4);
    OffsetWithin(f1, f2, f3 + f4 + f5, 0);
    assert f1 + f2 + (f3 + f4 + f5) == PropertyDescriptorFields;
    OffsetWithin(f1 + f2, f3, f4 + f5, 0);
    assert f1 + f2 + f3 + (f4 + f5) == PropertyDescriptorFields;
    OffsetWithin(f1 + f2 + f3, f4, f5, 0);
    OffsetAppend(f1 + f2 + f3 + f4, f5, 0);
  }

  lemma PropertyDescriptorNamesDistinct()
    ensures DistinctNames(PropertyDescriptorDecls)
  {
  }

  /** The five wire fields of a descriptor, slot by slot; no two share a name. */
  lemma PropertyDescriptorSlots()
    ensures |PropertyDescriptorFields| == 5 && UniqueFieldNames(PropertyDescriptorFields)
    ensures PropertyDescriptorFields[0] == Field("ID", DWORD, "")
    ensures PropertyDescriptorFields[1] == Field("TypeId", WORD, "")
    ensures PropertyDescriptorFields[2] == Field("Flags", WORD, "")
    ensures PropertyDescriptorFields[3] == Field("Name", LPWSTR, "")
    ensures PropertyDescriptorFields[4] == Field("ValueCount", DWORD, "")
  {
    assert PropertyDescriptorFields == [Field("ID", DWORD, ""), Field("TypeId", WORD, ""), Field("Flags", WORD, ""),
      Field("Name", LPWSTR, ""), Field("ValueCount", DWORD, "")];
  }

  /** A descriptor block holds the id at 0, the type code in the two bytes
      at 4, the flags at 6, a pointer to the name at 8 and the number of
      enumerated options in the four bytes at 16. */
  lemma PropertyDescriptorContents(block: seq<Byte>, mem: Memory, y: Values)
    requires "ID" in y && "TypeId" in y && "Flags" in y && "ValueCount" in y
    requires Unmarshaled(PropertyDescriptorDecls, block, mem, y).Success?
    ensures |block| >= 20
    ensures var r := Unmarshaled(PropertyDescriptorDecls, block, mem, y).value.vals;
      && "ID" in r && r["ID"].UintValue? && r["ID"].u == LeValue(block[..4])
      && "TypeId" in r && r["TypeId"].UintValue? && r["TypeId"].u == LeValue(block[4..6])
      && "Flags" in r && r["Flags"].UintValue? && r["Flags"].u == LeValue(block[6..8])
      && "ValueCount" in r && r["ValueCount"].UintValue? && r["ValueCount"].u == LeValue(block[16..20])
  {
    PropertyDescriptorLayout();
    PropertyDescriptorOffsets();
    PropertyDescriptorSlots();
    UnmarshaledUnsignedAt(PropertyDescriptorDecls, block, mem, y, 0);
    UnmarshaledUnsignedAt(PropertyDescriptorDecls, block, mem, y, 1);
    UnmarshaledUnsignedAt(PropertyDescriptorDecls, block, mem, y, 2);
    UnmarshaledUnsignedAt(PropertyDescriptorDecls, block, mem, y, 4);
  }

  /** The descriptor's name is the string at the pointer at offset 8, or
      stays as it was when that pointer is null; its type name and its list
      of options are not on the wire and stay as they were. */
  lemma PropertyDescriptorName(block: seq<Byte>, mem: Memory, y: Values)
    requires "Name" in y && "Type" in y && "Values" in y
    requires Unmarshaled(PropertyDescriptorDecls, block, mem, y).Success?
    ensures |block| >= 20
    ensures var r := Unmarshaled(PropertyDescriptorDecls, block, mem, y).value.vals;
      var ptr := LeValue(block[8..16]);
      && "Name" in r
      && (ptr == 0 ==> r["Name"] == y["Name"])
      && (ptr != 0 ==> WideStringAt(mem, ptr).Success? && r["Name"] == StringValue(WideStringAt(mem, ptr).value))
      && "Type" in r && r["Type"] == y["Type"] && "Values" in r && r["Values"] == y["Values"]
  {
    PropertyDescriptorLayout();
    PropertyDescriptorOffsets();
    PropertyDescriptorSlots();
    UnmarshaledWideStringAt(PropertyDescriptorDecls, block, mem, y, 3);
    UnmarshaledKeeps(PropertyDescriptorDecls, block, mem, y, "Type");
    UnmarshaledKeeps(PropertyDescriptorDecls, block, mem, y, "Values");
  }

  // ------------------------------------------------------------- imageInfo

  const ImageStatusDwords: seq<string> := ["Status", "ImageMode", "Width", "Height", "Flags", "MetaSize"]

  /** A captured image: its size, a pad, a pointer to the image bytes sized
      by the Size field, six DWORDs, a pointer to the metadata bytes sized by
      the MetaSize field, and the exposure duration. */
  const ImageInfoDecls: seq<FieldDecl> :=
    Run(["Size", "SizePad"], GoUint, "DWORD") + Run(["Data"], GoBytes, "LPBYTE,Size")
    + Run(ImageStatusDwords, GoUint, "DWORD") + Run(["Meta"], GoBytes, "LPBYTE,MetaSize")
    + Run(["Duration"], GoFloat, "double")

  const ImageInfoFields: seq<Field> :=
    RunFields(["Size", "SizePad"], DWORD, "") + RunFields(["Data"], LPBYTE, "Size")
    + RunFields(ImageStatusDwords, DWORD, "") + RunFields(["Meta"], LPBYTE, "MetaSize")
    + RunFields(["Duration"], DOUBLE, "")

  /** The image block is 56 bytes. */
  lemma ImageInfoLayout()
    ensures MetaOf(ImageInfoDecls) == Success(Meta(56, ImageInfoFields))
    ensures Size(ImageInfoDecls) == Success(56)
  {
    var d1, d2, d3 := Run(["Size", "SizePad"], GoUint, "DWORD"), Run(["Data"], GoBytes, "LPBYTE,Size"),
      Run(ImageStatusDwords, GoUint, "DWORD");
    var d4, d5 := Run(["Meta"], GoBytes, "LPBYTE,MetaSize"), Run(["Duration"], GoFloat, "double");
    assert TagFor(Field("", LPBYTE, "Size")) == "LPBYTE,Size";
    assert TagFor(Field("", LPBYTE, "MetaSize")) == "LPBYTE,MetaSize";
    RunLayout(["Size", "SizePad"], GoUint, DWORD, "");
    RunLayout(["Data"], GoBytes, LPBYTE, "Size");
    RunLayout(ImageStatusDwords, GoUint, DWORD, "");
    RunLayout(["Meta"], GoBytes, LPBYTE, "MetaSize");
    RunLayout(["Duration"], GoFloat, DOUBLE, "");
    MetaAppend(d1, d2);
    MetaAppend(d1 + d2, d3);
    MetaAppend(d1 + d2 + d3, d4);
    MetaAppend(d1 + d2 + d3 + d4, d5);
  }

  /** The image pointer at 8, the six DWORDs from 16, the metadata pointer
      at 40 and the duration at 48. */
  lemma ImageInfoOffsets()
    ensures Offset(ImageInfoFields, 2) == 8
    ensures forall k :: 3 <= k <= 9 ==> Offset(ImageInfoFields, k) == 16 + 4 * (k - 3)
    ensures Offset(ImageInfoFields, 10) == 48
  {
    var f1, f2, f3 := RunFields(["Size", "SizePad"], DWORD, ""), RunFields(["Data"], LPBYTE, "Size"),
      RunFields(ImageStatusDwords, DWORD, "");
    var f4, f5 := RunFields(["Meta"], LPBYTE, "MetaSize"), RunFields(["Duration"], DOUBLE, "");
    RunFieldsSize(["Size", "SizePad"], DWORD, "");
    RunFieldsSize(["Data"], LPBYTE, "Size");
    RunFieldsSize(ImageStatusDwords, DWORD, "");
    RunFieldsSize(["Meta"], LPBYTE, "MetaSize");
    FieldsSizeAppend(f1, f2);
    FieldsSizeAppend(f1 + f2, f3);
    FieldsSizeAppend(f1 + f2 + f3, f4);
    OffsetWithin(f1, f2, f3 + f4 + f5, 0);
    assert f1 + f2 + (f3 + f4 + f5) == ImageInfoFields;
    forall k | 3 <= k <= 9 ensures Offset(ImageInfoFields, k) == 16 + 4 * (k - 3) {
      OffsetWithin(f1 + f2, f3, f4 + f5, k - 3);
      assert f1 + f2 + f3 + (f4 + f5) == ImageInfoFields;
    }
    OffsetAppend(f1 + f2 + f3 + f4, f5, 0);
  }

  lemma ImageInfoNamesDistinct()
    ensures DistinctNames(ImageInfoDecls)
  {
    var d1, d2, d3 := Run(["Size", "SizePad"], GoUint, "DWORD"), Run(["Data"], GoBytes, "LPBYTE,Size"),
      Run(ImageStatusDwords, GoUint, "DWORD");
    var d4, d5 := Run(["Meta"], GoBytes, "LPBYTE,MetaSize"), Run(["Duration"], GoFloat, "double");
    RunNames(["Size", "SizePad"], GoUint, "DWORD");
    RunNames(["Data"], GoBytes, "LPBYTE,Size");
    RunNames(ImageStatusDwords, GoUint, "DWORD");
    RunNames(["Meta"], GoBytes, "LPBYTE,MetaSize");
    RunNames(["Duration"], GoFloat, "double");
    JoinNames(d1, d2, ["Size", "SizePad"], ["Data"]);
    JoinNames(d1 + d2, d3, ["Size", "SizePad"] + ["Data"], ImageStatusDwords);
    JoinNames(d1 + d2 + d3, d4, ["Size", "SizePad"] + ["Data"] + ImageStatusDwords, ["Meta"]);
    JoinNames(d1 + d2 + d3 + d4, d5, ["Size", "SizePad"] + ["Data"] + ImageStatusDwords + ["Meta"], ["Duration"]);
    UniqueDeclNames(ImageInfoDecls, ["Size", "SizePad"] + ["Data"] + ImageStatusDwords + ["Meta"] + ["Duration"]);
  }

  /** Neither length option is a decimal literal, so both byte pointers take
      their length from a field of the record. */
  lemma ImageLengthOptionsNamed()
    ensures !IsAtoiLiteral("Size") && !IsAtoiLiteral("MetaSize")
  {
    assert !('0' <= "Size"[0] <= '9');
    assert !('0' <= "MetaSize"[0] <= '9');
  }

  /** Unmarshalling an image block copies exactly as many image bytes as
      the block's own Size field says, from the address in the Data
      pointer, and all of them lie in memory: the length is decoded from bytes
      0 to 3 before the pointer at bytes 8 to 15 is followed, and no later
      field touches either. */
  lemma ImageInfoData(block: seq<Byte>, mem: Memory, y: Values)
    ensures Unmarshaled(ImageInfoDecls, block, mem, y).Success? ==> |block| >= 56
    ensures var r := Unmarshaled(ImageInfoDecls, block, mem, y);
      r.Success? ==>
        var size := LeValue(block[..4]);
        var ptr := LeValue(block[8..16]);
        ptr != 0 && size != 0 && ptr + size < TWO64 ==>
          && "Size" in r.value.vals && r.value.vals["Size"] == UintValue(size)
          && HoldsBytesAt(r.value.vals, "Data", mem, ptr, size)
  {
    ImageInfoLayout();
    var r := Unmarshaled(ImageInfoDecls, block, mem, y);
    if r.Success? && LeValue(block[8..16]) != 0 && LeValue(block[..4]) != 0 && LeValue(block[8..16]) + LeValue(block[..4]) < TWO64 {
      ImageInfoSplit();
      ImageLengthOptionsNamed();
      assert r == DecodeFields(ImageInfoFields, block, mem, y);
      ImageLeadingFields(Field("Size", DWORD, ""), Field("SizePad", DWORD, ""), Field("Data", LPBYTE, "Size"),
                         ImageTrailingFields(), block, mem, y);
    }
  }

  /** Unmarshalling an image block copies exactly as many metadata bytes as
      the block's own MetaSize field says, from the address in the Meta
      pointer, and all of them lie in memory: the length is decoded from
      bytes 36 to 39, just before the pointer at bytes 40 to 47 is followed,
      and the duration after them touches neither. */
  lemma ImageInfoMeta(block: seq<Byte>, mem: Memory, y: Values)
    ensures Unmarshaled(ImageInfoDecls, block, mem, y).Success? ==> |block| >= 56
    ensures var r := Unmarshaled(ImageInfoDecls, block, mem, y);
      r.Success? ==>
        var size := LeValue(block[36..40]);
        var ptr := LeValue(block[40..48]);
        ptr != 0 && size != 0 && ptr + size < TWO64 ==>
          && "MetaSize" in r.value.vals && r.value.vals["MetaSize"] == UintValue(size)
          && HoldsBytesAt(r.value.vals, "Meta", mem, ptr, size)
  {
    ImageInfoUnmarshaled(block, mem, y);
    var r := Unmarshaled(ImageInfoDecls, block, mem, y);
    if r.Success? && LeValue(block[40..48]) != 0 && LeValue(block[36..40]) != 0 && LeValue(block[40..48]) + LeValue(block[36..40]) < TWO64 {
      ImageMetaFields(block, mem, y, LeValue(block[36..40]), LeValue(block[40..48]));
    }
  }

  /** Unmarshalling an image decodes the image fields from a block of at
      least 56 bytes. */
  lemma ImageInfoUnmarshaled(block: seq<Byte>, mem: Memory, y: Values)
    ensures Unmarshaled(ImageInfoDecls, block, mem, y).Success? ==>
      |block| >= 56 && Unmarshaled(ImageInfoDecls, block, mem, y) == DecodeFields(ImageInfoFields, block, mem, y)
  {
    ImageInfoLayout();
  }

  /** The property holds the size bytes of memory at ptr, all of which lie
      in memory. */
  predicate HoldsBytesAt(vals: Values, name: string, mem: Memory, ptr: nat, size: nat)
  {
    ptr + size <= |mem| && name in vals && vals[name] == BytesValue(mem[ptr..ptr + size])
  }

  /** ImageInfoMeta with the length and the pointer given. */
  lemma ImageMetaFields(block: seq<Byte>, mem: Memory, y: Values, size: nat, ptr: nat)
    requires Unmarshaled(ImageInfoDecls, block, mem, y).Success?
    requires |block| >= 56 && size == LeValue(block[36..40]) && ptr == LeValue(block[40..48])
    requires ptr != 0 && size != 0 && ptr + size < TWO64
    ensures var r := Unmarshaled(ImageInfoDecls, block, mem, y).value.vals;
      && "MetaSize" in r && r["MetaSize"] == UintValue(size)
      && HoldsBytesAt(r, "Meta", mem, ptr, size)
  {
    ImageInfoUnmarshaled(block, mem, y);
    ImageMetaSplit();
    ImageMetaDecoded(block, mem, y, size, ptr);
  }

  /** The same for the split image fields. */
  lemma ImageMetaDecoded(block: seq<Byte>, mem: Memory, y: Values, size: nat, ptr: nat)
    requires |block| >= 56 && size == LeValue(block[36..40]) && ptr == LeValue(block[40..48])
    requires ptr != 0 && size != 0 && ptr + size < TWO64
    requires DecodeFields(ImageMetaHead() + (ImageMetaTail() + [Field("Duration", DOUBLE, "")]), block, mem, y).Success?
    ensures var r := DecodeFields(ImageMetaHead() + (ImageMetaTail() + [Field("Duration", DOUBLE, "")]), block, mem, y).value.vals;
      && "MetaSize" in r && r["MetaSize"] == UintValue(size)
      && HoldsBytesAt(r, "Meta", mem, ptr, size)
  {
    ImageMetaSplit();
    ImageLengthOptionsNamed();
    MeasuredPointerAfter(ImageMetaHead(), ImageMetaTail()[0], ImageMetaTail()[1], [Field("Duration", DOUBLE, "")], block, mem, y, size, ptr);
  }

  /** The metadata length and the pointer it measures. */
  function ImageMetaTail(): seq<Field>
  {
    [Field("MetaSize", DWORD, ""), Field("Meta", LPBYTE, "MetaSize")]
  }

  /** The image fields before the metadata length: the image length, its
      pad, the image pointer and five DWORDs. */
  function ImageMetaHead(): seq<Field>
  {
    RunFields(["Size", "SizePad"], DWORD, "") + RunFields(["Data"], LPBYTE, "Size")
      + RunFields(["Status", "ImageMode", "Width", "Height", "Flags"], DWORD, "")
  }

  /** The image fields are the 36 bytes of leading fields, the metadata
      length and pointer, and the duration. */
  lemma ImageMetaSplit()
    ensures ImageInfoFields
      == ImageMetaHead() + (ImageMetaTail() + [Field("Duration", DOUBLE, "")])
    ensures AllWellSized(ImageMetaHead()) && FieldsSize(ImageMetaHead()) == 36
  {
    var h1, h2, h3 := RunFields(["Size", "SizePad"], DWORD, ""), RunFields(["Data"], LPBYTE, "Size"),
      RunFields(["Status", "ImageMode", "Width", "Height", "Flags"], DWORD, "");
    assert RunFields(ImageStatusDwords, DWORD, "") == h3 + [Field("MetaSize", DWORD, "")];
    RunFieldsSize(["Size", "SizePad"], DWORD, "");
    RunFieldsSize(["Data"], LPBYTE, "Size");
    RunFieldsSize(["Status", "ImageMode", "Width", "Height", "Flags"], DWORD, "");
    FieldsSizeAppend(h1, h2);
    FieldsSizeAppend(h1 + h2, h3);
    assert AllWellSized(h1 + h2 + h3) by {
      forall k | 0 <= k < |h1 + h2 + h3| ensures WellSized((h1 + h2 + h3)[k].wt) {
        assert (h1 + h2 + h3)[k].wt in {DWORD, LPBYTE};
      }
    }
  }

  /** A DWORD length and the byte pointer it measures, after leading fields
      and before fields that touch neither: the record holds the length read
      at the end of the leading fields and the bytes at the pointer read
      just after it. */
  lemma MeasuredPointerAfter(head: seq<Field>, f0: Field, f2: Field, tail: seq<Field>, block: seq<Byte>, mem: Memory, y: Values,
                             size: nat, ptr: nat)
    requires f0.wt == DWORD && f2.wt == LPBYTE
    requires f2.options == f0.name && !IsAtoiLiteral(f2.options) && f2.name != f0.name
    requires AllWellSized(head) && FieldsSize(head) + 12 <= |block|
    requires Avoids(tail, f0.name) && Avoids(tail, f2.name)
    requires DecodeFields(head + ([f0, f2] + tail), block, mem, y).Success?
    requires size == LeValue(block[FieldsSize(head)..FieldsSize(head) + 4])
    requires ptr == LeValue(block[FieldsSize(head) + 4..FieldsSize(head) + 12])
    requires ptr != 0 && size != 0 && ptr + size < TWO64
    ensures var r := DecodeFields(head + ([f0, f2] + tail), block, mem, y).value.vals;
      && f0.name in r && r[f0.name] == UintValue(size)
      && HoldsBytesAt(r, f2.name, mem, ptr, size)
  {
    var o := FieldsSize(head);
    var v := SkipFields(head, [f0, f2] + tail, block, mem, y);
    FrontWords(block, o);
    LengthPointerThen(f0, f2, tail, block[o..], mem, v, size, ptr);
  }

  /** The first n bytes after o are the slice from o. */
  lemma FrontWord(block: seq<Byte>, o: nat, n: nat)
    requires o + n <= |block|
    ensures block[o..][..n] == block[o..o + n]
  {
  }

  lemma FrontWords(block: seq<Byte>, o: nat)
    requires o + 12 <= |block|
    ensures block[o..][..4] == block[o..o + 4] && block[o..][4..12] == block[o + 4..o + 12]
  {
  }

  /** Decoding after leading fields is decoding the rest from the end of
      their bytes, with the values they stored. */
  lemma SkipFields(head: seq<Field>, rest: seq<Field>, block: seq<Byte>, mem: Memory, y: Values) returns (v: Values)
    requires AllWellSized(head) && FieldsSize(head) <= |block|
    requires DecodeFields(head + rest, block, mem, y).Success?
    ensures DecodeFields(head + rest, block, mem, y) == DecodeFields(rest, block[FieldsSize(head)..], mem, v)
  {
    DecodeFieldsAppend(head, rest, block, mem, y);
    DecodeFieldsPrefix(head, block, [], mem, y);
    v := DecodeFields(head, block, mem, y).value.vals;
  }

  /** A DWORD length and the byte pointer it measures at the front of the
      input, followed by fields that touch neither. */
  lemma LengthPointerThen(f0: Field, f2: Field, tail: seq<Field>, input: seq<Byte>, mem: Memory, y: Values, size: nat, ptr: nat)
    requires f0.wt == DWORD && f2.wt == LPBYTE
    requires f2.options == f0.name && !IsAtoiLiteral(f2.options) && f2.name != f0.name
    requires |input| >= 12 && Avoids(tail, f0.name) && Avoids(tail, f2.name)
    requires DecodeFields([f0, f2] + tail, input, mem, y).Success?
    requires size == LeValue(input[..4]) && ptr == LeValue(input[4..12])
    requires ptr != 0 && size != 0 && ptr + size < TWO64
    ensures var r := DecodeFields([f0, f2] + tail, input, mem, y).value.vals;
      && f0.name in r && r[f0.name] == UintValue(size)
      && HoldsBytesAt(r, f2.name, mem, ptr, size)
  {
    DecodeFieldsAppend([f0, f2], tail, input, mem, y);
    LengthThenPointer(f0, f2, input, mem, y);
    var e := DecodeFields([f0, f2], input, mem, y).value;
    DecodeFieldsKeep(tail, e.rest, mem, e.vals, f0.name);
    DecodeFieldsKeep(tail, e.rest, mem, e.vals, f2.name);
  }

  function ImageTrailingFields(): seq<Field>
  {
    RunFields(ImageStatusDwords, DWORD, "") + RunFields(["Meta"], LPBYTE, "MetaSize")
      + RunFields(["Duration"], DOUBLE, "")
  }

  /** No field of the list is called name. */
  predicate Avoids(fields: seq<Field>, name: string)
  {
    forall k :: 0 <= k < |fields| ==> fields[k].name != name
  }

  lemma RunFieldsAvoid(names: seq<string>, wt: WinType, options: string, name: string)
    requires name !in names
    ensures Avoids(RunFields(names, wt, options), name)
  {
    forall k | 0 <= k < |names| ensures RunFields(names, wt, options)[k].name != name {
      assert names[k] in names;
    }
  }

  lemma AvoidsAppend(a: seq<Field>, b: seq<Field>, name: string)
    requires Avoids(a, name) && Avoids(b, name)
    ensures Avoids(a + b, name)
  {
    forall k | 0 <= k < |a + b| ensures (a + b)[k].name != name {
      if k >= |a| {
        assert (a + b)[k] == b[k - |a|];
      }
    }
  }

  /** The image fields are the length, its pad and the data pointer, then
      fields that touch neither the length nor the data. */
  lemma ImageInfoSplit()
    ensures ImageInfoFields
      == [Field("Size", DWORD, ""), Field("SizePad", DWORD, ""), Field("Data", LPBYTE, "Size")] + ImageTrailingFields()
    ensures Avoids(ImageTrailingFields(), "Size") && Avoids(ImageTrailingFields(), "Data")
  {
    var r1, r2, r3 := RunFields(ImageStatusDwords, DWORD, ""), RunFields(["Meta"], LPBYTE, "MetaSize"), RunFields(["Duration"], DOUBLE, "");
    assert RunFields(["Size", "SizePad"], DWORD, "") + RunFields(["Data"], LPBYTE, "Size")
      == [Field("Size", DWORD, ""), Field("SizePad", DWORD, ""), Field("Data", LPBYTE, "Size")];
    RunFieldsAvoid(ImageStatusDwords, DWORD, "", "Size");
    RunFieldsAvoid(["Meta"], LPBYTE, "MetaSize", "Size");
    RunFieldsAvoid(["Duration"], DOUBLE, "", "Size");
    AvoidsAppend(r1, r2, "Size");
    AvoidsAppend(r1 + r2, r3, "Size");
    RunFieldsAvoid(ImageStatusDwords, DWORD, "", "Data");
    RunFieldsAvoid(["Meta"], LPBYTE, "MetaSize", "Data");
    RunFieldsAvoid(["Duration"], DOUBLE, "", "Data");
    AvoidsAppend(r1, r2, "Data");
    AvoidsAppend(r1 + r2, r3, "Data");
  }

  /** Fields that do not name a property leave it as it was. */
  lemma DecodeFieldsKeep(fields: seq<Field>, input: seq<Byte>, mem: Memory, vals: Values, name: string)
    requires DecodeFields(fields, input, mem, vals).Success? && Avoids(fields, name) && name in vals
    ensures var r := DecodeFields(fields, input, mem, vals).value.vals;
      name in r && r[name] == vals[name]
  {
    DecodeFieldsFrame(fields, input, mem, vals);
  }

  /** A DWORD length, its pad and a byte pointer the length measures, followed
      by fields that touch neither: the record holds the length and the bytes
      at the pointer, which lie in memory. */
  lemma ImageLeadingFields(f0: Field, f1: Field, f2: Field, rest: seq<Field>, block: seq<Byte>, mem: Memory, y: Values)
    requires f0.wt == DWORD && f1.wt == DWORD && f2.wt == LPBYTE
    requires f2.options == f0.name && !IsAtoiLiteral(f2.options) && f0.name != f1.name && f2.name != f0.name
    requires Avoids(rest, f0.name) && Avoids(rest, f2.name)
    requires |block| >= 16
    requires DecodeFields([f0, f1, f2] + rest, block, mem, y).Success?
    requires LeValue(block[8..16]) != 0 && LeValue(block[..4]) != 0
    requires LeValue(block[8..16]) + LeValue(block[..4]) < TWO64
    ensures var d := DecodeFields([f0, f1, f2] + rest, block, mem, y);
      var size := LeValue(block[..4]);
      var ptr := LeValue(block[8..16]);
      && f0.name in d.value.vals && d.value.vals[f0.name] == UintValue(size)
      && HoldsBytesAt(d.value.vals, f2.name, mem, ptr, size)
  {
    DecodeFieldsAppend([f0, f1, f2], rest, block, mem, y);
    LengthMeasuredPointer(f0, f1, f2, block, mem, y);
    var d := DecodeFields([f0, f1, f2], block, mem, y).value;
    DecodeFieldsKeep(rest, d.rest, mem, d.vals, f0.name);
    DecodeFieldsKeep(rest, d.rest, mem, d.vals, f2.name);
  }

  /** A DWORD length, its pad, and a byte pointer that the length measures. */
  lemma LengthMeasuredPointer(f0: Field, f1: Field, f2: Field, block: seq<Byte>, mem: Memory, y: Values)
    requires f0.wt == DWORD && f1.wt == DWORD && f2.wt == LPBYTE
    requires f2.options == f0.name && !IsAtoiLiteral(f2.options) && f0.name != f1.name && f2.name != f0.name
    requires |block| >= 16
    requires DecodeFields([f0, f1, f2], block, mem, y).Success?
    requires LeValue(block[8..16]) != 0 && LeValue(block[..4]) != 0
    requires LeValue(block[8..16]) + LeValue(block[..4]) < TWO64
    ensures var d := DecodeFields([f0, f1, f2], block, mem, y);
      var size := LeValue(block[..4]);
      var ptr := LeValue(block[8..16]);
      && f0.name in d.value.vals && d.value.vals[f0.name] == UintValue(size)
      && HoldsBytesAt(d.value.vals, f2.name, mem, ptr, size)
  {
    assert [f0, f1] + [f2] == [f0, f1, f2];
    DecodeFieldsAppend([f0, f1], [f2], block, mem, y);
    LengthThenPad(f0, f1, block, mem, y);
    var d := DecodeFields([f0, f1], block, mem, y).value;
    FrontWord(block, 8, 8);
    PointerWithLength(f2, d.rest, mem, d.vals, LeValue(block[..4]));
  }

  /** A DWORD length directly followed by a byte pointer it measures: the
      record holds the length and the bytes at the pointer, which lie in
      memory. */
  lemma LengthThenPointer(f0: Field, f2: Field, input: seq<Byte>, mem: Memory, y: Values)
    requires f0.wt == DWORD && f2.wt == LPBYTE
    requires f2.options == f0.name && !IsAtoiLiteral(f2.options) && f2.name != f0.name
    requires |input| >= 12
    requires DecodeFields([f0, f2], input, mem, y).Success?
    requires LeValue(input[4..12]) != 0 && LeValue(input[..4]) != 0
    requires LeValue(input[4..12]) + LeValue(input[..4]) < TWO64
    ensures var d := DecodeFields([f0, f2], input, mem, y);
      var size := LeValue(input[..4]);
      var ptr := LeValue(input[4..12]);
      && f0.name in d.value.vals && d.value.vals[f0.name] == UintValue(size)
      && HoldsBytesAt(d.value.vals, f2.name, mem, ptr, size)
  {
    assert [f0] + [f2] == [f0, f2];
    DecodeFieldsAppend([f0], [f2], input, mem, y);
    DecodeUnsignedField(f0, input, mem, y);
    assert [f0][1..] == [];
    var d1 := DecodeField(f0, input, mem, y);
    assert DecodeFields([f0], input, mem, y) == d1;
    FrontWord(input, 4, 8);
    PointerWithLength(f2, input[4..], mem, d1.value.vals, LeValue(input[..4]));
  }

  /** Two DWORD fields read from the front of the input: the first holds the
      value of the first four bytes, and eight bytes are consumed. */
  lemma LengthThenPad(f0: Field, f1: Field, input: seq<Byte>, mem: Memory, vals: Values)
    requires f0.wt == DWORD && f1.wt == DWORD && f0.name != f1.name && 8 <= |input|
    requires DecodeFields([f0, f1], input, mem, vals).Success?
    ensures var d := DecodeFields([f0, f1], input, mem, vals).value;
      && d.rest == input[8..]
      && f0.name in d.vals && d.vals[f0.name] == UintValue(LeValue(input[..4]))
  {
    var d1 := DecodeField(f0, input, mem, vals);
    DecodeUnsignedField(f0, input, mem, vals);
    assert [f0, f1][1..] == [f1] && [f1][1..] == [];
    assert d1.Success?;
    var d2 := DecodeField(f1, d1.value.rest, mem, d1.value.vals);
    assert DecodeFields([f0, f1], input, mem, vals) == DecodeFields([f1], d1.value.rest, mem, d1.value.vals);
    assert d2.Success?;
    assert DecodeFields([f1], d1.value.rest, mem, d1.value.vals) == d2;
    DecodeUnsignedField(f1, d1.value.rest, mem, d1.value.vals);
    DecodeFieldFrame(f1, d1.value.rest, mem, d1.value.vals);
    assert d1.value.rest[4..] == input[8..];
  }

  /** A byte pointer whose length field holds len > 0, read on its own: the
      len bytes at the pointer are stored and the length field is kept. */
  lemma PointerWithLength(f: Field, input: seq<Byte>, mem: Memory, vals: Values, len: nat)
    requires f.wt.kind == BytePointer && 8 <= |input| && f.name != f.options
    requires LeValue(input[..8]) != 0 && !IsAtoiLiteral(f.options)
    requires f.options in vals && vals[f.options].UintValue? && vals[f.options].u == len && len > 0
    requires LeValue(input[..8]) + len < TWO64
    requires DecodeFields([f], input, mem, vals).Success?
    ensures var ptr := LeValue(input[..8]);
      var r := DecodeFields([f], input, mem, vals).value.vals;
      && HoldsBytesAt(r, f.name, mem, ptr, len)
      && f.options in r && r[f.options] == vals[f.options]
  {
    assert [f][1..] == [];
    assert DecodeFields([f], input, mem, vals) == DecodeField(f, input, mem, vals);
    DecodeBytePointerCopy(f, input, mem, vals, len);
    DecodeFieldFrame(f, input, mem, vals);
  }
}
