/** The wire-type catalogue: every tag name the codec understands, with its
    fixed width in the block and the primitive that encodes and decodes it. */
module WinTypes {
  import opened Errors

  /** Which encode/decode primitive a wire type uses. */
  datatype Kind =
    | Unsigned            // little-endian unsigned integer of the type's width
    | Double              // IEEE-754 double, carried as its 64-bit pattern
    | WideStringPointer   // pointer to a zero-terminated UTF-16 string
    | BytePointer         // pointer to a byte array sized by the tag option

  datatype WinType = WinType(name: string, size: nat, kind: Kind)

  const Catalogue: seq<WinType> := [
    WinType("WORD", 2, Unsigned),
    WinType("DWORD", 4, Unsigned),
    WinType("DWORD32", 4, Unsigned),
    WinType("DWORD64", 8, Unsigned),
    WinType("QWORD", 8, Unsigned),
    WinType("double", 8, Double),
    WinType("LPWSTR", 8, WideStringPointer),
    WinType("LPBYTE", 8, BytePointer)
  ]

  /** Linear search for the first entry named exactly name. */
  function Lookup(types: seq<WinType>, name: string): Result<WinType>
  {
    if types == [] then Failure(UnknownWireType(name))
    else if types[0].name == name then Success(types[0])
    else Lookup(types[1..], name)
  }

  /** Lookup finds an entry of the requested name whenever there is one, and
      otherwise reports the name as unknown. */
  lemma {:induction false} LookupSound(types: seq<WinType>, name: string)
    ensures Lookup(types, name).Success? ==>
      Lookup(types, name).value in types && Lookup(types, name).value.name == name
    ensures Lookup(types, name).Failure? ==>
      Lookup(types, name).error == UnknownWireType(name) && forall t :: t in types ==> t.name != name
  {
    if types != [] && types[0].name != name {
      LookupSound(types[1..], name);
    }
  }

  function GetWinType(name: string): Result<WinType>
  {
    Lookup(Catalogue, name)
  }

  /** Every unsigned type is 2, 4 or 8 bytes wide and every other type 8. */
  predicate WellSized(t: WinType)
  {
    if t.kind == Unsigned then t.size in {2, 4, 8} else t.size == 8
  }

  /** No two catalogue entries share a name, so lookup is unambiguous. */
  lemma CatalogueNamesDistinct()
    ensures forall i, j :: 0 <= i < j < |Catalogue| ==> Catalogue[i].name != Catalogue[j].name
  {
  }

  lemma CatalogueWellSized()
    ensures forall t :: t in Catalogue ==> WellSized(t)
  {
  }

  /** The lookup succeeds exactly for the names in the catalogue, returns the
      entry of that name, and reports any other name as unknown. */
  lemma GetWinTypeExact(name: string)
    ensures GetWinType(name).Success? <==> exists t :: t in Catalogue && t.name == name
    ensures forall t :: t in Catalogue && t.name == name ==> GetWinType(name) == Success(t)
    ensures GetWinType(name).Failure? ==> GetWinType(name).error == UnknownWireType(name)
  {
    CatalogueNamesDistinct();
    LookupSound(Catalogue, name);
    var r := GetWinType(name);
    if r.Success? {
      forall t | t in Catalogue && t.name == name
        ensures r == Success(t)
      {
        var i :| 0 <= i < |Catalogue| && Catalogue[i] == t;
        var k :| 0 <= k < |Catalogue| && Catalogue[k] == r.value;
        assert i == k;
      }
    }
  }

  /** The widths of the unsigned integer types, by name. */
  lemma UnsignedWidths()
    ensures GetWinType("WORD") == Success(WinType("WORD", 2, Unsigned))
    ensures GetWinType("DWORD") == Success(WinType("DWORD", 4, Unsigned))
    ensures GetWinType("DWORD32") == Success(WinType("DWORD32", 4, Unsigned))
    ensures GetWinType("DWORD64") == Success(WinType("DWORD64", 8, Unsigned))
    ensures GetWinType("QWORD") == Success(WinType("QWORD", 8, Unsigned))
  {
  }

  /** A double is carried in 8 bytes. */
  lemma DoubleWidth()
    ensures GetWinType("double") == Success(WinType("double", 8, Double))
  {
  }

  /** A wide-string pointer is 8 bytes wide, the size of a 64-bit pointer. */
  lemma WideStringPointerWidth()
    ensures GetWinType("LPWSTR") == Success(WinType("LPWSTR", 8, WideStringPointer))
  {
  }

  /** A byte-array pointer is 8 bytes wide, the size of a 64-bit pointer. */
  lemma BytePointerWidth()
    ensures GetWinType("LPBYTE") == Success(WinType("LPBYTE", 8, BytePointer))
  {
  }

  /** The empty name is not a wire type: an untagged field cannot be resolved. */
  lemma EmptyNameUnknown()
    ensures GetWinType("") == Failure(UnknownWireType(""))
  {
  }

  /** Lookup is case-sensitive. */
  lemma LookupCaseSensitive()
    ensures GetWinType("dword") == Failure(UnknownWireType("dword"))
  {
  }

  /** A tag split at its first comma into the wire-type name and the option. */
  function ParseTag(tag: string): (string, string)
  {
    if tag == [] then ("", "")
    else if tag[0] == ',' then ("", tag[1..])
    else
      var rest := ParseTag(tag[1..]);
      ([tag[0]] + rest.0, rest.1)
  }

  /** The name holds no comma; with a comma in the tag, name, comma and option
      rebuild the tag; without one, the name is the whole tag and the option
      is empty. */
  lemma {:induction false} ParseTagSplit(tag: string)
    ensures ',' !in ParseTag(tag).0
    ensures ',' in tag ==> ParseTag(tag).0 + [','] + ParseTag(tag).1 == tag
    ensures ',' !in tag ==> ParseTag(tag) == (tag, "")
  {
    if tag != [] && tag[0] != ',' {
      ParseTagSplit(tag[1..]);
      assert tag == [tag[0]] + tag[1..];
    }
  }

  /** A tag made of a comma-free name, a comma and an option splits back into
      that name and that option. */
  lemma {:induction false} ParseTagOf(name: string, option: string)
    requires ',' !in name
    ensures ParseTag(name + [','] + option) == (name, option)
    ensures ParseTag(name) == (name, "")
  {
    if name != [] {
      assert (name + [','] + option)[1..] == name[1..] + [','] + option;
      ParseTagOf(name[1..], option);
      assert [name[0]] + name[1..] == name;
    }
  }

  /** No catalogue name contains a comma or is the skip mark, so a tag's type
      name is never cut short by the option split. */
  lemma CatalogueNamesPlain()
    ensures forall t :: t in Catalogue ==> ',' !in t.name && t.name != "-"
  {
  }
}
