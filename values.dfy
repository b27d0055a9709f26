/** Record instances: the values of a record's fields, keyed by field name, and
    the reflective reads and writes the codec performs on them. */
module Values {
  import opened Wire
  import opened Errors
  import opened Meta

  type I64 = x: int | -0x8000_0000_0000_0000 <= x < 0x8000_0000_0000_0000

  /** The value of one field. Strings are kept as UTF-16 code units and
      doubles as their IEEE-754 bit pattern. */
  datatype Value =
    | UintValue(u: U64)
    | IntValue(i: I64)
    | FloatValue(bits: U64)
    | StringValue(units: seq<U16>)
    | BytesValue(data: seq<Byte>)
    | OtherValue

  type Values = map<string, Value>

  function TypeOf(v: Value): GoType
  {
    match v
    case UintValue(_) => GoUint
    case IntValue(_) => GoInt
    case FloatValue(_) => GoFloat
    case StringValue(_) => GoString
    case BytesValue(_) => GoBytes
    case OtherValue => GoOther
  }

  /** The zero value of a Go type. */
  function ZeroValue(t: GoType): (v: Value)
    ensures TypeOf(v) == t
  {
    match t
    case GoUint => UintValue(0)
    case GoInt => IntValue(0)
    case GoFloat => FloatValue(0)
    case GoString => StringValue([])
    case GoBytes => BytesValue([])
    case GoOther => OtherValue
  }

  /** A reflective write of v into the named property: it panics when the
      property is absent or holds a value of another kind. */
  function SetProperty(vals: Values, name: string, v: Value): (r: Result<Values>)
  {
    if name in vals && TypeOf(vals[name]) == TypeOf(v) then Success(vals[name := v])
    else Failure(BadProperty(name))
  }

  /** Property.Uint(): the value of an unsigned property. */
  function UintProperty(vals: Values, name: string): Result<U64>
  {
    if name in vals && vals[name].UintValue? then Success(vals[name].u) else Failure(BadProperty(name))
  }

  /** Property.Float(): the value of a floating-point property, as its bit pattern. */
  function FloatProperty(vals: Values, name: string): Result<U64>
  {
    if name in vals && vals[name].FloatValue? then Success(vals[name].bits) else Failure(BadProperty(name))
  }

  /** Two instances of the same record type: the same field names, each
      holding a value of the same Go type. */
  ghost predicate SameShape(a: Values, b: Values)
  {
    a.Keys == b.Keys && forall n :: n in a ==> TypeOf(a[n]) == TypeOf(b[n])
  }

  /** A successful write changes that one property, keeps its Go type and
      leaves every other property as it was. */
  lemma SetPropertyEffect(vals: Values, name: string, v: Value)
    requires SetProperty(vals, name, v).Success?
    ensures SameShape(vals, SetProperty(vals, name, v).value)
    ensures SetProperty(vals, name, v).value[name] == v
    ensures forall n :: n in vals && n != name ==> SetProperty(vals, name, v).value[n] == vals[n]
  {
  }

  predicate DistinctNames(decls: seq<FieldDecl>)
  {
    forall i, j :: 0 <= i < j < |decls| ==> decls[i].name != decls[j].name
  }

  function Names(decls: seq<FieldDecl>): set<string>
  {
    set d | d in decls :: d.name
  }

  /** The values are an instance of the record type decls: one value per
      declared field, of the declared Go type. */
  ghost predicate Conforms(decls: seq<FieldDecl>, vals: Values)
  {
    && vals.Keys == Names(decls)
    && forall d :: d in decls ==> TypeOf(vals[d.name]) == d.goType
  }

  /** The zero value of a record type. */
  function ZeroValues(decls: seq<FieldDecl>): Values
  {
    if decls == [] then map[]
    else
      var last := decls[|decls| - 1];
      ZeroValues(decls[..|decls| - 1])[last.name := ZeroValue(last.goType)]
  }

  /** The zero record has exactly the declared names, each holding the zero
      value of its declared type. */
  lemma {:induction false} ZeroValuesConform(decls: seq<FieldDecl>)
    requires DistinctNames(decls)
    ensures Conforms(decls, ZeroValues(decls))
    ensures forall d :: d in decls ==> ZeroValues(decls)[d.name] == ZeroValue(d.goType)
  {
    if decls != [] {
      var init := decls[..|decls| - 1];
      var last := decls[|decls| - 1];
      ZeroValuesConform(init);
      assert decls == init + [last];
      assert Names(decls) == Names(init) + {last.name};
      forall d | d in decls
        ensures ZeroValues(decls)[d.name] == ZeroValue(d.goType)
      {
        if d != last {
          var i :| 0 <= i < |decls| && decls[i] == d;
          assert i < |decls| - 1;
          assert d in init;
        }
      }
    }
  }

  /** The zero record holds the zero value of declaration k's type under its name. */
  lemma ZeroValuesAt(decls: seq<FieldDecl>, k: nat)
    requires DistinctNames(decls) && k < |decls|
    ensures decls[k].name in ZeroValues(decls)
    ensures ZeroValues(decls)[decls[k].name] == ZeroValue(decls[k].goType)
  {
    ZeroValuesConform(decls);
    assert decls[k] in decls;
  }

  lemma SameShapeConforms(decls: seq<FieldDecl>, a: Values, b: Values)
    requires Conforms(decls, a) && SameShape(a, b)
    ensures Conforms(decls, b)
  {
  }

  /** The wired declarations are declarations of the record type, and keep
      their names apart when the type's names are distinct. */
  lemma {:induction false} WiredDistinct(decls: seq<FieldDecl>)
    ensures forall d :: d in Wired(decls) ==> d in decls
    ensures DistinctNames(decls) ==> DistinctNames(Wired(decls))
  {
    if decls != [] {
      var init := decls[..|decls| - 1];
      var last := decls[|decls| - 1];
      WiredDistinct(init);
      assert forall d :: d in init ==> d in decls;
      if DistinctNames(decls) {
        assert DistinctNames(init);
        forall d | d in init ensures d.name != last.name {
          var i :| 0 <= i < |init| && init[i] == d;
          assert decls[i] == d;
        }
      }
    }
  }

  /** A value of a Go struct type: its declared fields and their current values. */
  class Record {
    const decls: seq<FieldDecl>
    var values: Values

    ghost predicate Valid()
      reads this
    {
      DistinctNames(decls) && Conforms(decls, values)
    }

    /** A record of type decls holding init, as a composite literal makes one. */
    constructor (decls: seq<FieldDecl>, init: Values)
      requires DistinctNames(decls) && Conforms(decls, init)
      ensures Valid() && this.decls == decls && values == init
    {
      this.decls := decls;
      values := init;
    }

    /** A reflective write of v into the named property (SetUint, SetFloat,
        SetString, SetBytes): the record is unchanged when it fails. */
    method Set(name: string, v: Value) returns (ok: Outcome)
      modifies this
      ensures ok == OutcomeOf(SetProperty(old(values), name, v))
      ensures ok.Pass? ==> values == SetProperty(old(values), name, v).value
      ensures ok.Fail? ==> values == old(values)
    {
      if name in values && TypeOf(values[name]) == TypeOf(v) {
        values := values[name := v];
        ok := Pass;
      } else {
        ok := Fail(BadProperty(name));
      }
    }
  }
}
