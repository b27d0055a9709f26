/** Record metadata: the ordered list of wire fields of a record type and the
    size of its fixed block, derived from the fields' `windows` tags. */
module Meta {
  import opened Errors
  import opened WinTypes

  /** The Go type of a record field, as far as reflection distinguishes it. */
  datatype GoType = GoUint | GoInt | GoFloat | GoString | GoBytes | GoOther

  /** One declared field of a record type. tag is the field's `windows` tag,
      the empty string when the field has none. */
  datatype FieldDecl = FieldDecl(name: string, goType: GoType, tag: string)

  /** A field that is on the wire, with its wire type and its tag option. */
  datatype Field = Field(name: string, wt: WinType, options: string)

  datatype Meta = Meta(size: nat, fields: seq<Field>)

  /** The tag that keeps a field off the wire. */
  const SkipTag: string := "-"

  predicate IsSkipped(d: FieldDecl)
  {
    d.tag == SkipTag
  }

  /** The declarations that are on the wire, in declaration order. */
  function Wired(decls: seq<FieldDecl>): (r: seq<FieldDecl>)
    ensures |r| <= |decls|
  {
    if decls == [] then []
    else
      var init := Wired(decls[..|decls| - 1]);
      var last := decls[|decls| - 1];
      if IsSkipped(last) then init else init + [last]
  }

  /** A declaration resolved against the catalogue: its tag is split at the
      first comma into a type name and an option. */
  function ResolveField(d: FieldDecl): Result<Field>
  {
    var (name, options) := ParseTag(d.tag);
    var wt := GetWinType(name);
    if wt.Failure? then Failure(wt.error) else Success(Field(d.name, wt.value, options))
  }

  /** Total width of a run of wire fields. */
  function FieldsSize(fields: seq<Field>): nat
  {
    if fields == [] then 0 else fields[0].wt.size + FieldsSize(fields[1..])
  }

  /** Offset of field k in the fixed block. */
  function Offset(fields: seq<Field>, k: nat): nat
    requires k <= |fields|
  {
    FieldsSize(fields[..k])
  }

  /** The metadata of a record type: declarations are taken in order, skipped
      ones are passed over, and the first unknown wire type fails the whole. */
  function MetaOf(decls: seq<FieldDecl>): Result<Meta>
  {
    MetaWith(ResolveField, decls)
  }

  /** The walk that builds the metadata, with the resolution of a wired
      declaration as a parameter; the facts that hold whatever a declaration
      resolves to are proved about it. */
  function MetaWith(resolve: FieldDecl -> Result<Field>, decls: seq<FieldDecl>): Result<Meta>
  {
    if decls == [] then Success(Meta(0, []))
    else MetaStep(resolve, MetaWith(resolve, decls[..|decls| - 1]), decls[|decls| - 1])
  }

  /** The metadata so far, extended by one more declaration. */
  function MetaStep(resolve: FieldDecl -> Result<Field>, init: Result<Meta>, last: FieldDecl): Result<Meta>
  {
    if init.Failure? || IsSkipped(last) then init
    else
      var f := resolve(last);
      if f.Failure? then Failure(f.error)
      else Success(Meta(init.value.size + f.value.wt.size, init.value.fields + [f.value]))
  }

  lemma MetaWithSnoc(resolve: FieldDecl -> Result<Field>, ds: seq<FieldDecl>, d: FieldDecl)
    ensures MetaWith(resolve, ds + [d]) == MetaStep(resolve, MetaWith(resolve, ds), d)
  {
    assert (ds + [d])[..|ds|] == ds;
  }

  /** getMeta: walks the declarations, appending each wired field and adding
      its width to the running size. */
  method GetMeta(decls: seq<FieldDecl>) returns (r: Result<Meta>)
    ensures r == MetaOf(decls)
  {
    var size: nat := 0;
    var fields: seq<Field> := [];
    for i := 0 to |decls|
      invariant MetaOf(decls[..i]) == Success(Meta(size, fields))
    {
      var d := decls[i];
      MetaPrefixStep(decls, i);
      if d.tag == SkipTag {
        continue;
      }
      var (name, options) := ParseTag(d.tag);
      var wt := GetWinType(name);
      if wt.Failure? {
        MetaFailureSticks(ResolveField, decls, i + 1);
        return Failure(wt.error);
      }
      assert ResolveField(d) == Success(Field(d.name, wt.value, options));
      size := size + wt.value.size;
      fields := fields + [Field(d.name, wt.value, options)];
    }
    assert decls[..|decls|] == decls;
    r := Success(Meta(size, fields));
  }

  /** One more declaration of the list extends the metadata of the prefix before it. */
  lemma MetaPrefixStep(decls: seq<FieldDecl>, i: nat)
    requires i < |decls|
    ensures MetaOf(decls[..i + 1]) == MetaStep(ResolveField, MetaOf(decls[..i]), decls[i])
  {
    assert decls[..i + 1] == decls[..i] + [decls[i]];
    MetaWithSnoc(ResolveField, decls[..i], decls[i]);
  }

  /** Once a prefix of the declarations fails, the whole list fails the same way. */
  lemma {:induction false} MetaFailureSticks(resolve: FieldDecl -> Result<Field>, decls: seq<FieldDecl>, i: nat)
    requires i <= |decls|
    requires MetaWith(resolve, decls[..i]).Failure?
    ensures MetaWith(resolve, decls) == MetaWith(resolve, decls[..i])
    decreases |decls| - i
  {
    if i < |decls| {
      assert decls[..i + 1][..i] == decls[..i];
      MetaFailureSticks(resolve, decls, i + 1);
    } else {
      assert decls[..i] == decls;
    }
  }

  lemma {:induction false} FieldsSizeAppend(a: seq<Field>, b: seq<Field>)
    ensures FieldsSize(a + b) == FieldsSize(a) + FieldsSize(b)
  {
    if a != [] {
      assert (a + b)[1..] == a[1..] + b;
      FieldsSizeAppend(a[1..], b);
    } else {
      assert a + b == b;
    }
  }

  /** On success the fields are the wired declarations, in order, each
      resolved against the catalogue, and the size is the sum of their widths. */
  lemma MetaOfSuccess(decls: seq<FieldDecl>)
    requires MetaOf(decls).Success?
    ensures var m := MetaOf(decls).value;
      && |m.fields| == |Wired(decls)|
      && (forall k :: 0 <= k < |m.fields| ==> ResolveField(Wired(decls)[k]) == Success(m.fields[k]))
      && m.size == FieldsSize(m.fields)
  {
    MetaWithSuccess(ResolveField, decls);
  }

  lemma {:induction false} MetaWithSuccess(resolve: FieldDecl -> Result<Field>, decls: seq<FieldDecl>)
    requires MetaWith(resolve, decls).Success?
    ensures var m := MetaWith(resolve, decls).value;
      && |m.fields| == |Wired(decls)|
      && (forall k :: 0 <= k < |m.fields| ==> resolve(Wired(decls)[k]) == Success(m.fields[k]))
      && m.size == FieldsSize(m.fields)
  {
    if decls != [] {
      var init := decls[..|decls| - 1];
      var last := decls[|decls| - 1];
      MetaWithSuccess(resolve, init);
      if !IsSkipped(last) {
        var m0 := MetaWith(resolve, init).value;
        var f := resolve(last).value;
        var m := MetaWith(resolve, decls).value;
        assert m.fields == m0.fields + [f];
        assert Wired(decls) == Wired(init) + [last];
        FieldsSizeAppend(m0.fields, [f]);
        assert FieldsSize([f]) == f.wt.size;
        forall k | 0 <= k < |m.fields| ensures resolve(Wired(decls)[k]) == Success(m.fields[k]) {
          if k < |m0.fields| {
            assert Wired(decls)[k] == Wired(init)[k];
          }
        }
      }
    }
  }

  /** The declaration's tag names a wire type of the catalogue. */
  predicate Resolves(d: FieldDecl)
  {
    ResolveField(d).Success?
  }

  /** Every declaration of the list resolves. */
  predicate AllResolve(ds: seq<FieldDecl>)
  {
    forall k :: 0 <= k < |ds| ==> Resolves(ds[k])
  }

  lemma AllResolveSnoc(ds: seq<FieldDecl>, d: FieldDecl)
    ensures AllResolve(ds + [d]) <==> AllResolve(ds) && Resolves(d)
  {
    assert forall k :: 0 <= k < |ds| ==> (ds + [d])[k] == ds[k];
    assert (ds + [d])[|ds|] == d;
  }

  /** The metadata succeeds exactly when every wired declaration names a
      wire type of the catalogue. */
  lemma {:induction false} MetaOfSucceeds(decls: seq<FieldDecl>)
    ensures MetaOf(decls).Success? <==> AllResolve(Wired(decls))
  {
    if decls != [] {
      var init := decls[..|decls| - 1];
      var last := decls[|decls| - 1];
      MetaOfSucceeds(init);
      if !IsSkipped(last) {
        AllResolveSnoc(Wired(init), last);
      }
    }
  }

  /** The index of the first declaration that does not resolve, or the
      length of the list when all do. */
  function FirstUnresolved(ds: seq<FieldDecl>): (k: nat)
    ensures k <= |ds|
  {
    if ds == [] then 0
    else
      var init := ds[..|ds| - 1];
      var k := FirstUnresolved(init);
      if k < |init| then k
      else if Resolves(ds[|ds| - 1]) then |ds|
      else |init|
  }

  /** Every declaration before the first unresolved one resolves, and that
      one does not. */
  lemma {:induction false} FirstUnresolvedIsFirst(ds: seq<FieldDecl>)
    ensures var k := FirstUnresolved(ds);
      && (forall j :: 0 <= j < k ==> Resolves(ds[j]))
      && (k < |ds| ==> !Resolves(ds[k]))
  {
    if ds != [] {
      var init := ds[..|ds| - 1];
      FirstUnresolvedIsFirst(init);
      var k := FirstUnresolved(init);
      var last := ds[|ds| - 1];
      assert FirstUnresolved(ds) == if k < |init| then k else if Resolves(last) then |ds| else |init|;
      forall j | 0 <= j < FirstUnresolved(ds)
        ensures Resolves(ds[j])
      {
        if j < |init| {
          assert j < k && ds[j] == init[j];
        } else {
          assert ds[j] == last;
        }
      }
      if k < |init| {
        assert ds[k] == init[k];
      }
    }
  }

  /** A failing metadata reports the error of the first wired declaration
      that does not resolve (see FirstUnresolvedIsFirst). */
  lemma {:induction false} MetaOfFailure(decls: seq<FieldDecl>)
    ensures MetaOf(decls).Failure? ==>
      && FirstUnresolved(Wired(decls)) < |Wired(decls)|
      && !Resolves(Wired(decls)[FirstUnresolved(Wired(decls))])
      && MetaOf(decls).error == ResolveField(Wired(decls)[FirstUnresolved(Wired(decls))]).error
  {
    if MetaOf(decls).Failure? {
      var init := decls[..|decls| - 1];
      var last := decls[|decls| - 1];
      var w := Wired(init);
      var W := Wired(decls);
      MetaOfFailure(init);
      if !IsSkipped(last) {
        assert W == w + [last];
        assert W[..|W| - 1] == w;
        if MetaOf(init).Failure? {
          assert W[FirstUnresolved(w)] == w[FirstUnresolved(w)];
        } else {
          MetaOfSucceeds(init);
          FirstUnresolvedIsFirst(w);
          assert FirstUnresolved(w) == |w|;
          assert W[|w|] == last;
        }
      }
    }
  }

  /** A declaration fails to resolve only because its tag names no catalogue
      type, and the error carries the name it was looked up by. */
  lemma ResolveFieldError(d: FieldDecl)
    ensures ResolveField(d).Failure? ==> ResolveField(d).error == UnknownWireType(ParseTag(d.tag).0)
  {
    LookupSound(Catalogue, ParseTag(d.tag).0);
  }

  /** The metadata fails only on an unknown wire type. */
  lemma {:induction false} MetaOfErrorUnknown(decls: seq<FieldDecl>)
    ensures MetaOf(decls).Failure? ==> MetaOf(decls).error.UnknownWireType?
  {
    if decls != [] {
      MetaOfErrorUnknown(decls[..|decls| - 1]);
      ResolveFieldError(decls[|decls| - 1]);
    }
  }

  /** Skipped declarations play no part: the metadata is that of the wired
      declarations alone. */
  lemma MetaOnlyWired(decls: seq<FieldDecl>)
    ensures MetaOf(decls) == MetaOf(Wired(decls))
  {
    MetaWithOnlyWired(ResolveField, decls);
  }

  lemma {:induction false} MetaWithOnlyWired(resolve: FieldDecl -> Result<Field>, decls: seq<FieldDecl>)
    ensures MetaWith(resolve, decls) == MetaWith(resolve, Wired(decls))
  {
    if decls != [] {
      var init := decls[..|decls| - 1];
      var last := decls[|decls| - 1];
      MetaWithOnlyWired(resolve, init);
      if !IsSkipped(last) {
        assert Wired(decls) == Wired(init) + [last];
        MetaWithSnoc(resolve, Wired(init), last);
      }
    }
  }

  /** Two record types whose wired declarations agree have the same metadata,
      however their skipped declarations are placed among them. */
  lemma SkippedPlacementIrrelevant(a: seq<FieldDecl>, b: seq<FieldDecl>)
    requires Wired(a) == Wired(b)
    ensures MetaOf(a) == MetaOf(b)
  {
    MetaOnlyWired(a);
    MetaOnlyWired(b);
  }

  /** The last element of a joined list and what comes before it. */
  lemma AppendInit<T>(a: seq<T>, b: seq<T>)
    requires b != []
    ensures (a + b)[..|a + b| - 1] == a + b[..|b| - 1]
    ensures (a + b)[|a + b| - 1] == b[|b| - 1]
  {
  }

  lemma {:induction false} WiredAppend(a: seq<FieldDecl>, b: seq<FieldDecl>)
    ensures Wired(a + b) == Wired(a) + Wired(b)
    decreases |b|
  {
    if b == [] {
      assert a + b == a;
    } else {
      var b0 := b[..|b| - 1];
      AppendInit(a, b);
      WiredAppend(a, b0);
    }
  }

  /** The metadata of two declaration lists joined is the two joined: sizes add
      and the field lists concatenate. */
  lemma MetaAppend(a: seq<FieldDecl>, b: seq<FieldDecl>)
    requires MetaOf(a).Success? && MetaOf(b).Success?
    ensures MetaOf(a + b).Success?
    ensures MetaOf(a + b).value.size == MetaOf(a).value.size + MetaOf(b).value.size
    ensures MetaOf(a + b).value.fields == MetaOf(a).value.fields + MetaOf(b).value.fields
  {
    MetaWithAppend(ResolveField, a, b);
  }

  /** The same, with both layouts given. */
  lemma MetaJoin(a: seq<FieldDecl>, b: seq<FieldDecl>, ma: Meta, mb: Meta)
    requires MetaOf(a) == Success(ma) && MetaOf(b) == Success(mb)
    ensures MetaOf(a + b) == Success(Meta(ma.size + mb.size, ma.fields + mb.fields))
  {
    MetaAppend(a, b);
  }

  lemma {:induction false} MetaWithAppend(resolve: FieldDecl -> Result<Field>, a: seq<FieldDecl>, b: seq<FieldDecl>)
    requires MetaWith(resolve, a).Success? && MetaWith(resolve, b).Success?
    ensures MetaWith(resolve, a + b).Success?
    ensures MetaWith(resolve, a + b).value.size == MetaWith(resolve, a).value.size + MetaWith(resolve, b).value.size
    ensures MetaWith(resolve, a + b).value.fields == MetaWith(resolve, a).value.fields + MetaWith(resolve, b).value.fields
    decreases |b|
  {
    if b == [] {
      assert a + b == a;
    } else {
      var b0 := b[..|b| - 1];
      var last := b[|b| - 1];
      AppendInit(a, b);
      MetaWithAppend(resolve, a, b0);
      var m := MetaWith(resolve, a + b0).value;
      var mb := MetaWith(resolve, b0).value;
      if !IsSkipped(last) {
        var f := resolve(last).value;
        assert MetaWith(resolve, a + b) == Success(Meta(m.size + f.wt.size, m.fields + [f]));
        assert MetaWith(resolve, b) == Success(Meta(mb.size + f.wt.size, mb.fields + [f]));
        assert m.fields + [f] == MetaWith(resolve, a).value.fields + (mb.fields + [f]);
      }
    }
  }

  /** A record type whose wired declarations resolve to fields has those
      fields as its metadata. */
  lemma MetaOfResolved(decls: seq<FieldDecl>, fields: seq<Field>)
    requires |Wired(decls)| == |fields|
    requires forall k :: 0 <= k < |fields| ==> ResolveField(Wired(decls)[k]) == Success(fields[k])
    ensures MetaOf(decls) == Success(Meta(FieldsSize(fields), fields))
  {
    MetaOfSucceeds(decls);
    MetaOfSuccess(decls);
    assert MetaOf(decls).value.fields == fields;
  }

  /** Without skipped declarations, every declaration is on the wire. */
  lemma {:induction false} WiredNoSkips(decls: seq<FieldDecl>)
    requires forall k :: 0 <= k < |decls| ==> !IsSkipped(decls[k])
    ensures Wired(decls) == decls
  {
    if decls != [] {
      WiredNoSkips(decls[..|decls| - 1]);
      assert decls[..|decls| - 1] + [decls[|decls| - 1]] == decls;
    }
  }

  /** Offsets given as a running sum of the widths are the fields' offsets,
      and the last one is the total size. */
  lemma {:induction false} OffsetsFrom(fields: seq<Field>, offs: seq<nat>)
    requires |offs| == |fields| + 1 && offs[0] == 0
    requires forall k :: 0 <= k < |fields| ==> offs[k + 1] == offs[k] + fields[k].wt.size
    ensures forall k :: 0 <= k <= |fields| ==> Offset(fields, k) == offs[k]
    ensures FieldsSize(fields) == offs[|fields|]
    decreases |fields|
  {
    if fields == [] {
    } else {
      var n := |fields| - 1;
      OffsetsFrom(fields[..n], offs[..n + 1]);
      forall k | 0 <= k <= n ensures Offset(fields, k) == offs[k] {
        assert fields[..k] == fields[..n][..k];
      }
      FieldsSizeAppend(fields[..n], [fields[n]]);
      assert fields[..n] + [fields[n]] == fields;
      assert fields[..n + 1] == fields;
      assert FieldsSize([fields[n]]) == fields[n].wt.size;
    }
  }
}
