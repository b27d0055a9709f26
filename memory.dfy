/** The native memory that pointer fields refer to, and the two reads the
    decoder makes through a pointer: a zero-terminated UTF-16 string and a
    counted run of bytes. The memory is the byte at each address below its
    length; reading at or above it is a fault. */
module NativeMemory {
  import opened Wire
  import opened Errors
  import opened ByteBuffer

  type Memory = seq<Byte>

  /** The UTF-16 code unit stored little-endian at address a. */
  function UnitAt(mem: Memory, a: nat): U16
    requires a + 2 <= |mem|
  {
    (mem[a] as int) + 256 * (mem[a + 1] as int)
  }

  /** The n code units from address p on. */
  function Units(mem: Memory, p: nat, n: nat): (r: seq<U16>)
    requires n > 0 ==> p + 2 * n <= |mem|
    ensures |r| == n
  {
    seq(n, i requires 0 <= i < n => UnitAt(mem, p + 2 * i))
  }

  /** The code units from p up to, not including, the first zero unit. */
  function WideStringAt(mem: Memory, p: nat): Result<seq<U16>>
    decreases |mem| - p
  {
    if p + 2 > |mem| then Failure(MemoryFault(p))
    else if UnitAt(mem, p) == 0 then Success([])
    else
      var rest := WideStringAt(mem, p + 2);
      if rest.Failure? then rest else Success([UnitAt(mem, p)] + rest.value)
  }

  /** The string read at p is the run of non-zero units before the first zero
      unit, and it is found exactly when memory holds a zero unit at or after p. */
  lemma WideStringAtSpec(mem: Memory, p: nat)
    ensures WideStringAt(mem, p).Success? <==>
      exists k: nat :: p + 2 * k + 2 <= |mem| && UnitAt(mem, p + 2 * k) == 0
    ensures WideStringAt(mem, p).Success? ==>
      var s := WideStringAt(mem, p).value;
      && p + 2 * |s| + 2 <= |mem|
      && s == Units(mem, p, |s|)
      && (forall i :: 0 <= i < |s| ==> s[i] != 0)
      && UnitAt(mem, p + 2 * |s|) == 0
  {
    WideStringFound(mem, p);
    WideStringShape(mem, p);
  }

  lemma {:induction false} WideStringFound(mem: Memory, p: nat)
    ensures WideStringAt(mem, p).Success? <==>
      exists k: nat :: p + 2 * k + 2 <= |mem| && UnitAt(mem, p + 2 * k) == 0
    decreases |mem| - p
  {
    if p + 2 <= |mem| && UnitAt(mem, p) != 0 {
      WideStringFound(mem, p + 2);
      if exists k: nat :: p + 2 * k + 2 <= |mem| && UnitAt(mem, p + 2 * k) == 0 {
        var k: nat :| p + 2 * k + 2 <= |mem| && UnitAt(mem, p + 2 * k) == 0;
        assert k > 0;
        assert (p + 2) + 2 * (k - 1) == p + 2 * k;
      }
      if exists k: nat :: (p + 2) + 2 * k + 2 <= |mem| && UnitAt(mem, (p + 2) + 2 * k) == 0 {
        var k: nat :| (p + 2) + 2 * k + 2 <= |mem| && UnitAt(mem, (p + 2) + 2 * k) == 0;
        assert p + 2 * (k + 1) == (p + 2) + 2 * k;
      }
    } else if p + 2 <= |mem| {
      assert p + 2 * 0 == p;
    }
  }

  lemma {:induction false} WideStringShape(mem: Memory, p: nat)
    ensures WideStringAt(mem, p).Success? ==>
      var s := WideStringAt(mem, p).value;
      && p + 2 * |s| + 2 <= |mem|
      && s == Units(mem, p, |s|)
      && (forall i :: 0 <= i < |s| ==> s[i] != 0)
      && UnitAt(mem, p + 2 * |s|) == 0
    decreases |mem| - p
  {
    if p + 2 <= |mem| && UnitAt(mem, p) != 0 {
      WideStringShape(mem, p + 2);
      if WideStringAt(mem, p).Success? {
        var s := WideStringAt(mem, p).value;
        var t := WideStringAt(mem, p + 2).value;
        assert s == [UnitAt(mem, p)] + t;
        assert p + 2 * |s| == (p + 2) + 2 * |t|;
        forall i | 0 <= i < |s|
          ensures s[i] == UnitAt(mem, p + 2 * i)
        {
          if i > 0 {
            assert s[i] == t[i - 1];
            assert p + 2 * i == (p + 2) + 2 * (i - 1);
          }
        }
      }
    }
  }

  /** The string read fails only on a fault, at the first address past the
      end of memory. */
  lemma {:induction false} WideStringAtFault(mem: Memory, p: nat)
    ensures WideStringAt(mem, p).Failure? ==>
      WideStringAt(mem, p).error == MemoryFault(if p + 2 > |mem| then p else p + 2 * ((|mem| - p) / 2))
    decreases |mem| - p
  {
    if p + 2 <= |mem| && UnitAt(mem, p) != 0 {
      WideStringAtFault(mem, p + 2);
      assert (|mem| - p) / 2 == (|mem| - (p + 2)) / 2 + 1;
    }
  }

  /** utf16PtrToString: counts the units before the first zero unit, then
      takes that many units from p. A null pointer gives the empty string. */
  method Utf16PtrToString(mem: Memory, p: U64) returns (r: Result<seq<U16>>)
    ensures p == 0 ==> r == Success([])
    ensures p != 0 ==> r == WideStringAt(mem, p)
  {
    if p == 0 {
      return Success([]);
    }
    var end: nat := p;
    var n: nat := 0;
    assert Units(mem, p, 0) == [];
    assert WideStringAt(mem, p).Success? ==> [] + WideStringAt(mem, p).value == WideStringAt(mem, p).value;
    while true
      invariant end == p + 2 * n
      invariant n > 0 ==> end <= |mem|
      invariant forall i :: 0 <= i < n ==> UnitAt(mem, p + 2 * i) != 0
      invariant WideStringAt(mem, p) == Prepend(Units(mem, p, n), WideStringAt(mem, end))
      decreases |mem| - end
    {
      if end + 2 > |mem| {
        return Failure(MemoryFault(end));
      }
      if UnitAt(mem, end) == 0 {
        assert Units(mem, p, n) + [] == Units(mem, p, n);
        break;
      }
      assert WideStringAt(mem, end) == Prepend([UnitAt(mem, end)], WideStringAt(mem, end + 2));
      assert Units(mem, p, n + 1) == Units(mem, p, n) + [UnitAt(mem, end)];
      PrependPrepend(Units(mem, p, n), [UnitAt(mem, end)], WideStringAt(mem, end + 2));
      end := end + 2;
      n := n + 1;
    }
    r := Success(Units(mem, p, n));
  }

  function Prepend(prefix: seq<U16>, r: Result<seq<U16>>): Result<seq<U16>>
  {
    if r.Success? then Success(prefix + r.value) else r
  }

  lemma PrependPrepend(a: seq<U16>, b: seq<U16>, r: Result<seq<U16>>)
    ensures Prepend(a, Prepend(b, r)) == Prepend(a + b, r)
  {
    if r.Success? {
      assert a + (b + r.value) == (a + b) + r.value;
    }
  }

  /** The n bytes from address p on; a fault at the first address outside
      memory when they do not all lie inside it. */
  function BytesAt(mem: Memory, p: nat, n: nat): (r: Result<seq<Byte>>)
    ensures r.Success? <==> n == 0 || p + n <= |mem|
    ensures r.Success? ==> |r.value| == n && forall i :: 0 <= i < n ==> r.value[i] == mem[p + i]
    ensures r.Failure? ==> r.error == MemoryFault(Max(p, |mem|))
  {
    if n == 0 then Success([])
    else if p + n <= |mem| then Success(mem[p..p + n])
    else Failure(MemoryFault(Max(p, |mem|)))
  }

  /** The read loop of byteArrayPointerFromBytes: one byte at a time from
      address p up to, not including, end. */
  method CopyBytes(mem: Memory, p: nat, end: nat) returns (r: Result<seq<Byte>>)
    ensures r == BytesAt(mem, p, if end > p then end - p else 0)
  {
    var data := new Buffer([]);
    var i := p;
    while i < end
      invariant p <= i <= Max(p, end)
      invariant i == p ==> data.unread == []
      invariant i > p ==> i <= |mem| && data.unread == mem[p..i]
    {
      if i >= |mem| {
        return Failure(MemoryFault(i));
      }
      data.Write([mem[i]]);
      i := i + 1;
    }
    r := Success(data.unread);
  }
}
