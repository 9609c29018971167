/** Dynamic strings: five header layouts, the growth policy and the in-place operations. */
module SdsStrings {
  import opened Bytes

  datatype HdrType = Type5 | Type8 | Type16 | Type32 | Type64

  const SDS_MAX_PREALLOC := 1024 * 1024
  const SIZE_LIMIT := 0x1_0000_0000_0000_0000

  function ReqType(size: nat): HdrType {
    if size < 32 then Type5
    else if size < 0xff then Type8
    else if size < 0xffff then Type16
    else if size < 0xffff_ffff then Type32
    else Type64
  }

  /** Lengths a header of this type can hold are those below its modulus; others wrap around. */
  function Modulus(t: HdrType): (m: nat)
    ensures m > 0
  {
    match t
    case Type5 => 32
    case Type8 => 0x100
    case Type16 => 0x1_0000
    case Type32 => 0x1_0000_0000
    case Type64 => SIZE_LIMIT
  }

  /**
   The header chosen holds the length, and no narrower one would: five bits are used up, and of
   the wider ones all but the largest value.
   */
  lemma ReqTypeIsNarrowest(size: nat, t: HdrType)
    requires size < SIZE_LIMIT
    ensures size < Modulus(ReqType(size))
    ensures Modulus(t) < Modulus(ReqType(size)) ==> size >= Modulus(t) - (if t.Type5? then 0 else 1)
  {
  }

  /** The allocation that making room for add more bytes asks for. */
  function GrownSize(len: nat, add: nat): nat {
    if len + add < SDS_MAX_PREALLOC then 2 * (len + add) else len + add + SDS_MAX_PREALLOC
  }

  function Zeros(n: nat): bytes {
    seq(n, _ => NUL)
  }

  /** One end of a range: negative positions count from the end of a string of n bytes. */
  function Position(n: nat, i: int): int {
    if i >= 0 then i else if n + i < 0 then 0 else n + i
  }

  /** The bytes of s whose positions lie between start and end, both included. */
  function RangeOf(s: bytes, start: int, end: int): bytes {
    var lo, hi := Position(|s|, start), Position(|s|, end);
    if lo > hi || lo >= |s| then [] else s[lo..if hi >= |s| then |s| else hi + 1]
  }

  /** Positions inside the string may be counted from either end, and both ends are part of the range; */
  lemma RangeInside(s: bytes, a: nat, b: nat)
    requires a <= b < |s|
    ensures RangeOf(s, a, b) == RangeOf(s, a - |s|, b) == s[a..b + 1]
    ensures RangeOf(s, a, b - |s|) == RangeOf(s, a - |s|, b - |s|) == s[a..b + 1]
  {
  }

  /**
   ... an end behind the string is its last byte, and positions before it, also of the end, are
   its first byte; ranges that start behind the string or behind their end are empty.
   */
  lemma RangeOutside(s: bytes, start: int, end: int)
    ensures s != [] && end >= |s| ==> RangeOf(s, start, end) == RangeOf(s, start, |s| - 1)
    ensures start < -|s| ==> RangeOf(s, start, end) == RangeOf(s, 0, end)
    ensures end < -|s| ==> RangeOf(s, start, end) == RangeOf(s, start, 0)
    ensures start >= |s| || 0 <= end < start || (start < 0 && -|s| <= end < start) ==> RangeOf(s, start, end) == []
  {
  }

  lemma RangeDrops(s: bytes, n: nat)
    requires n <= |s|
    ensures RangeOf(s, n, -1) == s[n..]
  {
  }

  /** memcpy() into dst at the given offset. */
  method CopyInto(dst: array<byte>, at: nat, src: bytes)
    requires at + |src| <= dst.Length
    modifies dst
    ensures forall i :: 0 <= i < dst.Length ==>
              dst[i] == if at <= i < at + |src| then src[i - at] else old(dst[i])
  {
    forall i | at <= i < at + |src| {
      dst[i] := src[i - at];
    }
  }

  /** Memory for a new string, with the NUL behind it. */
  method Allocated(init: Option<bytes>, n: nat) returns (mem: array<byte>)
    requires init.Some? ==> |init.value| == n
    ensures fresh(mem) && mem.Length == n + 1 && mem[n] == NUL
    ensures mem[..n] == if init.Some? then init.value else Zeros(n)
  {
    mem := new byte[n + 1](_ => NUL);
    if init.Some? {
      CopyInto(mem, 0, init.value);
    }
    mem[n] := NUL;
  }

  class Sds {
    var hdr: HdrType
    var len: nat     // for Type5 the upper bits of the flags byte
    var alloc: nat   // not present in Type5
    var mem: array<byte>

    ghost predicate Valid()
      reads this, mem
    {
      && len <= Alloc() < Modulus(hdr)
      && Alloc() < mem.Length
      && mem[len] == NUL
    }

    ghost function Contents(): bytes
      requires Valid()
      reads this, mem
    {
      mem[..len]
    }

    function Alloc(): nat
      reads this
    {
      if hdr.Type5? then len else alloc
    }

    function Avail(): int
      reads this
    {
      Alloc() - len
    }

    method SetLen(n: nat)
      modifies `len
      ensures (len == n) == (n < Modulus(hdr))
    {
      len := n % Modulus(hdr);
    }

    method SetAlloc(n: nat)
      modifies `alloc
      ensures hdr.Type5? ==> alloc == old(alloc)
      ensures !hdr.Type5? ==> (alloc == n) == (n < Modulus(hdr))
    {
      if !hdr.Type5? {
        alloc := n % Modulus(hdr);
      }
    }

    /** sdsnewlen(): None stands for a NULL initial pointer. */
    constructor (init: Option<bytes>, initlen: nat)
      requires initlen < SIZE_LIMIT && (init.Some? ==> |init.value| == initlen)
      ensures Valid() && fresh(mem)
      ensures Contents() == if init.Some? then init.value else Zeros(initlen)
      ensures Alloc() == initlen && hdr == if initlen == 0 then Type8 else ReqType(initlen)
    {
      var t := ReqType(initlen);
      if t.Type5? && initlen == 0 {
        t := Type8;
      }
      hdr := t;
      len := initlen % Modulus(t);
      alloc := initlen % Modulus(t);
      var m := Allocated(init, initlen);
      mem := m;
    }

    /** sdsMakeRoomFor() */
    method MakeRoomFor(addlen: nat)
      requires Valid() && len + addlen + SDS_MAX_PREALLOC < SIZE_LIMIT
      modifies this
      ensures Valid() && Contents() == old(Contents())
      ensures len == old(len) && Avail() >= addlen
      ensures Alloc() == if old(Avail()) >= addlen then old(Alloc()) else GrownSize(len, addlen)
      ensures hdr == if old(Avail()) >= addlen then old(hdr)
                     else if Alloc() < 32 then Type8 else ReqType(Alloc())
      ensures mem == old(mem) || fresh(mem)
    {
      if Avail() >= addlen {
        return;
      }
      var n, newlen := len, GrownSize(len, addlen);
      var oldtype, t := hdr, ReqType(newlen);
      if t.Type5? {
        t := Type8;
      }
      var newmem := new byte[newlen + 1];
      CopyInto(newmem, 0, mem[..n + 1]);
      assert newmem[..n] == mem[..n];
      mem := newmem;
      if oldtype != t {
        hdr := t;
        SetLen(n);
      }
      SetAlloc(newlen);
    }

    /** sdsRemoveFreeSpace() */
    method RemoveFreeSpace()
      requires Valid()
      modifies this
      ensures Valid() && Contents() == old(Contents())
      ensures Avail() == 0 && mem.Length == len + 1 && fresh(mem) && hdr == ReqType(len)
    {
      var oldtype, n := hdr, len;
      var t := ReqType(n);
      var newmem := new byte[n + 1];
      CopyInto(newmem, 0, mem[..n + 1]);
      assert newmem[..n] == mem[..n];
      mem := newmem;
      if oldtype != t {
        hdr := t;
        SetLen(n);
      }
      SetAlloc(n);
    }

    /** sdsgrowzero() */
    method GrowZero(n: nat)
      requires Valid() && n + SDS_MAX_PREALLOC < SIZE_LIMIT
      modifies this, mem
      ensures Valid()
      ensures Contents() == old(Contents()) + if n > old(len) then Zeros(n - old(len)) else []
      ensures mem == old(mem) || fresh(mem)
    {
      var curlen := len;
      if n <= curlen {
        return;
      }
      MakeRoomFor(n - curlen);
      ghost var before := mem[..curlen];
      CopyInto(mem, curlen, Zeros(n - curlen + 1));
      SetLen(n);
      assert mem[..n] == before + Zeros(n - curlen);
    }

    /** sdscatlen() */
    method CatLen(t: bytes)
      requires Valid() && len + |t| + SDS_MAX_PREALLOC < SIZE_LIMIT
      modifies this, mem
      ensures Valid() && Contents() == old(Contents()) + t
      ensures Alloc() == if old(Avail()) >= |t| && !old(hdr).Type5? then old(Alloc())
                         else if |t| == 0 then old(Alloc()) else GrownSize(old(len), |t|)
      ensures mem == old(mem) || fresh(mem)
    {
      var curlen := len;
      MakeRoomFor(|t|);
      ghost var before := mem[..curlen];
      CopyInto(mem, curlen, t);
      SetLen(curlen + |t|);
      mem[curlen + |t|] := NUL;
      assert mem[..curlen + |t|] == before + t;
    }

    /** sdscpylen() */
    method CpyLen(t: bytes)
      requires Valid() && |t| + SDS_MAX_PREALLOC < SIZE_LIMIT
      modifies this, mem
      ensures Valid() && Contents() == t
      ensures mem == old(mem) || fresh(mem)
    {
      if Alloc() < |t| {
        MakeRoomFor(|t| - len);
      }
      CopyInto(mem, 0, t);
      mem[|t|] := NUL;
      SetLen(|t|);
      assert mem[..|t|] == t;
    }

    /** The end of sdsrange(): n bytes are moved to the front and become the string. */
    method Keep(start: nat, n: nat)
      requires Valid() && (n == 0 || start + n <= len)
      modifies this, mem
      ensures Valid() && mem == old(mem) && hdr == old(hdr) && alloc == old(alloc)
      ensures Contents() == if n == 0 then [] else old(Contents())[start..start + n]
    {
      ghost var kept := if n == 0 then [] else Contents()[start..start + n];
      assert n != 0 ==> kept == mem[start..start + n];
      if start != 0 && n != 0 {
        CopyInto(mem, 0, mem[start..start + n]);
      }
      assert mem[..n] == kept;
      mem[n] := NUL;
      SetLen(n);
    }

    /** sdsrange() */
    method Range(start: int, end: int)
      requires Valid()
      modifies this, mem
      ensures Valid() && mem == old(mem) && hdr == old(hdr) && alloc == old(alloc)
      ensures Contents() == RangeOf(old(Contents()), start, end)
    {
      if len == 0 {
        return;
      }
      var s, e := start, end;
      if s < 0 {
        s := len + s;
        if s < 0 { s := 0; }
      }
      if e < 0 {
        e := len + e;
        if e < 0 { e := 0; }
      }
      var newlen := if s > e then 0 else e - s + 1;
      if newlen != 0 {
        if s >= len {
          newlen := 0;
        } else if e >= len {
          e := len - 1;
          newlen := if s > e then 0 else e - s + 1;
        }
      } else {
        s := 0;
      }
      Keep(s, newlen);
    }
  }

  // ----- Any sequence of operations -----

  datatype Op =
    | MakingRoom(n: nat)
    | Trimming
    | Growing(n: nat)
    | Appending(t: bytes)
    | Replacing(t: bytes)
    | Cutting(start: int, end: int)

  /** What an operation makes of the contents. */
  function After(s: bytes, op: Op): bytes {
    match op
    case MakingRoom(_) => s
    case Trimming => s
    case Growing(n) => s + if n > |s| then Zeros(n - |s|) else []
    case Appending(t) => s + t
    case Replacing(t) => t
    case Cutting(start, end) => RangeOf(s, start, end)
  }

  function AfterAll(s: bytes, ops: seq<Op>): bytes
    decreases |ops|
  {
    if ops == [] then s else After(AfterAll(s, ops[..|ops| - 1]), ops[|ops| - 1])
  }

  /** The bytes an operation may add. */
  function Cost(op: Op): nat {
    match op
    case MakingRoom(n) => n
    case Growing(n) => n
    case Appending(t) => |t|
    case Replacing(t) => |t|
    case _ => 0
  }

  function CostOf(ops: seq<Op>): nat
    decreases |ops|
  {
    if ops == [] then 0 else CostOf(ops[..|ops| - 1]) + Cost(ops[|ops| - 1])
  }

  lemma {:induction false} LengthBound(s: bytes, ops: seq<Op>)
    ensures |AfterAll(s, ops)| <= |s| + CostOf(ops)
    decreases |ops|
  {
    if ops != [] {
      LengthBound(s, ops[..|ops| - 1]);
    }
  }

  lemma {:induction false} CostGrows(ops: seq<Op>, i: nat)
    requires i < |ops|
    ensures CostOf(ops[..i]) + Cost(ops[i]) <= CostOf(ops)
    decreases |ops|
  {
    var before := ops[..|ops| - 1];
    if i < |before| {
      CostGrows(before, i);
      assert before[..i] == ops[..i];
    }
  }

  method Perform(s: Sds, op: Op)
    requires s.Valid() && s.len + Cost(op) + SDS_MAX_PREALLOC < SIZE_LIMIT
    modifies s, s.mem
    ensures s.Valid() && s.Contents() == After(old(s.Contents()), op)
    ensures s.mem == old(s.mem) || fresh(s.mem)
  {
    match op {
      case MakingRoom(n) => s.MakeRoomFor(n);
      case Trimming => s.RemoveFreeSpace();
      case Growing(n) => s.GrowZero(n);
      case Appending(t) => s.CatLen(t);
      case Replacing(t) => s.CpyLen(t);
      case Cutting(start, end) => s.Range(start, end);
    }
  }

  /**
   Whatever is done to a string, in whatever order and across all changes of its header, it
   holds what the same operations make of a plain byte string.
   */
  method PerformAll(init: bytes, ops: seq<Op>) returns (s: Sds)
    requires |init| + CostOf(ops) + SDS_MAX_PREALLOC < SIZE_LIMIT
    ensures s.Valid() && s.Contents() == AfterAll(init, ops)
  {
    s := new Sds(Some(init), |init|);
    for i := 0 to |ops|
      invariant fresh(s) && fresh(s.mem) && s.Valid() && s.Contents() == AfterAll(init, ops[..i])
    {
      LengthBound(init, ops[..i]);
      CostGrows(ops, i);
      assert ops[..i + 1][..i] == ops[..i];
      Perform(s, ops[i]);
    }
    assert ops[..|ops|] == ops;
  }
}
