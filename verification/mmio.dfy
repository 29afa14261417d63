/**
  The two operations of the MemoryMappedIO module, `read` and `write`,
  as pure functions from the memory before the call to the outcome of the
  call. Opening /dev/mem and mapping the window are operating-system calls;
  whether each succeeds is given by an `Env`.
 */
module Mmio {
  import opened Bits
  import opened Window
  import opened AccessType
  import opened Memory

  /** Whether this call's `open` of /dev/mem and its `mmap` of the window succeed. */
  datatype Env = Env(deviceOpens: bool, windowMaps: bool)

  /** Why a call terminated the process. */
  datatype Fault =
    | Fatal                        // open or mmap failed: FATAL, exit(1)
    | IllegalDataType(code: Octet) // read with an unknown width code: exit(2)

  function ExitStatus(f: Fault): nat
  {
    match f
    case Fatal => 1
    case IllegalDataType(_) => 2
  }

  /** What a call leads to. */
  datatype Outcome =
    | Returned(value: ULong, mem: Memory) // the call returns `value`; memory is now `mem`
    | Exited(fault: Fault)                // the process terminates
    | Unspecified(mem: Memory)            // the returned value is an uninitialised variable

  /**
    The caller's obligation once the window is mapped, which the source does
    not check: when the code names a width, the access lies inside the mapped
    page and the bytes it covers exist.
   */
  predicate AccessOk(mem: Memory, target: ULong, code: seq<Octet>)
  {
    match DecodeWidth(AccessCode(code))
    case None => true
    case Some(w) =>
      VirtualAddress(target).Covers(Size(w)) && Backed(mem, target, Size(w))
  }

  /** The mapping step of both operations: open, mmap, and point at the target. */
  function Map(env: Env, target: ULong): (r: Option<Pointer>)
    ensures r.Some? <==> env.deviceOpens && env.windowMaps
    ensures r.Some? ==> r.value.Physical() == target && r.value.base % MapSize == 0
  {
    if !env.deviceOpens then None
    else if !env.windowMaps then None
    else Some(VirtualAddress(target))
  }

  /** Every width's values fit in the `unsigned long` that `read_result` is. */
  lemma WidthFitsLong(w: Width)
    ensures Pow2(8 * Size(w)) <= LongLimit
  {
    LongConstant();
    Pow2Monotone(8 * Size(w), LongBits);
  }

  /** `method_read`: load the value of the requested width at `target`. */
  function Read(mem: Memory, env: Env, target: ULong, code: seq<Octet>): (r: Outcome)
    requires env.deviceOpens && env.windowMaps ==> AccessOk(mem, target, code)
    ensures !r.Unspecified?
    ensures r == Exited(Fatal) <==> !(env.deviceOpens && env.windowMaps)
    ensures env.deviceOpens && env.windowMaps && DecodeWidth(AccessCode(code)).None?
            ==> r == Exited(IllegalDataType(AccessCode(code)))
    ensures r.Returned? <==> env.deviceOpens && env.windowMaps && DecodeWidth(AccessCode(code)).Some?
    ensures r.Returned? ==>
              var n := Size(DecodeWidth(AccessCode(code)).value);
              && r.mem == mem
              && r.value == Load(mem, target, n)
              && r.value < Pow2(8 * n)
  {
    var access := AccessCode(code);
    match Map(env, target)
    case None => Exited(Fatal)
    case Some(p) =>
      match DecodeWidth(access)
      case None => Exited(IllegalDataType(access))
      case Some(w) =>
        WidthFitsLong(w);
        Returned(Load(mem, p.Physical(), Size(w)), mem)
  }

  /**
    `method_write`: store `writeval` at the requested width, then load the
    same location at the same width and return what was read.
   */
  function Write(mem: Memory, env: Env, target: ULong, code: seq<Octet>, writeval: ULong): (r: Outcome)
    requires env.deviceOpens && env.windowMaps ==> AccessOk(mem, target, code)
    ensures r == Exited(Fatal) <==> !(env.deviceOpens && env.windowMaps)
    ensures env.deviceOpens && env.windowMaps && DecodeWidth(AccessCode(code)).None?
            ==> r == Unspecified(mem)
    ensures r.Returned? <==> env.deviceOpens && env.windowMaps && DecodeWidth(AccessCode(code)).Some?
    ensures r.Returned? ==>
              var n := Size(DecodeWidth(AccessCode(code)).value);
              && r.value == Truncate(writeval, n)
              && r.mem.Keys == mem.Keys
              && Load(r.mem, target, n) == r.value
              && (forall i :: i in mem && !(target <= i < target + n) ==> r.mem[i] == mem[i])
  {
    var access := AccessCode(code);
    match Map(env, target)
    case None => Exited(Fatal)
    case Some(p) =>
      match DecodeWidth(access)
      case None => Unspecified(mem)
      case Some(w) =>
        var n := Size(w);
        var mem' := Store(mem, p.Physical(), n, writeval);
        LoadAfterStore(mem, p.Physical(), n, writeval);
        WidthFitsLong(w);
        Returned(Load(mem', p.Physical(), n), mem')
  }

  /**
    Over plain memory, reading back what was just written, at the same
    address and with any code that selects the same width, yields the value
    the write returned, and leaves memory as the write left it.
   */
  lemma ReadAfterWrite(mem: Memory, env: Env, target: ULong, code: seq<Octet>, code': seq<Octet>, writeval: ULong)
    requires AccessOk(mem, target, code)
    requires env.deviceOpens && env.windowMaps && DecodeWidth(AccessCode(code)).Some?
    requires DecodeWidth(AccessCode(code')) == DecodeWidth(AccessCode(code))
    ensures var w := Write(mem, env, target, code, writeval);
            && AccessOk(w.mem, target, code')
            && Read(w.mem, env, target, code') == Returned(Truncate(writeval, Size(DecodeWidth(AccessCode(code)).value)), w.mem)
  {
  }

  /** A write does not change what a read of a disjoint location returns. */
  lemma WriteLeavesOthers(mem: Memory, env: Env, target: ULong, code: seq<Octet>, writeval: ULong,
                          other: ULong, otherCode: seq<Octet>, w: Width, w': Width)
    requires env.deviceOpens && env.windowMaps
    requires DecodeWidth(AccessCode(code)) == Some(w) && DecodeWidth(AccessCode(otherCode)) == Some(w')
    requires AccessOk(mem, target, code) && AccessOk(mem, other, otherCode)
    requires other + Size(w') <= target || target + Size(w) <= other
    ensures var r := Write(mem, env, target, code, writeval);
            && AccessOk(r.mem, other, otherCode)
            && Read(r.mem, env, other, otherCode) == Read(mem, env, other, otherCode).(mem := r.mem)
  {
    var r := Write(mem, env, target, code, writeval);
    LoadFrame(r.mem, mem, other, Size(w'));
  }


  /**
    Byte and halfword reads are zero-extended into the `unsigned long`
    result: a byte read is below 2^8 and a halfword read below 2^16.
   */
  lemma NarrowReadsZeroExtend(mem: Memory, env: Env, target: ULong, code: seq<Octet>)
    requires AccessOk(mem, target, code)
    requires env.deviceOpens && env.windowMaps
    ensures DecodeWidth(AccessCode(code)) == Some(Byte) ==> Read(mem, env, target, code).value < 0x100
    ensures DecodeWidth(AccessCode(code)) == Some(Half) ==> Read(mem, env, target, code).value < 0x1_0000
  {
    Pow2Square(8, 0x100);
  }

  /**
    When `open` or `mmap` fails, both operations exit with status 1 before
    the width code is looked at, wherever the target lies.
   */
  lemma UnmappedCallsExitOne(mem: Memory, env: Env, target: ULong, code: seq<Octet>, writeval: ULong)
    requires !(env.deviceOpens && env.windowMaps)
    ensures Read(mem, env, target, code) == Exited(Fatal)
    ensures Write(mem, env, target, code, writeval) == Exited(Fatal)
    ensures ExitStatus(Fatal) == 1
  {
  }

  /** A read with a code outside b/h/w terminates with status 2, after a successful mapping. */
  lemma IllegalReadExitsTwo(mem: Memory, env: Env, target: ULong, code: seq<Octet>)
    requires env.deviceOpens && env.windowMaps
    requires DecodeWidth(AccessCode(code)).None?
    ensures Read(mem, env, target, code).Exited?
    ensures ExitStatus(Read(mem, env, target, code).fault) == 2
  {
  }

  /** The word-width scenario: 0xDEADBEEF written at 0x1000 reads back unchanged. */
  lemma WordScenario(mem: Memory, env: Env, target: ULong)
    requires env.deviceOpens && env.windowMaps
    requires target == 0x1000 && Backed(mem, target, WordBytes)
    ensures AccessOk(mem, target, [0x77])
            && var w := Write(mem, env, target, [0x77], 0xDEADBEEF);
               && w.Returned?
               && w.value == 0xDEADBEEF
               && AccessOk(w.mem, target, [0x57])
               && Read(w.mem, env, target, [0x57]) == Returned(0xDEADBEEF, w.mem)
  {
    assert DecodeWidth(AccessCode([0x77])) == Some(Word);
    assert DecodeWidth(AccessCode([0x57])) == Some(Word);
    assert Truncate(0xDEADBEEF, WordBytes) == 0xDEADBEEF by {
      LongConstant();
      DivModUnique(0xDEADBEEF, LongLimit, 0, 0xDEADBEEF);
    }
    ReadAfterWrite(mem, env, target, [0x77], [0x57], 0xDEADBEEF);
  }

  /** The byte-width scenario: 0x1FF written at 0x1003 is stored and read back as 0xFF. */
  lemma ByteScenario(mem: Memory, env: Env, target: ULong)
    requires env.deviceOpens && env.windowMaps
    requires target == 0x1003 && target in mem
    ensures AccessOk(mem, target, [0x62])
            && Write(mem, env, target, [0x62], 0x1FF) == Returned(0xFF, mem[target := 0xFF])
    ensures AccessOk(mem[target := 0xFF], target, [0x42])
            && Read(mem[target := 0xFF], env, target, [0x42]) == Returned(0xFF, mem[target := 0xFF])
  {
    assert DecodeWidth(AccessCode([0x62])) == Some(Byte);
    assert DecodeWidth(AccessCode([0x42])) == Some(Byte);
    assert Backed(mem, target, 1);
    assert Truncate(0x1FF, 1) == 0xFF by {
      assert Pow2(8) == 256;
      DivModUnique(0x1FF, 256, 1, 0xFF);
    }
    assert Write(mem, env, target, [0x62], 0x1FF).mem == mem[target := 0xFF] by {
      assert Store(mem, target, 1, 0x1FF) == mem[target := 0xFF];
    }
    ReadAfterWrite(mem, env, target, [0x62], [0x42], 0x1FF);
  }
}
