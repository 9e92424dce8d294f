/** The bridge to the AStyle formatter compiled to WebAssembly: strings are
    passed through the module's linear memory as NUL-terminated bytes, the
    result comes back through a pointer slot, and the stubbed system calls
    turn host errors into WASI preview1 error numbers. The compiled formatter
    itself, the allocator and module loading are outside the model. */
module AStyle {
  import opened Records

  // ---------------------------------------------------------------------------
  // NUL-terminated strings in linear memory
  // ---------------------------------------------------------------------------

  /** The memory after `str` and its terminating 0 are stored at `pointer`. */
  function Written(mem: seq<Byte>, str: seq<Byte>, pointer: nat): (r: seq<Byte>)
    requires pointer + |str| + 1 <= |mem|
    ensures |r| == |mem|
    ensures r[pointer + |str|] == 0 && HasNul(r, pointer)
    ensures forall i :: 0 <= i < |r| && (i < pointer || i > pointer + |str|) ==> r[i] == mem[i]
  {
    mem[..pointer] + str + [0] + mem[pointer + |str| + 1..]
  }

  /** `writeEncodedString`: the view `new Uint8Array(memory.buffer, pointer,
      n + 1)` throws a `RangeError` (result false, memory untouched) when it
      would run past the end of memory; otherwise the bytes and a 0 are
      stored and nothing else is written. */
  method WriteEncodedString(str: seq<Byte>, memory: array<Byte>, pointer: nat) returns (ok: bool)
    modifies memory
    ensures ok <==> pointer + |str| + 1 <= memory.Length
    ensures ok ==> memory[..] == Written(old(memory[..]), str, pointer)
    ensures !ok ==> memory[..] == old(memory[..])
  {
    if pointer + |str| + 1 > memory.Length {
      return false;
    }
    for i := 0 to |str|
      invariant memory[..] == old(memory[..pointer]) + str[..i] + old(memory[pointer + i..])
    {
      memory[pointer + i] := str[i];
      assert str[..i + 1] == str[..i] + [str[i]];
    }
    memory[pointer + |str|] := 0;
    assert str[..|str|] == str;
    ok := true;
  }

  /** There is a 0 at or after `pointer`. */
  predicate HasNul(mem: seq<Byte>, pointer: nat) {
    exists k :: pointer <= k < |mem| && mem[k] == 0
  }

  /** The bytes from `pointer` up to, not including, the first 0. */
  function CString(mem: seq<Byte>, pointer: nat): (r: seq<Byte>)
    requires HasNul(mem, pointer)
    ensures pointer + |r| < |mem| && mem[pointer + |r|] == 0
    ensures r == mem[pointer..pointer + |r|] && 0 !in r
    decreases |mem| - pointer
  {
    if mem[pointer] == 0 then [] else [mem[pointer]] + CString(mem, pointer + 1)
  }

  /** `readString`: counts bytes until a 0. The count never stops when there
      is no 0 after `pointer`, so the caller must supply one. */
  method ReadString(memory: array<Byte>, pointer: nat) returns (r: seq<Byte>)
    requires HasNul(memory[..], pointer)
    ensures r == CString(memory[..], pointer)
  {
    var length := 0;
    ghost var n := |CString(memory[..], pointer)|;
    while memory[pointer + length] != 0
      invariant 0 <= length <= n
      invariant 0 !in memory[pointer..pointer + length]
      decreases n - length
    {
      length := length + 1;
    }
    if length == 0 {
      return [];
    }
    r := memory[pointer..pointer + length];
  }

  /** A string with no 0 byte reads back as it was written. */
  lemma ReadAfterWrite(mem: seq<Byte>, str: seq<Byte>, pointer: nat)
    requires pointer + |str| + 1 <= |mem| && 0 !in str
    ensures CString(Written(mem, str, pointer), pointer) == str
  {
    var w := Written(mem, str, pointer);
    assert w[pointer..pointer + |str|] == str;
    CStringUnique(w, pointer, str);
  }

  /** The first 0 decides the string: any NUL-free run ending at a 0 is it. */
  lemma CStringUnique(mem: seq<Byte>, pointer: nat, s: seq<Byte>)
    requires pointer + |s| < |mem| && mem[pointer + |s|] == 0
    requires mem[pointer..pointer + |s|] == s && 0 !in s
    ensures CString(mem, pointer) == s
  {
  }

  // ---------------------------------------------------------------------------
  // The result pointer
  // ---------------------------------------------------------------------------

  /** `readInt32`: the unsigned little-endian 32-bit word at `pointer`, read
      through a `Uint32Array` view, which throws (None) unless the offset is
      a multiple of 4 and the word lies inside memory. */
  function ReadUint32(mem: seq<Byte>, pointer: nat): (r: Option<nat>)
    ensures r.Some? <==> pointer % 4 == 0 && pointer + 4 <= |mem|
    ensures r.Some? ==> r.value < 0x1_0000_0000
  {
    if pointer % 4 != 0 || pointer + 4 > |mem| then None
    else Some(mem[pointer] as int + 0x100 * (mem[pointer + 1] as int)
              + 0x1_0000 * (mem[pointer + 2] as int) + 0x100_0000 * (mem[pointer + 3] as int))
  }

  /** The four little-endian bytes of a 32-bit word. */
  function EncodeUint32(v: nat): (r: seq<Byte>)
    requires v < 0x1_0000_0000
    ensures |r| == 4
  {
    [v % 0x100, v / 0x100 % 0x100, v / 0x100 / 0x100 % 0x100, v / 0x100 / 0x100 / 0x100]
  }

  /** A word stored at an aligned address reads back unchanged. */
  lemma ReadUint32Encoded(prefix: seq<Byte>, v: nat, rest: seq<Byte>)
    requires v < 0x1_0000_0000 && |prefix| % 4 == 0
    ensures ReadUint32(prefix + EncodeUint32(v) + rest, |prefix|) == Some(v)
  {
    var m := prefix + EncodeUint32(v) + rest;
    var p := |prefix|;
    var q1, q2 := v / 0x100, v / 0x100 / 0x100;
    assert m[p] == v % 0x100 && m[p + 1] == q1 % 0x100;
    assert m[p + 2] == q2 % 0x100 && m[p + 3] == q2 / 0x100;
    assert v == v % 0x100 + 0x100 * q1;
    assert q1 == q1 % 0x100 + 0x100 * q2;
    assert q2 == q2 % 0x100 + 0x100 * (q2 / 0x100);
  }

  // ---------------------------------------------------------------------------
  // format
  // ---------------------------------------------------------------------------

  /** Where `format` puts things in the buffer it allocates at `base`: the
      result-pointer slot, then the code, then the options, each string with
      its terminating 0. */
  datatype Layout = Layout(bufferSize: nat, resultSlot: nat, codePointer: nat, optionsPointer: nat)

  function LayoutOf(codeLen: nat, optionsLen: nat, base: nat): (l: Layout)
    ensures l.resultSlot == base && l.codePointer == base + 4
    ensures l.bufferSize == codeLen + 1 + optionsLen + 1 + 4
  {
    var codePointer := base + 4;
    Layout(codeLen + 1 + (optionsLen + 1) + 4, base, codePointer, codePointer + (codeLen + 1))
  }

  /** The three regions follow one another without overlap and fill the
      buffer exactly. */
  lemma LayoutTiles(codeLen: nat, optionsLen: nat, base: nat)
    ensures var l := LayoutOf(codeLen, optionsLen, base);
      && l.resultSlot + 4 == l.codePointer
      && l.codePointer + codeLen + 1 == l.optionsPointer
      && l.optionsPointer + optionsLen + 1 == base + l.bufferSize
  {
  }

  /** The memory `format` hands to the formatter: outside the code and
      options regions, the result-pointer slot included, it is unchanged. */
  function Prepared(mem: seq<Byte>, code: seq<Byte>, options: seq<Byte>, base: nat): (r: seq<Byte>)
    requires base + LayoutOf(|code|, |options|, base).bufferSize <= |mem|
    ensures |r| == |mem|
    ensures var end := base + LayoutOf(|code|, |options|, base).bufferSize;
      forall i :: 0 <= i < |mem| && (i < base + 4 || i >= end) ==> r[i] == mem[i]
  {
    var l := LayoutOf(|code|, |options|, base);
    Written(Written(mem, code, l.codePointer), options, l.optionsPointer)
  }

  /** The formatter finds both strings intact: the options write does not
      clobber the code. */
  lemma PreparedHoldsInputs(mem: seq<Byte>, code: seq<Byte>, options: seq<Byte>, base: nat)
    requires base + LayoutOf(|code|, |options|, base).bufferSize <= |mem|
    requires 0 !in code && 0 !in options
    ensures var l := LayoutOf(|code|, |options|, base);
      var p := Prepared(mem, code, options, base);
      && HasNul(p, l.codePointer) && CString(p, l.codePointer) == code
      && CString(p, l.optionsPointer) == options
  {
    var l := LayoutOf(|code|, |options|, base);
    var c, o := l.codePointer, l.optionsPointer;
    var w1 := Written(mem, code, c);
    var p := Written(w1, options, o);
    assert p == Prepared(mem, code, options, base);
    ReadAfterWrite(w1, options, o);
    CodeIntact(mem, code, options, base);
    CStringUnique(p, c, code);
  }

  /** After both writes the code and its terminating 0 are still in place. */
  lemma CodeIntact(mem: seq<Byte>, code: seq<Byte>, options: seq<Byte>, base: nat)
    requires base + LayoutOf(|code|, |options|, base).bufferSize <= |mem|
    ensures var l := LayoutOf(|code|, |options|, base);
      var c := l.codePointer;
      var p := Written(Written(mem, code, c), options, l.optionsPointer);
      p[c..c + |code|] == code && p[c + |code|] == 0
  {
    var l := LayoutOf(|code|, |options|, base);
    var c, o := l.codePointer, l.optionsPointer;
    var w1 := Written(mem, code, c);
    var p := Written(w1, options, o);
    WrittenBefore(w1, options, o, c, c + |code| + 1);
    assert w1[c..c + |code| + 1] == code + [0];
    assert p[c..c + |code| + 1] == code + [0];
  }

  /** A write leaves every byte before its pointer as it was. */
  lemma WrittenBefore(mem: seq<Byte>, str: seq<Byte>, pointer: nat, lo: nat, hi: nat)
    requires pointer + |str| + 1 <= |mem| && lo <= hi <= pointer
    ensures Written(mem, str, pointer)[lo..hi] == mem[lo..hi]
  {
    var w := Written(mem, str, pointer);
    assert forall k :: 0 <= k < hi - lo ==> w[lo..hi][k] == w[lo + k] == mem[lo + k] == mem[lo..hi][k];
  }

  /** The formatter's call, outside the model: given the memory and the
      three pointers it reports success and the memory it leaves. */
  type Wastyle = (seq<Byte>, nat, nat, nat) -> (bool, seq<Byte>)

  datatype FormatResult =
    | Formatted(success: bool, result: seq<Byte>)
    | NotInitialized(message: string)
    | RangeError
    | Unterminated

  const NOT_INITIALIZED := "Please call init() to load the WASM AStyle library first."

  /** The memory after the formatter ran: its bytes, over the old ones where
      it reported fewer. */
  function Overlay(mem: seq<Byte>, after: seq<Byte>): (r: seq<Byte>)
    ensures |r| == |mem|
    ensures forall i :: 0 <= i < |mem| ==> r[i] == if i < |after| then after[i] else mem[i]
  {
    seq(|mem|, i requires 0 <= i < |mem| => if i < |after| then after[i] else mem[i])
  }

  /** What `format` returns once the formatter has left `after`: the string
      the result slot points at. A slot or a result pointer past the end of
      memory makes a typed-array view throw a `RangeError`; a result pointer
      within memory with no 0 after it is the count that never stops. */
  function Collect(success: bool, after: seq<Byte>, slot: nat): (r: FormatResult)
    ensures r.Formatted? ==> r.success == success
    ensures r.RangeError? <==> ReadUint32(after, slot).None? || ReadUint32(after, slot).value > |after|
    ensures r.Formatted? ==> exists p ::
      (ReadUint32(after, slot) == Some(p) && p <= |after| && HasNul(after, p) && r.result == CString(after, p))
    ensures r.Unterminated? <==>
      ReadUint32(after, slot).Some? && ReadUint32(after, slot).value <= |after| && !HasNul(after, ReadUint32(after, slot).value)
    ensures r.Formatted? || r.RangeError? || r.Unterminated?
  {
    match ReadUint32(after, slot)
    case None => RangeError
    case Some(p) =>
      if p > |after| then RangeError
      else if HasNul(after, p) then Formatted(success, CString(after, p)) else Unterminated
  }

  /** `format(code, options)`. `exports` is the loaded module's memory (None
      before `init`), `base` the address `alloc_buffer` returns and `wastyle`
      the formatter; code and options are given as their UTF-8 bytes. */
  method Format(exports: Option<array<Byte>>, code: seq<Byte>, options: seq<Byte>, base: nat,
                wastyle: Wastyle) returns (r: FormatResult)
    modifies if exports.Some? then {exports.value} else {}
    ensures exports.None? ==> r == NotInitialized(NOT_INITIALIZED)
    ensures exports.Some? ==>
      var l := LayoutOf(|code|, |options|, base);
      if base + l.bufferSize <= exports.value.Length then
        var p := Prepared(old(exports.value[..]), code, options, base);
        var (success, after) := wastyle(p, l.codePointer, l.optionsPointer, l.resultSlot);
        exports.value[..] == Overlay(p, after) && r == Collect(success, exports.value[..], l.resultSlot)
      else
        r == RangeError
  {
    if exports.None? {
      return NotInitialized(NOT_INITIALIZED);
    }
    var memory := exports.value;
    var l := LayoutOf(|code|, |options|, base);
    var ok := WriteEncodedString(code, memory, l.codePointer);
    if !ok {
      return RangeError;
    }
    ok := WriteEncodedString(options, memory, l.optionsPointer);
    if !ok {
      return RangeError;
    }
    var (success, after) := wastyle(memory[..], l.codePointer, l.optionsPointer, l.resultSlot);
    r := Finish(memory, success, after, l.resultSlot);
  }

  /** The end of `format`, once the formatter has returned: its memory is in
      place, and the string the result slot points at is read. */
  method Finish(memory: array<Byte>, success: bool, after: seq<Byte>, slot: nat) returns (r: FormatResult)
    modifies memory
    ensures memory[..] == Overlay(old(memory[..]), after)
    ensures r == Collect(success, memory[..], slot)
  {
    forall i | 0 <= i < memory.Length && i < |after| {
      memory[i] := after[i];
    }
    var resultPointer := ReadUint32(memory[..], slot);
    if resultPointer.None? {
      return RangeError;
    }
    var p := resultPointer.value;
    if p > memory.Length {
      return RangeError;
    }
    if !HasNul(memory[..], p) {
      return Unterminated;
    }
    var result := ReadString(memory, p);
    r := Formatted(success, result);
  }

  // ---------------------------------------------------------------------------
  // syscall
  // ---------------------------------------------------------------------------

  /** What a stubbed import can throw: the `ExitStatus` of `proc_exit`, an
      `Error` with a name, or some other value. */
  datatype Thrown = ExitStatus(code: int) | Error(name: string) | NonError

  datatype Outcome = Returned(value: int) | Threw(thrown: Thrown)

  const ERRNO_SUCCESS := 0
  const ERRNO_ACCES := 2
  const ERRNO_ADDRINUSE := 3
  const ERRNO_ADDRNOTAVAIL := 4
  const ERRNO_BADF := 8
  const ERRNO_BUSY := 10
  const ERRNO_CONNABORTED := 13
  const ERRNO_CONNREFUSED := 14
  const ERRNO_CONNRESET := 15
  const ERRNO_INTR := 27
  const ERRNO_INVAL := 28
  const ERRNO_NOENT := 44
  const ERRNO_NOTCONN := 53
  const ERRNO_PIPE := 64
  const ERRNO_TIMEDOUT := 73

  /** The host error names `syscall` recognises, each with its errno. */
  const ErrnoTable: seq<(string, int)> := [
    ("NotFound", ERRNO_NOENT), ("PermissionDenied", ERRNO_ACCES),
    ("ConnectionRefused", ERRNO_CONNREFUSED), ("ConnectionReset", ERRNO_CONNRESET),
    ("ConnectionAborted", ERRNO_CONNABORTED), ("NotConnected", ERRNO_NOTCONN),
    ("AddrInUse", ERRNO_ADDRINUSE), ("AddrNotAvailable", ERRNO_ADDRNOTAVAIL),
    ("BrokenPipe", ERRNO_PIPE), ("InvalidData", ERRNO_INVAL),
    ("TimedOut", ERRNO_TIMEDOUT), ("Interrupted", ERRNO_INTR),
    ("BadResource", ERRNO_BADF), ("Busy", ERRNO_BUSY)
  ]

  /** The `switch (err.name)` of `syscall`. */
  function Errno(name: string): (r: int)
    ensures r != ERRNO_SUCCESS
  {
    match name
    case "NotFound" => ERRNO_NOENT
    case "PermissionDenied" => ERRNO_ACCES
    case "ConnectionRefused" => ERRNO_CONNREFUSED
    case "ConnectionReset" => ERRNO_CONNRESET
    case "ConnectionAborted" => ERRNO_CONNABORTED
    case "NotConnected" => ERRNO_NOTCONN
    case "AddrInUse" => ERRNO_ADDRINUSE
    case "AddrNotAvailable" => ERRNO_ADDRNOTAVAIL
    case "BrokenPipe" => ERRNO_PIPE
    case "InvalidData" => ERRNO_INVAL
    case "TimedOut" => ERRNO_TIMEDOUT
    case "Interrupted" => ERRNO_INTR
    case "BadResource" => ERRNO_BADF
    case "Busy" => ERRNO_BUSY
    case _ => ERRNO_INVAL
  }

  /** `syscall(target)` applied to one call of `target`: a normal return
      passes through, an `ExitStatus` is thrown on, anything else thrown
      becomes an errno. */
  function Syscall(call: Outcome): (r: Outcome)
    ensures call.Returned? ==> r == call
    ensures call.Threw? && call.thrown.ExitStatus? ==> r == call
    ensures call.Threw? && call.thrown.NonError? ==> r == Returned(ERRNO_INVAL)
    ensures call.Threw? && call.thrown.Error? ==> r == Returned(Errno(call.thrown.name))
  {
    match call
    case Returned(_) => call
    case Threw(ExitStatus(_)) => call
    case Threw(NonError) => Returned(ERRNO_INVAL)
    case Threw(Error(name)) => Returned(Errno(name))
  }

  /** Every name in the table gets its own errno; only `InvalidData` shares
      `ERRNO_INVAL` with the names the table lacks, and no name maps to
      success. */
  lemma ErrnoTableAgrees()
    ensures forall i :: 0 <= i < |ErrnoTable| ==> Errno(ErrnoTable[i].0) == ErrnoTable[i].1
    ensures forall i, j :: 0 <= i < j < |ErrnoTable| ==> ErrnoTable[i].1 != ErrnoTable[j].1
  {
  }

  /** `ERRNO_INVAL` comes from `InvalidData` or from a name the table lacks,
      and no name maps to success. */
  lemma ErrnoInval(name: string)
    ensures Errno(name) == ERRNO_INVAL <==>
      name == "InvalidData" || forall i :: 0 <= i < |ErrnoTable| ==> ErrnoTable[i].0 != name
    ensures Errno(name) != ERRNO_SUCCESS
  {
    ErrnoTableAgrees();
    if forall i :: 0 <= i < |ErrnoTable| ==> ErrnoTable[i].0 != name {
      assert ErrnoTable[0].0 != name && ErrnoTable[1].0 != name && ErrnoTable[2].0 != name;
      assert ErrnoTable[3].0 != name && ErrnoTable[4].0 != name && ErrnoTable[5].0 != name;
      assert ErrnoTable[6].0 != name && ErrnoTable[7].0 != name && ErrnoTable[8].0 != name;
      assert ErrnoTable[9].0 != name && ErrnoTable[10].0 != name && ErrnoTable[11].0 != name;
      assert ErrnoTable[12].0 != name && ErrnoTable[13].0 != name;
    }
  }

  /** The four stubbed imports: `proc_exit` throws its status through
      `syscall`, the others report success. */
  function ProcExit(rval: int): (r: Outcome)
    ensures r == Threw(ExitStatus(rval))
  {
    Syscall(Threw(ExitStatus(rval)))
  }

  function FdClose(fd: int): (r: Outcome)
    ensures r == Returned(ERRNO_SUCCESS)
  {
    Syscall(Returned(ERRNO_SUCCESS))
  }
}
