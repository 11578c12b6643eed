/**
  The GPU command recorder: a bump allocator over one mapped GPU buffer, the
  interposed `ioctl` that records GPU commands and sync objects while
  recording is on, replay of the recorded commands with fresh timestamps,
  the recording of OpenCL kernel arguments, and the symbol-name routing
  that lets the interposers reach the real library functions.
*/
module Thneed {
  import opened Common
  import Text

  /** Size of the GPU buffer the recorder allocates from. */
  const RamSize := 0x40000

  /** `(size + 0xff) & ~0xff`: `size` rounded up to a multiple of 256. */
  function AlignUp256(size: int): (r: int)
    ensures r % 256 == 0
    ensures size <= r < size + 256
  {
    ((size + 255) / 256) * 256
  }

  /** Bump allocator over one mapped buffer: `base` is the next free address, `remaining` the bytes left. */
  class GPUMalloc {
    var base: int
    var remaining: int

    /** `addr` is where the buffer of `size` bytes was mapped. */
    constructor (size: int, addr: int)
      ensures base == addr && remaining == size
    {
      base := addr;
      remaining := size;
    }

    /**
      Hands out the current base address, or None (a null pointer) when the
      request exceeds what remains, in which case nothing changes. The byte
      count drops by exactly `size`, while the base advances by `size` rounded
      up to 256 bytes.
    */
    method Alloc(size: int) returns (r: Option<int>)
      modifies this
      ensures size > old(remaining) ==> r == None && base == old(base) && remaining == old(remaining)
      ensures size <= old(remaining) ==>
        r == Some(old(base)) && remaining == old(remaining) - size && base == old(base) + AlignUp256(size)
    {
      if size > remaining {
        return None;
      }
      remaining := remaining - size;
      r := Some(base);
      base := base + AlignUp256(size);
    }
  }

  /** The allocator's state after a run of requests, with the address handed out (or None) for each. */
  datatype Bumped = Bumped(addrs: seq<Option<int>>, base: int, remaining: int)

  /** What `GPUMalloc::alloc` hands out for `sizes`, one request after another, from `base` with `remaining` bytes left. */
  function BumpAll(base: int, remaining: int, sizes: seq<int>): (b: Bumped)
    ensures |b.addrs| == |sizes|
    decreases |sizes|
  {
    if sizes == [] then Bumped([], base, remaining)
    else if sizes[0] > remaining then
      var rest := BumpAll(base, remaining, sizes[1..]);
      Bumped([None] + rest.addrs, rest.base, rest.remaining)
    else
      var rest := BumpAll(base + AlignUp256(sizes[0]), remaining - sizes[0], sizes[1..]);
      Bumped([Some(base)] + rest.addrs, rest.base, rest.remaining)
  }

  /** Running the requests of `xs` and then those of `ys` is running `xs + ys`. */
  lemma {:induction false} BumpAllAppend(base: int, remaining: int, xs: seq<int>, ys: seq<int>)
    ensures var p := BumpAll(base, remaining, xs);
      var q := BumpAll(p.base, p.remaining, ys);
      BumpAll(base, remaining, xs + ys) == Bumped(p.addrs + q.addrs, q.base, q.remaining)
    decreases |xs|
  {
    if xs != [] {
      assert (xs + ys)[1..] == xs[1..] + ys;
      if xs[0] > remaining {
        BumpAllAppend(base, remaining, xs[1..], ys);
      } else {
        BumpAllAppend(base + AlignUp256(xs[0]), remaining - xs[0], xs[1..], ys);
      }
    } else {
      assert xs + ys == ys;
    }
  }

  /**
    The blocks handed out never overlap and never overdraw: each lies at or
    after the starting base, ends at or before the next block handed out and
    before the final base, keeps the starting base's alignment modulo 256, and
    the bytes left never go negative.
  */
  lemma {:induction false} BumpAllDisjoint(base: int, remaining: int, sizes: seq<int>)
    requires remaining >= 0
    requires forall k :: 0 <= k < |sizes| ==> sizes[k] >= 0
    ensures var b := BumpAll(base, remaining, sizes);
      b.remaining >= 0 && b.base >= base && b.base % 256 == base % 256 &&
      (forall k :: 0 <= k < |sizes| && b.addrs[k].Some? ==>
        base <= b.addrs[k].value && b.addrs[k].value + sizes[k] <= b.base &&
        b.addrs[k].value % 256 == base % 256) &&
      (forall j, k :: 0 <= j < k < |sizes| && b.addrs[j].Some? && b.addrs[k].Some? ==>
        b.addrs[j].value + sizes[j] <= b.addrs[k].value)
    decreases |sizes|
  {
    if sizes != [] {
      var b := BumpAll(base, remaining, sizes);
      if sizes[0] > remaining {
        BumpAllDisjoint(base, remaining, sizes[1..]);
        assert forall k :: 1 <= k < |sizes| ==> b.addrs[k] == BumpAll(base, remaining, sizes[1..]).addrs[k - 1];
      } else {
        var next := base + AlignUp256(sizes[0]);
        BumpAllDisjoint(next, remaining - sizes[0], sizes[1..]);
        var rest := BumpAll(next, remaining - sizes[0], sizes[1..]);
        assert next % 256 == base % 256 by {
          assert AlignUp256(sizes[0]) % 256 == 0;
        }
        assert forall k :: 1 <= k < |sizes| ==> b.addrs[k] == rest.addrs[k - 1];
      }
    }
  }

  /** A GPU command as submitted to the driver: its context, timestamp and the sizes of its command and object buffers. */
  datatype GpuCommand = GpuCommand(contextId: int, timestamp: int, cmdSizes: seq<int>, objSizes: seq<int>, numSyncs: int)

  /** One sync object entry of a GPU sync request. */
  datatype SyncObj = SyncObj(offset: int, length: int, id: int, op: int)

  /** The driver requests the interposed `ioctl` tells apart, with the arguments it reads. */
  datatype Request =
    | GpuObjAlloc
    | GpuCommandReq(cmd: GpuCommand)
    | GpuObjSync(objs: seq<SyncObj>)
    | WaitTimestamp
    | SetProperty
    | OtherRequest(code: int)

  /**
    A recorded command: the submitted command with its buffers copied into
    the recorder's own GPU memory (`None` where the allocator had no room).
  */
  datatype CachedCommand = CachedCommand(contextId: int, timestamp: int, cmdAddrs: seq<Option<int>>, objAddrs: seq<Option<int>>)

  /** Whether bit 0 of the recording mask is set: commands and sync objects are kept. */
  predicate KeepsRecords(record: int) {
    record % 2 == 1
  }

  class Thneed {
    var fd: int
    var ram: GPUMalloc
    var record: int
    var timestamp: int
    var cmds: seq<CachedCommand>
    var syncobjs: seq<seq<SyncObj>>
    var inputs: seq<seq<Byte>>
    var output: Option<seq<Byte>>

    /** Starts recording on the GPU device `fd`; `ramAddr` is where its buffer was mapped. */
    constructor (fd: int, ramAddr: int)
      requires fd != -1
      ensures this.fd == fd && fresh(ram) && ram.base == ramAddr && ram.remaining == RamSize
      ensures record == 1 && timestamp == 0
      ensures cmds == [] && syncobjs == [] && inputs == [] && output == None
    {
      this.fd := fd;
      ram := new GPUMalloc(RamSize, ramAddr);
      record := 1;
      timestamp := 0;
      cmds, syncobjs, inputs, output := [], [], [], None;
    }

    /** Recording ends. */
    method Stop()
      modifies this
      ensures record == 0
      ensures fd == old(fd) && ram == old(ram) && timestamp == old(timestamp)
      ensures cmds == old(cmds) && syncobjs == old(syncobjs)
      ensures inputs == old(inputs) && output == old(output)
    {
      record := 0;
    }

    /**
      Copies a submitted command: the recorder's timestamp follows the
      command's, and each command and then each object buffer gets the next
      block of the recorder's memory, as `BumpAll` hands them out.
    */
    method CacheCommand(cmd: GpuCommand) returns (c: CachedCommand)
      requires |cmd.cmdSizes| == 2 && |cmd.objSizes| == 1 && cmd.numSyncs == 0
      modifies this, ram
      ensures ram == old(ram) && timestamp == cmd.timestamp
      ensures var b := BumpAll(old(ram.base), old(ram.remaining), cmd.cmdSizes + cmd.objSizes);
        c == CachedFrom(cmd, b.addrs) && ram.base == b.base && ram.remaining == b.remaining
      ensures cmds == old(cmds) && syncobjs == old(syncobjs) && record == old(record) && fd == old(fd)
      ensures inputs == old(inputs) && output == old(output)
    {
      timestamp := cmd.timestamp;
      var b0, r0 := ram.base, ram.remaining;
      var cmdAddrs := AllocAll(ram, cmd.cmdSizes);
      var objAddrs := AllocAll(ram, cmd.objSizes);
      BumpAllAppend(b0, r0, cmd.cmdSizes, cmd.objSizes);
      c := CachedCommand(cmd.contextId, cmd.timestamp, cmdAddrs, objAddrs);
    }

    /**
      Replays every recorded command in order. Each one is stamped with the
      next timestamp, and the result says for each whether its submission
      waited for completion. The loop counter starts at `counterStart`: the
      source never initialises it (see the findings), and 0 is the intended value.
    */
    method Execute(counterStart: int) returns (waits: seq<bool>)
      requires !KeepsRecords(record)
      modifies this
      ensures |cmds| == |old(cmds)| && |waits| == |cmds|
      ensures timestamp == old(timestamp) + |cmds|
      ensures forall k :: 0 <= k < |cmds| ==>
        cmds[k] == old(cmds[k]).(timestamp := old(timestamp) + k + 1)
      ensures forall j, k :: 0 <= j < k < |cmds| ==> cmds[j].timestamp < cmds[k].timestamp
      ensures forall k :: 0 <= k < |cmds| ==> old(timestamp) < cmds[k].timestamp <= timestamp
      ensures waits == WaitFlags(counterStart, |cmds|)
      ensures record == old(record) && syncobjs == old(syncobjs) && ram == old(ram)
      ensures fd == old(fd) && inputs == old(inputs) && output == old(output)
    {
      waits := [];
      var k := 0;
      var i := counterStart;
      while k < |cmds|
        invariant 0 <= k <= |cmds| == |old(cmds)|
        invariant i == counterStart + k && |waits| == k
        invariant timestamp == old(timestamp) + k
        invariant forall j :: 0 <= j < k ==> cmds[j] == old(cmds[j]).(timestamp := old(timestamp) + j + 1)
        invariant forall j :: k <= j < |cmds| ==> cmds[j] == old(cmds[j])
        invariant forall j :: 0 <= j < k ==> (waits[j] <==> counterStart + j + 1 == |cmds|)
        invariant record == old(record) && syncobjs == old(syncobjs) && ram == old(ram)
        invariant fd == old(fd) && inputs == old(inputs) && output == old(output)
      {
        i := i + 1;
        timestamp := timestamp + 1;
        cmds := cmds[k := cmds[k].(timestamp := timestamp)];
        waits := waits + [i == |cmds|];
        k := k + 1;
      }
    }
  }

  /** The recorded copy of `cmd` whose buffers were given `addrs`, command buffers first. */
  function CachedFrom(cmd: GpuCommand, addrs: seq<Option<int>>): CachedCommand
    requires |addrs| == |cmd.cmdSizes| + |cmd.objSizes|
  {
    CachedCommand(cmd.contextId, cmd.timestamp, addrs[..|cmd.cmdSizes|], addrs[|cmd.cmdSizes|..])
  }

  /** The allocation loop of the command copy: one block per size, in order. */
  method AllocAll(ram: GPUMalloc, sizes: seq<int>) returns (addrs: seq<Option<int>>)
    modifies ram
    ensures var b := BumpAll(old(ram.base), old(ram.remaining), sizes);
      addrs == b.addrs && ram.base == b.base && ram.remaining == b.remaining
  {
    ghost var whole := BumpAll(ram.base, ram.remaining, sizes);
    addrs := [];
    var i := 0;
    while i < |sizes|
      invariant 0 <= i <= |sizes|
      invariant var rest := BumpAll(ram.base, ram.remaining, sizes[i..]);
        whole == Bumped(addrs + rest.addrs, rest.base, rest.remaining)
    {
      ghost var b, r := ram.base, ram.remaining;
      BumpAllStep(b, r, sizes[i..]);
      assert sizes[i..][1..] == sizes[i + 1..];
      var a := ram.Alloc(sizes[i]);
      addrs := addrs + [a];
      i := i + 1;
    }
    assert sizes[i..] == [];
  }

  /** The first request of a run either fails and leaves the allocator alone, or takes the base and moves it on. */
  lemma BumpAllStep(base: int, remaining: int, sizes: seq<int>)
    requires sizes != []
    ensures var rest := BumpAll(if sizes[0] > remaining then base else base + AlignUp256(sizes[0]),
                                if sizes[0] > remaining then remaining else remaining - sizes[0], sizes[1..]);
      BumpAll(base, remaining, sizes) ==
        Bumped([if sizes[0] > remaining then None else Some(base)] + rest.addrs, rest.base, rest.remaining)
  {
  }

  /**
    Which of `n` replayed commands wait for completion when the loop counter
    starts at `start`: the one whose pre-incremented counter equals `n`.
  */
  function WaitFlags(start: int, n: nat): (w: seq<bool>)
    ensures |w| == n
  {
    seq(n, k requires 0 <= k < n => start + k + 1 == n)
  }

  /** With the counter started at 0, exactly the last command waits. */
  lemma OnlyLastWaitsFromZero(n: nat)
    ensures forall k :: 0 <= k < n ==> (WaitFlags(0, n)[k] <==> k == n - 1)
  {
  }

  /** With the counter left at an arbitrary value such as 5, a single recorded command is submitted without waiting. */
  lemma UninitialisedCounterSkipsWait()
    ensures WaitFlags(5, 1) == [false]
    ensures forall k :: 0 <= k < 1 ==> !WaitFlags(5, 1)[k]
  {
  }

  /** The execution with the counter started at 0, as intended: only the last command waits. */
  method ExecuteFromZero(t: Thneed) returns (waits: seq<bool>)
    requires !KeepsRecords(t.record)
    modifies t
    ensures |waits| == |t.cmds|
    ensures forall k :: 0 <= k < |waits| ==> (waits[k] <==> k == |waits| - 1)
    ensures t.timestamp == old(t.timestamp) + |t.cmds|
  {
    waits := t.Execute(0);
    OnlyLastWaitsFromZero(|t.cmds|);
  }

  /** Where a resolved symbol leads. */
  datatype Symbol =
    | Library(name: string)
    | EnqueueInterposer
    | SetKernelArgInterposer

  /** The interposed `dlsym`: a "REAL_" prefix asks the library for the rest of the name; two OpenCL entry points are taken over. */
  function Dlsym(symbol: string): (s: Symbol)
  {
    if Text.StartsWith(symbol, "REAL_") then Library(symbol[5..])
    else if symbol == "clEnqueueNDRangeKernel" then EnqueueInterposer
    else if symbol == "clSetKernelArg" then SetKernelArgInterposer
    else Library(symbol)
  }

  /** Asking for "REAL_" followed by a name gets the library's own symbol of that name. */
  lemma DlsymRealPrefix(name: string)
    ensures Dlsym("REAL_" + name) == Library(name)
  {
    assert ("REAL_" + name)[..5] == "REAL_";
    assert ("REAL_" + name)[5..] == name;
  }

  /** The interposers reach the real `clEnqueueNDRangeKernel`, and anybody else asking for that name gets the interposer. */
  lemma DlsymEnqueueInterposer()
    ensures Dlsym("clEnqueueNDRangeKernel") == EnqueueInterposer
    ensures Dlsym("REAL_" + "clEnqueueNDRangeKernel") == Library("clEnqueueNDRangeKernel")
  {
    NoRealPrefix("clEnqueueNDRangeKernel");
    DlsymRealPrefix("clEnqueueNDRangeKernel");
  }

  /** The same for `clSetKernelArg`. */
  lemma DlsymSetKernelArgInterposer()
    ensures Dlsym("clSetKernelArg") == SetKernelArgInterposer
    ensures Dlsym("REAL_" + "clSetKernelArg") == Library("clSetKernelArg")
  {
    NoRealPrefix("clSetKernelArg");
    DlsymRealPrefix("clSetKernelArg");
  }

  lemma NoRealPrefix(symbol: string)
    requires |symbol| > 0 && symbol[0] != 'R'
    ensures !Text.StartsWith(symbol, "REAL_")
  {
    if |symbol| >= 5 {
      assert symbol[..5][0] != "REAL_"[0];
    }
  }

  /** Every other name passes through unchanged. */
  lemma DlsymPassThrough(symbol: string)
    requires !Text.StartsWith(symbol, "REAL_")
    requires symbol != "clEnqueueNDRangeKernel" && symbol != "clSetKernelArg"
    ensures Dlsym(symbol) == Library(symbol)
  {
  }

  /** The process-wide state of the interposers: the GPU device descriptor, the kernel arguments seen, the active recorder. */
  class Interposer {
    var gFd: int
    var gArgs: map<(int, int), seq<Byte>>
    var gThneed: Thneed?

    constructor ()
      ensures gFd == -1 && gArgs == map[] && gThneed == null
    {
      gFd, gArgs, gThneed := -1, map[], null;
    }

    /** Creates the recorder on the saved GPU device and makes it the active one. */
    method NewThneed(ramAddr: int) returns (t: Thneed)
      requires gFd != -1
      modifies this
      ensures fresh(t) && gThneed == t && t.fd == gFd && t.record == 1 && t.timestamp == 0
      ensures gFd == old(gFd) && gArgs == old(gArgs)
    {
      t := new Thneed(gFd, ramAddr);
      gThneed := t;
    }

    /**
      The interposed `ioctl`: an allocation request saves the device, and while
      the active recorder keeps records a GPU command is cached and a sync
      request's objects are copied; every other request, and every request
      while records are not kept, leaves the recorder as it was.
    */
    method Ioctl(filedes: int, request: Request)
      requires request.GpuCommandReq? && gThneed != null && KeepsRecords(gThneed.record) ==>
        |request.cmd.cmdSizes| == 2 && |request.cmd.objSizes| == 1 && request.cmd.numSyncs == 0
      modifies this, gThneed, if gThneed != null then {gThneed.ram} else {}
      ensures gThneed == old(gThneed) && gArgs == old(gArgs)
      ensures gFd == if request.GpuObjAlloc? then filedes else old(gFd)
      ensures gThneed != null ==>
        gThneed.record == old(gThneed.record) && gThneed.fd == old(gThneed.fd) && gThneed.ram == old(gThneed.ram) &&
        gThneed.inputs == old(gThneed.inputs) && gThneed.output == old(gThneed.output)
      ensures gThneed != null && request.GpuCommandReq? && KeepsRecords(gThneed.record) ==>
        var b := BumpAll(old(gThneed.ram.base), old(gThneed.ram.remaining), request.cmd.cmdSizes + request.cmd.objSizes);
        gThneed.cmds == old(gThneed.cmds) + [CachedFrom(request.cmd, b.addrs)] &&
        gThneed.ram.base == b.base && gThneed.ram.remaining == b.remaining &&
        gThneed.timestamp == request.cmd.timestamp
      ensures gThneed != null && !(request.GpuCommandReq? && KeepsRecords(gThneed.record)) ==>
        gThneed.cmds == old(gThneed.cmds) && gThneed.timestamp == old(gThneed.timestamp) &&
        gThneed.ram.base == old(gThneed.ram.base) && gThneed.ram.remaining == old(gThneed.ram.remaining)
      ensures gThneed != null && request.GpuObjSync? && KeepsRecords(gThneed.record) ==>
        gThneed.syncobjs == old(gThneed.syncobjs) + [request.objs]
      ensures gThneed != null && !(request.GpuObjSync? && KeepsRecords(gThneed.record)) ==>
        gThneed.syncobjs == old(gThneed.syncobjs)
    {
      if request.GpuObjAlloc? {
        gFd := filedes;
      }
      var t := gThneed;
      if t != null && t.record != 0 {
        if request.GpuCommandReq? && KeepsRecords(t.record) {
          var c := t.CacheCommand(request.cmd);
          t.cmds := t.cmds + [c];
        } else if request.GpuObjSync? && KeepsRecords(t.record) {
          t.syncobjs := t.syncobjs + [request.objs];
        }
      }
    }

    /** The interposed `clSetKernelArg`: a non-null argument value is remembered under (kernel, index). */
    method SetKernelArg(kernel: int, index: int, value: Option<seq<Byte>>)
      modifies this
      ensures value.Some? ==> gArgs == old(gArgs)[(kernel, index) := value.value]
      ensures value.None? ==> gArgs == old(gArgs)
      ensures gFd == old(gFd) && gThneed == old(gThneed)
    {
      if value.Some? {
        gArgs := gArgs[(kernel, index) := value.value];
      }
    }

    /**
      Recording part of the interposed `clEnqueueNDRangeKernel`: while the
      active recorder keeps records, every argument named "input" (unless the
      kernel is "zero_pad_image_float") is appended to the inputs and every
      argument named "output" (unless the kernel is "image2d_to_buffer_float")
      becomes the output. Reading an argument that was never set records it
      as empty, as indexing a C++ map does.
    */
    method EnqueueKernel(kernel: int, name: string, argNames: seq<string>)
      modifies this, gThneed
      ensures gThneed == old(gThneed) && gFd == old(gFd)
      ensures gThneed != null && KeepsRecords(gThneed.record) ==>
        gThneed.inputs == old(gThneed.inputs) + InputArgs(old(gArgs), kernel, name, argNames) &&
        gArgs == DefaultArgs(old(gArgs), kernel, |argNames|)
      ensures gThneed != null && KeepsRecords(gThneed.record) && OutputArgIndex(kernel, name, argNames).Some? ==>
        gThneed.output == Some(ArgOrEmpty(old(gArgs), kernel, OutputArgIndex(kernel, name, argNames).value))
      ensures gThneed != null && KeepsRecords(gThneed.record) && OutputArgIndex(kernel, name, argNames).None? ==>
        gThneed.output == old(gThneed.output)
      ensures gThneed == null || !KeepsRecords(gThneed.record) ==> gArgs == old(gArgs)
      ensures gThneed != null && !KeepsRecords(gThneed.record) ==>
        gThneed.inputs == old(gThneed.inputs) && gThneed.output == old(gThneed.output)
    {
      var t := gThneed;
      if t != null && KeepsRecords(t.record) {
        var args, inputs, output := RecordArgs(gArgs, kernel, name, argNames, t.inputs, t.output);
        gArgs := args;
        t.inputs, t.output := inputs, output;
      }
    }
  }

  /**
    The argument loop of `clEnqueueNDRangeKernel` over the argument map, the
    recorded inputs and the recorded output.
  */
  method RecordArgs(args0: map<(int, int), seq<Byte>>, kernel: int, name: string, argNames: seq<string>,
                    inputs0: seq<seq<Byte>>, output0: Option<seq<Byte>>)
    returns (args: map<(int, int), seq<Byte>>, inputs: seq<seq<Byte>>, output: Option<seq<Byte>>)
    ensures args == DefaultArgs(args0, kernel, |argNames|)
    ensures inputs == inputs0 + InputArgs(args0, kernel, name, argNames)
    ensures OutputArgIndex(kernel, name, argNames).Some? ==>
      output == Some(ArgOrEmpty(args0, kernel, OutputArgIndex(kernel, name, argNames).value))
    ensures OutputArgIndex(kernel, name, argNames).None? ==> output == output0
  {
    args, inputs, output := args0, inputs0, output0;
    var i := 0;
    while i < |argNames|
      invariant 0 <= i <= |argNames|
      invariant args == DefaultArgs(args0, kernel, i)
      invariant inputs == inputs0 + InputArgs(args0, kernel, name, argNames[..i])
      invariant OutputArgIndex(kernel, name, argNames[..i]).Some? ==>
        output == Some(ArgOrEmpty(args0, kernel, OutputArgIndex(kernel, name, argNames[..i]).value))
      invariant OutputArgIndex(kernel, name, argNames[..i]).None? ==> output == output0
    {
      var arg := ArgOrEmpty(args, kernel, i);
      DefaultArgsStep(args0, kernel, i);
      args := args[(kernel, i) := arg];
      ArgsStep(args0, kernel, name, argNames, i);
      if argNames[i] == "input" && name != "zero_pad_image_float" {
        inputs := inputs + [arg];
      }
      if argNames[i] == "output" && name != "image2d_to_buffer_float" {
        output := Some(arg);
      }
      i := i + 1;
    }
    assert argNames[..i] == argNames;
  }

  /** The argument map after the first `n` arguments of `kernel` were read: each one never set is now present and empty. */
  function DefaultArgs(args: map<(int, int), seq<Byte>>, kernel: int, n: nat): map<(int, int), seq<Byte>>
  {
    if n == 0 then args
    else
      var m := DefaultArgs(args, kernel, n - 1);
      if (kernel, n - 1) in m then m else m[(kernel, n - 1) := []]
  }

  /** Reading arguments adds entries but changes no value: every argument reads as it did before. */
  lemma {:induction false} DefaultArgsKeeps(args: map<(int, int), seq<Byte>>, kernel: int, n: nat, j: int)
    ensures ArgOrEmpty(DefaultArgs(args, kernel, n), kernel, j) == ArgOrEmpty(args, kernel, j)
    ensures forall key :: key in args ==> key in DefaultArgs(args, kernel, n) && DefaultArgs(args, kernel, n)[key] == args[key]
    ensures 0 <= j < n ==> (kernel, j) in DefaultArgs(args, kernel, n)
  {
    if n > 0 {
      DefaultArgsKeeps(args, kernel, n - 1, j);
    }
  }

  /** Reading argument `n` keeps its value, or records it as empty. */
  lemma DefaultArgsStep(args: map<(int, int), seq<Byte>>, kernel: int, n: nat)
    ensures ArgOrEmpty(DefaultArgs(args, kernel, n), kernel, n) == ArgOrEmpty(args, kernel, n)
    ensures DefaultArgs(args, kernel, n + 1) == DefaultArgs(args, kernel, n)[(kernel, n) := ArgOrEmpty(args, kernel, n)]
  {
    DefaultArgsKeeps(args, kernel, n, n);
    var m := DefaultArgs(args, kernel, n);
    if (kernel, n) in m {
      assert m[(kernel, n) := m[(kernel, n)]] == m;
    }
  }

  /** The recorded inputs and output after one more argument. */
  lemma ArgsStep(args: map<(int, int), seq<Byte>>, kernel: int, name: string, argNames: seq<string>, i: nat)
    requires i < |argNames|
    ensures InputArgs(args, kernel, name, argNames[..i + 1]) ==
      InputArgs(args, kernel, name, argNames[..i]) +
      (if argNames[i] == "input" && name != "zero_pad_image_float" then [ArgOrEmpty(args, kernel, i)] else [])
    ensures OutputArgIndex(kernel, name, argNames[..i + 1]) ==
      if name == "image2d_to_buffer_float" then None
      else if argNames[i] == "output" then Some(i)
      else OutputArgIndex(kernel, name, argNames[..i])
  {
    assert argNames[..i + 1] == argNames[..i] + [argNames[i]];
    InputArgsSnoc(args, kernel, name, argNames[..i], argNames[i]);
    OutputArgIndexSnoc(kernel, name, argNames[..i], argNames[i]);
  }

  /** The bytes remembered for an argument, or nothing when it was never set. */
  function ArgOrEmpty(args: map<(int, int), seq<Byte>>, kernel: int, i: int): seq<Byte> {
    if (kernel, i) in args then args[(kernel, i)] else []
  }

  /** The "input" arguments of a kernel in index order, as recorded. */
  function InputArgs(args: map<(int, int), seq<Byte>>, kernel: int, name: string, argNames: seq<string>): seq<seq<Byte>>
  {
    if argNames == [] then []
    else
      var n := |argNames| - 1;
      InputArgs(args, kernel, name, argNames[..n]) +
      (if argNames[n] == "input" && name != "zero_pad_image_float" then [ArgOrEmpty(args, kernel, n)] else [])
  }

  /** Index of the last "output" argument, which is the one the recorder keeps. */
  function OutputArgIndex(kernel: int, name: string, argNames: seq<string>): Option<int>
  {
    if argNames == [] || name == "image2d_to_buffer_float" then None
    else
      var n := |argNames| - 1;
      if argNames[n] == "output" then Some(n) else OutputArgIndex(kernel, name, argNames[..n])
  }

  lemma InputArgsSnoc(args: map<(int, int), seq<Byte>>, kernel: int, name: string, names: seq<string>, x: string)
    ensures InputArgs(args, kernel, name, names + [x]) ==
      InputArgs(args, kernel, name, names) +
      (if x == "input" && name != "zero_pad_image_float" then [ArgOrEmpty(args, kernel, |names|)] else [])
  {
    assert (names + [x])[..|names|] == names;
  }

  lemma OutputArgIndexSnoc(kernel: int, name: string, names: seq<string>, x: string)
    ensures OutputArgIndex(kernel, name, names + [x]) ==
      if name == "image2d_to_buffer_float" then None
      else if x == "output" then Some(|names|)
      else OutputArgIndex(kernel, name, names)
  {
    assert (names + [x])[..|names|] == names;
  }

  /** Without any "input" argument nothing is added to the inputs. */
  lemma {:induction false} NoInputNameNoInputs(args: map<(int, int), seq<Byte>>, kernel: int, name: string, argNames: seq<string>)
    requires "input" !in argNames
    ensures InputArgs(args, kernel, name, argNames) == []
  {
    if argNames != [] {
      var n := |argNames| - 1;
      assert argNames[n] in argNames;
      assert forall s :: s in argNames[..n] ==> s in argNames;
      NoInputNameNoInputs(args, kernel, name, argNames[..n]);
    }
  }

  /** Each "input" argument contributes exactly one recorded input (unless the kernel is the zero-padding one). */
  lemma {:induction false} InputArgsCount(args: map<(int, int), seq<Byte>>, kernel: int, name: string, argNames: seq<string>)
    ensures name == "zero_pad_image_float" ==> |InputArgs(args, kernel, name, argNames)| == 0
    ensures name != "zero_pad_image_float" ==>
      |InputArgs(args, kernel, name, argNames)| == |set i | 0 <= i < |argNames| && argNames[i] == "input"|
  {
    if argNames != [] {
      var n := |argNames| - 1;
      InputArgsCount(args, kernel, name, argNames[..n]);
      var before := set i | 0 <= i < n && argNames[..n][i] == "input";
      var all := set i | 0 <= i < |argNames| && argNames[i] == "input";
      if argNames[n] == "input" {
        assert all == before + {n};
      } else {
        assert all == before;
      }
    }
  }
}
