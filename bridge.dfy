/**
 * The `DS2482` driver class: the selected channel and the Python wrappers
 * over the native 1-Wire primitives.
 */
module Bridge {
  import opened Results
  import opened SerialCodec
  import opened OneWireBus

  /** Why a Python call fails before it runs: wrong number of arguments. */
  datatype CallError = TypeError

  /**
   * Binding the arguments of `self.search_raw(*args)`: the method takes no
   * argument besides `self`, so any argument raises TypeError before its body runs.
   */
  function BindSearchRawArgs(args: seq<int>): Result<(), CallError> {
    if args == [] then Success(()) else Failure(TypeError)
  }

  /** The loop of `search(sc)`: `sc(y)` for each discovered serial y, in order. */
  method Collect<T>(res: seq<seq<byte>>, sc: seq<byte> -> T) returns (x: seq<T>)
    ensures |x| == |res|
    ensures forall i :: 0 <= i < |res| ==> x[i] == sc(res[i])
  {
    x := [];
    var k := 0;
    while k < |res|
      invariant 0 <= k <= |res|
      invariant |x| == k
      invariant forall i :: 0 <= i < k ==> x[i] == sc(res[i])
    {
      x := x + [sc(res[k])];
      k := k + 1;
    }
  }

  class DS2482 {
    /** The native layer the module-level functions drive. */
    const bus: Bus
    /** `self.drvid` and `self.addr`, as the I2C base class stores them. */
    const drvid: int
    const addr: int
    const clock: int
    /** `self.ch`: the channel passed to every bridge initialisation. */
    var ch: int

    /** `DS2482(drvname, clock=100000, addr=0x18)`: nothing is issued on the bus yet. */
    constructor (bus: Bus, drvname: int, clock: int := 100000, addr: int := 0x18)
      ensures this.bus == bus && drvid == drvname && this.addr == addr && this.clock == clock
      ensures ch == 0
    {
      this.bus := bus;
      drvid := drvname;
      this.addr := addr;
      this.clock := clock;
      ch := 0;
    }

    /** `start()`: initialises the bridge on the current channel; false where `_init` raises. */
    method Start() returns (ok: bool)
      modifies bus
      ensures bus.trace == old(bus.trace) + [Init(drvid, addr, ch)]
      ensures ok == bus.acknowledges(InitCount(old(bus.trace)), drvid, addr, ch)
    {
      ok := bus.BridgeInit(drvid, addr, ch);
    }

    /**
     * `set_channel(c)`: the channel is stored before the bridge is initialised
     * on it, so it stays selected even when initialisation fails.
     */
    method SetChannel(c: int) returns (ok: bool)
      modifies this, bus
      ensures ch == c
      ensures bus.trace == old(bus.trace) + [Init(drvid, addr, c)]
      ensures ok == bus.acknowledges(InitCount(old(bus.trace)), drvid, addr, c)
    {
      ch := c;
      ok := bus.BridgeInit(drvid, addr, ch);
    }

    /** `ow_reset()`. */
    method OwReset() returns (present: bool)
      modifies bus
      ensures bus.trace == old(bus.trace) + [Reset]
      ensures present == bus.presence(ResetCount(old(bus.trace)))
    {
      present := bus.OwReset();
    }

    /** `ow_write(data)`: one byte write per byte, in order, and nothing else. */
    method OwWrite(data: seq<byte>)
      modifies bus
      ensures bus.trace == old(bus.trace) + Writes(data)
    {
      var i := 0;
      while i < |data|
        invariant 0 <= i <= |data|
        invariant bus.trace == old(bus.trace) + Writes(data[..i])
      {
        assert data[..i + 1][..i] == data[..i];
        bus.OwWriteByte(data[i]);
        i := i + 1;
      }
      assert data[..|data|] == data;
    }

    /**
     * `ow_read(n)`: as many reads as `range(n)` has elements (none for a
     * negative n), returning the bytes the bus delivers, in order.
     */
    method OwRead(n: int := 1) returns (res: seq<byte>)
      modifies bus
      ensures |res| == if n < 0 then 0 else n
      ensures forall i :: 0 <= i < |res| ==> res[i] == bus.incoming(ReadCount(old(bus.trace)) + i)
      ensures bus.trace == old(bus.trace) + Reads(|res|)
    {
      ghost var k := ReadCount(bus.trace);
      res := [];
      var x := 0;
      while x < n
        invariant 0 <= x && (n >= 0 ==> x <= n) && (n < 0 ==> x == 0)
        invariant |res| == x
        invariant bus.trace == old(bus.trace) + Reads(x)
        invariant forall i :: 0 <= i < x ==> res[i] == bus.incoming(k + i)
      {
        CountsAppend(old(bus.trace), Reads(x));
        CountsOfReads(x);
        var b := bus.OwReadByte();
        res := res + [b];
        x := x + 1;
      }
    }

    /**
     * `ow_match_rom(rom)`: reset, and only when a device answers, the Match ROM
     * command and the ROM bytes. Returns true then; otherwise the Python
     * method falls through to None, modelled as false.
     */
    method OwMatchRom(rom: seq<byte>) returns (matched: bool)
      modifies bus
      ensures matched == bus.presence(ResetCount(old(bus.trace)))
      ensures bus.trace == old(bus.trace) + MatchRomOps(rom, matched)
    {
      ghost var t0 := bus.trace;
      var present := OwReset();
      if present {
        OwWrite([MatchRomCommand]);
        OwWrite(rom);
        assert bus.trace == t0 + ([Reset] + Writes([MatchRomCommand]) + Writes(rom));
        matched := true;
      } else {
        matched := false;
      }
    }

    /**
     * `search(sc)` as written: it passes `self.ch` to `search_raw`, which takes
     * no argument, so the call raises TypeError before the native search runs,
     * whatever the bus would report. found is what that search would have returned.
     */
    method SearchAsWritten<T>(found: seq<seq<byte>>, sc: seq<byte> -> T) returns (r: Result<seq<T>, CallError>)
      ensures r == Failure(TypeError)
    {
      match BindSearchRawArgs([ch])
      case Failure(e) =>
        r := Failure(e);
      case Success(_) =>
        var x := Collect(found, sc);
        r := Success(x);
    }

    /**
     * `search(sc)` with `search_raw()` called as declared: the native search
     * issues its primitives, and the result holds one item per discovered serial.
     */
    method Search<T>(issued: seq<Op>, found: seq<seq<byte>>, sc: seq<byte> -> T) returns (r: Result<seq<T>, CallError>)
      modifies bus
      ensures bus.trace == old(bus.trace) + issued
      ensures r.Success?
      ensures |r.value| == |found|
      ensures forall i :: 0 <= i < |found| ==> r.value[i] == sc(found[i])
    {
      match BindSearchRawArgs([])
      case Failure(e) =>
        r := Failure(e);
      case Success(_) =>
        var res := bus.SearchRaw(issued, found);
        var x := Collect(res, sc);
        r := Success(x);
    }
  }
}
