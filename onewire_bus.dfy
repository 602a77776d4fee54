/**
 * The native 1-Wire primitives the driver calls (`_init`, `_search_raw`,
 * `_owreset`, `_owwritebyte`, `_owreadbyte`) as an abstract bus. The bus records every
 * primitive in a trace and answers from fixed oracles: whether the k-th reset
 * sees a presence pulse, which byte the k-th read delivers, and whether the
 * k-th initialisation of the bridge is acknowledged.
 */
module OneWireBus {
  import opened SerialCodec

  /** One native primitive as issued on the bus. */
  datatype Op =
    | Init(drv: int, addr: int, channel: int)  // `_init(drvname, addr, channel)`
    | Reset                                    // `_owreset()`
    | Write(b: byte)                           // `_owwritebyte(b)`
    | Read                                     // `_owreadbyte()`

  /** The Match ROM command byte. */
  const MatchRomCommand: byte := 0x55

  /** The byte writes issued for data, one per byte, in order. */
  function Writes(data: seq<byte>): (ops: seq<Op>)
    ensures |ops| == |data|
    ensures forall i :: 0 <= i < |data| ==> ops[i] == Write(data[i])
  {
    if data == [] then [] else Writes(data[..|data| - 1]) + [Write(data[|data| - 1])]
  }

  /** n byte reads. */
  function Reads(n: nat): (ops: seq<Op>)
    ensures |ops| == n
    ensures forall i :: 0 <= i < n ==> ops[i] == Read
  {
    if n == 0 then [] else Reads(n - 1) + [Read]
  }

  /** How many reads a trace holds: the next read gets the byte with this index. */
  function ReadCount(t: seq<Op>): nat {
    if t == [] then 0 else ReadCount(t[..|t| - 1]) + (if t[|t| - 1] == Read then 1 else 0)
  }

  /** How many resets a trace holds: the next reset gets the answer with this index. */
  function ResetCount(t: seq<Op>): nat {
    if t == [] then 0 else ResetCount(t[..|t| - 1]) + (if t[|t| - 1] == Reset then 1 else 0)
  }

  /** How many bridge initialisations a trace holds. */
  function InitCount(t: seq<Op>): nat {
    if t == [] then 0 else InitCount(t[..|t| - 1]) + (if t[|t| - 1].Init? then 1 else 0)
  }

  lemma {:induction false} CountsAppend(t: seq<Op>, u: seq<Op>)
    ensures ReadCount(t + u) == ReadCount(t) + ReadCount(u)
    ensures ResetCount(t + u) == ResetCount(t) + ResetCount(u)
    decreases |u|
  {
    if u == [] {
      assert t + u == t;
    } else {
      var u0 := u[..|u| - 1];
      assert (t + u)[..|t + u| - 1] == t + u0;
      CountsAppend(t, u0);
    }
  }

  /** Byte writes neither read nor reset. */
  lemma {:induction false} CountsOfWrites(data: seq<byte>)
    ensures ReadCount(Writes(data)) == 0 && ResetCount(Writes(data)) == 0
  {
    if data != [] {
      var w := Writes(data);
      assert w[..|w| - 1] == Writes(data[..|data| - 1]);
      CountsOfWrites(data[..|data| - 1]);
    }
  }

  /** n reads consume exactly n bytes and reset nothing. */
  lemma {:induction false} CountsOfReads(n: nat)
    ensures ReadCount(Reads(n)) == n && ResetCount(Reads(n)) == 0
  {
    if n > 0 {
      var r := Reads(n);
      assert r[..|r| - 1] == Reads(n - 1);
      CountsOfReads(n - 1);
    }
  }

  /**
   * The primitives `ow_match_rom(rom)` issues: a reset and, only when it
   * reports presence, the Match ROM command followed by the ROM bytes.
   */
  function MatchRomOps(rom: seq<byte>, present: bool): (ops: seq<Op>)
    ensures |ops| == (if present then |rom| + 2 else 1)
    ensures ops[0] == Reset
    ensures present ==> ops[1] == Write(0x55) && forall i :: 0 <= i < |rom| ==> ops[i + 2] == Write(rom[i])
  {
    if present then [Reset] + Writes([MatchRomCommand]) + Writes(rom) else [Reset]
  }

  /** Match ROM consumes exactly one reset answer and no delivered byte. */
  lemma MatchRomOpsCounts(rom: seq<byte>, present: bool)
    ensures ResetCount(MatchRomOps(rom, present)) == 1
    ensures ReadCount(MatchRomOps(rom, present)) == 0
  {
    assert [Reset][..0] == [];
    if present {
      CountsOfWrites([MatchRomCommand]);
      CountsOfWrites(rom);
      CountsAppend([Reset], Writes([MatchRomCommand]));
      CountsAppend([Reset] + Writes([MatchRomCommand]), Writes(rom));
    }
  }

  /** The native layer: the trace of issued primitives and the devices' answers. */
  class Bus {
    var trace: seq<Op>
    const presence: nat -> bool
    const incoming: nat -> byte
    const acknowledges: (nat, int, int, int) -> bool

    constructor (presence: nat -> bool, incoming: nat -> byte, acknowledges: (nat, int, int, int) -> bool)
      ensures trace == []
      ensures this.presence == presence && this.incoming == incoming
      ensures this.acknowledges == acknowledges
    {
      trace := [];
      this.presence := presence;
      this.incoming := incoming;
      this.acknowledges := acknowledges;
    }

    /**
     * `_init(drv, addr, channel)`, answered by the oracle for this, the k-th,
     * initialisation; false stands for the exception it raises.
     */
    method BridgeInit(drv: int, addr: int, channel: int) returns (ok: bool)
      modifies this
      ensures trace == old(trace) + [Init(drv, addr, channel)]
      ensures ok == acknowledges(InitCount(old(trace)), drv, addr, channel)
    {
      ok := acknowledges(InitCount(trace), drv, addr, channel);
      trace := trace + [Init(drv, addr, channel)];
    }

    /**
     * `_search_raw()`: the C search is not part of this model, so both the
     * primitives it issues and the serials it reports are supplied by the caller.
     */
    method SearchRaw(issued: seq<Op>, found: seq<seq<byte>>) returns (res: seq<seq<byte>>)
      modifies this
      ensures trace == old(trace) + issued
      ensures res == found
    {
      trace := trace + issued;
      res := found;
    }

    /** `_owreset()`: whether a presence pulse was seen. */
    method OwReset() returns (present: bool)
      modifies this
      ensures trace == old(trace) + [Reset]
      ensures present == presence(ResetCount(old(trace)))
    {
      present := presence(ResetCount(trace));
      trace := trace + [Reset];
    }

    /** `_owwritebyte(b)`. */
    method OwWriteByte(b: byte)
      modifies this
      ensures trace == old(trace) + [Write(b)]
    {
      trace := trace + [Write(b)];
    }

    /** `_owreadbyte()`: the next byte the devices deliver. */
    method OwReadByte() returns (b: byte)
      modifies this
      ensures trace == old(trace) + [Read]
      ensures b == incoming(ReadCount(old(trace)))
    {
      b := incoming(ReadCount(trace));
      trace := trace + [Read];
    }
  }
}
