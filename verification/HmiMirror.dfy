/** The read-only HMI mirror: plc_client._read_hmi_words in chunks and
    read_hmi_screen over a set of blocks and single bits, on a bus that may answer a
    read with an exception or drop the connection at any point. */
module HmiMirror {
  import opened Wrappers
  import opened HmiLayout

  const READ_BASE := 1000
  const CHUNK := 120

  // --------------------------------------------------------------------- the bus

  datatype Request = Request(addr: int, count: nat)

  /** How the n-th request is answered: with data, with a Modbus exception, or not at
      all because the transport fails. */
  datatype Reply = Data | Refusal | Drop

  type Faults = (nat, Request) -> Reply

  datatype Read = Words(words: seq<Word>) | NoData | Broken

  function Slice(mem: Memory, addr: int, count: nat): (words: seq<Word>)
    ensures |words| == count
  {
    seq(count, i => mem(addr + i))
  }

  class Bus {
    const mem: Memory
    const faults: Faults
    var log: seq<Request>

    constructor (mem: Memory, faults: Faults)
      ensures this.mem == mem && this.faults == faults && log == []
    {
      this.mem, this.faults, log := mem, faults, [];
    }

    method ReadWordsRaw(addr: int, count: nat) returns (result: Read)
      modifies this
      ensures (result, log) == RawRead(mem, faults, old(log), addr, count)
    {
      if addr - READ_BASE < 0 {
        return NoData;
      }
      var request := Request(addr, count);
      var reply := faults(|log|, request);
      log := log + [request];
      match reply
      case Data => result := Words(Slice(mem, addr, count));
      case Refusal => result := NoData;
      case Drop => result := Broken;
    }

    /** FC04 batch read in chunks under the register limit. */
    method ReadHmiWords(base: int, count: nat) returns (result: Read)
      modifies this
      ensures (result, log) == Chunks(mem, faults, old(log), base, 0, count, [])
    {
      var out, off := [], 0;
      while off < count
        invariant 0 <= off <= count
        invariant Chunks(mem, faults, old(log), base, 0, count, []) == Chunks(mem, faults, log, base, off, count, out)
      {
        var n := if count - off < CHUNK then count - off else CHUNK;
        var chunk := ReadWordsRaw(base + off, n);
        if !chunk.Words? {
          return chunk;
        }
        out := out + chunk.words;
        off := off + n;
      }
      result := Words(out);
    }
  }

  function RawRead(mem: Memory, faults: Faults, log: seq<Request>, addr: int, count: nat): (Read, seq<Request>) {
    if addr < READ_BASE then (NoData, log) else
    var request := Request(addr, count);
    (match faults(|log|, request)
     case Data => Words(Slice(mem, addr, count))
     case Refusal => NoData
     case Drop => Broken,
     log + [request])
  }

  function Chunks(mem: Memory, faults: Faults, log: seq<Request>, base: int, off: nat, count: nat,
                  out: seq<Word>): (Read, seq<Request>)
    decreases count - off
  {
    if off >= count then (Words(out), log) else
    var n := if count - off < CHUNK then count - off else CHUNK;
    var (chunk, more) := RawRead(mem, faults, log, base + off, n);
    if !chunk.Words? then (chunk, more)
    else Chunks(mem, faults, more, base, off + n, count, out + chunk.words)
  }

  // ------------------------------------------------------------------- chunk reads

  /** The requests run end to end over [from, to), each of 1 to CHUNK registers. */
  predicate Tile(requests: seq<Request>, from: int, to: int) {
    if requests == [] then from == to
    else
      && requests[0].addr == from && 1 <= requests[0].count <= 120
      && Tile(requests[1..], from + requests[0].count, to)
  }

  lemma {:induction false} TileMore(requests: seq<Request>, from: int, to: int, n: nat)
    requires Tile(requests, from, to) && 1 <= n <= CHUNK
    ensures Tile(requests + [Request(to, n)], from, to + n)
    decreases |requests|
  {
    if requests == [] {
      assert ([Request(to, n)])[1..] == [];
    } else {
      assert (requests + [Request(to, n)])[1..] == requests[1..] + [Request(to, n)];
      TileMore(requests[1..], from + requests[0].count, to, n);
    }
  }

  /** Every request but the one that reaches the end is for 120 registers. */
  predicate WholeChunks(log: seq<Request>, from: nat, end: int) {
    forall k :: from <= k < |log| ==> log[k].count == 120 || log[k].addr + log[k].count == end
  }

  /** What a block read does: its requests tile the block from the start, without gap,
      overlap or oversized request; it returns the whole block exactly when all of them
      were answered with data, and otherwise stopped at the first that was not. */
  ghost predicate ReadOk(mem: Memory, faults: Faults, log: seq<Request>, base: int, count: nat, result: Read,
                         after: seq<Request>) {
    log <= after && WholeChunks(after, |log|, base + count) &&
    if result.Words? then
      && result.words == Slice(mem, base, count) && Tile(after[|log|..], base, base + count)
      && AllData(faults, after, |log|, |after|)
    else
      && after != log && AllData(faults, after, |log|, |after| - 1)
      && faults(|after| - 1, after[|after| - 1]) == (if result.Broken? then Drop else Refusal)
      && exists end :: end <= base + count && Tile(after[|log|..], base, end)
  }

  predicate AllData(faults: Faults, log: seq<Request>, from: nat, to: int)
    requires to <= |log|
  {
    forall k :: from <= k < to ==> faults(k, log[k]).Data?
  }

  /** From any point of the chunk loop at which the requests so far tile the block and
      were all answered. */
  lemma {:induction false} ChunksRead(mem: Memory, faults: Faults, start: seq<Request>, log: seq<Request>,
                                      base: int, off: nat, count: nat, out: seq<Word>)
    requires base >= READ_BASE && off <= count && out == Slice(mem, base, off)
    requires start <= log && Tile(log[|start|..], base, base + off)
    requires AllData(faults, log, |start|, |log|) && WholeChunks(log, |start|, base + count)
    ensures var (result, after) := Chunks(mem, faults, log, base, off, count, out);
            ReadOk(mem, faults, start, base, count, result, after)
    decreases count - off
  {
    if off < count {
      var n := if count - off < CHUNK then count - off else CHUNK;
      var request := Request(base + off, n);
      var more := log + [request];
      assert more[|start|..] == log[|start|..] + [request];
      TileMore(log[|start|..], base, base + off, n);
      var chunk := RawRead(mem, faults, log, base + off, n).0;
      if chunk.Words? {
        assert Slice(mem, base, off) + Slice(mem, base + off, n) == Slice(mem, base, off + n);
        hide ReadOk, Tile, Slice;
        ChunksRead(mem, faults, start, more, base, off + n, count, out + chunk.words);
      } else {
        assert Chunks(mem, faults, log, base, off, count, out) == (chunk, more);
        hide Chunks, Tile, Slice;
      }
    }
  }

  lemma BlockRead(mem: Memory, faults: Faults, log: seq<Request>, base: int, count: nat)
    requires base >= READ_BASE
    ensures var (result, after) := Chunks(mem, faults, log, base, 0, count, []);
            ReadOk(mem, faults, log, base, count, result, after)
  {
    assert log[|log|..] == [] && Slice(mem, base, 0) == [];
    ChunksRead(mem, faults, log, log, base, 0, count, []);
  }

  // ------------------------------------------------------------------ the screen

  datatype Block = Block(layout: seq<Member>, base: int)

  datatype Single = Single(word: int, bit: nat, invert: bool)

  /** HMI_BLOCKS with its UDTs, and HMI_SINGLES. */
  datatype Tables = Tables(blocks: map<string, Block>, singles: map<string, Single>)

  datatype Key = MemberKey(block: string, member: string) | SingleKey(single: string)

  type Values = map<Key, Option<Value>>

  /** While a screen is being read: requests so far, whether the transport has failed,
      and the values gathered. */
  datatype Screen = Screen(log: seq<Request>, broken: bool, values: Values)

  const NOTHING: Screen := Screen([], false, map[])

  function MemberValue(words: Read, m: Member): Option<Value> {
    if words.Words? then Decode(words.words, m.kind, WordOf(m), BitInWord(m)) else None
  }

  /** The values of one block's members, entered in layout order. */
  function Filled(values: Values, block: string, layout: seq<Member>, words: Read): Values {
    if layout == [] then values else
    var n := |layout| - 1;
    Filled(values, block, layout[..n], words)[MemberKey(block, layout[n].name) := MemberValue(words, layout[n])]
  }

  function BlockDone(t: Tables, mem: Memory, faults: Faults, s: Screen, name: string): Screen
    requires name in t.blocks
  {
    var block := t.blocks[name];
    var (words, log) := if s.broken then (NoData, s.log)
                        else Chunks(mem, faults, s.log, block.base, 0, BlockWords(block.layout), []);
    Screen(log, s.broken || words.Broken?, Filled(s.values, name, block.layout, words))
  }

  function SingleValue(words: Read, single: Single): Option<Value> {
    if words.Words? && |words.words| > 0 then
      Some(Flag(if single.invert then !BitOf(words.words[0], single.bit) else BitOf(words.words[0], single.bit)))
    else None
  }

  function SingleDone(t: Tables, mem: Memory, faults: Faults, s: Screen, name: string): Screen
    requires name in t.singles
  {
    var single := t.singles[name];
    var (words, log) := if s.broken then (NoData, s.log) else RawRead(mem, faults, s.log, single.word, 1);
    Screen(log, s.broken || words.Broken?, s.values[SingleKey(name) := SingleValue(words, single)])
  }

  predicate Known(t: Tables, blocks: seq<string>, singles: seq<string>) {
    (forall b <- blocks :: b in t.blocks) && (forall n <- singles :: n in t.singles)
  }

  function BlocksDone(t: Tables, mem: Memory, faults: Faults, s: Screen, blocks: seq<string>): Screen
    requires Known(t, blocks, [])
  {
    if blocks == [] then s else
    var n := |blocks| - 1;
    BlockDone(t, mem, faults, BlocksDone(t, mem, faults, s, blocks[..n]), blocks[n])
  }

  function SinglesDone(t: Tables, mem: Memory, faults: Faults, s: Screen, singles: seq<string>): Screen
    requires Known(t, [], singles)
  {
    if singles == [] then s else
    var n := |singles| - 1;
    SingleDone(t, mem, faults, SinglesDone(t, mem, faults, s, singles[..n]), singles[n])
  }

  /** A whole screen: `blocks` and `singles` in whatever order their sets yield. */
  function ScreenOf(t: Tables, mem: Memory, faults: Faults, blocks: seq<string>, singles: seq<string>): Screen
    requires Known(t, blocks, singles)
  {
    SinglesDone(t, mem, faults, BlocksDone(t, mem, faults, NOTHING, blocks), singles)
  }

  // -------------------------------------------------------------------- its rows

  /** A screen row: a member, one bit of a member, or a single. */
  datatype Ref =
    | MemberRef(block: string, member: string)
    | BitRef(block: string, member: string, bit: nat)
    | SingleRef(single: string)

  /** A row's raw value, None when there is none to show. A bit of a real member is
      not modelled and shows as None. */
  function RowValue(values: Values, ref: Ref): Option<Value> {
    match ref
    case MemberRef(b, m) => if MemberKey(b, m) in values then values[MemberKey(b, m)] else None
    case BitRef(b, m, bit) =>
      if MemberKey(b, m) !in values || values[MemberKey(b, m)].None? || values[MemberKey(b, m)].value.Pattern? then None
      else Some(Flag(ShownBit(values[MemberKey(b, m)].value, bit)))
    case SingleRef(n) => if SingleKey(n) in values then values[SingleKey(n)] else None
  }

  /** The panels of a screen, each a list of rows. */
  type Panels = seq<seq<Ref>>

  function BlocksIn(rows: seq<Ref>): set<string> {
    set r <- rows | !r.SingleRef? :: r.block
  }

  function SinglesIn(rows: seq<Ref>): set<string> {
    set r <- rows | r.SingleRef? :: r.single
  }

  function AllRows(panels: Panels): seq<Ref> {
    if panels == [] then [] else AllRows(panels[..|panels| - 1]) + panels[|panels| - 1]
  }

  /** Screen definitions whose rows name blocks and singles of the tables. */
  predicate Defined(t: Tables, screens: map<string, Panels>) {
    forall id <- screens ::
      && (forall b <- BlocksIn(AllRows(screens[id])) :: b in t.blocks)
      && (forall n <- SinglesIn(AllRows(screens[id])) :: n in t.singles)
  }

  function RowValues(values: Values, rows: seq<Ref>): (shown: seq<Option<Value>>)
    ensures |shown| == |rows|
  {
    seq(|rows|, r requires 0 <= r < |rows| => RowValue(values, rows[r]))
  }

  function PanelValues(values: Values, panels: Panels): (shown: seq<seq<Option<Value>>>)
    ensures |shown| == |panels|
  {
    seq(|panels|, p requires 0 <= p < |panels| => RowValues(values, panels[p]))
  }

  datatype Answer = UnknownScreen | Shown(connected: bool, panels: seq<seq<Option<Value>>>)

  /** `xs` walks the set once. */
  ghost predicate Walks(xs: seq<string>, whole: set<string>) {
    (forall x :: x in whole <==> x in xs) && forall i, j :: 0 <= i < j < |xs| ==> xs[i] != xs[j]
  }

  /** A set in whatever order it yields its elements. */
  method Walk(whole: set<string>) returns (xs: seq<string>)
    ensures Walks(xs, whole)
  {
    xs := [];
    var left := whole;
    while left != {}
      invariant left <= whole && Walks(xs, whole - left)
      decreases left
    {
      var x :| x in left;
      xs, left := xs + [x], left - {x};
    }
  }

  /** The screen as the browser gets it: the blocks and singles its rows name are read,
      each once, in the order `blocks` and `singles`, and every row is given its value. */
  method ReadHmiScreen(t: Tables, screens: map<string, Panels>, id: string, bus: Bus, live: bool)
    returns (answer: Answer, resets: nat, blocks: seq<string>, singles: seq<string>)
    requires Defined(t, screens) && bus.log == []
    modifies bus
    ensures id !in screens ==> answer == UnknownScreen && resets == 0 && bus.log == []
    ensures id in screens ==>
      && Walks(blocks, BlocksIn(AllRows(screens[id]))) && Walks(singles, SinglesIn(AllRows(screens[id])))
      && Known(t, blocks, singles)
    ensures id in screens && !live ==>
      answer == Shown(false, PanelValues(map[], screens[id])) && resets == 0 && bus.log == []
    ensures id in screens && live ==>
      var s := ScreenOf(t, bus.mem, bus.faults, blocks, singles);
      && answer == Shown(true, PanelValues(s.values, screens[id]))
      && bus.log == s.log && resets == if s.broken then 1 else 0
  {
    blocks, singles := [], [];
    if id !in screens {
      return UnknownScreen, 0, [], [];
    }
    var panels := screens[id];
    var blockSet, singleSet := {}, {};
    for p := 0 to |panels|
      invariant blockSet == BlocksIn(AllRows(panels[..p])) && singleSet == SinglesIn(AllRows(panels[..p]))
    {
      assert panels[..p + 1][..p] == panels[..p];
      blockSet, singleSet := blockSet + BlocksIn(panels[p]), singleSet + SinglesIn(panels[p]);
    }
    assert panels[..|panels|] == panels;
    blocks := Walk(blockSet);
    singles := Walk(singleSet);
    var values;
    values, resets := ReadValues(t, bus, live, blocks, singles);
    answer := Shown(live, PanelValues(values, panels));
  }

  /** One live-mirror pass under the lock; `resets` counts how often it drops the
      socket. With no client nothing is read and no value exists. */
  method ReadValues(t: Tables, bus: Bus, live: bool, blocks: seq<string>, singles: seq<string>)
    returns (values: Values, resets: nat)
    requires Known(t, blocks, singles) && bus.log == []
    modifies bus
    ensures !live ==> values == map[] && resets == 0 && bus.log == []
    ensures live ==> var s := ScreenOf(t, bus.mem, bus.faults, blocks, singles);
              values == s.values && bus.log == s.log && resets == if s.broken then 1 else 0
  {
    values, resets := map[], 0;
    if !live {
      return;
    }
    var broken := false;
    ghost var start := NOTHING;
    for k := 0 to |blocks|
      invariant Screen(bus.log, broken, values) == BlocksDone(t, bus.mem, bus.faults, start, blocks[..k])
    {
      assert blocks[..k + 1][..k] == blocks[..k];
      var block := t.blocks[blocks[k]];
      var words := NoData;
      if !broken {
        var count := CountBlockWords(block.layout);
        words := bus.ReadHmiWords(block.base, count);
        broken := words.Broken?;
      }
      ghost var before := values;
      for j := 0 to |block.layout|
        invariant values == Filled(before, blocks[k], block.layout[..j], words)
      {
        assert block.layout[..j + 1][..j] == block.layout[..j];
        var m := block.layout[j];
        values := values[MemberKey(blocks[k], m.name) := MemberValue(words, m)];
      }
      assert block.layout[..|block.layout|] == block.layout;
    }
    assert blocks[..|blocks|] == blocks;
    ghost var read := Screen(bus.log, broken, values);
    for k := 0 to |singles|
      invariant Screen(bus.log, broken, values) == SinglesDone(t, bus.mem, bus.faults, read, singles[..k])
    {
      assert singles[..k + 1][..k] == singles[..k];
      var single := t.singles[singles[k]];
      var words := NoData;
      if !broken {
        words := bus.ReadWordsRaw(single.word, 1);
        broken := words.Broken?;
      }
      values := values[SingleKey(singles[k]) := SingleValue(words, single)];
    }
    assert singles[..|singles|] == singles;
    if broken {
      resets := 1;
    }
  }
}
