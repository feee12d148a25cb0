/** What the HMI mirror shows: on a steady bus every row is the PLC's own memory, in
    whatever order blocks are read; after a transport error nothing more is read or
    shown. */
module HmiAgreement {
  import opened Wrappers
  import opened HmiLayout
  import opened HmiMirror

  // --------------------------------------------------------------- filling a block

  predicate Distinct(layout: seq<Member>) {
    forall i, j :: 0 <= i < j < |layout| ==> layout[i].name != layout[j].name
  }

  predicate Names(layout: seq<Member>, name: string) {
    exists i :: 0 <= i < |layout| && layout[i].name == name
  }

  /** A fill enters exactly the block's members and leaves every other key alone. */
  lemma {:induction false} FilledKeys(values: Values, block: string, layout: seq<Member>, words: Read)
    ensures var after := Filled(values, block, layout, words);
            forall key: Key :: if key.MemberKey? && key.block == block && Names(layout, key.member) then key in after
                          else (key in after <==> key in values) && (key in values ==> after[key] == values[key])
    decreases |layout|
  {
    hide MemberValue;
    if layout != [] {
      var n := |layout| - 1;
      FilledKeys(values, block, layout[..n], words);
      assert forall name :: Names(layout, name) <==> Names(layout[..n], name) || layout[n].name == name by {
        forall name | Names(layout, name) && layout[n].name != name ensures Names(layout[..n], name) {
          var i :| 0 <= i < |layout| && layout[i].name == name;
          assert layout[..n][i].name == name;
        }
        forall name | Names(layout[..n], name) ensures Names(layout, name) {
          var i :| 0 <= i < n && layout[..n][i].name == name;
          assert layout[i].name == name;
        }
      }
    }
  }

  lemma {:induction false} FilledValues(values: Values, block: string, layout: seq<Member>, words: Read, k: nat)
    requires Distinct(layout) && k < |layout|
    ensures var (after, key) := (Filled(values, block, layout, words), MemberKey(block, layout[k].name));
            key in after && after[key] == MemberValue(words, layout[k])
    decreases |layout|
  {
    hide MemberValue;
    var n := |layout| - 1;
    if k < n {
      FilledValues(values, block, layout[..n], words, k);
    }
  }

  /** A fill without words shows nothing. */
  lemma {:induction false} FilledNothing(values: Values, block: string, layout: seq<Member>, words: Read, key: Key)
    requires !words.Words? && (key in values ==> values[key] == None)
    ensures var after := Filled(values, block, layout, words); key in after ==> after[key] == None
    decreases |layout|
  {
    if layout != [] {
      FilledNothing(values, block, layout[..|layout| - 1], words, key);
    }
  }

  // ------------------------------------------------------------------ a steady bus

  /** Every address range is always answered the same way, and the transport holds. */
  ghost predicate Steady(faults: Faults) {
    && (forall m, n, r :: faults(m, r) == faults(n, r))
    && (forall n, r :: faults(n, r) != Drop)
  }

  lemma {:induction false} ChunksSteady(mem: Memory, faults: Faults, log: seq<Request>, other: seq<Request>,
                                        base: int, off: nat, count: nat, out: seq<Word>)
    requires Steady(faults)
    ensures var result := Chunks(mem, faults, log, base, off, count, out).0;
            result == Chunks(mem, faults, other, base, off, count, out).0 && !result.Broken?
    decreases count - off
  {
    if off < count {
      var n := if count - off < CHUNK then count - off else CHUNK;
      var (a, more) := RawRead(mem, faults, log, base + off, n);
      var (b, less) := RawRead(mem, faults, other, base + off, n);
      assert a == b;
      if a.Words? {
        ChunksSteady(mem, faults, more, less, base, off + n, count, out + a.words);
      }
    }
  }

  /** What a block's words read as, whenever they are read. */
  function BlockWordsRead(t: Tables, mem: Memory, faults: Faults, name: string): Read
    requires name in t.blocks
  {
    Chunks(mem, faults, [], t.blocks[name].base, 0, BlockWords(t.blocks[name].layout), []).0
  }

  function SingleRead(t: Tables, mem: Memory, faults: Faults, name: string): Read
    requires name in t.singles
  {
    RawRead(mem, faults, [], t.singles[name].word, 1).0
  }

  predicate DistinctNames(t: Tables) {
    forall b <- t.blocks :: Distinct(t.blocks[b].layout)
  }

  predicate Covers(t: Tables, blocks: seq<string>, singles: seq<string>, key: Key)
    requires Known(t, blocks, singles)
  {
    match key
    case MemberKey(b, name) => b in blocks && Names(t.blocks[b].layout, name)
    case SingleKey(name) => name in singles
  }

  ghost function Find(layout: seq<Member>, name: string): (m: Member)
    requires Names(layout, name)
    ensures m in layout && m.name == name
  {
    var i :| 0 <= i < |layout| && layout[i].name == name;
    layout[i]
  }

  /** The value a key must have: what its own words say. */
  ghost function Due(t: Tables, mem: Memory, faults: Faults, key: Key): Option<Value>
    requires match key
             case MemberKey(b, name) => b in t.blocks && Names(t.blocks[b].layout, name)
             case SingleKey(n) => n in t.singles
  {
    match key
    case MemberKey(b, name) => MemberValue(BlockWordsRead(t, mem, faults, b), Find(t.blocks[b].layout, name))
    case SingleKey(n) => SingleValue(SingleRead(t, mem, faults, n), t.singles[n])
  }

  /** The values are exactly those of the blocks and singles read, each as it is due. */
  ghost predicate Shows(t: Tables, mem: Memory, faults: Faults, values: Values, blocks: seq<string>,
                        singles: seq<string>)
    requires Known(t, blocks, singles)
  {
    && (forall key: Key :: key in values <==> Covers(t, blocks, singles, key))
    && (forall key: Key :: key in values ==> values[key] == Due(t, mem, faults, key))
  }

  lemma {:induction false} BlocksShow(t: Tables, mem: Memory, faults: Faults, blocks: seq<string>)
    requires Known(t, blocks, []) && DistinctNames(t) && Steady(faults)
    ensures var s := BlocksDone(t, mem, faults, NOTHING, blocks);
            !s.broken && Shows(t, mem, faults, s.values, blocks, [])
    decreases |blocks|
  {
    if blocks != [] {
      hide Shows, BlockDone, Steady, DistinctNames;
      var n := |blocks| - 1;
      BlocksShow(t, mem, faults, blocks[..n]);
      BlockShows(t, mem, faults, BlocksDone(t, mem, faults, NOTHING, blocks[..n]), blocks[..n], blocks[n]);
      assert blocks[..n] + [blocks[n]] == blocks;
    }
  }

  lemma CoversMore(t: Tables, before: seq<string>, b: string)
    requires Known(t, before + [b], []) && Known(t, before, [])
    ensures b in t.blocks && forall key: Key :: Covers(t, before + [b], [], key) <==>
      Covers(t, before, [], key) || (key.MemberKey? && key.block == b && Names(t.blocks[b].layout, key.member))
  {
    assert b in before + [b];
    hide Names;
  }

  lemma BlockShows(t: Tables, mem: Memory, faults: Faults, s: Screen, before: seq<string>, b: string)
    requires Known(t, before + [b], []) && Known(t, before, []) && DistinctNames(t) && Steady(faults)
    requires !s.broken && Shows(t, mem, faults, s.values, before, [])
    ensures var after := BlockDone(t, mem, faults, s, b);
            !after.broken && Shows(t, mem, faults, after.values, before + [b], [])
  {
    var layout := t.blocks[b].layout;
    ChunksSteady(mem, faults, s.log, [], t.blocks[b].base, 0, BlockWords(layout), []);
    var words := BlockWordsRead(t, mem, faults, b);
    var values := BlockDone(t, mem, faults, s, b).values;
    assert values == Filled(s.values, b, layout, words);
    assert Distinct(layout);
    hide Chunks, MemberValue, Filled, Names, Steady, BlockWords, BlockDone, Distinct, DistinctNames;
    FilledKeys(s.values, b, layout, words);
    CoversMore(t, before, b);
    hide Covers;
    forall key: Key | key in values ensures values[key] == Due(t, mem, faults, key) {
      if key.MemberKey? && key.block == b && Names(layout, key.member) {
        FilledFind(s.values, b, layout, words, key.member);
      } else {
        assert key in s.values && values[key] == s.values[key];
      }
    }
  }

  lemma FilledFind(values: Values, block: string, layout: seq<Member>, words: Read, name: string)
    requires Distinct(layout) && Names(layout, name)
    ensures var (after, key) := (Filled(values, block, layout, words), MemberKey(block, name));
            key in after && after[key] == MemberValue(words, Find(layout, name))
  {
    hide Filled, MemberValue;
    var m := Find(layout, name);
    var k :| 0 <= k < |layout| && layout[k] == m;
    FilledValues(values, block, layout, words, k);
  }

  lemma {:induction false} SinglesShow(t: Tables, mem: Memory, faults: Faults, s: Screen, blocks: seq<string>,
                                       singles: seq<string>)
    requires Known(t, blocks, singles) && Steady(faults)
    requires !s.broken && Shows(t, mem, faults, s.values, blocks, [])
    ensures var after := SinglesDone(t, mem, faults, s, singles);
            !after.broken && Shows(t, mem, faults, after.values, blocks, singles)
    decreases |singles|
  {
    if singles != [] {
      var n := |singles| - 1;
      SinglesShow(t, mem, faults, s, blocks, singles[..n]);
      assert singles[..n] + [singles[n]] == singles;
      hide SinglesDone, Shows, Steady;
      SingleShows(t, mem, faults, SinglesDone(t, mem, faults, s, singles[..n]), blocks, singles[..n], singles[n]);
      LastSingle(t, mem, faults, s, singles);
    }
  }

  lemma LastSingle(t: Tables, mem: Memory, faults: Faults, s: Screen, singles: seq<string>)
    requires Known(t, [], singles) && singles != []
    ensures var n := |singles| - 1;
            SinglesDone(t, mem, faults, s, singles)
              == SingleDone(t, mem, faults, SinglesDone(t, mem, faults, s, singles[..n]), singles[n])
  {
  }

  lemma SingleShows(t: Tables, mem: Memory, faults: Faults, s: Screen, blocks: seq<string>, before: seq<string>,
                    n: string)
    requires Known(t, blocks, before + [n]) && Known(t, blocks, before) && Steady(faults)
    requires !s.broken && Shows(t, mem, faults, s.values, blocks, before)
    ensures var after := SingleDone(t, mem, faults, s, n);
            !after.broken && Shows(t, mem, faults, after.values, blocks, before + [n])
  {
    assert n in before + [n];
    var words := SingleRead(t, mem, faults, n);
    assert RawRead(mem, faults, s.log, t.singles[n].word, 1).0 == words;
    assert SingleDone(t, mem, faults, s, n).values == s.values[SingleKey(n) := SingleValue(words, t.singles[n])];
    assert forall key: Key ::
      Covers(t, blocks, before + [n], key) <==> Covers(t, blocks, before, key) || key == SingleKey(n);
    hide Covers, SingleDone, SingleRead, SingleValue, Names, BlockWordsRead, MemberValue, Steady;
  }

  lemma ScreenShows(t: Tables, mem: Memory, faults: Faults, blocks: seq<string>, singles: seq<string>)
    requires Known(t, blocks, singles) && DistinctNames(t) && Steady(faults)
    ensures var s := ScreenOf(t, mem, faults, blocks, singles);
            !s.broken && Shows(t, mem, faults, s.values, blocks, singles)
  {
    hide Shows, Steady, DistinctNames, BlocksDone, SinglesDone;
    BlocksShow(t, mem, faults, blocks);
    SinglesShow(t, mem, faults, BlocksDone(t, mem, faults, NOTHING, blocks), blocks, singles);
  }

  /** The order in which the sets of blocks and singles are walked does not matter, on
      a bus that answers each address range alike, refusals included. */
  lemma OrderDoesNotMatter(t: Tables, mem: Memory, faults: Faults, blocks: seq<string>, singles: seq<string>,
                           blocks': seq<string>, singles': seq<string>)
    requires Known(t, blocks, singles) && Known(t, blocks', singles') && DistinctNames(t) && Steady(faults)
    requires (forall b :: b in blocks <==> b in blocks') && (forall n :: n in singles <==> n in singles')
    ensures ScreenOf(t, mem, faults, blocks, singles).values == ScreenOf(t, mem, faults, blocks', singles').values
  {
    ScreenShows(t, mem, faults, blocks, singles);
    ScreenShows(t, mem, faults, blocks', singles');
    var a, b := ScreenOf(t, mem, faults, blocks, singles).values, ScreenOf(t, mem, faults, blocks', singles').values;
    hide ScreenOf, Due, Steady, DistinctNames, Names;
    assert forall key: Key :: Covers(t, blocks, singles, key) <==> Covers(t, blocks', singles', key);
    hide Covers;
  }

  // -------------------------------------------------------------- the PLC's memory

  /** The k-th block was read: the transport was still up, the block lies in the
      readable area, and every request issued for it was answered with data. */
  predicate BlockAnswered(t: Tables, mem: Memory, faults: Faults, blocks: seq<string>, k: nat)
    requires Known(t, blocks, []) && k < |blocks|
  {
    var before := BlocksDone(t, mem, faults, NOTHING, blocks[..k]);
    var after := BlocksDone(t, mem, faults, NOTHING, blocks[..k + 1]);
    && !before.broken && t.blocks[blocks[k]].base >= 1000
    && AllData(faults, after.log, |before.log|, |after.log|)
  }

  /** The same for the k-th single, which takes one request. */
  predicate SingleAnswered(t: Tables, mem: Memory, faults: Faults, blocks: seq<string>, singles: seq<string>, k: nat)
    requires Known(t, blocks, singles) && k < |singles|
  {
    var read := BlocksDone(t, mem, faults, NOTHING, blocks);
    var before := SinglesDone(t, mem, faults, read, singles[..k]);
    var word := t.singles[singles[k]].word;
    !before.broken && word >= 1000 && faults(|before.log|, Request(word, 1)).Data?
  }

  /** What is read for a block in a pass, given what went before. */
  function WordsRead(t: Tables, mem: Memory, faults: Faults, s: Screen, name: string): Read
    requires name in t.blocks
  {
    var block := t.blocks[name];
    if s.broken then NoData else Chunks(mem, faults, s.log, block.base, 0, BlockWords(block.layout), []).0
  }

  lemma OneBlock(t: Tables, mem: Memory, faults: Faults, blocks: seq<string>, k: nat)
    requires Known(t, blocks, []) && k < |blocks|
    ensures var before := BlocksDone(t, mem, faults, NOTHING, blocks[..k]);
            BlocksDone(t, mem, faults, NOTHING, blocks[..k + 1]) == BlockDone(t, mem, faults, before, blocks[k])
  {
    var upto := blocks[..k + 1];
    assert upto[..|upto| - 1] == blocks[..k] && upto[|upto| - 1] == blocks[k];
  }

  /** A block with any member at all is read whole exactly when it was answered. */
  lemma WordsAreMemory(t: Tables, mem: Memory, faults: Faults, blocks: seq<string>, k: nat)
    requires Known(t, blocks, []) && k < |blocks| && BlockWords(t.blocks[blocks[k]].layout) > 0
    ensures var before := BlocksDone(t, mem, faults, NOTHING, blocks[..k]);
            var block := t.blocks[blocks[k]];
            var words := WordsRead(t, mem, faults, before, blocks[k]);
            && (words.Words? <==> BlockAnswered(t, mem, faults, blocks, k))
            && (words.Words? ==> words.words == Slice(mem, block.base, BlockWords(block.layout)))
  {
    var before := BlocksDone(t, mem, faults, NOTHING, blocks[..k]);
    var block := t.blocks[blocks[k]];
    OneBlock(t, mem, faults, blocks, k);
    if !before.broken {
      if block.base >= READ_BASE {
        BlockRead(mem, faults, before.log, block.base, BlockWords(block.layout));
        hide Chunks, BlocksDone, Tile, BlockWords, Filled;
      } else {
        hide BlocksDone, BlockWords, Filled;
        assert !WordsRead(t, mem, faults, before, blocks[k]).Words?;
      }
    }
  }

  /** What a block's member shows after the whole pass is what was decoded when the
      block was read. */
  lemma MemberAfterPass(t: Tables, mem: Memory, faults: Faults, blocks: seq<string>, singles: seq<string>,
                        k: nat, m: Member)
    requires Known(t, blocks, singles) && k < |blocks| && blocks[k] !in blocks[k + 1..]
    requires Distinct(t.blocks[blocks[k]].layout) && m in t.blocks[blocks[k]].layout
    ensures var before := BlocksDone(t, mem, faults, NOTHING, blocks[..k]);
            RowValue(ScreenOf(t, mem, faults, blocks, singles).values, MemberRef(blocks[k], m.name))
              == MemberValue(WordsRead(t, mem, faults, before, blocks[k]), m)
  {
    var b, layout := blocks[k], t.blocks[blocks[k]].layout;
    EarlierRowsStay(t, mem, faults, blocks, singles, k + 1, b, m.name);
    OneBlock(t, mem, faults, blocks, k);
    var before := BlocksDone(t, mem, faults, NOTHING, blocks[..k]);
    var i :| 0 <= i < |layout| && layout[i] == m;
    FilledValues(before.values, b, layout, WordsRead(t, mem, faults, before, b), i);
    hide ScreenOf, BlocksDone, Filled, MemberValue, Chunks, BlockWords;
  }

  /** Mirror refinement: whatever the tables, the memory and the bus do, and in whatever
      order blocks are read, a member row shows the member as it stands at its absolute
      byte address if its block was answered, and nothing otherwise. */
  lemma MemberIsMemory(t: Tables, mem: Memory, faults: Faults, blocks: seq<string>, singles: seq<string>,
                       k: nat, m: Member)
    requires Known(t, blocks, singles) && k < |blocks| && blocks[k] !in blocks[k + 1..]
    requires Distinct(t.blocks[blocks[k]].layout) && m in t.blocks[blocks[k]].layout && WellFormed(m)
    ensures RowValue(ScreenOf(t, mem, faults, blocks, singles).values, MemberRef(blocks[k], m.name)) ==
            if BlockAnswered(t, mem, faults, blocks, k) then Some(Direct(mem, t.blocks[blocks[k]].base, m)) else None
  {
    var block := t.blocks[blocks[k]];
    var i :| 0 <= i < |block.layout| && block.layout[i] == m;
    BlockCovers(block.layout, i);
    MemberAfterPass(t, mem, faults, blocks, singles, k, m);
    assert TypeWords(m.kind) > 0;
    WordsAreMemory(t, mem, faults, blocks, k);
    hide ScreenOf, BlocksDone, BlockAnswered, WordsRead, RowValue, Decode, Direct, WellFormed, BlockWords, WordOf;
    hide TypeWords;
    var words := WordsRead(t, mem, faults, BlocksDone(t, mem, faults, NOTHING, blocks[..k]), blocks[k]);
    if words.Words? {
      DecodeIsDirect(words.words, mem, block.base, m);
    }
  }

  /** The same for '#' rows: any bit of a whole-number member is the bit of the byte it
      names in the PLC's memory if the block was answered, and nothing otherwise. */
  lemma MirrorIsMemory(t: Tables, mem: Memory, faults: Faults, blocks: seq<string>, singles: seq<string>,
                       k: nat, m: Member, bit: nat)
    requires Known(t, blocks, singles) && k < |blocks| && blocks[k] !in blocks[k + 1..]
    requires Distinct(t.blocks[blocks[k]].layout) && m in t.blocks[blocks[k]].layout && WellFormed(m)
    ensures var (values, base) := (ScreenOf(t, mem, faults, blocks, singles).values, t.blocks[blocks[k]].base);
            var answered := BlockAnswered(t, mem, faults, blocks, k);
            && RowValue(values, MemberRef(blocks[k], m.name)) == (if answered then Some(Direct(mem, base, m)) else None)
            && (IsWhole(m.kind) && bit < 16 * TypeWords(m.kind) ==>
                 RowValue(values, BitRef(blocks[k], m.name, bit)) ==
                 if answered then Some(Flag(BitOf(ByteAt(mem, 2 * base + m.byte + bit / 8), bit % 8))) else None)
  {
    assert IsWhole(m.kind) ==> !Direct(mem, t.blocks[blocks[k]].base, m).Pattern?;
    hide ScreenOf, Direct, ShownBit, BitOf, ByteAt, WellFormed, BlockAnswered;
    MemberIsMemory(t, mem, faults, blocks, singles, k, m);
    if IsWhole(m.kind) && bit < 16 * TypeWords(m.kind) {
      ShownBitIsDirect(mem, t.blocks[blocks[k]].base, m, bit);
    }
  }

  /** And for singles: each shows its bit of its word, inverted if so listed, exactly
      when its own read was answered. */
  lemma SingleIsMemory(t: Tables, mem: Memory, faults: Faults, blocks: seq<string>, singles: seq<string>, k: nat)
    requires Known(t, blocks, singles) && k < |singles| && singles[k] !in singles[k + 1..]
    ensures var single := t.singles[singles[k]];
            RowValue(ScreenOf(t, mem, faults, blocks, singles).values, SingleRef(singles[k])) ==
            if SingleAnswered(t, mem, faults, blocks, singles, k)
            then Some(Flag(BitOf(mem(single.word), single.bit) != single.invert)) else None
  {
    hide BlocksDone, SinglesDone, BitOf;
    var read := BlocksDone(t, mem, faults, NOTHING, blocks);
    var before := SinglesDone(t, mem, faults, read, singles[..k]);
    var met := SinglesDone(t, mem, faults, read, singles[..k + 1]);
    OneSingle(t, mem, faults, read, singles, k);
    assert singles[..k + 1] + singles[k + 1..] == singles;
    SinglesConcat(t, mem, faults, read, singles[..k + 1], singles[k + 1..]);
    LaterSinglesLeave(t, mem, faults, met, singles[k + 1..], SingleKey(singles[k]));
    SingleDoneValue(t, mem, faults, before, singles[k]);
    hide SingleDone;
  }

  lemma OneSingle(t: Tables, mem: Memory, faults: Faults, s: Screen, singles: seq<string>, k: nat)
    requires Known(t, [], singles) && k < |singles|
    ensures SinglesDone(t, mem, faults, s, singles[..k + 1])
         == SingleDone(t, mem, faults, SinglesDone(t, mem, faults, s, singles[..k]), singles[k])
  {
    var upto := singles[..k + 1];
    assert upto[..|upto| - 1] == singles[..k] && upto[|upto| - 1] == singles[k];
    hide SingleDone;
  }

  lemma SingleDoneValue(t: Tables, mem: Memory, faults: Faults, s: Screen, n: string)
    requires n in t.singles
    ensures var (single, values) := (t.singles[n], SingleDone(t, mem, faults, s, n).values);
            SingleKey(n) in values && values[SingleKey(n)] ==
              if !s.broken && single.word >= READ_BASE && faults(|s.log|, Request(single.word, 1)).Data?
              then Some(Flag(BitOf(mem(single.word), single.bit) != single.invert)) else None
  {
    hide BitOf;
  }

  /** No row is ever wrong: whatever fails, a member of a block that was asked for shows
      nothing or exactly what the PLC's memory holds. */
  lemma NeverWrong(t: Tables, mem: Memory, faults: Faults, blocks: seq<string>, singles: seq<string>,
                   b: string, m: Member)
    requires Known(t, blocks, singles) && b in blocks
    requires Distinct(t.blocks[b].layout) && m in t.blocks[b].layout && WellFormed(m)
    ensures RowValue(ScreenOf(t, mem, faults, blocks, singles).values, MemberRef(b, m.name))
              in {None, Some(Direct(mem, t.blocks[b].base, m))}
  {
    var k := LastOf(blocks, b);
    hide ScreenOf, BlockAnswered, Direct, WellFormed, Distinct, RowValue;
    MemberIsMemory(t, mem, faults, blocks, singles, k, m);
  }

  function LastOf(xs: seq<string>, x: string): (k: nat)
    requires x in xs
    ensures k < |xs| && xs[k] == x && x !in xs[k + 1..]
  {
    if xs[|xs| - 1] == x then |xs| - 1
    else
      var n := |xs| - 1;
      var k := LastOf(xs[..n], x);
      assert xs[k + 1..] == xs[..n][k + 1..] + [xs[n]];
      k
  }

  ghost predicate AllAnswered(faults: Faults) {
    forall n, r :: faults(n, r) == Data
  }

  /** With every read answered, every block asked for is answered: nothing it covers is
      missing. */
  lemma NothingMissing(t: Tables, mem: Memory, faults: Faults, blocks: seq<string>, k: nat)
    requires Known(t, blocks, []) && DistinctNames(t) && k < |blocks|
    requires AllAnswered(faults) && t.blocks[blocks[k]].base >= READ_BASE
    ensures BlockAnswered(t, mem, faults, blocks, k)
  {
    assert Steady(faults);
    BlocksShow(t, mem, faults, blocks[..k]);
    hide BlocksDone, Shows;
  }

  // -------------------------------------------------------------- transport errors

  /** The transport has failed exactly if the very last request was dropped, and none
      before it was. */
  predicate Orderly(faults: Faults, s: Screen) {
    && (forall k :: 0 <= k < |s.log| - 1 ==> faults(k, s.log[k]) != Drop)
    && (s.broken <==> s.log != [] && faults(|s.log| - 1, s.log[|s.log| - 1]) == Drop)
  }

  /** A block read in the same terms. */
  lemma ReadEnds(mem: Memory, faults: Faults, log: seq<Request>, base: int, count: nat)
    ensures var (result, after) := Chunks(mem, faults, log, base, 0, count, []);
            && log <= after && (result.Broken? ==> |after| > |log|)
            && forall k :: |log| <= k < |after| ==>
                 (faults(k, after[k]) == Drop <==> result.Broken? && k == |after| - 1)
  {
    if base >= READ_BASE {
      BlockRead(mem, faults, log, base, count);
      hide Chunks, Tile;
    }
  }

  lemma BlockOrderly(t: Tables, mem: Memory, faults: Faults, s: Screen, name: string)
    requires Orderly(faults, s) && name in t.blocks
    ensures Orderly(faults, BlockDone(t, mem, faults, s, name))
  {
    ReadEnds(mem, faults, s.log, t.blocks[name].base, BlockWords(t.blocks[name].layout));
    hide Chunks, Filled, BlockWords;
  }

  lemma SingleOrderly(t: Tables, mem: Memory, faults: Faults, s: Screen, name: string)
    requires Orderly(faults, s) && name in t.singles
    ensures Orderly(faults, SingleDone(t, mem, faults, s, name))
  {
    hide SingleValue;
  }

  /** The socket is dropped once, when the last read of the pass lost the transport;
      after a dropped request no further request is issued. */
  lemma {:induction false} DropEndsReading(t: Tables, mem: Memory, faults: Faults, blocks: seq<string>,
                                           singles: seq<string>)
    requires Known(t, blocks, singles)
    ensures Orderly(faults, ScreenOf(t, mem, faults, blocks, singles))
    decreases |blocks|, |singles|
  {
    hide BlockDone, SingleDone, Orderly;
    if singles != [] {
      var n := |singles| - 1;
      DropEndsReading(t, mem, faults, blocks, singles[..n]);
      SingleOrderly(t, mem, faults, ScreenOf(t, mem, faults, blocks, singles[..n]), singles[n]);
    } else if blocks != [] {
      var n := |blocks| - 1;
      DropEndsReading(t, mem, faults, blocks[..n], []);
      BlockOrderly(t, mem, faults, ScreenOf(t, mem, faults, blocks[..n], []), blocks[n]);
    } else {
      NothingOrderly(faults);
    }
  }

  lemma NothingOrderly(faults: Faults)
    ensures Orderly(faults, NOTHING)
  {
  }

  /** Once the transport has failed, no block, single or member still to come shows
      anything, and nothing already None comes back. */
  lemma {:induction false} BrokenShowsNothing(t: Tables, mem: Memory, faults: Faults, s: Screen, blocks: seq<string>,
                                              key: Key)
    requires Known(t, blocks, []) && s.broken
    ensures var after := BlocksDone(t, mem, faults, s, blocks);
            after.broken && after.log == s.log
            && ((key in s.values ==> s.values[key] == None) && key in after.values ==> after.values[key] == None)
    decreases |blocks|
  {
    hide Filled;
    if blocks != [] {
      var n := |blocks| - 1;
      BrokenShowsNothing(t, mem, faults, s, blocks[..n], key);
      var before := BlocksDone(t, mem, faults, s, blocks[..n]);
      if key in before.values ==> before.values[key] == None {
        FilledNothing(before.values, blocks[n], t.blocks[blocks[n]].layout, NoData, key);
      }
    }
  }

  lemma {:induction false} BlocksConcat(t: Tables, mem: Memory, faults: Faults, s: Screen, a: seq<string>,
                                        b: seq<string>)
    requires Known(t, a + b, []) && Known(t, a, []) && Known(t, b, [])
    ensures BlocksDone(t, mem, faults, s, a + b) == BlocksDone(t, mem, faults, BlocksDone(t, mem, faults, s, a), b)
    decreases |b|
  {
    hide BlockDone;
    if b == [] {
      assert a + b == a;
    } else {
      var n := |b| - 1;
      assert (a + b)[..|a + b| - 1] == a + b[..n] && (a + b)[|a + b| - 1] == b[n];
      BlocksConcat(t, mem, faults, s, a, b[..n]);
    }
  }

  lemma {:induction false} BrokenSingles(t: Tables, mem: Memory, faults: Faults, s: Screen, singles: seq<string>,
                                         key: Key)
    requires Known(t, [], singles) && s.broken
    ensures var after := SinglesDone(t, mem, faults, s, singles);
            && after.broken && after.log == s.log
            && (key.MemberKey? ==>
                 (key in after.values <==> key in s.values) && (key in s.values ==> after.values[key] == s.values[key]))
            && (key.SingleKey? && key.single in singles ==> key in after.values && after.values[key] == None)
            && (key.SingleKey? && key.single !in singles ==>
                 (key in after.values <==> key in s.values) && (key in s.values ==> after.values[key] == s.values[key]))
    decreases |singles|
  {
    if singles != [] {
      var n := |singles| - 1;
      BrokenSingles(t, mem, faults, s, singles[..n], key);
    }
  }

  /** A transport error ends the pass: from the block that met it on, every member of
      every block shows as None, every single does too, and the request that was
      dropped is the last one issued. */
  lemma UnreadIsNone(t: Tables, mem: Memory, faults: Faults, blocks: seq<string>, singles: seq<string>, k: nat)
    requires Known(t, blocks, singles) && DistinctNames(t) && k < |blocks|
    requires BlocksDone(t, mem, faults, NOTHING, blocks[..k + 1]).broken
    ensures var s := ScreenOf(t, mem, faults, blocks, singles);
            && s.log == BlocksDone(t, mem, faults, NOTHING, blocks[..k + 1]).log
            && (forall m <- t.blocks[blocks[k]].layout :: RowValue(s.values, MemberRef(blocks[k], m.name)) == None)
            && (forall n <- singles :: RowValue(s.values, SingleRef(n)) == None)
  {
    var met := BlocksDone(t, mem, faults, NOTHING, blocks[..k + 1]);
    assert blocks[..k + 1] + blocks[k + 1..] == blocks;
    BlocksConcat(t, mem, faults, NOTHING, blocks[..k + 1], blocks[k + 1..]);
    var done := BlocksDone(t, mem, faults, met, blocks[k + 1..]);
    BrokenShowsNothing(t, mem, faults, met, blocks[k + 1..], SingleKey(""));
    BrokenSingles(t, mem, faults, done, singles, SingleKey(""));
    hide BlocksDone, SinglesDone;
    forall m | m in t.blocks[blocks[k]].layout
      ensures RowValue(ScreenOf(t, mem, faults, blocks, singles).values, MemberRef(blocks[k], m.name)) == None
    {
      var key := MemberKey(blocks[k], m.name);
      MetShowsNone(t, mem, faults, blocks, k, m);
      BrokenShowsNothing(t, mem, faults, met, blocks[k + 1..], key);
      BrokenSingles(t, mem, faults, done, singles, key);
    }
    forall n | n in singles
      ensures RowValue(ScreenOf(t, mem, faults, blocks, singles).values, SingleRef(n)) == None
    {
      BrokenSingles(t, mem, faults, done, singles, SingleKey(n));
    }
  }

  /** The block whose read met the error, or came after it, shows nothing at once. */
  lemma MetShowsNone(t: Tables, mem: Memory, faults: Faults, blocks: seq<string>, k: nat, m: Member)
    requires Known(t, blocks, []) && DistinctNames(t) && k < |blocks| && m in t.blocks[blocks[k]].layout
    requires BlocksDone(t, mem, faults, NOTHING, blocks[..k + 1]).broken
    ensures var values := BlocksDone(t, mem, faults, NOTHING, blocks[..k + 1]).values;
            var key := MemberKey(blocks[k], m.name);
            key in values ==> values[key] == None
  {
    var upto := blocks[..k + 1];
    assert upto[..|upto| - 1] == blocks[..k] && upto[|upto| - 1] == blocks[k];
    var before := BlocksDone(t, mem, faults, NOTHING, blocks[..k]);
    var block := t.blocks[blocks[k]];
    var words := if before.broken then NoData
                 else Chunks(mem, faults, before.log, block.base, 0, BlockWords(block.layout), []).0;
    var i :| 0 <= i < |block.layout| && block.layout[i] == m;
    FilledValues(before.values, blocks[k], block.layout, words, i);
  }

  lemma {:induction false} SinglesConcat(t: Tables, mem: Memory, faults: Faults, s: Screen, a: seq<string>,
                                         b: seq<string>)
    requires Known(t, [], a + b) && Known(t, [], a) && Known(t, [], b)
    ensures SinglesDone(t, mem, faults, s, a + b) == SinglesDone(t, mem, faults, SinglesDone(t, mem, faults, s, a), b)
    decreases |b|
  {
    hide SingleDone;
    if b == [] {
      assert a + b == a;
    } else {
      var n := |b| - 1;
      assert (a + b)[..|a + b| - 1] == a + b[..n] && (a + b)[|a + b| - 1] == b[n];
      SinglesConcat(t, mem, faults, s, a, b[..n]);
    }
  }

  /** The same when the error strikes among the singles: from the one that met it on,
      each shows as None and nothing more is read; what the members showed stays. */
  lemma UnreadSinglesAreNone(t: Tables, mem: Memory, faults: Faults, blocks: seq<string>, singles: seq<string>, k: nat)
    requires Known(t, blocks, singles) && k < |singles|
    requires SinglesDone(t, mem, faults, BlocksDone(t, mem, faults, NOTHING, blocks), singles[..k + 1]).broken
    ensures var read := BlocksDone(t, mem, faults, NOTHING, blocks);
            var s := ScreenOf(t, mem, faults, blocks, singles);
            && s.log == SinglesDone(t, mem, faults, read, singles[..k + 1]).log
            && RowValue(s.values, SingleRef(singles[k])) == None
            && forall b, m :: RowValue(s.values, MemberRef(b, m)) == RowValue(read.values, MemberRef(b, m))
  {
    hide BlocksDone, SinglesDone;
    var read := BlocksDone(t, mem, faults, NOTHING, blocks);
    var met := SinglesDone(t, mem, faults, read, singles[..k + 1]);
    assert singles[..k + 1] + singles[k + 1..] == singles;
    SinglesConcat(t, mem, faults, read, singles[..k + 1], singles[k + 1..]);
    BrokenSingles(t, mem, faults, met, singles[k + 1..], SingleKey(singles[k]));
    SingleMeetsNone(t, mem, faults, read, singles, k);
    var values := ScreenOf(t, mem, faults, blocks, singles).values;
    forall b, m ensures RowValue(values, MemberRef(b, m)) == RowValue(read.values, MemberRef(b, m)) {
      LaterSinglesLeave(t, mem, faults, read, singles, MemberKey(b, m));
    }
  }

  lemma SingleMeetsNone(t: Tables, mem: Memory, faults: Faults, s: Screen, singles: seq<string>, k: nat)
    requires Known(t, [], singles) && k < |singles| && SinglesDone(t, mem, faults, s, singles[..k + 1]).broken
    ensures var values := SinglesDone(t, mem, faults, s, singles[..k + 1]).values;
            SingleKey(singles[k]) in values && values[SingleKey(singles[k])] == None
  {
    var upto := singles[..k + 1];
    assert upto[..|upto| - 1] == singles[..k] && upto[|upto| - 1] == singles[k];
  }

  lemma {:induction false} LaterSinglesLeave(t: Tables, mem: Memory, faults: Faults, s: Screen, singles: seq<string>,
                                             key: Key)
    requires Known(t, [], singles) && (key.SingleKey? ==> key.single !in singles)
    ensures var after := SinglesDone(t, mem, faults, s, singles);
            (key in after.values <==> key in s.values) && (key in s.values ==> after.values[key] == s.values[key])
    decreases |singles|
  {
    if singles != [] {
      LaterSinglesLeave(t, mem, faults, s, singles[..|singles| - 1], key);
    }
  }

  lemma {:induction false} LaterBlocksLeave(t: Tables, mem: Memory, faults: Faults, s: Screen, blocks: seq<string>,
                                            key: Key)
    requires Known(t, blocks, []) && (key.MemberKey? ==> key.block !in blocks)
    ensures var after := BlocksDone(t, mem, faults, s, blocks);
            (key in after.values <==> key in s.values) && (key in s.values ==> after.values[key] == s.values[key])
    decreases |blocks|
  {
    if blocks != [] {
      var n := |blocks| - 1;
      LaterBlocksLeave(t, mem, faults, s, blocks[..n], key);
      var before := BlocksDone(t, mem, faults, s, blocks[..n]);
      var layout := t.blocks[blocks[n]].layout;
      var words := if before.broken then NoData
                   else Chunks(mem, faults, before.log, t.blocks[blocks[n]].base, 0, BlockWords(layout), []).0;
      hide Filled, Chunks, BlockWords;
      FilledKeys(before.values, blocks[n], layout, words);
    }
  }

  /** What a block showed when it was read is what its rows show, whatever the reads
      after it meet. */
  lemma EarlierRowsStay(t: Tables, mem: Memory, faults: Faults, blocks: seq<string>, singles: seq<string>, k: nat,
                        b: string, m: string)
    requires Known(t, blocks, singles) && k <= |blocks| && b !in blocks[k..]
    ensures RowValue(ScreenOf(t, mem, faults, blocks, singles).values, MemberRef(b, m)) ==
            RowValue(BlocksDone(t, mem, faults, NOTHING, blocks[..k]).values, MemberRef(b, m))
  {
    hide BlocksDone, SinglesDone;
    var upto := BlocksDone(t, mem, faults, NOTHING, blocks[..k]);
    assert blocks[..k] + blocks[k..] == blocks;
    BlocksConcat(t, mem, faults, NOTHING, blocks[..k], blocks[k..]);
    LaterBlocksLeave(t, mem, faults, upto, blocks[k..], MemberKey(b, m));
    LaterSinglesLeave(t, mem, faults, BlocksDone(t, mem, faults, NOTHING, blocks), singles, MemberKey(b, m));
  }
}
