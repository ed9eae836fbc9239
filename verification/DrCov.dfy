/** The DrCov writer and reader: files, absolute blocks, and merging. */
module DrCov {
  import opened Common
  import opened DrCovText
  import opened DrCovFormat

  /** A range of the module map, whose ranges are disjoint: addresses [start, end) belong to the module. */
  datatype Mapping = Mapping(start: nat, end: nat, id: nat, path: string)

  // ----- lookups -----

  /** `get_key_value`: the range that holds an address. */
  function Lookup(ms: seq<Mapping>, addr: nat): (r: Option<Mapping>)
    ensures r.Some? ==> r.value in ms && r.value.start <= addr < r.value.end
    ensures r.None? ==> forall i :: 0 <= i < |ms| ==> !(ms[i].start <= addr < ms[i].end)
  {
    if ms == [] then None
    else if ms[0].start <= addr < ms[0].end then Some(ms[0])
    else Lookup(ms[1..], addr)
  }

  /** `module_by_id`: the first module with the id. */
  function ModuleById(modules: seq<ModuleEntry>, id: nat): (r: Option<ModuleEntry>)
    ensures r.Some? ==> r.value in modules && r.value.id == id
    ensures r.None? <==> forall i :: 0 <= i < |modules| ==> modules[i].id != id
  {
    if modules == [] then None
    else if modules[0].id == id then Some(modules[0])
    else ModuleById(modules[1..], id)
  }

  // ----- the writer -----

  function EntryOf(m: Mapping): ModuleEntry {
    ModuleEntry(m.id, m.start, m.end, 0, 0, 0, m.path)
  }

  /** `module_entries`. */
  function ModuleEntries(ms: seq<Mapping>): (r: seq<ModuleEntry>)
    ensures |r| == |ms|
  {
    seq(|ms|, i requires 0 <= i < |ms| => EntryOf(ms[i]))
  }

  /** The entry of one block; the casts cut off high bits. */
  function Encode(m: Mapping, b: BasicBlock): BlockEntry
    requires m.start <= b.start
  {
    BlockEntry((b.start - m.start) % U32, (b.end - b.start) % U16, m.id)
  }

  /** `basic_block_entries`: a block outside every module panics. */
  function BlockEntries(ms: seq<Mapping>, bs: seq<BasicBlock>): Outcome<seq<BlockEntry>> {
    if bs == [] then Ok([])
    else match Lookup(ms, bs[0].start)
         case None => Panicked
         case Some(m) => PrependBlocks([Encode(m, bs[0])], BlockEntries(ms, bs[1..]))
  }

  /** The loop behind `basic_block_entries`. */
  method BasicBlockEntries(ms: seq<Mapping>, bs: seq<BasicBlock>) returns (r: Outcome<seq<BlockEntry>>)
    ensures r == BlockEntries(ms, bs)
  {
    var ret: seq<BlockEntry> := [];
    NothingBefore(BlockEntries(ms, bs));
    assert bs[0..] == bs;
    for i := 0 to |bs|
      invariant BlockEntries(ms, bs) == PrependBlocks(ret, BlockEntries(ms, bs[i..]))
    {
      assert bs[i..][1..] == bs[i + 1..];
      match Lookup(ms, bs[i].start)
      case None =>
        return Panicked;
      case Some(m) =>
        PrependTwice(ret, [Encode(m, bs[i])], BlockEntries(ms, bs[i + 1..]));
        ret := ret + [Encode(m, bs[i])];
    }
    assert bs[|bs|..] == [] && ret + [] == ret;
    r := Ok(ret);
  }

  lemma PrependTwice(a: seq<BlockEntry>, b: seq<BlockEntry>, r: Outcome<seq<BlockEntry>>)
    ensures PrependBlocks(a, PrependBlocks(b, r)) == PrependBlocks(a + b, r)
  {
    if r.Ok? {
      assert a + (b + r.value) == a + b + r.value;
    }
  }

  lemma NothingBefore(r: Outcome<seq<BlockEntry>>)
    ensures PrependBlocks([], r) == r
  {
    if r.Ok? {
      assert [] + r.value == r.value;
    }
  }

  /** `DrCovWriter::write`: the file it leaves. */
  function Written(ms: seq<Mapping>, bs: seq<BasicBlock>): Outcome<string> {
    match BlockEntries(ms, bs)
    case Ok(entries) => Ok(Printed(Contents(ModuleEntries(ms), entries)))
    case _ => Panicked
  }

  /** The loops behind `write`. */
  method Write(ms: seq<Mapping>, bs: seq<BasicBlock>) returns (r: Outcome<string>)
    ensures r == Written(ms, bs)
  {
    var modules := ModuleEntries(ms);
    var lines := "";
    assert modules[0..] == modules && lines + ModuleLines(modules) == ModuleLines(modules);
    for i := 0 to |modules|
      invariant ModuleLines(modules) == lines + ModuleLines(modules[i..])
    {
      assert modules[i..][1..] == modules[i + 1..];
      Regroup(lines, ToModuleLine(modules[i]) + "\n", ModuleLines(modules[i + 1..]));
      lines := lines + (ToModuleLine(modules[i]) + "\n");
    }
    assert modules[|modules|..] == [] && lines + "" == lines;
    var entries := BasicBlockEntries(ms, bs);
    if !entries.Ok? {
      return Panicked;
    }
    EntriesPerBlock(ms, bs);
    var table := "";
    assert entries.value[0..] == entries.value && table + BlockTable(entries.value) == BlockTable(entries.value);
    for i := 0 to |entries.value|
      invariant BlockTable(entries.value) == table + BlockTable(entries.value[i..])
    {
      assert entries.value[i..][1..] == entries.value[i + 1..];
      Regroup(table, BlockBytes(entries.value[i]), BlockTable(entries.value[i + 1..]));
      table := table + BlockBytes(entries.value[i]);
    }
    assert entries.value[|entries.value|..] == [] && table + "" == table;
    r := Ok(VERSION_LINE + "\n" + (FLAVOR_LINE + "\n" +
            (TABLE_PREFIX + ToDigits(|modules|, 10) + "\n" + (COLUMNS_LINE + "\n" +
            (lines + (BLOCKS_PREFIX + ToDigits(|bs|, 10) + " bbs" + "\n" + table))))));
  }

  /** There is one entry for every block. */
  lemma {:induction false} EntriesPerBlock(ms: seq<Mapping>, bs: seq<BasicBlock>)
    ensures BlockEntries(ms, bs).Ok? ==> |BlockEntries(ms, bs).value| == |bs|
  {
    if bs != [] {
      EntriesPerBlock(ms, bs[1..]);
    }
  }

  // ----- the reader -----

  /** The loops behind `read`. */
  method Read(file: string) returns (r: Outcome<Contents>)
    ensures r == Parsed(file)
  {
    var (version, s1) := ReadLine(file);
    if Trim(ToUppercase(version)) != VERSION_LINE {
      return Err;
    }
    var (table, s2) := SkipFlavor(s1);
    var moduleCount := ParseTableHeader(table);
    if moduleCount.None? {
      return Err;
    }
    var (columns, s3) := ReadLine(s2);
    if !StartsWith(columns, COLUMNS_LINE) {
      return Err;
    }
    var modules := ReadModules(s3, moduleCount.value);
    if !modules.Ok? {
      return if modules.Err? then Err else Panicked;
    }
    var (header, s4) := ReadLine(modules.value.1);
    var blockCount := ParseBlocksHeader(header);
    if blockCount.None? {
      return Err;
    }
    var blocks := ReadBlocks(s4, blockCount.value);
    if !blocks.Ok? {
      return Err;
    }
    r := Ok(Contents(modules.value.0, blocks.value));
  }

  method ReadModules(s: string, count: nat) returns (r: Outcome<(seq<ModuleEntry>, string)>)
    ensures r == ParseModules(s, count)
  {
    hide ParseModule, ReadLine;
    var modules: seq<ModuleEntry> := [];
    var rest := s;
    NoModulesBefore(ParseModules(s, count));
    for i := 0 to count
      invariant ParseModules(s, count) == PrependModules(modules, ParseModules(rest, count - i))
    {
      var (line, next) := ReadLine(rest);
      match ParseModule(line)
      case Err =>
        return Err;
      case Panicked =>
        return Panicked;
      case Ok(m) =>
        PrependModulesTwice(modules, [m], ParseModules(next, count - i - 1));
        modules := modules + [m];
        rest := next;
    }
    assert modules + [] == modules;
    r := Ok((modules, rest));
  }

  lemma NoModulesBefore(r: Outcome<(seq<ModuleEntry>, string)>)
    ensures PrependModules([], r) == r
  {
    if r.Ok? {
      assert [] + r.value.0 == r.value.0;
    }
  }

  lemma PrependModulesTwice(a: seq<ModuleEntry>, b: seq<ModuleEntry>, r: Outcome<(seq<ModuleEntry>, string)>)
    ensures PrependModules(a, PrependModules(b, r)) == PrependModules(a + b, r)
  {
    if r.Ok? {
      assert a + (b + r.value.0) == a + b + r.value.0;
    }
  }

  method ReadBlocks(s: string, count: nat) returns (r: Outcome<seq<BlockEntry>>)
    ensures r == ParseBlocks(s, count)
  {
    hide ParseBlock;
    var blocks: seq<BlockEntry> := [];
    var rest := s;
    NothingBefore(ParseBlocks(s, count));
    for i := 0 to count
      invariant ParseBlocks(s, count) == PrependBlocks(blocks, ParseBlocks(rest, count - i))
    {
      if |rest| < 8 {
        return Err;
      }
      PrependTwice(blocks, [ParseBlock(rest[..8])], ParseBlocks(rest[8..], count - i - 1));
      blocks := blocks + [ParseBlock(rest[..8])];
      rest := rest[8..];
    }
    assert blocks + [] == blocks;
    r := Ok(blocks);
  }

  // ----- absolute blocks -----

  /** The absolute block of an entry, if its module exists; sums wrap at 64 bits. */
  function Resolve(modules: seq<ModuleEntry>, e: BlockEntry): Option<BasicBlock> {
    match ModuleById(modules, e.modId)
    case None => None
    case Some(m) =>
      var start := (m.base + e.start) % U64;
      Some(BasicBlock(start, (start + e.size) % U64))
  }

  /** `basic_blocks`: entries without a module are skipped. */
  function Resolved(modules: seq<ModuleEntry>, es: seq<BlockEntry>): seq<BasicBlock> {
    if es == [] then []
    else (match Resolve(modules, es[0]) case None => [] case Some(b) => [b]) + Resolved(modules, es[1..])
  }

  lemma {:induction false} ResolvedSnoc(modules: seq<ModuleEntry>, es: seq<BlockEntry>, e: BlockEntry)
    ensures Resolved(modules, es + [e]) ==
            Resolved(modules, es) + (match Resolve(modules, e) case None => [] case Some(b) => [b])
  {
    if es == [] {
      assert [] + [e] == [e] && [e][1..] == [];
    } else {
      assert (es + [e])[1..] == es[1..] + [e];
      ResolvedSnoc(modules, es[1..], e);
    }
  }

  /** The absolute blocks are exactly those of the entries that have a module. */
  lemma {:induction false} ResolvedMembers(modules: seq<ModuleEntry>, es: seq<BlockEntry>, b: BasicBlock)
    ensures b in Resolved(modules, es) <==> exists e :: e in es && Resolve(modules, e) == Some(b)
  {
    if es != [] {
      ResolvedMembers(modules, es[1..], b);
      if e :| e in es && Resolve(modules, e) == Some(b) {
        assert e == es[0] || e in es[1..];
      }
    }
  }

  // ----- writing and reading back -----

  /** Every module id belongs to one range. */
  ghost predicate UniqueIds(ms: seq<Mapping>) {
    forall i, j :: 0 <= i < j < |ms| ==> ms[i].id != ms[j].id
  }

  ghost predicate MappingWritable(m: Mapping) {
    m.id < U16 && m.start < U64 && m.end < U64
  }

  /** A block that an entry can hold: it starts within 4 GiB of its module and its wrapped length is below 64 KiB. */
  predicate BlockFits(m: Mapping, b: BasicBlock) {
    m.start <= b.start < m.start + U32 && (b.end - b.start) % U64 < U16
  }

  /** The addresses of a block are 64-bit and it begins in some module. */
  ghost predicate InModule(ms: seq<Mapping>, b: BasicBlock) {
    b.start < U64 && b.end < U64 && Lookup(ms, b.start).Some?
  }

  ghost predicate Fits(ms: seq<Mapping>, b: BasicBlock) {
    InModule(ms, b) && BlockFits(Lookup(ms, b.start).value, b)
  }

  lemma {:induction false} ModuleOfMapping(ms: seq<Mapping>, m: Mapping)
    requires m in ms && UniqueIds(ms)
    ensures ModuleById(ModuleEntries(ms), m.id) == Some(EntryOf(m))
  {
    var es := ModuleEntries(ms);
    var i :| 0 <= i < |ms| && ms[i] == m;
    assert es[i] == EntryOf(m);
    var r := ModuleById(es, m.id);
    assert r.Some?;
    var j :| 0 <= j < |es| && es[j] == r.value;
    assert es[j] == EntryOf(ms[j]);
    assert i == j;
  }

  /** Encoding a block and resolving the entry gives the block back if and only if it fits. */
  lemma EncodeResolveIff(ms: seq<Mapping>, b: BasicBlock)
    requires UniqueIds(ms) && InModule(ms, b)
    ensures Resolve(ModuleEntries(ms), Encode(Lookup(ms, b.start).value, b)) == Some(b) <==> Fits(ms, b)
  {
    var m := Lookup(ms, b.start).value;
    ModuleOfMapping(ms, m);
    hide ModuleById, ModuleEntries, Lookup;
    OffsetIff(m.start, b.start);
    if b.start - m.start < U32 {
      SizeIff(b.start, b.end);
    }
  }

  lemma OffsetIff(base: nat, start: nat)
    requires base <= start < U64
    ensures (base + (start - base) % U32) % U64 == start <==> start - base < U32
  {
  }

  lemma SizeIff(start: nat, end: nat)
    requires start < U64 && end < U64
    ensures (start + (end - start) % U16) % U64 == end <==> (end - start) % U64 < U16
  {
    if start <= end {
      SizeForward(start, end - start);
    } else {
      SizeWrapped(start, end);
    }
  }

  lemma SizeForward(start: nat, d: nat)
    requires start + d < U64
    ensures d % U64 == d
    ensures (start + d % U16) % U64 == start + d <==> d < U16
  {
  }

  lemma SizeWrapped(start: nat, end: nat)
    requires end < start < U64
    ensures (end - start) % U64 == end - start + U64
    ensures (start + (end - start) % U16) % U64 == end <==> end - start + U64 < U16
  {
    var d := end - start + U64;
    assert U64 == U16 * 0x1_0000_0000_0000;
    assert (end - start) % U16 == d % U16;
    assert start + d == end + U64;
  }

  /** Every block begins in a module, so that the writer does not panic. */
  ghost predicate AllInModules(ms: seq<Mapping>, bs: seq<BasicBlock>) {
    forall i :: 0 <= i < |bs| ==> InModule(ms, bs[i])
  }

  ghost predicate AllFit(ms: seq<Mapping>, bs: seq<BasicBlock>) {
    forall i :: 0 <= i < |bs| ==> Fits(ms, bs[i])
  }

  /** The writer panics exactly when some block begins outside all modules. */
  lemma {:induction false} EntriesIff(ms: seq<Mapping>, bs: seq<BasicBlock>)
    requires forall i :: 0 <= i < |bs| ==> bs[i].start < U64 && bs[i].end < U64
    ensures BlockEntries(ms, bs).Ok? <==> AllInModules(ms, bs)
  {
    if bs != [] {
      EntriesIff(ms, bs[1..]);
      hide Lookup;
      assert AllInModules(ms, bs) <==> InModule(ms, bs[0]) && AllInModules(ms, bs[1..]) by {
        SplitAll(ms, bs);
      }
    }
  }

  lemma SplitAll(ms: seq<Mapping>, bs: seq<BasicBlock>)
    requires bs != []
    ensures AllInModules(ms, bs) <==> InModule(ms, bs[0]) && AllInModules(ms, bs[1..])
    ensures AllFit(ms, bs) <==> Fits(ms, bs[0]) && AllFit(ms, bs[1..])
  {
    assert forall i :: 0 < i < |bs| ==> bs[1..][i - 1] == bs[i];
  }

  /** Every entry the writer makes fits the widths of its fields. */
  lemma {:induction false} EntriesFit(ms: seq<Mapping>, bs: seq<BasicBlock>)
    requires forall i :: 0 <= i < |ms| ==> ms[i].id < U16
    requires BlockEntries(ms, bs).Ok?
    ensures forall i :: 0 <= i < |BlockEntries(ms, bs).value| ==> BlockEntryFits(BlockEntries(ms, bs).value[i])
  {
    if bs != [] {
      EntriesFit(ms, bs[1..]);
    }
  }

  /** The entries resolve to the written blocks, in order, if and only if every block fits. */
  lemma {:induction false} EntriesResolveIff(ms: seq<Mapping>, bs: seq<BasicBlock>)
    requires UniqueIds(ms) && AllInModules(ms, bs)
    ensures BlockEntries(ms, bs).Ok?
    ensures |Resolved(ModuleEntries(ms), BlockEntries(ms, bs).value)| == |bs|
    ensures Resolved(ModuleEntries(ms), BlockEntries(ms, bs).value) == bs <==> AllFit(ms, bs)
  {
    if bs != [] {
      SplitAll(ms, bs);
      EntriesResolveIff(ms, bs[1..]);
      EncodeResolveIff(ms, bs[0]);
      var m := Lookup(ms, bs[0].start).value;
      ModuleOfMapping(ms, m);
      hide Lookup, ModuleEntries, ModuleById, Fits, AllFit, AllInModules, UniqueIds;
      var e, tail := Encode(m, bs[0]), BlockEntries(ms, bs[1..]).value;
      assert BlockEntries(ms, bs).value == [e] + tail && ([e] + tail)[1..] == tail;
      ConsEqual(Resolve(ModuleEntries(ms), e).value, Resolved(ModuleEntries(ms), tail), bs);
    }
  }

  lemma ConsEqual(b: BasicBlock, tail: seq<BasicBlock>, bs: seq<BasicBlock>)
    requires bs != []
    ensures [b] + tail == bs <==> b == bs[0] && tail == bs[1..]
  {
    assert ([b] + tail)[1..] == tail;
    assert [bs[0]] + bs[1..] == bs;
  }

  /** What a caller of the writer provides: 64-bit ranges with unique ids, and blocks inside them. */
  ghost predicate WriterOk(ms: seq<Mapping>, bs: seq<BasicBlock>) {
    && UniqueIds(ms) && |ms| < U64 && |bs| < U64
    && (forall i :: 0 <= i < |ms| ==> MappingWritable(ms[i]))
    && AllInModules(ms, bs)
  }

  ghost predicate MappingPathsOk(ms: seq<Mapping>) {
    forall i :: 0 <= i < |ms| ==> '\n' !in ms[i].path && PathOk(ms[i].path)
  }

  /** `to_reader` gives the contents that writing and reading give, if and only if all paths are well-behaved. */
  lemma ToReaderIsWriteThenReadIff(ms: seq<Mapping>, bs: seq<BasicBlock>)
    requires WriterOk(ms, bs)
    ensures BlockEntries(ms, bs).Ok? && Written(ms, bs).Ok?
    ensures Parsed(Written(ms, bs).value) == Ok(Contents(ModuleEntries(ms), BlockEntries(ms, bs).value)) <==>
            MappingPathsOk(ms)
  {
    EntriesResolveIff(ms, bs);
    EntriesPerBlock(ms, bs);
    EntriesFit(ms, bs);
    var c := Contents(ModuleEntries(ms), BlockEntries(ms, bs).value);
    WrittenModules(ms);
    hide Printed, Parsed, BlockEntries, Resolved, AllFit, PathOk, SingleLines, PathsOk, MappingPathsOk, ModuleEntries,
         ModuleEntryFits, BlockEntryFits, UniqueIds, AllInModules, MappingWritable;
    FileRoundTripIff(c);
  }

  lemma WrittenModules(ms: seq<Mapping>)
    requires forall i :: 0 <= i < |ms| ==> MappingWritable(ms[i])
    ensures forall i :: 0 <= i < |ModuleEntries(ms)| ==> ModuleEntryFits(ModuleEntries(ms)[i])
    ensures SingleLines(ModuleEntries(ms)) && PathsOk(ModuleEntries(ms)) <==> MappingPathsOk(ms)
  {
    hide PathOk;
    var es := ModuleEntries(ms);
    forall i | 0 <= i < |es| ensures ModuleEntryFits(es[i]) && es[i].path == ms[i].path {
      assert MappingWritable(ms[i]) && es[i] == EntryOf(ms[i]);
    }
  }

  /**
    Writing blocks and reading the file gives one module for every range of the map, with its id, bounds and path;
    and the absolute blocks of the reader are the written blocks in order, if and only if every block fits.
   */
  lemma WriteReadRoundTrip(ms: seq<Mapping>, bs: seq<BasicBlock>)
    requires WriterOk(ms, bs) && MappingPathsOk(ms)
    ensures Written(ms, bs).Ok? && Parsed(Written(ms, bs).value).Ok?
    ensures var c := Parsed(Written(ms, bs).value).value;
            && |c.modules| == |ms|
            && (forall i :: 0 <= i < |ms| ==>
                  c.modules[i] == ModuleEntry(ms[i].id, ms[i].start, ms[i].end, 0, 0, 0, ms[i].path))
            && (Resolved(c.modules, c.blocks) == bs <==> AllFit(ms, bs))
  {
    hide Written, Parsed, BlockEntries, Resolved, AllFit, MappingPathsOk, ModuleEntries;
    ToReaderIsWriteThenReadIff(ms, bs);
    EntriesResolveIff(ms, bs);
    EntryOfEachRange(ms);
    hide WriterOk;
  }

  lemma EntryOfEachRange(ms: seq<Mapping>)
    ensures forall i :: 0 <= i < |ms| ==>
              ModuleEntries(ms)[i] == ModuleEntry(ms[i].id, ms[i].start, ms[i].end, 0, 0, 0, ms[i].path)
  {
  }
}
