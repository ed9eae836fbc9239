/**
  The DrCov version 2 file format: what the writer prints, what the reader accepts, and that they undo each other.

  A file is a sequence of characters; in the binary block table each character stands for one byte.
 */
module DrCovFormat {
  import opened Common
  import opened DrCovText

  const U16: nat := 0x1_0000
  const U32: nat := 0x1_0000_0000
  const U64: nat := 0x1_0000_0000_0000_0000

  /** A basic block by absolute addresses. */
  datatype BasicBlock = BasicBlock(start: nat, end: nat)

  /** A basic block relative to the base of a module. */
  datatype BlockEntry = BlockEntry(start: nat, size: nat, modId: nat)

  datatype ModuleEntry = ModuleEntry(id: nat, base: nat, end: nat, entry: nat, checksum: nat, timestamp: nat,
                                     path: string)

  /** The ways an operation can end; a panic is not an error result. */
  datatype Outcome<+T> = Ok(value: T) | Err | Panicked

  /** What a file holds. */
  datatype Contents = Contents(modules: seq<ModuleEntry>, blocks: seq<BlockEntry>)

  /** The fields fit the widths of their types. */
  predicate BlockEntryFits(b: BlockEntry) {
    b.start < U32 && b.size < U16 && b.modId < U16
  }

  predicate ModuleEntryFits(m: ModuleEntry) {
    m.id < U16 && m.base < U64 && m.end < U64 && m.entry < U64 && m.checksum < U64 && m.timestamp < U64
  }

  // ----- printing -----

  const VERSION_LINE := "DRCOV VERSION: 2"
  const FLAVOR_LINE := "DRCOV FLAVOR: libafl"
  const FLAVOR_PREFIX := "DRCOV FLAVOR:"
  const TABLE_PREFIX := "Module Table: version 2, count "
  const COLUMNS_LINE := "Columns: id, base, end" + (", entry, checksum" + ", timestamp, path")
  const BLOCKS_PREFIX := "BB Table: "

  /** `to_module_line`. */
  function ToModuleLine(m: ModuleEntry): string {
    Decimal3(m.id) + ", " + (Hex(m.base) + ", " + (Hex(m.end) + ", " + (Hex(m.entry) + ", " +
    (Hex(m.checksum) + ", " + (Hex(m.timestamp) + ", " + m.path)))))
  }

  function ModuleLines(ms: seq<ModuleEntry>): string {
    if ms == [] then "" else ToModuleLine(ms[0]) + "\n" + ModuleLines(ms[1..])
  }

  function ByteChar(n: nat): char {
    (n % 256) as char
  }

  /** The eight bytes of a block entry: little endian, start, size and module id. */
  function BlockBytes(b: BlockEntry): (s: string)
    ensures |s| == 8
  {
    [ByteChar(b.start), ByteChar(b.start / 256), ByteChar(b.start / 65536), ByteChar(b.start / 16777216),
     ByteChar(b.size), ByteChar(b.size / 256), ByteChar(b.modId), ByteChar(b.modId / 256)]
  }

  function BlockTable(bs: seq<BlockEntry>): string {
    if bs == [] then "" else BlockBytes(bs[0]) + BlockTable(bs[1..])
  }

  /** The whole file. */
  function Printed(c: Contents): string {
    VERSION_LINE + "\n" + (FLAVOR_LINE + "\n" +
    (TABLE_PREFIX + ToDigits(|c.modules|, 10) + "\n" + (COLUMNS_LINE + "\n" +
    (ModuleLines(c.modules) + (BLOCKS_PREFIX + ToDigits(|c.blocks|, 10) + " bbs" + "\n" + BlockTable(c.blocks))))))
  }

  // ----- parsing -----

  /** `from_str_radix(&str[2..], 16)`: slicing shorter text panics. */
  function ParseHex(s: string): Outcome<nat> {
    if |s| < 2 then Panicked
    else match ParseUnsigned(s[2..], 16, U64)
         case None => Err
         case Some(n) => Ok(n)
  }

  /** `parse_path`: trims and removes enclosing quotes; a single quote character panics. */
  function ParsePath(s: string): Outcome<string> {
    var t := Trim(s);
    if t != "" && t[0] == '"' && t[|t| - 1] == '"' then
      if |t| == 1 then Panicked else Ok(t[1..|t| - 1])
    else Ok(t)
  }

  /** A hexadecimal field of a module line; a missing field is an error. */
  function HexField(pieces: seq<string>, i: nat): Outcome<nat> {
    if i < |pieces| then ParseHex(pieces[i]) else Err
  }

  /** One line of the module table. */
  function ParseModule(line: string): Outcome<ModuleEntry> {
    var pieces := Split(line, ", ");
    match ParseUnsigned(pieces[0], 10, U16)
    case None => Err
    case Some(id) =>
      match HexField(pieces, 1)
      case Err => Err
      case Panicked => Panicked
      case Ok(base) =>
        match HexField(pieces, 2)
        case Err => Err
        case Panicked => Panicked
        case Ok(end) =>
          match HexField(pieces, 3)
          case Err => Err
          case Panicked => Panicked
          case Ok(entry) =>
            match HexField(pieces, 4)
            case Err => Err
            case Panicked => Panicked
            case Ok(checksum) =>
              match HexField(pieces, 5)
              case Err => Err
              case Panicked => Panicked
              case Ok(timestamp) =>
                if |pieces| <= 6 then Err
                else match ParsePath(pieces[6])
                     case Err => Err
                     case Panicked => Panicked
                     case Ok(path) => Ok(ModuleEntry(id, base, end, entry, checksum, timestamp, path))
  }

  /** The next `count` lines as modules, and what follows them. */
  function ParseModules(s: string, count: nat): Outcome<(seq<ModuleEntry>, string)>
    decreases count
  {
    if count == 0 then Ok(([], s))
    else
      var (line, rest) := ReadLine(s);
      match ParseModule(line)
      case Err => Err
      case Panicked => Panicked
      case Ok(m) => PrependModules([m], ParseModules(rest, count - 1))
  }

  function PrependModules(ms: seq<ModuleEntry>, r: Outcome<(seq<ModuleEntry>, string)>)
    : Outcome<(seq<ModuleEntry>, string)>
  {
    match r
    case Ok((tail, rest)) => Ok((ms + tail, rest))
    case _ => r
  }

  function CharByte(c: char): nat {
    c as nat % 256
  }

  /** `From<&[u8; 8]>`. */
  function ParseBlock(s: string): BlockEntry
    requires |s| == 8
  {
    BlockEntry(CharByte(s[0]) + 256 * CharByte(s[1]) + 65536 * CharByte(s[2]) + 16777216 * CharByte(s[3]),
               CharByte(s[4]) + 256 * CharByte(s[5]), CharByte(s[6]) + 256 * CharByte(s[7]))
  }

  /** The next `count` block entries; running out of bytes is an error. */
  function ParseBlocks(s: string, count: nat): Outcome<seq<BlockEntry>>
    decreases count
  {
    if count == 0 then Ok([])
    else if |s| < 8 then Err
    else PrependBlocks([ParseBlock(s[..8])], ParseBlocks(s[8..], count - 1))
  }

  function PrependBlocks(bs: seq<BlockEntry>, r: Outcome<seq<BlockEntry>>): Outcome<seq<BlockEntry>> {
    match r
    case Ok(tail) => Ok(bs + tail)
    case _ => r
  }

  /** The count in the header line of the module table. */
  function ParseTableHeader(line: string): Option<nat> {
    var pieces := Split(line, TABLE_PREFIX);
    if |pieces| > 1 then ParseUnsigned(Trim(pieces[1]), 10, U64) else None
  }

  /** The count in the header line of the block table. */
  function ParseBlocksHeader(line: string): Option<nat> {
    var pieces := Split(line, " ");
    if StartsWith(line, BLOCKS_PREFIX) && |pieces| > 2 then ParseUnsigned(pieces[2], 10, U64) else None
  }

  /** Skips the optional flavor line: the line of the module table header and what follows it. */
  function SkipFlavor(s: string): (string, string) {
    var (line, rest) := ReadLine(s);
    if StartsWith(ToUppercase(line), FLAVOR_PREFIX) then ReadLine(rest) else (line, rest)
  }

  /** The part of a file behind the lines of the module table header. */
  function ParseTables(s: string, count: nat): Outcome<Contents> {
    match ParseModules(s, count)
    case Err => Err
    case Panicked => Panicked
    case Ok((modules, s1)) =>
      var (line, s2) := ReadLine(s1);
      match ParseBlocksHeader(line)
      case None => Err
      case Some(n) =>
        match ParseBlocks(s2, n)
        case Ok(blocks) => Ok(Contents(modules, blocks))
        case _ => Err
  }

  /** `DrCovReader::read`. */
  function Parsed(file: string): Outcome<Contents> {
    var (version, s1) := ReadLine(file);
    if Trim(ToUppercase(version)) != VERSION_LINE then Err
    else
      var (table, s2) := SkipFlavor(s1);
      match ParseTableHeader(table)
      case None => Err
      case Some(count) =>
        var (columns, s3) := ReadLine(s2);
        if !StartsWith(columns, COLUMNS_LINE) then Err else ParseTables(s3, count)
  }

  // ----- paths -----

  /** The text is enclosed in quotes. */
  predicate Quoted(s: string) {
    s != "" && s[0] == '"' && s[|s| - 1] == '"'
  }

  /** A path that survives the module table: no field separator, no white space at its ends, no enclosing quotes. */
  predicate PathOk(path: string) {
    Find(path, ", ").None? && Trimmed(path) && !Quoted(path)
  }

  /** The path that a line ending in `path` is read as. */
  function ReadBackPath(path: string): Outcome<string> {
    ParsePath(Split(path + "\n", ", ")[0])
  }

  lemma {:induction false} FindBeforeNewline(path: string)
    requires '\n' !in path
    ensures Find(path + "\n", ", ") == Find(path, ", ")
  {
    var s := path + "\n";
    if path == "" {
      assert s[1..] == "";
    } else {
      FindBeforeNewline(path[1..]);
      assert s[1..] == path[1..] + "\n";
      SeparatorAtStart(path);
      SeparatorAtStart(s);
      assert |path| == 1 ==> s[1] == '\n';
      assert |path| > 1 ==> s[1] == path[1];
    }
  }

  lemma SeparatorAtStart(s: string)
    ensures StartsWith(s, ", ") <==> |s| >= 2 && s[0] == ',' && s[1] == ' '
  {
    if |s| >= 2 {
      assert s[..2] == [s[0], s[1]];
      assert ", " == [',', ' '];
    }
  }

  /** A path without newlines is read back unchanged if and only if it is well-behaved. */
  lemma PathRoundTripIff(path: string)
    requires '\n' !in path
    ensures ReadBackPath(path) == Ok(path) <==> PathOk(path)
  {
    FindBeforeNewline(path);
    var s := path + "\n";
    match Find(s, ", ") {
      case None =>
        assert Split(s, ", ") == [s];
        TrimNewline(path);
        TrimIsTrimmed(path);
      case Some(i) =>
        assert |Trim(s[..i])| < |path|;
    }
  }

  // ----- round trips of the parts -----

  lemma HexRoundTrip(n: nat)
    requires n < U64
    ensures ParseHex(Hex(n)) == Ok(n) && ',' !in Hex(n) && '\n' !in Hex(n)
  {
    DigitsRoundTrip(n, 16);
    UnsignedRoundTrip(n, 16, U64);
    var d := ToDigits(n, 16);
    assert Hex(n)[2..] == d;
    NotAmongDigits(d, ',');
    NotAmongDigits(d, '\n');
  }

  /** The fields behind the id, with the newline. */
  function Tail5(m: ModuleEntry): string { Hex(m.timestamp) + ", " + (m.path + "\n") }
  function Tail4(m: ModuleEntry): string { Hex(m.checksum) + ", " + Tail5(m) }
  function Tail3(m: ModuleEntry): string { Hex(m.entry) + ", " + Tail4(m) }
  function Tail2(m: ModuleEntry): string { Hex(m.end) + ", " + Tail3(m) }
  function Tail1(m: ModuleEntry): string { Hex(m.base) + ", " + Tail2(m) }

  lemma Append(a: string, b: string, c: string, b': string)
    requires b + c == b'
    ensures a + b + c == a + b'
  {
    Regroup(a, b, c);
  }

  lemma ModuleLineTails(m: ModuleEntry)
    ensures ToModuleLine(m) + "\n" == Decimal3(m.id) + ", " + Tail1(m)
  {
    hide Hex, Decimal3;
    var t5 := Hex(m.timestamp) + ", " + m.path;
    var t4 := Hex(m.checksum) + ", " + t5;
    var t3 := Hex(m.entry) + ", " + t4;
    var t2 := Hex(m.end) + ", " + t3;
    var t1 := Hex(m.base) + ", " + t2;
    Append(Hex(m.timestamp) + ", ", m.path, "\n", m.path + "\n");
    Append(Hex(m.checksum) + ", ", t5, "\n", Tail5(m));
    Append(Hex(m.entry) + ", ", t4, "\n", Tail4(m));
    Append(Hex(m.end) + ", ", t3, "\n", Tail3(m));
    Append(Hex(m.base) + ", ", t2, "\n", Tail2(m));
    Append(Decimal3(m.id) + ", ", t1, "\n", Tail1(m));
  }

  /** A printed field is split off as the first piece. */
  ghost predicate FirstPiece(line: string, field: string, rest: string) {
    |Split(line, ", ")| == |Split(rest, ", ")| + 1 && Split(line, ", ")[0] == field &&
    forall i :: 0 <= i < |Split(rest, ", ")| ==> Split(line, ", ")[i + 1] == Split(rest, ", ")[i]
  }

  lemma HexFirst(line: string, n: nat, rest: string)
    requires n < U64 && line == Hex(n) + ", " + rest
    ensures FirstPiece(line, Hex(n), rest)
  {
    HexRoundTrip(n);
    hide Hex, Split, Find;
    SplitField(Hex(n), ", ", rest);
  }

  lemma IdFirst(line: string, id: nat, rest: string)
    requires id < U16 && line == Decimal3(id) + ", " + rest
    ensures FirstPiece(line, Decimal3(id), rest)
  {
    Decimal3RoundTrip(id, U16);
    NotAmongDigits(Decimal3(id), ',');
    hide Decimal3, Split, Find;
    SplitField(Decimal3(id), ", ", rest);
  }

  /** The pieces of a module line. */
  lemma ModuleLinePieces(m: ModuleEntry)
    requires ModuleEntryFits(m)
    ensures var pieces := Split(ToModuleLine(m) + "\n", ", ");
            && |pieces| >= 7
            && pieces[0] == Decimal3(m.id) && pieces[1] == Hex(m.base) && pieces[2] == Hex(m.end)
            && pieces[3] == Hex(m.entry) && pieces[4] == Hex(m.checksum) && pieces[5] == Hex(m.timestamp)
            && pieces[6] == Split(m.path + "\n", ", ")[0]
  {
    ModuleLineTails(m);
    hide Hex, Decimal3, Split, Find, ToModuleLine;
    IdFirst(ToModuleLine(m) + "\n", m.id, Tail1(m));
    HexFirst(Tail1(m), m.base, Tail2(m));
    HexFirst(Tail2(m), m.end, Tail3(m));
    HexFirst(Tail3(m), m.entry, Tail4(m));
    HexFirst(Tail4(m), m.checksum, Tail5(m));
    HexFirst(Tail5(m), m.timestamp, m.path + "\n");
    hide Tail1, Tail2, Tail3, Tail4, Tail5;
  }

  /** A module line is read back as the module it was printed from if and only if its path is well-behaved. */
  lemma ModuleRoundTripIff(m: ModuleEntry)
    requires ModuleEntryFits(m) && '\n' !in m.path
    ensures ParseModule(ToModuleLine(m) + "\n") == Ok(m) <==> PathOk(m.path)
  {
    hide Hex, Decimal3, Split, Find, ToModuleLine, ParseHex, ParsePath, ParseUnsigned, PathOk;
    ModuleLinePieces(m);
    Decimal3RoundTrip(m.id, U16);
    HexRoundTrip(m.base);
    HexRoundTrip(m.end);
    HexRoundTrip(m.entry);
    HexRoundTrip(m.checksum);
    HexRoundTrip(m.timestamp);
    PathRoundTripIff(m.path);
  }

  lemma FieldWithoutNewline(field: string, rest: string)
    requires '\n' !in field && '\n' !in rest
    ensures '\n' !in field + ", " + rest
  {
  }

  /** A newline in a module line can only come from the path. */
  lemma NoNewlineInModuleLine(m: ModuleEntry)
    requires ModuleEntryFits(m) && '\n' !in m.path
    ensures '\n' !in ToModuleLine(m)
  {
    hide Hex, Decimal3, ParseHex, ParseUnsigned, AllDigits;
    Decimal3RoundTrip(m.id, U16);
    NotAmongDigits(Decimal3(m.id), '\n');
    HexRoundTrip(m.base);
    HexRoundTrip(m.end);
    HexRoundTrip(m.entry);
    HexRoundTrip(m.checksum);
    HexRoundTrip(m.timestamp);
    var t5 := Hex(m.timestamp) + ", " + m.path;
    var t4 := Hex(m.checksum) + ", " + t5;
    var t3 := Hex(m.entry) + ", " + t4;
    var t2 := Hex(m.end) + ", " + t3;
    var t1 := Hex(m.base) + ", " + t2;
    FieldWithoutNewline(Hex(m.timestamp), m.path);
    FieldWithoutNewline(Hex(m.checksum), t5);
    FieldWithoutNewline(Hex(m.entry), t4);
    FieldWithoutNewline(Hex(m.end), t3);
    FieldWithoutNewline(Hex(m.base), t2);
    FieldWithoutNewline(Decimal3(m.id), t1);
  }

  /** The fields fit their types and the path is one line. */
  ghost predicate ModuleWritable(m: ModuleEntry) {
    ModuleEntryFits(m) && '\n' !in m.path
  }

  ghost predicate PathsOk(ms: seq<ModuleEntry>) {
    forall i :: 0 <= i < |ms| ==> PathOk(ms[i].path)
  }

  /** A printed module table is read back if and only if all paths are well-behaved; what follows is never touched. */
  lemma {:induction false} ModulesRoundTripIff(ms: seq<ModuleEntry>, rest: string)
    requires forall i :: 0 <= i < |ms| ==> ModuleWritable(ms[i])
    ensures var r := ParseModules(ModuleLines(ms) + rest, |ms|);
            (r.Ok? ==> r.value.1 == rest) && (r == Ok((ms, rest)) <==> PathsOk(ms))
  {
    if ms == [] {
      hide ParseModules, ModuleLines;
      NoModulesRead(rest);
    } else {
      var tail := ms[1..];
      assert ModuleWritable(ms[0]) && forall i :: 0 <= i < |tail| ==> ModuleWritable(tail[i]);
      ModulesRoundTripIff(tail, rest);
      ModulesRead(ms, rest);
      ModuleRoundTripIff(ms[0]);
      hide ParseModules, ParseModule, PathsOk, PathOk, ToModuleLine, ModuleLines, ModuleWritable;
      var line, lines := ToModuleLine(ms[0]) + "\n", ModuleLines(tail);
      FirstAndTail(ParseModule(line), ParseModules(lines + rest, |tail|), ms, rest);
    }
  }

  lemma NoModulesRead(rest: string)
    ensures ParseModules(ModuleLines([]) + rest, 0) == Ok(([], rest))
  {
    assert "" + rest == rest;
  }

  lemma ModulesRead(ms: seq<ModuleEntry>, rest: string)
    requires ms != [] && ModuleWritable(ms[0])
    ensures ParseModules(ModuleLines(ms) + rest, |ms|) ==
            match ParseModule(ToModuleLine(ms[0]) + "\n")
            case Ok(first) => PrependModules([first], ParseModules(ModuleLines(ms[1..]) + rest, |ms[1..]|))
            case Err => Err
            case Panicked => Panicked
  {
    assert ModuleLines(ms) == ToModuleLine(ms[0]) + "\n" + ModuleLines(ms[1..]);
    hide *;
    FirstModuleRead(ms[0], ModuleLines(ms[1..]), rest, |ms[1..]|);
  }

  /** The first line and the others read back exactly if the whole table does. */
  lemma FirstAndTail(first: Outcome<ModuleEntry>, others: Outcome<(seq<ModuleEntry>, string)>, ms: seq<ModuleEntry>,
                     rest: string)
    requires ms != [] && (first == Ok(ms[0]) <==> PathOk(ms[0].path))
    requires (others.Ok? ==> others.value.1 == rest) && (others == Ok((ms[1..], rest)) <==> PathsOk(ms[1..]))
    ensures var r := match first
                     case Ok(m) => PrependModules([m], others)
                     case Err => Err
                     case Panicked => Panicked;
            (r.Ok? ==> r.value.1 == rest) && (r == Ok((ms, rest)) <==> PathsOk(ms))
  {
    hide PathOk;
    assert PathsOk(ms) <==> PathOk(ms[0].path) && PathsOk(ms[1..]) by {
      assert forall i :: 0 < i < |ms| ==> ms[1..][i - 1] == ms[i];
    }
    if first.Ok? {
      PrependedIs(first.value, others, ms, rest);
    }
  }

  /** A prepended result is a given table exactly if its first module and its tail are. */
  lemma PrependedIs(m: ModuleEntry, r: Outcome<(seq<ModuleEntry>, string)>, ms: seq<ModuleEntry>, rest: string)
    requires ms != []
    ensures PrependModules([m], r) == Ok((ms, rest)) <==> m == ms[0] && r == Ok((ms[1..], rest))
  {
    assert [ms[0]] + ms[1..] == ms;
    if r.Ok? {
      assert ([m] + r.value.0)[1..] == r.value.0 && ([m] + r.value.0)[0] == m;
    }
  }

  /** The first line is read as one module, whatever comes of it. */
  lemma FirstModuleRead(m: ModuleEntry, tail: string, rest: string, n: nat)
    requires ModuleWritable(m)
    ensures ParseModules(ToModuleLine(m) + "\n" + tail + rest, n + 1) ==
            match ParseModule(ToModuleLine(m) + "\n")
            case Ok(first) => PrependModules([first], ParseModules(tail + rest, n))
            case Err => Err
            case Panicked => Panicked
  {
    NoNewlineInModuleLine(m);
    hide ToModuleLine, ParseModule, ReadLine, ModuleWritable;
    var line := ToModuleLine(m);
    Regroup(line + "\n", tail, rest);
    ReadLineStops(line, tail + rest);
  }

  lemma BlockRoundTrip(b: BlockEntry)
    requires BlockEntryFits(b)
    ensures ParseBlock(BlockBytes(b)) == b
  {
    Bytes4(b.start);
    Bytes2(b.size);
    Bytes2(b.modId);
  }

  lemma ByteRoundTrip(n: nat)
    ensures CharByte(ByteChar(n)) == n % 256
  {
  }

  lemma Bytes4(n: nat)
    requires n < U32
    ensures CharByte(ByteChar(n)) + 256 * CharByte(ByteChar(n / 256)) + 65536 * CharByte(ByteChar(n / 65536)) +
            16777216 * CharByte(ByteChar(n / 16777216)) == n
  {
    hide CharByte, ByteChar;
    var n1 := n / 256;
    var n2 := n1 / 256;
    var n3 := n2 / 256;
    assert n / 65536 == n2 && n / 16777216 == n3;
    ByteRoundTrip(n);
    ByteRoundTrip(n1);
    ByteRoundTrip(n2);
    ByteRoundTrip(n3);
    assert n3 < 256;
  }

  lemma Bytes2(n: nat)
    requires n < U16
    ensures CharByte(ByteChar(n)) + 256 * CharByte(ByteChar(n / 256)) == n
  {
    ByteRoundTrip(n);
    ByteRoundTrip(n / 256);
    hide CharByte, ByteChar;
  }

  lemma {:induction false} BlocksRoundTrip(bs: seq<BlockEntry>)
    requires forall i :: 0 <= i < |bs| ==> BlockEntryFits(bs[i])
    ensures ParseBlocks(BlockTable(bs), |bs|) == Ok(bs)
  {
    if bs != [] {
      var bytes, tail := BlockBytes(bs[0]), BlockTable(bs[1..]);
      BlockRoundTrip(bs[0]);
      BlocksRoundTrip(bs[1..]);
      assert (bytes + tail)[..8] == bytes && (bytes + tail)[8..] == tail;
      hide BlockBytes, ParseBlock;
      assert [bs[0]] + bs[1..] == bs;
    }
  }

  lemma Unfielded(prefix: string, d: string)
    ensures "" + prefix + (d + "\n") == prefix + d + "\n"
  {
  }

  lemma NoNewlineInTablePrefix()
    ensures '\n' !in TABLE_PREFIX && TABLE_PREFIX != "" && TABLE_PREFIX[0] == 'M'
  {
  }

  lemma TableHeaderRoundTrip(n: nat)
    requires n < U64
    ensures ParseTableHeader(TABLE_PREFIX + ToDigits(n, 10) + "\n") == Some(n)
    ensures '\n' !in TABLE_PREFIX + ToDigits(n, 10)
  {
    hide ToDigits, ParseUnsigned, ParseDigits, Trim, Find;
    var d := ToDigits(n, 10);
    DigitsRoundTrip(n, 10);
    UnsignedRoundTrip(n, 10, U64);
    NotAmongDigits(d, '\n');
    NotAmongDigits(d, 'M');
    DigitsTrimmed(d);
    TrimLine(d);
    NoNewlineInTablePrefix();
    SplitField("", TABLE_PREFIX, d + "\n");
    Unfielded(TABLE_PREFIX, d);
    FindAbsent(d + "\n", TABLE_PREFIX);
    hide TABLE_PREFIX;
  }

  lemma BlocksHeaderRoundTrip(n: nat)
    requires n < U64
    ensures ParseBlocksHeader(BLOCKS_PREFIX + ToDigits(n, 10) + " bbs" + "\n") == Some(n)
    ensures '\n' !in BLOCKS_PREFIX + ToDigits(n, 10) + " bbs"
  {
    hide ToDigits, ParseUnsigned, ParseDigits, Split, Find;
    var d := ToDigits(n, 10);
    DigitsRoundTrip(n, 10);
    UnsignedRoundTrip(n, 10, U64);
    NotAmongDigits(d, '\n');
    NotAmongDigits(d, ' ');
    BlocksHeaderText(d);
    var line := BLOCKS_PREFIX + d + " bbs" + "\n";
    var t3 := "bbs" + "\n";
    var t2 := d + " " + t3;
    var t1 := "Table:" + " " + t2;
    SplitField("BB", " ", t1);
    SplitField("Table:", " ", t2);
    SplitField(d, " ", t3);
    assert Split(line, " ")[2] == d;
  }

  lemma BlocksHeaderText(d: string)
    requires '\n' !in d
    ensures BLOCKS_PREFIX + d + " bbs" + "\n" == "BB" + " " + ("Table:" + " " + (d + " " + ("bbs" + "\n")))
    ensures StartsWith(BLOCKS_PREFIX + d + " bbs" + "\n", BLOCKS_PREFIX)
    ensures '\n' !in BLOCKS_PREFIX + d + " bbs"
  {
    assert BLOCKS_PREFIX == "BB" + " " + ("Table:" + " ");
    assert " bbs" == " " + "bbs";
    var line := BLOCKS_PREFIX + d + " bbs" + "\n";
    assert line[..|BLOCKS_PREFIX|] == BLOCKS_PREFIX;
  }

  lemma VersionLine()
    ensures Trim(ToUppercase(VERSION_LINE + "\n")) == VERSION_LINE && '\n' !in VERSION_LINE
  {
    assert ToUppercase(VERSION_LINE + "\n") == VERSION_LINE + "\n";
    TrimLine(VERSION_LINE);
  }

  lemma FlavorLine()
    ensures StartsWith(ToUppercase(FLAVOR_LINE + "\n"), FLAVOR_PREFIX) && '\n' !in FLAVOR_LINE
  {
    assert ToUppercase(FLAVOR_LINE + "\n")[..|FLAVOR_PREFIX|] == FLAVOR_PREFIX;
  }

  lemma ColumnsLine()
    ensures StartsWith(COLUMNS_LINE + "\n", COLUMNS_LINE) && '\n' !in COLUMNS_LINE
  {
    assert (COLUMNS_LINE + "\n")[..|COLUMNS_LINE|] == COLUMNS_LINE;
    assert '\n' !in "Columns: id, base, end";
    assert '\n' !in ", entry, checksum";
    assert '\n' !in ", timestamp, path";
  }

  /** The fields of all entries fit their types. */
  ghost predicate Writable(c: Contents) {
    && |c.modules| < U64 && |c.blocks| < U64
    && (forall i :: 0 <= i < |c.modules| ==> ModuleEntryFits(c.modules[i]))
    && (forall i :: 0 <= i < |c.blocks| ==> BlockEntryFits(c.blocks[i]))
  }

  /** Every path is a single line. */
  ghost predicate SingleLines(ms: seq<ModuleEntry>) {
    forall i :: 0 <= i < |ms| ==> '\n' !in ms[i].path
  }

  /** No path that is ever read holds a newline. */
  lemma ParsedModuleIsOneLine(line: string)
    requires OneLine(line)
    ensures ParseModule(line).Ok? ==> '\n' !in ParseModule(line).value.path
  {
    var pieces := Split(line, ", ");
    PiecesAreOneLine(line, ", ");
    if ParseModule(line).Ok? {
      TrimmedIsOneLine(pieces[6]);
    }
    hide Split, Trim, OneLine;
  }

  lemma {:induction false} ParsedModulesAreSingleLines(s: string, count: nat)
    ensures ParseModules(s, count).Ok? ==> SingleLines(ParseModules(s, count).value.0)
    decreases count
  {
    hide ParseModule, ReadLine, OneLine, SingleLines, PrependModules;
    if count == 0 {
      SingleLinesOf([]);
    } else {
      var (line, rest) := ReadLine(s);
      ReadLineIsOneLine(s);
      ParsedModuleIsOneLine(line);
      ParsedModulesAreSingleLines(rest, count - 1);
      if ParseModule(line).Ok? {
        PrependedSingleLines(ParseModule(line).value, ParseModules(rest, count - 1));
      }
    }
  }

  lemma SingleLinesOf(ms: seq<ModuleEntry>)
    requires ms == []
    ensures SingleLines(ms)
  {
  }

  lemma PrependedSingleLines(m: ModuleEntry, r: Outcome<(seq<ModuleEntry>, string)>)
    requires '\n' !in m.path && (r.Ok? ==> SingleLines(r.value.0))
    ensures PrependModules([m], r).Ok? ==> SingleLines(PrependModules([m], r).value.0)
  {
  }

  lemma ParsedIsSingleLines(file: string)
    ensures Parsed(file).Ok? ==> SingleLines(Parsed(file).value.modules)
  {
    var (version, s1) := ReadLine(file);
    var (table, s2) := SkipFlavor(s1);
    var (columns, s3) := ReadLine(s2);
    if ParseTableHeader(table).Some? {
      ParsedModulesAreSingleLines(s3, ParseTableHeader(table).value);
    }
    hide ReadLine, SkipFlavor, ParseTableHeader, ParseModules, SingleLines, ParseBlocks, ParseBlocksHeader, StartsWith,
         Trim, ToUppercase;
  }

  /**
    Reading a printed file yields the printed modules and block entries if and only if all paths are single lines and
    well-behaved.
   */
  lemma FileRoundTripIff(c: Contents)
    requires Writable(c)
    ensures Parsed(Printed(c)) == Ok(c) <==> SingleLines(c.modules) && PathsOk(c.modules)
  {
    ParsedIsSingleLines(Printed(c));
    if SingleLines(c.modules) {
      PrintedLines(c);
      TablesRoundTripIff(c);
      ParsedLines(c);
    }
    hide Parsed, Printed, SingleLines, PathsOk;
  }

  /** The two tables behind the header lines. */
  function PrintedTables(c: Contents): string {
    ModuleLines(c.modules) + (BLOCKS_PREFIX + ToDigits(|c.blocks|, 10) + " bbs" + "\n" + BlockTable(c.blocks))
  }

  lemma PrintedLines(c: Contents)
    ensures Printed(c) == VERSION_LINE + "\n" + (FLAVOR_LINE + "\n" + (TABLE_PREFIX + ToDigits(|c.modules|, 10) + "\n" +
                          (COLUMNS_LINE + "\n" + PrintedTables(c))))
  {
  }

  lemma TablesRoundTripIff(c: Contents)
    requires Writable(c) && SingleLines(c.modules)
    ensures ParseTables(PrintedTables(c), |c.modules|) == Ok(c) <==> PathsOk(c.modules)
  {
    var header := BLOCKS_PREFIX + ToDigits(|c.blocks|, 10) + " bbs";
    BlocksHeaderRoundTrip(|c.blocks|);
    BlocksRoundTrip(c.blocks);
    ModulesRoundTripIff(c.modules, header + "\n" + BlockTable(c.blocks));
    ReadLineStops(header, BlockTable(c.blocks));
    hide ToDigits, ParseModules, ModuleLines, ParseBlocks, BlockTable, ParseBlocksHeader, ReadLine, PathsOk;
  }

  /** The header lines are recognised. */
  lemma ParsedLines(c: Contents)
    requires |c.modules| < U64
    requires Printed(c) ==
            VERSION_LINE + "\n" + (FLAVOR_LINE + "\n" + (TABLE_PREFIX + ToDigits(|c.modules|, 10) + "\n" +
                           (COLUMNS_LINE + "\n" + PrintedTables(c))))
    ensures Parsed(Printed(c)) == ParseTables(PrintedTables(c), |c.modules|)
  {
    var table := TABLE_PREFIX + ToDigits(|c.modules|, 10);
    VersionLine();
    FlavorLine();
    ColumnsLine();
    TableHeaderRoundTrip(|c.modules|);
    var s3 := PrintedTables(c);
    var s2 := COLUMNS_LINE + "\n" + s3;
    var s1 := table + "\n" + s2;
    hide ToDigits, Printed, PrintedTables, ParseTables, ParseTableHeader, Trim, ToUppercase, StartsWith, ReadLine;
    ReadLineStops(VERSION_LINE, FLAVOR_LINE + "\n" + s1);
    ReadLineStops(FLAVOR_LINE, s1);
    ReadLineStops(table, s2);
    ReadLineStops(COLUMNS_LINE, s3);
  }
}
