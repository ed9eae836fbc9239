/**
  What the DrCov reader makes of text that its own writer does not print: digits in upper case, other flavors, quoted
  paths, cut-off files; and one whole file, character by character.
 */
module DrCovReading {
  import opened Common
  import opened DrCovText
  import opened DrCovFormat
  import opened DrCov
  import opened DrCovMerge

  // ----- numbers -----

  /** Text is a number in a base exactly if it is not empty and all its characters are digits of the base. */
  lemma {:induction false} ParseDigitsIff(s: string, base: nat)
    requires 2 <= base <= 16
    ensures ParseDigits(s, base).Some? <==>
            s != "" && forall i :: 0 <= i < |s| ==> DigitValue(s[i]).Some? && DigitValue(s[i]).value < base
  {
    if |s| > 1 {
      ParseDigitsIff(s[..|s| - 1], base);
    }
  }

  /** The characters of the digits: 0 to 9, and a to f in either case. */
  lemma DigitCharacters(d: nat)
    requires d < 16
    ensures DigitValue("0123456789abcdef"[d]) == Some(d) && DigitValue("0123456789ABCDEF"[d]) == Some(d)
  {
  }

  /** Digits in upper case have the same value. */
  lemma {:induction false} UppercaseDigits(s: string, base: nat)
    requires 2 <= base <= 16 && AllDigits(s)
    ensures ParseDigits(ToUppercase(s), base) == ParseDigits(s, base)
  {
    hide DigitValue, UpperChar;
    if s != "" {
      var last := |s| - 1;
      UppercaseDigits(s[..last], base);
      UpperDigit(s[last]);
      assert ToUppercase(s)[..last] == ToUppercase(s[..last]);
    }
  }

  lemma UpperDigit(c: char)
    ensures DigitValue(c).Some? ==> DigitValue(UpperChar(c)) == DigitValue(c)
  {
  }

  /** A number is read in either case and with a plus sign, and refused from the bound of its type on. */
  lemma NumbersRead(n: nat, base: nat, bound: nat)
    requires 2 <= base <= 16
    ensures var expected := if n < bound then Some(n) else None;
            && ParseUnsigned(ToDigits(n, base), base, bound) == expected
            && ParseUnsigned(ToUppercase(ToDigits(n, base)), base, bound) == expected
            && ParseUnsigned("+" + ToDigits(n, base), base, bound) == expected
  {
    var s := ToDigits(n, base);
    DigitsRoundTrip(n, base);
    UppercaseDigits(s, base);
    NotAmongDigits(s, '+');
    hide ParseDigits, ToDigits, AllDigits;
    assert ToUppercase(s)[0] == UpperChar(s[0]);
    assert ("+" + s)[1..] == s;
  }

  /** The first two characters of a hexadecimal field are skipped, whatever they are; a shorter field panics. */
  lemma HexFieldRead(a: char, b: char, n: nat)
    requires n < U64
    ensures ParseHex([a, b] + ToDigits(n, 16)) == Ok(n) && ParseHex([a, b] + ToUppercase(ToDigits(n, 16))) == Ok(n)
    ensures ParseHex([a]) == Panicked && ParseHex("") == Panicked
  {
    var s := ToDigits(n, 16);
    NumbersRead(n, 16, U64);
    hide ParseUnsigned, ToDigits, ToUppercase;
    assert ([a, b] + s)[2..] == s;
    assert ([a, b] + ToUppercase(s))[2..] == ToUppercase(s);
  }

  // ----- paths -----

  /** A quoted path without newline and field separator is read without its quotes, with all that is between them. */
  lemma QuotedPathRead(path: string)
    requires '\n' !in path && Find(path, ", ").None?
    ensures ReadBackPath("\"" + path + "\"") == Ok(path)
  {
    var q := "\"" + path + "\"";
    assert q == ['"'] + path + ['"'];
    QuotedHasNoSeparator(path);
    hide Find;
    FindBeforeNewline(q);
    assert Split(q + "\n", ", ") == [q + "\n"];
    TrimLine(q);
    assert q[0] == '"' && q[|q| - 1] == '"' && q[1..|q| - 1] == path;
  }

  lemma QuotedHasNoSeparator(path: string)
    requires Find(path, ", ").None?
    ensures Find("\"" + path + "\"", ", ").None?
  {
    var q := "\"" + path + "\"";
    assert q[1..] == path + "\"";
    SeparatorAtStart(q);
    ClosedHasNoSeparator(path);
  }

  lemma {:induction false} ClosedHasNoSeparator(s: string)
    requires Find(s, ", ").None?
    ensures Find(s + "\"", ", ").None?
  {
    var t := s + "\"";
    SeparatorAtStart(t);
    SeparatorAtStart(s);
    if s == "" {
      assert t[1..] == "";
    } else {
      assert t[1..] == s[1..] + "\"";
      ClosedHasNoSeparator(s[1..]);
      assert |s| == 1 ==> t[1] == '"';
      assert |s| > 1 ==> t[1] == s[1];
    }
  }

  ghost predicate AllSpace(s: string) {
    forall i :: 0 <= i < |s| ==> IsWhitespace(s[i])
  }

  lemma {:induction false} SpaceInFront(space: string, s: string)
    requires AllSpace(space)
    ensures TrimStart(space + s) == TrimStart(s)
  {
    if space == "" {
      assert space + s == s;
    } else {
      assert (space + s)[1..] == space[1..] + s;
      SpaceInFront(space[1..], s);
    }
  }

  lemma {:induction false} SpaceBehind(s: string, space: string)
    requires AllSpace(space)
    ensures TrimEnd(s + space) == TrimEnd(s)
  {
    if space == "" {
      assert s + space == s;
    } else {
      var init := space[..|space| - 1];
      assert (s + space)[..|s + space| - 1] == s + init;
      assert (s + space)[|s + space| - 1] == space[|space| - 1];
      SpaceBehind(s, init);
    }
  }

  /** White space around trimmed text is all that trimming removes. */
  lemma OuterSpaceTrimmed(front: string, s: string, back: string)
    requires AllSpace(front) && AllSpace(back) && Trimmed(s)
    ensures Trim(front + s + back) == s
  {
    assert front + s + back == front + (s + back);
    SpaceInFront(front, s + back);
    if s == "" {
      assert s + back == back && back + "" == back;
      SpaceInFront(back, "");
    } else {
      TrimStartResult(s + back);
      SpaceBehind(s, back);
      TrimEndResult(s);
    }
  }

  /** White space around a path is ignored, as long as it makes up no field separator. */
  lemma OuterSpaceIgnored(front: string, path: string, back: string)
    requires AllSpace(front) && AllSpace(back) && PathOk(path)
    requires '\n' !in front + path + back && Find(front + path + back, ", ").None?
    ensures ReadBackPath(front + path + back) == Ok(path)
  {
    var s := front + path + back;
    FindBeforeNewline(s);
    hide Find;
    assert Split(s + "\n", ", ") == [s + "\n"];
    TrimNewline(s);
    OuterSpaceTrimmed(front, path, back);
  }

  /** A path that is a single quote character panics. */
  lemma LoneQuotePanics()
    ensures ReadBackPath("\"") == Panicked
  {
    assert Find("\"", ", ").None? by {
      FindAbsent("\"", ", ");
    }
    FindBeforeNewline("\"");
    hide Find;
    assert Split("\"" + "\n", ", ") == ["\"" + "\n"];
    TrimLine("\"");
  }

  // ----- module lines -----

  /** A printed module line with any text in place of the path is read as the module with the path read from it. */
  lemma ModuleLineRead(m: ModuleEntry)
    requires ModuleEntryFits(m)
    ensures ParseModule(ToModuleLine(m) + "\n") ==
            match ReadBackPath(m.path)
            case Ok(path) => Ok(m.(path := path))
            case Err => Err
            case Panicked => Panicked
  {
    hide Hex, Decimal3, Split, Find, ToModuleLine, ParseHex, ParsePath, ParseUnsigned;
    ModuleLinePieces(m);
    Decimal3RoundTrip(m.id, U16);
    HexRoundTrip(m.base);
    HexRoundTrip(m.end);
    HexRoundTrip(m.entry);
    HexRoundTrip(m.checksum);
    HexRoundTrip(m.timestamp);
  }

  /** A line with a quoted path is read as the module with the path between the quotes. */
  lemma QuotedModuleLineRead(m: ModuleEntry, path: string)
    requires ModuleEntryFits(m) && m.path == "\"" + path + "\"" && '\n' !in path && Find(path, ", ").None?
    ensures ParseModule(ToModuleLine(m) + "\n") == Ok(m.(path := path))
  {
    ModuleLineRead(m);
    QuotedPathRead(path);
  }

  /** A line of fewer than seven fields is never read. */
  lemma ShortModuleLine(line: string)
    requires |Split(line, ", ")| < 7
    ensures !ParseModule(line).Ok?
  {
    hide Split, ParseHex, ParseUnsigned, ParsePath;
  }

  // ----- the block table -----

  /** A block table is read exactly if there are eight bytes for every entry; each entry comes from its own eight. */
  lemma {:induction false} BlocksReadIff(s: string, count: nat)
    ensures ParseBlocks(s, count).Ok? <==> 8 * count <= |s|
    ensures ParseBlocks(s, count).Ok? ==>
              && |ParseBlocks(s, count).value| == count
              && forall i :: 0 <= i < count ==> ParseBlocks(s, count).value[i] == ParseBlock(s[8 * i..8 * i + 8])
    ensures !ParseBlocks(s, count).Panicked?
    decreases count
  {
    if count > 0 && |s| >= 8 {
      BlocksReadIff(s[8..], count - 1);
      hide ParseBlock;
      if 8 * count <= |s| {
        assert s[0..8] == s[..8];
        forall i | 0 < i < count
          ensures ParseBlocks(s, count).value[i] == ParseBlock(s[8 * i..8 * i + 8])
        {
          assert s[8..][8 * (i - 1)..8 * (i - 1) + 8] == s[8 * i..8 * i + 8];
        }
      }
    }
  }

  // ----- header lines -----

  /** What must hold of the header lines of every file that is read. */
  lemma HeadersOfReadFile(file: string)
    ensures var (version, s1) := ReadLine(file);
            var (table, s2) := SkipFlavor(s1);
            var (columns, s3) := ReadLine(s2);
            Parsed(file).Ok? ==>
              && Trim(ToUppercase(version)) == VERSION_LINE && ParseTableHeader(table).Some?
              && StartsWith(columns, COLUMNS_LINE)
              && ParseModules(s3, ParseTableHeader(table).value).Ok?
              && var line := ReadLine(ParseModules(s3, ParseTableHeader(table).value).value.1).0;
                 StartsWith(line, BLOCKS_PREFIX) && ParseBlocksHeader(line).Some?
  {
    hide ReadLine, SkipFlavor, ParseTableHeader, ParseModules, Trim, ToUppercase, ParseBlocks, Split, ParseUnsigned;
  }

  /** The part of a printed file behind the flavor line. */
  function PrintedTail(c: Contents): string {
    TABLE_PREFIX + ToDigits(|c.modules|, 10) + "\n" + (COLUMNS_LINE + "\n" + PrintedTables(c))
  }

  /** Any flavor line is skipped, in either case, and it may be missing. */
  lemma FlavorLineSkipped(c: Contents, flavor: string)
    requires |c.modules| < U64 && '\n' !in flavor && StartsWith(ToUppercase(flavor + "\n"), FLAVOR_PREFIX)
    ensures Parsed(VERSION_LINE + "\n" + (flavor + "\n" + PrintedTail(c))) == ParseTables(PrintedTables(c), |c.modules|)
    ensures Parsed(VERSION_LINE + "\n" + PrintedTail(c)) == ParseTables(PrintedTables(c), |c.modules|)
  {
    var table := TABLE_PREFIX + ToDigits(|c.modules|, 10);
    VersionLine();
    ColumnsLine();
    TableHeaderRoundTrip(|c.modules|);
    TableLineIsNoFlavor(ToDigits(|c.modules|, 10));
    var s3 := PrintedTables(c);
    var s2 := COLUMNS_LINE + "\n" + s3;
    var s1 := table + "\n" + s2;
    assert PrintedTail(c) == s1;
    hide ToDigits, PrintedTables, PrintedTail, ParseTables, ParseTableHeader, Trim, ToUppercase, StartsWith, ReadLine;
    ReadLineStops(VERSION_LINE, flavor + "\n" + s1);
    ReadLineStops(VERSION_LINE, s1);
    ReadLineStops(flavor, s1);
    ReadLineStops(table, s2);
    ReadLineStops(COLUMNS_LINE, s3);
  }

  lemma TableLineIsNoFlavor(d: string)
    ensures !StartsWith(ToUppercase(TABLE_PREFIX + d + "\n"), FLAVOR_PREFIX)
  {
    var line := TABLE_PREFIX + d + "\n";
    assert line[0] == 'M';
    FirstOfPrefix(ToUppercase(line), FLAVOR_PREFIX);
  }

  /** The version line is read in either case. */
  lemma VersionCaseIgnored()
    ensures Trim(ToUppercase("drcov version: 2" + "\n")) == VERSION_LINE
  {
    assert ToUppercase("drcov version: 2" + "\n") == VERSION_LINE + "\n";
    TrimLine(VERSION_LINE);
  }

  // ----- absolute blocks -----

  /** The block of an entry: its offset is added to the base of its module, its size to that; both wrap at 64 bits. */
  lemma ResolvedBlock(modules: seq<ModuleEntry>, e: BlockEntry, i: nat)
    requires UniqueModuleIds(modules) && i < |modules| && modules[i].id == e.modId && BlockEntryFits(e)
    ensures Resolve(modules, e).Some?
    ensures var (b, base) := (Resolve(modules, e).value, modules[i].base);
            && b.start < U64 && (b.start - base - e.start) % U64 == 0
            && b.end < U64 && (b.end - b.start - e.size) % U64 == 0
            && (base + e.start + e.size < U64 ==> b == BasicBlock(base + e.start, base + e.start + e.size))
  {
    var m := ModuleById(modules, e.modId).value;
    var j :| 0 <= j < |modules| && modules[j] == m;
    assert i == j;
  }

  // ----- what the writer leaves, read back -----

  /** Some module with the id spans the address. */
  ghost predicate ModuleSpans(modules: seq<ModuleEntry>, id: nat, addr: nat) {
    exists i :: 0 <= i < |modules| && modules[i].id == id && modules[i].base <= addr < modules[i].end
  }

  /** Some range of the module map with the id holds the address. */
  ghost predicate RangeHolds(ms: seq<Mapping>, id: nat, addr: nat) {
    exists i :: 0 <= i < |ms| && ms[i].id == id && ms[i].start <= addr < ms[i].end
  }

  /** The modules that are read back span, under each id, exactly the addresses that the map has under that id. */
  lemma ReadBackSpansMap(ms: seq<Mapping>, bs: seq<BasicBlock>, id: nat, addr: nat)
    requires WriterOk(ms, bs) && MappingPathsOk(ms)
    ensures Written(ms, bs).Ok? && Parsed(Written(ms, bs).value).Ok?
    ensures ModuleSpans(Parsed(Written(ms, bs).value).value.modules, id, addr) <==> RangeHolds(ms, id, addr)
  {
    hide Written, Parsed, WriterOk, MappingPathsOk, Resolved, AllFit, ModuleSpans, RangeHolds;
    WriteReadRoundTrip(ms, bs);
    SpansAsMap(Parsed(Written(ms, bs).value).value.modules, ms, id, addr);
  }

  lemma SpansAsMap(modules: seq<ModuleEntry>, ms: seq<Mapping>, id: nat, addr: nat)
    requires |modules| == |ms|
    requires forall i :: 0 <= i < |ms| ==>
               modules[i] == ModuleEntry(ms[i].id, ms[i].start, ms[i].end, 0, 0, 0, ms[i].path)
    ensures ModuleSpans(modules, id, addr) <==> RangeHolds(ms, id, addr)
  {
    if i :| 0 <= i < |modules| && modules[i].id == id && modules[i].base <= addr < modules[i].end {
      assert ms[i].id == id;
    }
    if i :| 0 <= i < |ms| && ms[i].id == id && ms[i].start <= addr < ms[i].end {
      assert modules[i].id == id;
    }
  }

  /** The address a block begins at lies in the module that its entry names, as the file is read back. */
  lemma EntriesNameTheirModules(ms: seq<Mapping>, bs: seq<BasicBlock>, k: nat)
    requires WriterOk(ms, bs) && MappingPathsOk(ms) && k < |bs|
    ensures Written(ms, bs).Ok? && Parsed(Written(ms, bs).value).Ok?
    ensures var c := Parsed(Written(ms, bs).value).value;
            |c.blocks| == |bs| && ModuleSpans(c.modules, c.blocks[k].modId, bs[k].start)
  {
    hide Written, Parsed, Lookup, WriterOk, MappingPathsOk, BlockEntries, ModuleEntries, Resolved, AllFit;
    ToReaderIsWriteThenReadIff(ms, bs);
    EntryAt(ms, bs, k);
    ReadBackSpansMap(ms, bs, BlockEntries(ms, bs).value[k].modId, bs[k].start);
    hide *;
  }

  /** Each entry holds the low bits of the offset of its block into its range and of the length, and the id. */
  lemma {:induction false} EntryAt(ms: seq<Mapping>, bs: seq<BasicBlock>, k: nat)
    requires BlockEntries(ms, bs).Ok? && k < |bs|
    ensures |BlockEntries(ms, bs).value| == |bs| && Lookup(ms, bs[k].start).Some?
    ensures var e, m := BlockEntries(ms, bs).value[k], Lookup(ms, bs[k].start).value;
            && m in ms && m.start <= bs[k].start < m.end && e.modId == m.id
            && (bs[k].start - m.start - e.start) % U32 == 0 && e.start < U32
            && (bs[k].end - bs[k].start - e.size) % U16 == 0 && e.size < U16
    ensures RangeHolds(ms, BlockEntries(ms, bs).value[k].modId, bs[k].start)
  {
    if k == 0 {
      EntriesPerBlock(ms, bs);
    } else {
      EntryAt(ms, bs[1..], k - 1);
    }
  }

  // ----- one file -----

  /** The file for one module and one block, character by character. */
  lemma OneFile()
    ensures Written([Mapping(0x1000, 0x2000, 1, "/bin/a")], [BasicBlock(0x1010, 0x1020)]) ==
            Ok("DRCOV VERSION: 2\n" + ("DRCOV FLAVOR: libafl\n" + ("Module Table: version 2, count 1\n" +
               ("Columns: id, base, end, entry, checksum, timestamp, path\n" +
               ("001, 0x1000, 0x2000, 0x0, 0x0, 0x0, /bin/a\n" + ("BB Table: 1 bbs\n" +
               [0x10 as char, 0 as char, 0 as char, 0 as char, 0x10 as char, 0 as char, 1 as char, 0 as char]))))))
  {
    var m, b := Mapping(0x1000, 0x2000, 1, "/bin/a"), BasicBlock(0x1010, 0x1020);
    var e, block := EntryOf(m), BlockEntry(0x10, 0x10, 1);
    OneModuleLine(e);
    OneBlock(m, b, block);
    OneHeader();
    OneTableHeader();
    OneColumnsLine();
    assert ToDigits(1, 10) == "1";
    assert ModuleEntries([m]) == [e];
    hide ToModuleLine, BlockBytes, BlockEntries, ToDigits, ModuleEntries;
    assert ModuleLines([e]) == ToModuleLine(e) + "\n";
    assert BlockTable([block]) == BlockBytes(block);
  }

  lemma OneHeader()
    ensures VERSION_LINE + "\n" == "DRCOV VERSION: 2\n"
    ensures FLAVOR_LINE + "\n" == "DRCOV FLAVOR: libafl\n"
    ensures BLOCKS_PREFIX + "1" + " bbs" + "\n" == "BB Table: 1 bbs\n"
  {
  }

  lemma OneTableHeader()
    ensures TABLE_PREFIX + "1" + "\n" == "Module Table: version 2, count 1\n"
  {
  }

  lemma OneColumnsLine()
    ensures COLUMNS_LINE + "\n" == "Columns: id, base, end, entry, checksum, timestamp, path\n"
  {
  }

  lemma OneModuleLine(e: ModuleEntry)
    requires e == ModuleEntry(1, 0x1000, 0x2000, 0, 0, 0, "/bin/a")
    ensures ToModuleLine(e) + "\n" == "001, 0x1000, 0x2000, 0x0, 0x0, 0x0, /bin/a\n"
  {
    OneLineFields();
    OneLineZeros();
    OneLineTail();
    hide Hex, Decimal3;
  }

  lemma OneLineZeros()
    ensures "0x0" + ", " + ("0x0" + ", " + ("0x0" + ", " + "/bin/a")) == "0x0, 0x0, 0x0, /bin/a"
  {
    assert "0x0" + ", " + "/bin/a" == "0x0, /bin/a";
  }

  lemma OneLineTail()
    ensures "0x1000" + ", " + ("0x2000" + ", " + "0x0, 0x0, 0x0, /bin/a") == "0x1000, 0x2000, 0x0, 0x0, 0x0, /bin/a"
  {
    OneLineEnd();
    hide *;
    assert "0x1000" + ", " + "0x2000, 0x0, 0x0, 0x0, /bin/a" == "0x1000, 0x2000, 0x0, 0x0, 0x0, /bin/a";
  }

  lemma OneLineEnd()
    ensures "0x2000" + ", " + "0x0, 0x0, 0x0, /bin/a" == "0x2000, 0x0, 0x0, 0x0, /bin/a"
  {
  }

  lemma OneLineFields()
    ensures Decimal3(1) == "001" && Hex(0) == "0x0" && Hex(0x1000) == "0x1000" && Hex(0x2000) == "0x2000"
  {
    FourDigits(1);
    FourDigits(2);
    assert ToDigits(0, 16) == "0" && ToDigits(1, 10) == "1";
    hide ToDigits;
    assert [DigitChar(1)] + "000" == "1000" && [DigitChar(2)] + "000" == "2000";
  }

  lemma FourDigits(d: nat)
    requires 0 < d < 16
    ensures ToDigits(d * 0x1000, 16) == [DigitChar(d)] + "000"
  {
    assert DigitChar(0) == '0';
    assert ToDigits(d, 16) == [DigitChar(d)];
    assert ToDigits(d * 0x10, 16) == [DigitChar(d)] + "0";
    assert ToDigits(d * 0x100, 16) == [DigitChar(d)] + "00";
  }

  lemma OneBlock(m: Mapping, b: BasicBlock, block: BlockEntry)
    requires m == Mapping(0x1000, 0x2000, 1, "/bin/a") && b == BasicBlock(0x1010, 0x1020)
    requires block == BlockEntry(0x10, 0x10, 1)
    ensures BlockEntries([m], [b]) == Ok([block])
    ensures BlockBytes(block) ==
            [0x10 as char, 0 as char, 0 as char, 0 as char, 0x10 as char, 0 as char, 1 as char, 0 as char]
  {
    assert Lookup([m], 0x1010) == Some(m);
    assert Encode(m, b) == block;
    assert [b][1..] == [] && [block] + [] == [block];
    assert BlockEntries([m], []) == Ok([]);
  }
}
