/** The DrCov reader in memory: absolute blocks, removal of duplicates, and merging two readers. */
module DrCovMerge {
  import opened Common
  import opened DrCovText
  import opened DrCovFormat
  import opened DrCov

  // ----- removing duplicates -----

  /** The elements not seen before, each where it occurs first. */
  function Unseen(es: seq<BlockEntry>, seen: set<BlockEntry>): (r: seq<BlockEntry>) {
    if es == [] then []
    else if es[0] in seen then Unseen(es[1..], seen)
    else [es[0]] + Unseen(es[1..], seen + {es[0]})
  }

  function Members(es: seq<BlockEntry>): set<BlockEntry> {
    set e | e in es
  }

  function Dedup(es: seq<BlockEntry>): seq<BlockEntry> {
    Unseen(es, {})
  }

  /** The place of the first occurrence; the length if there is none. */
  function FirstIndex(es: seq<BlockEntry>, e: BlockEntry): (i: nat)
    ensures i <= |es| && (i < |es| ==> es[i] == e) && e !in es[..i]
    ensures i < |es| <==> e in es
  {
    if es == [] then 0
    else if es[0] == e then 0
    else
      assert es[1..][..FirstIndex(es[1..], e)] == es[1..][..FirstIndex(es[1..], e)];
      1 + FirstIndex(es[1..], e)
  }

  /** `r` lists different elements of `es` in the order of their first occurrences. */
  ghost predicate InFirstOrder(r: seq<BlockEntry>, es: seq<BlockEntry>) {
    forall i, j :: 0 <= i < j < |r| ==> FirstIndex(es, r[i]) < FirstIndex(es, r[j])
  }

  lemma {:induction false} UnseenMembers(es: seq<BlockEntry>, seen: set<BlockEntry>, e: BlockEntry)
    ensures e in Unseen(es, seen) <==> e in es && e !in seen
  {
    if es != [] {
      UnseenMembers(es[1..], if es[0] in seen then seen else seen + {es[0]}, e);
    }
  }

  lemma {:induction false} UnseenInFirstOrder(es: seq<BlockEntry>, seen: set<BlockEntry>)
    ensures InFirstOrder(Unseen(es, seen), es)
  {
    if es != [] {
      var first := es[0];
      var seen' := if first in seen then seen else seen + {first};
      var tail := Unseen(es[1..], seen');
      UnseenInFirstOrder(es[1..], seen');
      forall k | 0 <= k < |tail|
        ensures tail[k] != first && FirstIndex(es, tail[k]) == 1 + FirstIndex(es[1..], tail[k])
      {
        UnseenMembers(es[1..], seen', tail[k]);
      }
    }
  }

  /** Removing duplicates keeps the first occurrence of every element, in order, and nothing else. */
  lemma DedupKeepsFirsts(es: seq<BlockEntry>)
    ensures InFirstOrder(Dedup(es), es)
    ensures forall e :: e in Dedup(es) <==> e in es
  {
    UnseenInFirstOrder(es, {});
    forall e ensures e in Dedup(es) <==> e in es {
      UnseenMembers(es, {}, e);
    }
  }

  /** These two facts determine the list. */
  lemma {:induction false} FirstOrderUnique(a: seq<BlockEntry>, b: seq<BlockEntry>, es: seq<BlockEntry>)
    requires InFirstOrder(a, es) && InFirstOrder(b, es)
    requires forall e :: e in a <==> e in b
    ensures a == b
  {
    assert a == [] || a[0] in b;
    assert b == [] || b[0] in a;
    if a != [] {
      FirstIsLeast(a, es, b[0]);
      FirstIsLeast(b, es, a[0]);
      forall e ensures e in a[1..] <==> e in b[1..] {
        TailMember(a, es, e);
        TailMember(b, es, e);
      }
      FirstOrderUnique(a[1..], b[1..], es);
      assert a == [a[0]] + a[1..] && b == [b[0]] + b[1..];
    }
  }

  lemma FirstIsLeast(a: seq<BlockEntry>, es: seq<BlockEntry>, e: BlockEntry)
    requires InFirstOrder(a, es) && e in a
    ensures e == a[0] || FirstIndex(es, a[0]) < FirstIndex(es, e)
  {
  }

  lemma TailMember(a: seq<BlockEntry>, es: seq<BlockEntry>, e: BlockEntry)
    requires InFirstOrder(a, es) && a != []
    ensures e in a[1..] <==> e in a && e != a[0]
  {
    if e in a[1..] {
      var k :| 0 <= k < |a[1..]| && a[1..][k] == e;
      assert a[k + 1] == e && FirstIndex(es, a[0]) < FirstIndex(es, a[k + 1]);
    }
  }

  lemma {:induction false} UnseenSnoc(es: seq<BlockEntry>, seen: set<BlockEntry>, e: BlockEntry)
    ensures Unseen(es + [e], seen) == Unseen(es, seen) + (if e in seen || e in es then [] else [e])
  {
    if es == [] {
      assert [] + [e] == [e] && [e][1..] == [];
    } else {
      assert (es + [e])[1..] == es[1..] + [e];
      UnseenSnoc(es[1..], if es[0] in seen then seen else seen + {es[0]}, e);
    }
  }

  lemma NoneUnseen(seen: set<BlockEntry>)
    ensures Unseen([], seen) == []
  {
  }

  lemma {:induction false} UnseenAppend(a: seq<BlockEntry>, b: seq<BlockEntry>, seen: set<BlockEntry>)
    ensures Unseen(a + b, seen) == Unseen(a, seen) + Unseen(b, seen + Members(a))
  {
    if a == [] {
      assert [] + b == b && seen + Members([]) == seen;
    } else {
      var seen' := if a[0] in seen then seen else seen + {a[0]};
      assert (a + b)[1..] == a[1..] + b;
      UnseenAppend(a[1..], b, seen');
      assert seen' + Members(a[1..]) == seen + Members(a);
    }
  }

  // ----- merging -----

  /** The modules after merging; on failure the list keeps what was added before. */
  datatype Merging = Merging(modules: seq<ModuleEntry>, ok: bool)

  /** The module loop of `merge`. */
  function MergeModules(own: seq<ModuleEntry>, other: seq<ModuleEntry>): Merging
    decreases |other|
  {
    if other == [] then Merging(own, true)
    else match ModuleById(own, other[0].id)
         case Some(m) =>
           if m.base != other[0].base || m.end != other[0].end then Merging(own, false)
           else MergeModules(own, other[1..])
         case None => MergeModules(own + [other[0]], other[1..])
  }

  /** The block entries after merging. */
  function MergeEntries(own: seq<BlockEntry>, other: seq<BlockEntry>, unique: bool): seq<BlockEntry> {
    var kept := if unique then Dedup(own) else own;
    kept + Unseen(other, Members(kept))
  }

  /** The first module with an id stays the first when more modules are appended. */
  lemma {:induction false} ModuleByIdAppend(a: seq<ModuleEntry>, b: seq<ModuleEntry>, id: nat)
    ensures ModuleById(a + b, id) == if ModuleById(a, id).Some? then ModuleById(a, id) else ModuleById(b, id)
  {
    if a == [] {
      assert [] + b == b;
    } else {
      assert (a + b)[1..] == a[1..] + b;
      ModuleByIdAppend(a[1..], b, id);
    }
  }

  /** Modules with the same id have the same range. */
  ghost predicate SameRange(m: ModuleEntry, n: ModuleEntry) {
    m.base == n.base && m.end == n.end
  }

  /** Every module of `other` has the range of the first module with its id in the two lists together. */
  ghost predicate Mergable(own: seq<ModuleEntry>, other: seq<ModuleEntry>) {
    forall i :: 0 <= i < |other| ==> FirstAgrees(own + other, other[i])
  }

  ghost predicate FirstAgrees(all: seq<ModuleEntry>, m: ModuleEntry) {
    ModuleById(all, m.id).Some? && SameRange(ModuleById(all, m.id).value, m)
  }

  /**
    Merging modules succeeds if and only if the ranges agree, only ever appends modules, and on success finds for
    every id the module that the two lists together have first.
   */
  lemma {:induction false} MergeModulesMeaning(own: seq<ModuleEntry>, other: seq<ModuleEntry>)
    ensures MergeModules(own, other).ok <==> Mergable(own, other)
    ensures |own| <= |MergeModules(own, other).modules| && MergeModules(own, other).modules[..|own|] == own
    ensures MergeModules(own, other).ok ==>
              forall id :: ModuleById(MergeModules(own, other).modules, id) == ModuleById(own + other, id)
    decreases |other|
  {
    if other == [] {
      assert own + [] == own;
    } else {
      var m, tail := other[0], other[1..];
      assert own + other == own + [m] + tail;
      match ModuleById(own, m.id)
      case Some(n) =>
        KnownModule(own, other);
        if SameRange(n, m) {
          MergeModulesMeaning(own, tail);
        }
      case None =>
        MergeModulesMeaning(own + [m], tail);
        NewModule(own, other);
    }
  }

  // ----- which modules are appended -----

  /** The place of the first module with an id; the length if there is none. */
  function IdIndex(ms: seq<ModuleEntry>, id: nat): (i: nat)
    ensures i <= |ms| && (i < |ms| ==> ms[i].id == id) && forall j :: 0 <= j < i ==> ms[j].id != id
  {
    if ms == [] then 0 else if ms[0].id == id then 0 else 1 + IdIndex(ms[1..], id)
  }

  /** The module is the first one in `other` with its id, and `own` has no module with that id. */
  predicate FirstNew(m: ModuleEntry, own: seq<ModuleEntry>, other: seq<ModuleEntry>) {
    && IdIndex(own, m.id) == |own| && IdIndex(other, m.id) < |other| && m == other[IdIndex(other, m.id)]
  }

  ghost predicate HasId(ms: seq<ModuleEntry>, id: nat) {
    exists j :: 0 <= j < |ms| && ms[j].id == id
  }

  /**
    `added` lists exactly the modules of `other` that are the first there with an id that `own` does not have, in their
    order in `other`.
   */
  ghost predicate FirstNewModules(added: seq<ModuleEntry>, own: seq<ModuleEntry>, other: seq<ModuleEntry>) {
    && (forall j :: 0 <= j < |added| ==> FirstNew(added[j], own, other))
    && (forall j, k :: 0 <= j < k < |added| ==> IdIndex(other, added[j].id) < IdIndex(other, added[k].id))
    && (forall i :: 0 <= i < |other| && IdIndex(own, other[i].id) == |own| ==> HasId(added, other[i].id))
  }

  lemma {:induction false} IdIndexAppend(a: seq<ModuleEntry>, b: seq<ModuleEntry>, id: nat)
    ensures IdIndex(a + b, id) == if IdIndex(a, id) < |a| then IdIndex(a, id) else |a| + IdIndex(b, id)
  {
    if a == [] {
      assert [] + b == b;
    } else {
      assert (a + b)[1..] == a[1..] + b;
      IdIndexAppend(a[1..], b, id);
    }
  }

  lemma {:induction false} NoModuleMeansNoIndex(ms: seq<ModuleEntry>, id: nat)
    ensures ModuleById(ms, id).None? <==> IdIndex(ms, id) == |ms|
  {
    if ms != [] {
      NoModuleMeansNoIndex(ms[1..], id);
    }
  }

  /** The modules that a successful merge appends. */
  lemma {:induction false} MergeAppendsFirstNew(own: seq<ModuleEntry>, other: seq<ModuleEntry>)
    requires MergeModules(own, other).ok
    ensures |own| <= |MergeModules(own, other).modules| && MergeModules(own, other).modules[..|own|] == own
    ensures FirstNewModules(MergeModules(own, other).modules[|own|..], own, other)
    decreases |other|
  {
    if other == [] {
      assert own[|own|..] == [];
    } else {
      var m, tail := other[0], other[1..];
      assert other == [m] + tail;
      NoModuleMeansNoIndex(own, m.id);
      if ModuleById(own, m.id).Some? {
        assert MergeModules(own, other) == MergeModules(own, tail);
        hide MergeModules, FirstNewModules, IdIndex, ModuleById;
        MergeAppendsFirstNew(own, tail);
        KnownFirst(MergeModules(own, tail).modules[|own|..], own, m, tail);
      } else {
        assert MergeModules(own, other) == MergeModules(own + [m], tail);
        hide MergeModules, FirstNewModules, IdIndex, ModuleById;
        MergeAppendsFirstNew(own + [m], tail);
        NewFirst(MergeModules(own + [m], tail).modules, own, m, tail);
      }
    }
  }

  lemma IndexBehindHead(m: ModuleEntry, tail: seq<ModuleEntry>, id: nat)
    ensures IdIndex([m] + tail, id) == if m.id == id then 0 else 1 + IdIndex(tail, id)
  {
    assert ([m] + tail)[1..] == tail;
  }

  /** A first new module stays one behind a module with another id. */
  lemma FirstNewBehind(x: ModuleEntry, own: seq<ModuleEntry>, m: ModuleEntry, tail: seq<ModuleEntry>)
    requires FirstNew(x, own, tail) && x.id != m.id
    ensures FirstNew(x, own, [m] + tail) && IdIndex([m] + tail, x.id) == 1 + IdIndex(tail, x.id)
  {
    IndexBehindHead(m, tail, x.id);
    hide IdIndex;
    assert ([m] + tail)[1 + IdIndex(tail, x.id)] == tail[IdIndex(tail, x.id)];
  }

  lemma KnownFirst(added: seq<ModuleEntry>, own: seq<ModuleEntry>, m: ModuleEntry, tail: seq<ModuleEntry>)
    requires FirstNewModules(added, own, tail) && IdIndex(own, m.id) < |own|
    ensures FirstNewModules(added, own, [m] + tail)
  {
    var all := [m] + tail;
    forall j | 0 <= j < |added|
      ensures FirstNew(added[j], own, all) && IdIndex(all, added[j].id) == 1 + IdIndex(tail, added[j].id)
    {
      FirstNewBehind(added[j], own, m, tail);
    }
    hide IdIndex, HasId, FirstNew;
    forall i | 0 <= i < |all| && IdIndex(own, all[i].id) == |own| ensures HasId(added, all[i].id) {
      assert i > 0 && all[i] == tail[i - 1];
    }
  }

  lemma NewFirst(merged: seq<ModuleEntry>, own: seq<ModuleEntry>, m: ModuleEntry, tail: seq<ModuleEntry>)
    requires |own| + 1 <= |merged| && merged[..|own + [m]|] == own + [m]
    requires FirstNewModules(merged[|own + [m]|..], own + [m], tail) && IdIndex(own, m.id) == |own|
    ensures merged[..|own|] == own && FirstNewModules(merged[|own|..], own, [m] + tail)
  {
    hide IdIndex, HasId, FirstNew;
    var added := merged[|own + [m]|..];
    MergedTail(merged, own, m);
    NewFirstEach(added, own, m, tail);
    NewFirstOrder(added, [m] + tail, m, tail);
    NewFirstCovers(added, own, m, tail);
    assert forall j :: 0 < j < |[m] + added| ==> ([m] + added)[j] == added[j - 1];
  }

  lemma MergedTail(merged: seq<ModuleEntry>, own: seq<ModuleEntry>, m: ModuleEntry)
    requires |own| + 1 <= |merged| && merged[..|own + [m]|] == own + [m]
    ensures merged[..|own|] == own && merged[|own|..] == [m] + merged[|own + [m]|..]
  {
    assert merged[..|own|] == (own + [m])[..|own|] == own;
    assert merged[|own|] == (own + [m])[|own|];
  }

  lemma NewFirstEach(added: seq<ModuleEntry>, own: seq<ModuleEntry>, m: ModuleEntry, tail: seq<ModuleEntry>)
    requires IdIndex(own, m.id) == |own|
    requires forall j :: 0 <= j < |added| ==> FirstNew(added[j], own + [m], tail)
    ensures var all := [m] + tail;
            && FirstNew(m, own, all) && IdIndex(all, m.id) == 0
            && forall j :: 0 <= j < |added| ==>
                             FirstNew(added[j], own, all) && IdIndex(all, added[j].id) == 1 + IdIndex(tail, added[j].id)
  {
    var all := [m] + tail;
    IndexBehindHead(m, tail, m.id);
    forall j | 0 <= j < |added|
      ensures FirstNew(added[j], own, all) && IdIndex(all, added[j].id) == 1 + IdIndex(tail, added[j].id)
    {
      IdIndexAppend(own, [m], added[j].id);
      FirstNewBehind(added[j], own, m, tail);
    }
  }

  lemma NewFirstOrder(added: seq<ModuleEntry>, all: seq<ModuleEntry>, m: ModuleEntry, tail: seq<ModuleEntry>)
    requires all == [m] + tail && IdIndex(all, m.id) == 0
    requires forall j :: 0 <= j < |added| ==> IdIndex(all, added[j].id) == 1 + IdIndex(tail, added[j].id)
    requires forall j, k :: 0 <= j < k < |added| ==> IdIndex(tail, added[j].id) < IdIndex(tail, added[k].id)
    ensures var added' := [m] + added;
            forall j, k :: 0 <= j < k < |added'| ==> IdIndex(all, added'[j].id) < IdIndex(all, added'[k].id)
  {
    hide IdIndex;
    var added' := [m] + added;
    assert forall j :: 0 < j < |added'| ==> added'[j] == added[j - 1];
  }

  lemma NewFirstCovers(added: seq<ModuleEntry>, own: seq<ModuleEntry>, m: ModuleEntry, tail: seq<ModuleEntry>)
    requires forall i :: 0 <= i < |tail| && IdIndex(own + [m], tail[i].id) == |own + [m]| ==> HasId(added, tail[i].id)
    ensures var all := [m] + tail;
            forall i :: 0 <= i < |all| && IdIndex(own, all[i].id) == |own| ==> HasId([m] + added, all[i].id)
  {
    var all := [m] + tail;
    forall i | 0 <= i < |all| && IdIndex(own, all[i].id) == |own| ensures HasId([m] + added, all[i].id) {
      if all[i].id == m.id {
        assert ([m] + added)[0].id == m.id;
      } else {
        assert all[i] == tail[i - 1];
        IdIndexAppend(own, [m], all[i].id);
        var j :| 0 <= j < |added| && added[j].id == all[i].id;
        assert ([m] + added)[j + 1].id == all[i].id;
      }
    }
  }

  ghost predicate UniqueModuleIds(ms: seq<ModuleEntry>) {
    forall i, j :: 0 <= i < j < |ms| ==> ms[i].id != ms[j].id
  }

  /** Unique ids stay unique, whether a merge succeeds or not. */
  lemma {:induction false} MergeKeepsUniqueIds(own: seq<ModuleEntry>, other: seq<ModuleEntry>)
    requires UniqueModuleIds(own)
    ensures UniqueModuleIds(MergeModules(own, other).modules)
    decreases |other|
  {
    if other != [] {
      var m, tail := other[0], other[1..];
      if ModuleById(own, m.id).None? {
        assert UniqueModuleIds(own + [m]);
        hide UniqueModuleIds;
        MergeKeepsUniqueIds(own + [m], tail);
      } else if SameRange(ModuleById(own, m.id).value, m) {
        hide UniqueModuleIds;
        MergeKeepsUniqueIds(own, tail);
      }
    }
  }

  /**
    A merge that fails leaves what the modules before the first unfitting one leave, and that module does not fit.
   */
  lemma {:induction false} FailedMergeKeepsPrefix(own: seq<ModuleEntry>, other: seq<ModuleEntry>) returns (n: nat)
    requires !MergeModules(own, other).ok
    ensures n < |other| && MergeModules(own, other[..n]) == Merging(MergeModules(own, other).modules, true)
    ensures var m := ModuleById(MergeModules(own, other).modules, other[n].id); m.Some? && !SameRange(m.value, other[n])
    decreases |other|
  {
    match ModuleById(own, other[0].id)
    case Some(m) =>
      if !SameRange(m, other[0]) {
        n := 0;
      } else {
        var k := FailedMergeKeepsPrefix(own, other[1..]);
        n := k + 1;
        assert other[..n][1..] == other[1..][..k] && other[..n][0] == other[0];
      }
    case None =>
      var k := FailedMergeKeepsPrefix(own + [other[0]], other[1..]);
      n := k + 1;
      assert other[..n][1..] == other[1..][..k] && other[..n][0] == other[0];
  }

  /** Without `unique` the own entries stay as they are, and the first occurrences of new other entries follow. */
  lemma PlainMergeAppends(own: seq<BlockEntry>, other: seq<BlockEntry>)
    ensures var r := MergeEntries(own, other, false);
            && |own| <= |r| && r[..|own|] == own && InFirstOrder(r[|own|..], other)
            && forall e :: e in r[|own|..] <==> e in other && e !in own
  {
    var fresh' := Unseen(other, Members(own));
    var r := MergeEntries(own, other, false);
    assert r[..|own|] == own && r[|own|..] == fresh';
    UnseenInFirstOrder(other, Members(own));
    forall e ensures e in fresh' <==> e in other && e !in own {
      UnseenMembers(other, Members(own), e);
    }
  }

  /** A module with a known id never becomes the first with its id. */
  lemma KnownModule(own: seq<ModuleEntry>, other: seq<ModuleEntry>)
    requires other != [] && ModuleById(own, other[0].id).Some?
    ensures forall id :: ModuleById(own + other, id) == ModuleById(own + other[1..], id)
    ensures Mergable(own, other) <==>
            SameRange(ModuleById(own, other[0].id).value, other[0]) && Mergable(own, other[1..])
  {
    var m, tail := other[0], other[1..];
    forall id ensures ModuleById(own + other, id) == ModuleById(own + tail, id) {
      ModuleByIdAppend(own, other, id);
      ModuleByIdAppend(own, tail, id);
    }
    ModuleByIdAppend(own, other, m.id);
    hide ModuleById, SameRange;
    assert forall i :: 0 < i < |other| ==> tail[i - 1] == other[i];
    assert forall n :: FirstAgrees(own + other, n) <==> FirstAgrees(own + tail, n);
  }

  lemma NewModule(own: seq<ModuleEntry>, other: seq<ModuleEntry>)
    requires other != [] && ModuleById(own, other[0].id).None?
    ensures own + [other[0]] + other[1..] == own + other
    ensures Mergable(own, other) <==> Mergable(own + [other[0]], other[1..])
  {
    var m, tail := other[0], other[1..];
    assert own + [m] + tail == own + other;
    ModuleByIdAppend(own, other, m.id);
    assert FirstAgrees(own + other, m);
    hide FirstAgrees, ModuleById;
    assert forall i :: 0 < i < |other| ==> tail[i - 1] == other[i];
  }

  lemma BothKnow(own: seq<ModuleEntry>, other: seq<ModuleEntry>, id: nat)
    requires Mergable(own, other) && ModuleById(own, id).Some? && ModuleById(other, id).Some?
    ensures SameRange(ModuleById(own, id).value, ModuleById(other, id).value)
  {
    ModuleByIdAppend(own, other, id);
    var n := ModuleById(other, id).value;
    var i :| 0 <= i < |other| && other[i] == n;
    hide ModuleById, Mergable;
    AgreesAt(own, other, i);
  }

  /** The block of an entry after merging: resolved by its own modules first, otherwise by the other ones. */
  lemma MergedResolve(own: seq<ModuleEntry>, other: seq<ModuleEntry>, e: BlockEntry)
    requires MergeModules(own, other).ok
    ensures Resolve(MergeModules(own, other).modules, e) ==
            if Resolve(own, e).Some? then Resolve(own, e) else Resolve(other, e)
    ensures Resolve(own, e).Some? && Resolve(other, e).Some? ==> Resolve(own, e) == Resolve(other, e)
  {
    hide ModuleById, MergeModules, Mergable;
    MergeModulesMeaning(own, other);
    ModuleByIdAppend(own, other, e.modId);
    if ModuleById(own, e.modId).Some? && ModuleById(other, e.modId).Some? {
      BothKnow(own, other, e.modId);
    }
  }

  lemma AgreesAt(own: seq<ModuleEntry>, other: seq<ModuleEntry>, i: nat)
    requires Mergable(own, other) && i < |other|
    ensures FirstAgrees(own + other, other[i])
  {
  }

  /** Merging keeps exactly the entries of both readers. */
  lemma MergeEntriesMembers(own: seq<BlockEntry>, other: seq<BlockEntry>, unique: bool, e: BlockEntry)
    ensures e in MergeEntries(own, other, unique) <==> e in own || e in other
  {
    DedupKeepsFirsts(own);
    var kept := if unique then Dedup(own) else own;
    UnseenMembers(other, Members(kept), e);
  }

  /** With `unique` the result has no duplicates and lists first occurrences, own entries before other ones. */
  lemma UniqueMergeIsDedup(own: seq<BlockEntry>, other: seq<BlockEntry>)
    ensures MergeEntries(own, other, true) == Dedup(own + other)
    ensures InFirstOrder(MergeEntries(own, other, true), own + other)
  {
    DedupKeepsFirsts(own);
    UnseenAppend(own, other, {});
    assert Members(Dedup(own)) == {} + Members(own);
    DedupKeepsFirsts(own + other);
  }

  /** The absolute blocks of the merged reader. */
  function AfterMerge(own: Contents, other: Contents, unique: bool): seq<BasicBlock> {
    Resolved(MergeModules(own.modules, other.modules).modules, MergeEntries(own.blocks, other.blocks, unique))
  }

  /**
    The absolute blocks after a successful merge: each entry of either reader counts with the modules of either
    reader.
   */
  lemma MergedBlocks(own: Contents, other: Contents, unique: bool, b: BasicBlock)
    requires MergeModules(own.modules, other.modules).ok
    ensures b in AfterMerge(own, other, unique) <==>
            || b in Resolved(own.modules, own.blocks) || b in Resolved(other.modules, other.blocks)
            || b in Resolved(other.modules, own.blocks) || b in Resolved(own.modules, other.blocks)
  {
    var ms, es := MergeModules(own.modules, other.modules).modules, MergeEntries(own.blocks, other.blocks, unique);
    ResolvedMembers(ms, es, b);
    ResolvedMembers(own.modules, own.blocks, b);
    ResolvedMembers(other.modules, other.blocks, b);
    ResolvedMembers(other.modules, own.blocks, b);
    ResolvedMembers(own.modules, other.blocks, b);
    hide Resolve, Resolved, MergeModules, MergeEntries;
    forall e
      ensures Resolve(ms, e) == Some(b) <==> Resolve(own.modules, e) == Some(b) || Resolve(other.modules, e) == Some(b)
    {
      MergedResolve(own.modules, other.modules, e);
    }
    forall e ensures e in es <==> e in own.blocks || e in other.blocks {
      MergeEntriesMembers(own.blocks, other.blocks, unique, e);
    }
  }

  /** An entry without a module in its own reader whose id the other reader defines. */
  ghost predicate Captured(own: Contents, other: Contents, e: BlockEntry) {
    e in own.blocks && ModuleById(own.modules, e.modId).None? && ModuleById(other.modules, e.modId).Some?
  }

  ghost predicate InEither(own: Contents, other: Contents, b: BasicBlock) {
    b in Resolved(own.modules, own.blocks) || b in Resolved(other.modules, other.blocks)
  }

  /** Every captured entry gets a block that one of the readers has anyway. */
  ghost predicate CapturesHarmless(own: Contents, other: Contents) {
    && (forall e :: Captured(own, other, e) ==> InEither(own, other, Resolve(other.modules, e).value))
    && (forall e :: Captured(other, own, e) ==> InEither(own, other, Resolve(own.modules, e).value))
  }

  /** The absolute blocks after merging are the union of the blocks of both readers. */
  ghost predicate IsUnion(own: Contents, other: Contents, unique: bool) {
    forall b :: b in AfterMerge(own, other, unique) <==> InEither(own, other, b)
  }

  /** A successful merge is a union if and only if the captured entries are harmless. */
  lemma MergeIsUnionIff(own: Contents, other: Contents, unique: bool)
    requires MergeModules(own.modules, other.modules).ok
    ensures IsUnion(own, other, unique) <==> CapturesHarmless(own, other)
  {
    hide Resolve, Resolved, MergeModules, MergeEntries;
    forall b
      ensures b in AfterMerge(own, other, unique) <==>
              || InEither(own, other, b)
              || b in Resolved(other.modules, own.blocks) || b in Resolved(own.modules, other.blocks)
    {
      MergedBlocks(own, other, unique, b);
    }
    forall e | Captured(own, other, e) ensures HasBlockIn(other.modules, own.blocks, e) {
      CapturedBlock(own, other, e);
    }
    forall e | Captured(other, own, e) ensures HasBlockIn(own.modules, other.blocks, e) {
      CapturedBlock(other, own, e);
    }
    forall b
      ensures b in Resolved(other.modules, own.blocks) ==>
                InEither(own, other, b) || exists e :: Captured(own, other, e) && Resolve(other.modules, e) == Some(b)
    {
      ForeignBlock(own, other, b);
    }
    forall b
      ensures b in Resolved(own.modules, other.blocks) ==>
                InEither(own, other, b) || exists e :: Captured(other, own, e) && Resolve(own.modules, e) == Some(b)
    {
      ForeignBlock(other, own, b);
    }
  }

  /** The entry has a block, which is among those of the entries. */
  ghost predicate HasBlockIn(modules: seq<ModuleEntry>, es: seq<BlockEntry>, e: BlockEntry) {
    Resolve(modules, e).Some? && Resolve(modules, e).value in Resolved(modules, es)
  }

  lemma CapturedBlock(own: Contents, other: Contents, e: BlockEntry)
    requires Captured(own, other, e)
    ensures HasBlockIn(other.modules, own.blocks, e)
  {
    ResolvedMembers(other.modules, own.blocks, Resolve(other.modules, e).value);
  }

  /** A block that entries get from the other modules is one of their own or that of a captured entry. */
  lemma ForeignBlock(own: Contents, other: Contents, b: BasicBlock)
    requires MergeModules(own.modules, other.modules).ok || MergeModules(other.modules, own.modules).ok
    ensures b in Resolved(other.modules, own.blocks) ==>
            || b in Resolved(own.modules, own.blocks)
            || exists e :: Captured(own, other, e) && Resolve(other.modules, e) == Some(b)
  {
    ResolvedMembers(own.modules, own.blocks, b);
    ResolvedMembers(other.modules, own.blocks, b);
    hide Resolved, MergeModules;
    if e :| e in own.blocks && Resolve(other.modules, e) == Some(b) {
      if MergeModules(own.modules, other.modules).ok {
        MergedResolve(own.modules, other.modules, e);
      } else {
        MergedResolve(other.modules, own.modules, e);
      }
      assert Captured(own, other, e) || Resolve(own.modules, e) == Some(b);
    }
  }

  /** Entries that all name their own modules are never captured. */
  lemma MergeOfClosedReaders(own: Contents, other: Contents, unique: bool)
    requires MergeModules(own.modules, other.modules).ok
    requires forall e :: e in own.blocks ==> ModuleById(own.modules, e.modId).Some?
    requires forall e :: e in other.blocks ==> ModuleById(other.modules, e.modId).Some?
    ensures IsUnion(own, other, unique)
  {
    MergeIsUnionIff(own, other, unique);
  }

  /** A captured entry can make up a block, so the condition of the union is needed. */
  lemma CapturedEntryAddsABlock()
    ensures exists own: Contents, other: Contents ::
            MergeModules(own.modules, other.modules).ok && !IsUnion(own, other, true)
  {
    var own := Contents([], [BlockEntry(0, 4, 1)]);
    var other := Contents([ModuleEntry(1, 16, 32, 0, 0, 0, "")], []);
    assert Captured(own, other, own.blocks[0]);
    assert Resolve(other.modules, own.blocks[0]) == Some(BasicBlock(16, 20));
    assert !InEither(own, other, BasicBlock(16, 20));
    MergeIsUnionIff(own, other, true);
  }

  // ----- the class -----

  class DrCovReader {
    var moduleEntries: seq<ModuleEntry>
    var basicBlockEntries: seq<BlockEntry>

    /** `from_data`. */
    constructor (modules: seq<ModuleEntry>, basicBlocks: seq<BlockEntry>)
      ensures View() == Contents(modules, basicBlocks)
    {
      moduleEntries, basicBlockEntries := modules, basicBlocks;
    }

    ghost function View(): Contents
      reads this
    {
      Contents(moduleEntries, basicBlockEntries)
    }

    method BasicBlocks() returns (ret: seq<BasicBlock>)
      ensures ret == Resolved(moduleEntries, basicBlockEntries)
    {
      ret := [];
      for i := 0 to |basicBlockEntries|
        invariant ret == Resolved(moduleEntries, basicBlockEntries[..i])
      {
        var entry := basicBlockEntries[i];
        assert basicBlockEntries[..i + 1] == basicBlockEntries[..i] + [entry];
        ResolvedSnoc(moduleEntries, basicBlockEntries[..i], entry);
        match Resolve(moduleEntries, entry)
        case Some(b) => ret := ret + [b];
        case None =>
      }
      assert basicBlockEntries[..|basicBlockEntries|] == basicBlockEntries;
    }

    method MakeUnique()
      modifies this
      ensures View() == old(View()).(blocks := Dedup(old(basicBlockEntries)))
    {
      var blocks: set<BlockEntry> := {};
      var kept: seq<BlockEntry> := [];
      for i := 0 to |basicBlockEntries|
        invariant View() == old(View())
        invariant blocks == Members(basicBlockEntries[..i]) && kept == Dedup(basicBlockEntries[..i])
      {
        var entry := basicBlockEntries[i];
        assert basicBlockEntries[..i + 1] == basicBlockEntries[..i] + [entry];
        UnseenSnoc(basicBlockEntries[..i], {}, entry);
        if entry !in blocks {
          blocks := blocks + {entry};
          kept := kept + [entry];
        }
      }
      assert basicBlockEntries[..|basicBlockEntries|] == basicBlockEntries;
      basicBlockEntries := kept;
    }

    /** Fails when a module does not fit; the module list may have grown by then. */
    method Merge(other: DrCovReader, unique: bool) returns (ok: bool)
      requires other != this
      modifies this
      ensures var m := MergeModules(old(moduleEntries), other.moduleEntries);
              && ok == m.ok && moduleEntries == m.modules
              && basicBlockEntries == if ok then MergeEntries(old(basicBlockEntries), other.basicBlockEntries, unique)
                                      else old(basicBlockEntries)
      ensures ok <==> Mergable(old(moduleEntries), other.moduleEntries)
      ensures |old(moduleEntries)| <= |moduleEntries| && moduleEntries[..|old(moduleEntries)|] == old(moduleEntries)
      ensures ok ==> FirstNewModules(moduleEntries[|old(moduleEntries)|..], old(moduleEntries), other.moduleEntries)
    {
      hide MergeModules, ModuleById, Unseen, Mergable, FirstNewModules;
      ok := MergeModuleList(other.moduleEntries);
      MergeModulesMeaning(old(moduleEntries), other.moduleEntries);
      if !ok {
        return;
      }
      MergeAppendsFirstNew(old(moduleEntries), other.moduleEntries);
      if unique {
        MakeUnique();
      }
      var kept := basicBlockEntries;
      var blocks := Members(kept);
      NoneUnseen(Members(kept));
      assert kept + [] == kept;
      for i := 0 to |other.basicBlockEntries|
        invariant moduleEntries == MergeModules(old(moduleEntries), other.moduleEntries).modules
        invariant blocks == Members(kept) + Members(other.basicBlockEntries[..i])
        invariant basicBlockEntries == kept + Unseen(other.basicBlockEntries[..i], Members(kept))
      {
        var entry := other.basicBlockEntries[i];
        assert other.basicBlockEntries[..i + 1] == other.basicBlockEntries[..i] + [entry];
        UnseenSnoc(other.basicBlockEntries[..i], Members(kept), entry);
        if entry !in blocks {
          blocks := blocks + {entry};
          basicBlockEntries := basicBlockEntries + [entry];
        }
      }
      assert other.basicBlockEntries[..|other.basicBlockEntries|] == other.basicBlockEntries;
    }

    /** The module loop of `merge`. */
    method MergeModuleList(modules: seq<ModuleEntry>) returns (ok: bool)
      modifies this
      ensures basicBlockEntries == old(basicBlockEntries)
      ensures MergeModules(old(moduleEntries), modules) == Merging(moduleEntries, ok)
    {
      for i := 0 to |modules|
        invariant basicBlockEntries == old(basicBlockEntries)
        invariant MergeModules(old(moduleEntries), modules) == MergeModules(moduleEntries, modules[i..])
      {
        assert modules[i..][0] == modules[i] && modules[i..][1..] == modules[i + 1..];
        match ModuleById(moduleEntries, modules[i].id)
        case Some(own) =>
          if own.base != modules[i].base || own.end != modules[i].end {
            return false;
          }
        case None =>
          moduleEntries := moduleEntries + [modules[i]];
      }
      ok := true;
    }
  }
}
