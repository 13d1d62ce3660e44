/** From a sampled address to an ELF address: /proc maps lines, mappings, executable ranges, load bias. */
module AddressMap {
  import opened Words
  import I = IntervalIndex

  // ----- maps lines and the mappings merged from them -----

  datatype Line = Line(start: Word, end: Word, offset: Word, exec: bool, perm: nat, path: string, deleted: bool)

  datatype Mapping = Mapping(start: Word, end: Word, offset: Word, perm: nat, path: string, deleted: bool)

  /** `addr` lies in [start, end) and is byte `fileOffset` of the file mapped there. */
  predicate Backs(start: Word, end: Word, offset: Word, addr: Word, fileOffset: int) {
    start <= addr < end && fileOffset == offset + (addr - start)
  }

  ghost predicate LineBacks(l: Line, addr: Word, path: string, fileOffset: int) {
    l.exec && l.path == path && Backs(l.start, l.end, l.offset, addr, fileOffset)
  }

  ghost predicate MappingBacks(m: Mapping, addr: Word, path: string, fileOffset: int) {
    m.path == path && Backs(m.start, m.end, m.offset, addr, fileOffset)
  }

  ghost predicate LinesBack(lines: seq<Line>, addr: Word, path: string, fileOffset: int) {
    exists i :: 0 <= i < |lines| && LineBacks(lines[i], addr, path, fileOffset)
  }

  ghost predicate MappingsBack(maps: seq<Mapping>, addr: Word, path: string, fileOffset: int) {
    exists i :: 0 <= i < |maps| && MappingBacks(maps[i], addr, path, fileOffset)
  }

  predicate Adjacent(prev: Mapping, l: Line) {
    var size := Sub(prev.end, prev.start);
    && prev.end == l.start
    && prev.offset <= TWO64 - 1 - size && prev.offset + size == l.offset
    && prev.perm == l.perm && prev.path == l.path
  }

  function ToMapping(l: Line): Mapping {
    Mapping(l.start, l.end, l.offset, l.perm, l.path, l.deleted)
  }

  /** The mappings after one more line. */
  function AddLine(maps: seq<Mapping>, l: Line): seq<Mapping> {
    var n := |maps|;
    if !l.exec then maps
    else if n >= 1 && Adjacent(maps[n - 1], l) then maps[..n - 1] + [maps[n - 1].(end := l.end)]
    else maps + [ToMapping(l)]
  }

  function Merge(lines: seq<Line>): seq<Mapping> {
    if lines == [] then [] else AddLine(Merge(lines[..|lines| - 1]), lines[|lines| - 1])
  }

  /** The loop of `gu_get_maps_info` over already parsed lines. */
  method MergeLines(lines: seq<Line>) returns (maps: seq<Mapping>)
    ensures maps == Merge(lines)
  {
    hide Adjacent;
    maps := [];
    for i := 0 to |lines|
      invariant maps == Merge(lines[..i])
    {
      var l := lines[i];
      assert lines[..i + 1][..i] == lines[..i];
      if !l.exec {
        continue;
      }
      var n := |maps|;
      if n >= 1 && Adjacent(maps[n - 1], l) {
        maps := maps[..n - 1] + [maps[n - 1].(end := l.end)];
        continue;
      }
      maps := maps + [ToMapping(l)];
    }
    assert lines[..|lines|] == lines;
  }

  ghost predicate Ordered(lines: seq<Line>) {
    && (forall i :: 0 <= i < |lines| ==> lines[i].start < lines[i].end)
    && (forall i, j :: 0 <= i < j < |lines| ==> lines[i].end <= lines[j].start)
  }

  ghost predicate OrderedMaps(maps: seq<Mapping>) {
    && (forall i :: 0 <= i < |maps| ==> maps[i].start < maps[i].end)
    && (forall i, j :: 0 <= i < j < |maps| ==> maps[i].end <= maps[j].start)
  }

  ghost predicate AllUpTo(maps: seq<Mapping>, limit: Word) {
    forall i :: 0 <= i < |maps| ==> maps[i].end <= limit
  }

  lemma AddLineOrdered(maps: seq<Mapping>, l: Line)
    requires OrderedMaps(maps) && AllUpTo(maps, l.start) && l.start < l.end
    ensures OrderedMaps(AddLine(maps, l)) && AllUpTo(AddLine(maps, l), l.end)
  {
    var n, after := |maps|, AddLine(maps, l);
    if l.exec && n >= 1 && Adjacent(maps[n - 1], l) {
      assert forall i :: 0 <= i < n - 1 ==> after[i] == maps[i];
    }
  }

  lemma {:induction false} MergeOrdered(lines: seq<Line>)
    requires Ordered(lines)
    ensures OrderedMaps(Merge(lines))
    ensures lines == [] ==> Merge(lines) == []
    ensures lines != [] ==> AllUpTo(Merge(lines), lines[|lines| - 1].end)
  {
    hide AddLine;
    if lines != [] {
      var n := |lines| - 1;
      MergeOrdered(lines[..n]);
      assert AllUpTo(Merge(lines[..n]), lines[n].start);
      AddLineOrdered(Merge(lines[..n]), lines[n]);
    }
  }

  /** Two mappings that are one: addresses and file bytes meet, with the same permissions and file. */
  predicate Continues(a: Mapping, b: Mapping) {
    a.end == b.start && a.offset + (a.end - a.start) == b.offset && a.perm == b.perm && a.path == b.path
  }

  ghost predicate Maximal(maps: seq<Mapping>) {
    forall i :: 0 < i < |maps| ==> !Continues(maps[i - 1], maps[i])
  }

  lemma AddLineMaximal(maps: seq<Mapping>, l: Line)
    requires Maximal(maps) && OrderedMaps(maps)
    ensures Maximal(AddLine(maps, l))
  {
    var n, after := |maps|, AddLine(maps, l);
    forall i | 0 < i < |after| ensures !Continues(after[i - 1], after[i]) {
      assert after[i - 1] == maps[i - 1];
      assert i < n ==> !Continues(maps[i - 1], maps[i]);
    }
  }

  /** Nothing that could be merged is left apart. */
  lemma {:induction false} MergeMaximal(lines: seq<Line>)
    requires Ordered(lines)
    ensures Maximal(Merge(lines))
  {
    hide AddLine, Maximal;
    if lines == [] {
      NoneMaximal();
    } else {
      var n := |lines| - 1;
      MergeMaximal(lines[..n]);
      MergeOrdered(lines[..n]);
      AddLineMaximal(Merge(lines[..n]), lines[n]);
    }
  }

  lemma NoneMaximal()
    ensures Maximal([])
  {
  }

  lemma SplitBacks(a: Word, b: Word, c: Word, offset: Word, next: Word, addr: Word, o: int)
    requires a <= b <= c && offset + (b - a) == next
    ensures Backs(a, c, offset, addr, o) <==> Backs(a, b, offset, addr, o) || Backs(b, c, next, addr, o)
  {}

  lemma AddLineBacks(maps: seq<Mapping>, l: Line, addr: Word, path: string, o: int)
    requires l.start <= l.end && forall i :: 0 <= i < |maps| ==> maps[i].start <= maps[i].end
    ensures MappingsBack(AddLine(maps, l), addr, path, o)
            <==> MappingsBack(maps, addr, path, o) || LineBacks(l, addr, path, o)
  {
    var n, after := |maps|, AddLine(maps, l);
    hide Backs;
    if l.exec && n >= 1 && Adjacent(maps[n - 1], l) {
      var last := maps[n - 1];
      SplitBacks(last.start, last.end, l.end, last.offset, l.offset, addr, o);
      assert MappingBacks(after[n - 1], addr, path, o)
          <==> MappingBacks(last, addr, path, o) || LineBacks(l, addr, path, o);
      assert forall i :: 0 <= i < n - 1 ==> after[i] == maps[i];
    } else if l.exec {
      assert MappingBacks(after[n], addr, path, o) <==> LineBacks(l, addr, path, o);
      assert forall i :: 0 <= i < n ==> after[i] == maps[i];
    }
  }

  lemma LinesBackLast(lines: seq<Line>, addr: Word, path: string, o: int)
    requires lines != []
    ensures var n := |lines| - 1;
            LinesBack(lines, addr, path, o) <==> LinesBack(lines[..n], addr, path, o) || LineBacks(lines[n], addr, path, o)
  {
    hide LineBacks;
    var n := |lines| - 1;
    if LinesBack(lines[..n], addr, path, o) {
      var i :| 0 <= i < n && LineBacks(lines[..n][i], addr, path, o);
      assert LineBacks(lines[i], addr, path, o);
    }
    if i :| 0 <= i < |lines| && LineBacks(lines[i], addr, path, o) {
      if i < n {
        assert LineBacks(lines[..n][i], addr, path, o);
      }
    }
  }

  /** Merging preserves the file and the file offset behind every address. */
  lemma {:induction false} MergePreserves(lines: seq<Line>, addr: Word, path: string, o: int)
    requires forall i :: 0 <= i < |lines| ==> lines[i].start <= lines[i].end
    ensures forall i :: 0 <= i < |Merge(lines)| ==> Merge(lines)[i].start <= Merge(lines)[i].end
    ensures MappingsBack(Merge(lines), addr, path, o) <==> LinesBack(lines, addr, path, o)
  {
    hide LinesBack, MappingsBack, LineBacks;
    if lines != [] {
      var n := |lines| - 1;
      MergePreserves(lines[..n], addr, path, o);
      LinesBackLast(lines, addr, path, o);
      AddLineBacks(Merge(lines[..n]), lines[n], addr, path, o);
    } else {
      assert !LinesBack([], addr, path, o) && !MappingsBack([], addr, path, o) by { NothingBacks(addr, path, o); }
    }
  }

  lemma NothingBacks(addr: Word, path: string, o: int)
    ensures !LinesBack([], addr, path, o) && !MappingsBack([], addr, path, o)
  {}

  // ----- executable ranges of an ELF file -----

  datatype Phdr = Phdr(load: bool, exec: bool, vaddr: Word, memsz: Word, offset: Word, align: Word)

  datatype Range = Range(start: Word, end: Word, offset: Word)

  function AlignDown(value: Word, align: Word): Word {
    if align == 0 then value else value - value % align
  }

  function AlignUp(value: Word, align: Word): Word {
    if align == 0 || value % align == 0 then value else Add(value, align - value % align)
  }

  function RangeOf(p: Phdr): Option<Range> {
    var start := AlignDown(p.vaddr, p.align);
    var end := AlignUp(Add(p.vaddr, p.memsz), p.align);
    if !p.load || !p.exec || p.memsz == 0 || end <= start then None
    else Some(Range(start, end, AlignDown(p.offset, p.align)))
  }

  ghost predicate FromHeaders(ranges: seq<Range>, phdrs: seq<Phdr>) {
    && (forall i :: 0 <= i < |ranges| ==> Known(ranges[i], phdrs))
    && (forall p :: p in phdrs && RangeOf(p).Some? ==> RangeOf(p).value in ranges)
  }

  ghost predicate Known(r: Range, phdrs: seq<Phdr>) {
    exists p :: p in phdrs && RangeOf(p) == Some(r)
  }

  /** The executable ranges, in the order of their program headers. */
  function Ranges(phdrs: seq<Phdr>): seq<Range> {
    if phdrs == [] then []
    else
      var n := |phdrs| - 1;
      match RangeOf(phdrs[n])
      case None => Ranges(phdrs[..n])
      case Some(r) => Ranges(phdrs[..n]) + [r]
  }

  method LoadRanges(phdrs: seq<Phdr>) returns (ranges: seq<Range>)
    ensures ranges == Ranges(phdrs)
  {
    hide RangeOf;
    ranges := [];
    for i := 0 to |phdrs|
      invariant ranges == Ranges(phdrs[..i])
    {
      var r := RangeOf(phdrs[i]);
      assert phdrs[..i + 1][..i] == phdrs[..i] && phdrs[..i + 1][i] == phdrs[i];
      if r != None {
        ranges := ranges + [r.value];
      }
    }
    assert phdrs[..|phdrs|] == phdrs;
  }

  /** Every executable segment has its range, and every range its segment. */
  lemma {:induction false} RangesFromHeaders(phdrs: seq<Phdr>)
    ensures FromHeaders(Ranges(phdrs), phdrs)
  {
    hide RangeOf, FromHeaders;
    if phdrs == [] {
      NoHeaders();
    } else {
      var n := |phdrs| - 1;
      RangesFromHeaders(phdrs[..n]);
      AddHeader(Ranges(phdrs[..n]), phdrs[..n], phdrs[n]);
      assert phdrs == phdrs[..n] + [phdrs[n]];
    }
  }

  lemma NoHeaders()
    ensures FromHeaders([], [])
  {
  }

  lemma AddHeader(ranges: seq<Range>, phdrs: seq<Phdr>, p: Phdr)
    requires FromHeaders(ranges, phdrs)
    ensures FromHeaders(if RangeOf(p).Some? then ranges + [RangeOf(p).value] else ranges, phdrs + [p])
  {
    hide RangeOf;
    var after := if RangeOf(p).Some? then ranges + [RangeOf(p).value] else ranges;
    forall i | 0 <= i < |after| ensures Known(after[i], phdrs + [p]) {
      if i < |ranges| {
        assert Known(ranges[i], phdrs);
      } else {
        assert p in phdrs + [p];
      }
    }
  }

  /** The file bytes [offset, offset + size) lie in the range, with no overflow on either side. */
  predicate Covers(r: Range, offset: Word, size: Word) {
    && size > 0 && offset + size < TWO64 && r.start < r.end
    && r.offset + (r.end - r.start) < TWO64
    && r.offset <= offset && offset + size <= r.offset + (r.end - r.start)
  }

  /** The address of the file bytes in the first range that covers them. */
  function MatchOffset(ranges: seq<Range>, offset: Word, size: Word): Option<Word> {
    if ranges == [] then None
    else if Covers(ranges[0], offset, size) then Some(ranges[0].start + (offset - ranges[0].offset))
    else MatchOffset(ranges[1..], offset, size)
  }

  /** A match comes from the first covering range; there is none exactly when no range covers the bytes. */
  lemma {:induction false} MatchExact(ranges: seq<Range>, offset: Word, size: Word) returns (k: nat)
    ensures k <= |ranges| && forall i :: 0 <= i < k ==> !Covers(ranges[i], offset, size)
    ensures MatchOffset(ranges, offset, size) == None <==> k == |ranges|
    ensures k < |ranges| ==>
              Covers(ranges[k], offset, size)
              && MatchOffset(ranges, offset, size) == Some(ranges[k].start + (offset - ranges[k].offset))
  {
    if ranges == [] || Covers(ranges[0], offset, size) {
      k := 0;
    } else {
      var rest := MatchExact(ranges[1..], offset, size);
      k := rest + 1;
    }
  }

  method FindByOffset(ranges: seq<Range>, offset: Word, size: Word) returns (virt: Option<Word>)
    ensures virt == MatchOffset(ranges, offset, size)
  {
    ghost var first := MatchExact(ranges, offset, size);
    if size == 0 || offset > TWO64 - 1 - size {
      return None;
    }
    var endOffset := offset + size;
    for i := 0 to |ranges|
      invariant i <= first
    {
      var r := ranges[i];
      if r.end <= r.start {
        continue;
      }
      var rangeSize := r.end - r.start;
      if r.offset > TWO64 - 1 - rangeSize {
        continue;
      }
      if offset >= r.offset && endOffset <= r.offset + rangeSize {
        assert Covers(ranges[i], offset, size);
        return Some(r.start + (offset - r.offset));
      }
    }
    return None;
  }

  // ----- load bias -----

  /** `gu_alloc_elf_map_ctx`: a matched address of zero is taken for no match. */
  function ChosenAddress(matched: Option<Word>, first: Word): Word {
    if matched.Some? && matched.value != 0 then matched.value else first
  }

  /** The ELF address of `pc` in a mapping that starts at `start` and holds ELF address `virt` there. */
  function RelativePc(start: Word, virt: Word, pc: Word): Word {
    Sub(pc, Sub(start, virt))
  }

  /** `gu_elf_exec_ranges_first_start`. */
  function FirstStart(ranges: seq<Range>): Word {
    if ranges == [] then 0 else ranges[0].start
  }

  predicate Congruent(p: Phdr) {
    p.align == 0 || p.vaddr % p.align == p.offset % p.align
  }

  /** Where the header says the byte at ELF address `addr` is stored in the file. */
  function FileOffset(p: Phdr, addr: Word): int {
    p.offset + (addr - p.vaddr)
  }

  lemma RangeKeepsOffsets(p: Phdr, r: Range)
    requires RangeOf(p) == Some(r) && Congruent(p)
    ensures p.offset - p.vaddr == r.offset - r.start
  {}

  lemma BiasCancels(start: Word, virt: Word, pc: Word)
    requires start <= pc && virt + (pc - start) < TWO64
    ensures RelativePc(start, virt, pc) == virt + (pc - start)
  {}

  /** A PC of a matched mapping translates into the range, at the same file offset. */
  lemma TranslationRight(p: Phdr, r: Range, m: Mapping, pc: Word, virt: Word)
    requires RangeOf(p) == Some(r) && Congruent(p) && m.start <= pc < m.end
    requires Covers(r, m.offset, m.end - m.start) && virt == r.start + (m.offset - r.offset)
    ensures var rel := RelativePc(m.start, virt, pc);
            r.start <= rel < r.end && FileOffset(p, rel) == m.offset + (pc - m.start)
  {
    hide RangeOf, Congruent;
    RangeKeepsOffsets(p, r);
    BiasCancels(m.start, virt, pc);
  }

  /** With the chosen address the offset comes out right exactly when the match is not mistaken for none. */
  lemma ChosenExact(p: Phdr, r: Range, m: Mapping, pc: Word, virt: Word, first: Word)
    requires RangeOf(p) == Some(r) && Congruent(p) && m.start <= pc < m.end
    requires Covers(r, m.offset, m.end - m.start) && virt == r.start + (m.offset - r.offset)
    ensures FileOffset(p, RelativePc(m.start, ChosenAddress(Some(virt), first), pc)) == m.offset + (pc - m.start)
            <==> virt != 0 || first == 0
  {
    hide RangeOf, Congruent, Covers;
    TranslationRight(p, r, m, pc, virt);
  }

  // ----- end to end -----

  function ItemOf(m: Mapping, k: nat): I.Item
    requires k < TWO64
  {
    I.Item(m.start, m.end, k)
  }

  function Items(maps: seq<Mapping>): (items: seq<I.Item>)
    requires |maps| < TWO64
    ensures |items| == |maps|
  {
    seq(|maps|, k requires 0 <= k < |maps| => ItemOf(maps[k], k))
  }

  lemma ItemsWellFormed(maps: seq<Mapping>)
    requires |maps| < TWO64 && OrderedMaps(maps)
    ensures var s := Items(maps);
            I.Sorted(s) && I.WellFormed(multiset(s)) && I.Disjoint(multiset(s)) && I.Filled(s) == s
  {
    var s := Items(maps);
    assert forall i :: 0 <= i < |s| ==> s[i].start == maps[i].start && s[i].end == maps[i].end && s[i].priv == i;
    forall i, j | 0 <= i < j < |s| ensures s[i].start <= s[j].start {
      assert maps[i].end <= maps[j].start;
    }
    assert I.Sorted(s);
    assert I.WellFormed(multiset(s)) by {
      forall x: I.Item | x in multiset(s) ensures x.end == 0 || x.start <= x.end {
        assert x in s;
      }
    }
    ItemsDisjoint(maps);
    assert forall i :: 0 <= i < |s| ==> I.FilledAt(s, i) == s[i];
  }

  lemma ItemsDisjoint(maps: seq<Mapping>)
    requires |maps| < TWO64 && OrderedMaps(maps)
    ensures I.Disjoint(multiset(Items(maps)))
  {
    var s := Items(maps);
    forall x: I.Item, y: I.Item | x in multiset(s) && y in multiset(s) && (x != y || multiset(s)[x] > 1)
                                  && x.start <= y.start
      ensures x.end == 0 || x.end <= y.start
    {
      hide OrderedMaps, Items;
      assert x in s && y in s;
      var i, j :| 0 <= i < |s| && 0 <= j < |s| && s[i] == x && s[j] == y;
      if i == j {
        ItemNumbers(maps);
        OnlyOnce(s, i);
      } else {
        ItemsApart(maps, i, j);
      }
    }
  }

  lemma ItemNumbers(maps: seq<Mapping>)
    requires |maps| < TWO64
    ensures forall k :: 0 <= k < |maps| ==> Items(maps)[k].priv == k
  {}

  lemma ItemsApart(maps: seq<Mapping>, i: nat, j: nat)
    requires |maps| < TWO64 && OrderedMaps(maps) && i < |maps| && j < |maps| && i != j
    requires Items(maps)[i].start <= Items(maps)[j].start
    ensures Items(maps)[i].end <= Items(maps)[j].start
  {}

  lemma OnlyOnce(s: seq<I.Item>, i: nat)
    requires i < |s| && forall k :: 0 <= k < |s| ==> s[k].priv == k
    ensures multiset(s)[s[i]] == 1
  {
    assert s == s[..i] + [s[i]] + s[i + 1..];
    assert s[i] !in s[..i] && s[i] !in s[i + 1..];
  }

  ghost predicate Rising(s: seq<I.Item>) {
    forall i, j :: 0 <= i < j < |s| ==> s[i].start < s[j].start
  }

  lemma SameFirst(a: seq<I.Item>, b: seq<I.Item>)
    requires I.Sorted(a) && Rising(b) && a != [] && b != [] && multiset(a) == multiset(b)
    ensures a[0] == b[0]
  {
    assert a[0] in multiset(b) && b[0] in multiset(a);
    var i :| 0 <= i < |b| && b[i] == a[0];
    var j :| 0 <= j < |a| && a[j] == b[0];
  }

  lemma SameRest(a: seq<I.Item>, b: seq<I.Item>)
    requires a != [] && b != [] && a[0] == b[0] && multiset(a) == multiset(b)
    ensures multiset(a[1..]) == multiset(b[1..])
  {
    assert a == [a[0]] + a[1..] && b == [b[0]] + b[1..];
    assert multiset(a[1..]) == multiset(a) - multiset{a[0]};
    assert multiset(b[1..]) == multiset(b) - multiset{b[0]};
  }

  /** With strictly increasing starts there is one sorted order. */
  lemma {:induction false} SortedOnce(a: seq<I.Item>, b: seq<I.Item>)
    requires I.Sorted(a) && Rising(b) && multiset(a) == multiset(b)
    ensures a == b
    decreases |b|
  {
    assert |a| == |multiset(a)| == |multiset(b)| == |b|;
    if b != [] {
      SameFirst(a, b);
      SameRest(a, b);
      assert I.Sorted(a[1..]) && Rising(b[1..]);
      SortedOnce(a[1..], b[1..]);
      hide I.Sorted, Rising;
      assert a == [a[0]] + a[1..] && b == [b[0]] + b[1..];
    }
  }

  /** The index that `gu_load_pid` builds over a process's mappings. */
  method IndexMaps(maps: seq<Mapping>) returns (index: I.IntervalArray)
    requires 0 < |maps| < TWO64 && OrderedMaps(maps)
    ensures fresh(index) && fresh(index.items) && index.Valid()
    ensures index.items[..] == I.Stored(I.Filled(Items(maps)))
  {
    var input := new I.Item[|maps|](k requires 0 <= k < |maps| => ItemOf(maps[k], k));
    assert input[..] == Items(maps);
    index := new I.IntervalArray(input);
    ghost var s :| I.Sorted(s) && multiset(s) == multiset(Items(maps)) && index.items[..] == I.Stored(I.Filled(s));
    assert Rising(Items(maps)) by {
      forall i, j | 0 <= i < j < |maps| ensures Items(maps)[i].start < Items(maps)[j].start {
        assert maps[i].end <= maps[j].start;
      }
    }
    SortedOnce(s, Items(maps));
  }

  lemma Located(lines: seq<Line>, pc: Word, path: string, o: int) returns (k: nat)
    requires Ordered(lines) && |Merge(lines)| < TWO64 && LinesBack(lines, pc, path, o)
    ensures var maps := Merge(lines);
            && k < |maps| && maps[k].path == path && maps[k].start <= pc < maps[k].end
            && o == maps[k].offset + (pc - maps[k].start)
            && I.Lookup(I.Stored(I.Filled(Items(maps))), pc) == k
  {
    hide LinesBack, Merge, I.Lookup, I.Stored, I.Filled, I.Sorted, I.WellFormed, I.Disjoint;
    var maps := Merge(lines);
    MergePreserves(lines, pc, path, o);
    MergeOrdered(lines);
    k :| 0 <= k < |maps| && MappingBacks(maps[k], pc, path, o);
    ItemsWellFormed(maps);
    I.SearchIsScan(Items(maps), pc, k);
  }

  /** A matched mapping of an ELF whose headers are congruent: the header that matched, and when the address is right. */
  lemma Translated(m: Mapping, phdrs: seq<Phdr>, pc: Word) returns (p: Phdr)
    requires m.start <= pc < m.end && forall q :: q in phdrs ==> Congruent(q)
    requires MatchOffset(Ranges(phdrs), m.offset, m.end - m.start).Some?
    ensures p in phdrs && RangeOf(p).Some?
    ensures var virt := MatchOffset(Ranges(phdrs), m.offset, m.end - m.start);
            var first := FirstStart(Ranges(phdrs));
            var rel := RelativePc(m.start, ChosenAddress(virt, first), pc);
            && (FileOffset(p, rel) == m.offset + (pc - m.start) <==> virt.value != 0 || first == 0)
            && (virt.value != 0 ==> RangeOf(p).value.start <= rel < RangeOf(p).value.end)
  {
    hide RangeOf, Congruent, FileOffset, RelativePc, Covers;
    var k := MatchExact(Ranges(phdrs), m.offset, m.end - m.start);
    RangesFromHeaders(phdrs);
    var r := Ranges(phdrs)[k];
    assert Known(r, phdrs);
    p :| p in phdrs && RangeOf(p) == Some(r);
    var virt := MatchOffset(Ranges(phdrs), m.offset, m.end - m.start).value;
    ChosenExact(p, r, m, pc, virt, FirstStart(Ranges(phdrs)));
    TranslationRight(p, r, m, pc, virt);
  }

  /**
   The whole way: an address backed by a maps line is found in the index of merged mappings.  When the
   program headers of its file match that mapping by offset, its relative PC is the ELF address of the
   same file byte under the matched header, unless a match at address 0 is mistaken for none.
   */
  lemma EndToEnd(lines: seq<Line>, phdrs: seq<Phdr>, pc: Word, path: string, o: int) returns (k: nat, p: Option<Phdr>)
    requires Ordered(lines) && |Merge(lines)| < TWO64 && LinesBack(lines, pc, path, o)
    requires forall q :: q in phdrs ==> Congruent(q)
    ensures var maps := Merge(lines);
            && k < |maps| && maps[k].path == path && maps[k].start <= pc < maps[k].end
            && I.Lookup(I.Stored(I.Filled(Items(maps))), pc) == k
    ensures var m, ranges := Merge(lines)[k], Ranges(phdrs);
            var virt := MatchOffset(ranges, m.offset, m.end - m.start);
            var rel := RelativePc(m.start, ChosenAddress(virt, FirstStart(ranges)), pc);
            && (p.Some? <==> virt.Some?)
            && (p.Some? ==> p.value in phdrs && RangeOf(p.value).Some?)
            && (p.Some? ==> (FileOffset(p.value, rel) == o <==> virt.value != 0 || FirstStart(ranges) == 0))
            && (p.Some? && virt.value != 0 ==> RangeOf(p.value).value.start <= rel < RangeOf(p.value).value.end)
  {
    hide Merge, MatchOffset, RangeOf, Ranges, Congruent, FileOffset, RelativePc, ChosenAddress, FirstStart, LinesBack,
         Ordered, Items, I.Lookup, I.Stored, I.Filled;
    k := Located(lines, pc, path, o);
    var m := Merge(lines)[k];
    p := None;
    if MatchOffset(Ranges(phdrs), m.offset, m.end - m.start).Some? {
      var q := Translated(m, phdrs, pc);
      p := Some(q);
    }
  }

  // ----- matches at address 0 -----

  ghost predicate StartsRise(ranges: seq<Range>) {
    forall i, j :: 0 <= i < j < |ranges| ==> ranges[i].start <= ranges[j].start
  }

  /** With segments in address order, a match at 0 is a match of the first one, so taking it for none does no harm. */
  lemma ZeroMatchIsFirst(ranges: seq<Range>, offset: Word, size: Word)
    requires StartsRise(ranges)
    ensures MatchOffset(ranges, offset, size) == Some(0) ==> FirstStart(ranges) == 0
  {
    var k := MatchExact(ranges, offset, size);
    assert 0 < k < |ranges| ==> ranges[0].start <= ranges[k].start;
  }

  /** `EndToEnd` for files with their segments in address order: every matched address is right. */
  lemma EndToEndRising(lines: seq<Line>, phdrs: seq<Phdr>, pc: Word, path: string, o: int)
    returns (k: nat, p: Option<Phdr>)
    requires Ordered(lines) && |Merge(lines)| < TWO64 && LinesBack(lines, pc, path, o)
    requires (forall q :: q in phdrs ==> Congruent(q)) && StartsRise(Ranges(phdrs))
    ensures var maps := Merge(lines);
            && k < |maps| && maps[k].path == path && maps[k].start <= pc < maps[k].end
            && I.Lookup(I.Stored(I.Filled(Items(maps))), pc) == k
    ensures var m, ranges := Merge(lines)[k], Ranges(phdrs);
            var virt := MatchOffset(ranges, m.offset, m.end - m.start);
            var rel := RelativePc(m.start, ChosenAddress(virt, FirstStart(ranges)), pc);
            && (p.Some? <==> virt.Some?)
            && (p.Some? ==> p.value in phdrs && FileOffset(p.value, rel) == o)
  {
    hide Merge, MatchOffset, RangeOf, Ranges, Congruent, FileOffset, RelativePc, ChosenAddress, FirstStart, LinesBack,
         Ordered, Items, StartsRise, I.Lookup, I.Stored, I.Filled;
    k, p := EndToEnd(lines, phdrs, pc, path, o);
    var m := Merge(lines)[k];
    ZeroMatchIsFirst(Ranges(phdrs), m.offset, m.end - m.start);
  }

  /** Two executable segments, the one at address 0 second. */
  const SWAPPED := [Phdr(true, true, 0x2000, 0x1000, 0x2000, 0x1000), Phdr(true, true, 0, 0x1000, 0, 0x1000)]

  /** A match at 0 mistaken for none: byte 0x10 of the file is taken for byte 0x2010. */
  lemma ZeroMatchMistaken()
    ensures var m := Mapping(0x40_0000, 0x40_1000, 0, 0, "f", false);
            var virt, first := MatchOffset(Ranges(SWAPPED), m.offset, m.end - m.start), FirstStart(Ranges(SWAPPED));
            && (forall p :: p in SWAPPED ==> Congruent(p))
            && virt == Some(0) && first == 0x2000
            && FileOffset(SWAPPED[1], RelativePc(m.start, ChosenAddress(virt, first), 0x40_0010)) == 0x2010
  {
    var a, b := Range(0x2000, 0x3000, 0x2000), Range(0, 0x1000, 0);
    assert RangeOf(SWAPPED[0]) == Some(a) && RangeOf(SWAPPED[1]) == Some(b);
    assert SWAPPED[..1][..0] == [] && SWAPPED[..1][0] == SWAPPED[0];
    assert Ranges(SWAPPED[..1]) == [a];
    assert Ranges(SWAPPED) == [a, b];
    assert [a, b][1..] == [b];
    assert !Covers(a, 0, 0x1000) && Covers(b, 0, 0x1000);
  }
}
