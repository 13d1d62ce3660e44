/** The sorted interval index of `gu_interval_array`: construction, 32-bit compaction and search. */
module IntervalIndex {
  import opened Words

  const U32_MAX: int := 0xffff_ffff
  const U64_MAX: int := 0xffff_ffff_ffff_ffff

  /** `end == 0` asks the index to end the interval at the next start. */
  datatype Item = Item(start: Word, end: Word, priv: Word)

  predicate Contains(x: Item, addr: Word) {
    x.start <= addr < x.end
  }

  ghost predicate Sorted(s: seq<Item>) {
    forall i, j :: 0 <= i < j < |s| ==> s[i].start <= s[j].start
  }

  // ----- ordering: any sorting routine that meets the qsort contract -----

  function Insert(x: Item, s: seq<Item>): seq<Item> {
    if s == [] || x.start <= s[0].start then [x] + s else [s[0]] + Insert(x, s[1..])
  }

  function InsertionSort(s: seq<Item>): seq<Item> {
    if s == [] then [] else Insert(s[0], InsertionSort(s[1..]))
  }

  lemma {:induction false} InsertPermutes(x: Item, s: seq<Item>)
    ensures multiset(Insert(x, s)) == multiset(s) + multiset{x}
    ensures Insert(x, s) != []
    ensures Insert(x, s)[0].start == if s == [] || x.start <= s[0].start then x.start else s[0].start
  {
    if s != [] && x.start > s[0].start {
      InsertPermutes(x, s[1..]);
      assert s == [s[0]] + s[1..];
    }
  }

  lemma SortedFront(x: Item, s: seq<Item>)
    requires Sorted(s) && (s != [] ==> x.start <= s[0].start)
    ensures Sorted([x] + s)
  {
    forall i, j | 0 <= i < j < |[x] + s| ensures ([x] + s)[i].start <= ([x] + s)[j].start {
      if i == 0 && j > 1 {
        assert s[0].start <= s[j - 1].start;
      }
    }
  }

  lemma {:induction false} InsertSorts(x: Item, s: seq<Item>)
    requires Sorted(s)
    ensures Sorted(Insert(x, s))
  {
    if s == [] || x.start <= s[0].start {
      SortedFront(x, s);
    } else {
      InsertSorts(x, s[1..]);
      InsertPermutes(x, s[1..]);
      SortedFront(s[0], Insert(x, s[1..]));
    }
  }

  lemma {:induction false} SortSorts(s: seq<Item>)
    ensures Sorted(InsertionSort(s)) && multiset(InsertionSort(s)) == multiset(s)
  {
    hide Sorted, Insert;
    if s != [] {
      var t := InsertionSort(s[1..]);
      SortSorts(s[1..]);
      InsertSorts(s[0], t);
      InsertPermutes(s[0], t);
      assert s == [s[0]] + s[1..];
    } else {
      assert Sorted([]) by { EmptySorted(); }
    }
  }

  lemma EmptySorted()
    ensures Sorted([])
  {}

  /** Callers rely on nothing but the qsort contract. */
  method Qsort(items: array<Item>)
    modifies items
    ensures Sorted(items[..]) && multiset(items[..]) == multiset(old(items[..]))
  {
    hide Sorted, InsertionSort;
    var sorted := InsertionSort(items[..]);
    SortSorts(items[..]);
    assert |sorted| == |multiset(sorted)| == |multiset(items[..])| == items.Length;
    for i := 0 to items.Length
      invariant items[..i] == sorted[..i]
    {
      items[i] := sorted[i];
    }
    assert items[..] == items[..items.Length] == sorted;
  }

  // ----- filling open ends -----

  function LastEnd(start: Word): Word {
    if start < U32_MAX then U32_MAX - 1 else U64_MAX - 1
  }

  function FilledAt(s: seq<Item>, i: nat): Item
    requires i < |s|
  {
    if s[i].end != 0 then s[i]
    else s[i].(end := if i + 1 < |s| then s[i + 1].start else LastEnd(s[i].start))
  }

  function Filled(s: seq<Item>): (f: seq<Item>)
    ensures |f| == |s|
  {
    seq(|s|, i requires 0 <= i < |s| => FilledAt(s, i))
  }

  // ----- compaction -----

  function Truncate(x: Item): Item {
    x.(start := x.start % TWO32, end := x.end % TWO32)
  }

  predicate IsNarrow(f: seq<Item>) {
    f != [] && f[|f| - 1].end < U32_MAX
  }

  function Stored(f: seq<Item>): (t: seq<Item>)
    ensures |t| == |f|
  {
    if IsNarrow(f) then seq(|f|, i requires 0 <= i < |f| => Truncate(f[i])) else f
  }

  // ----- well-formed inputs, stated so that order does not matter -----

  ghost predicate WellFormed(m: multiset<Item>) {
    forall x :: x in m ==> x.end == 0 || x.start <= x.end
  }

  /** Two intervals of the input, or two copies of one, do not overlap once open ends are filled. */
  ghost predicate Disjoint(m: multiset<Item>) {
    forall x, y :: x in m && y in m && (x != y || m[x] > 1) && x.start <= y.start ==>
                     x.end == 0 || x.end <= y.start
  }

  lemma {:induction false} TwoCopies(s: seq<Item>, i: nat, j: nat)
    requires i < j < |s| && s[i] == s[j]
    ensures multiset(s)[s[i]] > 1
  {
    assert s == s[..j] + s[j..];
    assert s[i] in s[..j];
    assert s[j] in s[j..];
  }

  lemma FilledOrder(s: seq<Item>, i: nat, j: nat)
    requires Sorted(s) && WellFormed(multiset(s)) && Disjoint(multiset(s)) && i < j < |s|
    ensures Filled(s)[i].start <= Filled(s)[i].end <= Filled(s)[j].start
  {
    assert s[i] in multiset(s) && s[j] in multiset(s);
    if s[i] == s[j] {
      TwoCopies(s, i, j);
    }
  }

  lemma FilledLast(s: seq<Item>)
    requires s != [] && WellFormed(multiset(s))
    ensures var last := Filled(s)[|s| - 1]; last.start <= last.end + 1
    ensures var last := Filled(s)[|s| - 1]; last.end < U32_MAX ==> last.start <= last.end
  {
    assert s[|s| - 1] in multiset(s);
  }

  /** Compaction changes nothing exactly when every bound fits in 32 bits. */
  lemma CompactionExact(f: seq<Item>)
    requires IsNarrow(f)
    ensures Stored(f) == f <==> forall i :: 0 <= i < |f| ==> f[i].start < TWO32 && f[i].end < TWO32
  {
    if Stored(f) == f {
      forall i | 0 <= i < |f| ensures f[i].start < TWO32 && f[i].end < TWO32 {
        assert Stored(f)[i] == Truncate(f[i]);
      }
    }
  }

  /** For disjoint inputs the stored table is the filled one, whatever its width. */
  lemma StoredIsFilled(s: seq<Item>)
    requires s != [] && Sorted(s) && WellFormed(multiset(s)) && Disjoint(multiset(s))
    ensures Stored(Filled(s)) == Filled(s)
  {
    var f := Filled(s);
    hide Filled, Sorted, Disjoint;
    if IsNarrow(f) {
      FilledLast(s);
      forall i | 0 <= i < |f| ensures f[i].start < TWO32 && f[i].end < TWO32 {
        if i < |f| - 1 {
          FilledOrder(s, i, |f| - 1);
        }
      }
      CompactionExact(f);
    }
  }

  // ----- binary search -----

  function Find(t: seq<Item>, addr: Word, left: int, right: int): (r: int)
    requires 0 <= left <= right + 1 <= |t|
    ensures r == -1 || (left <= r <= right && Contains(t[r], addr))
    decreases right - left + 1
  {
    if left > right then -1
    else
      var mid := left + (right - left) / 2;
      if Contains(t[mid], addr) then mid
      else if addr < t[mid].start then Find(t, addr, left, mid - 1)
      else Find(t, addr, mid + 1, right)
  }

  /** The answer for `addr`, after the test against the bounds of the table. */
  function Lookup(t: seq<Item>, addr: Word): (r: int)
    requires t != []
    ensures r == -1 || (0 <= r < |t| && Contains(t[r], addr))
  {
    if addr < t[0].start || addr > t[|t| - 1].end then -1 else Find(t, addr, 0, |t| - 1)
  }

  lemma {:induction false} FindComplete(s: seq<Item>, addr: Word, left: int, right: int, k: nat)
    requires Sorted(s) && WellFormed(multiset(s)) && Disjoint(multiset(s))
    requires 0 <= left <= k <= right < |s| && Contains(Filled(s)[k], addr)
    ensures Find(Filled(s), addr, left, right) == k
    decreases right - left
  {
    var t := Filled(s);
    hide Filled, Sorted, Disjoint;
    var mid := left + (right - left) / 2;
    if mid < k {
      FilledOrder(s, mid, k);
      FindComplete(s, addr, mid + 1, right, k);
    } else if k < mid {
      FilledOrder(s, k, mid);
      FindComplete(s, addr, left, mid - 1, k);
    }
  }

  /** Addresses of filled intervals pass the test against the bounds of the table. */
  lemma WithinBounds(s: seq<Item>, addr: Word, k: nat)
    requires Sorted(s) && WellFormed(multiset(s)) && Disjoint(multiset(s))
    requires k < |s| && Contains(Filled(s)[k], addr)
    ensures Filled(s)[0].start <= addr <= Filled(s)[|s| - 1].end
  {
    var n := |s| - 1;
    hide Sorted, Disjoint, Filled;
    FilledLast(s);
    if k < n { FilledOrder(s, k, n); }
    if 0 < k { FilledOrder(s, 0, k); }
  }

  /** Binary search over the stored table agrees with a linear scan of the filled intervals. */
  lemma SearchIsScan(s: seq<Item>, addr: Word, k: nat)
    requires s != [] && Sorted(s) && WellFormed(multiset(s)) && Disjoint(multiset(s))
    ensures k < |s| && Contains(Filled(s)[k], addr) <==> Lookup(Stored(Filled(s)), addr) == k
  {
    hide Sorted, WellFormed, Disjoint, Stored, Filled, Find;
    StoredIsFilled(s);
    if k < |s| && Contains(Filled(s)[k], addr) {
      WithinBounds(s, addr, k);
      FindComplete(s, addr, 0, |s| - 1, k);
    }
  }

  lemma StartsDisjoint(s: seq<Item>)
    requires forall i :: 0 <= i < |s| ==> s[i].end == 0
    ensures WellFormed(multiset(s)) && Disjoint(multiset(s))
  {
    assert forall x :: x in multiset(s) ==> x in s;
  }

  lemma {:induction false} LastAtMost(s: seq<Item>, addr: Word, n: nat) returns (k: nat)
    requires n < |s| && s[0].start <= addr && (n + 1 < |s| ==> addr < s[n + 1].start)
    ensures k < |s| && s[k].start <= addr && (k + 1 < |s| ==> addr < s[k + 1].start)
    decreases n
  {
    if s[n].start <= addr {
      k := n;
    } else {
      k := LastAtMost(s, addr, n - 1);
    }
  }

  /** A table of starts only: the answer is the entry with the greatest start not above `addr`. */
  lemma StartsOnly(s: seq<Item>, addr: Word)
    requires s != [] && Sorted(s) && forall i :: 0 <= i < |s| ==> s[i].end == 0
    requires s[0].start <= addr < LastEnd(s[|s| - 1].start)
    ensures var k := Lookup(Stored(Filled(s)), addr);
            && 0 <= k < |s| && s[k].start <= addr
            && forall j :: 0 <= j < |s| && s[j].start <= addr ==> s[j].start <= s[k].start
  {
    hide Lookup, Stored, WellFormed, Disjoint, LastEnd;
    var k := LastAtMost(s, addr, |s| - 1);
    StartsDisjoint(s);
    SearchIsScan(s, addr, k);
    assert Filled(s)[k] == FilledAt(s, k);
  }

  lemma TruncatedContains(x: Item, addr: Word)
    requires x.start < TWO32 && Contains(Truncate(x), addr)
    ensures Contains(x, addr)
  {}

  /** Every hit contains the address even if intervals overlap or are compacted. */
  lemma HitContains(s: seq<Item>, addr: Word)
    requires s != [] && Sorted(s) && WellFormed(multiset(s))
    ensures var r := Lookup(Stored(Filled(s)), addr); r == -1 || (0 <= r < |s| && Contains(Filled(s)[r], addr))
  {
    hide Lookup, WellFormed, Truncate, Filled;
    var f := Filled(s);
    var r := Lookup(Stored(f), addr);
    if r != -1 && IsNarrow(f) {
      FilledLast(s);
      StartsKept(s, r);
      TruncatedContains(f[r], addr);
    }
  }

  lemma StartsKept(s: seq<Item>, r: nat)
    requires r < |s| && Sorted(s)
    ensures Filled(s)[r].start == s[r].start <= s[|s| - 1].start == Filled(s)[|s| - 1].start
  {}

  // ----- the index object -----

  function Untag(p: Word): Word {
    p % TWO63
  }

  function Tag(p: Word): Word {
    if p < TWO63 then p + TWO63 else p
  }

  method FillEnds(input: array<Item>)
    requires input.Length > 0
    modifies input
    ensures input[..] == Filled(old(input[..]))
  {
    ghost var s := input[..];
    var n := input.Length;
    for i := 0 to n - 1
      invariant forall j :: 0 <= j < i ==> input[j] == FilledAt(s, j)
      invariant forall j :: i <= j < n ==> input[j] == s[j]
    {
      if input[i].end == 0 {
        input[i] := input[i].(end := input[i + 1].start);
      }
    }
    if input[n - 1].end == 0 {
      if input[n - 1].start < U32_MAX {
        input[n - 1] := input[n - 1].(end := U32_MAX - 1);
      } else {
        input[n - 1] := input[n - 1].(end := U64_MAX - 1);
      }
    }
  }

  method Store(input: array<Item>) returns (small: bool, store: array<Item>)
    requires input.Length > 0
    ensures fresh(store) && small == IsNarrow(input[..]) && store[..] == Stored(input[..])
  {
    hide Truncate;
    var n := input.Length;
    small := input[n - 1].end < U32_MAX;
    store := new Item[n](_ => Item(0, 0, 0));
    for i := 0 to n
      invariant forall j :: 0 <= j < i ==> store[j] == Stored(input[..])[j]
    {
      store[i] := if small then Truncate(input[i]) else input[i];
    }
  }

  class IntervalArray {
    const narrow: bool
    const items: array<Item>
    const min: Word
    const max: Word

    ghost predicate Valid()
      reads this, items
    {
      items.Length > 0 && min == items[0].start && max == items[items.Length - 1].end
    }

    /** Sorts `input` in place, fills its open ends, and copies it into 32-bit or 64-bit storage. */
    constructor (input: array<Item>)
      requires input.Length > 0
      modifies input
      ensures Valid() && fresh(items)
      ensures exists s :: Sorted(s) && multiset(s) == multiset(old(input[..])) && items[..] == Stored(Filled(s))
    {
      hide Sorted, Stored, Filled;
      Qsort(input);
      ghost var s := input[..];
      FillEnds(input);
      var n := input.Length;
      var small, store := Store(input);
      assert store[..] == Stored(Filled(s));
      narrow, items := small, store;
      min, max := store[0].start, store[n - 1].end;
    }

    /** `set_no_free` hands the payload's ownership to the caller by tagging it in place. */
    method Search(addr: Word, setNoFree: bool) returns (index: int, item: Item)
      requires Valid()
      modifies items
      ensures Valid()
      ensures index == Lookup(old(items[..]), addr)
      ensures index == -1 ==> item == Item(0, 0, 0) && items[..] == old(items[..])
      ensures index >= 0 ==>
                && item == old(items[index]).(priv := Untag(old(items[index].priv)))
                && items[..] == old(items[..])[index := if setNoFree then Tagged(old(items[index])) else old(items[index])]
    {
      index, item := -1, Item(0, 0, 0);
      if addr < min || addr > max {
        return;
      }
      var left, right := 0, items.Length - 1;
      ghost var t, goal := items[..], Lookup(items[..], addr);
      while left <= right
        invariant 0 <= left <= right + 1 <= items.Length
        invariant items[..] == t && Find(t, addr, left, right) == goal
        decreases right - left + 1
      {
        var mid := left + (right - left) / 2;
        assert items[mid] == t[mid];
        if addr >= items[mid].start && addr < items[mid].end {
          item := items[mid].(priv := Untag(items[mid].priv));
          if setNoFree && items[mid].priv < TWO63 {
            items[mid] := items[mid].(priv := Tag(items[mid].priv));
          }
          index := mid;
          return;
        } else if addr < items[mid].start {
          right := mid - 1;
        } else {
          left := mid + 1;
        }
      }
    }

    /** The payloads that `gu_interval_array_destroy` frees. */
    method Destroy() returns (freed: seq<Word>)
      ensures freed == Owned(items[..])
    {
      freed := [];
      for i := 0 to items.Length
        invariant freed == Owned(items[..i])
      {
        var p := items[i].priv;
        if p != 0 && p < TWO63 {
          freed := freed + [p];
        }
        assert items[..i + 1] == items[..i] + [items[i]];
        OwnedAppend(items[..i], items[i]);
      }
      assert items[..items.Length] == items[..];
    }
  }

  function Tagged(x: Item): Item {
    x.(priv := Tag(x.priv))
  }

  function Owned(t: seq<Item>): seq<Word> {
    if t == [] then []
    else (if t[0].priv != 0 && t[0].priv < TWO63 then [t[0].priv] else []) + Owned(t[1..])
  }

  lemma {:induction false} OwnedConcat(a: seq<Item>, b: seq<Item>)
    ensures Owned(a + b) == Owned(a) + Owned(b)
  {
    if a == [] {
      assert a + b == b;
    } else {
      assert (a + b)[1..] == a[1..] + b;
      OwnedConcat(a[1..], b);
    }
  }

  lemma OwnedAppend(t: seq<Item>, x: Item)
    ensures Owned(t + [x]) == Owned(t) + if x.priv != 0 && x.priv < TWO63 then [x.priv] else []
  {
    OwnedConcat(t, [x]);
  }

  /** Two tables with the same bounds give the same answers. */
  lemma {:induction false} FindByBounds(t: seq<Item>, u: seq<Item>, addr: Word, left: int, right: int)
    requires |t| == |u| && 0 <= left <= right + 1 <= |t|
    requires forall i :: 0 <= i < |t| ==> t[i].start == u[i].start && t[i].end == u[i].end
    ensures Find(t, addr, left, right) == Find(u, addr, left, right)
    decreases right - left + 1
  {
    if left <= right {
      var mid := left + (right - left) / 2;
      assert left <= mid <= right && t[mid].start == u[mid].start && t[mid].end == u[mid].end;
      if addr < t[mid].start {
        FindByBounds(t, u, addr, left, mid - 1);
      } else if addr >= t[mid].end {
        FindByBounds(t, u, addr, mid + 1, right);
      }
    }
  }

  /** Each item adds its payload to what is freed unless it has none or it was handed out. */
  lemma OwnedEach(a: seq<Item>, x: Item, b: seq<Item>)
    ensures Owned([]) == []
    ensures Owned(a + [x] + b) == Owned(a) + (if x.priv == 0 || x.priv >= TWO63 then [] else [x.priv]) + Owned(b)
  {
    OwnedConcat(a, [x]);
    OwnedConcat(a + [x], b);
    assert [x][1..] == [];
  }

  lemma OwnedWithout(t: seq<Item>, k: nat, x: Item)
    requires k < |t| && Owned([x]) == []
    ensures Owned(t[k := x]) == Owned(t[..k]) + Owned(t[k + 1..])
  {
    assert t[k := x] == t[..k] + ([x] + t[k + 1..]);
    OwnedConcat(t[..k], [x] + t[k + 1..]);
    OwnedConcat([x], t[k + 1..]);
  }

  /** Taking a payload changes no later answer and removes just that payload from what is freed. */
  lemma TakingIsSafe(t: seq<Item>, k: nat, addr: Word)
    requires k < |t|
    ensures Lookup(t[k := Tagged(t[k])], addr) == Lookup(t, addr)
    ensures Owned(t[k := Tagged(t[k])]) == Owned(t[..k]) + Owned(t[k + 1..])
    ensures Untag(Tagged(t[k]).priv) == Untag(t[k].priv)
  {
    hide Find;
    assert Owned([Tagged(t[k])]) == [];
    hide Owned;
    FindByBounds(t[k := Tagged(t[k])], t, addr, 0, |t| - 1);
    OwnedWithout(t, k, Tagged(t[k]));
  }
}
