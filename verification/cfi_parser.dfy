/** `gu_cfi_parse_cfi_ex`: from a PC to the operation lists of its frame, with a direct-mapped cache. */
module CfiParser {
  import opened Words
  import opened Leb128
  import opened Operands
  import opened DwarfOps
  import opened ExprBlock
  import opened FrameRules
  import opened CallFrame
  import opened IntervalIndex
  import opened Evaluator
  import opened EvalMachine
  import opened RuleMeaning

  const CACHE_SIZE: nat := 64
  const CACHE_OPS_MAX: nat := 8

  /** Instructions are the section bytes from `begin` up to `end`. */
  datatype Fde = Fde(cie: Cie, start: Word, begin: nat, end: nat)

  /** A parsed CFI section; the payload of an index entry numbers its FDE. */
  datatype Cfi = Cfi(section: seq<Byte>, table: seq<Item>, fdes: seq<Fde>)

  ghost predicate ValidCfi(c: Cfi) {
    && |c.section| < TWO64
    && forall f :: f in c.fdes ==> f.begin <= f.end <= |c.section|
  }

  /** The lists left in the scratch buffers by a successful parse. */
  datatype Parsed = Parsed(signal: bool, cfa: seq<Op>, rip: seq<Op>, rbp: seq<Op>, rsp: seq<Op>)

  function OrElse(ops: Option<seq<Op>>, other: seq<Op>): seq<Op> {
    match ops
    case Some(s) => s
    case None => other
  }

  function Compile(c: Cfi, signal: bool, rules: Rules): Option<Parsed>
    requires |c.section| < TWO64
  {
    var cfa :- CompileCfa(rules.cfa);
    Some(Parsed(signal, cfa,
                OrElse(CompileReg(rules.rip, c.section), []),
                OrElse(CompileReg(rules.rbp, c.section), []),
                OrElse(CompileReg(rules.rsp, c.section), cfa)))
  }

  function FindFde(c: Cfi, pc: Word): (r: Option<Fde>)
    ensures r.Some? ==> r.value in c.fdes
  {
    if c.table == [] then None
    else
      var k := Lookup(c.table, pc);
      if k == -1 || Untag(c.table[k].priv) >= |c.fdes| then None
      else Some(c.fdes[Untag(c.table[k].priv)])
  }

  /** Every parse starts from the rules of the CIE with nothing remembered. */
  function Start(f: Fde): State {
    State(f.cie.initial, [], 0, [])
  }

  function Uncached(c: Cfi, pc: Word): Option<Parsed>
    requires ValidCfi(c)
  {
    var f :- FindFde(c, pc);
    var st :- RunTo(f.cie, false, c.section[..f.end], f.begin, f.start, Start(f), pc);
    Compile(c, f.cie.signal, st.rules)
  }

  // ----- the cache as a value -----

  datatype Entry = Vacant | Cached(pc: Word, parsed: Parsed)

  function CacheIndex(pc: Word): (i: nat)
    ensures i < CACHE_SIZE
  {
    Bitwise(XOR, pc / 16, pc / 4096) % CACHE_SIZE
  }

  predicate Cacheable(p: Parsed) {
    |p.cfa| <= CACHE_OPS_MAX && |p.rip| <= CACHE_OPS_MAX && |p.rbp| <= CACHE_OPS_MAX && |p.rsp| <= CACHE_OPS_MAX
  }

  /** One call: the result and the cache after it. */
  function CachedParse(c: Cfi, cache: seq<Entry>, pc: Word): (r: (Option<Parsed>, seq<Entry>))
    requires ValidCfi(c) && |cache| == CACHE_SIZE
    ensures |r.1| == CACHE_SIZE
  {
    var slot := CacheIndex(pc);
    if cache[slot].Cached? && cache[slot].pc == pc then (Some(cache[slot].parsed), cache)
    else
      var r := Uncached(c, pc);
      if r.Some? && Cacheable(r.value) then (r, cache[slot := Cached(pc, r.value)]) else (r, cache)
  }

  /** The results of a sequence of calls on one CFI object. */
  function Results(c: Cfi, cache: seq<Entry>, pcs: seq<Word>): seq<Option<Parsed>>
    requires ValidCfi(c) && |cache| == CACHE_SIZE
    decreases |pcs|
  {
    if pcs == [] then []
    else
      var (r, cache') := CachedParse(c, cache, pcs[0]);
      [r] + Results(c, cache', pcs[1..])
  }

  ghost predicate Coherent(c: Cfi, cache: seq<Entry>)
    requires ValidCfi(c)
  {
    forall i :: 0 <= i < |cache| && cache[i].Cached? ==> Uncached(c, cache[i].pc) == Some(cache[i].parsed)
  }

  lemma ParseCoherent(c: Cfi, cache: seq<Entry>, pc: Word)
    requires ValidCfi(c) && |cache| == CACHE_SIZE && Coherent(c, cache)
    ensures CachedParse(c, cache, pc).0 == Uncached(c, pc)
    ensures Coherent(c, CachedParse(c, cache, pc).1)
  {
    hide Uncached, CacheIndex;
  }

  /** A successful parse with at most eight operations in each list stays until another PC takes its slot. */
  lemma CacheServes(c: Cfi, cache: seq<Entry>, pc: Word, other: Word)
    requires ValidCfi(c) && |cache| == CACHE_SIZE && Coherent(c, cache) && Uncached(c, pc).Some?
    requires var p := Uncached(c, pc).value; |p.cfa| <= 8 && |p.rip| <= 8 && |p.rbp| <= 8 && |p.rsp| <= 8
    ensures var cache' := CachedParse(c, cache, pc).1;
            && CachedParse(c, cache', pc) == (Uncached(c, pc), cache')
            && Cached(pc, Uncached(c, pc).value) in cache'
            && (CacheIndex(other) != CacheIndex(pc) ==> cache'[CacheIndex(other)] == cache[CacheIndex(other)])
  {
    hide Uncached, CacheIndex;
    var slot := CacheIndex(pc);
    assert CachedParse(c, cache, pc).1[slot] == Cached(pc, Uncached(c, pc).value);
  }

  /** Over every sequence of calls from an empty or coherent cache, the cache is invisible. */
  lemma {:induction false} CacheInvisible(c: Cfi, cache: seq<Entry>, pcs: seq<Word>)
    requires ValidCfi(c) && |cache| == CACHE_SIZE && Coherent(c, cache)
    ensures |Results(c, cache, pcs)| == |pcs|
    ensures forall i :: 0 <= i < |pcs| ==> Results(c, cache, pcs)[i] == Uncached(c, pcs[i])
    decreases |pcs|
  {
    hide Uncached, CachedParse, Coherent;
    if pcs != [] {
      ParseCoherent(c, cache, pcs[0]);
      CacheInvisible(c, CachedParse(c, cache, pcs[0]).1, pcs[1..]);
    }
  }

  // ----- the parser -----

  class Parser {
    const cfi: Cfi
    const staticOps: array<Op>
    const cache: array<Entry>
    var cfa: seq<Op>
    var rip: seq<Op>
    var rbp: seq<Op>
    var rsp: seq<Op>

    ghost predicate Valid()
      reads this
    {
      ValidCfi(cfi) && staticOps.Length == OPS_MAX && cache.Length == CACHE_SIZE
    }

    constructor (cfi: Cfi)
      requires ValidCfi(cfi)
      ensures Valid() && this.cfi == cfi && fresh(staticOps) && fresh(cache)
      ensures Coherent(cfi, cache[..])
    {
      this.cfi := cfi;
      staticOps := new Op[OPS_MAX](_ => Op(0, 0, 0, 0));
      cache := new Entry[CACHE_SIZE](_ => Vacant);
      cfa, rip, rbp, rsp := [], [], [], [];
    }

    method GetCfaOps(rule: CfaRule) returns (size: Option<nat>)
      requires Valid()
      modifies staticOps
      ensures size.None? <==> CompileCfa(rule).None?
      ensures size.Some? ==> size.value <= OPS_MAX && CompileCfa(rule) == Some(staticOps[..size.value])
    {
      hide BlockOps;
      match rule {
        case CfaRegister(r, o) =>
          staticOps[0] := Op(DW_OP_bregx, r, o, 0);
          assert staticOps[..1] == [staticOps[0]];
          return Some(1);
        case CfaExpression(b) =>
          if |b| >= TWO64 {
            return None;
          }
          size := InitOpsFromBlock(staticOps, b, true, false);
        case _ => return None;
      }
    }

    method GetRegsOps(rule: RegRule) returns (size: Option<nat>)
      requires Valid()
      modifies staticOps
      ensures size.None? <==> CompileReg(rule, cfi.section).None?
      ensures size.Some? ==> size.value <= OPS_MAX && CompileReg(rule, cfi.section) == Some(staticOps[..size.value])
    {
      hide BlockOps, ReadUleb, DecodeFrom;
      match rule {
        case Offset(n) =>
          var k := PutCfaPlus(n);
          assert staticOps[..k] == [PUSH_CFA] + PlusConst(n);
          return Some(k);
        case ValOffset(n) =>
          var k := PutCfaPlus(n);
          ghost var front := staticOps[..k];
          staticOps[k] := STACK_VALUE_OP;
          assert staticOps[..k + 1] == front + [STACK_VALUE_OP];
          return Some(k + 1);
        case Register(n) =>
          staticOps[0] := Op(DW_OP_regx, n, 0, 0);
          assert staticOps[..1] == [staticOps[0]];
          return Some(1);
        case Expression(at) =>
          var block := ReadBlock(at);
          if block == None { return None; }
          size := InitOpsFromBlock(staticOps, block.value, false, false);
        case ValExpression(at) =>
          var block := ReadBlock(at);
          if block == None { return None; }
          size := InitOpsFromBlock(staticOps, block.value, false, true);
        case _ => return None;
      }
    }

    method PutCfaPlus(n: Word) returns (k: nat)
      requires Valid()
      modifies staticOps
      ensures k <= 2 && staticOps[..k] == [PUSH_CFA] + PlusConst(n)
    {
      staticOps[0] := PUSH_CFA;
      k := 1;
      if n != 0 {
        staticOps[1] := Op(DW_OP_plus_uconst, n, 0, 0);
        k := 2;
      }
      assert staticOps[..k] == [PUSH_CFA] + PlusConst(n);
    }

    method ReadBlock(at: Word) returns (block: Option<seq<Byte>>)
      ensures block == BlockAt(cfi.section, at)
    {
      if at >= |cfi.section| {
        return None;
      }
      var r := DecodeLeb(cfi.section, at, Uleb);
      if r == None {
        return None;
      }
      var (len, p) := r.value;
      if len > |cfi.section| - p {
        return None;
      }
      return Some(cfi.section[p..p + len]);
    }

    /** The scratch buffers hold `p`, or nothing. */
    ghost predicate Holds(p: Option<Parsed>, signal: bool)
      reads this
    {
      match p
      case None => cfa == rip == rbp == rsp == []
      case Some(p) => p == Parsed(signal, cfa, rip, rbp, rsp)
    }

    method CompileRow(signal: bool, rules: Rules) returns (ret: int)
      requires Valid() && cfa == rip == rbp == rsp == []
      modifies this, staticOps
      ensures Valid() && Holds(Compile(cfi, signal, rules), signal)
      ensures ret == if Compile(cfi, signal, rules).Some? then 0 else -1
    {
      hide CompileCfa, CompileReg;
      var size := GetCfaOps(rules.cfa);
      if size == None {
        return -1;
      }
      cfa := staticOps[..size.value];
      size := GetRegsOps(rules.rsp);
      rsp := if size == None then cfa else staticOps[..size.value];
      size := GetRegsOps(rules.rip);
      rip := if size == None then [] else staticOps[..size.value];
      size := GetRegsOps(rules.rbp);
      if size != None {
        rbp := staticOps[..size.value];
      }
      return 0;
    }

    method CacheLoad(pc: Word) returns (hit: bool, signal: bool)
      requires Valid()
      modifies this
      ensures Valid()
      ensures var e := cache[CacheIndex(pc)];
              && hit == (e.Cached? && e.pc == pc)
              && (hit ==> e.parsed == Parsed(signal, cfa, rip, rbp, rsp))
              && (!hit ==> cfa == old(cfa) && rip == old(rip) && rbp == old(rbp) && rsp == old(rsp))
    {
      var e := cache[CacheIndex(pc)];
      if !e.Cached? || e.pc != pc {
        return false, false;
      }
      signal := e.parsed.signal;
      cfa, rip, rbp, rsp := e.parsed.cfa, e.parsed.rip, e.parsed.rbp, e.parsed.rsp;
      return true, signal;
    }

    method CacheStore(pc: Word, signal: bool)
      requires Valid()
      modifies cache
      ensures var p := Parsed(signal, cfa, rip, rbp, rsp);
              cache[..] == if Cacheable(p) then old(cache[..])[CacheIndex(pc) := Cached(pc, p)] else old(cache[..])
    {
      var p := Parsed(signal, cfa, rip, rbp, rsp);
      if !Cacheable(p) {
        return;
      }
      cache[CacheIndex(pc)] := Cached(pc, p);
    }

    /** Parse for one PC: the same return code, flag and lists as the value-level parse, cache included. */
    method Parse(pc: Word) returns (ret: int, signal: bool)
      requires Valid()
      modifies this, staticOps, cache
      ensures Valid()
      ensures var (r, after) := CachedParse(cfi, old(cache[..]), pc);
              && ret == (if r.Some? then 0 else -1)
              && Holds(r, signal)
              && cache[..] == after
    {
      hide Compile, Lookup, RunTo, CacheIndex, Cacheable;
      cfa, rip, rbp, rsp := [], [], [], [];
      var hit;
      hit, signal := CacheLoad(pc);
      if hit {
        return 0, signal;
      }
      signal := false;
      var f := FindFde(cfi, pc);
      if f == None {
        return -1, false;
      }
      var fde := f.value;
      signal := fde.cie.signal;
      var ctx := new FrameContext(Start(fde));
      ret := ctx.Interpret(fde.cie, false, cfi.section[..fde.end], fde.begin, fde.start, pc);
      if ret < 0 {
        return;
      }
      ctx.FreeSaved();
      ret := CompileRow(signal, ctx.rules);
      if ret != 0 {
        return;
      }
      CacheStore(pc, signal);
    }
  }

  // ----- choosing the list for a register -----

  /** `gu_cfi_get_ops`: RSP falls back to the CFA program. */
  function GetOps(p: Parsed, reg: Option<RegId>): Option<seq<Op>> {
    match reg
    case None => None
    case Some(Rip) => Some(p.rip)
    case Some(Rbp) => Some(p.rbp)
    case Some(Rsp) => Some(if p.rsp == [] then p.cfa else p.rsp)
  }

  /** Without an RSP rule, or with the default one, the caller's stack pointer is the CFA. */
  lemma CallerSpIsCfa(c: Cfi, signal: bool, rules: Rules, snap: Snapshot, bias: Word)
    requires |c.section| < TWO64 && Compile(c, signal, rules).Some?
    requires NoCfaCall(Compile(c, signal, rules).value.cfa)
    requires CompileReg(rules.rsp, c.section) == None || rules.rsp == ValOffset(0)
    ensures var p := Compile(c, signal, rules).value;
            ValueOf(Eval(GetOps(p, Some(Rsp)).value, p.cfa, snap, bias)) == ValueOf(Eval(p.cfa, p.cfa, snap, bias))
  {
    hide CompileCfa, EvalWith;
    var p := Compile(c, signal, rules).value;
    CfaSelf(p.cfa, snap, bias);
    if rules.rsp == ValOffset(0) {
      var cfa := EvalWith(p.cfa, snap, bias, Failed);
      assert p.rsp == [PUSH_CFA] + PlusConst(0) + [STACK_VALUE_OP];
      if cfa.Value? {
        ValOffsetCompiles(0, cfa.value, snap, bias);
      } else {
        CfaFails(p.rsp, snap, bias, cfa);
      }
    }
  }
}
