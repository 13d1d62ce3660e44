/** `gu_unwind` from the sampled registers on: the CFI loop and the frame-pointer tail after it. */
module UnwindRun {
  import opened Words
  import A = AddressMap
  import opened DwarfOps
  import opened CallFrame
  import opened IntervalIndex
  import opened Evaluator
  import opened EvalMachine
  import opened GenReg
  import opened CfiParser
  import opened FrameRules

  const MAX_FRAMES: nat := 512
  const MAX_FP_FRAMES: nat := 127

  const RBP: nat := 6
  const RSP: nat := 7
  const RIP: nat := 16

  type Regs = r: seq<Word> | |r| == 17 witness seq(17, _ => 0)

  // ----- what the process looks like -----

  datatype ElfData = ElfData(symbols: seq<Item>, names: seq<string>, cfi: Option<Cfi>, golang: bool)

  /** No CFA program asks for the CFA; evaluating one that does would never end. */
  ghost predicate UsableCfi(c: Cfi) {
    && ValidCfi(c)
    && forall pc: Word :: Uncached(c, pc).Some? ==> NoCfaCall(Uncached(c, pc).value.cfa)
  }

  type Elf = e: ElfData | e.cfi.Some? ==> UsableCfi(e.cfi.value) witness ElfData([], [], None, false)

  /** An executable mapping; an anonymous one has no ELF. */
  datatype Image = Image(start: Word, end: Word, virt: Word, elf: Option<Elf>)

  /** A search may reload the maps; `Lost` means the reload left no process context. */
  datatype Found = Miss | Lost | Hit(image: Image)

  /** `search(n, pc)` answers the n-th mapping search of the run. */
  datatype Env = Env(
    search: (nat, Word) -> Found, stack: seq<Byte>, rawSp: Word, page: Word, verbose: bool, goOnlyBuildId: bool)
  {
    ghost predicate Valid() {
      0 < page && |stack| < TWO64
    }
  }

  function Snap(env: Env, regs: Regs): Snapshot
    requires env.Valid()
  {
    Sample(regs, env.stack, env.rawSp, env.page)
  }

  datatype Stop =
    | Fine | Unknown | NoExecPc | NoCfi | DecodeFailed | CfaFailed | CalcFailed
    | ReadOutOfRange | EndOfStack | NoProgress | Truncated

  function StopOf(r: Reason): Stop {
    match r
    case Ok => Fine
    case FrameCfaFailed => CfaFailed
    case StackReadOutOfRange => ReadOutOfRange
    case CfaCalcFailed => CalcFailed
  }

  // ----- frames -----

  datatype Frame = Frame(absPc: Word, pc: Word, symbol: Option<string>, offset: Word, anonymous: bool)

  function LookupPc(pc: Word, initial: bool, signal: bool): Word {
    if initial || signal || pc == 0 then pc else pc - 1
  }

  /** The symbol that covers `pc` and the distance into it. */
  function SymbolAt(elf: Elf, pc: Word): (Option<string>, Word) {
    if elf.symbols == [] then (None, 0)
    else
      var k := Lookup(elf.symbols, pc);
      if k == -1 || Untag(elf.symbols[k].priv) >= |elf.names| then (None, 0)
      else (Some(elf.names[Untag(elf.symbols[k].priv)]), Sub(pc, elf.symbols[k].start))
  }

  predicate IsBottom(symbol: Option<string>) {
    match symbol
    case None => false
    case Some(s) => s in ["_start", "__libc_start_main", "__libc_start_call_main", "start_thread", "clone", "__clone"]
  }

  function ElfPc(image: Image, pc: Word): Word {
    A.RelativePc(image.start, image.virt, pc)
  }

  function FrameOf(env: Env, elf: Elf, pc: Word, rel: Word, look: Word): Frame {
    var (symbol, offset) := SymbolAt(elf, look);
    if env.goOnlyBuildId && elf.golang then Frame(pc, Sub(rel, offset), None, 0, false)
    else Frame(pc, rel, symbol, offset, false)
  }

  // ----- one turn of the main loop -----

  datatype Main = Main(
    regs: Regs, pc: Word, sp: Word, prevSp: Word, prevPc: Word, signal: bool, loops: nat,
    item: Option<Image>, searches: nat, live: bool, last: Stop,
    frames: seq<Frame>, sps: seq<Word>)

  datatype Turn = Next(st: Main) | Halt(st: Main, stop: Stop, append: bool)

  predicate Covers(item: Option<Image>, pc: Word) {
    item.Some? && item.value.elf.Some? && item.value.start <= pc < item.value.end
  }

  datatype Caller = Caller(pc: Word, sp: Word, regs: Regs, last: Stop) | NoCaller(stop: Stop)

  function Recover(env: Env, p: Parsed, reg: RegId, regs: Regs, bias: Word): Outcome
    requires env.Valid()
  {
    Eval(GetOps(p, Some(reg)).value, p.cfa, Snap(env, regs), bias)
  }

  /** The caller's PC, SP and registers; a frame pointer that cannot be recovered is left alone. */
  function CallerOf(env: Env, p: Parsed, bias: Word, regs: Regs, initial: bool): Caller
    requires env.Valid()
  {
    var ra := Recover(env, p, Rip, regs, bias);
    var sp := Recover(env, p, Rsp, regs, bias);
    var bp := Recover(env, p, Rbp, regs, bias);
    if !ra.Value? && !initial then NoCaller(StopOf(ReasonOf(ra)))
    else if !sp.Value? then NoCaller(StopOf(ReasonOf(sp)))
    else Caller(if ra.Value? then ra.value else regs[RIP], sp.value,
                if bp.Value? then regs[RBP := bp.value] else regs, StopOf(ReasonOf(bp)))
  }

  function StepTo(st: Main, c: Caller, signal: bool): Turn
    requires c.Caller?
  {
    var moved := st.(pc := c.pc, sp := c.sp, regs := c.regs, signal := signal, last := c.last);
    if c.pc == 0 then Halt(moved, EndOfStack, false)
    else if c.sp <= st.prevSp || c.pc == st.prevPc then Halt(moved, NoProgress, false)
    else Turn.Next(moved.(prevSp := c.sp, prevPc := c.pc, regs := c.regs[RSP := c.sp][RIP := c.pc]))
  }

  function Emit(st: Main, f: Frame): Main {
    st.(frames := st.frames + [f], sps := st.sps + [st.sp])
  }

  function Visit(env: Env, st: Main, image: Image, initial: bool): Turn
    requires env.Valid() && image.elf.Some?
  {
    var elf, rel := image.elf.value, ElfPc(image, st.pc);
    var look := LookupPc(rel, initial, st.signal);
    var emitted := Emit(st, FrameOf(env, elf, st.pc, rel, look));
    if IsBottom(SymbolAt(elf, look).0) then Halt(emitted, EndOfStack, false)
    else if elf.cfi.None? then Halt(emitted, NoCfi, false)
    else match Uncached(elf.cfi.value, look)
      case None => Halt(emitted, DecodeFailed, false)
      case Some(p) =>
        var c := CallerOf(env, p, Sub(image.start, image.virt), st.regs, initial);
        if c.NoCaller? then Halt(emitted, c.stop, false) else StepTo(emitted, c, p.signal)
  }

  /** The turn counter moves only inside the verbose log statement. */
  function Iterate(env: Env, st: Main): Turn
    requires env.Valid()
  {
    var initial := st.loops == 0;
    var begun := if env.verbose then st.(loops := st.loops + 1) else st;
    if Covers(st.item, st.pc) then Visit(env, begun, st.item.value, initial)
    else
      var searched := begun.(searches := st.searches + 1);
      match env.search(st.searches, st.pc)
      case Miss => Halt(searched, NoExecPc, false)
      case Lost => Halt(searched.(live := false), NoExecPc, false)
      case Hit(image) =>
        var found := searched.(item := Some(image));
        if image.elf.None? then Halt(found, NoExecPc, true) else Visit(env, found, image, initial)
  }

  /** At most `n` turns. */
  function MainRun(env: Env, st: Main, n: nat): (r: Turn)
    requires env.Valid()
    ensures r.Halt?
    decreases n
  {
    if n == 0 then Halt(st, st.last, false)
    else match Iterate(env, st)
      case Next(st') => MainRun(env, st', n - 1)
      case Halt(st', stop, append) => Halt(st', stop, append)
  }

  function Begin(regs: Regs): Main {
    Main(regs, regs[RIP], regs[RSP], regs[RSP], 0, false, 0, None, 0, true, Unknown, [], [])
  }

  // ----- progress of the main loop -----

  ghost predicate Increasing(s: seq<Word>) {
    forall i, j :: 0 <= i < j < |s| ==> s[i] < s[j]
  }

  /** From the second frame on, no frame repeats the PC of the one before. */
  ghost predicate NoRepeat(frames: seq<Frame>) {
    forall i :: 1 < i < |frames| ==> frames[i].absPc != frames[i - 1].absPc
  }

  ghost predicate Progress(st: Main) {
    |st.sps| == |st.frames| && Increasing(st.sps) && NoRepeat(st.frames)
  }

  /** What holds at the head of every turn of a run from `Begin`. */
  ghost predicate Running(st: Main) {
    && Progress(st)
    && st.prevSp == st.sp && (forall s :: s in st.sps ==> s < st.sp)
    && (st.frames != [] ==> st.prevPc == st.pc)
    && (|st.frames| > 1 ==> st.frames[|st.frames| - 1].absPc != st.pc)
    && st.regs[RIP] == st.pc && st.regs[RSP] == st.sp && (st.frames != [] ==> st.pc != 0)
  }

  lemma EmitProgress(st: Main, f: Frame)
    requires Running(st) && f.absPc == st.pc
    ensures Progress(Emit(st, f))
    ensures forall s :: s in Emit(st, f).sps ==> s <= st.sp
  {
    var e := Emit(st, f);
    forall i, j | 0 <= i < j < |e.sps| ensures e.sps[i] < e.sps[j] {
      assert e.sps[i] == st.sps[i];
      assert st.sps[i] in st.sps;
      assert e.sps[j] == if j < |st.sps| then st.sps[j] else st.sp;
    }
    forall i | 1 < i < |e.frames| ensures e.frames[i].absPc != e.frames[i - 1].absPc {
      assert e.frames[i - 1] == st.frames[i - 1];
      assert e.frames[i] == if i < |st.frames| then st.frames[i] else f;
    }
  }

  lemma StepProgress(st: Main, f: Frame, c: Caller, signal: bool)
    requires Running(st) && f.absPc == st.pc && c.Caller?
    ensures var t := StepTo(Emit(st, f), c, signal);
            Progress(t.st) && t.st.frames == st.frames + [f] && (t.Next? ==> Running(t.st)) && (t.Halt? ==> !t.append)
  {
    hide Increasing, NoRepeat;
    EmitProgress(st, f);
  }

  lemma FrameAbs(env: Env, elf: Elf, pc: Word, rel: Word, look: Word)
    ensures FrameOf(env, elf, pc, rel, look).absPc == pc
  {
    hide SymbolAt;
  }

  lemma VisitProgress(env: Env, st: Main, image: Image, initial: bool)
    requires env.Valid() && image.elf.Some? && Running(st)
    ensures var t := Visit(env, st, image, initial);
            && |t.st.frames| == |st.frames| + 1
            && Progress(t.st) && (t.Next? ==> Running(t.st)) && (t.Halt? ==> !t.append)
  {
    hide CallerOf, Uncached, FrameOf, SymbolAt, IsBottom, ElfPc, LookupPc, StepTo, Progress, Running;
    var rel := ElfPc(image, st.pc);
    var look := LookupPc(rel, initial, st.signal);
    var f := FrameOf(env, image.elf.value, st.pc, rel, look);
    FrameAbs(env, image.elf.value, st.pc, rel, look);
    EmitProgress(st, f);
    if image.elf.value.cfi.Some? && Uncached(image.elf.value.cfi.value, look).Some? {
      var p := Uncached(image.elf.value.cfi.value, look).value;
      var c := CallerOf(env, p, Sub(image.start, image.virt), st.regs, initial);
      if c.Caller? {
        StepProgress(st, f, c, p.signal);
      }
    }
  }

  lemma SameProgress(st: Main, st': Main)
    requires Running(st) && st'.frames == st.frames && st'.sps == st.sps
    requires st'.pc == st.pc && st'.sp == st.sp && st'.prevPc == st.prevPc && st'.prevSp == st.prevSp
    requires st'.regs == st.regs
    ensures Running(st') && Progress(st')
  {
  }

  lemma TurnProgress(env: Env, st: Main)
    requires env.Valid() && Running(st)
    ensures var t := Iterate(env, st);
            && Progress(t.st) && (t.Next? ==> Running(t.st) && |t.st.frames| == |st.frames| + 1)
            && |t.st.frames| <= |st.frames| + 1
            && (t.Halt? && t.append ==> t.st.frames == st.frames)
  {
    hide Visit, Running, Progress, UsableCfi, Uncached;
    var initial := st.loops == 0;
    var begun := if env.verbose then st.(loops := st.loops + 1) else st;
    if Covers(st.item, st.pc) {
      SameProgress(st, begun);
      VisitProgress(env, begun, st.item.value, initial);
    } else {
      var found := env.search(st.searches, st.pc);
      if found.Hit? && found.image.elf.Some? {
        var searched := begun.(searches := st.searches + 1, item := Some(found.image));
        SameProgress(st, searched);
        VisitProgress(env, searched, found.image, initial);
      } else {
        SameProgress(st, Iterate(env, st).st);
      }
    }
  }

  /** Every run of the loop: at most `n` more frames, rising stack pointers, no repeated caller PC. */
  lemma {:induction false} MainProgress(env: Env, st: Main, n: nat)
    requires env.Valid() && Running(st)
    ensures var t := MainRun(env, st, n);
            && Progress(t.st) && |t.st.frames| <= |st.frames| + n
            && (t.append ==> |t.st.frames| < |st.frames| + n)
    decreases n
  {
    hide Iterate, Progress;
    if n > 0 {
      TurnProgress(env, st);
      var t := Iterate(env, st);
      if t.Next? {
        MainProgress(env, t.st, n - 1);
      }
    }
  }

  // ----- which frames count as innermost -----

  /** The state at the head of turn `k`, when the run gets there. */
  function Head(env: Env, st: Main, k: nat): Option<Main>
    requires env.Valid()
    decreases k
  {
    if k == 0 then Some(st)
    else
      var before :- Head(env, st, k - 1);
      var t := Iterate(env, before);
      if t.Next? then Some(t.st) else None
  }

  lemma VisitCounts(env: Env, st: Main, image: Image, initial: bool)
    requires env.Valid() && image.elf.Some?
    ensures Visit(env, st, image, initial).st.loops == st.loops
  {
    hide CallerOf, Uncached, FrameOf, SymbolAt, IsBottom, ElfPc, LookupPc;
  }

  lemma TurnCounts(env: Env, st: Main)
    requires env.Valid()
    ensures Iterate(env, st).st.loops == if env.verbose then st.loops + 1 else st.loops
  {
    hide Visit, UsableCfi, Uncached;
    var initial := st.loops == 0;
    var begun := if env.verbose then st.(loops := st.loops + 1) else st;
    if Covers(st.item, st.pc) {
      VisitCounts(env, begun, st.item.value, initial);
    } else {
      var found := env.search(st.searches, st.pc);
      if found.Hit? && found.image.elf.Some? {
        VisitCounts(env, begun.(searches := st.searches + 1, item := Some(found.image)), found.image, initial);
      }
    }
  }

  lemma {:induction false} HeadRunning(env: Env, regs: Regs, k: nat)
    requires env.Valid()
    ensures match Head(env, Begin(regs), k)
            case None => true
            case Some(st) => Running(st) && |st.frames| == k && st.loops == if env.verbose then k else 0
  {
    hide Iterate;
    if k > 0 {
      HeadRunning(env, regs, k - 1);
      if Head(env, Begin(regs), k - 1).Some? {
        var st := Head(env, Begin(regs), k - 1).value;
        TurnProgress(env, st);
        TurnCounts(env, st);
      }
    }
  }

  /** A caller frame is looked up one byte before its return address exactly when logging is verbose. */
  lemma CallerLookup(env: Env, regs: Regs, k: nat, rel: Word)
    requires env.Valid() && k > 0 && Head(env, Begin(regs), k).Some? && rel != 0
    requires !Head(env, Begin(regs), k).value.signal
    ensures var st := Head(env, Begin(regs), k).value;
            LookupPc(rel, st.loops == 0, st.signal) == rel - 1 <==> env.verbose
  {
    hide Head;
    HeadRunning(env, regs, k);
  }

  /** After the innermost frame, a return address that CFI cannot recover always ends the run. */
  lemma FallbackOnlyInnermost(env: Env, st: Main, image: Image, initial: bool)
    requires env.Valid() && Running(st) && st.frames != [] && image.elf.Some? && image.elf.value.cfi.Some?
    ensures var look := LookupPc(ElfPc(image, st.pc), initial, st.signal);
            var p := Uncached(image.elf.value.cfi.value, look);
            p.Some? && !Recover(env, p.value, Rip, st.regs, Sub(image.start, image.virt)).Value?
            ==> Visit(env, st, image, initial).Halt?
  {
    hide Uncached, FrameOf, SymbolAt, IsBottom, ElfPc, LookupPc, Recover, Progress;
  }

  // ----- the first pair of frames -----

  /** CFI whose one row has `rip` for the return address and puts the caller's SP eight bytes up. */
  function StuckCfi(rip: RegRule): Cfi {
    Cfi([], [Item(0, 100, 0)],
        [Fde(Cie(1, 1, 0, false, Rules(CfaRegister(RSP, 8), rip, Undefined, Undefined)), 0, 0, 0)])
  }

  function StuckParse(rip: RegRule): Parsed {
    var cfa := [Op(DW_OP_bregx, RSP, 8, 0)];
    Parsed(false, cfa, OrElse(CompileReg(rip, []), []), [], cfa)
  }

  lemma StuckParses(rip: RegRule, pc: Word)
    ensures ValidCfi(StuckCfi(rip))
    ensures Uncached(StuckCfi(rip), pc).Some? ==> Uncached(StuckCfi(rip), pc) == Some(StuckParse(rip))
    ensures pc < 100 ==> Uncached(StuckCfi(rip), pc).Some?
  {
    var c := StuckCfi(rip);
    var f := c.fdes[0];
    assert Untag(0) == 0;
    assert RunTo(f.cie, false, c.section[..f.end], f.begin, f.start, Start(f), pc) == Some(Start(f));
    assert pc < 100 ==> Find(c.table, pc, 0, 0) == 0;
    hide RunTo, Find, Untag, CompileReg;
  }

  function StuckRegs(): Regs {
    seq(17, i => if i == RIP then 50 else if i == RSP then 1000 else 0)
  }

  lemma StuckUsable(rip: RegRule)
    ensures UsableCfi(StuckCfi(rip))
  {
    hide Uncached, StuckCfi;
    StuckParses(rip, 0);
    forall pc: Word | Uncached(StuckCfi(rip), pc).Some? ensures NoCfaCall(Uncached(StuckCfi(rip), pc).value.cfa) {
      StuckParses(rip, pc);
    }
  }

  function StuckElf(rip: RegRule): Elf {
    StuckUsable(rip);
    ElfData([], [], Some(StuckCfi(rip)), false)
  }

  function StuckEnv(rip: RegRule): Env {
    Env((n, pc) => Found.Hit(Image(0, 100, 0, Some(StuckElf(rip)))), [], 1000, 4096, false, false)
  }

  /** With the rule "same as RIP", and without any rule, the caller's PC is 50 again. */
  lemma StuckCaller(env: Env, rip: RegRule)
    requires env.Valid() && (rip == Register(RIP) || rip == Undefined)
    ensures CallerOf(env, StuckParse(rip), 0, StuckRegs(), true) == Caller(50, 1008, StuckRegs(), CalcFailed)
    ensures Recover(env, StuckParse(rip), Rip, StuckRegs(), 0).Value? <==> rip.Register?
  {
    hide Run;
    var snap, p := Snap(env, StuckRegs()), StuckParse(rip);
    var cfa := EvalWith(p.cfa, snap, 0, Failed);
    RuleMeaning.RegisterCompiles(RIP, cfa, snap, 0);
    RuleMeaning.CfaCompiles(CfaRegister(RSP, 8), snap, 0);
    CfaSelf(p.cfa, snap, 0);
  }

  lemma StuckStart()
    ensures StuckRegs()[RIP] == 50 && StuckRegs()[RSP] == 1000
  {
  }

  /** After the first turn the run is at PC 50 in the image it already has. */
  lemma StuckHead(rip: RegRule)
    requires rip == Register(RIP) || rip == Undefined
    ensures var st := Head(StuckEnv(rip), Begin(StuckRegs()), 1);
            && st.Some? && st.value.pc == 50 && Covers(st.value.item, 50)
            && |st.value.frames| == 1 && st.value.frames[0].absPc == 50
  {
    hide Uncached, CallerOf, StuckRegs, StuckParse, UsableCfi, Lookup, StuckCfi;
    var env, regs := StuckEnv(rip), StuckRegs();
    StuckStart();
    StuckParses(rip, 50);
    StuckCaller(env, rip);
    assert Head(env, Begin(regs), 0) == Some(Begin(regs));
  }

  lemma StuckFrames(rip: RegRule)
    requires rip == Register(RIP) || rip == Undefined
    ensures var st := Head(StuckEnv(rip), Begin(StuckRegs()), 1);
            st.Some? &&
            var frames := Iterate(StuckEnv(rip), st.value).st.frames;
            |frames| == 2 && frames[0].absPc == frames[1].absPc == 50
  {
    hide Head, Visit, UsableCfi, Uncached, StuckRegs, StuckElf;
    StuckHead(rip);
    var st := Head(StuckEnv(rip), Begin(StuckRegs()), 1).value;
    VisitFrames(StuckEnv(rip), st, st.item.value, st.loops == 0);
    assert Iterate(StuckEnv(rip), st).st.frames[..1] == st.frames;
  }

  /** A run that emits two frames with the same PC because CFI gives that PC as return address. */
  lemma FirstPairMayRepeat()
    ensures var st := Head(StuckEnv(Register(RIP)), Begin(StuckRegs()), 1);
            st.Some? &&
            var frames := Iterate(StuckEnv(Register(RIP)), st.value).st.frames;
            |frames| == 2 && frames[0].absPc == frames[1].absPc == 50
  {
    hide Head, Iterate, StuckEnv, StuckRegs;
    StuckFrames(Register(RIP));
  }

  /** A run that emits them because CFI gives no return address and the fallback hands back the sampled PC. */
  lemma FallbackRuns()
    ensures var env, regs := StuckEnv(Undefined), StuckRegs();
            !Recover(env, StuckParse(Undefined), Rip, regs, 0).Value?
            && Uncached(StuckCfi(Undefined), regs[RIP]) == Some(StuckParse(Undefined))
    ensures var st := Head(StuckEnv(Undefined), Begin(StuckRegs()), 1);
            st.Some? &&
            var frames := Iterate(StuckEnv(Undefined), st.value).st.frames;
            |frames| == 2 && frames[0].absPc == frames[1].absPc == 50
  {
    hide Head, Iterate, StuckRegs, Recover, Uncached, StuckParse, StuckCfi;
    StuckStart();
    StuckParses(Undefined, 50);
    StuckCaller(StuckEnv(Undefined), Undefined);
    StuckFrames(Undefined);
  }

  /** The first turn of a run whose PC lies in an image with CFI. */
  ghost predicate FirstTurn(env: Env, regs: Regs, image: Image, p: Parsed) {
    && env.search(0, regs[RIP]) == Found.Hit(image) && image.elf.Some? && image.elf.value.cfi.Some?
    && Uncached(image.elf.value.cfi.value, ElfPc(image, regs[RIP])) == Some(p)
  }

  /** The return address of the innermost frame, as CFI gives it. */
  function FirstReturn(env: Env, regs: Regs, image: Image, p: Parsed): Outcome
    requires env.Valid()
  {
    Recover(env, p, Rip, regs, Sub(image.start, image.virt))
  }

  lemma FirstFrames(env: Env, regs: Regs, image: Image, p: Parsed)
    requires env.Valid() && FirstTurn(env, regs, image, p) && Head(env, Begin(regs), 1).Some?
    ensures var st, ra := Head(env, Begin(regs), 1).value, FirstReturn(env, regs, image, p);
            && |st.frames| == 1 && st.frames[0].absPc == regs[RIP]
            && st.pc == if ra.Value? then ra.value else regs[RIP]
  {
    hide Uncached, FrameOf, SymbolAt, IsBottom, ElfPc, Recover, UsableCfi;
    var st := Begin(regs);
    assert Head(env, st, 0) == Some(st);
    var rel := ElfPc(image, regs[RIP]);
    FrameAbs(env, image.elf.value, regs[RIP], rel, rel);
  }

  /** The second frame repeats the PC of the first exactly when CFI gives no return address or that PC again. */
  lemma FirstPairExact(env: Env, regs: Regs, image: Image, p: Parsed)
    requires env.Valid() && FirstTurn(env, regs, image, p) && Head(env, Begin(regs), 1).Some?
    ensures var st, ra := Head(env, Begin(regs), 1).value, FirstReturn(env, regs, image, p);
            var frames := Iterate(env, st).st.frames;
            |frames| == 2 ==> (frames[0].absPc == frames[1].absPc <==> !ra.Value? || ra.value == regs[RIP])
  {
    hide Head, FirstTurn, FirstReturn, Iterate;
    FirstFrames(env, regs, image, p);
    TurnFrames(env, Head(env, Begin(regs), 1).value);
  }

  /** The innermost fallback hands back the sampled PC: a run that goes on with it repeats its first frame. */
  lemma FallbackRepeats(env: Env, regs: Regs, image: Image, p: Parsed)
    requires env.Valid() && FirstTurn(env, regs, image, p) && Head(env, Begin(regs), 1).Some?
    requires !FirstReturn(env, regs, image, p).Value?
    ensures var st := Head(env, Begin(regs), 1).value;
            var frames := Iterate(env, st).st.frames;
            st.pc == regs[RIP] && (|frames| == 2 ==> frames[0].absPc == frames[1].absPc == regs[RIP])
  {
    hide Head, FirstTurn, FirstReturn, Iterate;
    FirstFrames(env, regs, image, p);
    TurnFrames(env, Head(env, Begin(regs), 1).value);
  }

  lemma TurnFrames(env: Env, st: Main)
    requires env.Valid()
    ensures var frames := Iterate(env, st).st.frames;
            frames == st.frames || (|frames| == |st.frames| + 1 && frames[..|st.frames|] == st.frames
                                    && frames[|st.frames|].absPc == st.pc)
  {
    hide Visit, UsableCfi, Uncached;
    var initial := st.loops == 0;
    var begun := if env.verbose then st.(loops := st.loops + 1) else st;
    if Covers(st.item, st.pc) {
      VisitFrames(env, begun, st.item.value, initial);
    } else {
      var found := env.search(st.searches, st.pc);
      if found.Hit? && found.image.elf.Some? {
        VisitFrames(env, begun.(searches := st.searches + 1, item := Some(found.image)), found.image, initial);
      }
    }
  }

  lemma VisitFrames(env: Env, st: Main, image: Image, initial: bool)
    requires env.Valid() && image.elf.Some?
    ensures var frames := Visit(env, st, image, initial).st.frames;
            |frames| == |st.frames| + 1 && frames[..|st.frames|] == st.frames && frames[|st.frames|].absPc == st.pc
  {
    hide CallerOf, Uncached, FrameOf, SymbolAt, IsBottom, ElfPc, LookupPc;
    var rel := ElfPc(image, st.pc);
    FrameAbs(env, image.elf.value, st.pc, rel, LookupPc(rel, initial, st.signal));
  }

  // ----- the frame-pointer tail -----

  /** `bps[i]` is the frame pointer whose saved pair gave the i-th frame of the tail's loop. */
  datatype Tail = Tail(item: Option<Image>, searches: nat, frames: seq<Frame>, bps: seq<Word>)

  datatype Appended = Refused(t: Tail) | Added(t: Tail, end: bool)

  function Show(t: Tail, image: Image, pc: Word, initial: bool): Appended {
    match image.elf
    case None => Added(t.(frames := t.frames + [Frame(pc, pc, None, 0, true)]), false)
    case Some(elf) =>
      var rel := ElfPc(image, pc);
      var (symbol, offset) := SymbolAt(elf, LookupPc(rel, initial, false));
      Added(t.(frames := t.frames + [Frame(pc, rel, symbol, offset, false)]), IsBottom(symbol))
  }

  function AppendPc(env: Env, t: Tail, pc: Word, initial: bool): Appended {
    if pc == 0 then Refused(t)
    else if Covers(t.item, pc) then Show(t, t.item.value, pc, initial)
    else
      var searched := t.(item := None, searches := t.searches + 1);
      match env.search(t.searches, pc)
      case Hit(image) => Show(searched.(item := Some(image)), image, pc, initial)
      case _ => Refused(searched)
  }

  predicate Sane(bp: Word, next: Word) {
    bp != 0 && next != 0 && bp % 8 == 0 && next % 8 == 0 && bp < next
  }

  /** The saved frame pointer and return address at `bp`, when the chain may be followed there. */
  function Link(snap: Snapshot, bp: Word): Option<(Word, Word)> {
    var next :- ReadStack(snap, bp);
    var pc :- ReadStack(snap, Add(bp, 8));
    if !Sane(bp, next) || pc == 0 then None else Some((next, pc))
  }

  function TailLoop(env: Env, snap: Snapshot, t: Tail, bp: Word, n: nat): Tail
    decreases n
  {
    if n == 0 || Link(snap, bp).None? then t
    else
      var (next, pc) := Link(snap, bp).value;
      match AppendPc(env, t, pc, false)
      case Refused(t') => t'
      case Added(t', end) =>
        var seen := t'.(bps := t'.bps + [bp]);
        if end then seen else TailLoop(env, snap, seen, next, n - 1)
  }

  function TailRun(env: Env, snap: Snapshot, searches: nat, bp: Word, pc: Word, append: bool): Tail {
    var t := Tail(None, searches, [], []);
    var first := if append then AppendPc(env, t, pc, true) else Refused(t);
    if first.Added? && first.end then first.t else TailLoop(env, snap, first.t, bp, MAX_FP_FRAMES)
  }

  // ----- the tail's frame pointers -----

  /** Rising, aligned, and each with its saved pair inside the snapshot. */
  ghost predicate Chain(snap: Snapshot, bps: seq<Word>) {
    && Increasing(bps)
    && forall b :: b in bps ==> b % 8 == 0 && WindowStart(snap) <= b && b + 16 <= WindowStart(snap) + |snap.stack|
  }

  lemma LinkInside(snap: Snapshot, bp: Word)
    requires Link(snap, bp).Some?
    ensures bp % 8 == 0 && WindowStart(snap) <= bp && bp + 16 <= WindowStart(snap) + |snap.stack|
    ensures bp < Link(snap, bp).value.0
  {
  }

  lemma ChainExtends(snap: Snapshot, bps: seq<Word>, bp: Word)
    requires Chain(snap, bps) && Link(snap, bp).Some? && (forall b :: b in bps ==> b < bp)
    ensures Chain(snap, bps + [bp])
  {
    LinkInside(snap, bp);
    var more := bps + [bp];
    forall i, j | 0 <= i < j < |more| ensures more[i] < more[j] {
      assert more[i] == bps[i];
      assert bps[i] in bps;
      assert j < |bps| ==> more[j] == bps[j];
    }
  }

  lemma AppendAdds(env: Env, t: Tail, pc: Word, initial: bool)
    ensures match AppendPc(env, t, pc, initial)
            case Refused(t') => t'.frames == t.frames && t'.bps == t.bps
            case Added(t', _) => |t'.frames| == |t.frames| + 1 && t'.bps == t.bps
  {
    hide SymbolAt, IsBottom, ElfPc, LookupPc, UsableCfi;
  }

  lemma {:induction false} TailChain(env: Env, snap: Snapshot, t: Tail, bp: Word, n: nat)
    requires Chain(snap, t.bps) && (forall b :: b in t.bps ==> b < bp)
    ensures var r := TailLoop(env, snap, t, bp, n);
            && Chain(snap, r.bps) && |r.frames| - |t.frames| == |r.bps| - |t.bps|
            && |t.bps| <= |r.bps| <= |t.bps| + n
    decreases n
  {
    hide AppendPc, Link, Chain;
    if n > 0 && Link(snap, bp).Some? {
      var (next, pc) := Link(snap, bp).value;
      AppendAdds(env, t, pc, false);
      var a := AppendPc(env, t, pc, false);
      if a.Added? {
        ChainExtends(snap, t.bps, bp);
        LinkInside(snap, bp);
        if !a.end {
          TailChain(env, snap, a.t.(bps := t.bps + [bp]), next, n - 1);
        }
      }
    }
  }

  /** Aligned words in a rising chain are at least eight apart. */
  lemma {:induction false} ChainSpread(snap: Snapshot, bps: seq<Word>)
    requires Chain(snap, bps) && bps != []
    ensures bps[0] + 8 * (|bps| - 1) <= bps[|bps| - 1]
    decreases |bps|
  {
    hide WindowStart;
    if |bps| > 1 {
      var front := bps[..|bps| - 1];
      assert forall b :: b in front ==> b in bps;
      ChainSpread(snap, front);
      var a, b := front[|front| - 1], bps[|bps| - 1];
      assert a in bps && b in bps;
      EightApart(a, b);
    }
  }

  lemma EightApart(a: Word, b: Word)
    requires a < b && a % 8 == 0 && b % 8 == 0
    ensures a + 8 <= b
  {
  }

  /** The loop of the tail emits at most one frame per eight bytes of the snapshot. */
  lemma ChainFits(snap: Snapshot, bps: seq<Word>)
    requires Chain(snap, bps)
    ensures 8 * |bps| <= |snap.stack|
  {
    hide WindowStart;
    if bps != [] {
      ChainSpread(snap, bps);
      assert bps[0] in bps && bps[|bps| - 1] in bps;
    }
  }

  // ----- whole runs -----

  /** The frames handed to the callback and the stop reason. */
  function Unwound(env: Env, regs: Regs): (seq<Frame>, Stop)
    requires env.Valid()
  {
    var main := MainRun(env, Begin(regs), MAX_FRAMES);
    var stop := if main.stop == Unknown then Truncated else main.stop;
    if stop == EndOfStack || !main.st.live then (main.st.frames, stop)
    else
      var tail := TailRun(env, Snap(env, main.st.regs), main.st.searches, main.st.regs[RBP], main.st.pc, main.append);
      (main.st.frames + tail.frames, if tail.frames == [] then stop else EndOfStack)
  }

  lemma TailBounds(env: Env, snap: Snapshot, searches: nat, bp: Word, pc: Word, append: bool)
    ensures var r := TailRun(env, snap, searches, bp, pc, append);
            && Chain(snap, r.bps) && |r.bps| <= MAX_FP_FRAMES && 8 * |r.bps| <= |snap.stack|
            && |r.bps| <= |r.frames| <= |r.bps| + (if append then 1 else 0)
  {
    hide AppendPc, TailLoop, Chain;
    var t := Tail(None, searches, [], []);
    AppendAdds(env, t, pc, true);
    var first := if append then AppendPc(env, t, pc, true) else Refused(t);
    EmptyChain(snap);
    TailChain(env, snap, first.t, bp, MAX_FP_FRAMES);
    ChainFits(snap, TailRun(env, snap, searches, bp, pc, append).bps);
  }

  lemma EmptyChain(snap: Snapshot)
    ensures Chain(snap, [])
  {
  }

  /** Every run ends with at most 512 + 127 callbacks. */
  lemma UnwindBounded(env: Env, regs: Regs)
    requires env.Valid()
    ensures |Unwound(env, regs).0| <= MAX_FRAMES + MAX_FP_FRAMES
  {
    hide MainRun, TailRun, Chain;
    MainProgress(env, Begin(regs), MAX_FRAMES);
    var main := MainRun(env, Begin(regs), MAX_FRAMES);
    TailBounds(env, Snap(env, main.st.regs), main.st.searches, main.st.regs[RBP], main.st.pc, main.append);
  }

  /** The frames of the CFI loop come first, with rising stack pointers and no repeated caller PC. */
  lemma UnwindProgress(env: Env, regs: Regs)
    requires env.Valid()
    ensures var main := MainRun(env, Begin(regs), MAX_FRAMES).st;
            && main.frames <= Unwound(env, regs).0 && |main.frames| <= MAX_FRAMES
            && |main.sps| == |main.frames| && Increasing(main.sps) && NoRepeat(main.frames)
  {
    hide MainRun, TailRun;
    MainProgress(env, Begin(regs), MAX_FRAMES);
  }

  // ----- the loops -----

  /** `gu_stack_snapshot_read_u64`: bounds by wrapping arithmetic. */
  method SnapshotRead(snap: Snapshot, addr: Word) returns (r: Option<Word>)
    ensures r == ReadStack(snap, addr)
  {
    hide Operands.Little64;
    var start := WindowStart(snap);
    var end := Add(start, |snap.stack|);
    if addr < start || addr >= end || Add(addr, 8) < addr || end - addr < 8 {
      return None;
    }
    r := Some(Operands.Little64(snap.stack, addr - start));
  }

  class Backtrace {
    const env: Env
    const unwinder: Unwinder
    var regs: Regs
    var pc: Word
    var sp: Word
    var prevSp: Word
    var prevPc: Word
    var signal: bool
    var loops: nat
    var item: Option<Image>
    var searches: nat
    var live: bool
    var last: Stop
    var frames: seq<Frame>
    var sps: seq<Word>

    function Now(): Main
      reads this
    {
      Main(regs, pc, sp, prevSp, prevPc, signal, loops, item, searches, live, last, frames, sps)
    }

    constructor (env: Env, regs: Regs)
      requires env.Valid()
      ensures this.env == env && Now() == Begin(regs) && fresh(unwinder)
    {
      this.env := env;
      this.regs, pc, sp, prevSp, prevPc := regs, regs[RIP], regs[RSP], regs[RSP], 0;
      signal, loops, item, searches, live, last, frames, sps := false, 0, None, 0, true, Unknown, [], [];
      unwinder := new Unwinder();
    }

    method RecoverCaller(p: Parsed, bias: Word, initial: bool) returns (c: Caller)
      requires env.Valid() && NoCfaCall(p.cfa)
      modifies unwinder
      ensures c == CallerOf(env, p, bias, regs, initial)
    {
      hide Eval, NoCfaCall;
      var snap := Snap(env, regs);
      var reason, ra := RecoverReg(unwinder, GetOps(p, Some(Rip)), p.cfa, snap, bias);
      if reason != Ok {
        if !initial {
          return NoCaller(StopOf(reason));
        }
        ra := regs[RIP];
      }
      var sp, bp;
      reason, sp := RecoverReg(unwinder, GetOps(p, Some(Rsp)), p.cfa, snap, bias);
      if reason != Ok {
        return NoCaller(StopOf(reason));
      }
      reason, bp := RecoverReg(unwinder, GetOps(p, Some(Rbp)), p.cfa, snap, bias);
      c := Caller(ra, sp, if reason == Ok then regs[RBP := bp] else regs, StopOf(reason));
    }

    /** Takes over the caller's registers unless the chain makes no progress. */
    method Move(c: Caller, frameSignal: bool) returns (stop: Option<Stop>)
      requires c.Caller?
      modifies this
      ensures StepTo(old(Now()), c, frameSignal)
           == if stop.None? then Turn.Next(Now()) else Halt(Now(), stop.value, false)
    {
      last, regs, pc, sp, signal := c.last, c.regs, c.pc, c.sp, frameSignal;
      if pc == 0 {
        return Some(EndOfStack);
      }
      if sp <= prevSp || pc == prevPc {
        return Some(NoProgress);
      }
      prevSp, prevPc := sp, pc;
      regs := regs[RSP := sp];
      regs := regs[RIP := pc];
      stop := None;
    }

    /** Reports the frame at `pc` inside `image` and steps to its caller. */
    method Enter(image: Image, initial: bool) returns (stop: Option<Stop>)
      requires env.Valid() && image.elf.Some?
      modifies this, unwinder
      ensures Visit(env, old(Now()), image, initial)
           == if stop.None? then Turn.Next(Now()) else Halt(Now(), stop.value, false)
    {
      hide CallerOf, Uncached, FrameOf, SymbolAt, IsBottom, ElfPc, LookupPc, StepTo;
      var elf, rel := image.elf.value, ElfPc(image, pc);
      var look := LookupPc(rel, initial, signal);
      frames, sps := frames + [FrameOf(env, elf, pc, rel, look)], sps + [sp];
      if IsBottom(SymbolAt(elf, look).0) {
        return Some(EndOfStack);
      }
      if elf.cfi == None {
        return Some(NoCfi);
      }
      var p := Uncached(elf.cfi.value, look);
      if p == None {
        return Some(DecodeFailed);
      }
      var c := RecoverCaller(p.value, Sub(image.start, image.virt), initial);
      if c.NoCaller? {
        return Some(c.stop);
      }
      stop := Move(c, p.value.signal);
    }

    method TakeTurn() returns (stop: Option<Stop>, append: bool)
      requires env.Valid()
      modifies this, unwinder
      ensures Iterate(env, old(Now())) == if stop.None? then Turn.Next(Now()) else Halt(Now(), stop.value, append)
      ensures stop.None? ==> !append
    {
      hide Visit, UsableCfi, Uncached;
      var initial := loops == 0;
      append := false;
      if env.verbose {
        loops := loops + 1;
      }
      if !Covers(item, pc) {
        var found := env.search(searches, pc);
        searches := searches + 1;
        match found {
          case Miss =>
            return Some(NoExecPc), false;
          case Lost =>
            live := false;
            return Some(NoExecPc), false;
          case Hit(image) =>
            item := Some(image);
            if image.elf == None {
              return Some(NoExecPc), true;
            }
        }
      }
      stop := Enter(item.value, initial);
    }

    /** `gu_unwind`: the frames given to the callback, in order, and the stop reason. */
    method Unwind() returns (all: seq<Frame>, stop: Stop)
      requires env.Valid() && Now() == Begin(regs)
      modifies this, unwinder
      ensures (all, stop) == Unwound(env, old(regs))
    {
      hide Iterate, TailRun, TailLoop, AppendPc;
      ghost var goal := MainRun(env, Now(), MAX_FRAMES);
      var left, append := MAX_FRAMES, false;
      stop := Unknown;
      var halt: Option<Stop> := None;
      while left > 0 && halt == None
        invariant 0 <= left <= MAX_FRAMES
        invariant halt == None ==> goal == MainRun(env, Now(), left) && !append
        invariant halt.Some? ==> goal == Halt(Now(), halt.value, append)
      {
        halt, append := TakeTurn();
        left := left - 1;
      }
      stop := if halt == None then last else halt.value;
      if stop == Unknown {
        stop := Truncated;
      }
      all := frames;
      if stop != EndOfStack && live {
        var tail := FollowFramePointers(env, Snap(env, regs), searches, regs[RBP], pc, append);
        all := all + tail;
        if tail != [] {
          stop := EndOfStack;
        }
      }
    }
  }

  /** `gu_append_pc_frame`. */
  method AppendPcFrame(env: Env, t: Tail, pc: Word, initial: bool) returns (a: Appended)
    ensures a == AppendPc(env, t, pc, initial)
  {
    hide Show, UsableCfi;
    if pc == 0 {
      return Refused(t);
    }
    var item, searches := t.item, t.searches;
    if !Covers(item, pc) {
      var found := env.search(searches, pc);
      item, searches := None, searches + 1;
      if !found.Hit? {
        return Refused(t.(item := item, searches := searches));
      }
      item := Some(found.image);
    }
    a := Show(t.(item := item, searches := searches), item.value, pc, initial);
  }

  /** `gu_unwind_dwarf_tail_by_fp`. */
  method FollowFramePointers(env: Env, snap: Snapshot, searches: nat, framePointer: Word, pc: Word, append: bool)
    returns (frames: seq<Frame>)
    ensures frames == TailRun(env, snap, searches, framePointer, pc, append).frames
  {
    hide AppendPc, ReadStack, Sane;
    ghost var goal := TailRun(env, snap, searches, framePointer, pc, append);
    var t := Tail(None, searches, [], []);
    if append {
      var first := AppendPcFrame(env, t, pc, true);
      t := first.t;
      if first.Added? && first.end {
        return t.frames;
      }
    }
    var bp, left := framePointer, MAX_FP_FRAMES;
    while left > 0
      invariant 0 <= left <= MAX_FP_FRAMES
      invariant goal == TailLoop(env, snap, t, bp, left)
    {
      var next := SnapshotRead(snap, bp);
      var nextPc := SnapshotRead(snap, Add(bp, 8));
      if next == None || nextPc == None || !Sane(bp, next.value) || nextPc.value == 0 {
        break;
      }
      var a := AppendPcFrame(env, t, nextPc.value, false);
      t := a.t;
      if a.Refused? {
        break;
      }
      t := t.(bps := t.bps + [bp]);
      if a.end {
        break;
      }
      bp, left := next.value, left - 1;
    }
    frames := t.frames;
  }
}
