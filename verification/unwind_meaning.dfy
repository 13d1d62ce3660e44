/** What a turn of the unwind loop recovers: the caller that the row table of the frame describes. */
module UnwindMeaning {
  import opened Words
  import opened CallFrame
  import opened FrameTable
  import opened Evaluator
  import opened CfiParser
  import opened RowRecovery
  import opened UnwindRun

  /** The image in which a turn finds its PC, when it finds one. */
  function ImageOf(env: Env, st: Main): Option<Image> {
    if Covers(st.item, st.pc) then st.item
    else match env.search(st.searches, st.pc)
      case Hit(image) => Some(image)
      case _ => None
  }

  function CfiOf(image: Image): (c: Option<Cfi>)
    ensures c.Some? ==> UsableCfi(c.value)
  {
    match image.elf
    case None => None
    case Some(elf) => elf.cfi
  }

  /** The address under which the frame at the head of a turn is looked up. */
  function LookOf(st: Main, image: Image): Word {
    LookupPc(ElfPc(image, st.pc), st.loops == 0, st.signal)
  }

  function Bias(image: Image): Word {
    Sub(image.start, image.virt)
  }

  function OrOld(v: Option<Word>, before: Word): Word {
    match v
    case None => before
    case Some(w) => w
  }

  /**
   The step from one turn to the next is the one the row describes, for each register whose lists are
   right: the return address, or the sampled PC where the row has none and the frame counts as innermost,
   the caller's stack pointer, and the frame pointer, kept where the row says nothing of it.  Registers
   6, 7 and 16 are the frame pointer, the stack pointer and the PC of x86-64.
   */
  ghost predicate Follows(env: Env, st: Main, st': Main, initial: bool, rules: Rules, section: seq<Byte>, bias: Word)
    requires env.Valid() && |section| < TWO64 && DecodedCfa(rules.cfa)
  {
    var snap := Snap(env, st.regs);
    var ra, sp, bp := RowMeaning(rules, Rip, section, snap, bias), RowMeaning(rules, Rsp, section, snap, bias),
                      RowMeaning(rules, Rbp, section, snap, bias);
    && (RowRight(rules, Rip, section, snap, bias) ==>
          st'.pc == OrOld(ra, st.regs[16]) && (ra.Some? || initial))
    && (RowRight(rules, Rsp, section, snap, bias) ==> sp == Some(st'.sp))
    && (RowRight(rules, Rbp, section, snap, bias) ==> st'.regs[6] == OrOld(bp, st.regs[6]))
    && st'.regs[16] == st'.pc && st'.regs[7] == st'.sp
    && forall n :: 0 <= n < 17 && n != 16 && n != 7 && n != 6 ==> st'.regs[n] == st.regs[n]
  }

  lemma SignalKept(c: Cfi, signal: bool, rules: Rules)
    requires |c.section| < TWO64 && Compile(c, signal, rules).Some?
    ensures Compile(c, signal, rules).value.signal == signal
  {
  }

  lemma CallerFollows(env: Env, st: Main, c: Cfi, f: Fde, rules: Rules, bias: Word, initial: bool)
    requires env.Valid() && |c.section| < TWO64 && DecodedRules(rules)
    requires Compile(c, f.cie.signal, rules).Some? && NoCfaCall(Compile(c, f.cie.signal, rules).value.cfa)
    ensures var p := Compile(c, f.cie.signal, rules).value;
            var caller := CallerOf(env, p, bias, st.regs, initial);
            caller.Caller? && StepTo(st, caller, p.signal).Next? ==>
              && StepTo(st, caller, p.signal).st.signal == f.cie.signal
              && Follows(env, st, StepTo(st, caller, p.signal).st, initial, rules, c.section, bias)
  {
    hide Compile, Eval, GetOps, RowMeaning, RowRight, NoCfaCall;
    SignalKept(c, f.cie.signal, rules);
    var snap := Snap(env, st.regs);
    RowGives(c, f.cie.signal, rules, Rip, snap, bias);
    RowGives(c, f.cie.signal, rules, Rsp, snap, bias);
    RowGives(c, f.cie.signal, rules, Rbp, snap, bias);
  }

  /** A step depends on the registers alone. */
  lemma SameRegs(env: Env, a: Main, b: Main, st': Main, initial: bool, rules: Rules, section: seq<Byte>, bias: Word)
    requires env.Valid() && |section| < TWO64 && DecodedCfa(rules.cfa) && a.regs == b.regs
    ensures Follows(env, a, st', initial, rules, section, bias) <==> Follows(env, b, st', initial, rules, section, bias)
  {
    hide RowMeaning, RowRight;
  }

  lemma VisitFollows(env: Env, st: Main, image: Image, initial: bool, f: Fde, rows: seq<Row>) returns (k: nat)
    requires env.Valid() && image.elf.Some? && image.elf.value.cfi.Some? && Visit(env, st, image, initial).Next?
    requires Tabled(image.elf.value.cfi.value, LookupPc(ElfPc(image, st.pc), initial, st.signal), f, rows)
    ensures LastUpTo(rows, LookupPc(ElfPc(image, st.pc), initial, st.signal), k) && DecodedRules(rows[k].st.rules)
    ensures Visit(env, st, image, initial).st.signal == f.cie.signal
    ensures Follows(env, st, Visit(env, st, image, initial).st, initial, rows[k].st.rules,
                    image.elf.value.cfi.value.section, Bias(image))
  {
    var c := image.elf.value.cfi.value;
    var look := LookupPc(ElfPc(image, st.pc), initial, st.signal);
    assert NoCfaCall(Uncached(c, look).value.cfa) by { hide Uncached; }
    hide Uncached, Compile, Tabled, CallerOf, FrameOf, SymbolAt, IsBottom, ElfPc, LookupPc, Follows, NoCfaCall, UsableCfi,
         DecodedRules, StepTo;
    k := ParsesLastRow(c, EmptyCache(), look, f, rows);
    var frame := FrameOf(env, image.elf.value, st.pc, ElfPc(image, st.pc), look);
    CallerFollows(env, Emit(st, frame), c, f, rows[k].st.rules, Bias(image), initial);
    SameRegs(env, Emit(st, frame), st, Visit(env, st, image, initial).st, initial, rows[k].st.rules, c.section,
             Bias(image));
  }

  function EmptyCache(): seq<Entry> {
    seq(CACHE_SIZE, _ => Vacant)
  }

  /** A turn that goes on visits its image and leaves the registers to the visit. */
  lemma TurnVisits(env: Env, st: Main) returns (begun: Main)
    requires env.Valid() && Iterate(env, st).Next?
    ensures ImageOf(env, st).Some? && ImageOf(env, st).value.elf.Some? && CfiOf(ImageOf(env, st).value).Some?
    ensures begun.regs == st.regs && begun.pc == st.pc && begun.signal == st.signal
    ensures Iterate(env, st) == Visit(env, begun, ImageOf(env, st).value, st.loops == 0)
  {
    hide UsableCfi, Uncached, CallerOf, StepTo, FrameOf, SymbolAt, IsBottom, ElfPc, LookupPc;
    begun := if env.verbose then st.(loops := st.loops + 1) else st;
    if !Covers(st.item, st.pc) {
      begun := begun.(searches := st.searches + 1, item := ImageOf(env, st));
    }
  }

  /** A complete table for the frame at the head of a turn. */
  ghost predicate TabledTurn(env: Env, st: Main, image: Image, f: Fde, rows: seq<Row>) {
    ImageOf(env, st) == Some(image) && CfiOf(image).Some? && Tabled(CfiOf(image).value, LookOf(st, image), f, rows)
  }

  /** A turn that goes on steps to the caller the last table row at or below its lookup PC describes. */
  lemma TurnFollows(env: Env, st: Main, image: Image, f: Fde, rows: seq<Row>) returns (k: nat)
    requires env.Valid() && Iterate(env, st).Next? && TabledTurn(env, st, image, f, rows)
    ensures LastUpTo(rows, LookOf(st, image), k) && DecodedRules(rows[k].st.rules)
    ensures Iterate(env, st).st.signal == f.cie.signal
    ensures Follows(env, st, Iterate(env, st).st, st.loops == 0, rows[k].st.rules, CfiOf(image).value.section,
                    Bias(image))
  {
    hide Visit, Iterate, Tabled, Follows, Uncached, ElfPc, LookupPc;
    var begun := TurnVisits(env, st);
    k := VisitFollows(env, begun, image, st.loops == 0, f, rows);
    SameRegs(env, begun, st, Iterate(env, st).st, st.loops == 0, rows[k].st.rules, CfiOf(image).value.section,
             Bias(image));
  }

  /** In every run, from each frame to the next. */
  lemma RunFollows(env: Env, regs: Regs, n: nat, image: Image, f: Fde, rows: seq<Row>) returns (k: nat)
    requires env.Valid() && Head(env, Begin(regs), n + 1).Some?
    requires Head(env, Begin(regs), n).Some? && TabledTurn(env, Head(env, Begin(regs), n).value, image, f, rows)
    ensures var st, next := Head(env, Begin(regs), n).value, Head(env, Begin(regs), n + 1).value;
            && LastUpTo(rows, LookOf(st, image), k) && DecodedRules(rows[k].st.rules) && next.signal == f.cie.signal
            && Follows(env, st, next, !env.verbose || n == 0, rows[k].st.rules, CfiOf(image).value.section, Bias(image))
  {
    hide Iterate, TabledTurn, Follows, LookOf, DecodedRules, LastUpTo, CfiOf;
    HeadRunning(env, regs, n);
    k := TurnFollows(env, Head(env, Begin(regs), n).value, image, f, rows);
  }
}
