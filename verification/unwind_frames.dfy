/** What the reported frames say, in the CFI loop and in the frame-pointer tail, and when the tail ends. */
module UnwindFrames {
  import opened Words
  import I = IntervalIndex
  import opened Evaluator
  import opened CfiParser
  import opened UnwindRun
  import opened UnwindMeaning

  // ----- symbols -----

  /** The symbol table of an ELF was built from `s`. */
  ghost predicate Named(elf: Elf, s: seq<I.Item>) {
    && s != [] && I.Sorted(s) && I.WellFormed(multiset(s)) && I.Disjoint(multiset(s))
    && elf.symbols == I.Stored(I.Filled(s))
  }

  /** An address inside a symbol gets its name and the distance from its start. */
  lemma SymbolFound(elf: Elf, s: seq<I.Item>, pc: Word, k: nat)
    requires Named(elf, s) && k < |s| && I.Contains(I.Filled(s)[k], pc) && I.Untag(s[k].priv) < |elf.names|
    ensures s[k].start <= pc && SymbolAt(elf, pc) == (Some(elf.names[I.Untag(s[k].priv)]), pc - s[k].start)
  {
    hide I.Sorted, I.WellFormed, I.Disjoint, I.Stored, I.Lookup, UsableCfi;
    I.SearchIsScan(s, pc, k);
    I.StoredIsFilled(s);
  }

  /** An address outside all symbols gets none. */
  lemma NoSymbolFound(elf: Elf, s: seq<I.Item>, pc: Word)
    requires Named(elf, s) && forall k :: 0 <= k < |s| ==> !I.Contains(I.Filled(s)[k], pc)
    ensures SymbolAt(elf, pc) == (None, 0)
  {
    hide I.Sorted, I.WellFormed, I.Disjoint, I.Stored, UsableCfi;
    I.StoredIsFilled(s);
  }

  // ----- frames of the CFI loop -----

  /** The PC relative to the file of an image. */
  function FilePc(image: Image, pc: Word): Word {
    Unsigned(pc as int - image.start as int + image.virt as int)
  }

  /** The address a frame is looked up under: the PC itself, or the byte before a return address. */
  function LookedUp(rel: Word, exact: bool): Word {
    if exact || rel == 0 then rel else Unsigned(rel as int - 1)
  }

  /** The frame for `pc`; Go files may be reported by build id and function start alone. */
  function Reported(env: Env, elf: Elf, pc: Word, rel: Word, look: Word): Frame {
    var (symbol, offset) := SymbolAt(elf, look);
    if env.goOnlyBuildId && elf.golang then Frame(pc, Unsigned(rel as int - offset as int), None, 0, false)
    else Frame(pc, rel, symbol, offset, false)
  }

  const BOTTOMS := ["_start", "__libc_start_main", "__libc_start_call_main", "start_thread", "clone", "__clone"]

  lemma Relative(image: Image, pc: Word)
    ensures ElfPc(image, pc) == FilePc(image, pc)
  {
  }

  lemma VisitReports(env: Env, st: Main, image: Image, initial: bool)
    requires env.Valid() && image.elf.Some?
    ensures var rel := FilePc(image, st.pc);
            var look, t := LookedUp(rel, initial || st.signal), Visit(env, st, image, initial);
            && t.st.frames == st.frames + [Reported(env, image.elf.value, st.pc, rel, look)]
            && ((exists name :: name in BOTTOMS && SymbolAt(image.elf.value, look).0 == Some(name)) ==>
                  t.Halt? && t.stop == EndOfStack)
  {
    hide CallerOf, Uncached, SymbolAt, FilePc, ElfPc, UsableCfi;
    Relative(image, st.pc);
  }

  /** A turn that finds a file reports one frame for its PC. */
  lemma TurnReports(env: Env, st: Main)
    requires env.Valid() && ImageOf(env, st).Some? && ImageOf(env, st).value.elf.Some?
    ensures var image := ImageOf(env, st).value;
            var rel := FilePc(image, st.pc);
            Iterate(env, st).st.frames
            == st.frames + [Reported(env, image.elf.value, st.pc, rel, LookedUp(rel, st.loops == 0 || st.signal))]
  {
    hide Visit, UsableCfi, Reported, FilePc, LookedUp, Uncached;
    var begun := if env.verbose then st.(loops := st.loops + 1) else st;
    if !Covers(st.item, st.pc) {
      begun := begun.(searches := st.searches + 1, item := ImageOf(env, st));
    }
    VisitReports(env, begun, ImageOf(env, st).value, st.loops == 0);
  }

  /** A turn that finds none reports nothing. */
  lemma TurnSilent(env: Env, st: Main)
    requires env.Valid() && (ImageOf(env, st).Some? ==> ImageOf(env, st).value.elf.None?)
    ensures var t := Iterate(env, st);
            t.Halt? && t.stop == NoExecPc && t.st.frames == st.frames && (t.append <==> ImageOf(env, st).Some?)
  {
    hide UsableCfi, Uncached;
  }

  /** When searches answer with mappings that hold the PC, so do turns that reuse the last answer. */
  lemma ImageCovers(env: Env, st: Main)
    requires forall n: nat, pc: Word ::
               env.search(n, pc).Hit? ==> env.search(n, pc).image.start <= pc < env.search(n, pc).image.end
    requires ImageOf(env, st).Some?
    ensures ImageOf(env, st).value.start <= st.pc < ImageOf(env, st).value.end
  {
    hide UsableCfi;
  }

  /** The stop reason for a register that cannot be recovered. */
  function Unrecovered(out: Outcome): Stop
    requires !out.Value?
  {
    if out.BadRead? then ReadOutOfRange else CalcFailed
  }

  /** Why a frame with the lists of `p` has no caller to go on with, from the first reason that applies to the last. */
  predicate CallerStops(env: Env, st: Main, p: Parsed, bias: Word, initial: bool, t: Turn)
    requires env.Valid()
  {
    var snap := Sample(st.regs, env.stack, env.rawSp, env.page);
    var ra, sp := Eval(p.rip, p.cfa, snap, bias), Eval(if p.rsp == [] then p.cfa else p.rsp, p.cfa, snap, bias);
    var pc := if ra.Value? then ra.value else st.regs[16];
    if !ra.Value? && !initial then t.Halt? && t.stop == Unrecovered(ra)
    else if !sp.Value? then t.Halt? && t.stop == Unrecovered(sp)
    else if pc == 0 then t.Halt? && t.stop == EndOfStack
    else if sp.value <= st.prevSp || pc == st.prevPc then t.Halt? && t.stop == NoProgress
    else t.Next?
  }

  lemma StepStops(env: Env, st: Main, f: Frame, p: Parsed, bias: Word, initial: bool)
    requires env.Valid()
    ensures var c := CallerOf(env, p, bias, st.regs, initial);
            CallerStops(env, st, p, bias, initial,
                        if c.NoCaller? then Halt(Emit(st, f), c.stop, false) else StepTo(Emit(st, f), c, p.signal))
  {
    hide Eval, UsableCfi;
  }

  /** Why a visit to a file stops. */
  lemma VisitStops(env: Env, st: Main, image: Image, initial: bool)
    requires env.Valid() && image.elf.Some?
    ensures var t, elf := Visit(env, st, image, initial), image.elf.value;
            var look := LookedUp(FilePc(image, st.pc), initial || st.signal);
            var symbol := SymbolAt(elf, look).0;
            if symbol.Some? && symbol.value in BOTTOMS then t.Halt? && t.stop == EndOfStack
            else if elf.cfi.None? then t.Halt? && t.stop == NoCfi
            else match Uncached(elf.cfi.value, look)
              case None => t.Halt? && t.stop == DecodeFailed
              case Some(p) => CallerStops(env, st, p, Sub(image.start, image.virt), initial, t)
  {
    hide Uncached, SymbolAt, FilePc, ElfPc, CallerOf, StepTo, CallerStops, FrameOf;
    Relative(image, st.pc);
    var elf, rel := image.elf.value, FilePc(image, st.pc);
    var look := LookedUp(rel, initial || st.signal);
    if elf.cfi.Some? && Uncached(elf.cfi.value, look).Some? {
      StepStops(env, st, FrameOf(env, elf, st.pc, rel, look), Uncached(elf.cfi.value, look).value,
                Sub(image.start, image.virt), initial);
    }
  }

  // ----- frames of the tail -----

  /** The two words saved at `bp` may be followed: a higher, aligned frame pointer and a return address. */
  predicate Followable(snap: Snapshot, bp: Word) {
    var saved, ra := ReadStack(snap, bp), ReadStack(snap, Unsigned(bp as int + 8));
    && saved.Some? && ra.Some? && ra.value != 0
    && bp != 0 && bp % 8 == 0 && saved.value % 8 == 0 && bp < saved.value
  }

  lemma LinkIs(snap: Snapshot, bp: Word)
    ensures Link(snap, bp).Some? <==> Followable(snap, bp)
    ensures Followable(snap, bp) ==> ReadStack(snap, bp) == Some(Link(snap, bp).value.0)
    ensures Followable(snap, bp) ==>
              ReadStack(snap, Unsigned(bp as int + 8)) == Some(Link(snap, bp).value.1) && Link(snap, bp).value.1 != 0
  {
    hide ReadStack;
    assert Add(bp, 8) == Unsigned(bp as int + 8);
  }

  /** The frame for a return address of the tail, or the current PC when `exact`. */
  function TailFrame(image: Image, pc: Word, exact: bool): (f: Frame)
    ensures f.absPc == pc
  {
    match image.elf
    case None => Frame(pc, pc, None, 0, true)
    case Some(elf) =>
      var rel := FilePc(image, pc);
      var (symbol, offset) := SymbolAt(elf, LookedUp(rel, exact));
      Frame(pc, rel, symbol, offset, false)
  }

  predicate AtBottom(f: Frame) {
    f.symbol.Some? && f.symbol.value in BOTTOMS
  }

  /** The mapping that answers for `pc`: the last one when it covers it, else a search. */
  function TailImage(env: Env, t: Tail, pc: Word): Option<Image> {
    if Covers(t.item, pc) then t.item
    else match env.search(t.searches, pc) case Hit(image) => Some(image) case _ => None
  }

  lemma Appends(env: Env, t: Tail, pc: Word, exact: bool)
    ensures var a := AppendPc(env, t, pc, exact);
            match a
            case Added(t', end) =>
              && pc != 0 && TailImage(env, t, pc).Some? && t'.bps == t.bps
              && t'.frames == t.frames + [TailFrame(TailImage(env, t, pc).value, pc, exact)]
              && (end <==> AtBottom(TailFrame(TailImage(env, t, pc).value, pc, exact)))
            case Refused(t') =>
              && t'.frames == t.frames && t'.bps == t.bps
              && (pc == 0 || (TailImage(env, t, pc).None? && t'.searches == t.searches + 1))
  {
    hide SymbolAt, FilePc, ElfPc, UsableCfi;
    if TailImage(env, t, pc).Some? {
      Relative(TailImage(env, t, pc).value, pc);
    }
  }

  /** `bps` and `frames` follow the chain of saved frame pointers from `bp`; only the last frame may be a bottom. */
  ghost predicate FollowsChain(snap: Snapshot, bp: Word, bps: seq<Word>, frames: seq<Frame>)
    decreases |bps|
  {
    if bps == [] || frames == [] then bps == [] && frames == []
    else
      && bps[0] == bp && Followable(snap, bp)
      && ReadStack(snap, Unsigned(bp as int + 8)) == Some(frames[0].absPc)
      && (AtBottom(frames[0]) ==> bps[1..] == [])
      && FollowsChain(snap, ReadStack(snap, bp).value, bps[1..], frames[1..])
  }

  /** The frame pointer to be followed after `bps`. */
  function Onward(snap: Snapshot, bp: Word, bps: seq<Word>): Option<Word> {
    if bps == [] then Some(bp) else ReadStack(snap, bps[|bps| - 1])
  }

  /** Why the tail's loop ends after `bps`: enough frames, a bottom, a broken chain, or a PC outside every mapping. */
  ghost predicate Ends(env: Env, snap: Snapshot, bp: Word, n: nat, bps: seq<Word>, frames: seq<Frame>, searches: nat) {
    || |bps| == n
    || (frames != [] && AtBottom(frames[|frames| - 1]))
    || (Onward(snap, bp, bps).Some? && !Followable(snap, Onward(snap, bp, bps).value))
    || (Onward(snap, bp, bps).Some? && searches > 0
        && var pc := ReadStack(snap, Unsigned(Onward(snap, bp, bps).value as int + 8));
           pc.Some? && !env.search(searches - 1, pc.value).Hit?)
  }

  /** What the loop of the tail adds to `t`. */
  ghost predicate Adds(env: Env, snap: Snapshot, t: Tail, bp: Word, n: nat, r: Tail, bps: seq<Word>, frames: seq<Frame>) {
    && r.bps == t.bps + bps && r.frames == t.frames + frames && |bps| == |frames| <= n
    && FollowsChain(snap, bp, bps, frames) && Ends(env, snap, bp, n, bps, frames, r.searches)
  }

  lemma {:induction false} LoopFollows(env: Env, snap: Snapshot, t: Tail, bp: Word, n: nat)
    returns (bps: seq<Word>, frames: seq<Frame>)
    ensures Adds(env, snap, t, bp, n, TailLoop(env, snap, t, bp, n), bps, frames)
    decreases n
  {
    hide AppendPc, Link, Followable, ReadStack, UsableCfi, AtBottom, TailImage, TailFrame;
    LinkIs(snap, bp);
    bps, frames := [], [];
    assert t.bps + [] == t.bps && t.frames + [] == t.frames;
    if n > 0 && Link(snap, bp).Some? {
      var (next, pc) := Link(snap, bp).value;
      Appends(env, t, pc, false);
      var a := AppendPc(env, t, pc, false);
      if a.Added? {
        var seen, f := a.t.(bps := t.bps + [bp]), a.t.frames[|t.frames|];
        bps, frames := [bp], [f];
        if !a.end {
          var bps', frames' := LoopFollows(env, snap, seen, next, n - 1);
          ChainGrows(env, snap, t, bp, next, n, seen, f, TailLoop(env, snap, seen, next, n - 1), bps', frames');
          bps, frames := [bp] + bps', [f] + frames';
        } else {
          assert [bp][1..] == [] && [f][1..] == [];
          assert FollowsChain(snap, next, [], []);
        }
      } else {
        Refuses(env, t, pc);
      }
    }
  }

  lemma Refuses(env: Env, t: Tail, pc: Word)
    requires AppendPc(env, t, pc, false).Refused? && pc != 0
    ensures var t' := AppendPc(env, t, pc, false).t; t'.searches > 0 && !env.search(t'.searches - 1, pc).Hit?
  {
    hide UsableCfi;
  }

  lemma ChainGrows(env: Env, snap: Snapshot, t: Tail, bp: Word, next: Word, n: nat, seen: Tail, f: Frame, r: Tail,
                   bps: seq<Word>, frames: seq<Frame>)
    requires n > 0 && Adds(env, snap, seen, next, n - 1, r, bps, frames)
    requires seen.bps == t.bps + [bp] && seen.frames == t.frames + [f] && !AtBottom(f)
    requires Followable(snap, bp) && ReadStack(snap, bp) == Some(next)
    requires ReadStack(snap, Unsigned(bp as int + 8)) == Some(f.absPc)
    ensures Adds(env, snap, t, bp, n, r, [bp] + bps, [f] + frames)
  {
    hide Followable, ReadStack, UsableCfi, AtBottom;
    assert ([bp] + bps)[1..] == bps && ([f] + frames)[1..] == frames;
    assert t.bps + [bp] + bps == t.bps + ([bp] + bps) && t.frames + [f] + frames == t.frames + ([f] + frames);
    assert Onward(snap, bp, [bp] + bps) == Onward(snap, next, bps);
  }

  /** The i-th saved pair gives the i-th frame and leads to the next pair. */
  ghost predicate Member(snap: Snapshot, bps: seq<Word>, frames: seq<Frame>, i: nat)
    requires i < |bps| == |frames|
  {
    && Followable(snap, bps[i]) && ReadStack(snap, Unsigned(bps[i] as int + 8)) == Some(frames[i].absPc)
    && (i + 1 < |bps| ==> ReadStack(snap, bps[i]) == Some(bps[i + 1]) && !AtBottom(frames[i]))
  }

  lemma {:induction false} ChainAt(snap: Snapshot, bp: Word, bps: seq<Word>, frames: seq<Frame>, i: nat)
    requires FollowsChain(snap, bp, bps, frames) && i < |bps|
    ensures |frames| == |bps| && bps[0] == bp && Member(snap, bps, frames, i)
    decreases |bps|
  {
    hide Followable, ReadStack, AtBottom;
    var saved := ReadStack(snap, bp);
    assert saved.Some? by { SavedThere(snap, bp); }
    if |bps| > 1 {
      ChainAt(snap, saved.value, bps[1..], frames[1..], if i > 0 then i - 1 else 0);
    }
  }

  lemma FirstFound(env: Env, t: Tail, pc: Word)
    requires t.item == None && pc != 0 && env.search(t.searches, pc).Hit?
    ensures AppendPc(env, t, pc, true).Added?
  {
    hide UsableCfi, SymbolAt;
  }

  lemma SavedThere(snap: Snapshot, bp: Word)
    requires Followable(snap, bp)
    ensures ReadStack(snap, bp).Some?
  {
    hide ReadStack;
  }

  /**
   The whole tail: the current PC when asked for, then one frame for the return address above each saved
   frame pointer, each of which leads to the next, until the loop has to end.
   */
  lemma TailFollows(env: Env, snap: Snapshot, searches: nat, bp: Word, pc: Word, append: bool)
    returns (first: seq<Frame>, frames: seq<Frame>)
    ensures var r := TailRun(env, snap, searches, bp, pc, append);
            && r.frames == first + frames && |frames| == |r.bps|
            && |first| <= (if append then 1 else 0) && (first != [] ==> first[0].absPc == pc)
            && (append && pc != 0 && env.search(searches, pc).Hit? ==> first != [])
            && (r.bps != [] ==> r.bps[0] == bp)
            && (forall i :: 0 <= i < |r.bps| ==> Member(snap, r.bps, frames, i))
            && ((first != [] && AtBottom(first[0]) && frames == [])
                || Ends(env, snap, bp, 127, r.bps, frames, r.searches))
  {
    hide AppendPc, UsableCfi, AtBottom, TailLoop, TailImage, TailFrame, FollowsChain, Ends, Member;
    var t := Tail(None, searches, [], []);
    Appends(env, t, pc, true);
    if pc != 0 && env.search(searches, pc).Hit? {
      FirstFound(env, t, pc);
    }
    var a := if append then AppendPc(env, t, pc, true) else Refused(t);
    first, frames := a.t.frames, [];
    if !(a.Added? && a.end) {
      var bps;
      bps, frames := LoopFollows(env, snap, a.t, bp, MAX_FP_FRAMES);
      forall i: nat | i < |bps| ensures bps[0] == bp && Member(snap, bps, frames, i) {
        ChainAt(snap, bp, bps, frames, i);
      }
      assert bps != [] ==> bps[0] == bp by {
        if bps != [] {
          ChainAt(snap, bp, bps, frames, 0);
        }
      }
      assert TailRun(env, snap, searches, bp, pc, append).bps == [] + bps == bps;
    }
  }

  // ----- whole runs -----

  /** A run starts at the sampled PC and stack pointer. */
  lemma RunStarts(env: Env, regs: Regs)
    requires env.Valid()
    ensures var st := Head(env, Begin(regs), 0);
            && st.Some? && st.value.pc == regs[16] && st.value.sp == regs[7] && st.value.regs == regs
            && st.value.frames == [] && !st.value.signal && st.value.loops == 0
  {
  }

  /**
   After the CFI loop the chain of frame pointers is followed from register 6 as the loop left it, unless the
   loop reached the bottom of the stack or lost its process.  A tail with frames ends the stack.
   */
  lemma RunEnds(env: Env, regs: Regs) returns (first: seq<Frame>, frames: seq<Frame>, bps: seq<Word>, searches: nat)
    requires env.Valid()
    ensures var main, all := MainRun(env, Begin(regs), 512), Unwound(env, regs);
            var snap := Sample(main.st.regs, env.stack, env.rawSp, env.page);
            var goesOn := main.stop != EndOfStack && main.st.live;
            && all.0 == main.st.frames + first + frames && |frames| == |bps| <= 127
            && (!goesOn ==> first == frames == [])
            && (goesOn ==>
                  || (first != [] && AtBottom(first[0]) && frames == [])
                  || Ends(env, snap, main.st.regs[6], 127, bps, frames, searches))
            && (first != [] ==> main.append && |first| == 1 && first[0].absPc == main.st.pc)
            && (goesOn && main.append && main.st.pc != 0 && env.search(main.st.searches, main.st.pc).Hit? ==>
                  first != [])
            && (bps != [] ==> bps[0] == main.st.regs[6])
            && (forall i :: 0 <= i < |bps| ==> Member(snap, bps, frames, i))
            && (first + frames != [] ==> all.1 == EndOfStack)
            && (first + frames == [] ==> all.1 == if main.stop == Unknown then Truncated else main.stop)
  {
    hide MainRun, TailRun, Member, Ends, AtBottom, UsableCfi;
    var main := MainRun(env, Begin(regs), MAX_FRAMES);
    first, frames, bps, searches := [], [], [], 0;
    assert main.st.frames + [] + [] == main.st.frames;
    if main.stop != EndOfStack && main.st.live {
      var snap := Snap(env, main.st.regs);
      first, frames := TailFollows(env, snap, main.st.searches, main.st.regs[RBP], main.st.pc, main.append);
      var r := TailRun(env, snap, main.st.searches, main.st.regs[RBP], main.st.pc, main.append);
      TailBounds(env, snap, main.st.searches, main.st.regs[RBP], main.st.pc, main.append);
      bps, searches := r.bps, r.searches;
      assert main.st.frames + first + frames == main.st.frames + r.frames;
    }
  }
}
