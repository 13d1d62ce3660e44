/** Laws of path resolution: what each leading component of a path does, whatever follows it. */
module PathLaws {
  import opened Words
  import opened RootPath

  // ----- a path and its suffixes -----

  lemma {:induction false} SkipShifted(pre: string, s: string, i: nat)
    requires i <= |s|
    ensures SkipSlashes(pre + s, |pre| + i) == |pre| + SkipSlashes(s, i)
    decreases |s| - i
  {
    hide Components;
    if i < |s| {
      assert (pre + s)[|pre| + i] == s[i];
      if s[i] == '/' {
        SkipShifted(pre, s, i + 1);
      }
    }
  }

  lemma {:induction false} ScanShifted(pre: string, s: string, i: nat)
    requires i <= |s|
    ensures ScanComponent(pre + s, |pre| + i) == |pre| + ScanComponent(s, i)
    decreases |s| - i
  {
    if i < |s| {
      assert (pre + s)[|pre| + i] == s[i];
      if s[i] != '/' {
        ScanShifted(pre, s, i + 1);
      }
    }
  }

  lemma JudgeNext(t: Tree, stack: seq<NodeId>, s: string, i: nat, links: nat)
    requires stack != [] && i <= |s|
    ensures var begin := SkipSlashes(s, i);
            var end := ScanComponent(s, begin);
            var name, rest := s[begin..end], After(s, end);
            Judge(t, stack, s, i, links)
            == if begin == |s| then Open(t, stack[|stack| - 1]) else if name == "." then Judge(t, stack, s, rest, links)
               else if name == ".." then Judge(t, Parent(stack), s, rest, links)
               else JudgeName(t, stack, name, s, rest, links)
  {
    hide SkipSlashes, ScanComponent, JudgeName, Components, Open, Parent;
  }

  /** What is left of a path does not depend on what came before it. */
  lemma {:induction false} JudgeShifted(t: Tree, stack: seq<NodeId>, pre: string, s: string, i: nat, links: nat)
    requires stack != [] && i <= |s|
    ensures Judge(t, stack, pre + s, |pre| + i, links) == Judge(t, stack, s, i, links)
    decreases links, |s| - i, 0
  {
    hide SkipSlashes, ScanComponent, JudgeName, Judge, Components, Open, Parent;
    SkipShifted(pre, s, i);
    JudgeNext(t, stack, s, i, links);
    JudgeNext(t, stack, pre + s, |pre| + i, links);
    var begin := SkipSlashes(s, i);
    if begin < |s| {
      ScanShifted(pre, s, begin);
      var end := ScanComponent(s, begin);
      assert (pre + s)[|pre| + begin..|pre| + end] == s[begin..end];
      var name, rest := s[begin..end], After(s, end);
      if name == "." {
        JudgeShifted(t, stack, pre, s, rest, links);
      } else if name == ".." {
        JudgeShifted(t, Parent(stack), pre, s, rest, links);
      } else {
        NameShifted(t, stack, name, pre, s, rest, links);
      }
    }
  }

  lemma {:induction false} NameShifted(t: Tree, stack: seq<NodeId>, name: string, pre: string, s: string, i: nat,
                                       links: nat)
    requires stack != [] && i <= |s|
    ensures JudgeName(t, stack, name, pre + s, |pre| + i, links) == JudgeName(t, stack, name, s, i, links)
    decreases links, |s| - i, 1
  {
    hide Judge;
    assert (pre + s)[|pre| + i..] == s[i..];
    var child := Child(t, stack[|stack| - 1], name);
    if child.Some? && t.nodes[child.value].Dir? && i < |s| && |stack| < MAX_COMPONENTS {
      JudgeShifted(t, stack + [child.value], pre, s, i, links);
    }
  }

  /** The verdict on a whole path. */
  function Verdicts(t: Tree, stack: seq<NodeId>, path: string, links: nat): Verdict
    requires stack != []
  {
    Judge(t, stack, path, 0, links)
  }

  // ----- the first component -----

  /** A leading component, and what follows its slash. */
  lemma FirstName(t: Tree, stack: seq<NodeId>, name: string, s: string, links: nat)
    requires stack != [] && name != "" && '/' !in name
    ensures var slashed := Verdicts(t, stack, name + "/" + s, links);
            && (name == "." ==> slashed == Verdicts(t, stack, s, links))
            && (name == ".." ==> slashed == Verdicts(t, Parent(stack), s, links))
            && (name != "." && name != ".." ==> slashed == JudgeName(t, stack, name, "/" + s, 1, links))
  {
    hide JudgeName, ScanComponent, Parent;
    var path := name + "/" + s;
    ScansName(name, "/" + s);
    assert name + ("/" + s) == path && path[0] == name[0] && path[0] in name;
    assert path[0..|name|] == name;
    if name == "." {
      JudgeShifted(t, stack, name + "/", s, 0, links);
    } else if name == ".." {
      JudgeShifted(t, Parent(stack), name + "/", s, 0, links);
    } else {
      NameShifted(t, stack, name, name, "/" + s, 1, links);
    }
  }

  /** A component on its own. */
  lemma OnlyName(t: Tree, stack: seq<NodeId>, name: string, links: nat)
    requires stack != [] && name != "" && '/' !in name
    ensures var v := Verdicts(t, stack, name, links);
            && (name == "." ==> v == Verdicts(t, stack, "", links))
            && (name == ".." ==> v == Verdicts(t, Parent(stack), "", links))
            && (name != "." && name != ".." ==> v == JudgeName(t, stack, name, "", 0, links))
  {
    hide JudgeName, ScanComponent, Parent;
    ScansName(name, "");
    assert name + "" == name && name[0] in name && name[0..|name|] == name;
    if name == "." {
      JudgeShifted(t, stack, name, "", 0, links);
    } else if name == ".." {
      JudgeShifted(t, Parent(stack), name, "", 0, links);
    } else {
      NameShifted(t, stack, name, name, "", 0, links);
    }
  }

  lemma {:induction false} ScansName(name: string, rest: string)
    requires '/' !in name && (rest == "" || rest[0] == '/')
    ensures ScanComponent(name + rest, 0) == |name|
  {
    ScansFrom(name, rest, 0);
  }

  lemma {:induction false} ScansFrom(name: string, rest: string, i: nat)
    requires '/' !in name && (rest == "" || rest[0] == '/') && i <= |name|
    ensures ScanComponent(name + rest, i) == |name|
    decreases |name| - i
  {
    if i < |name| {
      assert (name + rest)[i] == name[i] && name[i] in name;
      ScansFrom(name, rest, i + 1);
    } else if rest != "" {
      assert (name + rest)[i] == rest[0];
    }
  }

  // ----- laws -----

  /** The empty path is the directory itself; slashes in front mean nothing. */
  lemma EmptyPath(t: Tree, stack: seq<NodeId>, s: string, links: nat)
    requires stack != []
    ensures Verdicts(t, stack, "", links)
            == var top := stack[|stack| - 1];
               if top in t.nodes && t.nodes[top].Dir? then Found(top) else Error(NotDirectory)
    ensures Verdicts(t, stack, "/" + s, links) == Verdicts(t, stack, s, links)
  {
    hide JudgeName, ScanComponent, Components;
    SkipShifted("/", s, 0);
    JudgeShifted(t, stack, "/", s, 0, links);
    SlashSkipped(s);
  }

  lemma SlashSkipped(s: string)
    ensures SkipSlashes("/" + s, 0) == SkipSlashes("/" + s, 1)
  {
  }

  /** "." stays, ".." goes to the directory before, and stays at the root. */
  lemma Dots(t: Tree, base: seq<NodeId>, root: NodeId, top: NodeId, s: string, links: nat)
    requires base != []
    ensures Verdicts(t, base, "./" + s, links) == Verdicts(t, base, s, links)
    ensures Verdicts(t, base, ".", links) == Verdicts(t, base, "", links)
    ensures Verdicts(t, base + [top], "../" + s, links) == Verdicts(t, base, s, links)
    ensures Verdicts(t, base + [top], "..", links) == Verdicts(t, base, "", links)
    ensures Verdicts(t, [root], "../" + s, links) == Verdicts(t, [root], s, links)
    ensures Verdicts(t, [root], "..", links) == Verdicts(t, [root], "", links)
  {
    hide Verdicts, JudgeName;
    assert (base + [top])[..|base|] == base;
    assert "." + "/" + s == "./" + s && ".." + "/" + s == "../" + s;
    FirstName(t, base, ".", s, links);
    OnlyName(t, base, ".", links);
    FirstName(t, base + [top], "..", s, links);
    OnlyName(t, base + [top], "..", links);
    FirstName(t, [root], "..", s, links);
    OnlyName(t, [root], "..", links);
  }

  predicate PlainName(name: string) {
    name != "" && name != "." && name != ".." && '/' !in name
  }

  /** A directory is entered when something follows it. */
  lemma EnterDirectory(t: Tree, stack: seq<NodeId>, name: string, dir: NodeId, s: string, links: nat)
    requires stack != [] && PlainName(name) && Child(t, stack[|stack| - 1], name) == Some(dir) && t.nodes[dir].Dir?
    ensures Verdicts(t, stack, name, links) == Found(dir)
    ensures Verdicts(t, stack, name + "/" + s, links)
            == if s == "" then Found(dir) else if |stack| >= 2049 then Error(NameTooLong)
               else Verdicts(t, stack + [dir], s, links)
  {
    hide Verdicts, Judge;
    FirstName(t, stack, name, s, links);
    OnlyName(t, stack, name, links);
    Suffix(t, stack + [dir], s, links);
  }

  lemma Suffix(t: Tree, stack: seq<NodeId>, s: string, links: nat)
    requires stack != []
    ensures Judge(t, stack, "/" + s, 1, links) == Verdicts(t, stack, s, links)
  {
    hide Judge;
    JudgeShifted(t, stack, "/", s, 0, links);
  }

  /** A file may be followed by one slash and nothing else; a missing name gives an error. */
  lemma FilesAndMissing(t: Tree, stack: seq<NodeId>, name: string, s: string, links: nat)
    requires stack != [] && PlainName(name)
    ensures var child, top := Child(t, stack[|stack| - 1], name), stack[|stack| - 1];
            && (child.Some? && t.nodes[child.value].File? ==>
                  && Verdicts(t, stack, name, links) == Found(child.value)
                  && Verdicts(t, stack, name + "/" + s, links)
                     == if s == "" then Found(child.value) else Error(NotDirectory))
            && (child.None? ==>
                  Verdicts(t, stack, name, links) == Verdicts(t, stack, name + "/" + s, links)
                  == Error(if top in t.nodes && t.nodes[top].Dir? then NoEntry else NotDirectory))
  {
    hide Verdicts, Judge;
    FirstName(t, stack, name, s, links);
    OnlyName(t, stack, name, links);
  }

  /** The path that is looked up instead: the target, and after a slash what followed the link. */
  function Substituted(target: string, rest: string): string {
    if rest == "" then target else target + "/" + rest
  }

  /**
   A link stands for its target: from the root when the target starts with a slash, else from the directory
   the link is in.  The fortieth is the last, and the new path has to be shorter than 4096 bytes.
   */
  lemma FollowLink(t: Tree, stack: seq<NodeId>, name: string, link: NodeId, p: string, s: string, links: nat)
    requires stack != [] && PlainName(name) && Child(t, stack[|stack| - 1], name) == Some(link) && t.nodes[link].Link?
    ensures var v, target := Verdicts(t, stack, name + "/" + s, links + 1), t.nodes[link].target;
            && Verdicts(t, stack, name + "/" + s, 0) == Error(Loop)
            && (s == "" ==> Verdicts(t, stack, name, links + 1) == v)
            && (|Substituted(target, s)| >= 4096 ==> v == Error(NameTooLong))
            && (|Substituted(target, s)| < 4096 && target == "/" + p ==>
                  v == Verdicts(t, [stack[0]], Substituted(p, s), links))
            && (|Substituted(target, s)| < 4096 && (target == "" || target[0] != '/') ==>
                  v == Verdicts(t, stack, Substituted(target, s), links))
  {
    hide Judge;
    var target := t.nodes[link].target;
    FirstName(t, stack, name, s, 0);
    FirstName(t, stack, name, s, links + 1);
    OnlyName(t, stack, name, links + 1);
    assert ("/" + s)[1..] == s && ""[0..] == "";
    assert Expand(target, s) == Substituted(target, s) by { assert target + "" + "" == target; }
    if target == "/" + p {
      assert Substituted(target, s) == "/" + Substituted(p, s);
      EmptyPath(t, [stack[0]], Substituted(p, s), links);
    }
  }

  /** Going into a directory and back changes nothing. */
  lemma InAndOut(t: Tree, stack: seq<NodeId>, name: string, dir: NodeId, s: string, links: nat)
    requires stack != [] && |stack| < 2049 && PlainName(name)
    requires Child(t, stack[|stack| - 1], name) == Some(dir) && t.nodes[dir].Dir?
    ensures Verdicts(t, stack, name + "/../" + s, links) == Verdicts(t, stack, s, links)
  {
    hide Verdicts, Child;
    EnterDirectory(t, stack, name, dir, "../" + s, links);
    Dots(t, stack, 0, dir, s, links);
    assert name + "/" + ("../" + s) == name + "/../" + s;
  }

  /** The walk over components obeys the same laws. */
  lemma WalkLaws(t: Tree, base: seq<NodeId>, root: NodeId, top: NodeId, comps: seq<string>, links: nat)
    requires base != []
    ensures Walk(t, base, ["."] + comps, links) == Walk(t, base, comps, links)
    ensures Walk(t, base + [top], [".."] + comps, links) == Walk(t, base, comps, links)
    ensures Walk(t, [root], [".."] + comps, links) == Walk(t, [root], comps, links)
  {
    assert (["."] + comps)[1..] == comps && ([".."] + comps)[1..] == comps;
    assert (base + [top])[..|base|] == base;
  }

  lemma WalkLink(t: Tree, stack: seq<NodeId>, name: string, link: NodeId, p: string, comps: seq<string>, links: nat)
    requires stack != [] && PlainName(name) && Child(t, stack[|stack| - 1], name) == Some(link) && t.nodes[link].Link?
    ensures var v, target := Walk(t, stack, [name] + comps, links + 1), t.nodes[link].target;
            && Walk(t, stack, [name] + comps, 0) == None
            && (target == "/" + p ==> v == Walk(t, [stack[0]], Components(p) + comps, links))
            && (target == "" || target[0] != '/' ==> v == Walk(t, stack, Components(target) + comps, links))
  {
    hide Split;
    assert ([name] + comps)[1..] == comps;
    if t.nodes[link].target == "/" + p {
      SplitAtSlash("", p, "");
      NoComponents();
      assert "" + "/" + p == "/" + p && [] + Components(p) == Components(p);
    }
  }

  lemma WalkInAndOut(t: Tree, stack: seq<NodeId>, name: string, dir: NodeId, comps: seq<string>, links: nat)
    requires stack != [] && PlainName(name) && Child(t, stack[|stack| - 1], name) == Some(dir) && t.nodes[dir].Dir?
    ensures Walk(t, stack, [name, ".."] + comps, links) == Walk(t, stack, comps, links)
  {
    var path := [name, ".."] + comps;
    assert path[1..] == [".."] + comps;
    WalkLaws(t, stack, 0, dir, comps, links);
  }
}
