/** Opening a path inside a foreign root: `gu_openat2_in_root_compat`. */
module RootPath {
  import opened Words

  const PATH_MAX: nat := 4096
  const MAX_SYMLINKS: nat := 40
  const MAX_COMPONENTS: nat := 2049

  // ----- a fixed file tree -----

  type NodeId = nat

  datatype Node = Dir(entries: map<string, NodeId>) | File | Link(target: string)

  datatype Tree = Tree(nodes: map<NodeId, Node>)

  function Child(t: Tree, dir: NodeId, name: string): Option<NodeId> {
    if dir in t.nodes && t.nodes[dir].Dir? && name in t.nodes[dir].entries
       && t.nodes[dir].entries[name] in t.nodes
    then Some(t.nodes[dir].entries[name]) else None
  }

  predicate IsDir(t: Tree, n: NodeId) {
    n in t.nodes && t.nodes[n].Dir?
  }

  ghost predicate IsChild(t: Tree, dir: NodeId, child: NodeId) {
    exists name :: Child(t, dir, name) == Some(child)
  }

  /** Directories from the root down, each the parent of the next. */
  ghost predicate IsChain(t: Tree, root: NodeId, stack: seq<NodeId>) {
    && stack != [] && stack[0] == root
    && forall i :: 0 < i < |stack| ==> IsChild(t, stack[i - 1], stack[i])
  }

  // ----- path components -----

  function Split(s: string, cur: string): seq<string> {
    if s == "" then (if cur == "" then [] else [cur])
    else if s[0] == '/' then (if cur == "" then [] else [cur]) + Split(s[1..], "")
    else Split(s[1..], cur + [s[0]])
  }

  function Components(s: string): seq<string> {
    Split(s, "")
  }

  lemma {:induction false} SplitAtSlash(a: string, b: string, cur: string)
    ensures Split(a + "/" + b, cur) == Split(a, cur) + Split(b, "")
  {
    var s := a + "/" + b;
    if a == "" {
      assert s[1..] == b;
    } else {
      assert s[1..] == a[1..] + "/" + b;
      SplitAtSlash(a[1..], b, if a[0] == '/' then "" else cur + [a[0]]);
    }
  }

  lemma {:induction false} SplitPlain(a: string, cur: string)
    requires '/' !in a && cur + a != ""
    ensures Split(a, cur) == [cur + a]
  {
    if a == "" {
      assert cur + a == cur;
    } else {
      assert a[0] in a;
      assert cur + a == cur + [a[0]] + a[1..];
      SplitPlain(a[1..], cur + [a[0]]);
    }
  }

  function SkipSlashes(s: string, i: nat): (j: nat)
    requires i <= |s|
    ensures i <= j <= |s| && (j < |s| ==> s[j] != '/')
    ensures Components(s[j..]) == Components(s[i..])
    decreases |s| - i
  {
    if i < |s| && s[i] == '/' then
      assert s[i..][1..] == s[i + 1..];
      SkipSlashes(s, i + 1)
    else i
  }

  function ScanComponent(s: string, i: nat): (j: nat)
    requires i <= |s|
    ensures i <= j <= |s| && '/' !in s[i..j] && (j < |s| ==> s[j] == '/')
    ensures i < |s| && s[i] != '/' ==> i < j
    decreases |s| - i
  {
    if i < |s| && s[i] != '/' then
      var j := ScanComponent(s, i + 1);
      assert s[i..j] == [s[i]] + s[i + 1..j];
      j
    else i
  }

  /** What is left after the component that ends at `j`. */
  function After(s: string, j: nat): nat
    requires j <= |s|
  {
    if j < |s| then j + 1 else j
  }

  lemma FirstComponent(s: string, i: nat)
    requires i < |s| && s[i] != '/'
    ensures var j := ScanComponent(s, i);
            j > i && Components(s[i..]) == [s[i..j]] + Components(s[After(s, j)..])
  {
    var j := ScanComponent(s, i);
    assert j > i;
    Joined(s, i, j);
  }

  lemma Joined(s: string, i: nat, j: nat)
    requires i < j <= |s| && '/' !in s[i..j] && (j < |s| ==> s[j] == '/')
    ensures Components(s[i..]) == [s[i..j]] + Components(s[After(s, j)..])
  {
    hide Split;
    var name := s[i..j];
    assert "" + name == name;
    SplitPlain(name, "");
    if j < |s| {
      assert s[i..] == name + "/" + s[j + 1..];
      SplitAtSlash(name, s[j + 1..], "");
    } else {
      assert s[i..] == name && s[j..] == "";
      NoComponents();
    }
  }

  lemma NoComponents()
    ensures Components("") == []
  {
  }

  /** The path that replaces a symbolic link and what follows it. */
  function Expand(target: string, rest: string): string {
    target + (if rest == "" then "" else "/") + rest
  }

  lemma ExpandComponents(target: string, rest: string)
    ensures Components(Expand(target, rest)) == Components(target) + Components(rest)
  {
    if rest == "" {
      assert Expand(target, rest) == target;
      assert Components(target) + [] == Components(target);
    } else {
      SplitAtSlash(target, rest, "");
    }
  }

  // ----- reference: resolution over components -----

  predicate IsAbsolute(target: string) {
    target != "" && target[0] == '/'
  }

  function Parent(stack: seq<NodeId>): (s: seq<NodeId>)
    requires stack != []
    ensures s != []
  {
    if |stack| > 1 then stack[..|stack| - 1] else stack
  }

  /** Resolution confined to the root: ".." stops there and absolute links start over there. */
  function Walk(t: Tree, stack: seq<NodeId>, comps: seq<string>, links: nat): Option<NodeId>
    requires stack != []
    decreases links, |comps|
  {
    var top := stack[|stack| - 1];
    if comps == [] then Some(top)
    else if comps[0] == "." then Walk(t, stack, comps[1..], links)
    else if comps[0] == ".." then Walk(t, Parent(stack), comps[1..], links)
    else
      var node :- Child(t, top, comps[0]);
      match t.nodes[node]
      case Link(target) =>
        if links == 0 then None
        else Walk(t, if IsAbsolute(target) then [stack[0]] else stack, Components(target) + comps[1..], links - 1)
      case File => if |comps| == 1 then Some(node) else None
      case Dir(_) => if |comps| == 1 then Some(node) else Walk(t, stack + [node], comps[1..], links)
  }

  ghost predicate InRoot(t: Tree, root: NodeId, node: NodeId) {
    exists s :: IsChain(t, root, s) && s[|s| - 1] == node
  }

  lemma ChainExtends(t: Tree, root: NodeId, stack: seq<NodeId>, name: string)
    requires IsChain(t, root, stack) && Child(t, stack[|stack| - 1], name).Some?
    ensures IsChain(t, root, stack + [Child(t, stack[|stack| - 1], name).value])
  {
    var node := Child(t, stack[|stack| - 1], name).value;
    assert IsChild(t, stack[|stack| - 1], node);
  }

  /** Whatever mix of "..", absolute and relative links: the result is reached from the root downwards. */
  lemma {:induction false} WalkStaysInRoot(t: Tree, root: NodeId, stack: seq<NodeId>, comps: seq<string>, links: nat)
    requires IsChain(t, root, stack)
    ensures Walk(t, stack, comps, links).Some? ==> InRoot(t, root, Walk(t, stack, comps, links).value)
    decreases links, |comps|
  {
    var top := stack[|stack| - 1];
    if comps == [] {
      assert InRoot(t, root, top);
    } else if comps[0] == "." {
      WalkStaysInRoot(t, root, stack, comps[1..], links);
    } else if comps[0] == ".." {
      WalkStaysInRoot(t, root, Parent(stack), comps[1..], links);
    } else if Child(t, top, comps[0]).Some? {
      var node := Child(t, top, comps[0]).value;
      ChainExtends(t, root, stack, comps[0]);
      var deeper := stack + [node];
      assert deeper[|deeper| - 1] == node && InRoot(t, root, node);
      match t.nodes[node] {
        case Link(target) =>
          if links > 0 {
            WalkStaysInRoot(t, root, if IsAbsolute(target) then [stack[0]] else stack,
                            Components(target) + comps[1..], links - 1);
          }
        case File =>
        case Dir(_) =>
          if |comps| > 1 {
            WalkStaysInRoot(t, root, deeper, comps[1..], links);
          }
      }
    }
  }

  // ----- the answer the resolver must give -----

  datatype Errno = Invalid | BadFd | NameTooLong | Loop | NotDirectory | NoEntry | Fault

  datatype Verdict = Found(node: NodeId) | Error(errno: Errno)

  /** Opening "." needs a directory. */
  function Open(t: Tree, dir: NodeId): Verdict {
    if IsDir(t, dir) then Found(dir) else Error(NotDirectory)
  }

  /** Why a name is not there. */
  function Missing(t: Tree, dir: NodeId): Errno {
    if IsDir(t, dir) then NoEntry else NotDirectory
  }

  /** Resolution of the rest of `s` from `i`, with the limits on path length and depth. */
  function Judge(t: Tree, stack: seq<NodeId>, s: string, i: nat, links: nat): Verdict
    requires stack != [] && i <= |s|
    decreases links, |s| - i, 0
  {
    var begin := SkipSlashes(s, i);
    if begin == |s| then Open(t, stack[|stack| - 1])
    else
      var end := ScanComponent(s, begin);
      var name, rest := s[begin..end], After(s, end);
      if name == "." then Judge(t, stack, s, rest, links)
      else if name == ".." then Judge(t, Parent(stack), s, rest, links)
      else JudgeName(t, stack, name, s, rest, links)
  }

  function JudgeName(t: Tree, stack: seq<NodeId>, name: string, s: string, i: nat, links: nat): Verdict
    requires stack != [] && i <= |s|
    decreases links, |s| - i, 1
  {
    match Child(t, stack[|stack| - 1], name)
    case None => Error(Missing(t, stack[|stack| - 1]))
    case Some(node) =>
      match t.nodes[node]
      case Link(target) =>
        if links == 0 then Error(Loop) else JudgeLink(t, stack, target, s[i..], links - 1)
      case File => if i == |s| then Found(node) else Error(NotDirectory)
      case Dir(_) =>
        if i == |s| then Found(node)
        else if |stack| >= MAX_COMPONENTS then Error(NameTooLong)
        else Judge(t, stack + [node], s, i, links)
  }

  function JudgeLink(t: Tree, stack: seq<NodeId>, target: string, rest: string, links: nat): Verdict
    requires stack != []
    decreases links + 1, 0, 0
  {
    if |Expand(target, rest)| >= PATH_MAX then Error(NameTooLong)
    else Judge(t, if IsAbsolute(target) then [stack[0]] else stack, Expand(target, rest), 0, links)
  }

  /** A verdict and the walk agree, except for the limits and where the walk ends at something not a directory. */
  ghost predicate Agrees(v: Verdict, t: Tree, walk: Option<NodeId>) {
    match v
    case Found(node) => walk == Some(node)
    case Error(NoEntry) => walk == None
    case Error(Loop) => walk == None
    case Error(NotDirectory) => walk.Some? ==> !IsDir(t, walk.value)
    case Error(errno) => errno == NameTooLong
  }

  /** One component's effect on the walk still to do. */
  lemma WalkStep(t: Tree, stack: seq<NodeId>, s: string, i: nat, links: nat)
    requires stack != [] && i < |s| && s[i] != '/'
    ensures var j := ScanComponent(s, i);
            var name := s[i..j];
            var rest := Components(s[After(s, j)..]);
            var goal := Walk(t, stack, Components(s[i..]), links);
            && (name == "." ==> goal == Walk(t, stack, rest, links))
            && (name == ".." ==> goal == Walk(t, Parent(stack), rest, links))
            && (name != "." && name != ".." ==> goal == Enter(t, stack, name, rest, links))
  {
    hide Split, ScanComponent, Child;
    FirstComponent(s, i);
    var j := ScanComponent(s, i);
    var rest := Components(s[After(s, j)..]);
    assert ([s[i..j]] + rest)[1..] == rest;
  }

  /** The walk's case for a name that is neither "." nor "..". */
  function Enter(t: Tree, stack: seq<NodeId>, name: string, rest: seq<string>, links: nat): Option<NodeId>
    requires stack != []
  {
    var node :- Child(t, stack[|stack| - 1], name);
    match t.nodes[node]
    case Link(target) =>
      if links == 0 then None
      else Walk(t, if IsAbsolute(target) then [stack[0]] else stack, Components(target) + rest, links - 1)
    case File => if rest == [] then Some(node) else None
    case Dir(_) => Walk(t, stack + [node], rest, links)
  }

  lemma NoWalk(t: Tree, stack: seq<NodeId>, s: string, links: nat)
    requires stack != []
    ensures Walk(t, stack, Components(s[|s|..]), links) == Some(stack[|stack| - 1])
  {
    assert s[|s|..] == "";
  }

  lemma LastComponent(t: Tree, stack: seq<NodeId>, name: string, s: string, links: nat)
    requires stack != []
    ensures var child := Child(t, stack[|stack| - 1], name);
            child.Some? && !t.nodes[child.value].Link? ==> Enter(t, stack, name, Components(s[|s|..]), links) == child
  {
    hide Components;
    assert s[|s|..] == "";
    NoComponents();
    var child := Child(t, stack[|stack| - 1], name);
    if child.Some? {
      assert (stack + [child.value])[|stack|] == child.value;
    }
  }

  lemma {:induction false} VerdictAgrees(t: Tree, stack: seq<NodeId>, s: string, i: nat, links: nat)
    requires stack != [] && i <= |s|
    ensures Agrees(Judge(t, stack, s, i, links), t, Walk(t, stack, Components(s[i..]), links))
    decreases links, |s| - i, 0
  {
    hide Walk, Components, SkipSlashes, ScanComponent, Child, Enter, JudgeName;
    var begin := SkipSlashes(s, i);
    if begin == |s| {
      NoWalk(t, stack, s, links);
    } else {
      WalkStep(t, stack, s, begin, links);
      var end := ScanComponent(s, begin);
      var name, rest := s[begin..end], After(s, end);
      if name == "." {
        VerdictAgrees(t, stack, s, rest, links);
      } else if name == ".." {
        VerdictAgrees(t, Parent(stack), s, rest, links);
      } else {
        NameAgrees(t, stack, name, s, rest, links);
      }
    }
  }

  lemma {:induction false} NameAgrees(t: Tree, stack: seq<NodeId>, name: string, s: string, i: nat, links: nat)
    requires stack != [] && i <= |s|
    ensures Agrees(JudgeName(t, stack, name, s, i, links), t, Enter(t, stack, name, Components(s[i..]), links))
    decreases links, |s| - i, 1
  {
    hide Walk, Components, Judge, JudgeLink;
    var child := Child(t, stack[|stack| - 1], name);
    if child.Some? {
      var node := t.nodes[child.value];
      if i == |s| {
        LastComponent(t, stack, name, s, links);
      }
      if node.Link? && links > 0 {
        LinkAgrees(t, stack, node.target, s[i..], links - 1);
      } else if node.Dir? && i < |s| && |stack| < MAX_COMPONENTS {
        VerdictAgrees(t, stack + [child.value], s, i, links);
      }
    }
  }

  lemma {:induction false} LinkAgrees(t: Tree, stack: seq<NodeId>, target: string, rest: string, links: nat)
    requires stack != []
    ensures Agrees(JudgeLink(t, stack, target, rest, links), t,
                   Walk(t, if IsAbsolute(target) then [stack[0]] else stack,
                        Components(target) + Components(rest), links))
    decreases links + 1, 0, 0
  {
    hide Walk, Components, Judge;
    var next := Expand(target, rest);
    ExpandComponents(target, rest);
    if |next| < PATH_MAX {
      assert next[0..] == next;
      VerdictAgrees(t, if IsAbsolute(target) then [stack[0]] else stack, next, 0, links);
    }
  }

  // ----- trailing slashes -----

  predicate Doubled(s: string) {
    |s| >= 2 && s[|s| - 1] == '/' && s[|s| - 2] == '/'
  }

  ghost predicate SingleTargets(t: Tree) {
    forall n :: n in t.nodes && t.nodes[n].Link? ==> !Doubled(t.nodes[n].target)
  }

  ghost predicate AllDirs(t: Tree, stack: seq<NodeId>) {
    forall n :: n in stack ==> IsDir(t, n)
  }

  /** Nothing but slashes is left, so no component is. */
  lemma {:induction false} Leftover(s: string, i: nat)
    requires i <= |s|
    ensures Components(s[i..]) == [] ==> forall k :: i <= k < |s| ==> s[k] == '/'
    decreases |s| - i
  {
    hide Split, ScanComponent;
    if i < |s| && s[i] == '/' {
      assert SkipSlashes(s, i) == SkipSlashes(s, i + 1);
      assert Components(s[i..]) == Components(s[i + 1..]);
      Leftover(s, i + 1);
    } else if i < |s| {
      FirstComponent(s, i);
    }
  }

  /** What follows a component that a slash ended. */
  ghost predicate AfterSlash(s: string, i: nat) {
    0 < i < |s| ==> s[i - 1] == '/'
  }

  lemma ExpandDoubled(target: string, s: string, i: nat)
    requires 0 < i <= |s| && AfterSlash(s, i)
    ensures Doubled(Expand(target, s[i..])) <==> if i == |s| then Doubled(target) else Doubled(s)
  {
    var rest := s[i..];
    var next := Expand(target, rest);
    if i == |s| {
      assert next == target;
    } else {
      assert next[|next| - 1] == s[|s| - 1];
      assert next[|next| - 2] == if |rest| == 1 then '/' else rest[|rest| - 2];
    }
  }

  /** The path in hand when resolution stops: the given one, or the last expansion of a link. */
  function FinalPath(t: Tree, stack: seq<NodeId>, s: string, i: nat, links: nat): string
    requires stack != [] && i <= |s|
    decreases links, |s| - i, 0
  {
    var begin := SkipSlashes(s, i);
    if begin == |s| then s
    else
      var end := ScanComponent(s, begin);
      var name, rest := s[begin..end], After(s, end);
      if name == "." then FinalPath(t, stack, s, rest, links)
      else if name == ".." then FinalPath(t, Parent(stack), s, rest, links)
      else FinalOfName(t, stack, name, s, rest, links)
  }

  function FinalOfName(t: Tree, stack: seq<NodeId>, name: string, s: string, i: nat, links: nat): string
    requires stack != [] && i <= |s|
    decreases links, |s| - i, 1
  {
    match Child(t, stack[|stack| - 1], name)
    case None => s
    case Some(node) =>
      match t.nodes[node]
      case Link(target) =>
        var next := Expand(target, s[i..]);
        if links == 0 || |next| >= PATH_MAX then s
        else FinalPath(t, if IsAbsolute(target) then [stack[0]] else stack, next, 0, links - 1)
      case File => s
      case Dir(_) =>
        if i == |s| || |stack| >= MAX_COMPONENTS then s else FinalPath(t, stack + [node], s, i, links)
  }

  lemma DirsAbove(t: Tree, stack: seq<NodeId>, node: NodeId)
    requires stack != [] && AllDirs(t, stack)
    ensures IsDir(t, stack[|stack| - 1]) && AllDirs(t, Parent(stack)) && AllDirs(t, [stack[0]])
    ensures IsDir(t, node) ==> AllDirs(t, stack + [node])
  {
    assert stack[|stack| - 1] in stack && stack[0] in stack;
  }

  /** Where the final path does not end in doubled slashes, ENOTDIR means that the walk has no answer. */
  lemma {:induction false} SingleAgrees(t: Tree, stack: seq<NodeId>, s: string, i: nat, links: nat)
    requires stack != [] && i <= |s| && AllDirs(t, stack) && !Doubled(FinalPath(t, stack, s, i, links))
    ensures Judge(t, stack, s, i, links) == Error(NotDirectory) ==> Walk(t, stack, Components(s[i..]), links) == None
    decreases links, |s| - i, 0
  {
    hide Walk, Components, SkipSlashes, ScanComponent, Child, Enter, JudgeName, FinalOfName, Doubled, AllDirs;
    DirsAbove(t, stack, 0);
    var begin := SkipSlashes(s, i);
    if begin < |s| {
      WalkStep(t, stack, s, begin, links);
      var end := ScanComponent(s, begin);
      var name, rest := s[begin..end], After(s, end);
      if name == "." {
        SingleAgrees(t, stack, s, rest, links);
      } else if name == ".." {
        SingleAgrees(t, Parent(stack), s, rest, links);
      } else {
        SingleNameAgrees(t, stack, name, s, rest, links);
      }
    }
  }

  lemma {:induction false} SingleNameAgrees(t: Tree, stack: seq<NodeId>, name: string, s: string, i: nat, links: nat)
    requires stack != [] && 0 < i <= |s| && AfterSlash(s, i) && AllDirs(t, stack)
    requires !Doubled(FinalOfName(t, stack, name, s, i, links))
    ensures JudgeName(t, stack, name, s, i, links) == Error(NotDirectory)
            ==> Enter(t, stack, name, Components(s[i..]), links) == None
    decreases links, |s| - i, 1
  {
    hide Walk, Components, Judge, FinalPath, AllDirs;
    var child := Child(t, stack[|stack| - 1], name);
    if child.Some? {
      var node := t.nodes[child.value];
      DirsAbove(t, stack, child.value);
      if node.File? {
        Leftover(s, i);
      } else if node.Link? && links > 0 {
        var next := Expand(node.target, s[i..]);
        ExpandComponents(node.target, s[i..]);
        assert next[0..] == next;
        assert JudgeName(t, stack, name, s, i, links) == JudgeLink(t, stack, node.target, s[i..], links - 1);
        if |next| < PATH_MAX {
          SingleAgrees(t, if IsAbsolute(node.target) then [stack[0]] else stack, next, 0, links - 1);
        }
      } else if node.Dir? && i < |s| && |stack| < MAX_COMPONENTS {
        SingleAgrees(t, stack + [child.value], s, i, links);
      }
    }
  }

  /** Where the final path ends in doubled slashes, nothing but a directory is found. */
  lemma {:induction false} DoubledFindsDirs(t: Tree, stack: seq<NodeId>, s: string, i: nat, links: nat)
    requires stack != [] && i <= |s| && AllDirs(t, stack) && Doubled(FinalPath(t, stack, s, i, links))
    ensures var v := Judge(t, stack, s, i, links); v.Found? ==> IsDir(t, v.node)
    decreases links, |s| - i, 0
  {
    hide SkipSlashes, ScanComponent, Child, JudgeName, FinalOfName, Doubled, AllDirs;
    DirsAbove(t, stack, 0);
    var begin := SkipSlashes(s, i);
    if begin < |s| {
      var end := ScanComponent(s, begin);
      var name, rest := s[begin..end], After(s, end);
      if name == "." {
        DoubledFindsDirs(t, stack, s, rest, links);
      } else if name == ".." {
        DoubledFindsDirs(t, Parent(stack), s, rest, links);
      } else {
        DoubledNameFindsDirs(t, stack, s, begin, end, links);
      }
    }
  }

  lemma EndsBefore(s: string, begin: nat, end: nat)
    requires Doubled(s) && begin < end <= |s| && '/' !in s[begin..end]
    ensures end < |s| - 1
  {
    var name := s[begin..end];
    assert name[|name| - 1] in name && name[|name| - 1] == s[end - 1];
  }

  lemma {:induction false} DoubledNameFindsDirs(t: Tree, stack: seq<NodeId>, s: string, begin: nat, end: nat, links: nat)
    requires stack != [] && begin < end <= |s| && '/' !in s[begin..end] && AllDirs(t, stack)
    requires Doubled(FinalOfName(t, stack, s[begin..end], s, After(s, end), links))
    ensures var v := JudgeName(t, stack, s[begin..end], s, After(s, end), links); v.Found? ==> IsDir(t, v.node)
    decreases links, |s| - After(s, end), 1
  {
    hide Judge, FinalPath, AllDirs, Doubled;
    var name, i := s[begin..end], After(s, end);
    var child := Child(t, stack[|stack| - 1], name);
    if child.Some? {
      var node := t.nodes[child.value];
      DirsAbove(t, stack, child.value);
      if node.File? {
        EndsBefore(s, begin, end);
      } else if node.Link? && links > 0 {
        var next := Expand(node.target, s[i..]);
        assert JudgeName(t, stack, name, s, i, links) == JudgeLink(t, stack, node.target, s[i..], links - 1);
        if |next| < PATH_MAX {
          DoubledFindsDirs(t, if IsAbsolute(node.target) then [stack[0]] else stack, next, 0, links - 1);
        }
      } else if node.Dir? && i < |s| && |stack| < MAX_COMPONENTS {
        DoubledFindsDirs(t, stack + [child.value], s, i, links);
      }
    }
  }

  /** When no link target ends in doubled slashes, the final path does exactly when the given one does. */
  lemma {:induction false} FinalIsGiven(t: Tree, stack: seq<NodeId>, s: string, i: nat, links: nat)
    requires stack != [] && i <= |s| && SingleTargets(t)
    ensures Doubled(FinalPath(t, stack, s, i, links)) <==> Doubled(s)
    decreases links, |s| - i, 0
  {
    hide SkipSlashes, ScanComponent, FinalOfName, Doubled, SingleTargets;
    var begin := SkipSlashes(s, i);
    if begin < |s| {
      var end := ScanComponent(s, begin);
      var name, rest := s[begin..end], After(s, end);
      if name == "." {
        FinalIsGiven(t, stack, s, rest, links);
      } else if name == ".." {
        FinalIsGiven(t, Parent(stack), s, rest, links);
      } else {
        FinalNameIsGiven(t, stack, s, begin, end, links);
      }
    }
  }

  lemma {:induction false} FinalNameIsGiven(t: Tree, stack: seq<NodeId>, s: string, begin: nat, end: nat, links: nat)
    requires stack != [] && begin < end <= |s| && '/' !in s[begin..end] && (end < |s| ==> s[end] == '/')
    requires SingleTargets(t)
    ensures Doubled(FinalOfName(t, stack, s[begin..end], s, After(s, end), links)) <==> Doubled(s)
    decreases links, |s| - After(s, end), 1
  {
    hide FinalPath;
    var name, i := s[begin..end], After(s, end);
    var child := Child(t, stack[|stack| - 1], name);
    if child.Some? {
      var node := t.nodes[child.value];
      var next := if node.Link? then Expand(node.target, s[i..]) else "";
      if node.Link? && links > 0 && |next| < PATH_MAX {
        ExpandDoubled(node.target, s, i);
        if Doubled(s) {
          EndsBefore(s, begin, end);
        }
        FinalIsGiven(t, if IsAbsolute(node.target) then [stack[0]] else stack, next, 0, links - 1);
      } else if node.Dir? && i < |s| && |stack| < MAX_COMPONENTS {
        FinalIsGiven(t, stack + [child.value], s, i, links);
      }
    }
  }

  // ----- the limits -----

  /** Each link that is followed adds less than `cost` bytes to the path in hand. */
  ghost predicate LinksCost(t: Tree, cost: nat) {
    forall n :: n in t.nodes && t.nodes[n].Link? ==> |t.nodes[n].target| < cost
  }

  /** Two bytes for each directory entered, one for each byte left, and what the links left may add. */
  ghost predicate Budget(stack: seq<NodeId>, left: nat, links: nat, cost: nat) {
    2 * |stack| + left + links * cost < PATH_MAX + 2
  }

  /** Within the budget neither the path nor the chain of directories gets too long. */
  lemma {:induction false} WithinLimits(t: Tree, stack: seq<NodeId>, s: string, i: nat, links: nat, cost: nat)
    requires stack != [] && i <= |s| && LinksCost(t, cost) && Budget(stack, |s| - i, links, cost)
    ensures Judge(t, stack, s, i, links) != Error(NameTooLong)
    decreases links, |s| - i, 0
  {
    hide SkipSlashes, ScanComponent, JudgeName, LinksCost;
    var begin := SkipSlashes(s, i);
    if begin < |s| {
      var end := ScanComponent(s, begin);
      var name, rest := s[begin..end], After(s, end);
      if name == "." {
        WithinLimits(t, stack, s, rest, links, cost);
      } else if name == ".." {
        WithinLimits(t, Parent(stack), s, rest, links, cost);
      } else {
        NameWithinLimits(t, stack, name, s, rest, links, cost);
      }
    }
  }

  lemma {:induction false} NameWithinLimits(t: Tree, stack: seq<NodeId>, name: string, s: string, i: nat, links: nat,
                                            cost: nat)
    requires stack != [] && i <= |s| && LinksCost(t, cost) && Budget(stack, |s| - i, links, cost)
    requires forall n :: i < |s| ==> Budget(stack + [n], |s| - i, links, cost)
    ensures JudgeName(t, stack, name, s, i, links) != Error(NameTooLong)
    decreases links, |s| - i, 1
  {
    hide Judge;
    var child := Child(t, stack[|stack| - 1], name);
    if child.Some? {
      var node := t.nodes[child.value];
      if node.Link? && links > 0 {
        var next := Expand(node.target, s[i..]);
        assert links * cost == (links - 1) * cost + cost;
        assert JudgeName(t, stack, name, s, i, links) == JudgeLink(t, stack, node.target, s[i..], links - 1);
        WithinLimits(t, if IsAbsolute(node.target) then [stack[0]] else stack, next, 0, links - 1, cost);
      } else if node.Dir? && i < |s| {
        assert Budget(stack + [child.value], |s| - i, links, cost);
        WithinLimits(t, stack + [child.value], s, i, links, cost);
      }
    }
  }

  /** A path that stays below `PATH_MAX` even if every link it may follow is added to it. */
  ghost predicate Fits(t: Tree, path: string, cost: nat) {
    LinksCost(t, cost) && |path| + MAX_SYMLINKS * cost < PATH_MAX
  }

  /**
   A path whose walk has an answer is found if and only if that answer is not a regular file behind
   doubled slashes; it gives ENOTDIR otherwise.  Only a limit can come between, and not for a path that
   fits.  The slashes are those of the path itself when no link target ends in doubled ones.
   */
  lemma TrailingSlashes(t: Tree, root: NodeId, path: string, cost: nat)
    requires IsDir(t, root) && Walk(t, [root], Components(path), MAX_SYMLINKS).Some?
    ensures var v, node := Judge(t, [root], path, 0, MAX_SYMLINKS), Walk(t, [root], Components(path), MAX_SYMLINKS).value;
            var doubled := Doubled(FinalPath(t, [root], path, 0, MAX_SYMLINKS));
            && (Fits(t, path, cost) ==> v != Error(NameTooLong))
            && (v != Error(NameTooLong) ==> (v == Found(node) <==> IsDir(t, node) || !doubled))
            && (v == Error(NotDirectory) ==> !IsDir(t, node) && doubled)
            && (v == Found(node) || v == Error(NotDirectory) || v == Error(NameTooLong))
            && (SingleTargets(t) ==> (doubled <==> Doubled(path)))
  {
    hide Judge, Walk, Components, SingleTargets, Doubled, FinalPath, LinksCost;
    assert path[0..] == path;
    VerdictAgrees(t, [root], path, 0, MAX_SYMLINKS);
    if Doubled(FinalPath(t, [root], path, 0, MAX_SYMLINKS)) {
      DoubledFindsDirs(t, [root], path, 0, MAX_SYMLINKS);
    } else {
      SingleAgrees(t, [root], path, 0, MAX_SYMLINKS);
    }
    if SingleTargets(t) {
      FinalIsGiven(t, [root], path, 0, MAX_SYMLINKS);
    }
    if Fits(t, path, cost) {
      WithinLimits(t, [root], path, 0, MAX_SYMLINKS, cost);
    }
  }

  /** A root directory that holds one regular file `f`. */
  const FILE_TREE := Tree(map[0 := Dir(map["f" := 1]), 1 := File])

  /** One slash after a regular file opens it, two do not, and the walk has the file either way. */
  lemma SlashedFile()
    ensures Judge(FILE_TREE, [0], "f/", 0, MAX_SYMLINKS) == Found(1)
    ensures Judge(FILE_TREE, [0], "f//", 0, MAX_SYMLINKS) == Error(NotDirectory)
    ensures Walk(FILE_TREE, [0], Components("f/"), MAX_SYMLINKS) == Some(1)
    ensures Walk(FILE_TREE, [0], Components("f//"), MAX_SYMLINKS) == Some(1)
  {
    assert Child(FILE_TREE, 0, "f") == Some(1);
    assert ScanComponent("f/", 0) == 1 && ScanComponent("f//", 0) == 1;
    assert "f/"[0..1] == "f" && "f//"[0..1] == "f";
    FirstComponent("f/", 0);
    FirstComponent("f//", 0);
    assert "f/"[0..] == "f/" && "f//"[0..] == "f//" && "f/"[2..] == "" && "f//"[2..] == "/" && "/"[1..] == "";
    assert Components("f/") == ["f"] && Components("f//") == ["f"];
  }

  // ----- descriptors -----

  datatype Opened = Fd(fd: int) | Failed(errno: Errno)

  /** A process's descriptor table over a fixed tree; a faulty kernel may fail any call for reasons of its own. */
  class Kernel {
    const tree: Tree
    const faulty: bool
    var fds: map<int, NodeId>

    method Install(node: NodeId) returns (fd: int)
      modifies this
      ensures fd >= 0 && fd !in old(fds) && fds == old(fds)[fd := node]
    {
      ghost var bound := Beyond(fds.Keys);
      assert bound !in fds;
      fd :| fd >= 0 && fd !in fds;
      fds := fds[fd := node];
    }

    method Dup(fd: int) returns (r: Opened)
      modifies this
      ensures r.Failed? ==> fds == old(fds) && r.errno == if fd in old(fds) then Fault else BadFd
      ensures r.Failed? ==> faulty || fd !in old(fds)
      ensures r.Fd? ==> fd in old(fds) && r.fd >= 0 && r.fd !in old(fds) && fds == old(fds)[r.fd := old(fds)[fd]]
    {
      if fd !in fds {
        return Failed(BadFd);
      }
      var fails: bool := *;
      if faulty && fails {
        return Failed(Fault);
      }
      var n := Install(fds[fd]);
      r := Fd(n);
    }

    /** `openat` without following links. */
    method OpenAt(dir: int, name: string) returns (r: Opened)
      requires dir in fds
      modifies this
      ensures r.Failed? ==> fds == old(fds)
      ensures r.Failed? ==> || (faulty && r.errno == Fault)
                            || (Child(tree, fds[dir], name).None? && r.errno == Missing(tree, fds[dir]))
      ensures r.Fd? ==> Child(tree, old(fds)[dir], name).Some? && r.fd >= 0 && r.fd !in old(fds)
                        && fds == old(fds)[r.fd := Child(tree, old(fds)[dir], name).value]
    {
      var child := Child(tree, fds[dir], name);
      var fails: bool := *;
      if faulty && fails {
        return Failed(Fault);
      }
      if child.None? {
        return Failed(Missing(tree, fds[dir]));
      }
      var n := Install(child.value);
      r := Fd(n);
    }

    /** `openat` of "." in a directory. */
    method OpenDot(dir: int) returns (r: Opened)
      requires dir in fds
      modifies this
      ensures r.Failed? ==> fds == old(fds)
      ensures r.Failed? ==> (faulty && r.errno == Fault) || Open(tree, fds[dir]) == Error(r.errno)
      ensures r.Fd? ==> Open(tree, old(fds)[dir]).Found? && r.fd >= 0 && r.fd !in old(fds)
                        && fds == old(fds)[r.fd := old(fds)[dir]]
    {
      var fails: bool := *;
      if faulty && fails {
        return Failed(Fault);
      }
      if !IsDir(tree, fds[dir]) {
        return Failed(NotDirectory);
      }
      var n := Install(fds[dir]);
      r := Fd(n);
    }

    method Stat(fd: int) returns (r: Option<Node>)
      requires fd in fds && fds[fd] in tree.nodes
      ensures r.None? ==> faulty
      ensures r.Some? ==> r.value == tree.nodes[fds[fd]]
    {
      var fails: bool := *;
      if faulty && fails {
        return None;
      }
      r := Some(tree.nodes[fds[fd]]);
    }

    /** Reads at most `size` bytes of a link's target. */
    method ReadLink(fd: int, size: nat) returns (r: Option<string>)
      requires fd in fds && fds[fd] in tree.nodes && tree.nodes[fds[fd]].Link?
      ensures r.None? ==> faulty
      ensures r.Some? ==> var target := tree.nodes[fds[fd]].target;
                          r.value == if |target| <= size then target else target[..size]
    {
      var fails: bool := *;
      if faulty && fails {
        return None;
      }
      var target := tree.nodes[fds[fd]].target;
      r := Some(if |target| <= size then target else target[..size]);
    }

    method Close(fd: int)
      requires fd in fds
      modifies this
      ensures fds == old(fds) - {fd}
    {
      fds := fds - {fd};
    }
  }

  lemma Beyond(s: set<int>) returns (n: int)
    ensures n >= 0 && forall x :: x in s ==> x < n
  {
    n := 0;
    if x: int :| x in s {
      n := Beyond(s - {x});
      assert forall y :: y in s && y != x ==> y in s - {x};
      n := if n <= x then x + 1 else n;
    }
  }

  /** The table is `kept` plus one descriptor of `ds` for each directory of the stack. */
  ghost predicate Held(fds: map<int, NodeId>, kept: map<int, NodeId>, ds: seq<int>, stack: seq<NodeId>) {
    && |ds| == |stack|
    && (forall i, j :: 0 <= i < j < |ds| ==> ds[i] != ds[j])
    && (forall i :: 0 <= i < |ds| ==> ds[i] !in kept && ds[i] in fds && fds[ds[i]] == stack[i])
    && (forall f :: f in kept ==> f in fds && fds[f] == kept[f])
    && (forall f :: f in fds ==> f in kept || f in ds)
  }

  lemma HeldPop(fds: map<int, NodeId>, kept: map<int, NodeId>, ds: seq<int>, stack: seq<NodeId>)
    requires Held(fds, kept, ds, stack) && ds != []
    ensures Held(fds - {ds[|ds| - 1]}, kept, ds[..|ds| - 1], stack[..|stack| - 1])
  {
    var last := ds[|ds| - 1];
    assert ds == ds[..|ds| - 1] + [last];
    forall f | f in fds - {last} ensures f in kept || f in ds[..|ds| - 1] {
      assert f in kept || f in ds;
    }
  }

  lemma HeldKeep(fds: map<int, NodeId>, kept: map<int, NodeId>, ds: seq<int>, stack: seq<NodeId>, fd: int, node: NodeId)
    requires Held(fds, kept, ds, stack) && fd !in fds
    ensures Held(fds[fd := node], kept[fd := node], ds, stack)
  {
  }

  lemma HeldDrop(fds: map<int, NodeId>, kept: map<int, NodeId>, ds: seq<int>, stack: seq<NodeId>, fd: int, node: NodeId)
    requires Held(fds, kept[fd := node], ds, stack) && fd !in kept
    ensures Held(fds - {fd}, kept, ds, stack)
  {
  }

  lemma HeldPush(fds: map<int, NodeId>, kept: map<int, NodeId>, ds: seq<int>, stack: seq<NodeId>, fd: int, node: NodeId)
    requires Held(fds, kept[fd := node], ds, stack) && fd !in kept
    ensures Held(fds, kept, ds + [fd], stack + [node])
  {
    assert fd in kept[fd := node];
    forall f | f in fds ensures f in kept || f in ds + [fd] {
      assert f in kept[fd := node] || f in ds;
    }
  }

  lemma HeldNone(fds: map<int, NodeId>, kept: map<int, NodeId>)
    requires Held(fds, kept, [], [])
    ensures fds == kept
  {
    assert forall f :: f in fds <==> f in kept;
    assert fds.Keys == kept.Keys;
    assert forall f :: f in fds ==> fds[f] == kept[f];
  }

  /** Closes the directory descriptors from the deepest one up until `keep` are left. */
  method CloseTo(k: Kernel, dirs: array<int>, count: nat, keep: nat,
                 ghost kept: map<int, NodeId>, ghost stack: seq<NodeId>)
    requires keep <= count <= dirs.Length && Held(k.fds, kept, dirs[..count], stack)
    modifies k
    ensures Held(k.fds, kept, dirs[..keep], stack[..keep])
  {
    var n := count;
    assert stack[..n] == stack;
    while n > keep
      invariant keep <= n <= count
      invariant Held(k.fds, kept, dirs[..n], stack[..n])
    {
      HeldPop(k.fds, kept, dirs[..n], stack[..n]);
      assert dirs[..n][..n - 1] == dirs[..n - 1] && stack[..n][..n - 1] == stack[..n - 1];
      k.Close(dirs[n - 1]);
      n := n - 1;
    }
  }

  // ----- resolution -----

  /** The outcome is the verdict, unless the kernel is at fault, and so is the change to the table. */
  ghost predicate Resolved(r: Opened, faulty: bool, goal: Verdict, before: map<int, NodeId>, after: map<int, NodeId>) {
    && Explains(r, faulty, goal) && (r.Fd? ==> r.fd !in before)
    && after == Gained(before, r, goal)
  }

  ghost predicate Explains(r: Opened, faulty: bool, goal: Verdict) {
    match r
    case Fd(_) => goal.Found?
    case Failed(errno) => (faulty && errno == Fault) || goal == Error(errno)
  }

  ghost function Gained(before: map<int, NodeId>, r: Opened, goal: Verdict): map<int, NodeId> {
    if r.Fd? && goal.Found? then before[r.fd := goal.node] else before
  }

  /** Opens component `name` in the deepest held directory and reads its type. */
  method Inspect(k: Kernel, dir: int, name: string,
                 ghost kept: map<int, NodeId>, ghost ds: seq<int>, ghost stack: seq<NodeId>)
    returns (r: Opened, node: Option<Node>)
    requires Held(k.fds, kept, ds, stack) && stack != [] && dir == ds[|ds| - 1]
    modifies k
    ensures node.None? ==> r.Failed? && Held(k.fds, kept, ds, stack)
    ensures node.None? ==> (k.faulty && r.errno == Fault)
                           || (Child(k.tree, stack[|stack| - 1], name).None?
                               && r.errno == Missing(k.tree, stack[|stack| - 1]))
    ensures node.Some? ==> var child := Child(k.tree, stack[|stack| - 1], name);
                           child.Some? && child.value in k.tree.nodes && node.value == k.tree.nodes[child.value]
                           && r.Fd? && r.fd !in kept && r.fd in k.fds && k.fds[r.fd] == child.value
                           && Held(k.fds, kept[r.fd := child.value], ds, stack)
  {
    hide Child;
    r := OpenChild(k, dir, name, kept, ds, stack);
    if r.Failed? {
      return r, None;
    }
    ghost var child := Child(k.tree, stack[|stack| - 1], name).value;
    assert r.fd in kept[r.fd := child];
    node := k.Stat(r.fd);
    if node.None? {
      Discard(k, r.fd, child, kept, ds, stack);
      r := Failed(Fault);
    }
  }

  method OpenChild(k: Kernel, dir: int, name: string,
                   ghost kept: map<int, NodeId>, ghost ds: seq<int>, ghost stack: seq<NodeId>)
    returns (r: Opened)
    requires Held(k.fds, kept, ds, stack) && stack != [] && dir == ds[|ds| - 1]
    modifies k
    ensures var child := Child(k.tree, stack[|stack| - 1], name);
            && (r.Failed? ==> Held(k.fds, kept, ds, stack)
                              && (|| (k.faulty && r.errno == Fault)
                                  || (child.None? && r.errno == Missing(k.tree, stack[|stack| - 1]))))
            && (r.Fd? ==> child.Some? && child.value in k.tree.nodes && r.fd !in kept
                          && Held(k.fds, kept[r.fd := child.value], ds, stack))
  {
    ghost var before := k.fds;
    r := k.OpenAt(dir, name);
    if r.Fd? {
      HeldKeep(before, kept, ds, stack, r.fd, k.fds[r.fd]);
    }
  }

  method Discard(k: Kernel, fd: int, ghost node: NodeId,
                 ghost kept: map<int, NodeId>, ghost ds: seq<int>, ghost stack: seq<NodeId>)
    requires Held(k.fds, kept[fd := node], ds, stack) && fd !in kept
    modifies k
    ensures Held(k.fds, kept, ds, stack)
  {
    HeldDrop(k.fds, kept, ds, stack, fd, node);
    assert fd in kept[fd := node];
    k.Close(fd);
  }

  /** Opens "." in a held directory. */
  method Reopen(k: Kernel, dir: int, ghost kept: map<int, NodeId>, ghost ds: seq<int>, ghost stack: seq<NodeId>)
    returns (r: Opened)
    requires Held(k.fds, kept, ds, stack) && ds != [] && dir == ds[|ds| - 1]
    modifies k
    ensures r.Failed? ==> Held(k.fds, kept, ds, stack)
    ensures r.Failed? ==> (k.faulty && r.errno == Fault) || Open(k.tree, stack[|stack| - 1]) == Error(r.errno)
    ensures r.Fd? ==> Open(k.tree, stack[|stack| - 1]).Found?
    ensures r.Fd? ==> stack != [] && r.fd !in kept && Held(k.fds, kept[r.fd := stack[|stack| - 1]], ds, stack)
  {
    ghost var before := k.fds;
    r := k.OpenDot(dir);
    if r.Fd? {
      HeldKeep(before, kept, ds, stack, r.fd, stack[|stack| - 1]);
    }
  }

  /** The kernel never stores a link target of `PATH_MAX` bytes or more. */
  ghost predicate ShortLinks(t: Tree) {
    forall n :: n in t.nodes && t.nodes[n].Link? ==> |t.nodes[n].target| < PATH_MAX
  }

  datatype Progress = Going | Done(r: Opened)

  /** The resolver's working state: the path still to walk and one descriptor per directory entered. */
  class Resolution {
    const k: Kernel
    const dirs: array<int>
    var depth: nat
    var pending: string
    var cursor: nat
    var links: nat
    ghost const base: map<int, NodeId>
    ghost const root: NodeId
    ghost const goal: Verdict
    ghost var stack: seq<NodeId>

    ghost predicate Holding(kept: map<int, NodeId>)
      reads this, k, dirs
    {
      && depth < dirs.Length == MAX_COMPONENTS && cursor <= |pending| < PATH_MAX && links <= MAX_SYMLINKS
      && |stack| == depth + 1 && IsChain(k.tree, root, stack)
      && Held(k.fds, kept, dirs[..depth + 1], stack)
    }

    ghost predicate Valid()
      reads this, k, dirs
    {
      Holding(base) && goal == Judge(k.tree, stack, pending, cursor, MAX_SYMLINKS - links)
    }

    ghost predicate Ended(r: Opened)
      reads this, k, dirs
    {
      && Explains(r, k.faulty, goal) && (r.Fd? ==> r.fd !in base)
      && Holding(Gained(base, r, goal))
    }

    constructor (k: Kernel, fd: int, path: string, ghost base: map<int, NodeId>, ghost root: NodeId)
      requires |path| < PATH_MAX && fd !in base && k.fds == base[fd := root]
      ensures Valid() && fresh(dirs) && this.k == k && this.base == base && this.root == root
      ensures goal == Judge(k.tree, [root], path, 0, MAX_SYMLINKS)
    {
      this.k, this.base, this.root, this.goal := k, base, root, Judge(k.tree, [root], path, 0, MAX_SYMLINKS);
      depth, pending, cursor, links, stack := 0, path, 0, 0, [root];
      dirs := new int[MAX_COMPONENTS];
      new;
      hide Judge, Held;
      dirs[0] := fd;
      Start(base, k.fds, fd, root, dirs[..1]);
    }

    method Up()
      requires Holding(base)
      modifies this`depth, this`stack, k
      ensures Holding(base) && stack == Parent(old(stack))
    {
      hide Judge, Held;
      if depth > 0 {
        CloseTo(k, dirs, depth + 1, depth, base, stack);
        depth, stack := depth - 1, Parent(stack);
      }
    }

    method ToRoot()
      requires Holding(base)
      modifies this`depth, this`stack, k
      ensures Holding(base) && stack == [root]
    {
      hide Judge, Held;
      CloseTo(k, dirs, depth + 1, 1, base, stack);
      depth, stack := 0, stack[..1];
    }

    /** Replaces a link and what follows it by the link's target and what follows it. */
    method Follow(target: string) returns (p: Progress)
      requires Holding(base)
      requires links == MAX_SYMLINKS ==> goal == Error(Loop)
      requires links < MAX_SYMLINKS ==>
                 goal == JudgeLink(k.tree, stack, target, pending[cursor..], MAX_SYMLINKS - links - 1)
      modifies this, k
      ensures p.Going? ==> Valid() && links == old(links) + 1
      ensures p.Done? ==> Ended(p.r)
    {
      hide Judge, Held;
      if links == MAX_SYMLINKS {
        return Done(Failed(Loop));
      }
      var next := Expand(target, pending[cursor..]);
      links := links + 1;
      if |next| >= PATH_MAX {
        return Done(Failed(NameTooLong));
      }
      if IsAbsolute(target) {
        ToRoot();
      }
      pending, cursor := next, 0;
      p := Going;
    }

    method Descend(fd: int, ghost node: NodeId) returns (p: Progress)
      requires Holding(base[fd := node]) && fd !in base && IsChain(k.tree, root, stack + [node])
      requires goal == if |stack| >= MAX_COMPONENTS then Error(NameTooLong)
                       else Judge(k.tree, stack + [node], pending, cursor, MAX_SYMLINKS - links)
      modifies this`depth, this`stack, k, dirs
      ensures p.Going? ==> Valid()
      ensures p.Done? ==> Ended(p.r)
    {
      hide Judge, Held, IsChain;
      ghost var ds := dirs[..depth + 1];
      if depth + 1 >= MAX_COMPONENTS {
        Discard(k, fd, node, base, ds, stack);
        return Done(Failed(NameTooLong));
      }
      HeldPush(k.fds, base, ds, stack, fd, node);
      depth, stack := depth + 1, stack + [node];
      dirs[depth] := fd;
      assert dirs[..depth + 1] == ds + [fd];
      p := Going;
    }

    /** Opens the last component for the caller. */
    method OpenLast(fd: int, name: string) returns (p: Progress)
      requires stack != [] && fd !in base
      requires goal.Found? && Some(goal.node) == Child(k.tree, stack[|stack| - 1], name) && Holding(base[fd := goal.node])
      modifies k
      ensures p.Done? && Ended(p.r)
    {
      hide Judge, Held, Child, IsChain;
      ghost var ds := dirs[..depth + 1];
      Discard(k, fd, goal.node, base, ds, stack);
      var last := OpenChild(k, dirs[depth], name, base, ds, stack);
      p := Done(last);
    }

    /** Handles a component other than "." and "..". */
    method Visit(name: string) returns (p: Progress)
      requires Holding(base) && ShortLinks(k.tree)
      requires goal == JudgeName(k.tree, stack, name, pending, cursor, MAX_SYMLINKS - links)
      modifies this, k, dirs
      ensures p.Going? ==> Valid() && (links > old(links) || (links == old(links) && unchanged(`pending, `cursor)))
      ensures p.Done? ==> Ended(p.r)
    {
      hide Judge, Held, Child;
      ghost var ds := dirs[..depth + 1];
      var component, node := Inspect(k, dirs[depth], name, base, ds, stack);
      if node.None? {
        return Done(component);
      }
      ghost var child := Child(k.tree, stack[|stack| - 1], name).value;
      if node.value.Link? {
        var target := k.ReadLink(component.fd, PATH_MAX - 1);
        Discard(k, component.fd, child, base, ds, stack);
        if target.None? {
          return Done(Failed(Fault));
        }
        p := Follow(target.value);
      } else if cursor == |pending| {
        p := OpenLast(component.fd, name);
      } else if !node.value.Dir? {
        Discard(k, component.fd, child, base, ds, stack);
        p := Done(Failed(NotDirectory));
      } else {
        ChainExtends(k.tree, root, stack, name);
        p := Descend(component.fd, child);
      }
    }

    /** One turn of the loop. */
    method Step() returns (p: Progress)
      requires Valid() && ShortLinks(k.tree)
      modifies this, k, dirs
      ensures p.Going? ==> Valid()
      ensures p.Going? ==> links > old(links) || (links == old(links) && pending == old(pending) && cursor > old(cursor))
      ensures p.Done? ==> Ended(p.r)
    {
      hide JudgeName, Held, SkipSlashes, ScanComponent, IsChain;
      cursor := SkipSlashes(pending, cursor);
      if cursor == |pending| {
        var last := Reopen(k, dirs[depth], base, dirs[..depth + 1], stack);
        return Done(last);
      }
      var end := ScanComponent(pending, cursor);
      var name := pending[cursor..end];
      cursor := After(pending, end);
      p := Going;
      if name == ".." {
        Up();
      } else if name != "." {
        p := Visit(name);
      }
    }

    method Run() returns (r: Opened)
      requires Valid() && ShortLinks(k.tree)
      modifies this, k, dirs
      ensures Resolved(r, k.faulty, goal, base, k.fds)
    {
      hide Judge, Held, IsChain;
      var p := Going;
      while p.Going?
        invariant p.Going? ==> Valid()
        invariant p.Done? ==> Ended(p.r)
        decreases if p.Going? then 1 else 0, MAX_SYMLINKS - links, |pending| - cursor
      {
        p := Step();
      }
      r := p.r;
      ghost var kept := Gained(base, r, goal);
      CloseTo(k, dirs, depth + 1, 0, kept, stack);
      HeldNone(k.fds, kept);
    }
  }

  /** `gu_openat2_in_root_compat`. */
  method Resolve(k: Kernel, rootFd: int, path: string) returns (r: Opened)
    requires ShortLinks(k.tree)
    modifies k
    ensures rootFd < 0 || path == "" ==> r == Failed(Invalid)
    ensures rootFd >= 0 && path != "" && |path| >= PATH_MAX ==> r == Failed(NameTooLong)
    ensures rootFd >= 0 && 0 < |path| < PATH_MAX && rootFd !in old(k.fds) ==> r == Failed(BadFd)
    ensures rootFd >= 0 && 0 < |path| < PATH_MAX && rootFd in old(k.fds) ==>
              var root := old(k.fds)[rootFd];
              Resolved(r, k.faulty, Judge(k.tree, [root], path, 0, MAX_SYMLINKS), old(k.fds), k.fds)
    ensures r.Failed? ==> k.fds == old(k.fds)
    ensures r.Fd? ==> rootFd in old(k.fds) && r.fd in k.fds && InRoot(k.tree, old(k.fds)[rootFd], k.fds[r.fd])
  {
    hide Judge, Walk, Components, Held, InRoot;
    if rootFd < 0 || path == "" {
      return Failed(Invalid);
    }
    if |path| >= PATH_MAX {
      return Failed(NameTooLong);
    }
    ghost var base := k.fds;
    var dup := k.Dup(rootFd);
    if dup.Failed? {
      return dup;
    }
    var resolution := new Resolution(k, dup.fd, path, base, base[rootFd]);
    r := resolution.Run();
    VerdictInRoot(k.tree, base[rootFd], path);
  }

  /** What is found lies inside the root. */
  lemma VerdictInRoot(t: Tree, root: NodeId, path: string)
    ensures var v := Judge(t, [root], path, 0, MAX_SYMLINKS); v.Found? ==> InRoot(t, root, v.node)
  {
    hide Judge, Walk, Components, InRoot;
    VerdictAgrees(t, [root], path, 0, MAX_SYMLINKS);
    WalkStaysInRoot(t, root, [root], Components(path[0..]), MAX_SYMLINKS);
  }

  lemma Start(base: map<int, NodeId>, fds: map<int, NodeId>, fd: int, root: NodeId, ds: seq<int>)
    requires fd !in base && fds == base[fd := root] && ds == [fd]
    ensures Held(fds, base, ds, [root])
  {
  }
}
