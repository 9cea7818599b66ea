/** The preset bundle and its dependency order (internal/pinax/preset.go). */
module Presets {
  import opened Wrappers
  import opened Ordering

  datatype Record = Record(key: string, value: string)

  datatype Preset = Preset(
    name: string,
    objectType: string,
    sourceVersion: string,
    dependsOn: seq<string>,
    records: seq<Record>,
    pack: string)

  type Bundle = map<string, Preset>

  ghost predicate Named(m: Bundle) {
    forall n | n in m :: m[n].name == n
  }

  // ------------------------------------------------------------------ filling the bundle

  /** A file, or an entry of the packs directory, that could not be scanned, read or decoded is `Unreadable`. */
  datatype LoadError = Unreadable(index: nat) | Incomplete(index: nat) | DuplicateName(index: nat, origin: string)

  predicate Complete(p: Preset) {
    p.name != "" && p.objectType != ""
  }

  /** The files that decoded; the others are None. */
  function Decoded(files: seq<Option<Preset>>): seq<Preset> {
    if files == [] then [] else
      Decoded(files[..|files| - 1]) + if files[|files| - 1].Some? then [files[|files| - 1].value] else []
  }

  /** The bundle of some presets, when their names are distinct. */
  function Gather(ps: seq<Preset>): Bundle {
    if ps == [] then map[] else Gather(ps[..|ps| - 1])[ps[|ps| - 1].name := ps[|ps| - 1]]
  }

  ghost predicate Distinct(ps: seq<Preset>) {
    forall i, j | 0 <= i < j < |ps| :: ps[i].name != ps[j].name
  }

  lemma {:induction false} GatherIs(ps: seq<Preset>)
    ensures Named(Gather(ps))
    ensures forall n :: n in Gather(ps) <==> exists i | 0 <= i < |ps| :: ps[i].name == n
    ensures Distinct(ps) ==> forall p | p in ps :: Gather(ps)[p.name] == p
  {
    if ps != [] {
      var init, last := ps[..|ps| - 1], ps[|ps| - 1];
      GatherIs(init);
      assert ps == init + [last];
      assert Distinct(ps) ==> Distinct(init);
    }
  }

  /** Nothing wrong with any file: it decodes, it is complete, and its name is its own. */
  ghost predicate Loadable(files: seq<Option<Preset>>) {
    AllComplete(files) && Distinct(Decoded(files))
  }

  ghost predicate AllComplete(files: seq<Option<Preset>>) {
    forall i | 0 <= i < |files| :: files[i].Some? && Complete(files[i].value)
  }

  ghost predicate NewName(ps: seq<Preset>, name: string) {
    forall i | 0 <= i < |ps| :: ps[i].name != name
  }

  lemma DistinctSnoc(ps: seq<Preset>, p: Preset)
    ensures Distinct(ps + [p]) <==> Distinct(ps) && NewName(ps, p.name)
  {
    if Distinct(ps + [p]) {
      forall i, j | 0 <= i < j < |ps| ensures ps[i].name != ps[j].name {
        assert (ps + [p])[i].name != (ps + [p])[j].name;
      }
      forall i | 0 <= i < |ps| ensures ps[i].name != p.name {
        assert (ps + [p])[i].name != (ps + [p])[|ps|].name;
      }
    }
  }

  lemma DecodedStep(files: seq<Option<Preset>>, k: nat)
    requires k < |files| && files[k].Some?
    ensures Decoded(files[..k + 1]) == Decoded(files[..k]) + [files[k].value]
    ensures Gather(Decoded(files[..k + 1])) == Gather(Decoded(files[..k]))[files[k].value.name := files[k].value]
  {
    var before, p := Decoded(files[..k]), files[k].value;
    assert files[..k + 1][..k] == files[..k];
    assert (before + [p])[..|before|] == before;
  }

  lemma CompleteStep(files: seq<Option<Preset>>, k: nat)
    requires k < |files|
    ensures AllComplete(files[..k + 1]) <==> AllComplete(files[..k]) && files[k].Some? && Complete(files[k].value)
  {
    var longer, shorter := files[..k + 1], files[..k];
    assert longer[k] == files[k];
    forall i | 0 <= i < k ensures longer[i] == shorter[i] {}
  }

  lemma NewNameIs(ps: seq<Preset>, name: string)
    ensures name !in Gather(ps) <==> NewName(ps, name)
  {
    GatherIs(ps);
  }

  lemma LoadableStep(files: seq<Option<Preset>>, k: nat)
    requires k < |files| && files[k].Some?
    ensures Loadable(files[..k + 1]) <==>
      Loadable(files[..k]) && Complete(files[k].value) && files[k].value.name !in Gather(Decoded(files[..k]))
  {
    DecodedStep(files, k);
    CompleteStep(files, k);
    DistinctSnoc(Decoded(files[..k]), files[k].value);
    NewNameIs(Decoded(files[..k]), files[k].value.name);
  }

  lemma {:induction false} LoadablePrefix(files: seq<Option<Preset>>, k: nat)
    requires k <= |files| && Loadable(files)
    ensures Loadable(files[..k])
    decreases |files| - k
  {
    if k < |files| {
      LoadablePrefix(files, k + 1);
      CompleteStep(files, k);
      LoadableStep(files, k);
    } else {
      assert files[..k] == files;
    }
  }

  class Loader {
    var byName: Bundle

    constructor ()
      ensures byName == map[]
    {
      byName := map[];
    }

    /** A preset enters under its own name or not at all; nothing already there is replaced. */
    method AddPreset(p: Preset, index: nat) returns (err: Option<LoadError>)
      modifies this
      ensures err.None? <==> p.name != "" && p.objectType != "" && p.name !in old(byName)
      ensures byName == if err.None? then old(byName)[p.name := p] else old(byName)
      ensures err.Some? ==> err.value == if p.name == "" || p.objectType == "" then Incomplete(index)
                                          else DuplicateName(index, old(byName)[p.name].pack)
    {
      if p.name == "" || p.objectType == "" {
        return Some(Incomplete(index));
      }
      if p.name in byName {
        return Some(DuplicateName(index, byName[p.name].pack));
      }
      byName := byName[p.name := p];
      return None;
    }

    /** Packs are additive: loading succeeds exactly when every file decodes, is complete, and no name repeats. */
    method LoadAll(files: seq<Option<Preset>>) returns (err: Option<LoadError>)
      requires byName == map[]
      modifies this
      ensures err.None? <==> Loadable(files)
      ensures err.None? ==> byName == Gather(Decoded(files))
    {
      for k := 0 to |files|
        invariant Loadable(files[..k]) && byName == Gather(Decoded(files[..k]))
      {
        if Loadable(files) { LoadablePrefix(files, k + 1); }
        CompleteStep(files, k);
        if files[k].None? {
          return Some(Unreadable(k));
        }
        DecodedStep(files, k);
        LoadableStep(files, k);
        err := AddPreset(files[k].value, k);
        if err.Some? {
          return;
        }
      }
      assert files[..|files|] == files;
      return None;
    }
  }

  // ------------------------------------------------------------------ the depth-first search

  datatype TopoError = Cycle(name: string) | UnknownDependency(name: string, dep: string)

  /** Gray names are on the stack, black ones done; `order` lists the black ones as they finished. */
  datatype Dfs = Dfs(gray: set<string>, black: set<string>, order: seq<string>)

  function White(m: Bundle, s: Dfs): nat {
    |m.Keys - s.gray - s.black|
  }

  function Coloured(s: Dfs): set<string> {
    s.gray + s.black
  }

  function Visit(m: Bundle, s: Dfs, n: string): (r: (Dfs, Option<TopoError>))
    requires n in m
    ensures Coloured(s) <= Coloured(r.0)
    decreases White(m, s), 1, 0
  {
    if n in s.gray then (s, Some(Cycle(n)))
    else if n in s.black then (s, None)
    else
      var s' := s.(gray := s.gray + {n});
      WhiteShrinks(m, s, n);
      VisitDeps(m, s', n, 0)
  }

  lemma WhiteShrinks(m: Bundle, s: Dfs, n: string)
    requires n in m && n !in s.gray && n !in s.black
    ensures White(m, s.(gray := s.gray + {n})) < White(m, s)
  {
    assert m.Keys - (s.gray + {n}) - s.black == m.Keys - s.gray - s.black - {n};
  }

  lemma WhiteMonotone(m: Bundle, s: Dfs, t: Dfs)
    requires Coloured(s) <= Coloured(t)
    ensures White(m, t) <= White(m, s)
  {
    var a, b := m.Keys - t.gray - t.black, m.Keys - s.gray - s.black;
    assert a <= b;
    assert b == a + (b - a);
  }

  function VisitDeps(m: Bundle, s: Dfs, n: string, i: nat): (r: (Dfs, Option<TopoError>))
    requires n in m && i <= |m[n].dependsOn|
    ensures Coloured(s) <= Coloured(r.0)
    decreases White(m, s), 2, |m[n].dependsOn| - i
  {
    var deps := m[n].dependsOn;
    if i == |deps| then
      (Dfs(s.gray - {n}, s.black + {n}, s.order + [n]), None)
    else if deps[i] !in m then
      (s, Some(UnknownDependency(n, deps[i])))
    else
      var (s1, err) := Visit(m, s, deps[i]);
      if err.Some? then (s1, err)
      else
        WhiteMonotone(m, s, s1);
        VisitDeps(m, s1, n, i + 1)
  }

  function VisitAll(m: Bundle, s: Dfs, names: seq<string>): (Dfs, Option<TopoError>)
    requires forall n | n in names :: n in m
    decreases |names|
  {
    if names == [] then (s, None) else
      var (s1, err) := Visit(m, s, names[0]);
      if err.Some? then (s1, err) else VisitAll(m, s1, names[1..])
  }

  const UNVISITED := Dfs({}, {}, [])

  // ------------------------------------------------------------------ what a search state means

  predicate DependsOn(m: Bundle, n: string, d: string) {
    n in m && d in m[n].dependsOn
  }

  /** Every listed name has all its dependencies listed before it. */
  ghost predicate DepsFirst(m: Bundle, order: seq<string>) {
    forall i, d {:trigger DependsOn(m, order[i], d)} |
      0 <= i < |order| && DependsOn(m, order[i], d) :: d in m && d in order[..i]
  }

  /** A walk along dependsOn edges. */
  ghost predicate Walk(m: Bundle, path: seq<string>) {
    forall i | 0 <= i < |path| - 1 :: DependsOn(m, path[i], path[i + 1])
  }

  ghost predicate OnCycle(m: Bundle, n: string) {
    exists path: seq<string> :: |path| >= 2 && path[0] == n && path[|path| - 1] == n && Walk(m, path)
  }

  ghost predicate Acyclic(m: Bundle) {
    forall n | n in m :: !OnCycle(m, n)
  }

  ghost predicate AllKnown(m: Bundle) {
    forall n, d | DependsOn(m, n, d) :: d in m
  }

  ghost predicate Consistent(m: Bundle, s: Dfs, stack: seq<string>) {
    && s.gray !! s.black && s.black <= m.Keys
    && (forall n :: n in s.black <==> n in s.order) && NoRepeats(s.order) && DepsFirst(m, s.order)
    && (forall n :: n in s.gray <==> n in stack) && Walk(m, stack)
  }

  /** What an error report is worth: the named preset lies on a cycle, or names a preset that is not there. */
  ghost predicate Justified(m: Bundle, err: TopoError) {
    match err
    case Cycle(n) => n in m && OnCycle(m, n)
    case UnknownDependency(n, d) => DependsOn(m, n, d) && d !in m
  }

  ghost predicate Reaches(m: Bundle, stack: seq<string>, n: string) {
    stack == [] || DependsOn(m, stack[|stack| - 1], n)
  }

  lemma BackEdgeIsCycle(m: Bundle, stack: seq<string>, n: string)
    requires Walk(m, stack) && Reaches(m, stack, n) && n in stack && n in m
    ensures OnCycle(m, n)
  {
    var k :| 0 <= k < |stack| && stack[k] == n;
    var path := stack[k..] + [n];
    forall i | 0 <= i < |path| - 1 ensures DependsOn(m, path[i], path[i + 1]) {
      if i < |path| - 2 { assert DependsOn(m, stack[k + i], stack[k + i + 1]); }
    }
    assert |path| >= 2 && path[0] == n && path[|path| - 1] == n && Walk(m, path);
  }

  ghost predicate DepsDone(m: Bundle, n: string, i: nat, black: set<string>)
    requires n in m && i <= |m[n].dependsOn|
  {
    forall j | 0 <= j < i :: m[n].dependsOn[j] in m && m[n].dependsOn[j] in black
  }

  lemma OneMoreDone(m: Bundle, n: string, i: nat, black: set<string>, black': set<string>)
    requires n in m && i < |m[n].dependsOn| && DepsDone(m, n, i, black) && black <= black'
    requires m[n].dependsOn[i] in m && m[n].dependsOn[i] in black'
    ensures DepsDone(m, n, i + 1, black')
  {
  }

  lemma FinishKeeps(m: Bundle, s: Dfs, stack: seq<string>, n: string)
    requires Consistent(m, s, stack + [n]) && n in m && n !in stack
    requires DepsDone(m, n, |m[n].dependsOn|, s.black)
    ensures Consistent(m, Dfs(s.gray - {n}, s.black + {n}, s.order + [n]), stack)
  {
    var order := s.order + [n];
    assert n in stack + [n];
    forall i, d | 0 <= i < |order| && DependsOn(m, order[i], d) ensures d in m && d in order[..i] {
      if i < |s.order| { assert order[..i] == s.order[..i]; } else { assert order[..i] == s.order; }
    }
    forall i | 0 <= i < |stack| - 1 ensures DependsOn(m, stack[i], stack[i + 1]) {
      assert DependsOn(m, (stack + [n])[i], (stack + [n])[i + 1]);
    }
    forall x ensures x in s.gray - {n} <==> x in stack { assert x in s.gray <==> x in stack + [n]; }
  }

  lemma PushKeeps(m: Bundle, s: Dfs, stack: seq<string>, n: string)
    requires Consistent(m, s, stack) && n in m && n !in s.gray && n !in s.black && Reaches(m, stack, n)
    ensures Consistent(m, s.(gray := s.gray + {n}), stack + [n])
  {
  }

  lemma {:induction false} VisitSound(m: Bundle, s: Dfs, n: string, stack: seq<string>)
    requires n in m && Consistent(m, s, stack) && Reaches(m, stack, n)
    ensures
      var (t, err) := Visit(m, s, n);
      match err
      case Some(e) => Justified(m, e)
      case None => Consistent(m, t, stack) && t.gray == s.gray && s.black <= t.black && n in t.black
    decreases White(m, s), 1, 0
  {
    if n in s.gray {
      BackEdgeIsCycle(m, stack, n);
    } else if n !in s.black {
      WhiteShrinks(m, s, n);
      PushKeeps(m, s, stack, n);
      VisitDepsSound(m, s.(gray := s.gray + {n}), n, 0, stack, stack + [n]);
    }
  }

  lemma {:induction false} VisitDepsSound(m: Bundle, s: Dfs, n: string, i: nat, stack: seq<string>,
      inner: seq<string>)
    requires n in m && i <= |m[n].dependsOn| && inner == stack + [n] && Consistent(m, s, inner) && n !in stack
    requires DepsDone(m, n, i, s.black)
    ensures
      var (t, err) := VisitDeps(m, s, n, i);
      match err
      case Some(e) => Justified(m, e)
      case None => Consistent(m, t, stack) && t.gray == s.gray - {n} && s.black <= t.black && n in t.black
    decreases White(m, s), 2, |m[n].dependsOn| - i
  {
    var deps := m[n].dependsOn;
    if i == |deps| {
      FinishKeeps(m, s, stack, n);
    } else if deps[i] in m {
      assert Reaches(m, inner, deps[i]);
      VisitSound(m, s, deps[i], inner);
      var (s1, err) := Visit(m, s, deps[i]);
      if err.None? {
        WhiteMonotone(m, s, s1);
        OneMoreDone(m, n, i, s.black, s1.black);
        VisitDepsSound(m, s1, n, i + 1, stack, inner);
      }
    } else {
      assert DependsOn(m, n, deps[i]);
    }
  }

  lemma {:induction false} VisitAllSound(m: Bundle, s: Dfs, names: seq<string>)
    requires (forall n | n in names :: n in m) && Consistent(m, s, [])
    ensures
      var (t, err) := VisitAll(m, s, names);
      match err
      case Some(e) => Justified(m, e)
      case None => Consistent(m, t, []) && s.black <= t.black && forall n | n in names :: n in t.black
    decreases |names|
  {
    if names != [] {
      VisitSound(m, s, names[0], []);
      var (s1, err) := Visit(m, s, names[0]);
      if err.None? {
        VisitAllSound(m, s1, names[1..]);
        assert names == [names[0]] + names[1..];
      }
    }
  }

  // ------------------------------------------------------------------ the topological sort

  /** A listing of the bundle's names, in whatever order the map yielded them. */
  ghost predicate Enumerates(m: Bundle, names: seq<string>) {
    NoRepeats(names) && forall n :: n in names <==> n in m
  }

  function TopoOf(m: Bundle, names: seq<string>): Result<seq<string>, TopoError>
    requires forall n | n in names :: n in m
  {
    var (s, err) := VisitAll(m, UNVISITED, names);
    if err.Some? then Err(err.value) else Ok(s.order)
  }

  /** On success every preset is listed exactly once, after everything it depends on. */
  lemma TopoSound(m: Bundle, names: seq<string>)
    requires Enumerates(m, names)
    ensures
      match TopoOf(m, names)
      case Ok(order) => Enumerates(m, order) && DepsFirst(m, order)
      case Err(e) => Justified(m, e)
  {
    assert Consistent(m, UNVISITED, []);
    VisitAllSound(m, UNVISITED, names);
    var (t, err) := VisitAll(m, UNVISITED, names);
    if err.None? {
      assert t.black == m.Keys;
    }
  }

  lemma {:induction false} WalkDescends(m: Bundle, order: seq<string>, path: seq<string>, i: nat)
    requires DepsFirst(m, order) && Walk(m, path) && |path| >= 1 && i < |order| && path[0] == order[i]
    ensures |path| >= 2 ==> path[|path| - 1] in order[..i]
    ensures path[|path| - 1] in order[..i + 1]
    decreases |path|
  {
    if |path| >= 2 {
      assert DependsOn(m, path[0], path[0 + 1]);
      assert DependsOn(m, order[i], path[1]);
      var j :| 0 <= j < i && order[j] == path[1];
      forall k | 0 <= k < |path[1..]| - 1 ensures DependsOn(m, path[1..][k], path[1..][k + 1]) {
        assert DependsOn(m, path[k + 1], path[k + 2]);
      }
      WalkDescends(m, order, path[1..], j);
      assert order[..j + 1] <= order[..i];
    }
  }

  lemma OrderedIsAcyclic(m: Bundle, order: seq<string>)
    requires Enumerates(m, order) && DepsFirst(m, order)
    ensures Acyclic(m) && AllKnown(m)
  {
    forall n | n in m ensures !OnCycle(m, n) {
      var i :| 0 <= i < |order| && order[i] == n;
      forall path: seq<string> | |path| >= 2 && path[0] == n && Walk(m, path) ensures path[|path| - 1] != n {
        WalkDescends(m, order, path, i);
      }
    }
    forall n, d | DependsOn(m, n, d) ensures d in m {
      var i :| 0 <= i < |order| && order[i] == n;
    }
  }

  /** The sort succeeds exactly on bundles with no missing dependency and no cycle. */
  lemma TopoSucceedsIff(m: Bundle, names: seq<string>)
    requires Enumerates(m, names)
    ensures TopoOf(m, names).Ok? <==> AllKnown(m) && Acyclic(m)
  {
    TopoSound(m, names);
    var r := TopoOf(m, names);
    if r.Ok? {
      OrderedIsAcyclic(m, r.value);
    }
  }

  // ------------------------------------------------------------------ which of the possible orders

  /** One is the other, or reaches it along dependsOn. */
  ghost predicate Needs(m: Bundle, n: string, x: string) {
    exists path: seq<string> :: path != [] && path[0] == n && path[|path| - 1] == x && Walk(m, path)
  }

  lemma NeedsItself(m: Bundle, n: string)
    ensures Needs(m, n, n)
  {
    assert [n][0] == n && Walk(m, [n]);
  }

  lemma NeedsThrough(m: Bundle, n: string, d: string, x: string)
    requires DependsOn(m, n, d) && Needs(m, d, x)
    ensures Needs(m, n, x)
  {
    var path: seq<string> :| path != [] && path[0] == d && path[|path| - 1] == x && Walk(m, path);
    var longer := [n] + path;
    forall i | 0 <= i < |longer| - 1 ensures DependsOn(m, longer[i], longer[i + 1]) {
      if i > 0 { assert DependsOn(m, path[i - 1], path[i]); }
    }
    assert longer[0] == n && longer[|longer| - 1] == x && Walk(m, longer);
  }

  ghost predicate AllNeeded(m: Bundle, n: string, xs: seq<string>) {
    forall x | x in xs :: Needs(m, n, x)
  }

  /** A visit lists, after what was listed before it, only what the visited name needs. */
  lemma {:induction false} VisitLists(m: Bundle, s: Dfs, n: string)
    requires n in m
    ensures var t := Visit(m, s, n).0; s.order <= t.order && AllNeeded(m, n, t.order[|s.order|..])
    decreases White(m, s), 1, 0
  {
    if n !in s.gray && n !in s.black {
      WhiteShrinks(m, s, n);
      VisitDepsLists(m, s.(gray := s.gray + {n}), n, 0);
    }
  }

  lemma {:induction false} VisitDepsLists(m: Bundle, s: Dfs, n: string, i: nat)
    requires n in m && i <= |m[n].dependsOn|
    ensures var t := VisitDeps(m, s, n, i).0; s.order <= t.order && AllNeeded(m, n, t.order[|s.order|..])
    decreases White(m, s), 2, |m[n].dependsOn| - i
  {
    var deps := m[n].dependsOn;
    if i == |deps| {
      NeedsItself(m, n);
    } else if deps[i] in m {
      var d := deps[i];
      VisitLists(m, s, d);
      var (s1, err) := Visit(m, s, d);
      forall x | x in s1.order[|s.order|..] ensures Needs(m, n, x) {
        assert DependsOn(m, n, d);
        NeedsThrough(m, n, d, x);
      }
      if err.None? {
        WhiteMonotone(m, s, s1);
        VisitDepsLists(m, s1, n, i + 1);
        SameBlock(s.order, s1.order, VisitDeps(m, s1, n, i + 1).0.order);
      }
    }
  }

  lemma SameBlock(a: seq<string>, b: seq<string>, c: seq<string>)
    requires a <= b <= c
    ensures c[|a|..] == b[|a|..] + c[|b|..]
  {
  }

  ghost predicate NeededByOneOf(m: Bundle, names: seq<string>, x: string) {
    exists n :: n in names && Needs(m, n, x)
  }

  /** Up to names[k], a list holds only what was listed at the start or what names[..k + 1] need. */
  ghost predicate ListsBlocks(m: Bundle, start: seq<string>, order: seq<string>, names: seq<string>) {
    forall i, p, k | 0 <= i <= p < |order| && 0 <= k < |names| && order[p] == names[k] ::
      order[i] in start || NeededByOneOf(m, names[..k + 1], order[i])
  }

  lemma {:induction false} VisitAllLists(m: Bundle, s: Dfs, names: seq<string>)
    requires (forall n | n in names :: n in m) && Consistent(m, s, [])
    ensures var (t, err) := VisitAll(m, s, names); err.None? ==> s.order <= t.order && NoRepeats(t.order)
    ensures var (t, err) := VisitAll(m, s, names); err.None? ==> ListsBlocks(m, s.order, t.order, names)
    decreases |names|
  {
    if names != [] {
      VisitSound(m, s, names[0], []);
      VisitLists(m, s, names[0]);
      var (s1, err1) := Visit(m, s, names[0]);
      var (t, err) := VisitAll(m, s, names);
      if err.None? {
        VisitAllLists(m, s1, names[1..]);
        BlocksJoin(m, s.order, s1.order, t.order, names);
      }
    }
  }

  lemma BlocksJoin(m: Bundle, start: seq<string>, mid: seq<string>, order: seq<string>, names: seq<string>)
    requires names != [] && start <= mid <= order && NoRepeats(order) && names[0] in mid
    requires AllNeeded(m, names[0], mid[|start|..]) && ListsBlocks(m, mid, order, names[1..])
    ensures ListsBlocks(m, start, order, names)
  {
    forall i, p, k | 0 <= i <= p < |order| && 0 <= k < |names| && order[p] == names[k]
      ensures order[i] in start || NeededByOneOf(m, names[..k + 1], order[i])
    {
      var x := order[i];
      var q :| 0 <= q < |mid| && mid[q] == names[0];
      assert order[q] == names[0] && (k == 0 ==> p == q);
      assert i < |mid| ==> mid[i] == x;
      if x in mid {
        assert mid == start + mid[|start|..];
        assert names[0] in names[..k + 1];
      } else {
        assert names[1..][k - 1] == names[k];
        var n :| n in names[1..][..k] && Needs(m, n, x);
        assert n in names[..k + 1];
      }
    }
  }

  lemma ListedByBlocks(m: Bundle, names: seq<string>, order: seq<string>, i: nat, p: nat)
    requires Enumerates(m, names) && TopoOf(m, names) == Ok(order) && i <= p < |order|
    ensures exists k :: 0 <= k < |names| && names[k] == order[p] && NeededByOneOf(m, names[..k + 1], order[i])
  {
    TopoSound(m, names);
    assert Consistent(m, UNVISITED, []);
    VisitAllLists(m, UNVISITED, names);
    assert order[p] in names;
    var k :| 0 <= k < |names| && names[k] == order[p];
    var (t, err) := VisitAll(m, UNVISITED, names);
    assert t.order == order && ListsBlocks(m, [], order, names);
    assert NeededByOneOf(m, names[..k + 1], order[i]);
  }

  lemma NeverAfter(names: seq<string>, k: nat, n: string)
    requires Sorted(StrLess, names) && k < |names| && n in names[..k + 1]
    ensures !StrLess(names[k], n)
  {
    var j :| 0 <= j <= k && names[j] == n;
    StrIrreflexive(n);
  }

  /** No preset is listed earlier than needed: what stands before a name is needed by it or by a lesser one. */
  lemma ListedWhenNeeded(m: Bundle, names: seq<string>, order: seq<string>, i: nat, p: nat)
    requires Enumerates(m, names) && Sorted(StrLess, names) && TopoOf(m, names) == Ok(order) && i <= p < |order|
    ensures exists n :: n in m && !StrLess(order[p], n) && Needs(m, n, order[i])
  {
    ListedByBlocks(m, names, order, i, p);
    var k :| 0 <= k < |names| && names[k] == order[p] && NeededByOneOf(m, names[..k + 1], order[i]);
    var n :| n in names[..k + 1] && Needs(m, n, order[i]);
    assert n in names;
    NeverAfter(names, k, n);
  }

  lemma VisitLeaf(m: Bundle, s: Dfs, n: string)
    requires n in m && n !in s.gray && n !in s.black && m[n].dependsOn == []
    ensures Visit(m, s, n) == (Dfs(s.gray, s.black + {n}, s.order + [n]), None)
  {
    assert s.gray + {n} - {n} == s.gray;
    WhiteShrinks(m, s, n);
  }

  lemma VisitDone(m: Bundle, s: Dfs, names: seq<string>)
    requires forall n | n in names :: n in m && n in s.black && n !in s.gray
    ensures VisitAll(m, s, names) == (s, None)
  {
  }

  lemma VisitOneDep(m: Bundle, s: Dfs, n: string, at: Dfs, after: Dfs, done: Dfs)
    requires n in m && n !in s.gray && n !in s.black && at == s.(gray := at.gray) && at.gray == s.gray + {n}
    requires |m[n].dependsOn| == 1 && m[n].dependsOn[0] in m && Visit(m, at, m[n].dependsOn[0]) == (after, None)
    requires done.gray == after.gray - {n} && done.black == after.black + {n} && done.order == after.order + [n]
    ensures Visit(m, s, n) == (done, None)
  {
    WhiteShrinks(m, s, n);
    assert VisitDeps(m, after, n, 1) == (done, None);
  }

  lemma VisitTwoDeps(m: Bundle, s: Dfs, n: string, at: Dfs, first: Dfs, second: Dfs, done: Dfs)
    requires n in m && n !in s.gray && n !in s.black && at == s.(gray := at.gray) && at.gray == s.gray + {n}
    requires |m[n].dependsOn| == 2 && m[n].dependsOn[0] in m && m[n].dependsOn[1] in m
    requires Visit(m, at, m[n].dependsOn[0]) == (first, None)
    requires Visit(m, first, m[n].dependsOn[1]) == (second, None)
    requires done.gray == second.gray - {n} && done.black == second.black + {n} && done.order == second.order + [n]
    ensures Visit(m, s, n) == (done, None)
  {
    WhiteShrinks(m, s, n);
    assert VisitDeps(m, second, n, 2) == (done, None);
    assert VisitDeps(m, first, n, 1) == VisitDeps(m, second, n, 2);
  }

  /** Dependencies are visited in the order they are declared in, roots in the order of their names. */
  lemma KnownOrder(m: Bundle, a: Preset, leaf: Preset)
    requires a.dependsOn == ["d", "c"] && leaf.dependsOn == [] && m.Keys == {"a", "b", "c", "d"}
    requires m["a"] == a && m["b"] == leaf && m["c"] == a.(dependsOn := ["b"]) && m["d"] == leaf
    ensures TopoOf(m, ["a", "b", "c", "d"]) == Ok(["d", "b", "c", "a"])
  {
    var atA := Dfs({"a"}, {}, []);
    var afterD := Dfs({"a"}, {"d"}, ["d"]);
    var atC := Dfs({"a", "c"}, {"d"}, ["d"]);
    var afterB := Dfs({"a", "c"}, {"d", "b"}, ["d", "b"]);
    var afterC := Dfs({"a"}, {"d", "b", "c"}, ["d", "b", "c"]);
    var done := Dfs({}, {"d", "b", "c", "a"}, ["d", "b", "c", "a"]);
    VisitLeaf(m, atA, "d");
    VisitLeaf(m, atC, "b");
    assert afterD.black == atA.black + {"d"} && afterD.order == atA.order + ["d"];
    assert afterB.black == atC.black + {"b"} && afterB.order == atC.order + ["b"];
    VisitOneDep(m, afterD, "c", atC, afterB, afterC);
    VisitTwoDeps(m, UNVISITED, "a", atA, afterD, afterC, done);
    VisitDone(m, done, ["b", "c", "d"]);
    assert ["a", "b", "c", "d"][1..] == ["b", "c", "d"];
  }

  /** Map iteration order cannot show: all enumerations sort to one list. */
  lemma IterationOrderIrrelevant(m: Bundle, a: seq<string>, b: seq<string>, a': seq<string>, b': seq<string>)
    requires Enumerates(m, a) && Enumerates(m, b)
    requires SortOf(StrLess, a, a') && SortOf(StrLess, b, b')
    ensures a' == b'
  {
    SameDistinct(a, b);
    SortedStringsUnique(a', b');
  }

  lemma SortEnumerates(m: Bundle, a: seq<string>, a': seq<string>)
    requires Enumerates(m, a) && SortOf(StrLess, a, a')
    ensures Enumerates(m, a')
  {
    StrOrder(multiset(a));
    SortedDistinct(StrLess, a, a');
  }

  // ------------------------------------------------------------------ the sort as the program runs it

  datatype Colour = Gray | Black

  function NamesOf(ps: seq<Preset>): seq<string> {
    seq(|ps|, i requires 0 <= i < |ps| => ps[i].name)
  }

  /** The presets a list of names stands for. */
  ghost predicate Lists(m: Bundle, ps: seq<Preset>, names: seq<string>) {
    NamesOf(ps) == names && forall p | p in ps :: p.name in m && p == m[p.name]
  }

  class TopoSorter {
    const byName: Bundle
    var color: map<string, Colour>
    var out: seq<Preset>

    ghost function Of(c: Colour): set<string>
      reads this
    {
      set n | n in color && color[n] == c
    }

    ghost function State(): Dfs
      reads this
    {
      Dfs(Of(Gray), Of(Black), NamesOf(out))
    }

    ghost predicate OutListed()
      reads this
    {
      Lists(byName, out, NamesOf(out))
    }

    constructor (byName: Bundle)
      ensures this.byName == byName && State() == UNVISITED && OutListed()
    {
      this.byName := byName;
      color, out := map[], [];
    }

    method VisitName(n: string) returns (err: Option<TopoError>)
      requires Named(byName) && n in byName && OutListed()
      modifies this
      ensures (State(), err) == Visit(byName, old(State()), n) && OutListed()
      decreases White(byName, State()), 2
    {
      if n in color && color[n] == Gray {
        return Some(Cycle(n));
      }
      if n in color {
        return None;
      }
      err := Enter(n);
    }

    /** A name met for the first time. */
    method Enter(n: string) returns (err: Option<TopoError>)
      requires Named(byName) && n in byName && n !in color && OutListed()
      modifies this
      ensures (State(), err) == Visit(byName, old(State()), n) && OutListed()
      decreases White(byName, State()), 1
    {
      WhiteShrinks(byName, State(), n);
      Begin(n);
      err := VisitDependencies(n);
    }

    /** The loop over dependsOn, then the name itself is finished. */
    method VisitDependencies(n: string) returns (err: Option<TopoError>)
      requires Named(byName) && n in byName && OutListed()
      modifies this
      ensures (State(), err) == VisitDeps(byName, old(State()), n, 0) && OutListed()
      decreases White(byName, State()), 3
    {
      var p := byName[n];
      ghost var before := State();
      var i := 0;
      while i < |p.dependsOn|
        invariant i <= |p.dependsOn| && OutListed()
        invariant VisitDeps(byName, State(), n, i) == VisitDeps(byName, before, n, 0)
        invariant White(byName, State()) <= White(byName, before)
      {
        var dep := p.dependsOn[i];
        if dep !in byName {
          return Some(UnknownDependency(n, dep));
        }
        ghost var here := State();
        err := VisitName(dep);
        if err.Some? {
          return;
        }
        WhiteMonotone(byName, here, State());
        i := i + 1;
      }
      Finish(p);
      return None;
    }

    method Begin(n: string)
      requires n !in color
      modifies this`color
      ensures State() == old(State()).(gray := old(State()).gray + {n})
    {
      color := color[n := Gray];
      assert Of(Gray) == old(Of(Gray)) + {n};
      assert Of(Black) == old(Of(Black));
    }

    method Finish(p: Preset)
      requires p.name in byName && byName[p.name] == p && OutListed()
      modifies this
      ensures State() == Dfs(old(State()).gray - {p.name}, old(State()).black + {p.name}, old(State()).order + [p.name])
      ensures OutListed()
    {
      color := color[p.name := Black];
      out := out + [p];
      assert Of(Gray) == old(Of(Gray)) - {p.name};
      assert Of(Black) == old(Of(Black)) + {p.name};
    }
  }

  /** The presets or the error that the search over the sorted names comes to. */
  ghost predicate IsSorting(m: Bundle, sorted: seq<string>, r: Result<seq<Preset>, TopoError>) {
    && Enumerates(m, sorted) && Sorted(StrLess, sorted)
    && match TopoOf(m, sorted)
       case Ok(order) => r.Ok? && Lists(m, r.value, order)
       case Err(e) => r == Err(e)
  }

  /** Whatever order the map yields its names in, there is one outcome. */
  lemma SortingUnique(m: Bundle, a: seq<string>, b: seq<string>,
                      r: Result<seq<Preset>, TopoError>, t: Result<seq<Preset>, TopoError>)
    requires IsSorting(m, a, r) && IsSorting(m, b, t)
    ensures r == t
  {
    IterationOrderIrrelevant(m, a, b, a, b);
    if r.Ok? {
      ListsUnique(m, r.value, t.value, NamesOf(r.value));
    }
  }

  lemma ListsUnique(m: Bundle, ps: seq<Preset>, qs: seq<Preset>, names: seq<string>)
    requires Lists(m, ps, names) && Lists(m, qs, names)
    ensures ps == qs
  {
    assert |ps| == |names| == |qs|;
    forall i | 0 <= i < |ps| ensures ps[i] == qs[i] {
      assert ps[i] in ps && qs[i] in qs;
      assert ps[i].name == names[i] == qs[i].name;
    }
  }

  /**
   Sort the names the map yields, then visit each. It succeeds exactly when every dependency exists and none
   is circular, then listing each preset once after all it depends on; an error names a real fault.
   */
  method TopoSort(m: Bundle, yielded: seq<string>) returns (r: Result<seq<Preset>, TopoError>)
    requires Named(m) && Enumerates(m, yielded)
    ensures exists sorted :: IsSorting(m, sorted, r)
    ensures r.Ok? <==> AllKnown(m) && Acyclic(m)
    ensures r.Ok? ==> Lists(m, r.value, NamesOf(r.value))
    ensures r.Ok? ==> Enumerates(m, NamesOf(r.value)) && DepsFirst(m, NamesOf(r.value))
    ensures r.Err? ==> Justified(m, r.error)
  {
    var names := SortStrings(yielded);
    SortEnumerates(m, yielded, names);
    TopoSound(m, names);
    TopoSucceedsIff(m, names);
    r := VisitInOrder(m, names);
    assert IsSorting(m, names, r);
  }

  method VisitInOrder(m: Bundle, names: seq<string>) returns (r: Result<seq<Preset>, TopoError>)
    requires Named(m) && forall n | n in names :: n in m
    ensures match TopoOf(m, names)
      case Ok(order) => r.Ok? && Lists(m, r.value, order)
      case Err(e) => r == Err(e)
  {
    var sorter := new TopoSorter(m);
    var i := 0;
    while i < |names|
      invariant i <= |names| && sorter.OutListed() && sorter.byName == m
      invariant VisitAll(m, sorter.State(), names[i..]) == VisitAll(m, UNVISITED, names)
    {
      assert names[i..][0] == names[i] && names[i..][1..] == names[i + 1..] && names[i] in names;
      var err := sorter.VisitName(names[i]);
      if err.Some? {
        return Err(err.value);
      }
      i := i + 1;
    }
    return Ok(sorter.out);
  }

  // ------------------------------------------------------------------ the bundle as a whole

  datatype BundleError = NotLoaded(load: LoadError) | NotSorted(topo: TopoError)

  /** The keys of a map, in whatever order it yields them. */
  method Keys(m: Bundle) returns (names: seq<string>)
    ensures Enumerates(m, names)
  {
    names := [];
    var rest := m.Keys;
    while rest != {}
      invariant NoRepeats(names) && rest <= m.Keys
      invariant forall n :: n in names <==> n in m && n !in rest
    {
      var n :| n in rest;
      names, rest := names + [n], rest - {n};
    }
  }

  /**
   Loading and ordering the bundle succeeds exactly when every file is a complete preset of its own name, every
   dependency exists and none is circular; an error of the second kind names a real cycle or missing name.
   */
  method LoadPresets(files: seq<Option<Preset>>) returns (r: Result<seq<Preset>, BundleError>)
    ensures r.Ok? <==> Loadable(files) && AllKnown(Gather(Decoded(files))) && Acyclic(Gather(Decoded(files)))
    ensures r.Ok? ==> var m := Gather(Decoded(files));
      Lists(m, r.value, NamesOf(r.value)) && Enumerates(m, NamesOf(r.value)) && DepsFirst(m, NamesOf(r.value))
    ensures r.Err? ==> (r.error.NotLoaded? <==> !Loadable(files))
    ensures r.Err? && r.error.NotSorted? ==> Justified(Gather(Decoded(files)), r.error.topo)
  {
    var loader := new Loader();
    var err := loader.LoadAll(files);
    if err.Some? {
      return Err(NotLoaded(err.value));
    }
    GatherIs(Decoded(files));
    var names := Keys(loader.byName);
    var sorted := TopoSort(loader.byName, names);
    match sorted {
      case Ok(presets) => r := Ok(presets);
      case Err(e) => r := Err(NotSorted(e));
    }
  }
}
