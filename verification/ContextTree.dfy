/**
 The profiling scope tree of the static verifier: `push` and `pop` always work
 on the deepest open scope, and the folded-stack output attributes every cell
 of a named scope exactly once.
 */
module ContextTree {
  import opened Common

  datatype Scope = Scope(name: string, level: nat, enter: nat, exit: Option<nat>, children: seq<Scope>) {
    predicate IsOpen()
    {
      exit.None?
    }

    /** Where the scope ends, as far as is known at count `c`. */
    function End(c: nat): nat
    {
      if exit.Some? then exit.value else c
    }

    /** `cell_count_delta`; negative would be an underflow. */
    function Delta(c: nat): int
    {
      End(c) - enter
    }

    function LastOpen(): (r: bool)
      ensures r ==> |children| > 0
    {
      |children| > 0 && children[|children| - 1].IsOpen()
    }

    function Last(): Scope
      requires |children| > 0
    {
      children[|children| - 1]
    }

    function WithLast(s: Scope): Scope
      requires |children| > 0
    {
      this.(children := children[..|children| - 1] + [s])
    }
  }

  function Max(a: nat, b: nat): nat
  {
    if a > b then a else b
  }

  function NewRoot(): Scope
  {
    Scope("root", 0, 0, None, [])
  }

  // ---- push and pop -----------------------------------------------------------

  /** `push` on an open scope: a new child of the deepest open scope. */
  function Push(s: Scope, ctx: string, level: nat, c: nat): Scope
    decreases s
  {
    var l := Max(level, s.level);
    if s.LastOpen() then s.WithLast(Push(s.Last(), ctx, l, c))
    else s.(children := s.children + [Scope(ctx, l, c, None, [])])
  }

  /** `pop` on an open scope: the deepest open scope is closed. */
  function Pop(s: Scope, c: nat): Scope
    decreases s
  {
    if s.LastOpen() then s.WithLast(Pop(s.Last(), c)) else s.(exit := Some(c))
  }

  // ---- The open stack -----------------------------------------------------------

  /** `open_stack_helper`: the names of the open scopes along last children. */
  function OpenStack(s: Scope): (r: seq<string>)
    ensures s.IsOpen() <==> |r| > 0
    decreases s
  {
    if !s.IsOpen() then []
    else if |s.children| > 0 then [s.name] + OpenStack(s.Last())
    else [s.name]
  }

  /** All open scopes of the tree, wherever they are. */
  ghost function CountOpen(s: Scope): nat
    decreases s, 1
  {
    (if s.IsOpen() then 1 else 0) + CountOpenIn(s, |s.children|)
  }

  ghost function CountOpenIn(s: Scope, n: nat): nat
    requires n <= |s.children|
    decreases s, 0, n
  {
    if n == 0 then 0 else CountOpenIn(s, n - 1) + CountOpen(s.children[n - 1])
  }

  // ---- Well-formed trees ----------------------------------------------------------

  /** Children lie inside their parent, one after the other, and only the last can be open. */
  ghost predicate Nested(s: Scope, c: nat)
  {
    && s.enter <= s.End(c) <= c
    && (forall i :: 0 <= i < |s.children| ==>
          s.enter <= s.children[i].enter && s.children[i].End(c) <= s.End(c) && s.level <= s.children[i].level)
    && (forall i, j :: 0 <= i < j < |s.children| ==> s.children[i].End(c) <= s.children[j].enter)
    && (forall i :: 0 <= i < |s.children| && s.children[i].IsOpen() ==> s.IsOpen() && i == |s.children| - 1)
  }

  ghost predicate WellFormed(s: Scope, c: nat)
    decreases s
  {
    Nested(s, c) && forall i :: 0 <= i < |s.children| ==> WellFormed(s.children[i], c)
  }

  lemma {:induction false} LaterCount(s: Scope, c: nat, c': nat)
    requires WellFormed(s, c) && c <= c'
    ensures WellFormed(s, c')
    decreases s
  {
    forall i | 0 <= i < |s.children| ensures WellFormed(s.children[i], c') {
      LaterCount(s.children[i], c, c');
    }
  }

  /** The open last child may be replaced by a tree that takes its place in the order. */
  lemma ReplaceLast(s: Scope, r: Scope, c: nat)
    requires WellFormed(s, c) && s.IsOpen() && s.LastOpen() && WellFormed(r, c)
    requires r.enter == s.Last().enter && r.level == s.Last().level
    ensures WellFormed(s.WithLast(r), c)
  {
    var t, n := s.WithLast(r), |s.children| - 1;
    forall i | 0 <= i <= n
      ensures WellFormed(t.children[i], c)
      ensures i < n ==> t.children[i] == s.children[i]
    {
      if i < n { assert t.children[i] == s.children[i]; }
    }
  }

  lemma LeafWellFormed(ctx: string, level: nat, c: nat)
    ensures WellFormed(Scope(ctx, level, c, None, []), c)
  {
  }

  lemma AppendChild(s: Scope, ctx: string, level: nat, c: nat)
    requires WellFormed(s, c) && s.IsOpen() && !s.LastOpen() && s.level <= level
    ensures WellFormed(s.(children := s.children + [Scope(ctx, level, c, None, [])]), c)
  {
    var leaf := Scope(ctx, level, c, None, []);
    var t, n := s.(children := s.children + [leaf]), |s.children|;
    LeafWellFormed(ctx, level, c);
    assert t.children[n] == leaf;
    AppendNested(s, leaf, c);
    forall i | 0 <= i <= n ensures WellFormed(t.children[i], c) {
      if i < n { assert t.children[i] == s.children[i]; }
    }
  }

  lemma AppendNested(s: Scope, leaf: Scope, c: nat)
    requires Nested(s, c) && s.IsOpen() && !s.LastOpen()
    requires leaf.enter == c && leaf.End(c) == c && s.level <= leaf.level
    ensures Nested(s.(children := s.children + [leaf]), c)
  {
    var t, n := s.(children := s.children + [leaf]), |s.children|;
    assert t.children[n] == leaf;
    forall i | 0 <= i < n ensures t.children[i] == s.children[i] && !s.children[i].IsOpen() {}
  }

  lemma {:induction false} PushKeeps(s: Scope, ctx: string, level: nat, c: nat)
    requires WellFormed(s, c) && s.IsOpen()
    ensures var r := Push(s, ctx, level, c);
      WellFormed(r, c) && r.IsOpen() && r.enter == s.enter && r.level == s.level && r.name == s.name
    decreases s
  {
    if s.LastOpen() {
      PushKeeps(s.Last(), ctx, Max(level, s.level), c);
      ReplaceLast(s, Push(s.Last(), ctx, Max(level, s.level), c), c);
    } else {
      AppendChild(s, ctx, Max(level, s.level), c);
    }
  }

  lemma {:induction false} PushStack(s: Scope, ctx: string, level: nat, c: nat)
    requires s.IsOpen()
    ensures Push(s, ctx, level, c).IsOpen()
    ensures OpenStack(Push(s, ctx, level, c)) == OpenStack(s) + [ctx]
    decreases s
  {
    var r, l := Push(s, ctx, level, c), Max(level, s.level);
    if s.LastOpen() {
      PushStack(s.Last(), ctx, l, c);
      assert r.Last() == Push(s.Last(), ctx, l, c);
    } else {
      assert OpenStack(s) == [s.name];
      assert r.Last() == Scope(ctx, l, c, None, []);
      assert OpenStack(r.Last()) == [ctx];
    }
  }

  lemma {:induction false} PopKeeps(s: Scope, c: nat)
    requires WellFormed(s, c) && s.IsOpen()
    ensures var r := Pop(s, c);
      WellFormed(r, c) && r.End(c) == s.End(c) && r.enter == s.enter && r.level == s.level && r.name == s.name
    decreases s
  {
    if s.LastOpen() {
      PopKeeps(s.Last(), c);
      ReplaceLast(s, Pop(s.Last(), c), c);
    }
  }

  lemma {:induction false} PopStack(s: Scope, c: nat)
    requires s.IsOpen()
    ensures var st := OpenStack(s); OpenStack(Pop(s, c)) == st[..|st| - 1]
    decreases s
  {
    var r := Pop(s, c);
    if s.LastOpen() {
      PopStack(s.Last(), c);
      assert r.Last() == Pop(s.Last(), c);
    } else {
      assert OpenStack(s) == [s.name];
    }
  }

  /** No scope is open outside the last-child path. */
  lemma {:induction false} OpenIsPath(s: Scope, c: nat)
    requires WellFormed(s, c)
    ensures CountOpen(s) == |OpenStack(s)|
    decreases s
  {
    ChildrenOpen(s, c, |s.children|);
  }

  lemma {:induction false} ChildrenOpen(s: Scope, c: nat, n: nat)
    requires WellFormed(s, c) && n <= |s.children|
    ensures CountOpenIn(s, n) == if n == |s.children| && s.LastOpen() then |OpenStack(s.Last())| else 0
    decreases s, n
  {
    if n > 0 {
      ChildrenOpen(s, c, n - 1);
      OpenIsPath(s.children[n - 1], c);
    }
  }

  // ---- All scopes as a list --------------------------------------------------------------

  /** A scope with the names on its path from the root, its own last. */
  datatype Entry = Entry(path: seq<string>, level: nat, enter: nat, exit: Option<nat>)

  /** Every scope of the tree, parents before children and children in order. */
  ghost function Entries(s: Scope, above: seq<string>): seq<Entry>
    decreases s, 1
  {
    [Entry(above + [s.name], s.level, s.enter, s.exit)] + EntriesIn(s, |s.children|, above + [s.name])
  }

  ghost function EntriesIn(s: Scope, n: nat, path: seq<string>): seq<Entry>
    requires n <= |s.children|
    decreases s, 0, n
  {
    if n == 0 then [] else EntriesIn(s, n - 1, path) + Entries(s.children[n - 1], path)
  }

  /** Where the last open entry of a list is, or -1. */
  ghost function LastOpenAt(es: seq<Entry>): (k: int)
    ensures -1 <= k < |es| && (k >= 0 ==> es[k].exit.None?)
  {
    if es == [] then -1
    else if es[|es| - 1].exit.None? then |es| - 1
    else LastOpenAt(es[..|es| - 1])
  }

  /** The strongest of `l` and the levels of the open entries. */
  ghost function OpenLevel(es: seq<Entry>, l: nat): nat
  {
    if es == [] then l
    else
      var m := OpenLevel(es[..|es| - 1], l);
      var e := es[|es| - 1];
      if e.exit.None? && e.level > m then e.level else m
  }

  /** A new open scope under the last open one; nothing else changes. */
  ghost function Pushed(es: seq<Entry>, ctx: string, level: nat, c: nat): seq<Entry>
    requires LastOpenAt(es) >= 0
  {
    es + [Entry(es[LastOpenAt(es)].path + [ctx], OpenLevel(es, level), c, None)]
  }

  /** The last open scope gets its exit; nothing else changes. */
  ghost function Popped(es: seq<Entry>, c: nat): seq<Entry>
    requires LastOpenAt(es) >= 0
  {
    es[LastOpenAt(es) := es[LastOpenAt(es)].(exit := Some(c))]
  }

  lemma {:induction false} LastOpenAppend(a: seq<Entry>, b: seq<Entry>)
    ensures LastOpenAt(a + b) == if LastOpenAt(b) >= 0 then |a| + LastOpenAt(b) else LastOpenAt(a)
    decreases |b|
  {
    if b == [] {
      assert a + b == a;
    } else {
      LastOpenAppend(a, b[..|b| - 1]);
      assert (a + b)[..|a + b| - 1] == a + b[..|b| - 1];
    }
  }

  lemma {:induction false} OpenLevelAppend(a: seq<Entry>, b: seq<Entry>, l: nat)
    ensures OpenLevel(a + b, l) == OpenLevel(b, OpenLevel(a, l))
    decreases |b|
  {
    if b == [] {
      assert a + b == a;
    } else {
      OpenLevelAppend(a, b[..|b| - 1], l);
      assert (a + b)[..|a + b| - 1] == a + b[..|b| - 1];
    }
  }

  lemma {:induction false} ClosedLevel(es: seq<Entry>, l: nat)
    requires LastOpenAt(es) < 0
    ensures OpenLevel(es, l) == l
  {
    if es != [] { ClosedLevel(es[..|es| - 1], l); }
  }

  /** Under a closed scope nothing is open. */
  lemma {:induction false} ClosedEntries(s: Scope, c: nat, above: seq<string>)
    requires WellFormed(s, c) && !s.IsOpen()
    ensures LastOpenAt(Entries(s, above)) < 0
    decreases s, 1
  {
    var own := [Entry(above + [s.name], s.level, s.enter, s.exit)];
    ClosedChildren(s, c, |s.children|, above + [s.name]);
    LastOpenAppend(own, EntriesIn(s, |s.children|, above + [s.name]));
    assert own[..0] == [];
  }

  lemma {:induction false} ClosedChildren(s: Scope, c: nat, n: nat, path: seq<string>)
    requires WellFormed(s, c) && n <= |s.children| && (n < |s.children| || !s.LastOpen())
    ensures LastOpenAt(EntriesIn(s, n, path)) < 0
    decreases s, 0, n
  {
    if n > 0 {
      ClosedChildren(s, c, n - 1, path);
      ClosedEntries(s.children[n - 1], c, path);
      LastOpenAppend(EntriesIn(s, n - 1, path), Entries(s.children[n - 1], path));
    }
  }

  lemma {:induction false} SameChildren(s: Scope, t: Scope, n: nat, path: seq<string>)
    requires n <= |s.children| && n <= |t.children| && s.children[..n] == t.children[..n]
    ensures EntriesIn(s, n, path) == EntriesIn(t, n, path)
    decreases n
  {
    if n > 0 {
      assert s.children[n - 1] == s.children[..n][n - 1] == t.children[n - 1];
      assert s.children[..n - 1] == s.children[..n][..n - 1] == t.children[..n - 1];
      SameChildren(s, t, n - 1, path);
    }
  }

  /** What comes before the last child: the scope itself and its earlier children. */
  ghost function Before(s: Scope, above: seq<string>): seq<Entry>
    requires |s.children| > 0
  {
    [Entry(above + [s.name], s.level, s.enter, s.exit)] + EntriesIn(s, |s.children| - 1, above + [s.name])
  }

  lemma EntriesOfLast(s: Scope, r: Scope, above: seq<string>)
    requires |s.children| > 0
    ensures Entries(s, above) == Before(s, above) + Entries(s.Last(), above + [s.name])
    ensures Entries(s.WithLast(r), above) == Before(s, above) + Entries(r, above + [s.name])
  {
    var t, n, path := s.WithLast(r), |s.children|, above + [s.name];
    SameChildren(s, t, n - 1, path);
    assert t.children[n - 1] == r;
  }

  /** Before an open last child, the scope itself is the only open one. */
  lemma BeforeLast(s: Scope, c: nat, above: seq<string>, l: nat)
    requires WellFormed(s, c) && s.IsOpen() && |s.children| > 0
    ensures OpenLevel(Before(s, above), l) == Max(l, s.level)
  {
    var own, path := [Entry(above + [s.name], s.level, s.enter, s.exit)], above + [s.name];
    var rest := EntriesIn(s, |s.children| - 1, path);
    ClosedChildren(s, c, |s.children| - 1, path);
    ClosedLevel(rest, OpenLevel(own, l));
    OpenLevelAppend(own, rest, l);
    assert own[..0] == [];
  }

  /** With no open child, the scope itself is the only open one. */
  lemma OnlyOpen(s: Scope, c: nat, above: seq<string>, l: nat)
    requires WellFormed(s, c) && s.IsOpen() && !s.LastOpen()
    ensures LastOpenAt(Entries(s, above)) == 0 && OpenLevel(Entries(s, above), l) == Max(l, s.level)
  {
    var own, path := [Entry(above + [s.name], s.level, s.enter, s.exit)], above + [s.name];
    var rest := EntriesIn(s, |s.children|, path);
    ClosedChildren(s, c, |s.children|, path);
    LastOpenAppend(own, rest);
    ClosedLevel(rest, OpenLevel(own, l));
    OpenLevelAppend(own, rest, l);
    assert own[..0] == [];
  }

  lemma {:induction false} SomeOpen(s: Scope, c: nat, above: seq<string>)
    requires WellFormed(s, c)
    ensures LastOpenAt(Entries(s, above)) >= 0 <==> s.IsOpen()
    decreases s
  {
    if !s.IsOpen() {
      ClosedEntries(s, c, above);
    } else if s.LastOpen() {
      SomeOpen(s.Last(), c, above + [s.name]);
      EntriesOfLast(s, s.Last(), above);
      LastOpenAppend(Before(s, above), Entries(s.Last(), above + [s.name]));
    } else {
      OnlyOpen(s, c, above, 0);
    }
  }

  lemma PushedBehind(a: seq<Entry>, b: seq<Entry>, ctx: string, level: nat, c: nat)
    requires LastOpenAt(b) >= 0
    ensures LastOpenAt(a + b) >= 0
    ensures Pushed(a + b, ctx, level, c) == a + Pushed(b, ctx, OpenLevel(a, level), c)
  {
    LastOpenAppend(a, b);
    OpenLevelAppend(a, b, level);
  }

  lemma PoppedBehind(a: seq<Entry>, b: seq<Entry>, c: nat)
    requires LastOpenAt(b) >= 0
    ensures LastOpenAt(a + b) >= 0 && Popped(a + b, c) == a + Popped(b, c)
  {
    LastOpenAppend(a, b);
  }

  /** `push` adds one scope at the end of the list and leaves every other as it is. */
  lemma {:induction false} PushAdds(s: Scope, c0: nat, above: seq<string>, ctx: string, level: nat, c: nat)
    requires WellFormed(s, c0) && s.IsOpen()
    ensures LastOpenAt(Entries(s, above)) >= 0
    ensures Entries(Push(s, ctx, level, c), above) == Pushed(Entries(s, above), ctx, level, c)
    decreases s
  {
    var path, l := above + [s.name], Max(level, s.level);
    SomeOpen(s, c0, above);
    if s.LastOpen() {
      var before, last := Before(s, above), Entries(s.Last(), path);
      PushAdds(s.Last(), c0, path, ctx, l, c);
      EntriesOfLast(s, Push(s.Last(), ctx, l, c), above);
      BeforeLast(s, c0, above, level);
      PushedBehind(before, last, ctx, level, c);
    } else {
      OnlyOpen(s, c0, above, level);
      PushedLeaf(s, above, Scope(ctx, l, c, None, []));
    }
  }

  lemma PushedLeaf(s: Scope, above: seq<string>, leaf: Scope)
    requires leaf.children == []
    ensures Entries(s.(children := s.children + [leaf]), above)
         == Entries(s, above) + [Entry(above + [s.name] + [leaf.name], leaf.level, leaf.enter, leaf.exit)]
  {
    var t, n, path := s.(children := s.children + [leaf]), |s.children|, above + [s.name];
    SameChildren(s, t, n, path);
    assert t.children[n] == leaf;
    assert Entries(leaf, path) == [Entry(path + [leaf.name], leaf.level, leaf.enter, leaf.exit)];
  }

  /** `pop` changes the exit of one scope, the last open one, and nothing else. */
  lemma {:induction false} PopChanges(s: Scope, c0: nat, above: seq<string>, c: nat)
    requires WellFormed(s, c0) && s.IsOpen()
    ensures LastOpenAt(Entries(s, above)) >= 0
    ensures Entries(Pop(s, c), above) == Popped(Entries(s, above), c)
    decreases s
  {
    var path := above + [s.name];
    SomeOpen(s, c0, above);
    if s.LastOpen() {
      PopChanges(s.Last(), c0, path, c);
      EntriesOfLast(s, Pop(s.Last(), c), above);
      PoppedBehind(Before(s, above), Entries(s.Last(), path), c);
    } else {
      OnlyOpen(s, c0, above, 0);
      SameChildren(s, Pop(s, c), |s.children|, path);
    }
  }

  // ---- Runs ----------------------------------------------------------------------------

  datatype Op = PushOp(ctx: string, level: nat, count: nat) | PopOp(count: nat)

  /** A profiler: the tree with its root, updated in place. */
  class Profiler {
    var root: Scope
    ghost var count: nat
    ghost var stack: seq<string>
    ghost var scopes: seq<Entry>

    /** `stack` and `scopes` are the open names and all scopes that the calls describe. */
    ghost predicate Valid()
      reads this
    {
      WellFormed(root, count) && OpenStack(root) == stack && Entries(root, []) == scopes
    }

    constructor ()
      ensures Valid() && root == NewRoot() && count == 0 && stack == ["root"]
      ensures scopes == [Entry(["root"], 0, 0, None)]
    {
      root, count, stack := NewRoot(), 0, ["root"];
      scopes := [Entry(["root"], 0, 0, None)];
      new;
      assert [] + ["root"] == ["root"] && EntriesIn(NewRoot(), 0, ["root"]) == [];
    }

    method PushScope(ctx: string, level: nat, current: nat) returns (ok: bool)
      requires Valid() && count <= current
      modifies this
      ensures Valid() && count == current && (ok <==> old(stack) != [])
      ensures root == if ok then Push(old(root), ctx, level, current) else old(root)
      ensures stack == if ok then old(stack) + [ctx] else old(stack)
      ensures ok <==> LastOpenAt(old(scopes)) >= 0
      ensures scopes == if ok then Pushed(old(scopes), ctx, level, current) else old(scopes)
    {
      SomeOpen(root, count, []);
      LaterCount(root, count, current);
      count := current;
      if !root.IsOpen() {
        return false;
      }
      PushKeeps(root, ctx, level, current);
      PushStack(root, ctx, level, current);
      PushAdds(root, current, [], ctx, level, current);
      scopes := Pushed(scopes, ctx, level, current);
      root := Push(root, ctx, level, current);
      stack := stack + [ctx];
      return true;
    }

    method PopScope(current: nat) returns (ok: bool)
      requires Valid() && count <= current
      modifies this
      ensures Valid() && count == current && (ok <==> old(stack) != [])
      ensures root == if ok then Pop(old(root), current) else old(root)
      ensures stack == if ok then old(stack)[..|old(stack)| - 1] else old(stack)
      ensures ok <==> LastOpenAt(old(scopes)) >= 0
      ensures scopes == if ok then Popped(old(scopes), current) else old(scopes)
    {
      SomeOpen(root, count, []);
      LaterCount(root, count, current);
      count := current;
      if !root.IsOpen() {
        return false;
      }
      PopKeeps(root, current);
      PopStack(root, current);
      PopChanges(root, current, [], current);
      scopes := Popped(scopes, current);
      root := Pop(root, current);
      stack := stack[..|stack| - 1];
      return true;
    }
  }

  ghost predicate NonDecreasing(ops: seq<Op>)
  {
    forall i, j :: 0 <= i < j < |ops| ==> ops[i].count <= ops[j].count
  }

  /** What one call does to a plain stack of names; a call with nothing open panics. */
  ghost function StackStep(st: seq<string>, op: Op): Option<seq<string>>
  {
    if st == [] then None
    else match op
      case PushOp(ctx, _, _) => Some(st + [ctx])
      case PopOp(_) => Some(st[..|st| - 1])
  }

  /** What one call does to the list of all scopes. */
  ghost function ScopesStep(es: seq<Entry>, op: Op): Option<seq<Entry>>
  {
    if LastOpenAt(es) < 0 then None
    else match op
      case PushOp(ctx, level, count) => Some(Pushed(es, ctx, level, count))
      case PopOp(count) => Some(Popped(es, count))
  }

  /** The names on a plain stack after the calls, or nothing once a call has panicked. */
  ghost function StackAfter(ops: seq<Op>): Option<seq<string>>
  {
    if ops == [] then Some(["root"]) else
      match StackAfter(ops[..|ops| - 1])
      case None => None
      case Some(st) => StackStep(st, ops[|ops| - 1])
  }

  /** All scopes after the calls, or nothing once a call has panicked. */
  ghost function ScopesAfter(ops: seq<Op>): Option<seq<Entry>>
  {
    if ops == [] then Some([Entry(["root"], 0, 0, None)]) else
      match ScopesAfter(ops[..|ops| - 1])
      case None => None
      case Some(es) => ScopesStep(es, ops[|ops| - 1])
  }

  method Apply(profiler: Profiler, op: Op) returns (ok: bool)
    requires profiler.Valid() && profiler.count <= op.count
    modifies profiler
    ensures profiler.Valid() && profiler.count == op.count
    ensures StackStep(old(profiler.stack), op) == if ok then Some(profiler.stack) else None
    ensures ScopesStep(old(profiler.scopes), op) == if ok then Some(profiler.scopes) else None
  {
    match op {
      case PushOp(ctx, level, count) => ok := profiler.PushScope(ctx, level, count);
      case PopOp(count) => ok := profiler.PopScope(count);
    }
  }

  lemma AfterStep(ops: seq<Op>, n: nat)
    requires n < |ops| && StackAfter(ops[..n]).Some? && ScopesAfter(ops[..n]).Some?
    ensures StackAfter(ops[..n + 1]) == StackStep(StackAfter(ops[..n]).value, ops[n])
    ensures ScopesAfter(ops[..n + 1]) == ScopesStep(ScopesAfter(ops[..n]).value, ops[n])
  {
    assert ops[..n + 1][..n] == ops[..n];
  }

  /**
   Every run with non-decreasing counts leaves a well-formed tree whose scopes
   are those that the calls describe, and whose open path is the plain stack.
   */
  method Run(ops: seq<Op>) returns (root: Scope, ok: bool)
    requires NonDecreasing(ops)
    ensures ok <==> StackAfter(ops).Some?
    ensures ok <==> ScopesAfter(ops).Some?
    ensures ok ==> Entries(root, []) == ScopesAfter(ops).value
    ensures ok ==> OpenStack(root) == StackAfter(ops).value && CountOpen(root) == |OpenStack(root)|
    ensures ok ==> WellFormed(root, if ops == [] then 0 else ops[|ops| - 1].count)
  {
    var profiler := new Profiler();
    for n := 0 to |ops|
      invariant fresh(profiler) && profiler.Valid()
      invariant profiler.count == if n == 0 then 0 else ops[n - 1].count
      invariant StackAfter(ops[..n]) == Some(profiler.stack) && ScopesAfter(ops[..n]) == Some(profiler.scopes)
    {
      AfterStep(ops, n);
      ok := Apply(profiler, ops[n]);
      if !ok {
        PanicStays(ops, n + 1);
        return profiler.root, false;
      }
    }
    assert ops[..|ops|] == ops;
    OpenIsPath(profiler.root, profiler.count);
    return profiler.root, true;
  }

  lemma {:induction false} PanicStays(ops: seq<Op>, n: nat)
    requires n <= |ops| && StackAfter(ops[..n]).None? && ScopesAfter(ops[..n]).None?
    ensures StackAfter(ops).None? && ScopesAfter(ops).None?
    decreases |ops| - n
  {
    if n == |ops| {
      assert ops[..n] == ops;
    } else {
      assert ops[..n + 1][..n] == ops[..n];
      PanicStays(ops, n + 1);
    }
  }

  // ---- Folded-stack output ----------------------------------------------------------------

  type Line = (string, nat)

  function FullName(prefix: string, name: string): string
  {
    if prefix == "" then (if name == "root" then "" else name) else prefix + ";" + name
  }

  ghost function DeltaSum(s: Scope, n: nat, c: nat): int
    requires n <= |s.children|
  {
    if n == 0 then 0 else DeltaSum(s, n - 1, c) + s.children[n - 1].Delta(c)
  }

  /** The cells of a scope that belong to none of its children. */
  ghost function SelfCount(s: Scope, c: nat): int
  {
    s.Delta(c) - DeltaSum(s, |s.children|, c)
  }

  lemma ChildOrder(s: Scope, i: nat, c: nat)
    requires WellFormed(s, c) && i < |s.children|
    ensures WellFormed(s.children[i], c) && s.children[i].Delta(c) >= 0
    ensures s.enter <= s.children[i].enter && s.children[i].End(c) <= s.End(c)
    ensures i > 0 ==> s.children[i - 1].End(c) <= s.children[i].enter
  {
    var child := s.children[i];
    assert WellFormed(child, c);
    assert Nested(child, c);
  }

  /** The children together never exceed the scope: the subtraction cannot underflow. */
  lemma {:induction false} ChildrenFit(s: Scope, n: nat, c: nat)
    requires WellFormed(s, c) && n <= |s.children|
    ensures 0 <= DeltaSum(s, n, c) <= (if n == 0 then 0 else s.children[n - 1].End(c) - s.enter)
    ensures DeltaSum(s, n, c) <= s.Delta(c)
  {
    if n > 0 {
      ChildrenFit(s, n - 1, c);
      ChildOrder(s, n - 1, c);
    } else {
      assert Nested(s, c);
    }
  }

  ghost function Total(lines: seq<Line>): int
  {
    if lines == [] then 0 else Total(lines[..|lines| - 1]) + lines[|lines| - 1].1
  }

  lemma {:induction false} TotalAppend(a: seq<Line>, b: seq<Line>)
    ensures Total(a + b) == Total(a) + Total(b)
    decreases |b|
  {
    if b == [] {
      assert a + b == a;
    } else {
      TotalAppend(a, b[..|b| - 1]);
      assert (a + b)[..|a + b| - 1] == a + b[..|b| - 1];
    }
  }

  /** The cells that named scopes account for: all of a named scope, else those of its children. */
  ghost function Attributed(s: Scope, prefix: string, c: nat): int
    decreases s, 1
  {
    if FullName(prefix, s.name) != "" then s.Delta(c) else AttributedIn(s, |s.children|, c)
  }

  ghost function AttributedIn(s: Scope, n: nat, c: nat): int
    requires n <= |s.children|
    decreases s, 0, n
  {
    if n == 0 then 0 else AttributedIn(s, n - 1, c) + Attributed(s.children[n - 1], "", c)
  }

  /** The line of a scope itself, if it has one. */
  ghost function OwnLine(s: Scope, full: string, c: nat): seq<Line>
  {
    if full != "" && SelfCount(s, c) > 0 then [(full, SelfCount(s, c))] else []
  }

  /** All lines below a scope in output order: children first, then the scope. */
  ghost function Lines(s: Scope, prefix: string, c: nat): seq<Line>
    decreases s, 1
  {
    var full := FullName(prefix, s.name);
    LinesIn(s, |s.children|, full, c) + OwnLine(s, full, c)
  }

  ghost function LinesIn(s: Scope, n: nat, full: string, c: nat): seq<Line>
    requires n <= |s.children|
    decreases s, 0, n
  {
    if n == 0 then [] else LinesIn(s, n - 1, full, c) + Lines(s.children[n - 1], full, c)
  }

  /** `write_helper`, with its counter: it never goes below zero on a well-formed tree. */
  method WriteHelper(s: Scope, c: nat, prefix: string) returns (lines: seq<Line>)
    requires WellFormed(s, c)
    ensures lines == Lines(s, prefix, c)
    decreases s
  {
    var full := FullName(prefix, s.name);
    var count: nat := s.Delta(c);
    lines := [];
    for i := 0 to |s.children|
      invariant count == s.Delta(c) - DeltaSum(s, i, c)
      invariant lines == LinesIn(s, i, full, c)
    {
      ChildOrder(s, i, c);
      ChildrenFit(s, i + 1, c);
      var below := WriteHelper(s.children[i], c, full);
      lines := lines + below;
      count := count - s.children[i].Delta(c);
    }
    if full != "" && count > 0 {
      lines := lines + [(full, count)];
    } else {
      assert lines + [] == lines;
    }
  }

  // ---- The names of the lines ---------------------------------------------------------------

  /** Every scope with its own cells, children before parents. */
  ghost function Visits(s: Scope, above: seq<string>, c: nat): seq<(seq<string>, int)>
    decreases s, 1
  {
    VisitsIn(s, |s.children|, above + [s.name], c) + [(above + [s.name], SelfCount(s, c))]
  }

  ghost function VisitsIn(s: Scope, n: nat, path: seq<string>, c: nat): seq<(seq<string>, int)>
    requires n <= |s.children|
    decreases s, 0, n
  {
    if n == 0 then [] else VisitsIn(s, n - 1, path, c) + Visits(s.children[n - 1], path, c)
  }

  /** The path from its first name that is neither empty nor `root`. */
  ghost function NamedPath(path: seq<string>): seq<string>
  {
    if path == [] then [] else if path[0] == "" || path[0] == "root" then NamedPath(path[1..]) else path
  }

  ghost function JoinNames(names: seq<string>): string
  {
    if names == [] then ""
    else if |names| == 1 then names[0]
    else JoinNames(names[..|names| - 1]) + ";" + names[|names| - 1]
  }

  /** One line for each visited scope that has a named path and cells of its own. */
  ghost function LinesOf(visits: seq<(seq<string>, int)>): seq<Line>
  {
    if visits == [] then [] else
      var (path, own) := visits[|visits| - 1];
      LinesOf(visits[..|visits| - 1]) +
        if NamedPath(path) != [] && own > 0 then [(JoinNames(NamedPath(path)), own)] else []
  }

  lemma {:induction false} LinesOfAppend(a: seq<(seq<string>, int)>, b: seq<(seq<string>, int)>)
    ensures LinesOf(a + b) == LinesOf(a) + LinesOf(b)
    decreases |b|
  {
    if b == [] {
      assert a + b == a;
    } else {
      LinesOfAppend(a, b[..|b| - 1]);
      assert (a + b)[..|a + b| - 1] == a + b[..|b| - 1];
    }
  }

  lemma {:induction false} NamedPathAppend(path: seq<string>, name: string)
    ensures NamedPath(path + [name])
         == if NamedPath(path) != [] then NamedPath(path) + [name]
            else if name == "" || name == "root" then [] else [name]
  {
    if path == [] {
      assert path + [name] == [name] && [name][1..] == [];
    } else {
      assert (path + [name])[1..] == path[1..] + [name];
      if path[0] == "" || path[0] == "root" { NamedPathAppend(path[1..], name); }
    }
  }

  lemma {:induction false} NamedFirst(path: seq<string>)
    ensures NamedPath(path) != [] ==> NamedPath(path)[0] != ""
  {
    if path != [] { NamedFirst(path[1..]); }
  }

  lemma JoinNotEmpty(names: seq<string>)
    requires names != [] ==> names[0] != ""
    ensures JoinNames(names) == "" <==> names == []
  {
    if |names| > 1 { assert |JoinNames(names)| >= 1; }
  }

  /** The name that `write_helper` passes down is the named path so far, joined by semicolons. */
  lemma NameOnPath(path: seq<string>, name: string)
    ensures FullName(JoinNames(NamedPath(path)), name) == JoinNames(NamedPath(path + [name]))
    ensures FullName(JoinNames(NamedPath(path)), name) == "" <==> NamedPath(path + [name]) == []
  {
    NamedPathAppend(path, name);
    NamedFirst(path);
    NamedFirst(path + [name]);
    JoinNotEmpty(NamedPath(path));
    JoinNotEmpty(NamedPath(path + [name]));
    var names := NamedPath(path);
    assert names != [] ==> (names + [name])[..|names|] == names;
  }

  lemma {:induction false} LinesArePaths(s: Scope, above: seq<string>, c: nat)
    ensures Lines(s, JoinNames(NamedPath(above)), c) == LinesOf(Visits(s, above, c))
    decreases s, 1
  {
    var path := above + [s.name];
    var own := [(path, SelfCount(s, c))];
    NameOnPath(above, s.name);
    ChildLinesArePaths(s, |s.children|, path, JoinNames(NamedPath(path)), c);
    LinesOfAppend(VisitsIn(s, |s.children|, path, c), own);
    assert own[..0] == [] && LinesOf([]) == [];
  }

  lemma {:induction false} ChildLinesArePaths(s: Scope, n: nat, path: seq<string>, full: string, c: nat)
    requires n <= |s.children| && full == JoinNames(NamedPath(path))
    ensures LinesIn(s, n, full, c) == LinesOf(VisitsIn(s, n, path, c))
    decreases s, 0, n
  {
    if n > 0 {
      ChildLinesArePaths(s, n - 1, path, full, c);
      LinesArePaths(s.children[n - 1], path, c);
      VisitsStep(s, n, path, c);
    }
  }

  lemma VisitsStep(s: Scope, n: nat, path: seq<string>, c: nat)
    requires 0 < n <= |s.children|
    ensures LinesOf(VisitsIn(s, n, path, c))
         == LinesOf(VisitsIn(s, n - 1, path, c)) + LinesOf(Visits(s.children[n - 1], path, c))
  {
    LinesOfAppend(VisitsIn(s, n - 1, path, c), Visits(s.children[n - 1], path, c));
  }

  /** `write`: each line carries the names on the path of its scope, joined by semicolons. */
  method Write(s: Scope, c: nat) returns (lines: seq<Line>)
    requires WellFormed(s, c)
    ensures lines == LinesOf(Visits(s, [], c))
  {
    LinesArePaths(s, [], c);
    lines := WriteHelper(s, c, "");
  }

  // ---- Totals ---------------------------------------------------------------------------------

  /** What the lines of a tree add up to. */
  lemma {:induction false} LinesTotal(s: Scope, prefix: string, c: nat)
    requires WellFormed(s, c)
    ensures Total(Lines(s, prefix, c)) == Attributed(s, prefix, c)
    decreases s, 1
  {
    var full, n := FullName(prefix, s.name), |s.children|;
    LinesInTotal(s, n, full, c);
    ChildrenFit(s, n, c);
    TotalAppend(LinesIn(s, n, full, c), OwnLine(s, full, c));
    if full != "" && SelfCount(s, c) > 0 {
      var line := OwnLine(s, full, c);
      assert line[..0] == [] && Total(line) == SelfCount(s, c);
    }
  }

  lemma {:induction false} LinesInTotal(s: Scope, n: nat, full: string, c: nat)
    requires WellFormed(s, c) && n <= |s.children|
    ensures Total(LinesIn(s, n, full, c)) == if full != "" then DeltaSum(s, n, c) else AttributedIn(s, n, c)
    decreases s, 0, n
  {
    if n > 0 {
      var child := s.children[n - 1];
      ChildOrder(s, n - 1, c);
      LinesInTotal(s, n - 1, full, c);
      LinesTotal(child, full, c);
      AttributedBelow(child, full, c);
      LinesInStep(s, n, full, c);
    }
  }

  lemma LinesInStep(s: Scope, n: nat, full: string, c: nat)
    requires 0 < n <= |s.children|
    ensures Total(LinesIn(s, n, full, c))
         == Total(LinesIn(s, n - 1, full, c)) + Total(Lines(s.children[n - 1], full, c))
  {
    TotalAppend(LinesIn(s, n - 1, full, c), Lines(s.children[n - 1], full, c));
  }

  lemma AttributedBelow(child: Scope, full: string, c: nat)
    ensures Attributed(child, full, c) == if full != "" then child.Delta(c) else Attributed(child, "", c)
  {
    NamedBelow(full, child.name);
  }

  lemma NamedBelow(prefix: string, name: string)
    ensures prefix != "" ==> FullName(prefix, name) != ""
    ensures prefix == "" ==> (FullName(prefix, name) != "" <==> name != "" && name != "root")
  {
    if prefix != "" { assert |FullName(prefix, name)| > 0; }
  }

  /** The emitted self-counts of a named scope sum to its total. */
  lemma NamedTotal(s: Scope, c: nat)
    requires WellFormed(s, c) && s.name != "" && s.name != "root"
    ensures Total(Lines(s, "", c)) == s.Delta(c)
  {
    LinesTotal(s, "", c);
  }

  /**
   Every cell under `s` belongs to a named scope: going down through scopes
   without a name, none has cells of its own.
   */
  ghost predicate NoUnnamedSelf(s: Scope, c: nat)
    decreases s
  {
    || FullName("", s.name) != ""
    || (SelfCount(s, c) == 0 && forall i :: 0 <= i < |s.children| ==> NoUnnamedSelf(s.children[i], c))
  }

  lemma {:induction false} AttributedExact(s: Scope, c: nat)
    requires WellFormed(s, c)
    ensures Attributed(s, "", c) <= s.Delta(c)
    ensures Attributed(s, "", c) == s.Delta(c) <==> NoUnnamedSelf(s, c)
    decreases s, 1
  {
    AttributedInExact(s, |s.children|, c);
    ChildrenFit(s, |s.children|, c);
  }

  lemma {:induction false} AttributedInExact(s: Scope, n: nat, c: nat)
    requires WellFormed(s, c) && n <= |s.children|
    ensures AttributedIn(s, n, c) <= DeltaSum(s, n, c)
    ensures AttributedIn(s, n, c) == DeltaSum(s, n, c) <==>
      forall i :: 0 <= i < n ==> NoUnnamedSelf(s.children[i], c)
    decreases s, 0, n
  {
    if n > 0 {
      AttributedInExact(s, n - 1, c);
      ChildOrder(s, n - 1, c);
      AttributedExact(s.children[n - 1], c);
    }
  }

  /**
   The lines of a tree never sum to more than its total, and to exactly its
   total if and only if no scope without a name has cells of its own.
   */
  lemma RootTotal(s: Scope, c: nat)
    requires WellFormed(s, c)
    ensures Total(Lines(s, "", c)) <= s.Delta(c)
    ensures Total(Lines(s, "", c)) == s.Delta(c) <==> NoUnnamedSelf(s, c)
  {
    LinesTotal(s, "", c);
    AttributedExact(s, c);
  }

  /**
   A reachable tree that loses all its cells although its root has none of its
   own: the one child is called `root` too.
   */
  lemma RootInsideRoot(c: nat)
    requires c > 0
    ensures var s := Pop(Push(NewRoot(), "root", 0, 0), c);
      && WellFormed(s, c) && SelfCount(s, c) == 0 && s.Delta(c) == c
      && Total(Lines(s, "", c)) == 0
  {
    var child := Scope("root", 0, 0, Some(c), []);
    PushedThenPopped(child, c);
    OnlyChild(Scope("root", 0, 0, None, [child]), child, c);
  }

  lemma PushedThenPopped(child: Scope, c: nat)
    requires child == Scope("root", 0, 0, Some(c), [])
    ensures Pop(Push(NewRoot(), "root", 0, 0), c) == Scope("root", 0, 0, None, [child])
  {
    var open := Scope("root", 0, 0, None, []);
    var s := Push(NewRoot(), "root", 0, 0);
    assert s == Scope("root", 0, 0, None, [open]);
    assert s.LastOpen() && Pop(open, c) == child;
  }

  lemma OnlyChild(s: Scope, child: Scope, c: nat)
    requires child.children == [] && child.exit == Some(c) && child.enter == s.enter <= c
    requires s.exit == None && s.children == [child] && s.level <= child.level
    requires FullName("", s.name) == "" && FullName("", child.name) == ""
    ensures WellFormed(s, c) && SelfCount(s, c) == 0 && Total(Lines(s, "", c)) == 0
  {
    assert WellFormed(child, c);
    LinesTotal(s, "", c);
    assert AttributedIn(child, 0, c) == 0;
    assert Attributed(child, "", c) == 0;
    assert AttributedIn(s, 0, c) == 0 && DeltaSum(s, 0, c) == 0;
  }
}
