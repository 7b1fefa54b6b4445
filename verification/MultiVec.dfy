/**
 `MultiVecWithBounds`: a nested list of any fixed depth stored as one flat
 vector and one offset table per level, against the nested list itself.
 */
module MultiVec {
  import opened Common

  // ---- Flattening -----------------------------------------------------------

  /** Where each piece starts in the flattened sequence, and where the last one ends. */
  ghost function Starts<X>(ss: seq<seq<X>>): (t: seq<nat>)
    ensures |t| == |ss| + 1
  {
    seq(|ss| + 1, n requires 0 <= n <= |ss| => |Concat(ss[..n])|)
  }

  lemma FlatAppend<X>(ss: seq<seq<X>>, x: seq<X>)
    ensures Concat(ss + [x]) == Concat(ss) + x
    ensures Starts(ss + [x]) == Starts(ss) + [|Concat(ss)| + |x|]
  {
    var tt := ss + [x];
    assert tt[..|ss|] == ss && tt[..|tt|] == tt;
    forall n | 0 <= n <= |ss| ensures tt[..n] == ss[..n] {}
  }

  /** The piece at `g` is the slice between its two offsets. */
  lemma {:induction false} FlatSlice<X>(ss: seq<seq<X>>, g: nat)
    requires g < |ss|
    ensures |Concat(ss[..g])| + |ss[g]| == |Concat(ss[..g + 1])| <= |Concat(ss)|
    ensures Concat(ss)[|Concat(ss[..g])|..|Concat(ss[..g + 1])|] == ss[g]
    decreases |ss|
  {
    var tt := ss[..g + 1];
    assert tt[..g] == ss[..g];
    if g + 1 == |ss| {
      assert tt == ss;
    } else {
      var init := ss[..|ss| - 1];
      FlatSlice(init, g);
      assert init[..g] == ss[..g] && init[..g + 1] == ss[..g + 1];
    }
  }

  // ---- The nested list ------------------------------------------------------

  datatype Nest<T> = Leaf(row: seq<T>) | Node(kids: seq<Nest<T>>)

  ghost function KidsOf<T>(n: Nest<T>): seq<Nest<T>>
  {
    if n.Node? then n.kids else []
  }

  ghost function RowOf<T>(n: Nest<T>): seq<T>
  {
    if n.Leaf? then n.row else []
  }

  ghost function KidSeqs<T>(items: seq<Nest<T>>): (ss: seq<seq<Nest<T>>>)
    ensures |ss| == |items|
  {
    seq(|items|, n requires 0 <= n < |items| => KidsOf(items[n]))
  }

  ghost function RowSeqs<T>(items: seq<Nest<T>>): (ss: seq<seq<T>>)
    ensures |ss| == |items|
  {
    seq(|items|, n requires 0 <= n < |items| => RowOf(items[n]))
  }

  /**
   A nested list under construction: `spine[i]` holds the closed entries of the
   group that is open at level `i`, and `open` the elements of the open row.
   Closing level `l` closes the open row, wraps it upwards as far as `l`, and
   starts every deeper level afresh.
   */
  ghost function ClosedItem<T>(spine: seq<seq<Nest<T>>>, open: seq<T>, i: nat): Nest<T>
    requires i < |spine|
    decreases |spine| - i
  {
    if i == |spine| - 1 then Leaf(open)
    else Node(spine[i + 1] + [ClosedItem(spine, open, i + 1)])
  }

  ghost function CloseSpine<T>(spine: seq<seq<Nest<T>>>, open: seq<T>, l: nat): (r: seq<seq<Nest<T>>>)
    requires l < |spine|
    ensures |r| == |spine|
  {
    seq(|spine|, i requires 0 <= i < |spine| =>
      if i < l then spine[i] else if i == l then spine[l] + [ClosedItem(spine, open, l)] else [])
  }

  /** The row that a multi-index names inside a closed entry. */
  ghost function Descend<T>(item: Nest<T>, index: seq<nat>): Option<seq<T>>
    decreases |index|
  {
    if index == [] then (if item.Leaf? then Some(item.row) else None)
    else if item.Node? && index[0] < |item.kids| then Descend(item.kids[index[0]], index[1..])
    else None
  }

  /** The row that a multi-index names from level `i` on, through the open groups where it must. */
  ghost function Lookup<T>(spine: seq<seq<Nest<T>>>, i: nat, index: seq<nat>): Option<seq<T>>
    requires i + |index| == |spine|
    decreases |index|
  {
    if index == [] then None
    else if index[0] < |spine[i]| then Descend(spine[i][index[0]], index[1..])
    else if index[0] == |spine[i]| then Lookup(spine, i + 1, index[1..])
    else None
  }

  // ---- All entries of one level ----------------------------------------------

  /** The closed entries at level `i`, over all groups, in order. */
  ghost function Level<T>(spine: seq<seq<Nest<T>>>, i: nat): seq<Nest<T>>
    requires i < |spine|
  {
    if i == 0 then spine[0] else Concat(KidSeqs(Level(spine, i - 1))) + spine[i]
  }

  /** Rows sit at the last level and nowhere else. */
  ghost predicate Shaped<T>(spine: seq<seq<Nest<T>>>)
  {
    forall i, n :: 0 <= i < |spine| && 0 <= n < |Level(spine, i)| ==>
      (Level(spine, i)[n].Leaf? <==> i == |spine| - 1)
  }

  lemma KidSeqsAppend<T>(items: seq<Nest<T>>, x: Nest<T>)
    ensures KidSeqs(items + [x]) == KidSeqs(items) + [KidsOf(x)]
    ensures RowSeqs(items + [x]) == RowSeqs(items) + [RowOf(x)]
  {
  }

  /** A group appended at one level appends its entries to the next. */
  lemma FlatKidsAppend<T>(items: seq<Nest<T>>, closed: seq<Nest<T>>, last: Nest<T>)
    ensures Concat(KidSeqs(items + [Node(closed + [last])])) == (Concat(KidSeqs(items)) + closed) + [last]
  {
    KidSeqsAppend(items, Node(closed + [last]));
    FlatAppend(KidSeqs(items), closed + [last]);
  }

  lemma LevelAbove<T>(spine: seq<seq<Nest<T>>>, i: nat)
    requires 0 < i < |spine|
    ensures Level(spine, i) == Concat(KidSeqs(Level(spine, i - 1))) + spine[i]
  {
  }

  /** `s` is `spine` with entry `c(l)` put on level `l` and every deeper group empty. */
  ghost predicate GroupsClosed<T>(spine: seq<seq<Nest<T>>>, s: seq<seq<Nest<T>>>, c: nat -> Nest<T>, l: nat)
  {
    && |s| == |spine| && l < |spine|
    && (forall i :: 0 <= i < l ==> s[i] == spine[i])
    && s[l] == spine[l] + [c(l)]
    && (forall i :: l < i < |s| ==> s[i] == [])
    && (forall i {:trigger s[i]} :: 0 < i < |s| ==> c(i - 1) == Node(spine[i] + [c(i)]))
  }

  lemma AppendInside<X>(a: seq<X>, b: seq<X>, x: X)
    ensures a + (b + [x]) == (a + b) + [x]
  {
  }

  /** Closing level `l` appends one entry to every level from `l` down, and leaves the others. */
  lemma CloseAppends<T>(spine: seq<seq<Nest<T>>>, open: seq<T>, l: nat, i: nat)
    requires l < |spine| && i < |spine|
    ensures Level(CloseSpine(spine, open, l), i)
         == if i < l then Level(spine, i) else Level(spine, i) + [ClosedItem(spine, open, i)]
  {
    CloseSpineCloses(spine, open, l);
    LevelsAfter(spine, CloseSpine(spine, open, l), ClosedItems(spine, open), l, i);
  }

  ghost function ClosedItems<T>(spine: seq<seq<Nest<T>>>, open: seq<T>): nat -> Nest<T>
  {
    (j: nat) => if j < |spine| then ClosedItem(spine, open, j) else Leaf([])
  }

  lemma CloseSpineCloses<T>(spine: seq<seq<Nest<T>>>, open: seq<T>, l: nat)
    requires l < |spine|
    ensures GroupsClosed(spine, CloseSpine(spine, open, l), ClosedItems(spine, open), l)
  {
  }

  lemma {:induction false} LevelsAfter<T>(
    spine: seq<seq<Nest<T>>>, s: seq<seq<Nest<T>>>, c: nat -> Nest<T>, l: nat, i: nat)
    requires GroupsClosed(spine, s, c, l) && i < |s|
    ensures Level(s, i) == if i < l then Level(spine, i) else Level(spine, i) + [c(i)]
    decreases i
  {
    if i > 0 {
      LevelsAfter(spine, s, c, l, i - 1);
      assert s[i] == if i < l then spine[i] else if i == l then spine[i] + [c(i)] else [];
      assert c(i - 1) == Node(spine[i] + [c(i)]);
      CloseAppendsStep(spine, s, c(i), l, i);
    }
  }

  /** One level of `CloseAppends`, for any spine `s` that differs as closing makes it differ. */
  lemma CloseAppendsStep<T>(spine: seq<seq<Nest<T>>>, s: seq<seq<Nest<T>>>, c: Nest<T>, l: nat, i: nat)
    requires |s| == |spine| && l < |spine| && 0 < i < |spine|
    requires s[i] == if i < l then spine[i] else if i == l then spine[i] + [c] else []
    requires Level(s, i - 1)
          == if i - 1 < l then Level(spine, i - 1) else Level(spine, i - 1) + [Node(spine[i] + [c])]
    ensures Level(s, i) == if i < l then Level(spine, i) else Level(spine, i) + [c]
  {
    var up := Level(spine, i - 1);
    LevelAbove(s, i);
    LevelAbove(spine, i);
    if i > l {
      FlatKidsAppend(up, spine[i], c);
    } else if i == l {
      AppendInside(Concat(KidSeqs(up)), spine[i], c);
    }
  }

  lemma CloseKeepsShape<T>(spine: seq<seq<Nest<T>>>, open: seq<T>, l: nat)
    requires l < |spine| && Shaped(spine)
    ensures Shaped(CloseSpine(spine, open, l))
  {
    var s := CloseSpine(spine, open, l);
    forall i, n | 0 <= i < |s| && 0 <= n < |Level(s, i)|
      ensures Level(s, i)[n].Leaf? <==> i == |s| - 1
    {
      CloseAppends(spine, open, l, i);
    }
  }

  // ---- The offset tables -----------------------------------------------------

  ghost function TableOf<T>(items: seq<Nest<T>>, rows: bool): (t: seq<nat>)
    ensures |t| == |items| + 1
  {
    if rows then Starts(RowSeqs(items)) else Starts(KidSeqs(items))
  }

  ghost function Table<T>(spine: seq<seq<Nest<T>>>, i: nat): (t: seq<nat>)
    requires i < |spine|
    ensures |t| == |Level(spine, i)| + 1
  {
    TableOf(Level(spine, i), i == |spine| - 1)
  }

  ghost function FlatData<T>(spine: seq<seq<Nest<T>>>, open: seq<T>): seq<T>
    requires |spine| > 0
  {
    Concat(RowSeqs(Level(spine, |spine| - 1))) + open
  }

  lemma KidStarts<T>(items: seq<Nest<T>>, c: Nest<T>)
    ensures Starts(KidSeqs(items + [c])) == Starts(KidSeqs(items)) + [|Concat(KidSeqs(items))| + |KidsOf(c)|]
  {
    KidSeqsAppend(items, c);
    FlatAppend(KidSeqs(items), KidsOf(c));
  }

  lemma RowStarts<T>(items: seq<Nest<T>>, c: Nest<T>)
    ensures Starts(RowSeqs(items + [c])) == Starts(RowSeqs(items)) + [|Concat(RowSeqs(items))| + |RowOf(c)|]
    ensures Concat(RowSeqs(items + [c])) == Concat(RowSeqs(items)) + RowOf(c)
  {
    KidSeqsAppend(items, c);
    FlatAppend(RowSeqs(items), RowOf(c));
  }

  /** What `close_level` pushes on table `i`: the current length of what it points into. */
  ghost function Pushed<T>(spine: seq<seq<Nest<T>>>, open: seq<T>, i: nat): nat
    requires i < |spine|
  {
    if i == |spine| - 1 then |FlatData(spine, open)| else |Table(spine, i + 1)|
  }

  /** The tables from `l` down grow by that length; the others stay. */
  lemma TableAfterClose<T>(spine: seq<seq<Nest<T>>>, open: seq<T>, l: nat, i: nat)
    requires l < |spine| && i < |spine|
    ensures Table(CloseSpine(spine, open, l), i)
         == if i < l then Table(spine, i) else Table(spine, i) + [Pushed(spine, open, i)]
  {
    CloseAppends(spine, open, l, i);
    if l <= i { TableGrows(spine, CloseSpine(spine, open, l), open, ClosedItem(spine, open, i), i); }
  }

  lemma TableGrows<T>(spine: seq<seq<Nest<T>>>, s: seq<seq<Nest<T>>>, open: seq<T>, c: Nest<T>, i: nat)
    requires |s| == |spine| && i < |spine| && c == ClosedItem(spine, open, i)
    requires Level(s, i) == Level(spine, i) + [c]
    ensures Table(s, i) == Table(spine, i) + [Pushed(spine, open, i)]
  {
    TableOfAppend(Level(spine, i), c, i == |spine| - 1);
    NextSize(spine, open, i, c);
  }

  /** The table of one level with one more entry on it. */
  ghost function Grown<T>(items: seq<Nest<T>>, c: Nest<T>, rows: bool): nat
  {
    if rows then |Concat(RowSeqs(items))| + |RowOf(c)| else |Concat(KidSeqs(items))| + |KidsOf(c)|
  }

  lemma TableOfAppend<T>(items: seq<Nest<T>>, c: Nest<T>, rows: bool)
    ensures TableOf(items + [c], rows) == TableOf(items, rows) + [Grown(items, c, rows)]
  {
    if rows {
      RowStarts(items, c);
      assert TableOf(items, rows) == Starts(RowSeqs(items));
      assert TableOf(items + [c], rows) == Starts(RowSeqs(items + [c]));
    } else {
      KidStarts(items, c);
      assert TableOf(items, rows) == Starts(KidSeqs(items));
      assert TableOf(items + [c], rows) == Starts(KidSeqs(items + [c]));
    }
  }

  lemma NextSize<T>(spine: seq<seq<Nest<T>>>, open: seq<T>, i: nat, c: Nest<T>)
    requires i < |spine| && c == ClosedItem(spine, open, i)
    ensures Grown(Level(spine, i), c, i == |spine| - 1) == Pushed(spine, open, i)
  {
    if i < |spine| - 1 { LevelAbove(spine, i + 1); }
  }

  lemma DataAfterClose<T>(spine: seq<seq<Nest<T>>>, open: seq<T>, l: nat)
    requires l < |spine|
    ensures FlatData(CloseSpine(spine, open, l), []) == FlatData(spine, open)
  {
    var i := |spine| - 1;
    var s := CloseSpine(spine, open, l);
    CloseAppends(spine, open, l, i);
    DataGrows(spine, s, open, i, ClosedItem(spine, open, i));
  }

  lemma DataGrows<T>(spine: seq<seq<Nest<T>>>, s: seq<seq<Nest<T>>>, open: seq<T>, i: nat, c: Nest<T>)
    requires |s| == |spine| == i + 1 && c == ClosedItem(spine, open, i)
    requires Level(s, i) == Level(spine, i) + [c]
    ensures FlatData(s, []) == FlatData(spine, open)
  {
    RowStarts(Level(spine, i), c);
  }

  ghost function Tables<T>(spine: seq<seq<Nest<T>>>): (t: seq<seq<nat>>)
    ensures |t| == |spine| && forall i :: 0 <= i < |spine| ==> t[i] == Table(spine, i)
  {
    seq(|spine|, i requires 0 <= i < |spine| => Table(spine, i))
  }

  /** `t'` is `t` with the current length of what it points into pushed on each table from `l` down. */
  ghost predicate LengthsPushed(t: seq<seq<nat>>, t': seq<seq<nat>>, l: nat, size: nat)
  {
    && |t'| == |t|
    && forall i {:trigger t'[i]} :: 0 <= i < |t| ==> t'[i] == PushedOn(t, i, l, size)
  }

  ghost function PushedOn(t: seq<seq<nat>>, i: nat, l: nat, size: nat): seq<nat>
    requires i < |t|
  {
    if i < l then t[i] else t[i] + [if i == |t| - 1 then size else |t[i + 1]|]
  }

  lemma TableAt<T>(spine: seq<seq<Nest<T>>>, open: seq<T>, l: nat, i: nat)
    requires l < |spine| && i < |spine|
    ensures Table(CloseSpine(spine, open, l), i) == PushedOn(Tables(spine), i, l, |FlatData(spine, open)|)
  {
    TableAfterClose(spine, open, l, i);
  }

  /** Pushing the lengths makes the tables of the closed list. */
  lemma TablesAfterClose<T>(spine: seq<seq<Nest<T>>>, open: seq<T>, l: nat, t': seq<seq<nat>>)
    requires l < |spine| && Shaped(spine) && LengthsPushed(Tables(spine), t', l, |FlatData(spine, open)|)
    ensures var s := CloseSpine(spine, open, l);
      Shaped(s) && FlatData(s, []) == FlatData(spine, open) && t' == Tables(s)
  {
    CloseKeepsShape(spine, open, l);
    DataAfterClose(spine, open, l);
    forall i | 0 <= i < |spine| ensures t'[i] == Table(CloseSpine(spine, open, l), i) {
      TableAt(spine, open, l, i);
    }
  }

  // ---- Indexing --------------------------------------------------------------

  /** All rows, whatever their group. */
  ghost function AllRows<T>(spine: seq<seq<Nest<T>>>): (rows: seq<seq<T>>)
    requires |spine| > 0
    ensures |rows| + 1 == |Table(spine, |spine| - 1)|
  {
    RowSeqs(Level(spine, |spine| - 1))
  }

  /**
   What indexing finds from level `i` on, where `start` is the first entry of
   the group it is in: the running index must have an offset in each table but
   the last, and an offset and its successor in the last; else it panics.  The
   row is then the one at that place among all rows, whatever its group.
   */
  ghost function ReachedFrom<T>(t: seq<seq<nat>>, rows: seq<seq<T>>, i: nat, start: nat, index: seq<nat>)
    : Option<seq<T>>
    requires i + |index| == |t| && |index| > 0 && |t[|t| - 1]| == |rows| + 1
    decreases |index|
  {
    var e := start + index[0];
    if |index| == 1 then
      if e + 1 < |t[i]| then Some(rows[e]) else None
    else
      if e < |t[i]| then ReachedFrom(t, rows, i + 1, t[i][e], index[1..]) else None
  }

  ghost function Reached<T>(spine: seq<seq<Nest<T>>>, index: seq<nat>): Option<seq<T>>
    requires |index| == |spine| > 0
  {
    ReachedFrom(Tables(spine), AllRows(spine), 0, 0, index)
  }

  /**
   No component of the multi-index reaches past its own group, read off the
   tables alone: entry `e` of one level has its own entries between offsets `e`
   and `e + 1`, and the group that is still open has no end yet.
   */
  ghost predicate InsideGroups(t: seq<seq<nat>>, i: nat, start: nat, end: nat, index: seq<nat>)
    requires i + |index| == |t| && |index| > 0
    decreases |index|
  {
    var e := start + index[0];
    && e < end
    && (|index| > 1 && e < |t[i]| ==> InsideGroups(t, i + 1, t[i][e], GroupEnd(t, i, e), index[1..]))
  }

  /** The end of the group that entry `e` of level `i` stands for. */
  ghost function GroupEnd(t: seq<seq<nat>>, i: nat, e: nat): nat
    requires i + 1 < |t| && e < |t[i]|
  {
    if e + 1 < |t[i]| then t[i][e + 1] else |t[i + 1]|
  }

  ghost predicate Inside(t: seq<seq<nat>>, index: seq<nat>)
    requires |index| == |t| > 0
  {
    InsideGroups(t, 0, 0, |t[0]|, index)
  }

  /** What the nested list has under entry `e` of level `i`, closed or open. */
  ghost function Under<T>(spine: seq<seq<Nest<T>>>, i: nat, e: nat, rest: seq<nat>): Option<seq<T>>
    requires i + 1 + |rest| == |spine|
  {
    if e < |Level(spine, i)| then Descend(Level(spine, i)[e], rest)
    else if e == |Level(spine, i)| then Lookup(spine, i + 1, rest)
    else None
  }

  /** In the open group, a component counts from where the closed groups end. */
  lemma OpenStep<T>(spine: seq<seq<Nest<T>>>, i: nat, index: seq<nat>)
    requires i + |index| == |spine| && |index| > 0
    ensures |spine[i]| <= |Level(spine, i)|
    ensures Lookup(spine, i, index) == Under(spine, i, |Level(spine, i)| - |spine[i]| + index[0], index[1..])
  {
    var items := Level(spine, i);
    var start := |items| - |spine[i]|;
    assert items[start..] == spine[i];
    if index[0] < |spine[i]| {
      assert items[start + index[0]] == items[start..][index[0]];
    }
  }

  /** In a closed group, a component counts from its offset and must stay below the next one. */
  lemma ClosedStep<T>(spine: seq<seq<Nest<T>>>, i: nat, e: nat, rest: seq<nat>)
    requires Shaped(spine) && i + 1 + |rest| == |spine| && |rest| > 0 && e < |Level(spine, i)|
    ensures var next, end := Table(spine, i)[e] + rest[0], Table(spine, i)[e + 1];
      && end <= |Level(spine, i + 1)|
      && Descend(Level(spine, i)[e], rest) == if next < end then Under(spine, i + 1, next, rest[1..]) else None
  {
    var up, kids := Level(spine, i), KidsOf(Level(spine, i)[e]);
    FlatSlice(KidSeqs(up), e);
    LevelAbove(spine, i + 1);
    var f, start := Concat(KidSeqs(up)), Table(spine, i)[e];
    assert f[start..start + |kids|] == kids;
    if rest[0] < |kids| {
      assert f[start + rest[0]] == f[start..start + |kids|][rest[0]];
      assert Level(spine, i + 1)[start + rest[0]] == f[start + rest[0]];
    }
  }

  /** Where the group that is open below level `i` starts. */
  lemma OpenStart<T>(spine: seq<seq<Nest<T>>>, i: nat)
    requires i + 1 < |spine|
    ensures Table(spine, i)[|Level(spine, i)|] + |spine[i + 1]| == |Level(spine, i + 1)|
  {
    var items := Level(spine, i);
    LevelAbove(spine, i + 1);
    assert KidSeqs(items)[..|items|] == KidSeqs(items);
  }

  lemma OpenBelow<T>(spine: seq<seq<Nest<T>>>, i: nat, rest: seq<nat>)
    requires i + 1 + |rest| == |spine| && |rest| > 0
    ensures var items, end := Level(spine, i), |Table(spine, i + 1)|;
      var next := Table(spine, i)[|items|] + rest[0];
      Lookup(spine, i + 1, rest) == if next < end then Under(spine, i + 1, next, rest[1..]) else None
  {
    OpenStart(spine, i);
    OpenStep(spine, i + 1, rest);
  }

  /** One component further down, the nested list and the tables part only at the end of a group. */
  lemma UnderStep<T>(spine: seq<seq<Nest<T>>>, t: seq<seq<nat>>, i: nat, e: nat, rest: seq<nat>)
    requires Shaped(spine) && i + 1 + |rest| == |spine| && |rest| > 0 && t == Tables(spine) && e < |t[i]|
    ensures var next, end := t[i][e] + rest[0], GroupEnd(t, i, e);
      Under(spine, i, e, rest) == if next < end then Under(spine, i + 1, next, rest[1..]) else None
  {
    assert t[i] == Table(spine, i) && t[i + 1] == Table(spine, i + 1);
    if e + 1 < |t[i]| { ClosedStep(spine, i, e, rest); } else { OpenBelow(spine, i, rest); }
  }

  /** What the tables alone say is under entry `e` of level `i`. */
  ghost function ReadOff<T>(t: seq<seq<nat>>, rows: seq<seq<T>>, i: nat, e: nat, rest: seq<nat>): Option<seq<T>>
    requires i + 1 + |rest| == |t| && |t[|t| - 1]| == |rows| + 1
  {
    if rest == [] then (if e < |rows| then Some(rows[e]) else None)
    else if e < |t[i]| && InsideGroups(t, i + 1, t[i][e], GroupEnd(t, i, e), rest) then
      ReachedFrom(t, rows, i + 1, t[i][e], rest)
    else None
  }

  type Reading<!T> = (nat, nat, seq<nat>) -> Option<seq<T>>

  /** One step of a reading `u`: a row at the last level, else the entry that the next component selects. */
  ghost predicate Step<T>(t: seq<seq<nat>>, rows: seq<seq<T>>, u: Reading<T>, i: nat, e: nat, rest: seq<nat>)
  {
    i + 1 + |rest| == |t| ==>
      u(i, e, rest) ==
        if rest == [] then (if e < |rows| then Some(rows[e]) else None)
        else if e >= |t[i]| || t[i][e] + rest[0] >= GroupEnd(t, i, e) then None
        else u(i + 1, t[i][e] + rest[0], rest[1..])
  }

  ghost predicate Steps<T>(t: seq<seq<nat>>, rows: seq<seq<T>>, u: Reading<T>)
  {
    forall i: nat, e: nat, rest: seq<nat> :: Step(t, rows, u, i, e, rest)
  }

  /** A reading that goes step by step is the one off the tables. */
  lemma {:induction false} ReadOffUnique<T>(
    t: seq<seq<nat>>, rows: seq<seq<T>>, u: Reading<T>, i: nat, e: nat, rest: seq<nat>)
    requires Steps(t, rows, u) && i + 1 + |rest| == |t| && |t[|t| - 1]| == |rows| + 1
    ensures u(i, e, rest) == ReadOff(t, rows, i, e, rest)
    decreases |rest|
  {
    assert Step(t, rows, u, i, e, rest);
    if rest != [] && e < |t[i]| {
      ReadOffUnique(t, rows, u, i + 1, t[i][e] + rest[0], rest[1..]);
    }
  }

  lemma UnderLast<T>(spine: seq<seq<Nest<T>>>, i: nat, e: nat)
    requires Shaped(spine) && |spine| == i + 1
    ensures var rows := AllRows(spine);
      Under(spine, i, e, []) == if e < |rows| then Some(rows[e]) else None
  {
  }

  lemma UnderBeyond<T>(spine: seq<seq<Nest<T>>>, i: nat, e: nat, rest: seq<nat>)
    requires i + 1 + |rest| == |spine| && e >= |Table(spine, i)|
    ensures Under(spine, i, e, rest) == None
  {
  }

  ghost function Reader<T>(spine: seq<seq<Nest<T>>>): Reading<T>
  {
    (i: nat, e: nat, rest: seq<nat>) => if i + 1 + |rest| == |spine| then Under(spine, i, e, rest) else None
  }

  lemma ReaderStep<T>(spine: seq<seq<Nest<T>>>, i: nat, e: nat, rest: seq<nat>)
    requires Shaped(spine) && |spine| > 0
    ensures Step(Tables(spine), AllRows(spine), Reader(spine), i, e, rest)
  {
    var t := Tables(spine);
    if i + 1 + |rest| == |spine| {
      if rest == [] {
        UnderLast(spine, i, e);
      } else if e < |t[i]| {
        InnerStep(spine, t, i, e, rest);
      } else {
        UnderBeyond(spine, i, e, rest);
      }
    }
  }

  lemma InnerStep<T>(spine: seq<seq<Nest<T>>>, t: seq<seq<nat>>, i: nat, e: nat, rest: seq<nat>)
    requires Shaped(spine) && t == Tables(spine) && |spine| == i + 1 + |rest| && rest != [] && e < |t[i]|
    ensures Reader(spine)(i, e, rest) ==
      if t[i][e] + rest[0] >= GroupEnd(t, i, e) then None
      else Reader(spine)(i + 1, t[i][e] + rest[0], rest[1..])
  {
    UnderStep(spine, t, i, e, rest);
  }

  /**
   The nested list has a row under a multi-index exactly when the tables have
   one and no component leaves its group, and it is then the same row.
   */
  lemma LookupExact<T>(spine: seq<seq<Nest<T>>>, index: seq<nat>)
    requires Shaped(spine) && |index| == |spine| > 0
    ensures Lookup(spine, 0, index) == if Inside(Tables(spine), index) then Reached(spine, index) else None
  {
    var t, rows, u := Tables(spine), AllRows(spine), Reader(spine);
    forall i: nat, e: nat, rest: seq<nat> ensures Step(t, rows, u, i, e, rest) {
      ReaderStep(spine, i, e, rest);
    }
    ReadOffUnique(t, rows, u, 0, index[0], index[1..]);
    OpenStep(spine, 0, index);
  }

  lemma IndexExact<T>(spine: seq<seq<Nest<T>>>, index: seq<nat>)
    requires Shaped(spine) && |index| == |spine| > 0
    ensures var named, reached := Lookup(spine, 0, index), Reached(spine, index);
      && (named.Some? ==> reached == named)
      && (reached == named <==> reached.None? || Inside(Tables(spine), index))
  {
    LookupExact(spine, index);
  }

  /** The row at place `e` is the slice of the data between its two offsets. */
  lemma RowSlice<T>(spine: seq<seq<Nest<T>>>, open: seq<T>, e: nat)
    requires |spine| > 0 && e < |AllRows(spine)|
    ensures var t := Table(spine, |spine| - 1);
      t[e] <= t[e + 1] <= |FlatData(spine, open)| && FlatData(spine, open)[t[e]..t[e + 1]] == AllRows(spine)[e]
  {
    var rows, t := AllRows(spine), Table(spine, |spine| - 1);
    FlatSlice(rows, e);
    assert (Concat(rows) + open)[t[e]..t[e + 1]] == Concat(rows)[t[e]..t[e + 1]];
  }

  // ---- The container ---------------------------------------------------------

  class MultiVecWithBounds<T> {
    var data: seq<T>
    var bounds: seq<seq<nat>>
    ghost var spine: seq<seq<Nest<T>>>
    ghost var open: seq<T>

    ghost predicate Valid()
      reads this
    {
      |spine| >= 1 && Shaped(spine) && data == FlatData(spine, open) && bounds == Tables(spine)
    }

    constructor (dimMinusOne: nat)
      requires dimMinusOne >= 1
      ensures Valid() && open == [] && spine == seq(dimMinusOne, _ => [])
    {
      data := [];
      bounds := seq(dimMinusOne, _ => [0]);
      spine := seq(dimMinusOne, _ => []);
      open := [];
      new;
      EmptyTables(spine);
    }

    method Push(x: T)
      requires Valid()
      modifies this
      ensures Valid() && spine == old(spine) && open == old(open) + [x]
    {
      data := data + [x];
      open := open + [x];
    }

    method Extend(xs: seq<T>)
      requires Valid()
      modifies this
      ensures Valid() && spine == old(spine) && open == old(open) + xs
    {
      data := data + xs;
      open := open + xs;
    }

    method CloseLevel(level: nat)
      requires Valid() && level < |bounds|
      modifies this
      ensures Valid() && open == [] && spine == CloseSpine(old(spine), old(open), level)
    {
      bounds := PushLengths(bounds, level, |data|);
      TablesAfterClose(spine, open, level, bounds);
      spine := CloseSpine(spine, open, level);
      open := [];
    }

    /**
     Indexing, for any multi-index; out of range it panics.  It answers as the
     nested list does exactly when it panics or no component leaves its group.
     */
    method Index(index: seq<nat>) returns (row: Option<seq<T>>)
      requires Valid() && |index| == |bounds|
      ensures row == Reached(spine, index)
      ensures Lookup(spine, 0, index).Some? ==> row == Lookup(spine, 0, index)
      ensures row == Lookup(spine, 0, index) <==> row.None? || Inside(bounds, index)
    {
      assert bounds == Tables(spine);
      IndexExact(spine, index);
      var place := Place(bounds, index, AllRows(spine));
      if place.None? {
        return None;
      }
      RowSlice(spine, open, place.value);
      var last := bounds[|bounds| - 1];
      return Some(data[last[place.value]..last[place.value + 1]]);
    }
  }

  /** The loop of `close_level` over the tables. */
  method PushLengths(t: seq<seq<nat>>, level: nat, size: nat) returns (t': seq<seq<nat>>)
    requires level < |t|
    ensures LengthsPushed(t, t', level, size)
  {
    t' := t;
    var last := |t| - 1;
    for i := level to last
      invariant |t'| == |t|
      invariant forall j {:trigger t'[j]} :: 0 <= j < |t| && !(level <= j < i) ==> t'[j] == t[j]
      invariant forall j {:trigger t'[j]} :: level <= j < i ==> t'[j] == PushedOn(t, j, level, size)
    {
      t' := t'[i := t'[i] + [|t'[i + 1]|]];
    }
    t' := t'[last := t'[last] + [size]];
  }

  /** The loop over the tables: the place of the row among all rows. */
  method Place<T>(t: seq<seq<nat>>, index: seq<nat>, ghost rows: seq<seq<T>>) returns (place: Option<nat>)
    requires |index| == |t| > 0 && |t[|t| - 1]| == |rows| + 1
    ensures place.Some? ==> place.value < |rows|
    ensures ReachedFrom(t, rows, 0, 0, index) == if place.Some? then Some(rows[place.value]) else None
  {
    var idx: nat := 0;
    var last := |t| - 1;
    assert index[0..] == index;
    for i := 0 to last
      invariant ReachedFrom(t, rows, i, idx, index[i..]) == ReachedFrom(t, rows, 0, 0, index)
    {
      assert index[i..][1..] == index[i + 1..];
      idx := idx + index[i];
      if idx >= |t[i]| {
        return None;
      }
      idx := t[i][idx];
    }
    idx := idx + index[last];
    place := if idx + 1 < |t[last]| then Some(idx) else None;
  }

  lemma {:induction false} EmptyLevel<T>(spine: seq<seq<Nest<T>>>, i: nat)
    requires i < |spine| && forall j :: 0 <= j < |spine| ==> spine[j] == []
    ensures Level(spine, i) == []
  {
    if i > 0 { EmptyLevel(spine, i - 1); }
  }

  lemma EmptyTables<T>(spine: seq<seq<Nest<T>>>)
    requires |spine| > 0 && forall j :: 0 <= j < |spine| ==> spine[j] == []
    ensures Shaped(spine) && FlatData(spine, []) == []
    ensures Tables(spine) == seq(|spine|, _ => [0])
  {
    forall j | 0 <= j < |spine| ensures Level(spine, j) == [] && Table(spine, j) == [0] {
      EmptyLevel(spine, j);
    }
    EmptyLevel(spine, |spine| - 1);
  }

  // ---- Whole runs ------------------------------------------------------------

  datatype Op<T> = PushOp(x: T) | ExtendOp(xs: seq<T>) | CloseOp(level: nat)

  /** The nested list that a run of calls describes, with no tables involved. */
  ghost function NestedAfter<T>(ops: seq<Op<T>>, d: nat): (r: (seq<seq<Nest<T>>>, seq<T>))
    requires d >= 1 && forall n :: 0 <= n < |ops| && ops[n].CloseOp? ==> ops[n].level < d
    ensures |r.0| == d
  {
    if ops == [] then (seq(d, _ => []), []) else
      var (spine, open) := NestedAfter(ops[..|ops| - 1], d);
      match ops[|ops| - 1]
      case PushOp(x) => (spine, open + [x])
      case ExtendOp(xs) => (spine, open + xs)
      case CloseOp(level) => (CloseSpine(spine, open, level), [])
  }

  /**
   After any run of calls, indexing answers as the nested list of that run does
   wherever that list has a row, and elsewhere unless a component leaves its group.
   */
  method RunAndIndex<T>(ops: seq<Op<T>>, d: nat, index: seq<nat>) returns (row: Option<seq<T>>)
    requires d >= 1 && forall n :: 0 <= n < |ops| && ops[n].CloseOp? ==> ops[n].level < d
    requires |index| == d
    ensures var spine := NestedAfter(ops, d).0;
      && (Lookup(spine, 0, index).Some? ==> row == Lookup(spine, 0, index))
      && (row == Lookup(spine, 0, index) <==> row.None? || Inside(Tables(spine), index))
  {
    var mv := new MultiVecWithBounds<T>(d);
    for n := 0 to |ops|
      invariant fresh(mv) && mv.Valid() && (mv.spine, mv.open) == NestedAfter(ops[..n], d)
    {
      assert ops[..n + 1][..n] == ops[..n];
      match ops[n] {
        case PushOp(x) => mv.Push(x);
        case ExtendOp(xs) => mv.Extend(xs);
        case CloseOp(level) => mv.CloseLevel(level);
      }
    }
    assert ops[..|ops|] == ops;
    assert mv.bounds == Tables(mv.spine);
    row := mv.Index(index);
  }

  // ---- The use in the recursion crate ---------------------------------------

  /** The spine after the first `p` groups of a two-level list, each closed twice. */
  ghost function FilledGroups<T>(groups: seq<seq<seq<T>>>): (s: seq<Nest<T>>)
    ensures |s| == |groups|
  {
    seq(|groups|, g requires 0 <= g < |groups| => Node(LeavesOf(groups[g]) + [Leaf([])]))
  }

  ghost function LeavesOf<T>(rows: seq<seq<T>>): (s: seq<Nest<T>>)
    ensures |s| == |rows|
  {
    seq(|rows|, r requires 0 <= r < |rows| => Leaf(rows[r]))
  }

  /**
   Filling a three-dimensional container group by group and row by row, with
   `close_level(1)` after each row and `close_level(0)` after each group: every
   row is found again under its two indices, although each group ends with an
   extra empty row.
   */
  method Fill<T>(groups: seq<seq<seq<T>>>) returns (mv: MultiVecWithBounds<T>)
    ensures fresh(mv) && mv.Valid() && |mv.spine| == 2
    ensures forall g, r :: 0 <= g < |groups| && 0 <= r < |groups[g]| ==>
      Lookup(mv.spine, 0, [g, r]) == Some(groups[g][r])
  {
    mv := new MultiVecWithBounds<T>(2);
    assert mv.spine == [[], []];
    for g := 0 to |groups|
      invariant fresh(mv) && mv.Valid() && mv.open == []
      invariant mv.spine == [FilledGroups(groups[..g]), []]
    {
      FillGroup(mv, groups[g], FilledGroups(groups[..g]));
      CloseGroup(mv.spine, groups, g);
      mv.CloseLevel(0);
    }
    assert groups[..|groups|] == groups;
    forall g, r | 0 <= g < |groups| && 0 <= r < |groups[g]|
      ensures Lookup(mv.spine, 0, [g, r]) == Some(groups[g][r])
    {
      FilledLookup(mv.spine, groups, g, r);
    }
  }

  method FillGroup<T>(mv: MultiVecWithBounds<T>, rows: seq<seq<T>>, ghost before: seq<Nest<T>>)
    requires mv.Valid() && mv.open == [] && mv.spine == [before, []]
    modifies mv
    ensures mv.Valid() && mv.open == [] && mv.spine == [before, LeavesOf(rows)]
  {
    for r := 0 to |rows|
      invariant mv.Valid() && mv.open == [] && mv.spine == [before, LeavesOf(rows[..r])]
    {
      mv.Extend(rows[r]);
      assert mv.open == rows[r];
      CloseRow(before, rows, r);
      mv.CloseLevel(1);
    }
    assert rows[..|rows|] == rows;
  }

  lemma CloseRow<T>(before: seq<Nest<T>>, rows: seq<seq<T>>, r: nat)
    requires r < |rows|
    ensures CloseSpine([before, LeavesOf(rows[..r])], rows[r], 1) == [before, LeavesOf(rows[..r + 1])]
  {
    assert LeavesOf(rows[..r]) + [Leaf(rows[r])] == LeavesOf(rows[..r + 1]);
  }

  lemma CloseGroup<T>(before: seq<seq<Nest<T>>>, groups: seq<seq<seq<T>>>, g: nat)
    requires g < |groups| && before == [FilledGroups(groups[..g]), LeavesOf(groups[g])]
    ensures CloseSpine(before, [], 0) == [FilledGroups(groups[..g + 1]), []]
  {
    var s := CloseSpine(before, [], 0);
    assert ClosedItem(before, [], 1) == Leaf([]);
    assert ClosedItem(before, [], 0) == Node(LeavesOf(groups[g]) + [Leaf([])]);
    assert groups[..g + 1] == groups[..g] + [groups[g]];
    assert s[0] == FilledGroups(groups[..g + 1]);
  }

  lemma FilledLookup<T>(spine: seq<seq<Nest<T>>>, groups: seq<seq<seq<T>>>, g: nat, r: nat)
    requires spine == [FilledGroups(groups), []] && g < |groups| && r < |groups[g]|
    ensures Lookup(spine, 0, [g, r]) == Some(groups[g][r])
  {
    var item := spine[0][g];
    assert [g, r][1..] == [r] && [r][1..] == [];
    assert item.kids[r] == Leaf(groups[g][r]);
    assert Descend(item.kids[r], []) == Some(groups[g][r]);
    assert Descend(item, [r]) == Some(groups[g][r]);
  }

  /**
   A component past its group: with one row in each of two filled groups, row
   two of the first does not exist, and indexing answers with the second group.
   */
  lemma NeighbourAnswers()
    ensures var spine := [FilledGroups([[[7]], [[9]]]), []];
      && Lookup(spine, 0, [0, 2]) == None && !Inside(Tables(spine), [0, 2])
      && Reached(spine, [0, 2]) == Some([9])
  {
    var a, b := [Leaf([7]), Leaf([])], [Leaf([9]), Leaf([])];
    var groups, spine := [Node(a), Node(b)], [[Node(a), Node(b)], []];
    assert LeavesOf([[7]]) + [Leaf([])] == a && LeavesOf([[9]]) + [Leaf([])] == b;
    assert FilledGroups([[[7]], [[9]]]) == groups;
    TwoGroups(spine, a, b);
    assert [0, 2][1..] == [2];
    assert ReachedFrom(Tables(spine), AllRows(spine), 1, 0, [2]) == Some([9]);
    LookupExact(spine, [0, 2]);
  }

  lemma TwoGroups(spine: seq<seq<Nest<int>>>, a: seq<Nest<int>>, b: seq<Nest<int>>)
    requires spine == [[Node(a), Node(b)], []]
    requires forall n :: 0 <= n < |a| ==> a[n].Leaf?
    requires forall n :: 0 <= n < |b| ==> b[n].Leaf?
    ensures Shaped(spine) && Level(spine, 1) == a + b && Table(spine, 0) == [0, |a|, |a| + |b|]
  {
    assert KidSeqs([Node(a), Node(b)]) == [a, b];
    TwoPieces(a, b);
    LevelAbove(spine, 1);
    assert Level(spine, 1) == a + b;
    assert Level(spine, 0) == [Node(a), Node(b)];
  }

  lemma TwoPieces<X>(a: seq<X>, b: seq<X>)
    ensures Concat([a, b]) == a + b && Starts([a, b]) == [0, |a|, |a| + |b|]
  {
    FlatAppend([], a);
    FlatAppend([a], b);
    assert [] + [a] == [a] && [a] + [b] == [a, b];
    assert Starts<X>([]) == [0];
  }
}
