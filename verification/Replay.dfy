/** Exactly which lists of column operations may be run again after an
    interrupted run. */
module Replay {
  import opened Cells
  import opened Tables

  predicate Drops(op: ColOp, t: string, c: string) {
    op.DropOp? && op.table == t && c in op.drops
  }

  predicate Adds(op: ColOp, t: string, c: string) {
    op.AddOp? && op.table == t && op.column == c
  }

  /** The columns of table t that some operation of the list drops. */
  function Dropped(ops: seq<ColOp>, t: string): (d: seq<string>)
    ensures forall c :: c in d <==> exists i :: 0 <= i < |ops| && Drops(ops[i], t, c)
  {
    if ops == [] then []
    else
      var rest := Dropped(ops[1..], t);
      assert forall i :: 0 < i < |ops| ==> ops[i] == ops[1..][i - 1];
      assert forall c :: c in rest ==> exists i :: 0 < i < |ops| && Drops(ops[i], t, c) by {
        forall c | c in rest
          ensures exists i :: 0 < i < |ops| && Drops(ops[i], t, c)
        {
          var i :| 0 <= i < |ops[1..]| && Drops(ops[1..][i], t, c);
          assert Drops(ops[i + 1], t, c);
        }
      }
      (if ops[0].DropOp? && ops[0].table == t then ops[0].drops else []) + rest
  }

  /** Operation j adds back for good a column that the list drops, and operation
      l is the first to add a column the list never drops. */
  ghost predicate Overtakes(ops: seq<ColOp>, j: nat, l: nat) {
    && j < l < |ops| && ops[j].AddOp? && ops[l].AddOp? && ops[j].table == ops[l].table
    && ops[j].column in Dropped(ops, ops[j].table)
    && ops[j].column !in Dropped(ops[j..], ops[j].table)
    && ops[l].column !in Dropped(ops, ops[l].table)
    && forall i :: 0 <= i < j ==> !Adds(ops[i], ops[l].table, ops[l].column)
  }

  /** No column that stays is first added behind one that is dropped and added back. */
  ghost predicate Replayable(ops: seq<ColOp>) {
    forall j: nat, l: nat :: !Overtakes(ops, j, l)
  }

  ghost predicate Converges(ops: seq<ColOp>, db: Db, k: nat)
    requires k <= |ops|
  {
    ApplyOps(ApplyOps(db, ops[..k]), ops) == ApplyOps(db, ops)
  }

  // ---- One table ----------------------------------------------------------------

  function StepTable(s: Table, op: ColOp, t: string): Table {
    if op.table == t then ApplyToTable(s, op) else s
  }

  function RunTable(s: Table, ops: seq<ColOp>, t: string): Table {
    if ops == [] then s else StepTable(RunTable(s, ops[..|ops| - 1], t), ops[|ops| - 1], t)
  }

  lemma {:induction false} TableByTable(db: Db, ops: seq<ColOp>)
    ensures ApplyOps(db, ops).Keys == db.Keys
    ensures forall t :: t in db ==> ApplyOps(db, ops)[t] == RunTable(db[t], ops, t)
  {
    if ops != [] {
      TableByTable(db, ops[..|ops| - 1]);
    }
  }

  lemma TableAt(db: Db, ops: seq<ColOp>, t: string)
    requires t in db
    ensures t in ApplyOps(db, ops) && ApplyOps(db, ops)[t] == RunTable(db[t], ops, t)
  {
    TableByTable(db, ops);
  }

  lemma {:induction false} KeepAppend(columns: seq<string>, c: string, d: seq<string>)
    ensures Keep(columns + [c], d) == Keep(columns, d) + if c in d then [] else [c]
  {
    if columns == [] {
      assert [] + [c] == [c] && [c][1..] == [];
    } else {
      assert (columns + [c])[1..] == columns[1..] + [c];
      KeepAppend(columns[1..], c, d);
    }
  }

  lemma {:induction false} KeepTwice(columns: seq<string>, a: seq<string>, b: seq<string>, both: seq<string>)
    requires forall c :: c in both <==> c in a || c in b
    ensures Keep(Keep(columns, a), b) == Keep(columns, both)
  {
    if columns != [] {
      KeepTwice(columns[1..], a, b, both);
      if columns[0] !in a {
        assert ([columns[0]] + Keep(columns[1..], a))[1..] == Keep(columns[1..], a);
      }
    }
  }

  lemma DropTwice(s: Table, a: seq<string>, b: seq<string>, both: seq<string>)
    requires forall c :: c in both <==> c in a || c in b
    ensures DropColumns(DropColumns(s, a), b) == DropColumns(s, both)
  {
    KeepTwice(s.columns, a, b, both);
    forall r | 0 <= r < |s.rows|
      ensures DropFromRow(DropFromRow(s.rows[r], a), b) == DropFromRow(s.rows[r], both)
    {
    }
    assert DropColumns(DropColumns(s, a), b).rows == DropColumns(s, both).rows;
  }

  lemma DropNothing(s: Table)
    ensures DropColumns(s, []) == s
  {
    KeepAll(s.columns, []);
    forall r | 0 <= r < |s.rows|
      ensures DropFromRow(s.rows[r], []) == s.rows[r]
    {
    }
    assert DropColumns(s, []).rows == s.rows;
  }

  /** Adding a column, seen without the columns d. */
  lemma DropAfterAdd(s: Table, c: string, default: Cell, d: seq<string>)
    ensures DropColumns(AddColumn(s, c, default), d) ==
            if c in d then DropColumns(s, d) else AddColumn(DropColumns(s, d), c, default)
  {
    if c !in s.columns {
      KeepAppend(s.columns, c, d);
      var left := DropColumns(AddColumn(s, c, default), d);
      var right := if c in d then DropColumns(s, d) else AddColumn(DropColumns(s, d), c, default);
      forall r | 0 <= r < |s.rows|
        ensures left.rows[r] == right.rows[r]
      {
        RowAfterAdd(s.rows[r], c, default, d);
      }
      assert |left.rows| == |right.rows| == |s.rows|;
      assert left.rows == right.rows;
    }
  }

  lemma RowAfterAdd(row: map<string, Cell>, c: string, default: Cell, d: seq<string>)
    ensures DropFromRow(row[c := default], d) ==
            if c in d then DropFromRow(row, d) else DropFromRow(row, d)[c := default]
  {
  }

  // ---- Two runs side by side ------------------------------------------------------

  predicate IsStable(op: ColOp, t: string, d: seq<string>) {
    op.AddOp? && op.table == t && op.column !in d
  }

  function StableAdd(s: Table, op: ColOp, t: string, d: seq<string>): Table {
    if IsStable(op, t, d) then AddColumn(s, op.column, op.default) else s
  }

  /** Only the adds of columns outside d. */
  function StableAdds(s: Table, ops: seq<ColOp>, t: string, d: seq<string>): Table
    decreases |ops|
  {
    if ops == [] then s else StableAdds(StableAdd(s, ops[0], t, d), ops[1..], t, d)
  }

  lemma FirstAdd(s: Table, ops: seq<ColOp>, i: nat, k: nat, t: string, d: seq<string>)
    requires i < k <= |ops|
    ensures StableAdds(s, ops[i..k], t, d) == StableAdds(StableAdd(s, ops[i], t, d), ops[i + 1..k], t, d)
    ensures i + 1 == k ==> ops[i + 1..k] == []
  {
    assert ops[i..k][1..] == ops[i + 1..k];
  }

  lemma {:induction false} StableStays(s: Table, ops: seq<ColOp>, t: string, d: seq<string>, c: string)
    requires c in s.columns
    ensures c in StableAdds(s, ops, t, d).columns
    decreases |ops|
  {
    if ops != [] {
      StableStays(StableAdd(s, ops[0], t, d), ops[1..], t, d, c);
    }
  }

  lemma {:induction false} NothingToAdd(s: Table, ops: seq<ColOp>, t: string, d: seq<string>)
    requires forall i :: 0 <= i < |ops| ==> IsStable(ops[i], t, d) ==> ops[i].column in s.columns
    ensures StableAdds(s, ops, t, d) == s
    decreases |ops|
  {
    if ops != [] {
      assert forall i :: 0 <= i < |ops[1..]| ==> ops[1..][i] == ops[i + 1];
      NothingToAdd(s, ops[1..], t, d);
    }
  }

  /** Leaving out the dropped columns, a run is its stable adds. */
  lemma {:induction false} StableRun(s: Table, ops: seq<ColOp>, t: string, d: seq<string>, i: nat)
    requires i <= |ops| && forall c :: c in Dropped(ops, t) ==> c in d
    ensures DropColumns(RunTable(s, ops, t), d) ==
            StableAdds(DropColumns(RunTable(s, ops[..i], t), d), ops[i..], t, d)
    decreases |ops| - i
  {
    if i == |ops| {
      assert ops[..i] == ops && ops[i..] == [];
    } else {
      StableRun(s, ops, t, d, i + 1);
      var before := RunTable(s, ops[..i], t);
      assert ops[..i + 1][..i] == ops[..i] && ops[i..][1..] == ops[i + 1..] && ops[i..][0] == ops[i];
      StableStep(before, ops, t, d, i);
    }
  }

  lemma StableStep(before: Table, ops: seq<ColOp>, t: string, d: seq<string>, i: nat)
    requires i < |ops| && forall c :: c in Dropped(ops, t) ==> c in d
    ensures DropColumns(StepTable(before, ops[i], t), d) == StableAdd(DropColumns(before, d), ops[i], t, d)
  {
    var op := ops[i];
    if op.table == t {
      match op
      case AddOp(_, c, default) => DropAfterAdd(before, c, default, d);
      case DropOp(_, drops) =>
        assert forall c :: c in drops ==> Drops(op, t, c);
        DropTwice(before, drops, d, d);
    }
  }

  /** The columns nothing drops any more, in a run that started over behind k
      operations and in one that was not interrupted. */
  ghost predicate InStep(s1: Table, s2: Table, ops: seq<ColOp>, t: string, k: nat, i: nat)
    requires i <= |ops| && k <= |ops|
  {
    var later := Dropped(ops[i..], t);
    DropColumns(s2, later) ==
      if i < k then StableAdds(DropColumns(s1, later), ops[i..k], t, Dropped(ops, t))
      else DropColumns(s1, later)
  }

  lemma {:induction false} SideBySide(s: Table, ops: seq<ColOp>, t: string, k: nat, i: nat)
    requires Replayable(ops) && k <= |ops| && i <= |ops|
    ensures InStep(RunTable(s, ops[..i], t), RunTable(RunTable(s, ops[..k], t), ops[..i], t), ops, t, k, i)
  {
    var s2 := RunTable(s, ops[..k], t);
    if i == 0 {
      assert ops[..0] == [] && ops[0..] == ops && ops[0..k] == ops[..k];
      AllOfPrefix(ops, t, k);
      StableRun(s, ops[..k], t, Dropped(ops, t), 0);
      assert ops[..k][..0] == [] && ops[..k][0..] == ops[..k];
    } else {
      SideBySide(s, ops, t, k, i - 1);
      assert ops[..i][..i - 1] == ops[..i - 1];
      OneStep(s, RunTable(s, ops[..i - 1], t), RunTable(s2, ops[..i - 1], t), ops, t, k, i - 1);
    }
  }

  lemma AllOfPrefix(ops: seq<ColOp>, t: string, k: nat)
    requires k <= |ops|
    ensures forall c :: c in Dropped(ops[..k], t) ==> c in Dropped(ops, t)
  {
  }

  lemma LaterDrops(ops: seq<ColOp>, t: string, i: nat)
    requires i < |ops|
    ensures ops[i..][0] == ops[i] && ops[i..][1..] == ops[i + 1..]
    ensures forall c :: c in Dropped(ops[i..], t) <==> Drops(ops[i], t, c) || c in Dropped(ops[i + 1..], t)
    ensures forall c :: c in Dropped(ops[i..], t) ==> c in Dropped(ops, t)
  {
  }

  /** A step that drops leaves what counts alone. */
  lemma DropStep(s: Table, ops: seq<ColOp>, t: string, i: nat)
    requires i < |ops| && (ops[i].DropOp? || ops[i].table != t)
    ensures DropColumns(StepTable(s, ops[i], t), Dropped(ops[i + 1..], t)) == DropColumns(s, Dropped(ops[i..], t))
  {
    LaterDrops(ops, t, i);
    if ops[i].table == t {
      assert forall c :: c in ops[i].drops <==> Drops(ops[i], t, c);
      DropTwice(s, ops[i].drops, Dropped(ops[i + 1..], t), Dropped(ops[i..], t));
    } else {
      DropNothing(s);
      DropTwice(s, [], Dropped(ops[i + 1..], t), Dropped(ops[i..], t));
    }
  }

  lemma OneStep(s: Table, s1: Table, s2: Table, ops: seq<ColOp>, t: string, k: nat, i: nat)
    requires Replayable(ops) && k <= |ops| && i < |ops|
    requires s1 == RunTable(s, ops[..i], t) && InStep(s1, s2, ops, t, k, i)
    ensures InStep(StepTable(s1, ops[i], t), StepTable(s2, ops[i], t), ops, t, k, i + 1)
  {
    var op, d := ops[i], Dropped(ops, t);
    if op.DropOp? || op.table != t {
      DropStep(s1, ops, t, i);
      DropStep(s2, ops, t, i);
      if i < k {
        FirstAdd(DropColumns(s1, Dropped(ops[i..], t)), ops, i, k, t, d);
      }
    } else {
      AddStep(s, s1, s2, ops, t, k, i);
    }
  }

  lemma AddStep(s: Table, s1: Table, s2: Table, ops: seq<ColOp>, t: string, k: nat, i: nat)
    requires Replayable(ops) && k <= |ops| && i < |ops| && ops[i].AddOp? && ops[i].table == t
    requires s1 == RunTable(s, ops[..i], t) && InStep(s1, s2, ops, t, k, i)
    ensures InStep(StepTable(s1, ops[i], t), StepTable(s2, ops[i], t), ops, t, k, i + 1)
  {
    var c, default := ops[i].column, ops[i].default;
    var later, d := Dropped(ops[i + 1..], t), Dropped(ops, t);
    LaterDrops(ops, t, i);
    DropNothing(s1);
    DropNothing(s2);
    DropTwice(s1, [], later, Dropped(ops[i..], t));
    DropTwice(s2, [], later, Dropped(ops[i..], t));
    DropAfterAdd(s1, c, default, later);
    DropAfterAdd(s2, c, default, later);
    if i < k {
      var y, rest := DropColumns(s1, later), ops[i + 1..k];
      FirstAdd(y, ops, i, k, t, d);
      if c !in d {
        StableStays(AddColumn(y, c, default), rest, t, d, c);
      } else if c !in later {
        NothingLeft(s, s1, ops, t, k, i);
        NothingToAdd(y, rest, t, d);
        NothingToAdd(AddColumn(y, c, default), rest, t, d);
      }
    }
  }

  /** When a dropped column comes back for good, every column that stays and is
      added later in the list is there already. */
  lemma NothingLeft(s: Table, s1: Table, ops: seq<ColOp>, t: string, k: nat, i: nat)
    requires Replayable(ops) && i < k <= |ops| && ops[i].AddOp? && ops[i].table == t
    requires s1 == RunTable(s, ops[..i], t)
    requires ops[i].column in Dropped(ops, t) && ops[i].column !in Dropped(ops[i + 1..], t)
    ensures var y, rest := DropColumns(s1, Dropped(ops[i + 1..], t)), ops[i + 1..k];
      forall m :: 0 <= m < |rest| ==> IsStable(rest[m], t, Dropped(ops, t)) ==> rest[m].column in y.columns
  {
    var d, y, rest := Dropped(ops, t), DropColumns(s1, Dropped(ops[i + 1..], t)), ops[i + 1..k];
    LaterDrops(ops, t, i);
    forall m | 0 <= m < |rest| && IsStable(rest[m], t, d)
      ensures rest[m].column in y.columns
    {
      var l := i + 1 + m;
      assert rest[m] == ops[l];
      assert !Overtakes(ops, i, l);
      var e :| 0 <= e < i && Adds(ops[e], t, ops[l].column);
      AddedStays(s, ops, t, ops[l].column, e, i);
      StillNotDropped(ops, t, i + 1, ops[l].column);
    }
  }

  lemma StillNotDropped(ops: seq<ColOp>, t: string, i: nat, c: string)
    requires i <= |ops| && c !in Dropped(ops, t)
    ensures c !in Dropped(ops[i..], t)
  {
  }

  lemma {:induction false} AddedStays(s: Table, ops: seq<ColOp>, t: string, c: string, e: nat, i: nat)
    requires e < i <= |ops| && Adds(ops[e], t, c) && c !in Dropped(ops, t)
    ensures c in RunTable(s, ops[..i], t).columns
  {
    assert ops[..i][..i - 1] == ops[..i - 1];
    if e < i - 1 {
      AddedStays(s, ops, t, c, e, i - 1);
      assert !Drops(ops[i - 1], t, c);
    }
  }

  /** A replayable list may be restarted after any prefix of it. */
  lemma ReplayConverges(ops: seq<ColOp>, db: Db, k: nat)
    requires Replayable(ops) && k <= |ops|
    ensures Converges(ops, db, k)
  {
    var mid, once := ApplyOps(db, ops[..k]), ApplyOps(db, ops);
    var twice := ApplyOps(mid, ops);
    TableByTable(db, ops[..k]);
    TableByTable(db, ops);
    TableByTable(mid, ops);
    forall t | t in db
      ensures twice[t] == once[t]
    {
      SideBySide(db[t], ops, t, k, |ops|);
      assert ops[..|ops|] == ops && ops[|ops|..] == [];
      DropNothing(RunTable(db[t], ops, t));
      DropNothing(RunTable(mid[t], ops, t));
    }
  }

  // ---- Lists that may not -----------------------------------------------------------

  /** Some way to cut the columns in two has a in front and b not. */
  ghost predicate Before(columns: seq<string>, a: string, b: string) {
    exists cut :: 0 <= cut <= |columns| && IsCut(columns, cut, a, b)
  }

  ghost predicate IsCut(columns: seq<string>, cut: nat, a: string, b: string) {
    cut <= |columns| && a in columns[..cut] && b !in columns[..cut]
  }

  lemma NotBoth(columns: seq<string>, a: string, b: string)
    ensures !(Before(columns, a, b) && Before(columns, b, a))
  {
  }

  lemma {:induction false} KeepParts(a: seq<string>, b: seq<string>, d: seq<string>)
    ensures Keep(a + b, d) == Keep(a, d) + Keep(b, d)
  {
    if a == [] {
      assert a + b == b;
    } else {
      assert (a + b)[1..] == a[1..] + b;
      KeepParts(a[1..], b, d);
    }
  }

  /** The order of two columns stays while the first is not dropped. */
  lemma StepKeepsOrder(s: Table, op: ColOp, t: string, a: string, b: string)
    requires Before(s.columns, a, b) && !Drops(op, t, a)
    ensures Before(StepTable(s, op, t).columns, a, b)
  {
    var cut :| 0 <= cut <= |s.columns| && IsCut(s.columns, cut, a, b);
    var front, back := s.columns[..cut], s.columns[cut..];
    assert s.columns == front + back;
    var after := StepTable(s, op, t).columns;
    if op.table == t && op.DropOp? {
      KeepParts(front, back, op.drops);
      assert after[..|Keep(front, op.drops)|] == Keep(front, op.drops);
      assert IsCut(after, |Keep(front, op.drops)|, a, b);
    } else {
      assert after[..cut] == front;
      assert IsCut(after, cut, a, b);
    }
  }

  lemma RunOneMore(s: Table, ops: seq<ColOp>, t: string, n: nat)
    requires n < |ops|
    ensures RunTable(s, ops[..n + 1], t) == StepTable(RunTable(s, ops[..n], t), ops[n], t)
  {
    assert ops[..n + 1][..n] == ops[..n];
  }

  lemma NoDropAt(ops: seq<ColOp>, t: string, i: nat, m: nat, a: string)
    requires i <= m < |ops| && a !in Dropped(ops[i..], t)
    ensures !Drops(ops[m], t, a)
  {
    assert ops[i..][m - i] == ops[m];
  }

  lemma {:induction false} RunKeepsOrder(s: Table, ops: seq<ColOp>, t: string, i: nat, n: nat, a: string, b: string)
    requires i <= n <= |ops| && Before(RunTable(s, ops[..i], t).columns, a, b)
    requires a !in Dropped(ops[i..], t)
    ensures Before(RunTable(s, ops[..n], t).columns, a, b)
  {
    hide *;
    if i < n {
      RunKeepsOrder(s, ops, t, i, n - 1, a, b);
      NoDropAt(ops, t, i, n - 1, a);
      RunOneMore(s, ops, t, n - 1);
      StepKeepsOrder(RunTable(s, ops[..n - 1], t), ops[n - 1], t, a, b);
    }
  }

  lemma AloneIsBefore(columns: seq<string>, a: string, b: string)
    requires a in columns && b !in columns
    ensures Before(columns, a, b)
  {
    assert columns[..|columns|] == columns;
    assert IsCut(columns, |columns|, a, b);
  }

  lemma {:induction false} NotAddedIsAbsent(s: Table, ops: seq<ColOp>, t: string, c: string, i: nat)
    requires i <= |ops| && c !in s.columns && forall m :: 0 <= m < i ==> !Adds(ops[m], t, c)
    ensures c !in RunTable(s, ops[..i], t).columns
  {
    if i > 0 {
      assert ops[..i][..i - 1] == ops[..i - 1];
      NotAddedIsAbsent(s, ops, t, c, i - 1);
    }
  }

  // ---- A database to show it on ---------------------------------------------------

  /** A length no column name of the list exceeds. */
  function NameBound(ops: seq<ColOp>): (n: nat)
    ensures forall i :: 0 <= i < |ops| && ops[i].AddOp? ==> |ops[i].column| <= n
    ensures forall i :: 0 <= i < |ops| && ops[i].DropOp? ==> forall c :: c in ops[i].drops ==> |c| <= n
  {
    if ops == [] then 0
    else
      var last := |ops| - 1;
      var rest := NameBound(ops[..last]);
      var own := if ops[last].AddOp? then |ops[last].column| else LongestName(ops[last].drops);
      if own < rest then rest else own
  }

  function LongestName(names: seq<string>): (n: nat)
    ensures forall c :: c in names ==> |c| <= n
  {
    if names == [] then 0
    else
      var rest := LongestName(names[1..]);
      if |names[0]| < rest then rest else |names[0]|
  }

  function FreshName(ops: seq<ColOp>): string {
    seq(NameBound(ops) + 1, _ => 'w')
  }

  /** Each table of the list with one column, which the list never mentions. */
  ghost function Bare(ops: seq<ColOp>): Db {
    map t | t in TablesOf(ops) :: OneColumn(ops)
  }

  function TablesOf(ops: seq<ColOp>): (tables: set<string>)
    ensures forall i :: 0 <= i < |ops| ==> ops[i].table in tables
  {
    if ops == [] then {} else TablesOf(ops[..|ops| - 1]) + {ops[|ops| - 1].table}
  }

  ghost function OneColumn(ops: seq<ColOp>): Table {
    Table([FreshName(ops)], [])
  }

  lemma FreshIsNotMentioned(ops: seq<ColOp>, t: string)
    ensures forall i :: 0 <= i < |ops| ==> !Adds(ops[i], t, FreshName(ops))
    ensures FreshName(ops) !in Dropped(ops, t)
  {
    assert |FreshName(ops)| == NameBound(ops) + 1;
  }

  /** It is a database as SQLite has them, and no run over the list fails on it. */
  lemma BareTakesAll(ops: seq<ColOp>)
    ensures Storable(Bare(ops)) && TakesAll(Bare(ops), ops)
  {
    var db := Bare(ops);
    forall i | 0 <= i < |ops|
      ensures Takes(ApplyOps(db, ops[..i]), ops[i])
    {
      var t, w := ops[i].table, FreshName(ops);
      FreshIsNotMentioned(ops, t);
      StaysAll(OneColumn(ops), ops, t, w, i);
      TableByTable(db, ops[..i]);
      assert !Drops(ops[i], t, w);
    }
  }

  lemma AddedIsThere(s: Table, ops: seq<ColOp>, t: string, j: nat, c: string)
    requires j < |ops| && Adds(ops[j], t, c)
    ensures c in RunTable(s, ops[..j + 1], t).columns
  {
    RunOneMore(s, ops, t, j);
  }

  lemma LastsElsewhere(ops: seq<ColOp>, j: nat, l: nat)
    requires Overtakes(ops, j, l)
    ensures var t, c, x := ops[j].table, ops[j].column, ops[l].column;
      && c != x && Adds(ops[j], t, c) && Adds(ops[l], t, x)
      && (forall m :: 0 <= m <= j ==> !Adds(ops[m], t, x))
      && c in Dropped(ops, t) && c !in Dropped(ops[j + 1..], t) && x !in Dropped(ops, t)
  {
    DropsLater(ops, ops[j].table, j, ops[j].column);
  }

  lemma NotFresh(ops: seq<ColOp>, t: string, l: nat, x: string)
    requires l < |ops| && Adds(ops[l], t, x)
    ensures x !in OneColumn(ops).columns
  {
    FreshIsNotMentioned(ops, t);
  }

  /** One run over it puts the column that comes back first. */
  lemma OnceInOrder(ops: seq<ColOp>, j: nat, l: nat)
    requires Overtakes(ops, j, l)
    ensures Before(RunTable(OneColumn(ops), ops, ops[j].table).columns, ops[j].column, ops[l].column)
  {
    LastsElsewhere(ops, j, l);
    hide *;
    var s, t, c, x := OneColumn(ops), ops[j].table, ops[j].column, ops[l].column;
    NotFresh(ops, t, l, x);
    NotAddedIsAbsent(s, ops, t, x, j + 1);
    AddedIsThere(s, ops, t, j, c);
    AloneIsBefore(RunTable(s, ops[..j + 1], t).columns, c, x);
    RunKeepsOrder(s, ops, t, j + 1, |ops|, c, x);
    assert ops[..|ops|] == ops;
  }

  /** A run over the column that stays puts it last. */
  lemma AgainOutOfOrder(s: Table, ops: seq<ColOp>, t: string, c: string, x: string)
    requires x in s.columns && x !in Dropped(ops, t) && c in Dropped(ops, t)
    ensures Before(RunTable(s, ops, t).columns, x, c)
  {
    var i :| 0 <= i < |ops| && Drops(ops[i], t, c);
    StaysAll(s, ops, t, x, i);
    assert ops[..i + 1][..i] == ops[..i];
    assert !Drops(ops[i], t, x);
    AloneIsBefore(RunTable(s, ops[..i + 1], t).columns, x, c);
    StillNotDropped(ops, t, i + 1, x);
    RunKeepsOrder(s, ops, t, i + 1, |ops|, x, c);
    assert ops[..|ops|] == ops;
  }

  lemma BareAt(ops: seq<ColOp>, i: nat)
    requires i < |ops|
    ensures ops[i].table in Bare(ops) && Bare(ops)[ops[i].table] == OneColumn(ops)
  {
  }

  lemma OvertakesShape(ops: seq<ColOp>, j: nat, l: nat)
    requires Overtakes(ops, j, l)
    ensures j < l < |ops| && ops[j].AddOp? && ops[l].AddOp?
  {
  }

  /** The other run, from where the first l + 1 operations have run already. */
  lemma AgainInOtherOrder(ops: seq<ColOp>, j: nat, l: nat)
    requires Overtakes(ops, j, l)
    ensures var t := ops[j].table;
      Before(RunTable(RunTable(OneColumn(ops), ops[..l + 1], t), ops, t).columns, ops[l].column, ops[j].column)
  {
    LastsElsewhere(ops, j, l);
    var t := ops[j].table;
    hide *;
    AddedIsThere(OneColumn(ops), ops, t, l, ops[l].column);
    AgainOutOfOrder(RunTable(OneColumn(ops), ops[..l + 1], t), ops, t, ops[j].column, ops[l].column);
  }

  lemma Reordered(ops: seq<ColOp>, j: nat, l: nat)
    requires Overtakes(ops, j, l)
    ensures !Converges(ops, Bare(ops), l + 1)
  {
    hide *;
    OvertakesShape(ops, j, l);
    BareAt(ops, j);
    OnceInOrder(ops, j, l);
    AgainInOtherOrder(ops, j, l);
    DifferentOrders(ops, Bare(ops), l + 1, ops[j].table, ops[j].column, ops[l].column);
  }

  lemma DifferentOrders(ops: seq<ColOp>, db: Db, k: nat, t: string, c: string, x: string)
    requires k <= |ops| && t in db
    requires Before(RunTable(db[t], ops, t).columns, c, x)
    requires Before(RunTable(RunTable(db[t], ops[..k], t), ops, t).columns, x, c)
    ensures !Converges(ops, db, k)
  {
    hide *;
    TableAt(db, ops[..k], t);
    TableAt(db, ops, t);
    TableAt(ApplyOps(db, ops[..k]), ops, t);
    NotBoth(RunTable(db[t], ops, t).columns, c, x);
    NotConverging(ops, db, k, t);
  }

  lemma NotConverging(ops: seq<ColOp>, db: Db, k: nat, t: string)
    requires k <= |ops| && t in ApplyOps(db, ops) && t in ApplyOps(ApplyOps(db, ops[..k]), ops)
    requires ApplyOps(ApplyOps(db, ops[..k]), ops)[t] != ApplyOps(db, ops)[t]
    ensures !Converges(ops, db, k)
  {
  }

  lemma DropsLater(ops: seq<ColOp>, t: string, j: nat, c: string)
    requires j < |ops| && c !in Dropped(ops[j..], t)
    ensures c !in Dropped(ops[j + 1..], t)
  {
    LaterDrops(ops, t, j);
  }

  lemma {:induction false} StaysAll(s: Table, ops: seq<ColOp>, t: string, c: string, i: nat)
    requires i <= |ops| && c in s.columns && c !in Dropped(ops, t)
    ensures c in RunTable(s, ops[..i], t).columns
  {
    if i > 0 {
      assert ops[..i][..i - 1] == ops[..i - 1];
      StaysAll(s, ops, t, c, i - 1);
      assert !Drops(ops[i - 1], t, c);
    } else {
      assert ops[..0] == [];
    }
  }

  /** The lists that converge from every database and every point of interruption
      are exactly the replayable ones; it is enough to look at databases a file
      can hold and on which an uninterrupted run completes. */
  lemma ReplayableIff(ops: seq<ColOp>)
    ensures Replayable(ops) <==>
      forall db: Db, k: nat :: Storable(db) && TakesAll(db, ops) && k <= |ops| ==> Converges(ops, db, k)
  {
    if Replayable(ops) {
      forall db: Db, k: nat | k <= |ops|
        ensures Converges(ops, db, k)
      {
        ReplayConverges(ops, db, k);
      }
    } else {
      var j: nat, l: nat :| Overtakes(ops, j, l);
      Reordered(ops, j, l);
      BareTakesAll(ops);
    }
  }

  /** Lists that do not both add and drop a column are replayable, so lists of
      adds are. */
  lemma CompatibleIsReplayable(ops: seq<ColOp>)
    requires AllCompatible(ops)
    ensures Replayable(ops)
  {
  }

  // ---- Any number of interrupted runs -------------------------------------------------

  /** The database after runs that stopped behind ks[0], ks[1], ... operations. */
  ghost function AfterRuns(db: Db, ops: seq<ColOp>, ks: seq<nat>): Db {
    if ks == [] then db
    else
      var k := ks[|ks| - 1];
      ApplyOps(AfterRuns(db, ops, ks[..|ks| - 1]), if k <= |ops| then ops[..k] else ops)
  }

  /** Some interrupted runs of the list, starting from db, left the tables as now. */
  ghost predicate HasRuns(now: Db, db: Db, ops: seq<ColOp>) {
    exists ks: seq<nat> :: now == AfterRuns(db, ops, ks)
  }

  lemma NoRunYet(db: Db, ops: seq<ColOp>)
    ensures HasRuns(db, db, ops)
  {
    assert AfterRuns(db, ops, []) == db;
  }

  /** A further run that stops behind k operations. */
  lemma OneMoreRun(now: Db, db: Db, ops: seq<ColOp>, k: nat)
    requires HasRuns(now, db, ops) && k <= |ops|
    ensures HasRuns(ApplyOps(now, ops[..k]), db, ops)
  {
    var ks: seq<nat> :| now == AfterRuns(db, ops, ks);
    assert (ks + [k])[..|ks|] == ks;
    assert ApplyOps(now, ops[..k]) == AfterRuns(db, ops, ks + [k]);
  }

  /** And one that completes. */
  lemma LastRun(now: Db, db: Db, ops: seq<ColOp>)
    requires HasRuns(now, db, ops) && Replayable(ops)
    ensures ApplyOps(now, ops) == ApplyOps(db, ops)
  {
    var ks: seq<nat> :| now == AfterRuns(db, ops, ks);
    RetriesConverge(db, ops, ks);
  }

  lemma {:induction false} RunsKeepTables(db: Db, ops: seq<ColOp>, ks: seq<nat>)
    ensures AfterRuns(db, ops, ks).Keys == db.Keys
  {
    if ks != [] {
      var k := ks[|ks| - 1];
      RunsKeepTables(db, ops, ks[..|ks| - 1]);
      TableByTable(AfterRuns(db, ops, ks[..|ks| - 1]), if k <= |ops| then ops[..k] else ops);
    }
  }

  lemma {:induction false} NothingToRun(db: Db, ks: seq<nat>)
    ensures AfterRuns(db, [], ks) == db
  {
    if ks != [] {
      NothingToRun(db, ks[..|ks| - 1]);
    }
  }

  /** However many runs were interrupted and wherever, the one that completes
      leaves what a single run would have left. */
  lemma {:induction false} RetriesConverge(db: Db, ops: seq<ColOp>, ks: seq<nat>)
    requires Replayable(ops)
    ensures ApplyOps(AfterRuns(db, ops, ks), ops) == ApplyOps(db, ops)
  {
    if ks != [] {
      var k := ks[|ks| - 1];
      var before := AfterRuns(db, ops, ks[..|ks| - 1]);
      RetriesConverge(db, ops, ks[..|ks| - 1]);
      ReplayConverges(ops, before, if k <= |ops| then k else |ops|);
      assert ops[..|ops|] == ops;
    }
  }

  // ---- Interrupted runs as prefixes ---------------------------------------------------

  /** Starting over and stopping again is having stopped at the later point. */
  ghost predicate PrefixLaw(ops: seq<ColOp>, db: Db, k: nat, j: nat)
    requires k <= |ops| && j <= |ops|
  {
    ApplyOps(ApplyOps(db, ops[..k]), ops[..j]) == ApplyOps(db, ops[..if j < k then k else j])
  }

  /** The lists for which that holds throughout are exactly those that do not both
      add and drop a column of one table; again over databases a file can hold and
      on which an uninterrupted run completes. */
  lemma CompatibleIff(ops: seq<ColOp>)
    ensures AllCompatible(ops) <==>
      forall db: Db, k: nat, j: nat ::
        Storable(db) && TakesAll(db, ops) && k <= |ops| && j <= |ops| ==> PrefixLaw(ops, db, k, j)
  {
    if AllCompatible(ops) {
      forall db: Db, k: nat, j: nat | DbOk(db) && k <= |ops| && j <= |ops|
        ensures PrefixLaw(ops, db, k, j)
      {
        RestartAt(db, ops, k, j);
      }
    } else {
      var i: nat, j: nat :| i < |ops| && j < |ops| && !Compatible(ops[i], ops[j]);
      var c := if ops[i].AddOp? then ops[i].column else ops[j].column;
      BareTakesAll(ops);
      if i < j {
        BreaksPrefixLaw(ops, i, j, c);
      } else {
        BreaksPrefixLaw(ops, j, i, c);
      }
    }
  }

  lemma BreaksPrefixLaw(ops: seq<ColOp>, i: nat, j: nat, c: string)
    requires i < j < |ops| && ops[i].table == ops[j].table
    requires (Adds(ops[i], ops[i].table, c) && Drops(ops[j], ops[i].table, c)) ||
             (Drops(ops[i], ops[i].table, c) && Adds(ops[j], ops[i].table, c))
    ensures !PrefixLaw(ops, Bare(ops), j + 1, i + 1)
  {
    assert ops[i].AddOp? <==> !ops[j].AddOp?;
    hide *;
    BareAt(ops, i);
    var t, db := ops[i].table, Bare(ops);
    LastOpDecides(db, ops, j, c);
    LastOpDecides(ApplyOps(db, ops[..j + 1]), ops, i, c);
    NotPrefix(ops, db, j + 1, i + 1, t, c);
  }

  /** Whether a column is there is settled by the operation that last named it. */
  lemma LastOpDecides(db: Db, ops: seq<ColOp>, i: nat, c: string)
    requires i < |ops| && ops[i].table in db
    requires Adds(ops[i], ops[i].table, c) || Drops(ops[i], ops[i].table, c)
    ensures ops[i].table in ApplyOps(db, ops[..i + 1])
    ensures c in ApplyOps(db, ops[..i + 1])[ops[i].table].columns <==> ops[i].AddOp?
  {
    var t := ops[i].table;
    TableAt(db, ops[..i + 1], t);
    RunOneMore(db[t], ops, t, i);
    hide RunTable, ApplyOps;
  }

  lemma NotPrefix(ops: seq<ColOp>, db: Db, k: nat, j: nat, t: string, c: string)
    requires j < k <= |ops|
    requires t in ApplyOps(db, ops[..k]) && t in ApplyOps(ApplyOps(db, ops[..k]), ops[..j])
    requires !(c in ApplyOps(db, ops[..k])[t].columns <==>
               c in ApplyOps(ApplyOps(db, ops[..k]), ops[..j])[t].columns)
    ensures !PrefixLaw(ops, db, k, j)
  {
  }

  /** So any number of interrupted runs of such a list leaves what one did. */
  lemma {:induction false} RunsArePrefixes(db: Db, ops: seq<ColOp>, ks: seq<nat>) returns (k: nat)
    requires DbOk(db) && AllCompatible(ops)
    ensures k <= |ops| && AfterRuns(db, ops, ks) == ApplyOps(db, ops[..k])
  {
    if ks == [] {
      assert ops[..0] == [];
      k := 0;
    } else {
      var i := RunsArePrefixes(db, ops, ks[..|ks| - 1]);
      var last := ks[|ks| - 1];
      var j := if last <= |ops| then last else |ops|;
      assert ops[..|ops|] == ops;
      RestartAt(db, ops, i, j);
      k := if j < i then i else j;
    }
  }

  /** Interrupted runs of column adds keep every original cell, row and column. */
  lemma RunsKeepData(db: Db, ops: seq<ColOp>, ks: seq<nat>)
    requires DbOk(db) && AddsOnly(ops)
    ensures Extends(db, AfterRuns(db, ops, ks)) && Extends(db, ApplyOps(db, ops))
  {
    var k := RunsArePrefixes(db, ops, ks);
    AddsKeepData(db, ops[..k]);
    AddsKeepData(db, ops);
  }
}
