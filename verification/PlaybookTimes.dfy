/** ansbile_playbook.py: merging the task durations of two playbook runs. */
module PlaybookTimes {
  import opened Outcomes

  /** A task with its time in seconds. */
  datatype Task = Task(name: string, time: nat)

  datatype Row = Row(name: string, time1: nat, time2: nat)

  /** `re.sub('^[^:]+ : ', '', name)`: drop a role prefix in front of the first colon. */
  function NameSimplify(name: string): string {
    match FirstColon(name)
    case None => name
    case Some(k) =>
      if 2 <= k && k + 1 < |name| && name[k - 1] == ' ' && name[k + 1] == ' ' then name[k + 2..] else name
  }

  function FirstColon(s: string): Option<nat> {
    if s == "" then None
    else if s[0] == ':' then Some(0)
    else match FirstColon(s[1..]) case None => None case Some(k) => Some(k + 1)
  }

  /** The name is a role, a colon with a space on either side, and the rest. */
  predicate HasRole(name: string, role: string, rest: string) {
    role != "" && ':' !in role && name == role + " : " + rest
  }

  lemma {:induction false} FirstColonIs(s: string)
    ensures match FirstColon(s)
            case None => ':' !in s
            case Some(k) => k < |s| && s[k] == ':' && ':' !in s[..k]
    decreases |s|
  {
    if s == "" || s[0] == ':' {
    } else {
      FirstColonIs(s[1..]);
      match FirstColon(s[1..])
      case None => assert forall c :: c in s ==> c == s[0] || c in s[1..];
      case Some(k) => assert s[..k + 1] == [s[0]] + s[1..][..k];
    }
  }

  /** Simplifying leaves what follows the role, and a name without a role as it is. */
  lemma SimplifyDropsRole(name: string)
    ensures forall role, rest | HasRole(name, role, rest) :: NameSimplify(name) == rest
    ensures (forall role, rest :: !HasRole(name, role, rest)) ==> NameSimplify(name) == name
  {
    FirstColonIs(name);
    forall role, rest | HasRole(name, role, rest) ensures NameSimplify(name) == rest {
      var at := |role| + 1;
      assert name[at] == ':' && name[at - 1] == ' ' && name[at + 1] == ' ';
      assert name[..at] == role + " ";
      assert FirstColon(name).Some?;
      NotInPrefix(name, ':', at);
      NotInPrefix(name, ':', FirstColon(name).value);
      assert name[at + 2..] == rest;
    }
    match FirstColon(name)
    case None =>
    case Some(k) =>
      if 2 <= k && k + 1 < |name| && name[k - 1] == ' ' && name[k + 1] == ' ' {
        var role, rest := name[..k - 1], name[k + 2..];
        assert role == name[..k][..k - 1];
        assert name == role + " : " + rest;
        assert HasRole(name, role, rest);
      }
  }

  // ---- Totals ----

  function Total(tasks: seq<Task>): nat {
    if tasks == [] then 0 else Total(tasks[..|tasks| - 1]) + tasks[|tasks| - 1].time
  }

  function TimeOf(tasks: seq<Task>, name: string): nat {
    if tasks == [] then 0
    else
      var last := tasks[|tasks| - 1];
      TimeOf(tasks[..|tasks| - 1], name) + if last.name == name then last.time else 0
  }

  predicate Lists(tasks: seq<Task>, name: string) {
    exists t :: t in tasks && t.name == name
  }

  predicate DistinctNames(tasks: seq<Task>) {
    forall i, j | 0 <= i < j < |tasks| :: tasks[i].name != tasks[j].name
  }

  lemma {:induction false} TotalConcat(a: seq<Task>, b: seq<Task>)
    ensures Total(a + b) == Total(a) + Total(b)
    ensures forall name :: TimeOf(a + b, name) == TimeOf(a, name) + TimeOf(b, name)
    decreases |b|
  {
    if b == [] {
      assert a + b == a;
    } else {
      TotalConcat(a, b[..|b| - 1]);
      assert (a + b)[..|a + b| - 1] == a + b[..|b| - 1];
    }
  }

  lemma {:induction false} UnlistedTakesNoTime(tasks: seq<Task>, name: string)
    requires !Lists(tasks, name)
    ensures TimeOf(tasks, name) == 0
    decreases |tasks|
  {
    if tasks == [] {
    } else {
      assert tasks[|tasks| - 1] in tasks;
      UnlistedTakesNoTime(tasks[..|tasks| - 1], name);
    }
  }

  /** Lists of distinct names with the same time under every name have the same total, provided
      they list the same names. */
  lemma {:induction false} SameTimesSameTotal(a: seq<Task>, b: seq<Task>)
    requires DistinctNames(a)
    requires forall name :: Lists(b, name) ==> Lists(a, name)
    requires forall name :: TimeOf(a, name) == TimeOf(b, name)
    ensures Total(a) == Total(b)
    decreases |a|
  {
    if a == [] {
      if b != [] {
        FirstIsListed(b);
      }
    } else {
      hide TimeOf, Lists, Without;
      var init, last := a[..|a| - 1], a[|a| - 1];
      var rest := Without(b, last.name);
      WithoutSplits(b, last.name);
      LastOfDistinct(a);
      forall name ensures TimeOf(init, name) == TimeOf(rest, name) && (Lists(rest, name) ==> Lists(init, name)) {
        if name == last.name {
          UnlistedTakesNoTime(init, name);
          UnlistedTakesNoTime(rest, name);
        } else {
          WithoutKeepsOthers(b, last.name, name);
          assert Lists(rest, name) ==> Lists(b, name);
        }
      }
      SameTimesSameTotal(init, rest);
      UnlistedTakesNoTime(init, last.name);
    }
  }

  /** In a list of distinct names the last name is not listed before, and its time is its own. */
  lemma LastOfDistinct(a: seq<Task>)
    requires DistinctNames(a) && a != []
    ensures var init, last := a[..|a| - 1], a[|a| - 1];
            && DistinctNames(init) && !Lists(init, last.name)
            && Total(a) == Total(init) + last.time
            && (forall name :: TimeOf(a, name) == TimeOf(init, name) + if name == last.name then last.time else 0)
            && (forall name :: Lists(a, name) <==> Lists(init, name) || name == last.name)
  {
    var init, last := a[..|a| - 1], a[|a| - 1];
    assert a == init + [last];
    ListsAppend(init, last);
    assert forall i | 0 <= i < |init| :: init[i] == a[i];
  }

  lemma FirstIsListed(tasks: seq<Task>)
    requires tasks != []
    ensures Lists(tasks, tasks[0].name)
  {
    assert tasks[0] in tasks;
  }

  function Without(tasks: seq<Task>, name: string): seq<Task> {
    if tasks == [] then []
    else
      var last := tasks[|tasks| - 1];
      Without(tasks[..|tasks| - 1], name) + if last.name == name then [] else [last]
  }

  lemma {:induction false} WithoutSplits(tasks: seq<Task>, name: string)
    ensures var rest := Without(tasks, name);
            && Total(tasks) == Total(rest) + TimeOf(tasks, name)
            && !Lists(rest, name)
            && (forall n :: Lists(rest, n) ==> Lists(tasks, n))
    decreases |tasks|
  {
    hide Lists;
    if tasks == [] {
      NoneListed();
    } else {
      var init, last := tasks[..|tasks| - 1], tasks[|tasks| - 1];
      WithoutSplits(init, name);
      assert tasks == init + [last];
      ListsAppend(init, last);
      ListsAppend(Without(init, name), last);
      if last.name == name {
        assert Without(tasks, name) == Without(init, name);
      } else {
        TotalConcat(Without(init, name), [last]);
        assert [last][..0] == [];
      }
    }
  }

  lemma {:induction false} WithoutKeepsOthers(tasks: seq<Task>, name: string, n: string)
    requires n != name
    ensures TimeOf(Without(tasks, name), n) == TimeOf(tasks, n)
    decreases |tasks|
  {
    if tasks == [] {
    } else {
      var init, last := tasks[..|tasks| - 1], tasks[|tasks| - 1];
      WithoutKeepsOthers(init, name, n);
      if last.name == name {
        assert Without(tasks, name) == Without(init, name);
      } else {
        TotalConcat(Without(init, name), [last]);
        assert [last][..0] == [];
      }
    }
  }

  // ---- Normalising one run ----

  function Simplified(data: seq<Task>): (r: seq<Task>)
    ensures |r| == |data| && forall i | 0 <= i < |r| :: r[i] == Task(NameSimplify(data[i].name), data[i].time)
  {
    seq(|data|, i requires 0 <= i < |data| => Task(NameSimplify(data[i].name), data[i].time))
  }

  /** Same names, each once, with its whole time. */
  ghost predicate Merges(norm: seq<Task>, merged: seq<Task>) {
    && DistinctNames(merged)
    && (forall name :: Lists(merged, name) <==> Lists(norm, name))
    && (forall t | t in merged :: t.time == TimeOf(norm, t.name))
  }

  /** The first loop of `normalize`: the times per name, in a dictionary. */
  method AddUp(norm: seq<Task>) returns (dictized: map<string, nat>)
    ensures forall name :: name in dictized <==> Lists(norm, name)
    ensures forall name | name in dictized :: dictized[name] == TimeOf(norm, name)
  {
    dictized := map[];
    for n := 0 to |norm|
      invariant forall name :: name in dictized <==> Lists(norm[..n], name)
      invariant forall name | name in dictized :: dictized[name] == TimeOf(norm[..n], name)
    {
      var i := norm[n];
      assert norm[..n + 1][..n] == norm[..n];
      ListsNext(norm, n);
      if i.name in dictized {
        dictized := dictized[i.name := dictized[i.name] + i.time];
      } else {
        UnlistedTakesNoTime(norm[..n], i.name);
        dictized := dictized[i.name := i.time];
      }
    }
    assert norm[..|norm|] == norm;
  }

  /** `normalize`: add up the times per name in a dictionary, then pop each name where it is first met. */
  method Normalize(data: seq<Task>) returns (totalNorm: seq<Task>)
    ensures Merges(Simplified(data), totalNorm)
  {
    hide TimeOf, Lists, DistinctNames;
    var norm := Simplified(data);
    var dictized := AddUp(norm);
    totalNorm := [];
    NoneListed();
    assert norm[..0] == [];
    for n := 0 to |norm|
      invariant DistinctNames(totalNorm)
      invariant forall name :: Lists(totalNorm, name) <==> Lists(norm[..n], name)
      invariant forall name :: name in dictized <==> Lists(norm, name) && !Lists(norm[..n], name)
      invariant forall name | name in dictized :: dictized[name] == TimeOf(norm, name)
      invariant forall t | t in totalNorm :: t.time == TimeOf(norm, t.name)
    {
      var i := norm[n];
      ListsNext(norm, n);
      IsListed(norm, i);
      if i.name in dictized {
        AppendDistinct(totalNorm, Task(i.name, dictized[i.name]));
        totalNorm := totalNorm + [Task(i.name, dictized[i.name])];
        dictized := dictized - {i.name};
      }
    }
    assert norm[..|norm|] == norm;
  }

  lemma NoneListed()
    ensures DistinctNames([]) && forall name :: !Lists([], name)
  {
  }

  lemma IsListed(tasks: seq<Task>, t: Task)
    requires t in tasks
    ensures Lists(tasks, t.name)
  {
  }

  lemma ListsNext(tasks: seq<Task>, n: nat)
    requires n < |tasks|
    ensures forall name :: Lists(tasks[..n + 1], name) <==> Lists(tasks[..n], name) || name == tasks[n].name
  {
    assert tasks[..n + 1] == tasks[..n] + [tasks[n]];
    ListsAppend(tasks[..n], tasks[n]);
  }

  lemma ListsAppend(tasks: seq<Task>, t: Task)
    ensures forall name :: Lists(tasks + [t], name) <==> Lists(tasks, name) || name == t.name
  {
    assert forall x :: x in tasks + [t] <==> x in tasks || x == t;
    forall name ensures Lists(tasks + [t], name) <==> Lists(tasks, name) || name == t.name {
      assert t in tasks + [t];
    }
  }

  lemma AppendDistinct(tasks: seq<Task>, t: Task)
    requires DistinctNames(tasks) && !Lists(tasks, t.name)
    ensures DistinctNames(tasks + [t])
    ensures forall name :: Lists(tasks + [t], name) <==> Lists(tasks, name) || name == t.name
  {
    ListsAppend(tasks, t);
    assert forall i | 0 <= i < |tasks| :: tasks[i] in tasks;
  }

  /** Normalising keeps the total time. */
  lemma MergingKeepsTotal(norm: seq<Task>, merged: seq<Task>)
    requires Merges(norm, merged)
    ensures Total(merged) == Total(norm)
    ensures forall name :: TimeOf(merged, name) == TimeOf(norm, name)
  {
    forall name ensures TimeOf(merged, name) == TimeOf(norm, name) {
      if Lists(merged, name) {
        var t :| t in merged && t.name == name;
        TimeOfDistinct(merged, t);
      } else {
        UnlistedTakesNoTime(merged, name);
        UnlistedTakesNoTime(norm, name);
      }
    }
    SameTimesSameTotal(merged, norm);
  }

  lemma {:induction false} TimeOfDistinct(tasks: seq<Task>, t: Task)
    requires DistinctNames(tasks) && t in tasks
    ensures TimeOf(tasks, t.name) == t.time
    decreases |tasks|
  {
    var init, last := tasks[..|tasks| - 1], tasks[|tasks| - 1];
    if t == last {
      assert forall x | x in init :: x.name != t.name;
      UnlistedTakesNoTime(init, t.name);
    } else {
      assert t in init;
      TimeOfDistinct(init, t);
    }
  }

  // ---- Combining two runs ----

  function Column1(rows: seq<Row>): (r: seq<Task>)
    ensures |r| == |rows| && forall i | 0 <= i < |r| :: r[i] == Task(rows[i].name, rows[i].time1)
  {
    seq(|rows|, i requires 0 <= i < |rows| => Task(rows[i].name, rows[i].time1))
  }

  function Column2(rows: seq<Row>): (r: seq<Task>)
    ensures |r| == |rows| && forall i | 0 <= i < |r| :: r[i] == Task(rows[i].name, rows[i].time2)
  {
    seq(|rows|, i requires 0 <= i < |rows| => Task(rows[i].name, rows[i].time2))
  }

  /** Each name of either run in exactly one row, with its time in each run. */
  ghost predicate Combines(rows: seq<Row>, norm1: seq<Task>, norm2: seq<Task>) {
    && (forall i, j | 0 <= i < j < |rows| :: rows[i].name != rows[j].name)
    && (forall name :: HasRow(rows, name) <==> Lists(norm1, name) || Lists(norm2, name))
    && (forall r | r in rows :: r.time1 == TimeOf(norm1, r.name) && r.time2 == TimeOf(norm2, r.name))
  }

  predicate HasRow(rows: seq<Row>, name: string) {
    exists r :: r in rows && r.name == name
  }

  lemma HasRowAppend(rows: seq<Row>, row: Row)
    ensures forall name :: HasRow(rows + [row], name) <==> HasRow(rows, name) || name == row.name
    ensures !HasRow(rows, row.name) && (forall i, j | 0 <= i < j < |rows| :: rows[i].name != rows[j].name) ==>
              forall i, j | 0 <= i < j < |rows + [row]| :: (rows + [row])[i].name != (rows + [row])[j].name
  {
    assert forall x :: x in rows + [row] <==> x in rows || x == row;
    forall name ensures HasRow(rows + [row], name) <==> HasRow(rows, name) || name == row.name {
      assert row in rows + [row];
    }
    assert forall i | 0 <= i < |rows| :: rows[i] in rows;
  }

  /** The index of a name in a list that has it. */
  function IndexOf(tasks: seq<Task>, name: string): (k: nat)
    requires Lists(tasks, name)
    ensures k < |tasks| && tasks[k].name == name
  {
    if tasks[0].name == name then 0
    else
      assert Lists(tasks[1..], name) by {
        var t :| t in tasks && t.name == name;
        assert t in tasks[1..];
      }
      1 + IndexOf(tasks[1..], name)
  }

  /** Removing a task from a list of distinct names unlists its name, and no other. */
  lemma RemoveAt(tasks: seq<Task>, k: nat)
    requires DistinctNames(tasks) && k < |tasks|
    ensures var rest := tasks[..k] + tasks[k + 1..];
            && DistinctNames(rest)
            && (forall t | t in rest :: t in tasks)
            && forall name :: Lists(rest, name) <==> Lists(tasks, name) && name != tasks[k].name
  {
    var before, after := tasks[..k], tasks[k + 1..];
    var rest := before + after;
    assert forall i | 0 <= i < |rest| :: rest[i] == tasks[if i < k then i else i + 1];
    assert tasks == before + [tasks[k]] + after;
    assert forall t :: t in tasks <==> t in rest || t == tasks[k];
    forall name ensures Lists(rest, name) <==> Lists(tasks, name) && name != tasks[k].name {
      if Lists(rest, name) {
        var t :| t in rest && t.name == name;
        assert t in tasks;
      }
    }
  }

  /** `combine`: the tasks of the first run with their partners, which are taken out of the
      second list, and then what is left of the second. */
  method Combine(data1: seq<Task>, data2: seq<Task>) returns (data: seq<Row>)
    ensures Combines(data, Simplified(data1), Simplified(data2))
  {
    hide TimeOf, Lists, DistinctNames, HasRow;
    ghost var all1, all2 := Simplified(data1), Simplified(data2);
    var norm1 := Normalize(data1);
    var norm2 := Normalize(data2);
    var norm2Names := norm2;
    data := [];
    NoneListed();
    NoRows();
    assert norm1[..0] == [];
    for n := 0 to |norm1|
      invariant DistinctNames(norm2)
      invariant forall t | t in norm2 :: t in norm2Names
      invariant forall name :: Lists(norm2, name) <==> Lists(norm2Names, name) && !Lists(norm1[..n], name)
      invariant forall i, j | 0 <= i < j < |data| :: data[i].name != data[j].name
      invariant forall name :: HasRow(data, name) <==> Lists(norm1[..n], name)
      invariant forall r | r in data :: r.time1 == TimeOf(all1, r.name) && r.time2 == TimeOf(all2, r.name)
    {
      var task := norm1[n];
      ListsNext(norm1, n);
      NotYetListed(norm1, n);
      IsListed(norm1, task);
      if Lists(norm2Names, task.name) {
        var k := IndexOf(norm2, task.name);
        var task2 := norm2[k];
        HasRowAppend(data, Row(task.name, task.time, task2.time));
        data := data + [Row(task.name, task.time, task2.time)];
        RemoveAt(norm2, k);
        norm2 := norm2[..k] + norm2[k + 1..];
      } else {
        UnlistedTakesNoTime(all2, task.name);
        HasRowAppend(data, Row(task.name, task.time, 0));
        data := data + [Row(task.name, task.time, 0)];
      }
    }
    assert norm1[..|norm1|] == norm1 && norm2[..0] == [];
    for n := 0 to |norm2|
      invariant forall i, j | 0 <= i < j < |data| :: data[i].name != data[j].name
      invariant forall name :: HasRow(data, name) <==> Lists(norm1, name) || Lists(norm2[..n], name)
      invariant forall r | r in data :: r.time1 == TimeOf(all1, r.name) && r.time2 == TimeOf(all2, r.name)
    {
      var task := norm2[n];
      ListsNext(norm2, n);
      NotYetListed(norm2, n);
      IsListed(norm2, task);
      UnlistedTakesNoTime(all1, task.name);
      HasRowAppend(data, Row(task.name, 0, task.time));
      data := data + [Row(task.name, 0, task.time)];
    }
    assert norm2[..|norm2|] == norm2;
  }

  lemma NoRows()
    ensures forall name :: !HasRow([], name)
  {
  }

  lemma NotYetListed(tasks: seq<Task>, n: nat)
    requires DistinctNames(tasks) && n < |tasks|
    ensures !Lists(tasks[..n], tasks[n].name)
  {
    assert forall i | 0 <= i < n :: tasks[..n][i] == tasks[i];
  }

  /** Merging conserves time: the two columns add up to the total durations of the two runs. */
  lemma CombiningConservesTime(rows: seq<Row>, data1: seq<Task>, data2: seq<Task>)
    requires Combines(rows, Simplified(data1), Simplified(data2))
    ensures Total(Column1(rows)) == Total(data1)
    ensures Total(Column2(rows)) == Total(data2)
  {
    var norm1, norm2 := Simplified(data1), Simplified(data2);
    ColumnMerges(rows, Column1(rows), norm1, norm2);
    ColumnMerges(rows, Column2(rows), norm2, norm1);
    SimplifyingKeepsTotal(data1);
    SimplifyingKeepsTotal(data2);
  }

  lemma ColumnMerges(rows: seq<Row>, column: seq<Task>, norm: seq<Task>, other: seq<Task>)
    requires |column| == |rows| && forall i | 0 <= i < |rows| :: column[i].name == rows[i].name
    requires forall i, j | 0 <= i < j < |rows| :: rows[i].name != rows[j].name
    requires forall name :: HasRow(rows, name) <==> Lists(norm, name) || Lists(other, name)
    requires forall i | 0 <= i < |column| :: column[i].time == TimeOf(norm, column[i].name)
    ensures Total(column) == Total(norm)
  {
    forall name ensures TimeOf(column, name) == TimeOf(norm, name) && (Lists(norm, name) ==> Lists(column, name)) {
      if HasRow(rows, name) {
        var r :| r in rows && r.name == name;
        var i :| 0 <= i < |rows| && rows[i] == r;
        assert column[i] in column && column[i].name == name;
        TimeOfDistinct(column, column[i]);
      } else {
        assert forall i | 0 <= i < |column| :: rows[i] in rows;
        assert !Lists(column, name);
        UnlistedTakesNoTime(column, name);
        UnlistedTakesNoTime(norm, name);
      }
    }
    SameTimesSameTotal(column, norm);
  }

  lemma {:induction false} SimplifyingKeepsTotal(data: seq<Task>)
    ensures Total(Simplified(data)) == Total(data)
    decreases |data|
  {
    if data == [] {
    } else {
      SimplifyingKeepsTotal(data[..|data| - 1]);
      assert Simplified(data)[..|data| - 1] == Simplified(data[..|data| - 1]);
    }
  }
}
