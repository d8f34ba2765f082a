/**
 * The grouping kernel shared by the two column-count hooks: keep the Column
 * children of a root, sort them by column name, split the sorted list into
 * runs of equal names (itertools.groupby) and collect the runs into a
 * dictionary from column name to its list of columns.
 */
module Grouping {

  /** A child entity returned by the graph walk: a column, or anything else. */
  datatype Entity = Col(column_name: string) | Other

  /** The children that are Column entities. */
  type Column = e: Entity | e.Col? witness Col([])

  /** How many of `childs` are the column named `name`. */
  function Count(childs: seq<Entity>, name: string): nat
  {
    multiset(childs)[Col(name)]
  }

  /** The list comprehension that keeps only the Column children, in order. */
  function Columns(childs: seq<Entity>): (cols: seq<Column>)
    ensures |cols| <= |childs|
    ensures forall name :: Count(cols, name) == Count(childs, name)
  {
    if childs == [] then []
    else
      var rest := Columns(childs[1..]);
      assert childs == [childs[0]] + childs[1..];
      assert multiset(childs) == multiset{childs[0]} + multiset(childs[1..]);
      if childs[0].Col? then
        var cols := [childs[0]] + rest;
        var asEntities: seq<Entity>, restEntities: seq<Entity> := cols, rest;
        assert asEntities == [childs[0]] + restEntities;
        assert multiset(asEntities) == multiset{childs[0]} + multiset(restEntities);
        forall name ensures Count(cols, name) == Count(childs, name) {
          calc {
            Count(cols, name);
            multiset(asEntities)[Col(name)];
            (if childs[0] == Col(name) then 1 else 0) + multiset(restEntities)[Col(name)];
            (if childs[0] == Col(name) then 1 else 0) + Count(childs[1..], name);
            multiset(childs)[Col(name)];
          }
        }
        cols
      else
        rest
  }

  /** The filter keeps order: filtering a concatenation concatenates the filtered parts. */
  lemma {:induction false} ColumnsAppend(a: seq<Entity>, b: seq<Entity>)
    ensures Columns(a + b) == Columns(a) + Columns(b)
  {
    if a == [] {
      assert a + b == b;
    } else {
      assert (a + b)[1..] == a[1..] + b;
      ColumnsAppend(a[1..], b);
    }
  }

  /** A child that is not a Column is dropped wherever it stands. */
  lemma ColumnsDropOther(a: seq<Entity>, b: seq<Entity>)
    ensures Columns(a + [Other] + b) == Columns(a + b)
  {
    ColumnsAppend(a + [Other], b);
    ColumnsAppend(a, [Other]);
    ColumnsAppend(a, b);
    assert Columns([Other]) == [];
  }

  // ---------------------------------------------------------------------------
  // Python's ordering of str: lexicographic on code points.

  /** `a <= b` on Python strings. */
  predicate NameLeq(a: string, b: string)
  {
    a == [] || (b != [] && (a[0] < b[0] || (a[0] == b[0] && NameLeq(a[1..], b[1..]))))
  }

  lemma {:induction false} NameLeqTotal(a: string, b: string)
    ensures NameLeq(a, b) || NameLeq(b, a)
  {
    if a != [] && b != [] && a[0] == b[0] {
      NameLeqTotal(a[1..], b[1..]);
    }
  }

  lemma {:induction false} NameLeqReflexive(a: string)
    ensures NameLeq(a, a)
  {
    if a != [] {
      NameLeqReflexive(a[1..]);
    }
  }

  lemma {:induction false} NameLeqAntisymmetric(a: string, b: string)
    requires NameLeq(a, b) && NameLeq(b, a)
    ensures a == b
  {
    if a != [] {
      NameLeqAntisymmetric(a[1..], b[1..]);
      assert a == [a[0]] + a[1..] && b == [b[0]] + b[1..];
    }
  }

  lemma {:induction false} NameLeqTransitive(a: string, b: string, c: string)
    requires NameLeq(a, b) && NameLeq(b, c)
    ensures NameLeq(a, c)
  {
    if a != [] && a[0] == b[0] && b[0] == c[0] {
      NameLeqTransitive(a[1..], b[1..], c[1..]);
    }
  }

  // ---------------------------------------------------------------------------
  // sorted(columns, key=lambda x: x.column_name)

  predicate SortedByName(s: seq<Column>)
  {
    forall i, j :: 0 <= i < j < |s| ==> NameLeq(s[i].column_name, s[j].column_name)
  }

  lemma SortedTail(s: seq<Column>)
    requires SortedByName(s) && s != []
    ensures SortedByName(s[1..])
  {
    forall i, j | 0 <= i < j < |s| - 1
      ensures NameLeq(s[1..][i].column_name, s[1..][j].column_name)
    {
      assert s[1..][i] == s[i + 1] && s[1..][j] == s[j + 1];
    }
  }

  /** A column whose name is not above the head of a sorted list can be put in front of it. */
  lemma SortedPrepend(x: Column, s: seq<Column>)
    requires SortedByName(s)
    requires s == [] || NameLeq(x.column_name, s[0].column_name)
    ensures SortedByName([x] + s)
  {
    var r := [x] + s;
    forall i, j | 0 <= i < j < |r| ensures NameLeq(r[i].column_name, r[j].column_name) {
      if i == 0 && j > 1 {
        NameLeqTransitive(x.column_name, s[0].column_name, s[j - 1].column_name);
      }
    }
  }

  /** The head of a sorted list stays in front of any sorted arrangement of its tail and one larger column. */
  lemma SortedKeepHead(x: Column, s: seq<Column>, rest: seq<Column>)
    requires SortedByName(s) && s != []
    requires NameLeq(s[0].column_name, x.column_name)
    requires SortedByName(rest) && multiset(rest) == multiset(s[1..]) + multiset{x}
    ensures SortedByName([s[0]] + rest)
  {
    var r := [s[0]] + rest;
    forall i, j | 0 <= i < j < |r| ensures NameLeq(r[i].column_name, r[j].column_name) {
      if i == 0 {
        assert r[j] in multiset(rest);
        assert r[j] == x || r[j] in s[1..];
        if r[j] != x {
          var k :| 0 <= k < |s[1..]| && s[1..][k] == r[j];
          assert s[k + 1] == r[j];
        }
      }
    }
  }

  /** Inserts `x` before the first element whose name is not below its own. */
  function InsertByName(x: Column, s: seq<Column>): (r: seq<Column>)
    requires SortedByName(s)
    ensures SortedByName(r)
    ensures multiset(r) == multiset(s) + multiset{x}
  {
    if s == [] || NameLeq(x.column_name, s[0].column_name) then
      SortedPrepend(x, s);
      [x] + s
    else
      NameLeqTotal(x.column_name, s[0].column_name);
      SortedTail(s);
      var rest := InsertByName(x, s[1..]);
      SortedKeepHead(x, s, rest);
      assert s == [s[0]] + s[1..];
      [s[0]] + rest
  }

  /**
   * A stable sort by column name. Python's `sorted` is stable, and a stable
   * sort has exactly one possible output, so insertion sort yields the same
   * list as the sort the source calls (see SortedPermutationUnique).
   */
  function SortByName(s: seq<Column>): (r: seq<Column>)
    ensures SortedByName(r)
    ensures multiset(r) == multiset(s)
    ensures |r| == |s|
  {
    if s == [] then []
    else
      assert s == [s[0]] + s[1..];
      InsertByName(s[0], SortByName(s[1..]))
  }

  /** In a sorted list, equal names sit next to each other. */
  lemma SortedContiguous(s: seq<Column>, i: int, j: int, k: int)
    requires SortedByName(s)
    requires 0 <= i <= j <= k < |s|
    requires s[i] == s[k]
    ensures s[j] == s[i]
  {
    NameLeqReflexive(s[j].column_name);
    NameLeqReflexive(s[i].column_name);
    NameLeqTransitive(s[j].column_name, s[k].column_name, s[i].column_name);
    NameLeqAntisymmetric(s[i].column_name, s[j].column_name);
  }

  /** Two sorted permutations of one non-empty list start with the same column. */
  lemma SortedPermutationSameHead(s: seq<Column>, t: seq<Column>)
    requires SortedByName(s) && SortedByName(t)
    requires multiset(s) == multiset(t)
    requires s != []
    ensures t != [] && s[0] == t[0]
  {
    assert s[0] in multiset(t);
    var p :| 0 <= p < |t| && t[p] == s[0];
    assert t[0] in multiset(s);
    var q :| 0 <= q < |s| && s[q] == t[0];
    NameLeqReflexive(s[0].column_name);
    NameLeqReflexive(t[0].column_name);
    assert NameLeq(t[0].column_name, s[0].column_name);
    assert NameLeq(s[0].column_name, t[0].column_name);
    NameLeqAntisymmetric(s[0].column_name, t[0].column_name);
  }

  /** Dropping the head of a list removes one occurrence of it from the multiset. */
  lemma TailMultiset(s: seq<Column>)
    requires s != []
    ensures multiset(s[1..]) == multiset(s) - multiset{s[0]}
  {
    assert s == [s[0]] + s[1..];
  }

  /** Two sorted permutations of one list are the same list. */
  lemma {:induction false} SortedPermutationUnique(s: seq<Column>, t: seq<Column>)
    requires SortedByName(s) && SortedByName(t)
    requires multiset(s) == multiset(t)
    ensures s == t
  {
    if s == [] {
      assert |t| == |multiset(t)| == 0;
    } else {
      SortedPermutationSameHead(s, t);
      TailMultiset(s);
      TailMultiset(t);
      SortedTail(s);
      SortedTail(t);
      SortedPermutationUnique(s[1..], t[1..]);
      assert s == [s[0]] + s[1..] && t == [t[0]] + t[1..];
    }
  }

  // ---------------------------------------------------------------------------
  // itertools.groupby(sorted_columns, lambda x: x.column_name)

  /** One group yielded by groupby: a key and the consecutive members sharing it. */
  datatype Run = Run(key: string, members: seq<Column>)

  predicate UniformRun(r: Run)
  {
    |r.members| > 0 && forall j :: 0 <= j < |r.members| ==> r.members[j] == Col(r.key)
  }

  predicate DistinctKeys(runs: seq<Run>)
  {
    forall i, j :: 0 <= i < j < |runs| ==> runs[i].key != runs[j].key
  }

  /** The runs laid end to end. */
  function Flatten(runs: seq<Run>): seq<Column>
  {
    if runs == [] then [] else runs[0].members + Flatten(runs[1..])
  }

  /** Splits `s` into maximal runs of consecutive equal column names. */
  function GroupRuns(s: seq<Column>): seq<Run>
  {
    if s == [] then []
    else
      var rest := GroupRuns(s[1..]);
      if rest != [] && rest[0].key == s[0].column_name then
        [Run(s[0].column_name, [s[0]] + rest[0].members)] + rest[1..]
      else
        [Run(s[0].column_name, [s[0]])] + rest
  }

  /** groupby's runs put back together give the list it was given. */
  lemma {:induction false} GroupRunsFlatten(s: seq<Column>)
    ensures Flatten(GroupRuns(s)) == s
    ensures s != [] ==> GroupRuns(s) != [] && GroupRuns(s)[0].key == s[0].column_name
  {
    if s != [] {
      var rest := GroupRuns(s[1..]);
      GroupRunsFlatten(s[1..]);
      var runs := GroupRuns(s);
      assert s == [s[0]] + s[1..];
      if rest != [] && rest[0].key == s[0].column_name {
        assert runs[1..] == rest[1..];
        assert Flatten(rest) == rest[0].members + Flatten(rest[1..]);
      } else {
        assert runs[1..] == rest;
      }
    }
  }

  /** Runs that are each a non-empty block of one column, neighbours differing in key. */
  predicate WellShaped(runs: seq<Run>)
  {
    && (forall i :: 0 <= i < |runs| ==> UniformRun(runs[i]))
    && (forall i :: 0 <= i < |runs| - 1 ==> runs[i].key != runs[i + 1].key)
  }

  lemma ConsShape(x: Column, rest: seq<Run>)
    requires WellShaped(rest)
    requires rest == [] || rest[0].key != x.column_name
    ensures WellShaped([Run(x.column_name, [x])] + rest)
  {
    var runs := [Run(x.column_name, [x])] + rest;
    assert forall i :: 1 <= i < |runs| ==> runs[i] == rest[i - 1];
  }

  lemma MergeShape(x: Column, rest: seq<Run>)
    requires WellShaped(rest)
    requires rest != [] && rest[0].key == x.column_name
    ensures WellShaped([Run(x.column_name, [x] + rest[0].members)] + rest[1..])
  {
    var merged := Run(x.column_name, [x] + rest[0].members);
    var runs := [merged] + rest[1..];
    assert forall i :: 1 <= i < |runs| ==> runs[i] == rest[i];
    assert forall j :: 1 <= j < |merged.members| ==> merged.members[j] == rest[0].members[j - 1];
  }

  /** groupby yields well-shaped runs. */
  lemma {:induction false} GroupRunsShape(s: seq<Column>)
    ensures WellShaped(GroupRuns(s))
  {
    if s != [] {
      GroupRunsShape(s[1..]);
      var rest := GroupRuns(s[1..]);
      if rest != [] && rest[0].key == s[0].column_name {
        MergeShape(s[0], rest);
      } else {
        ConsShape(s[0], rest);
      }
    }
  }

  /** Every key groupby yields is the name of a column of the list. */
  lemma {:induction false} GroupRunsKeys(s: seq<Column>)
    ensures forall i :: 0 <= i < |GroupRuns(s)| ==> Col(GroupRuns(s)[i].key) in multiset(s)
  {
    if s != [] {
      GroupRunsKeys(s[1..]);
      var rest, runs := GroupRuns(s[1..]), GroupRuns(s);
      assert s == [s[0]] + s[1..];
      assert multiset(s) == multiset{s[0]} + multiset(s[1..]);
      if rest != [] && rest[0].key == s[0].column_name {
        assert forall i :: 1 <= i < |runs| ==> runs[i] == rest[i];
      } else {
        assert forall i :: 1 <= i < |runs| ==> runs[i] == rest[i - 1];
      }
    }
  }

  /** In a sorted list whose first two names differ, the first name does not recur. */
  lemma SortedHeadNotInTail(s: seq<Column>)
    requires SortedByName(s) && |s| >= 2 && s[1] != s[0]
    ensures s[0] !in multiset(s[1..])
  {
    forall p | 1 <= p < |s| ensures s[p] != s[0] {
      if s[p] == s[0] {
        SortedContiguous(s, 0, 1, p);
      }
    }
    assert forall c :: c in s[1..] ==> c != s[0];
  }

  lemma ConsDistinct(x: Column, rest: seq<Run>, tail: seq<Column>)
    requires DistinctKeys(rest)
    requires forall i :: 0 <= i < |rest| ==> Col(rest[i].key) in multiset(tail)
    requires x !in multiset(tail)
    ensures DistinctKeys([Run(x.column_name, [x])] + rest)
  {
    var runs := [Run(x.column_name, [x])] + rest;
    assert forall i :: 1 <= i < |runs| ==> runs[i] == rest[i - 1];
  }

  lemma MergeDistinct(x: Column, rest: seq<Run>)
    requires DistinctKeys(rest)
    requires rest != [] && rest[0].key == x.column_name
    ensures DistinctKeys([Run(x.column_name, [x] + rest[0].members)] + rest[1..])
  {
    var runs := [Run(x.column_name, [x] + rest[0].members)] + rest[1..];
    assert forall i :: 0 <= i < |runs| ==> runs[i].key == rest[i].key;
  }

  /** Grouping a sorted list never yields the same key twice. */
  lemma {:induction false} SortedRunsHaveDistinctKeys(s: seq<Column>)
    requires SortedByName(s)
    ensures DistinctKeys(GroupRuns(s))
  {
    if s != [] {
      var rest := GroupRuns(s[1..]);
      SortedTail(s);
      SortedRunsHaveDistinctKeys(s[1..]);
      if rest != [] && rest[0].key == s[0].column_name {
        MergeDistinct(s[0], rest);
      } else {
        GroupRunsFlatten(s[1..]);
        GroupRunsKeys(s[1..]);
        if |s| >= 2 {
          assert s[1..][0] == s[1];
          SortedHeadNotInTail(s);
        }
        ConsDistinct(s[0], rest, s[1..]);
      }
    }
  }

  // ---------------------------------------------------------------------------
  // {key: list(value) for key, value in grouped}

  /** The dict comprehension: runs inserted left to right, a later key overwriting. */
  function ToDict(runs: seq<Run>): (d: map<string, seq<Column>>)
    ensures forall k :: k in d <==> exists i :: 0 <= i < |runs| && runs[i].key == k
  {
    if runs == [] then map[]
    else
      var last := runs[|runs| - 1];
      var d := ToDict(runs[..|runs| - 1])[last.key := last.members];
      assert forall i :: 0 <= i < |runs| - 1 ==> runs[..|runs| - 1][i] == runs[i];
      d
  }

  /** Sum of the group sizes of `d`. */
  ghost function TotalSize(d: map<string, seq<Column>>): nat
    decreases |d|
  {
    if d == map[] then 0
    else
      var k := SomeKey(d);
      |d[k]| + TotalSize(d - {k})
  }

  ghost function SomeKey(d: map<string, seq<Column>>): (k: string)
    requires d != map[]
    ensures k in d
  {
    var k :| k in d; k
  }

  lemma {:induction false} TotalSizeRemove(d: map<string, seq<Column>>, k: string)
    requires k in d
    ensures TotalSize(d) == |d[k]| + TotalSize(d - {k})
    decreases |d|
  {
    var j := SomeKey(d);
    if j != k {
      assert (d - {j})[k] == d[k] && (d - {k})[j] == d[j];
      TotalSizeRemove(d - {j}, k);
      TotalSizeRemove(d - {k}, j);
      assert d - {j} - {k} == d - {k} - {j};
    }
  }

  lemma {:induction false} FlattenSnoc(runs: seq<Run>)
    requires runs != []
    ensures Flatten(runs) == Flatten(runs[..|runs| - 1]) + runs[|runs| - 1].members
  {
    if |runs| > 1 {
      FlattenSnoc(runs[1..]);
      assert runs[1..][..|runs[1..]| - 1] == runs[..|runs| - 1][1..];
    }
  }

  lemma {:induction false} UniformRunCount(r: Run, name: string)
    requires forall j :: 0 <= j < |r.members| ==> r.members[j] == Col(r.key)
    ensures multiset(r.members)[Col(name)] == if name == r.key then |r.members| else 0
    decreases |r.members|
  {
    if r.members != [] {
      var tail := Run(r.key, r.members[1..]);
      assert forall j :: 0 <= j < |tail.members| ==> tail.members[j] == r.members[j + 1];
      UniformRunCount(tail, name);
      assert r.members == [r.members[0]] + tail.members;
      assert multiset(r.members) == multiset{r.members[0]} + multiset(tail.members);
    }
  }

  /** Occurrences of the column `name` across all runs. */
  function RunsCount(runs: seq<Run>, name: string): nat
  {
    multiset(Flatten(runs))[Col(name)]
  }

  /** Dropping the last run keeps the other keys distinct and removes that key from the dict. */
  lemma DistinctInit(runs: seq<Run>)
    requires DistinctKeys(runs) && runs != []
    ensures DistinctKeys(runs[..|runs| - 1])
    ensures runs[|runs| - 1].key !in ToDict(runs[..|runs| - 1])
  {
    var init := runs[..|runs| - 1];
    assert forall i :: 0 <= i < |init| ==> init[i] == runs[i];
  }

  /**
   * For runs with pairwise distinct keys, the dict holds each run under its
   * key, so every key maps to exactly the columns of that name.
   */
  lemma {:induction false} ToDictLaw(runs: seq<Run>)
    requires DistinctKeys(runs)
    requires forall i :: 0 <= i < |runs| ==> UniformRun(runs[i])
    ensures forall k :: k !in ToDict(runs) ==> RunsCount(runs, k) == 0
    ensures forall k :: k in ToDict(runs) ==> UniformRun(Run(k, ToDict(runs)[k]))
    ensures forall k :: k in ToDict(runs) ==> |ToDict(runs)[k]| == RunsCount(runs, k)
  {
    if runs != [] {
      var init, last := runs[..|runs| - 1], runs[|runs| - 1];
      DistinctInit(runs);
      assert forall i :: 0 <= i < |init| ==> init[i] == runs[i];
      ToDictLaw(init);
      FlattenSnoc(runs);
      assert multiset(Flatten(runs)) == multiset(Flatten(init)) + multiset(last.members);
      forall k
        ensures RunsCount(runs, k) == RunsCount(init, k) + (if k == last.key then |last.members| else 0)
      {
        UniformRunCount(last, k);
      }
    }
  }

  /** For runs with pairwise distinct keys, the dict's group sizes add up to all the columns. */
  lemma {:induction false} ToDictTotal(runs: seq<Run>)
    requires DistinctKeys(runs)
    ensures TotalSize(ToDict(runs)) == |Flatten(runs)|
  {
    if runs == [] {
      assert ToDict(runs) == map[];
    } else {
      var init, last := runs[..|runs| - 1], runs[|runs| - 1];
      DistinctInit(runs);
      ToDictTotal(init);
      FlattenSnoc(runs);
      var d0, d := ToDict(init), ToDict(runs);
      assert d - {last.key} == d0;
      TotalSizeRemove(d, last.key);
    }
  }

  /** column_dict: sort by name, split into runs of equal names, collect into a dict. */
  function GroupByName(cols: seq<Column>): map<string, seq<Column>>
  {
    ToDict(GroupRuns(SortByName(cols)))
  }

  /**
   * The grouping law. Each key of the dict is the name of a column that
   * occurs in the list, every group is non-empty, each group holds exactly
   * the columns of its name, and the group sizes add up to the number of
   * columns.
   */
  lemma {:induction false} GroupByNameLaw(cols: seq<Column>)
    ensures forall k :: k in GroupByName(cols) <==> Count(cols, k) > 0
    ensures forall k :: k in GroupByName(cols) ==> |GroupByName(cols)[k]| == Count(cols, k)
    ensures forall k :: k in GroupByName(cols) ==> UniformRun(Run(k, GroupByName(cols)[k]))
    ensures TotalSize(GroupByName(cols)) == |cols|
  {
    var sorted := SortByName(cols);
    var runs := GroupRuns(sorted);
    GroupRunsFlatten(sorted);
    GroupRunsShape(sorted);
    SortedRunsHaveDistinctKeys(sorted);
    ToDictLaw(runs);
    ToDictTotal(runs);
    assert forall k :: RunsCount(runs, k) == Count(cols, k);
  }

  /** The grouping depends only on which columns occur, not on their order. */
  lemma GroupByNameOrderFree(cols: seq<Column>, other: seq<Column>)
    requires multiset(cols) == multiset(other)
    ensures GroupByName(cols) == GroupByName(other)
  {
    SortedPermutationUnique(SortByName(cols), SortByName(other));
  }

  /** What the hooks read from a group: `len(column_dict.get(name, []))`. */
  function GroupSize(d: map<string, seq<Column>>, name: string): nat
  {
    if name in d then |d[name]| else 0
  }

  /** For the groups built from a root's children, the size read back is the occurrence count. */
  lemma {:induction false} GroupSizeOfChildren(childs: seq<Entity>, name: string)
    ensures GroupSize(GroupByName(Columns(childs)), name) == Count(childs, name)
    ensures name in GroupByName(Columns(childs)) <==> Col(name) in childs
  {
    var cols := Columns(childs);
    GroupByNameLaw(cols);
    assert Count(cols, name) == Count(childs, name);
  }
}
