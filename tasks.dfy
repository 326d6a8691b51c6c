/**
 * The Task Board's list of task records and the pure computations over it:
 * JavaScript's Array.prototype.filter, the completed and pending counts,
 * the four category lists with the list position behind each of their rows,
 * and the list edits the handlers perform (remove one position, flip one
 * task's completion, rename one task).
 */
module Tasks {

  /** A task record as the board stores it. The date is the ISO timestamp
      taken when the task was added. A category of "" stands for a record
      whose category is missing or otherwise falsy. */
  datatype Task = Task(name: string, completed: bool, date: string, category: string)

  /** The four categories the form's select offers; "daily" is the default. */
  const Daily: string := "daily"
  const Weekly: string := "weekly"
  const Monthly: string := "monthly"
  const Common: string := "common"
  const Labels: set<string> := {Daily, Weekly, Monthly, Common}

  // ---------------------------------------------------------------------
  // filter
  // ---------------------------------------------------------------------

  /** `s.filter(p)`: the elements of s that satisfy p, in their order in s. */
  function Filter<T(!new)>(s: seq<T>, p: T -> bool): (r: seq<T>)
    ensures |r| <= |s|
    ensures forall j :: 0 <= j < |r| ==> p(r[j])
  {
    if s == [] then []
    else if p(s[0]) then [s[0]] + Filter(s[1..], p)
    else Filter(s[1..], p)
  }

  /** Unfolds Filter once at the front of a non-empty list. */
  lemma FilterCons<T(!new)>(s: seq<T>, p: T -> bool)
    requires s != []
    ensures Filter(s, p) == (if p(s[0]) then [s[0]] else []) + Filter(s[1..], p)
  {
  }

  /** The filtered list holds exactly the elements of s that satisfy p. */
  lemma {:induction false} FilterMembers<T(!new)>(s: seq<T>, p: T -> bool)
    ensures forall x :: x in Filter(s, p) <==> x in s && p(x)
  {
    if s != [] {
      FilterMembers(s[1..], p);
      FilterCons(s, p);
      assert s == [s[0]] + s[1..];
    }
  }

  /** Filtering a concatenation filters each part. */
  lemma {:induction false} FilterConcat<T(!new)>(a: seq<T>, b: seq<T>, p: T -> bool)
    ensures Filter(a + b, p) == Filter(a, p) + Filter(b, p)
  {
    if a != [] {
      assert (a + b)[0] == a[0];
      assert (a + b)[1..] == a[1..] + b;
      FilterConcat(a[1..], b, p);
      FilterCons(a + b, p);
      FilterCons(a, p);
      var h := if p(a[0]) then [a[0]] else [];
      assert Filter(a + b, p) == h + Filter(a[1..] + b, p);
      assert Filter(a + b, p) == h + (Filter(a[1..], p) + Filter(b, p));
      assert Filter(a, p) == h + Filter(a[1..], p);
    } else {
      assert a + b == b;
    }
  }

  /** Replacing one element changes the number of kept elements by what the
      old and the new element contribute. */
  lemma FilterUpdate<T(!new)>(s: seq<T>, i: nat, x: T, p: T -> bool)
    requires i < |s|
    ensures |Filter(s[i := x], p)|
            == |Filter(s, p)| - (if p(s[i]) then 1 else 0) + (if p(x) then 1 else 0)
  {
    var front, back := s[..i], s[i + 1..];
    assert s == front + [s[i]] + back;
    assert s[i := x] == front + [x] + back;
    FilterConcat(front + [s[i]], back, p);
    FilterConcat(front, [s[i]], p);
    FilterConcat(front + [x], back, p);
    FilterConcat(front, [x], p);
  }

  /** A predicate and its negation split a list: together they keep every
      element once. */
  lemma {:induction false} FilterComplement<T(!new)>(s: seq<T>, p: T -> bool, q: T -> bool)
    requires forall x :: q(x) == !p(x)
    ensures |Filter(s, p)| + |Filter(s, q)| == |s|
  {
    if s != [] {
      FilterComplement(s[1..], p, q);
    }
  }

  /** Two lists of the same length whose elements agree on p at every
      position keep the same number of elements. */
  lemma {:induction false} FilterSameMask<T(!new)>(s: seq<T>, t: seq<T>, p: T -> bool)
    requires |s| == |t|
    requires forall k :: 0 <= k < |s| ==> p(s[k]) == p(t[k])
    ensures |Filter(s, p)| == |Filter(t, p)|
  {
    if s != [] {
      FilterSameMask(s[1..], t[1..], p);
    }
  }

  // ---------------------------------------------------------------------
  // rows and positions
  // ---------------------------------------------------------------------

  /** The list positions behind the rows of `s.filter(p)`. A rendered row
      hands its task object to `tasks.indexOf`, which compares objects by
      identity; every task object occurs in the list once, so the lookup
      yields exactly the position given here. Row j of the filtered list is
      the task at position ks[j], the positions increase down the rows, and
      every position whose task satisfies p has a row. */
  function Positions<T(!new)>(s: seq<T>, p: T -> bool): (ks: seq<nat>)
    ensures |ks| == |Filter(s, p)|
    ensures forall j :: 0 <= j < |ks| ==> ks[j] < |s| && s[ks[j]] == Filter(s, p)[j]
    ensures forall j, j' :: 0 <= j < j' < |ks| ==> ks[j] < ks[j']
    ensures forall k :: 0 <= k < |s| && p(s[k]) ==> k in ks
  {
    var ks := PositionsFrom(s, p, 0);
    PositionsFromLength(s, p, 0);
    assert forall j :: 0 <= j < |ks| ==> ks[j] < |s| && s[ks[j]] == Filter(s, p)[j] by {
      forall j | 0 <= j < |ks| ensures ks[j] < |s| && s[ks[j]] == Filter(s, p)[j] {
        PositionsFromAt(s, p, 0, j);
      }
    }
    assert forall j, j' :: 0 <= j < j' < |ks| ==> ks[j] < ks[j'] by {
      forall j, j' | 0 <= j < j' < |ks| ensures ks[j] < ks[j'] {
        PositionsFromOrdered(s, p, 0, j, j');
      }
    }
    assert forall k :: 0 <= k < |s| && p(s[k]) ==> k in ks by {
      forall k | 0 <= k < |s| && p(s[k]) ensures k in ks {
        PositionsFromHas(s, p, 0, k);
      }
    }
    ks
  }

  /** The positions of the elements of s that satisfy p, counting the first
      element of s as position `base`. */
  function PositionsFrom<T>(s: seq<T>, p: T -> bool, base: nat): seq<nat>
  {
    if s == [] then []
    else (if p(s[0]) then [base] else []) + PositionsFrom(s[1..], p, base + 1)
  }

  lemma {:induction false} PositionsFromLength<T(!new)>(s: seq<T>, p: T -> bool, base: nat)
    ensures |PositionsFrom(s, p, base)| == |Filter(s, p)|
  {
    if s != [] {
      PositionsFromLength(s[1..], p, base + 1);
      FilterCons(s, p);
    }
  }

  lemma {:induction false} PositionsFromAt<T(!new)>(s: seq<T>, p: T -> bool, base: nat, j: nat)
    requires j < |PositionsFrom(s, p, base)|
    ensures base <= PositionsFrom(s, p, base)[j] < base + |s|
    ensures |PositionsFrom(s, p, base)| == |Filter(s, p)|
    ensures s[PositionsFrom(s, p, base)[j] - base] == Filter(s, p)[j]
  {
    PositionsFromLength(s, p, base);
    var rest := PositionsFrom(s[1..], p, base + 1);
    var n := if p(s[0]) then 1 else 0;
    assert PositionsFrom(s, p, base) == (if p(s[0]) then [base] else []) + rest;
    FilterCons(s, p);
    if j >= n {
      PositionsFromLength(s[1..], p, base + 1);
      PositionsFromAt(s[1..], p, base + 1, j - n);
      assert s[1..][rest[j - n] - (base + 1)] == s[rest[j - n] - base];
    }
  }

  lemma {:induction false} PositionsFromOrdered<T>(s: seq<T>, p: T -> bool, base: nat, j: nat, j': nat)
    requires j < j' < |PositionsFrom(s, p, base)|
    ensures PositionsFrom(s, p, base)[j] < PositionsFrom(s, p, base)[j']
  {
    var rest := PositionsFrom(s[1..], p, base + 1);
    var n := if p(s[0]) then 1 else 0;
    assert PositionsFrom(s, p, base) == (if p(s[0]) then [base] else []) + rest;
    if j < n {
      PositionsFromAbove(s[1..], p, base + 1, j' - n);
    } else {
      PositionsFromOrdered(s[1..], p, base + 1, j - n, j' - n);
    }
  }

  lemma {:induction false} PositionsFromAbove<T>(s: seq<T>, p: T -> bool, base: nat, j: nat)
    requires j < |PositionsFrom(s, p, base)|
    ensures base <= PositionsFrom(s, p, base)[j]
  {
    var rest := PositionsFrom(s[1..], p, base + 1);
    var n := if p(s[0]) then 1 else 0;
    assert PositionsFrom(s, p, base) == (if p(s[0]) then [base] else []) + rest;
    if j >= n {
      PositionsFromAbove(s[1..], p, base + 1, j - n);
    }
  }

  lemma {:induction false} PositionsFromHas<T>(s: seq<T>, p: T -> bool, base: nat, k: nat)
    requires base <= k < base + |s| && p(s[k - base])
    ensures k in PositionsFrom(s, p, base)
  {
    var rest := PositionsFrom(s[1..], p, base + 1);
    var head := if p(s[0]) then [base] else [];
    assert PositionsFrom(s, p, base) == head + rest;
    if k == base {
      assert (head + rest)[0] == base;
    } else {
      assert s[1..][k - (base + 1)] == s[k - base];
      PositionsFromHas(s[1..], p, base + 1, k);
    }
  }

  // ---------------------------------------------------------------------
  // completed and pending counts
  // ---------------------------------------------------------------------

  predicate IsCompleted(t: Task) { t.completed }

  predicate IsPending(t: Task) { !t.completed }

  /** `tasks.filter((t) => t.completed).length`: at most the number of tasks,
      and zero exactly when no task is completed. */
  function CompletedCount(s: seq<Task>): (n: nat)
    ensures n <= |s|
    ensures n == 0 <==> forall t :: t in s ==> !t.completed
  {
    var done := Filter(s, IsCompleted);
    FilterMembers(s, IsCompleted);
    assert done != [] ==> done[0] in done;
    |done|
  }

  /** `tasks.length - completedCount`: never negative, and equal to the
      number of tasks that are not completed. */
  function PendingCount(s: seq<Task>): (n: nat)
    ensures n + CompletedCount(s) == |s|
    ensures n == |Filter(s, IsPending)|
  {
    FilterComplement(s, IsCompleted, IsPending);
    |s| - CompletedCount(s)
  }

  // ---------------------------------------------------------------------
  // category lists
  // ---------------------------------------------------------------------

  /** The test `(t) => t.category === c`. */
  function InCategory(c: string): Task -> bool {
    (t: Task) => t.category == c
  }

  /** `tasks.filter((t) => t.category === c)`: exactly the tasks of
      category c, each at the position of its row. */
  function CategoryTasks(s: seq<Task>, c: string): (r: seq<Task>)
    ensures forall t :: t in r <==> t in s && t.category == c
    ensures forall j :: 0 <= j < |r| ==> r[j].category == c
  {
    var r := Filter(s, InCategory(c));
    FilterMembers(s, InCategory(c));
    assert forall j :: 0 <= j < |r| ==> r[j] in r;
    r
  }

  /** The list positions of the rows of category c (see Positions). */
  function CategoryRows(s: seq<Task>, c: string): (ks: seq<nat>)
    ensures |ks| == |CategoryTasks(s, c)|
    ensures forall j :: 0 <= j < |ks| ==> ks[j] < |s| && s[ks[j]] == CategoryTasks(s, c)[j]
    ensures forall j, j' :: 0 <= j < j' < |ks| ==> ks[j] < ks[j']
    ensures forall k :: 0 <= k < |s| ==> (k in ks <==> s[k].category == c)
  {
    var ks := Positions(s, InCategory(c));
    forall k | k in ks ensures k < |s| && s[k].category == c {
      var j :| 0 <= j < |ks| && ks[j] == k;
      assert CategoryTasks(s, c)[j] in CategoryTasks(s, c);
    }
    ks
  }

  /** Every task carries one of the four labels. */
  predicate AllLabelled(s: seq<Task>) {
    forall t :: t in s ==> t.category in Labels
  }

  /** Adding a labelled task keeps every task labelled. */
  lemma AppendKeepsLabels(s: seq<Task>, t: Task)
    requires AllLabelled(s) && t.category in Labels
    ensures AllLabelled(s + [t])
  {
    assert forall x :: x in s + [t] ==> x in s || x == t;
  }

  /** Removing a position keeps every task labelled. */
  lemma RemoveKeepsLabels(s: seq<Task>, index: int)
    requires AllLabelled(s)
    ensures AllLabelled(WithoutIndex(s, index))
  {
    var r := WithoutIndex(s, index);
    forall x | x in r ensures x.category in Labels {
      var j :| 0 <= j < |r| && r[j] == x;
      if 0 <= index < |s| {
        assert x == (if j < index then s[j] else s[j + 1]);
      }
    }
  }

  /** Toggling keeps every task labelled. */
  lemma ToggleKeepsLabels(s: seq<Task>, i: nat)
    requires AllLabelled(s) && i < |s|
    ensures AllLabelled(ToggleAt(s, i))
  {
    forall x | x in ToggleAt(s, i) ensures x.category in Labels {
      var j :| 0 <= j < |s| && ToggleAt(s, i)[j] == x;
      assert j != i ==> x == s[j];
      assert s[i] in s;
    }
  }

  /** Renaming with a labelled category keeps every task labelled. */
  lemma RenameKeepsLabels(s: seq<Task>, i: nat, name: string, c: string)
    requires AllLabelled(s) && i < |s| && c in Labels
    ensures AllLabelled(RenameAt(s, i, name, c))
  {
    forall x | x in RenameAt(s, i, name, c) ensures x.category in Labels {
      var j :| 0 <= j < |s| && RenameAt(s, i, name, c)[j] == x;
      assert j != i ==> x == s[j];
    }
  }

  /** Tasks whose category is none of the four labels; no list shows them. */
  function Unlabelled(s: seq<Task>): (r: seq<Task>)
    ensures forall t :: t in r <==> t in s && t.category !in Labels
  {
    FilterMembers(s, (t: Task) => t.category !in Labels);
    Filter(s, (t: Task) => t.category !in Labels)
  }

  /** The four category lists and the unlabelled tasks together account for
      every task exactly once. */
  lemma {:induction false} CategoryListsCount(s: seq<Task>)
    ensures |CategoryTasks(s, Daily)| + |CategoryTasks(s, Weekly)|
            + |CategoryTasks(s, Monthly)| + |CategoryTasks(s, Common)|
            + |Unlabelled(s)| == |s|
  {
    if s != [] {
      CategoryListsCount(s[1..]);
    }
  }

  /** The sizes of the four category lists add up to the number of tasks
      exactly when every task carries one of the four labels. */
  lemma CategoryListsCover(s: seq<Task>)
    ensures |CategoryTasks(s, Daily)| + |CategoryTasks(s, Weekly)|
            + |CategoryTasks(s, Monthly)| + |CategoryTasks(s, Common)| == |s|
            <==> forall t :: t in s ==> t.category in Labels
  {
    CategoryListsCount(s);
    var u := Unlabelled(s);
    if u != [] {
      assert u[0] in u;
    }
  }

  /** Two different categories never show the same task, and never show
      two rows for the same list position. */
  lemma CategoryListsDisjoint(s: seq<Task>, c: string, c': string)
    requires c != c'
    ensures forall t :: t in CategoryTasks(s, c) ==> t !in CategoryTasks(s, c')
    ensures forall k :: k in CategoryRows(s, c) ==> k !in CategoryRows(s, c')
  {
    var ks, ks' := CategoryRows(s, c), CategoryRows(s, c');
    forall k | k in ks ensures k !in ks' {
      var j :| 0 <= j < |ks| && ks[j] == k;
      assert s[k].category == c;
    }
  }

  /** Adding a task leaves every category list as it was, except that the
      list of the new task's category gains it at its end. */
  lemma CategoryTasksAppend(s: seq<Task>, t: Task, c: string)
    ensures CategoryTasks(s + [t], c)
            == CategoryTasks(s, c) + (if t.category == c then [t] else [])
  {
    FilterConcat(s, [t], InCategory(c));
    assert Filter([t][1..], InCategory(c)) == [];
  }

  // ---------------------------------------------------------------------
  // list edits
  // ---------------------------------------------------------------------

  /** `s.filter((_, i) => i !== index)`: the list without position index, the
      other elements in their order; an index outside the list removes
      nothing. */
  function WithoutIndex<T>(s: seq<T>, index: int): (r: seq<T>)
    ensures 0 <= index < |s| ==> r == s[..index] + s[index + 1..]
    ensures !(0 <= index < |s|) ==> r == s
    decreases |s|
  {
    if s == [] then []
    else
      var rest := WithoutIndex(s[1..], index - 1);
      WithoutIndexStep(s, index, rest);
      (if index == 0 then [] else [s[0]]) + rest
  }

  lemma WithoutIndexStep<T>(s: seq<T>, index: int, rest: seq<T>)
    requires s != []
    requires 0 <= index - 1 < |s| - 1 ==> rest == s[1..][..index - 1] + s[1..][index..]
    requires !(0 <= index - 1 < |s| - 1) ==> rest == s[1..]
    ensures 0 <= index < |s| ==> (if index == 0 then [] else [s[0]]) + rest == s[..index] + s[index + 1..]
    ensures !(0 <= index < |s|) ==> (if index == 0 then [] else [s[0]]) + rest == s
  {
    if index == 0 {
      assert s[..0] + s[1..] == s[1..];
    } else if 0 < index < |s| {
      assert s[..index] == [s[0]] + s[1..][..index - 1];
      assert s[index + 1..] == s[1..][index..];
    } else {
      assert s == [s[0]] + s[1..];
    }
  }

  /** Flipping the completion of the task at i: only that task's completed
      field changes. */
  function ToggleAt(s: seq<Task>, i: nat): (r: seq<Task>)
    requires i < |s|
    ensures |r| == |s|
    ensures r[i].completed == !s[i].completed
    ensures r[i].name == s[i].name && r[i].date == s[i].date && r[i].category == s[i].category
    ensures forall j :: 0 <= j < |s| && j != i ==> r[j] == s[j]
  {
    s[i := s[i].(completed := !s[i].completed)]
  }

  /** Overwriting the name and category of the task at i: completion, date
      and every other task stay as they were. */
  function RenameAt(s: seq<Task>, i: nat, name: string, category: string): (r: seq<Task>)
    requires i < |s|
    ensures |r| == |s|
    ensures r[i].name == name && r[i].category == category
    ensures r[i].completed == s[i].completed && r[i].date == s[i].date
    ensures forall j :: 0 <= j < |s| && j != i ==> r[j] == s[j]
  {
    s[i := s[i].(name := name, category := category)]
  }

  /** Toggling the same task twice gives back the original list. */
  lemma ToggleTwice(s: seq<Task>, i: nat)
    requires i < |s|
    ensures ToggleAt(ToggleAt(s, i), i) == s
  {
  }

  /** Toggling moves exactly one task between completed and pending. */
  lemma ToggleCounts(s: seq<Task>, i: nat)
    requires i < |s|
    ensures CompletedCount(ToggleAt(s, i))
            == if s[i].completed then CompletedCount(s) - 1 else CompletedCount(s) + 1
    ensures PendingCount(ToggleAt(s, i))
            == if s[i].completed then PendingCount(s) + 1 else PendingCount(s) - 1
  {
    FilterUpdate(s, i, s[i].(completed := !s[i].completed), IsCompleted);
  }

  /** Toggling a task keeps every category list's rows at the same positions. */
  lemma ToggleKeepsRows(s: seq<Task>, i: nat, c: string)
    requires i < |s|
    ensures CategoryRows(ToggleAt(s, i), c) == CategoryRows(s, c)
  {
    PositionsSameMask(s, ToggleAt(s, i), InCategory(c), 0);
  }

  /** Positions depend only on which elements satisfy p. */
  lemma {:induction false} PositionsSameMask<T>(s: seq<T>, t: seq<T>, p: T -> bool, base: nat)
    requires |s| == |t|
    requires forall k :: 0 <= k < |s| ==> p(s[k]) == p(t[k])
    ensures PositionsFrom(s, p, base) == PositionsFrom(t, p, base)
  {
    if s != [] {
      assert p(s[0]) == p(t[0]);
      forall k | 0 <= k < |s| - 1 ensures p(s[1..][k]) == p(t[1..][k]) {
        assert s[1..][k] == s[k + 1] && t[1..][k] == t[k + 1];
      }
      PositionsSameMask(s[1..], t[1..], p, base + 1);
    }
  }

  /** Renaming a task changes neither count. */
  lemma RenameCounts(s: seq<Task>, i: nat, name: string, category: string)
    requires i < |s|
    ensures CompletedCount(RenameAt(s, i, name, category)) == CompletedCount(s)
    ensures PendingCount(RenameAt(s, i, name, category)) == PendingCount(s)
  {
    FilterSameMask(s, RenameAt(s, i, name, category), IsCompleted);
  }

  /** Adding a task that is not completed leaves the completed count alone
      and adds one pending task. */
  lemma AppendCounts(s: seq<Task>, t: Task)
    requires !t.completed
    ensures CompletedCount(s + [t]) == CompletedCount(s)
    ensures PendingCount(s + [t]) == PendingCount(s) + 1
  {
    FilterConcat(s, [t], IsCompleted);
    assert Filter([t][1..], IsCompleted) == [];
  }

  /** Removing one element takes it out of the filtered list, if it was in. */
  lemma {:induction false} FilterRemove<T(!new)>(s: seq<T>, i: nat, p: T -> bool)
    requires i < |s|
    ensures |Filter(WithoutIndex(s, i), p)| == |Filter(s, p)| - (if p(s[i]) then 1 else 0)
  {
    FilterCons(s, p);
    var r := WithoutIndex(s, i);
    if i == 0 {
      assert r == s[1..];
    } else {
      var r' := WithoutIndex(s[1..], i - 1);
      FilterRemove(s[1..], i - 1, p);
      assert r == [s[0]] + r';
      assert r[0] == s[0] && r[1..] == r';
      FilterCons(r, p);
    }
  }

  /** Removing a task takes it out of the count it was in. */
  lemma RemoveCounts(s: seq<Task>, i: nat)
    requires i < |s|
    ensures CompletedCount(WithoutIndex(s, i))
            == if s[i].completed then CompletedCount(s) - 1 else CompletedCount(s)
    ensures PendingCount(WithoutIndex(s, i))
            == if s[i].completed then PendingCount(s) else PendingCount(s) - 1
  {
    FilterRemove(s, i, IsCompleted);
    assert |WithoutIndex(s, i)| == |s| - 1;
  }
}
