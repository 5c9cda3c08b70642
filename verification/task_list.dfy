/** The task records of the recent-tasks component and the pure list operations
    its handlers perform: the status flip (`map`), the search for the deleted
    record (`findIndex`), its removal (`filter`) and its reinsertion (`splice`). */
module TaskList {

  /** One task record. Every field is a string in the component, including
      `status` and `recurring`, which the seed data fills with fixed words. */
  datatype Task = Task(
    id: string,
    title: string,
    assignee: string,
    dueDate: string,
    status: string,
    recurring: string)

  const Completed: string := "completed"
  const Pending: string := "pending"

  /** A status the toggle flips back and forth. */
  predicate KnownStatus(s: string) {
    s == Completed || s == Pending
  }

  /** True when some record of `list` has identifier `id`. */
  predicate HasId(list: seq<Task>, id: string) {
    exists i :: 0 <= i < |list| && list[i].id == id
  }

  /** No two records share an identifier. */
  predicate UniqueIds(list: seq<Task>) {
    forall i, j :: 0 <= i < j < |list| ==> list[i].id != list[j].id
  }

  /** The five records the component starts with: ids "1" to "5", in that
      order, all distinct. */
  function SeedTasks(): (r: seq<Task>)
    ensures |r| == 5 && UniqueIds(r)
    ensures r[0].id == "1" && r[1].id == "2" && r[2].id == "3" && r[3].id == "4" && r[4].id == "5"
  {
    [
      Task("1", "Take out the trash", "Dad", "2023-05-15", "completed", "weekly"),
      Task("2", "Do the dishes", "Emma", "2023-05-14", "pending", "daily"),
      Task("3", "Vacuum living room", "Mom", "2023-05-16", "pending", "weekly"),
      Task("4", "Mow the lawn", "Dad", "2023-05-20", "pending", "biweekly"),
      Task("5", "Clean bedroom", "Jack", "2023-05-13", "completed", "weekly")
    ]
  }

  // ---------------------------------------------------------------------------
  // Toggling the status

  /** The status a toggle gives: "completed" becomes "pending", anything else
      becomes "completed". */
  function NextStatus(s: string): (r: string)
    ensures KnownStatus(r)
  {
    if s == Completed then Pending else Completed
  }

  /** The list with the status of every record whose id is `id` flipped. */
  function ToggleStatus(list: seq<Task>, id: string): (r: seq<Task>)
    ensures |r| == |list|
    ensures forall i :: 0 <= i < |list| && list[i].id == id ==>
      r[i].status == NextStatus(list[i].status)
    ensures forall i :: 0 <= i < |list| ==> r[i].(status := list[i].status) == list[i]
    ensures forall i :: 0 <= i < |list| && list[i].id != id ==> r[i] == list[i]
  {
    if list == [] then []
    else
      var t := list[0];
      [if t.id == id then t.(status := NextStatus(t.status)) else t] + ToggleStatus(list[1..], id)
  }

  /** Flipping a known status twice gives it back. */
  lemma NextStatusInvolution(s: string)
    requires KnownStatus(s)
    ensures NextStatus(NextStatus(s)) == s
  {
  }

  /** Toggling the same id twice restores the list when every status is one the
      toggle knows. */
  lemma ToggleTwice(list: seq<Task>, id: string)
    requires forall i :: 0 <= i < |list| ==> KnownStatus(list[i].status)
    ensures ToggleStatus(ToggleStatus(list, id), id) == list
  {
    var once := ToggleStatus(list, id);
    var twice := ToggleStatus(once, id);
    forall i | 0 <= i < |list|
      ensures twice[i] == list[i]
    {
      if list[i].id == id {
        NextStatusInvolution(list[i].status);
      }
    }
  }

  /** Toggling an id no record has changes nothing. */
  lemma ToggleAbsent(list: seq<Task>, id: string)
    requires !HasId(list, id)
    ensures ToggleStatus(list, id) == list
  {
  }

  // ---------------------------------------------------------------------------
  // Finding, removing and reinserting a record

  /** The position of the first record whose id is `id`, or -1 when there is none. */
  function FindIndex(list: seq<Task>, id: string): (k: int)
    ensures -1 <= k < |list|
    ensures k == -1 <==> !HasId(list, id)
    ensures 0 <= k ==> list[k].id == id && forall j :: 0 <= j < k ==> list[j].id != id
  {
    if list == [] then -1
    else if list[0].id == id then 0
    else
      var k := FindIndex(list[1..], id);
      assert forall i :: 0 <= i < |list[1..]| ==> list[1..][i] == list[i + 1];
      if k == -1 then -1 else k + 1
  }

  /** How many records have identifier `id`. */
  function Occurrences(list: seq<Task>, id: string): (n: nat)
    ensures n <= |list|
    ensures n == 0 <==> !HasId(list, id)
  {
    if list == [] then 0
    else
      var rest := Occurrences(list[1..], id);
      assert forall i :: 0 <= i < |list[1..]| ==> list[1..][i] == list[i + 1];
      (if list[0].id == id then 1 else 0) + rest
  }

  /** The list without the records whose id is `id` (the `filter` of deleteTask). */
  function RemoveTask(list: seq<Task>, id: string): (r: seq<Task>)
    ensures |r| == |list| - Occurrences(list, id)
    ensures !HasId(r, id)
  {
    if list == [] then []
    else (if list[0].id == id then [] else [list[0]]) + RemoveTask(list[1..], id)
  }

  /** The position at which `splice` inserts: `start`, clamped to the length. */
  function SpliceIndex(list: seq<Task>, start: nat): (k: nat)
    ensures k <= |list|
    ensures k == start || (start > |list| && k == |list|)
  {
    if start <= |list| then start else |list|
  }

  /** The list with `t` inserted at `start`, or appended when `start` lies past
      the end (`splice(start, 0, t)` on a copy). */
  function Splice(list: seq<Task>, start: nat, t: Task): (r: seq<Task>)
    ensures |r| == |list| + 1
    ensures r[SpliceIndex(list, start)] == t
    ensures r[..SpliceIndex(list, start)] + r[SpliceIndex(list, start) + 1..] == list
  {
    var k := SpliceIndex(list, start);
    var r := list[..k] + [t] + list[k..];
    assert r[..k] == list[..k] && r[k + 1..] == list[k..];
    r
  }

  /** Splicing at the boundary of two pieces puts the record between them. */
  lemma SpliceBetween(a: seq<Task>, b: seq<Task>, t: Task)
    ensures Splice(a + b, |a|, t) == a + [t] + b
  {
    assert (a + b)[..|a|] == a && (a + b)[|a|..] == b;
  }

  // ---------------------------------------------------------------------------
  // Lemmas about removal

  /** A record survives removal exactly when it was in the list and has another id. */
  lemma {:induction false} RemoveKeeps(list: seq<Task>, id: string, t: Task)
    ensures t in RemoveTask(list, id) <==> t in list && t.id != id
  {
    if list != [] {
      RemoveKeeps(list[1..], id, t);
      assert list == [list[0]] + list[1..];
    }
  }

  /** Counting distributes over concatenation. */
  lemma {:induction false} OccurrencesConcat(a: seq<Task>, b: seq<Task>, id: string)
    ensures Occurrences(a + b, id) == Occurrences(a, id) + Occurrences(b, id)
  {
    if a != [] {
      assert (a + b)[1..] == a[1..] + b;
      OccurrencesConcat(a[1..], b, id);
    } else {
      assert a + b == b;
    }
  }

  /** Removal distributes over concatenation, so the records that stay keep
      their relative order. */
  lemma {:induction false} RemoveConcat(a: seq<Task>, b: seq<Task>, id: string)
    ensures RemoveTask(a + b, id) == RemoveTask(a, id) + RemoveTask(b, id)
  {
    if a == [] {
      assert a + b == b;
    } else {
      assert (a + b)[0] == a[0];
      assert (a + b)[1..] == a[1..] + b;
      RemoveConcat(a[1..], b, id);
    }
  }

  /** Removing an id no record has leaves the list as it is. */
  lemma {:induction false} RemoveAbsent(list: seq<Task>, id: string)
    requires !HasId(list, id)
    ensures RemoveTask(list, id) == list
  {
    if list != [] {
      assert !HasId(list[1..], id) by {
        forall i | 0 <= i < |list[1..]| ensures list[1..][i].id != id {
          assert list[1..][i] == list[i + 1];
        }
      }
      RemoveAbsent(list[1..], id);
      assert list[0].id != id;
      assert list == [list[0]] + list[1..];
    }
  }

  /** Removing the id of the one record between two pieces that lack it
      leaves the two pieces joined. */
  lemma RemoveSingle(before: seq<Task>, t: Task, after: seq<Task>, id: string)
    requires !HasId(before, id) && !HasId(after, id) && t.id == id
    ensures RemoveTask(before + [t] + after, id) == before + after
  {
    RemoveThree(before, [t], after, id);
    RemoveAbsent(before, id);
    RemoveAbsent(after, id);
    RemoveMatching(t, id);
    assert RemoveTask(before + [t] + after, id) == before + [] + after;
    assert before + [] == before;
  }

  /** Removal of three joined pieces is the join of the three removals. */
  lemma RemoveThree(a: seq<Task>, b: seq<Task>, c: seq<Task>, id: string)
    ensures RemoveTask(a + b + c, id) == RemoveTask(a, id) + RemoveTask(b, id) + RemoveTask(c, id)
  {
    RemoveConcat(a + b, c, id);
    RemoveConcat(a, b, id);
  }

  /** A lone record with the id is removed. */
  lemma RemoveMatching(t: Task, id: string)
    requires t.id == id
    ensures RemoveTask([t], id) == []
  {
    assert [t][1..] == [];
  }

  /** A list is the records before position `k`, the record at `k` and the
      records after it. */
  lemma SplitAt(list: seq<Task>, k: nat)
    requires k < |list|
    ensures list == list[..k] + [list[k]] + list[k + 1..]
  {
  }

  /** When exactly one record has the id, removal cuts out the position
      `findIndex` reports and nothing else. */
  lemma RemoveAtIndex(list: seq<Task>, id: string)
    requires Occurrences(list, id) == 1
    ensures var k := FindIndex(list, id);
      0 <= k && RemoveTask(list, id) == list[..k] + list[k + 1..]
  {
    var k := FindIndex(list, id);
    var before, after := list[..k], list[k + 1..];
    SplitAt(list, k);
    assert !HasId(before, id) by {
      assert forall i :: 0 <= i < |before| ==> before[i] == list[i];
    }
    assert !HasId(after, id) by {
      assert Occurrences([list[k]], id) == 1 by {
        assert [list[k]][1..] == [];
      }
      OccurrencesConcat(before + [list[k]], after, id);
      OccurrencesConcat(before, [list[k]], id);
    }
    RemoveSingle(before, list[k], after, id);
  }

  /** Toggling keeps every id, so unique ids stay unique. */
  lemma ToggleKeepsUnique(list: seq<Task>, id: string)
    requires UniqueIds(list)
    ensures UniqueIds(ToggleStatus(list, id))
  {
  }

  /** Removal keeps unique ids unique. */
  lemma {:induction false} RemoveKeepsUnique(list: seq<Task>, id: string)
    requires UniqueIds(list)
    ensures UniqueIds(RemoveTask(list, id))
  {
    if list != [] {
      var tail := list[1..];
      assert forall i :: 0 <= i < |tail| ==> tail[i] == list[i + 1];
      RemoveKeepsUnique(tail, id);
      var rest := RemoveTask(tail, id);
      if list[0].id != id {
        forall j | 0 <= j < |rest|
          ensures rest[j].id != list[0].id
        {
          RemoveKeeps(tail, id, rest[j]);
          var m :| 0 <= m < |tail| && tail[m] == rest[j];
        }
        var r := [list[0]] + rest;
        forall i, j | 0 <= i < j < |r|
          ensures r[i].id != r[j].id
        {
          assert r[j] == rest[j - 1];
          if i > 0 {
            assert r[i] == rest[i - 1];
          }
        }
      }
    }
  }

  /** Reinserting a record whose id is absent keeps unique ids unique: the
      undo that follows a delete of a unique id. */
  lemma SpliceKeepsUnique(list: seq<Task>, start: nat, t: Task)
    requires UniqueIds(list) && !HasId(list, t.id)
    ensures UniqueIds(Splice(list, start, t))
  {
    var k := SpliceIndex(list, start);
    var r := Splice(list, start, t);
    assert r == list[..k] + [t] + list[k..];
    forall i, j | 0 <= i < j < |r|
      ensures r[i].id != r[j].id
    {
      if i < k && j < k {
        assert r[i] == list[i] && r[j] == list[j];
      } else if i < k && j == k {
        assert r[i] == list[i];
      } else if i < k {
        assert r[i] == list[i] && r[j] == list[j - 1];
      } else if i == k {
        assert r[j] == list[j - 1];
      } else {
        assert r[i] == list[i - 1] && r[j] == list[j - 1];
      }
    }
  }

  /** With unique ids, a present id occurs exactly once. */
  lemma UniqueOccursOnce(list: seq<Task>, id: string)
    requires UniqueIds(list) && HasId(list, id)
    ensures Occurrences(list, id) == 1
  {
    var k := FindIndex(list, id);
    var before, after := list[..k], list[k + 1..];
    assert Occurrences(before, id) == 0 by {
      assert forall i :: 0 <= i < |before| ==> before[i] == list[i];
    }
    assert Occurrences(after, id) == 0 by {
      forall i | 0 <= i < |after| ensures after[i].id != id {
        assert after[i] == list[k + 1 + i];
      }
    }
    assert Occurrences([list[k]], id) == 1 by {
      assert [list[k]][1..] == [];
    }
    assert Occurrences(list, id) == Occurrences(before + [list[k]] + after, id) by {
      SplitAt(list, k);
    }
    OccurrencesConcat(before + [list[k]], after, id);
    OccurrencesConcat(before, [list[k]], id);
  }

  /** Removing one id does not change how often another id occurs. */
  lemma {:induction false} OccurrencesRemoveOther(list: seq<Task>, a: string, b: string)
    requires a != b
    ensures Occurrences(RemoveTask(list, a), b) == Occurrences(list, b)
  {
    if list != [] {
      OccurrencesRemoveOther(list[1..], a, b);
      var head := if list[0].id == a then [] else [list[0]];
      OccurrencesConcat(head, RemoveTask(list[1..], a), b);
      if head != [] {
        assert head[1..] == [];
      }
    }
  }

  // ---------------------------------------------------------------------------
  // Delete followed by undo

  /** Undo right after delete reinserts the snapshot at the remembered index;
      this gives back the original list exactly when one record had the id
      (`filter` drops every copy, `splice` puts back one). */
  lemma UndoRestoresIff(list: seq<Task>, id: string)
    requires HasId(list, id)
    ensures var k := FindIndex(list, id);
      0 <= k && (Splice(RemoveTask(list, id), k, list[k]) == list <==> Occurrences(list, id) == 1)
  {
    var k := FindIndex(list, id);
    var restored := Splice(RemoveTask(list, id), k, list[k]);
    if Occurrences(list, id) == 1 {
      assert RemoveTask(list, id) == list[..k] + list[k + 1..] by {
        RemoveAtIndex(list, id);
      }
      assert restored == list[..k] + [list[k]] + list[k + 1..] by {
        SpliceBetween(list[..k], list[k + 1..], list[k]);
      }
      SplitAt(list, k);
    } else {
      assert |restored| != |list|;
    }
  }

  /** With unique ids, delete then undo is the identity. */
  lemma DeleteUndoRoundTrip(list: seq<Task>, id: string)
    requires UniqueIds(list) && HasId(list, id)
    ensures var k := FindIndex(list, id);
      0 <= k && Splice(RemoveTask(list, id), k, list[k]) == list
  {
    UniqueOccursOnce(list, id);
    UndoRestoresIff(list, id);
  }

  /** Deleting `a`, then deleting `b`, then undoing only the deletion of `b`
      puts `b` back where it was in the list it was deleted from, while `a`
      stays gone. */
  lemma UndoSecondOfTwo(list: seq<Task>, a: string, b: string)
    requires UniqueIds(list) && a != b
    requires HasId(list, b)
    ensures var afterA := RemoveTask(list, a);
      var kb := FindIndex(afterA, b);
      0 <= kb && afterA[kb] == list[FindIndex(list, b)] &&
      Splice(RemoveTask(afterA, b), kb, afterA[kb]) == afterA &&
      !HasId(afterA, a)
  {
    var afterA := RemoveTask(list, a);
    UniqueOccursOnce(list, b);
    OccurrencesRemoveOther(list, a, b);
    UndoRestoresIff(afterA, b);
    var kb := FindIndex(afterA, b);
    var k := FindIndex(list, b);
    RemoveKeeps(list, a, afterA[kb]);
    var j :| 0 <= j < |list| && list[j] == afterA[kb];
    assert j == k;
  }

  /** Reinsertion adds exactly one record with the snapshot's id. */
  lemma SpliceOccurrences(list: seq<Task>, start: nat, t: Task)
    ensures Occurrences(Splice(list, start, t), t.id) == Occurrences(list, t.id) + 1
  {
    var k := SpliceIndex(list, start);
    assert list == list[..k] + list[k..];
    OccurrencesConcat(list[..k], list[k..], t.id);
    OccurrencesConcat(list[..k] + [t], list[k..], t.id);
    OccurrencesConcat(list[..k], [t], t.id);
    assert Occurrences([t], t.id) == 1 by {
      assert [t][1..] == [];
    }
  }

  /** Nothing guards against a second Undo of the same deletion: it inserts
      the snapshot again, so its id then occurs twice more than before. */
  lemma SecondUndoDuplicates(list: seq<Task>, start: nat, t: Task)
    ensures var twice := Splice(Splice(list, start, t), start, t);
      Occurrences(twice, t.id) == Occurrences(list, t.id) + 2 && !UniqueIds(twice)
  {
    SpliceOccurrences(list, start, t);
    SpliceOccurrences(Splice(list, start, t), start, t);
    var twice := Splice(Splice(list, start, t), start, t);
    if UniqueIds(twice) {
      UniqueOccursOnce(twice, t.id);
    }
  }

  /** The worked example on the seed data: deleting "2" removes the record at
      index 1 and undoing puts it back. */
  lemma SeedDeleteUndo()
    ensures UniqueIds(SeedTasks())
    ensures FindIndex(SeedTasks(), "2") == 1
    ensures var s := SeedTasks();
      RemoveTask(s, "2") == [s[0], s[2], s[3], s[4]] &&
      Splice(RemoveTask(s, "2"), 1, s[1]) == s
  {
    var s := SeedTasks();
    assert s[1].id == "2";
    UniqueOccursOnce(s, "2");
    RemoveAtIndex(s, "2");
    DeleteUndoRoundTrip(s, "2");
  }
}
