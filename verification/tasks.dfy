/**
 * Task records and the whole-collection operations the handlers apply to the
 * loaded array: `filter` (delete, clear completed), `find` (open edit) and the
 * `forEach` loops that rewrite matching records (toggle, save edit).
 *
 * Ids are whatever the caller supplied (a millisecond clock reading), so
 * nothing here assumes they are unique: every operation acts on every record
 * whose id matches. Uniqueness is stated separately as `UniqueIds`.
 */
module Tasks {
  import opened Wrappers

  datatype Task = Task(id: int, text: string, completed: bool, createdAt: string)

  predicate IsDone(t: Task) { t.completed }

  predicate IsPending(t: Task) { !t.completed }

  /** The keep-predicate of `deleteTask`: the record's id differs from `id`. */
  function NotId(id: int): Task -> bool {
    (t: Task) => t.id != id
  }

  /** `Array.prototype.filter`: the records satisfying `keep`, in their original order. */
  function Keep(ts: seq<Task>, keep: Task -> bool): (r: seq<Task>)
    ensures |r| <= |ts|
    ensures forall t :: t in r <==> t in ts && keep(t)
    ensures (forall k | 0 <= k < |ts| :: keep(ts[k])) ==> r == ts
  {
    if ts == [] then []
    else (if keep(ts[0]) then [ts[0]] else []) + Keep(ts[1..], keep)
  }

  /** Filtering preserves order: it distributes over concatenation. */
  lemma {:induction false} KeepAppend(a: seq<Task>, b: seq<Task>, keep: Task -> bool)
    ensures Keep(a + b, keep) == Keep(a, keep) + Keep(b, keep)
  {
    if a == [] {
      assert a + b == b;
    } else {
      assert (a + b)[1..] == a[1..] + b;
      KeepAppend(a[1..], b, keep);
    }
  }

  /** Filtering twice with the same predicate is filtering once. */
  lemma KeepIdempotent(ts: seq<Task>, keep: Task -> bool)
    ensures Keep(Keep(ts, keep), keep) == Keep(ts, keep)
  {
    var r := Keep(ts, keep);
    forall k | 0 <= k < |r| ensures keep(r[k]) {
      assert r[k] in r;
    }
  }

  /** Every record is either done or pending: the two filters split the collection. */
  lemma {:induction false} DonePendingSplit(ts: seq<Task>)
    ensures |Keep(ts, IsDone)| + |Keep(ts, IsPending)| == |ts|
  {
    if ts != [] {
      DonePendingSplit(ts[1..]);
    }
  }

  /** A filter keeps nothing exactly when no record satisfies it. */
  lemma KeepEmpty(ts: seq<Task>, keep: Task -> bool)
    ensures Keep(ts, keep) == [] <==> forall k | 0 <= k < |ts| :: !keep(ts[k])
  {
    var r := Keep(ts, keep);
    if r != [] {
      assert r[0] in r;
    } else {
      forall k | 0 <= k < |ts| ensures !keep(ts[k]) {
        assert ts[k] in ts;
      }
    }
  }

  /** `deleteTask`: the collection without the records whose id is `id`. */
  function Remaining(ts: seq<Task>, id: int): (r: seq<Task>)
    ensures |r| <= |ts|
    ensures forall t :: t in r <==> t in ts && t.id != id
  {
    Keep(ts, NotId(id))
  }

  /** The clear-completed handler: the collection without its completed records. */
  function ClearCompleted(ts: seq<Task>): (r: seq<Task>)
    ensures |r| <= |ts|
    ensures forall t :: t in r <==> t in ts && !t.completed
  {
    Keep(ts, IsPending)
  }

  /** `tasks.find(t => t.id === id)`, as the index of the first record with that id. */
  function FirstIndexOf(ts: seq<Task>, id: int): (r: Option<nat>)
    ensures r.None? <==> forall k | 0 <= k < |ts| :: ts[k].id != id
    ensures r.Some? ==> r.value < |ts| && ts[r.value].id == id
    ensures r.Some? ==> forall k | 0 <= k < r.value :: ts[k].id != id
  {
    if ts == [] then None
    else if ts[0].id == id then Some(0)
    else match FirstIndexOf(ts[1..], id)
      case None => None
      case Some(k) => Some(k + 1)
  }

  /** What the `forEach` of `toggleComplete` leaves: matching records carry `done`. */
  function WithCompletion(ts: seq<Task>, id: int, done: bool): (r: seq<Task>)
    ensures |r| == |ts|
    ensures forall k | 0 <= k < |ts| ::
      r[k].id == ts[k].id && r[k].text == ts[k].text && r[k].createdAt == ts[k].createdAt
  {
    seq(|ts|, k requires 0 <= k < |ts| =>
      if ts[k].id == id then ts[k].(completed := done) else ts[k])
  }

  /** What the `forEach` of `saveEdit` leaves: matching records carry `text`. */
  function WithText(ts: seq<Task>, id: int, text: string): (r: seq<Task>)
    ensures |r| == |ts|
    ensures forall k | 0 <= k < |ts| ::
      r[k].id == ts[k].id && r[k].completed == ts[k].completed && r[k].createdAt == ts[k].createdAt
  {
    seq(|ts|, k requires 0 <= k < |ts| =>
      if ts[k].id == id then ts[k].(text := text) else ts[k])
  }

  /** The loop of `toggleComplete`: sets `completed` on every record whose id matches. */
  method SetCompletedWhere(ts: seq<Task>, id: int, done: bool) returns (r: seq<Task>)
    ensures r == WithCompletion(ts, id, done)
  {
    r := ts;
    var k := 0;
    while k < |r|
      invariant |r| == |ts| && 0 <= k <= |ts|
      invariant forall j | 0 <= j < k :: r[j] == WithCompletion(ts, id, done)[j]
      invariant forall j | k <= j < |ts| :: r[j] == ts[j]
    {
      if r[k].id == id {
        r := r[k := r[k].(completed := done)];
      }
      k := k + 1;
    }
  }

  /** The loop of `saveEdit`: sets `text` on every record whose id matches. */
  method SetTextWhere(ts: seq<Task>, id: int, text: string) returns (r: seq<Task>)
    ensures r == WithText(ts, id, text)
  {
    r := ts;
    var k := 0;
    while k < |r|
      invariant |r| == |ts| && 0 <= k <= |ts|
      invariant forall j | 0 <= j < k :: r[j] == WithText(ts, id, text)[j]
      invariant forall j | k <= j < |ts| :: r[j] == ts[j]
    {
      if r[k].id == id {
        r := r[k := r[k].(text := text)];
      }
      k := k + 1;
    }
  }

  // ----- Delete and clear completed -----

  /** Delete keeps exactly the records with another id; deleting an absent id changes nothing. */
  lemma DeleteKeepsOthers(ts: seq<Task>, id: int)
    ensures forall t :: t in Remaining(ts, id) <==> t in ts && t.id != id
    ensures FirstIndexOf(ts, id).None? ==> Remaining(ts, id) == ts
  {
  }

  /** With unique ids, delete removes exactly the one record that carries the id. */
  lemma DeleteUniqueRemovesOne(ts: seq<Task>, id: int, k: nat)
    requires UniqueIds(ts) && FirstIndexOf(ts, id) == Some(k)
    ensures Remaining(ts, id) == ts[..k] + ts[k + 1..]
  {
    var keep := NotId(id);
    var front, back := ts[..k], ts[k + 1..];
    assert ts == front + [ts[k]] + back;
    forall j | 0 <= j < |front| ensures keep(front[j]) {
      assert front[j] == ts[j];
    }
    forall j | 0 <= j < |back| ensures keep(back[j]) {
      assert back[j] == ts[k + 1 + j];
    }
    assert Keep([ts[k]], keep) == [];
    KeepAppend(front + [ts[k]], back, keep);
    KeepAppend(front, [ts[k]], keep);
  }

  /** Clear completed keeps exactly the pending records, in order, and is idempotent. */
  lemma ClearCompletedKeepsPending(ts: seq<Task>)
    ensures forall t :: t in ClearCompleted(ts) <==> t in ts && !t.completed
    ensures ClearCompleted(ClearCompleted(ts)) == ClearCompleted(ts)
  {
    KeepIdempotent(ts, IsPending);
  }

  // ----- Toggle and edit -----

  /**
   * Toggle changes only `completed`, and only on matching records: length,
   * order, ids, texts and creation times stay as they were.
   */
  lemma ToggleTouchesOnlyCompletion(ts: seq<Task>, id: int, done: bool)
    ensures |WithCompletion(ts, id, done)| == |ts|
    ensures forall k | 0 <= k < |ts| ::
      var t := WithCompletion(ts, id, done)[k];
      t.id == ts[k].id && t.text == ts[k].text && t.createdAt == ts[k].createdAt
      && t.completed == (if ts[k].id == id then done else ts[k].completed)
    ensures FirstIndexOf(ts, id).None? ==> WithCompletion(ts, id, done) == ts
  {
  }

  /** Edit changes only `text`, and only on matching records. */
  lemma EditTouchesOnlyText(ts: seq<Task>, id: int, text: string)
    ensures |WithText(ts, id, text)| == |ts|
    ensures forall k | 0 <= k < |ts| ::
      var t := WithText(ts, id, text)[k];
      t.id == ts[k].id && t.completed == ts[k].completed && t.createdAt == ts[k].createdAt
      && t.text == (if ts[k].id == id then text else ts[k].text)
    ensures FirstIndexOf(ts, id).None? ==> WithText(ts, id, text) == ts
  {
  }

  // ----- Id uniqueness (not enforced by the code) -----

  predicate UniqueIds(ts: seq<Task>) {
    forall i, j | 0 <= i < j < |ts| :: ts[i].id != ts[j].id
  }

  /** Appending keeps ids unique exactly when the new id is not already present. */
  lemma AppendUniqueIff(ts: seq<Task>, t: Task)
    ensures UniqueIds(ts + [t]) <==> UniqueIds(ts) && FirstIndexOf(ts, t.id).None?
  {
    var s := ts + [t];
    assert forall k | 0 <= k < |ts| :: s[k] == ts[k];
    assert s[|ts|] == t;
    if UniqueIds(ts) && FirstIndexOf(ts, t.id).None? {
      forall i, j | 0 <= i < j < |s| ensures s[i].id != s[j].id {
        if j == |ts| {
          assert s[i].id == ts[i].id;
        }
      }
    }
  }

  /** Filtering never creates duplicate ids. */
  lemma {:induction false} KeepPreservesUnique(ts: seq<Task>, keep: Task -> bool)
    requires UniqueIds(ts)
    ensures UniqueIds(Keep(ts, keep))
  {
    if ts != [] {
      var rest := ts[1..];
      assert UniqueIds(rest) by {
        forall i, j | 0 <= i < j < |rest| ensures rest[i].id != rest[j].id {
          assert rest[i] == ts[i + 1] && rest[j] == ts[j + 1];
        }
      }
      KeepPreservesUnique(rest, keep);
      var tail := Keep(rest, keep);
      forall m | 0 <= m < |tail| ensures tail[m].id != ts[0].id {
        assert tail[m] in tail;
        var n :| 0 <= n < |rest| && rest[n] == tail[m];
        assert rest[n] == ts[n + 1];
      }
    }
  }

  /** Toggle and edit keep the ids, so they keep them unique. */
  lemma UpdatesPreserveUnique(ts: seq<Task>, id: int, done: bool, text: string)
    requires UniqueIds(ts)
    ensures UniqueIds(WithCompletion(ts, id, done))
    ensures UniqueIds(WithText(ts, id, text))
  {
  }

  /**
   * Two records added within the same millisecond share an id; delete then
   * removes both and edit rewrites both.
   */
  lemma SharedIdActsOnAll(a: Task, b: Task, text: string)
    requires a.id == b.id
    ensures !UniqueIds([a, b])
    ensures Remaining([a, b], a.id) == []
    ensures WithText([a, b], a.id, text) == [a.(text := text), b.(text := text)]
  {
    assert [a, b][0].id == [a, b][1].id;
    assert Keep([b], NotId(a.id)) == [];
    assert [a, b][1..] == [b];
  }

  // ----- Worked examples -----

  lemma DeleteExample()
    ensures var a, b, c := Task(1, "A", false, ""), Task(2, "B", false, ""), Task(3, "C", false, "");
      Remaining([a, b, c], 2) == [a, c] && Remaining([a, b, c], 99) == [a, b, c]
  {
    var a, b, c := Task(1, "A", false, ""), Task(2, "B", false, ""), Task(3, "C", false, "");
    assert [a, b, c][1..] == [b, c];
    assert [b, c][1..] == [c];
    assert Keep([c], NotId(2)) == [c];
    assert Keep([b, c], NotId(2)) == [c];
    assert Keep([b, c], NotId(99)) == [b, c];
  }

  lemma ClearCompletedExample()
    ensures var a, b, c := Task(1, "A", false, ""), Task(2, "B", true, ""), Task(3, "C", true, "");
      ClearCompleted([a, b, c]) == [a]
  {
    var a, b, c := Task(1, "A", false, ""), Task(2, "B", true, ""), Task(3, "C", true, "");
    assert [a, b, c][1..] == [b, c];
    assert [b, c][1..] == [c];
    assert Keep([c], IsPending) == [];
    assert Keep([b, c], IsPending) == [];
  }
}
