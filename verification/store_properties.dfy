/** Properties of the storage operations: the table invariant each of them
    keeps, how each one moves the newest-first listing, and the exact effect
    of a partial update and of a delete on a table whose ids are unique. */
module StoreProperties {
  import opened Results
  import opened TodoStore

  // ---------------------------------------------------------------------------
  // init_db

  /** Running the schema statement twice is the same as running it once. */
  lemma InitIdempotent(db: Database)
    ensures InitDb(InitDb(db)) == InitDb(db)
  {
  }

  /** A freshly created table is valid and lists as an empty sequence, and an
      existing valid table stays valid. */
  lemma InitValid(db: Database)
    requires db.todos.None? || Valid(db.todos.value)
    ensures Valid(InitDb(db).todos.value)
    ensures db.todos.None? ==> ListTodos(InitDb(db).todos.value) == []
  {
  }

  // ---------------------------------------------------------------------------
  // get_todos

  /** A todo is listed exactly when some stored row decodes to it. */
  lemma ListMembership(t: Table, x: Todo)
    ensures x in ListTodos(t) <==> exists i :: 0 <= i < |t| && ToTodo(t[i]) == x
  {
    var r := ListTodos(t);
    if x in r {
      var p :| 0 <= p < |r| && r[p] == x;
      assert ToTodo(t[|t| - 1 - p]) == x;
    }
    if exists i :: 0 <= i < |t| && ToTodo(t[i]) == x {
      var i :| 0 <= i < |t| && ToTodo(t[i]) == x;
      assert r[|t| - 1 - i] == x;
    }
  }

  /** Replacing the row at position `k` replaces exactly its record in the
      listing. */
  lemma ListReplaceAt(t: Table, k: nat, x: Row)
    requires k < |t|
    ensures ListTodos(t[k := x]) == ListTodos(t)[|t| - 1 - k := ToTodo(x)]
  {
    var t' := t[k := x];
    assert t'[..k] == t[..k] && t'[k + 1..] == t[k + 1..];
    var lb, lf := ListTodos(t[k + 1..]), ListTodos(t[..k]);
    ListSplit(t, k);
    ListSplit(t', k);
    assert |lb| == |t| - 1 - k;
    assert (lb + [ToTodo(t[k])] + lf)[|lb| := ToTodo(x)] == lb + [ToTodo(x)] + lf;
  }

  // ---------------------------------------------------------------------------
  // create_todo

  /** A successful create puts exactly the returned record at the head of the
      listing and leaves the rest of the listing as it was. */
  lemma ListAfterCreate(t: Table, id: Id, title: string)
    requires Create(t, id, title).Success?
    ensures var (t', todo) := Create(t, id, title).value;
            ListTodos(t') == [todo] + ListTodos(t)
  {
  }

  /** Create keeps ids unique and the completed column binary. */
  lemma CreatePreservesValid(t: Table, id: Id, title: string)
    requires Valid(t)
    ensures Create(t, id, title).Success? ==> Valid(Create(t, id, title).value.0)
  {
  }

  // ---------------------------------------------------------------------------
  // update_todo

  /** With unique ids, updating the row at position `k` writes the supplied
      fields, keeps every field that was not supplied, stores the merged row
      at the same position and returns exactly that row. */
  lemma UpdateMergesFields(t: Table, upd: TodoUpdate, k: nat)
    requires UniqueIds(t)
    requires k < |t|
    ensures var r := Update(t, t[k].id, upd);
            var newTitle := upd.title.GetOr(t[k].title);
            var newCompleted := upd.completed.GetOr(DecodeCompleted(t[k].completed));
            && r.Success?
            && r.value.1 == Todo(t[k].id, newTitle, newCompleted)
            && r.value.0[k] == Row(t[k].id, newTitle, EncodeCompleted(newCompleted))
            && ToTodo(r.value.0[k]) == r.value.1
  {
  }

  /** `{completed: c}` alone keeps the stored title; `{title: s}` alone keeps
      the stored completion state. */
  lemma UpdateKeepsOmittedField(t: Table, k: nat, title: string, completed: bool)
    requires UniqueIds(t)
    requires k < |t|
    ensures var r := Update(t, t[k].id, TodoUpdate(None, Some(completed)));
            r.Success? && r.value.1.title == t[k].title && r.value.1.completed == completed
    ensures var r := Update(t, t[k].id, TodoUpdate(Some(title), None));
            r.Success? && r.value.1.title == title
            && r.value.1.completed == DecodeCompleted(t[k].completed)
  {
    UpdateMergesFields(t, TodoUpdate(None, Some(completed)), k);
    UpdateMergesFields(t, TodoUpdate(Some(title), None), k);
  }

  /** An update with no fields supplied rewrites the row with its own values:
      on a valid table it changes nothing. */
  lemma EmptyUpdateIsIdentity(t: Table, k: nat)
    requires Valid(t)
    requires k < |t|
    ensures var r := Update(t, t[k].id, TodoUpdate(None, None));
            r.Success? && r.value.0 == t && r.value.1 == ToTodo(t[k])
  {
  }

  /** Update keeps ids unique and the completed column binary. */
  lemma UpdatePreservesValid(t: Table, id: Id, upd: TodoUpdate)
    requires Valid(t)
    ensures Update(t, id, upd).Success? ==> Valid(Update(t, id, upd).value.0)
  {
  }

  /** A successful update leaves the record in its place in the listing and
      every other listed record unchanged. */
  lemma ListAfterUpdate(t: Table, upd: TodoUpdate, k: nat)
    requires UniqueIds(t)
    requires k < |t|
    ensures var r := Update(t, t[k].id, upd);
            var listed := ListTodos(r.value.0);
            && |listed| == |t|
            && listed[|t| - 1 - k] == r.value.1
            && forall p :: 0 <= p < |t| && p != |t| - 1 - k ==> listed[p] == ListTodos(t)[p]
  {
    UpdateMergesFields(t, upd, k);
    var r := Update(t, t[k].id, upd);
    var t' := r.value.0;
    assert t' == t[k := t'[k]] by {
      forall i | 0 <= i < |t| && i != k
        ensures t'[i] == t[i]
      {
        assert t[i].id != t[k].id;
      }
    }
    ListReplaceAt(t, k, t'[k]);
  }

  // ---------------------------------------------------------------------------
  // delete_todo

  /** DELETE ... WHERE distributes over concatenation. */
  lemma {:induction false} RemoveWhereAppend(a: Table, b: Table, id: Id)
    ensures RemoveWhere(a + b, id) == RemoveWhere(a, id) + RemoveWhere(b, id)
  {
    if |a| == 0 {
      assert a + b == b;
    } else {
      assert (a + b)[1..] == a[1..] + b;
      RemoveWhereAppend(a[1..], b, id);
    }
  }

  /** With unique ids, deleting the id stored at position `k` removes exactly
      that row: the table shrinks by one and the other rows keep their order. */
  lemma DeleteRemovesExactly(t: Table, k: nat)
    requires UniqueIds(t)
    requires k < |t|
    ensures Delete(t, t[k].id) == Success(t[..k] + t[k + 1..])
  {
    var id := t[k].id;
    var front, back := t[..k], t[k + 1..];
    assert t == front + ([t[k]] + back);
    assert !Contains(front, id) by {
      forall i | 0 <= i < |front|
        ensures front[i].id != id
      {
        assert front[i] == t[i];
      }
    }
    assert !Contains(back, id) by {
      forall i | 0 <= i < |back|
        ensures back[i].id != id
      {
        assert back[i] == t[k + 1 + i];
      }
    }
    RemoveWhereAppend(front, [t[k]] + back, id);
    RemoveWhereAppend([t[k]], back, id);
    assert RemoveWhere([t[k]], id) == [];
  }

  /** Delete keeps ids unique and the completed column binary. */
  lemma DeletePreservesValid(t: Table, id: Id)
    requires Valid(t)
    ensures Delete(t, id).Success? ==> Valid(Delete(t, id).value)
  {
    if Delete(t, id).Success? {
      var k := IndexOf(t, id).value;
      DeleteRemovesExactly(t, k);
      var t' := t[..k] + t[k + 1..];
      forall i | 0 <= i < |t'|
        ensures t'[i] == t[if i < k then i else i + 1]
      {
      }
    }
  }

  /** Listing a concatenation lists the later part first. */
  lemma {:induction false} ListAppend(a: Table, b: Table)
    ensures ListTodos(a + b) == ListTodos(b) + ListTodos(a)
  {
    if |a| == 0 {
      assert a + b == b;
    } else {
      assert (a + b)[1..] == a[1..] + b;
      ListAppend(a[1..], b);
    }
  }

  /** A sequence is its prefix, the element at `k`, and its suffix. */
  lemma SplitAt<T>(t: seq<T>, k: nat)
    requires k < |t|
    ensures t == t[..k] + ([t[k]] + t[k + 1..])
  {
  }

  /** Cutting `a + [x] + b` at the length of `a` recovers `a` and `b`. */
  lemma SliceAround<T>(a: seq<T>, x: T, b: seq<T>)
    ensures (a + [x] + b)[..|a|] == a
    ensures (a + [x] + b)[|a| + 1..] == b
  {
  }

  /** The listing of a table, split around the row at position `k`. */
  lemma ListSplit(t: Table, k: nat)
    requires k < |t|
    ensures ListTodos(t) == ListTodos(t[k + 1..]) + [ToTodo(t[k])] + ListTodos(t[..k])
  {
    SplitAt(t, k);
    ListAppend(t[..k], [t[k]] + t[k + 1..]);
    ListAppend([t[k]], t[k + 1..]);
  }

  /** The listing of a table with the row at position `k` cut out. */
  lemma ListJoin(t: Table, k: nat)
    requires k < |t|
    ensures ListTodos(t[..k] + t[k + 1..]) == ListTodos(t[k + 1..]) + ListTodos(t[..k])
  {
    ListAppend(t[..k], t[k + 1..]);
  }

  /** Removing the row at position `k` removes its record from the listing
      and keeps the other records in order. */
  lemma ListRemoveAt(t: Table, k: nat)
    requires k < |t|
    ensures var before := ListTodos(t);
            var p := |t| - 1 - k;
            ListTodos(t[..k] + t[k + 1..]) == before[..p] + before[p + 1..]
  {
    var lb, lf := ListTodos(t[k + 1..]), ListTodos(t[..k]);
    ListSplit(t, k);
    ListJoin(t, k);
    SliceAround(lb, ToTodo(t[k]), lf);
  }

  /** After a successful delete the listing is the old listing without the
      deleted record, the others in the same order. */
  lemma ListAfterDelete(t: Table, k: nat)
    requires UniqueIds(t)
    requires k < |t|
    ensures var before := ListTodos(t);
            var p := |t| - 1 - k;
            ListTodos(Delete(t, t[k].id).value) == before[..p] + before[p + 1..]
  {
    DeleteRemovesExactly(t, k);
    ListRemoveAt(t, k);
  }
}
