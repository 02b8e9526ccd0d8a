/** The memo store as the service keeps it: one list of memo objects and an id
    counter, changed in place by the create, update and delete handlers. Each
    handler is proved to do what the matching MemoSpec function describes. */
module MemoStore {
  import opened Validation
  import opened MemoSpec

  /** A stored memo. Its id and creation time are fixed when it is made; update
      rewrites its title, content and update time in place. */
  class Memo {
    const id: int
    const createdAt: Timestamp
    var title: string
    var content: string
    var updatedAt: Option<Timestamp>

    /** The memo's current fields as a value. */
    function View(): MemoRecord
      reads this
    {
      MemoRecord(id, title, content, createdAt, updatedAt)
    }

    /** A new memo has no update time yet. */
    constructor (id: int, title: string, content: string, createdAt: Timestamp)
      ensures View() == MemoRecord(id, title, content, createdAt, None)
    {
      this.id := id;
      this.createdAt := createdAt;
      this.title := title;
      this.content := content;
      this.updatedAt := None;
    }
  }

  /** The module-level `memos` list and `nextId` counter of the service. */
  class Store {
    var memos: seq<Memo>
    var nextId: int
    /** The memos' fields, in list order. */
    ghost var records: seq<MemoRecord>

    /** The object invariant: `records` mirrors the memo objects, and together with the
        counter it satisfies the store invariant. Since ids are distinct, so are the
        memo objects. */
    ghost predicate Valid()
      reads this, memos
    {
      && |records| == |memos|
      && (forall k :: 0 <= k < |memos| ==> memos[k].View() == records[k])
      && WellFormed(State(records, nextId))
    }

    /** The store as a value. */
    ghost function Abstract(): State
      reads this
    {
      State(records, nextId)
    }

    /** The state at process start: an empty list and the counter at 1. */
    constructor ()
      ensures Valid() && Abstract() == Initial() && memos == []
    {
      memos := [];
      nextId := 1;
      records := [];
    }

    /** List: the whole collection, in insertion order, as it is. */
    method List() returns (ms: seq<Memo>)
      requires Valid()
      ensures ms == memos
      ensures |ms| == |records| && forall k :: 0 <= k < |ms| ==> ms[k].View() == records[k]
    {
      ms := memos;
    }

    /** findIndex by id: a front-to-back scan for the first memo with that id, -1 if
        there is none. */
    method FindIndex(id: int) returns (index: int)
      requires Valid()
      ensures index == IndexOf(records, id)
    {
      index := 0;
      while index < |memos|
        invariant 0 <= index <= |memos|
        invariant forall k :: 0 <= k < index ==> records[k].id != id
      {
        if memos[index].id == id {
          assert records[index].id == id;
          return;
        }
        index := index + 1;
      }
      index := -1;
    }

    /** find by id: the memo object with that id, or null when there is none. */
    method Find(id: int) returns (memo: Memo?)
      requires Valid()
      ensures var i := IndexOf(records, id);
              if i < 0 then memo == null else memo == memos[i] && memo.View() == records[i]
    {
      var i := FindIndex(id);
      memo := if i < 0 then null else memos[i];
    }

    /** Create: on a failed check nothing changes and the first failure is reported;
        otherwise a new memo object with the old counter as id is appended and the
        counter advanced, exactly as MemoSpec.Create describes. */
    method Create(title: Field, content: Field, now: Timestamp) returns (r: Result<Memo>)
      requires Valid()
      modifies this
      ensures Valid()
      ensures match MemoSpec.Create(old(Abstract()), title, content, now)
              case Ok(a) =>
                && r.Ok? && fresh(r.value)
                && Abstract() == a.after && r.value.View() == a.memo
                && memos == old(memos) + [r.value]
              case Err(e) =>
                r == Err(e) && Abstract() == old(Abstract()) && memos == old(memos)
    {
      var v := Validate(title, content);
      if v.Rejected? {
        return Err(Invalid(v.failure));
      }
      CreateKeepsWellFormed(Abstract(), title, content, now);
      var memo := new Memo(nextId, Trim(v.title), Trim(v.content), now);
      nextId := nextId + 1;
      memos := memos + [memo];
      records := records + [memo.View()];
      r := Ok(memo);
    }

    /** Update: an unknown id is refused before the body is looked at; a failed check
        changes nothing; otherwise the found memo object's title, content and update
        time are overwritten in place, exactly as MemoSpec.Update describes. The list
        itself (which objects, in which order) never changes. */
    method Update(id: int, title: Field, content: Field, now: Timestamp) returns (r: Result<Memo>)
      requires Valid()
      modifies this, memos
      ensures Valid() && memos == old(memos)
      ensures match MemoSpec.Update(old(Abstract()), id, title, content, now)
              case Ok(a) =>
                && r.Ok? && Abstract() == a.after && r.value.View() == a.memo
                && r.value == memos[IndexOf(old(records), id)]
              case Err(e) =>
                r == Err(e) && Abstract() == old(Abstract())
    {
      var memo := Find(id);
      if memo == null {
        return Err(NotFound);
      }
      var v := Validate(title, content);
      if v.Rejected? {
        return Err(Invalid(v.failure));
      }
      ghost var before := Abstract();
      ghost var i := IndexOf(records, id);
      UpdateKeepsWellFormed(before, id, title, content, now);
      assert MemoSpec.Update(before, id, title, content, now).Ok?;
      Overwrite(memo, i, Trim(v.title), Trim(v.content), now);
      r := Ok(memo);
    }

    /** The in-place rewrite of an update, through the reference that find returned: the
        memo at `i` gets new title, content and update time; its id, creation time and every other memo stay as they are. */
    method Overwrite(memo: Memo, ghost i: int, title: string, content: string, now: Timestamp)
      requires Valid() && 0 <= i < |memos| && memo == memos[i]
      requires var updated := records[i].(title := title, content := content, updatedAt := Some(now));
               WellFormed(State(records[i := updated], nextId))
      modifies this, memo
      ensures Valid() && memos == old(memos) && nextId == old(nextId)
      ensures records == old(records)[i := old(records)[i].(title := title, content := content,
                                                            updatedAt := Some(now))]
    {
      forall k | 0 <= k < |memos| && k != i ensures memos[k] != memo {
        if k < i {
          assert records[k].id < records[i].id;
        } else {
          assert records[i].id < records[k].id;
        }
      }
      memo.title := title;
      memo.content := content;
      memo.updatedAt := Some(now);
      records := records[i := memo.View()];
    }

    /** Delete: an unknown id is refused and nothing changes; otherwise the memo at the
        found index is spliced out of the list, exactly as MemoSpec.Delete describes. */
    method Delete(id: int) returns (r: Result<()>)
      requires Valid()
      modifies this
      ensures Valid()
      ensures match MemoSpec.Delete(old(Abstract()), id)
              case Ok(after) =>
                && r.Ok? && Abstract() == after
                && var i := IndexOf(old(records), id);
                   memos == old(memos)[..i] + old(memos)[i + 1..]
              case Err(e) =>
                r == Err(e) && Abstract() == old(Abstract()) && memos == old(memos)
    {
      var index := FindIndex(id);
      if index == -1 {
        return Err(NotFound);
      }
      DeleteKeepsWellFormed(Abstract(), id);
      memos := memos[..index] + memos[index + 1..];
      records := records[..index] + records[index + 1..];
      r := Ok(());
    }
  }

  /** A client session on a fresh store: "T"/"C" becomes memo 1, and an update of an
      id that was never issued is refused as not found even with an invalid body. */
  method ExampleClientUpdate()
  {
    var store := new Store();
    ExampleCreate();
    var created := store.Create(Text("T"), Text("C"), "t1");
    assert created.Ok? && created.value.id == 1 && store.nextId == 2;
    UnissuedIdIsNotFound(store.Abstract(), 999, Missing, Missing, "t2");
    var updated := store.Update(999, Missing, Missing, "t2");
    assert updated == Err(NotFound);
  }

  /** A client session on a fresh store: memo 1 can be deleted once but not twice. */
  method ExampleClientDelete()
  {
    var store := new Store();
    ExampleCreate();
    var created := store.Create(Text("T"), Text("C"), "t1");
    ExampleDeleteTwice();
    var deleted := store.Delete(1);
    assert deleted.Ok?;
    deleted := store.Delete(1);
    assert deleted == Err(NotFound);
  }
}
