/**
 * The in-memory workspace: an append-only log of records kept per named
 * collection. Each collection's head names its newest record and every
 * record names the record it was committed on top of, so a collection is a
 * linked list threaded through one map of records.
 */
module Memory {

  import opened Core
  import Ids

  /** A committed record. Two records are the same record when their ids agree. */
  datatype MemoryRecord = MemoryRecord(
    id: string,
    parent: Option<string>,
    author: string,
    email: string,
    message: string,
    timestamp: int,
    op: Option<SetOperation>,
    attachments: map<string, string>)

  /** The crate's record equality, which compares ids only. */
  predicate SameRecord(a: MemoryRecord, b: MemoryRecord)
  {
    a.id == b.id
  }

  /**
   * The shape of the record store: every record is stored under its own id,
   * and the parent of a record is a stored record made earlier. `born` gives
   * the value of the id counter when each record was made.
   */
  ghost predicate Linked(records: map<string, MemoryRecord>, born: map<string, nat>)
  {
    && records.Keys == born.Keys
    && (forall id :: id in records ==> records[id].id == id)
    && (forall id {:trigger records[id]} :: id in records && records[id].parent.Some? ==>
          records[id].parent.value in records && born[records[id].parent.value] < born[id])
  }

  /** `r` is stored in `records` under its own id. */
  ghost predicate StoredAt(records: map<string, MemoryRecord>, r: MemoryRecord)
  {
    r.id in records && records[r.id] == r
  }

  /**
   * The records met by following parent links from `start`, newest first;
   * the walk stops at a record without a parent or at an id that is not stored.
   */
  ghost function Chain(records: map<string, MemoryRecord>, born: map<string, nat>, start: Option<string>)
    : seq<MemoryRecord>
    requires Linked(records, born)
    decreases if start.Some? && start.value in born then born[start.value] + 1 else 0
  {
    if start.None? || start.value !in records then []
    else [records[start.value]] + Chain(records, born, records[start.value].parent)
  }

  /**
   * A walk from a stored id starts at that record, yields only stored
   * records, steps each time to the parent of the record before it, ends at a
   * record without a parent, and meets records in strictly decreasing order
   * of creation. A walk from no id or an unknown id is empty.
   */
  lemma {:induction false} ChainShape(records: map<string, MemoryRecord>, born: map<string, nat>, start: Option<string>)
    requires Linked(records, born)
    ensures var c := Chain(records, born, start);
      && (|c| > 0 <==> start.Some? && start.value in records)
      && (|c| > 0 ==> c[0] == records[start.value])
      && (forall i :: 0 <= i < |c| ==> StoredAt(records, c[i]))
      && (forall i :: 0 <= i < |c| - 1 ==> c[i].parent == Some(c[i + 1].id))
      && (|c| > 0 ==> c[|c| - 1].parent.None?)
      && (forall i, j :: 0 <= i < j < |c| ==> c[i].id in born && c[j].id in born && born[c[j].id] < born[c[i].id])
    decreases if start.Some? && start.value in born then born[start.value] + 1 else 0
  {
    if start.Some? && start.value in records {
      var head := records[start.value];
      var c, rest := Chain(records, born, start), Chain(records, born, head.parent);
      ChainShape(records, born, head.parent);
      assert c == [head] + rest;
      assert rest != [] ==> rest[0].id == head.parent.value;
      forall i, j | 0 <= i < j < |c|
        ensures c[i].id in born && c[j].id in born && born[c[j].id] < born[c[i].id]
      {
        if i == 0 && j > 1 {
          assert born[rest[j - 1].id] <= born[rest[0].id];
        }
      }
    }
  }

  /** Storing a new record leaves every walk that does not start at it unchanged. */
  lemma {:induction false} ChainUnchangedByInsert(
    records: map<string, MemoryRecord>, born: map<string, nat>,
    r: MemoryRecord, n: nat, start: Option<string>)
    requires Linked(records, born)
    requires r.id !in records
    requires Linked(records[r.id := r], born[r.id := n])
    requires start != Some(r.id)
    ensures Chain(records[r.id := r], born[r.id := n], start) == Chain(records, born, start)
    decreases if start.Some? && start.value in born then born[start.value] + 1 else 0
  {
    if start.Some? && start.value in records {
      var p := records[start.value].parent;
      assert p.Some? ==> p.value in records;
      ChainUnchangedByInsert(records, born, r, n, p);
    }
  }

  /** Storing a new record and walking from it gives it, then the walk from its parent. */
  lemma ChainFromInserted(
    records: map<string, MemoryRecord>, born: map<string, nat>, r: MemoryRecord, n: nat)
    requires Linked(records, born)
    requires r.id !in records
    requires Linked(records[r.id := r], born[r.id := n])
    ensures Chain(records[r.id := r], born[r.id := n], Some(r.id)) == [r] + Chain(records, born, r.parent)
  {
    var records', born' := records[r.id := r], born[r.id := n];
    assert records'[r.id] == r;
    ChainUnchangedByInsert(records, born, r, n, r.parent);
  }

  /** Storing a record made after all others, whose parent is stored, keeps the store linked. */
  lemma InsertKeepsLinked(records: map<string, MemoryRecord>, born: map<string, nat>, r: MemoryRecord, n: nat)
    requires Linked(records, born)
    requires r.id !in records
    requires forall id :: id in born ==> born[id] < n
    requires r.parent.Some? ==> r.parent.value in records
    ensures Linked(records[r.id := r], born[r.id := n])
  {
  }

  /** Within one store, the crate's id equality is full equality. */
  lemma SameRecordIsEquality(
    records: map<string, MemoryRecord>, born: map<string, nat>, a: MemoryRecord, b: MemoryRecord)
    requires Linked(records, born)
    requires StoredAt(records, a) && StoredAt(records, b)
    ensures SameRecord(a, b) <==> a == b
  {
  }

  // ---------------------------------------------------------------------
  // Attachments

  /**
   * The attachments of a new record: those of its parent with the builder's
   * pending changes applied; `Some(id)` inserts or overwrites, `None` removes.
   */
  function Overlay(base: map<string, string>, edits: map<string, Option<string>>): (m: map<string, string>)
    ensures forall n :: n in edits && edits[n].Some? ==> n in m && m[n] == edits[n].value
    ensures forall n :: n in edits && edits[n].None? ==> n !in m
    ensures forall n :: n !in edits ==> (n in m <==> n in base)
    ensures forall n :: n !in edits && n in base ==> m[n] == base[n]
  {
    map n | n in base.Keys + edits.Keys && (n in edits ==> edits[n].Some?) ::
      if n in edits then edits[n].value else base[n]
  }

  /** A builder with no pending changes keeps the parent's attachments. */
  lemma OverlayNothing(base: map<string, string>)
    ensures Overlay(base, map[]) == base
  {
  }

  /** The pending changes whose names are not in `todo`. */
  ghost function Done(pending: map<string, Option<string>>, todo: set<string>): map<string, Option<string>>
  {
    map n | n in pending.Keys - todo :: pending[n]
  }

  /** Taking one more name off `todo` adds its change to those done. */
  lemma DoneStep(pending: map<string, Option<string>>, todo: set<string>, name: string)
    requires name in todo && name in pending
    ensures Done(pending, todo - {name}) == Done(pending, todo)[name := pending[name]]
  {
  }

  /** One attachment change applied directly to a map of attachments. */
  function Apply(m: map<string, string>, name: string, change: Option<string>): map<string, string>
  {
    if change.Some? then m[name := change.value] else m - {name}
  }

  /** Overlaying one more change is applying it after the others. */
  lemma OverlayUpdate(base: map<string, string>, edits: map<string, Option<string>>,
                      name: string, change: Option<string>)
    ensures Overlay(base, edits[name := change]) == Apply(Overlay(base, edits), name, change)
  {
  }

  /** The pending changes left in a builder by a sequence of upserts and removals. */
  function Pending(calls: seq<(string, Option<string>)>): map<string, Option<string>>
  {
    if calls == [] then map[]
    else Pending(calls[..|calls| - 1])[calls[|calls| - 1].0 := calls[|calls| - 1].1]
  }

  /** The same calls applied one at a time to a map of attachments. */
  function ApplyAll(base: map<string, string>, calls: seq<(string, Option<string>)>): map<string, string>
  {
    if calls == [] then base
    else Apply(ApplyAll(base, calls[..|calls| - 1]), calls[|calls| - 1].0, calls[|calls| - 1].1)
  }

  /**
   * Collecting changes in the builder and applying them at commit gives the
   * same attachments as applying each call in order: for each name, the last
   * upsert or removal wins.
   */
  lemma {:induction false} OverlayOfPendingIsSequential(
    base: map<string, string>, calls: seq<(string, Option<string>)>)
    ensures Overlay(base, Pending(calls)) == ApplyAll(base, calls)
  {
    if calls == [] {
      assert Overlay(base, map[]) == base;
    } else {
      var init, last := calls[..|calls| - 1], calls[|calls| - 1];
      OverlayOfPendingIsSequential(base, init);
      OverlayUpdate(base, Pending(init), last.0, last.1);
    }
  }

  // ---------------------------------------------------------------------
  // Set-log view

  /** What the set iterator yields for one record. */
  function SetItem(r: MemoryRecord): (item: Result<(MemoryRecord, SetOperation), Error>)
  {
    if r.op.Some? then Ok((r, r.op.value))
    else Err(Malformed("record " + r.id + " is not a set operation"))
  }

  /** The set iterator's items for a walk, in walk order. */
  function SetItems(rs: seq<MemoryRecord>): seq<Result<(MemoryRecord, SetOperation), Error>>
  {
    seq(|rs|, i requires 0 <= i < |rs| => SetItem(rs[i]))
  }

  // ---------------------------------------------------------------------
  // Parts of the workspace invariant

  /** Every head names a stored record. */
  ghost predicate HeadsStored(heads: map<string, string>, records: map<string, MemoryRecord>)
  {
    forall c :: c in heads ==> heads[c] in records
  }

  /** Every stored id is the id of a counter value already used. */
  ghost predicate IdsIssued(born: map<string, nat>, totalIds: nat)
  {
    forall id :: id in born ==> 1 <= born[id] <= totalIds && id == Ids.RecordId(born[id])
  }

  /** Every attachment is stored under its own content id. */
  ghost predicate PoolAddressed(pool: map<string, seq<byte>>)
  {
    forall a :: a in pool ==> a == Ids.ContentId(pool[a])
  }

  /** Every attachment a record names is stored. */
  ghost predicate AttachmentsStored(records: map<string, MemoryRecord>, pool: map<string, seq<byte>>)
  {
    forall id, n :: id in records && n in records[id].attachments ==> records[id].attachments[n] in pool
  }

  /**
   * The workspace invariant: every head names a stored record, the store is
   * linked, every stored id is the id of a counter value already used, every
   * attachment is stored under its own content id, and every record's
   * attachments are stored.
   */
  ghost predicate WorkspaceInv(
    records: map<string, MemoryRecord>, born: map<string, nat>, heads: map<string, string>,
    pool: map<string, seq<byte>>, totalIds: nat)
  {
    && Linked(records, born)
    && HeadsStored(heads, records)
    && IdsIssued(born, totalIds)
    && PoolAddressed(pool)
    && AttachmentsStored(records, pool)
  }

  /** Storing a new record, and pointing a head at it, keeps the invariant. */
  lemma StoreKeepsInvariant(
    heads: map<string, string>, records: map<string, MemoryRecord>, born: map<string, nat>,
    pool: map<string, seq<byte>>, totalIds: nat, collection: string, r: MemoryRecord)
    requires WorkspaceInv(records, born, heads, pool, totalIds)
    requires 1 <= totalIds && r.id == Ids.RecordId(totalIds) && r.id !in records
    requires forall id :: id in born ==> born[id] < totalIds
    requires r.parent.Some? ==> r.parent.value in records
    requires forall n :: n in r.attachments ==> r.attachments[n] in pool
    ensures WorkspaceInv(records[r.id := r], born[r.id := totalIds], heads[collection := r.id], pool, totalIds)
  {
    InsertKeepsLinked(records, born, r, totalIds);
  }

  /** The head a map of heads gives a collection, if any. */
  ghost function HeadOf(heads: map<string, string>, collection: string): Option<string>
  {
    if collection in heads then Some(heads[collection]) else None
  }

  /**
   * After a new record is stored and made the collection's head, the
   * collection's walk is the new record followed by its old walk, and every
   * other collection's walk is as before.
   */
  lemma StoreHistories(
    heads: map<string, string>, records: map<string, MemoryRecord>, born: map<string, nat>,
    collection: string, r: MemoryRecord, n: nat)
    requires Linked(records, born) && HeadsStored(heads, records)
    requires r.id !in records && r.parent == HeadOf(heads, collection)
    requires Linked(records[r.id := r], born[r.id := n])
    ensures Chain(records[r.id := r], born[r.id := n], HeadOf(heads[collection := r.id], collection))
         == [r] + Chain(records, born, HeadOf(heads, collection))
    ensures forall c :: c != collection ==>
      Chain(records[r.id := r], born[r.id := n], HeadOf(heads[collection := r.id], c))
      == Chain(records, born, HeadOf(heads, c))
  {
    assert HeadOf(heads[collection := r.id], collection) == Some(r.id);
    ChainFromInserted(records, born, r, n);
    forall c | c != collection
      ensures Chain(records[r.id := r], born[r.id := n], HeadOf(heads[collection := r.id], c))
           == Chain(records, born, HeadOf(heads, c))
    {
      assert HeadOf(heads[collection := r.id], c) == HeadOf(heads, c);
      ChainUnchangedByInsert(records, born, r, n, HeadOf(heads, c));
    }
  }

  // ---------------------------------------------------------------------
  // The workspace

  class MemoryWorkspace {
    const author: string
    const email: string
    var totalIds: nat
    var heads: map<string, string>
    var attachmentPool: map<string, seq<byte>>
    var records: map<string, MemoryRecord>
    ghost var born: map<string, nat>

    /** The workspace invariant over the workspace's fields. */
    ghost predicate Valid()
      reads this
    {
      WorkspaceInv(records, born, heads, attachmentPool, totalIds)
    }

    /** The id of the collection's newest record, if any. */
    ghost function Head(collection: string): Option<string>
      reads this
    {
      HeadOf(heads, collection)
    }

    /** The records of a collection in walk order, newest first. */
    ghost function History(collection: string): seq<MemoryRecord>
      reads this
      requires Valid()
    {
      Chain(records, born, Head(collection))
    }

    /** The attachments a new record on the collection starts from. */
    ghost function HeadAttachments(collection: string): map<string, string>
      reads this
    {
      if collection in heads && heads[collection] in records then records[heads[collection]].attachments
      else map[]
    }

    constructor (author: string, email: string)
      ensures Valid()
      ensures this.author == author && this.email == email
      ensures totalIds == 0 && heads == map[] && records == map[] && attachmentPool == map[]
    {
      this.author := author;
      this.email := email;
      totalIds := 0;
      heads := map[];
      attachmentPool := map[];
      records := map[];
      born := map[];
    }

    /** Advances the id counter by one and returns the id for its new value. */
    method NextId() returns (id: string)
      requires Valid()
      modifies this`totalIds
      ensures Valid()
      ensures totalIds == old(totalIds) + 1
      ensures id == Ids.RecordId(totalIds)
      ensures id !in records
      ensures forall other :: other in born ==> born[other] < totalIds
    {
      totalIds := totalIds + 1;
      id := Ids.RecordId(totalIds);
      forall other | other in records
        ensures other != id
      {
        Ids.RecordIdInjective(born[other], totalIds);
      }
    }

    /** Stores attachment bytes under their content id and returns the id. */
    method InsertAttachment(data: seq<byte>) returns (id: string)
      requires Valid()
      modifies this`attachmentPool
      ensures Valid()
      ensures id == Ids.ContentId(data)
      ensures attachmentPool == old(attachmentPool)[id := data]
    {
      id := Ids.ContentId(data);
      if id in attachmentPool {
        Ids.ContentIdInjective(attachmentPool[id], data);
      }
      attachmentPool := attachmentPool[id := data];
    }

    /** Stores a new record and moves the collection's head to it. */
    method Store(collection: string, r: MemoryRecord)
      requires Valid()
      requires 1 <= totalIds && r.id == Ids.RecordId(totalIds) && r.id !in records
      requires forall id :: id in born ==> born[id] < totalIds
      requires r.parent == Head(collection)
      requires forall n :: n in r.attachments ==> r.attachments[n] in attachmentPool
      modifies this`records, this`born, this`heads
      ensures Valid()
      ensures records == old(records)[r.id := r]
      ensures born == old(born)[r.id := totalIds]
      ensures heads == old(heads)[collection := r.id]
      ensures History(collection) == [r] + old(History(collection))
      ensures forall c :: c != collection ==> History(c) == old(History(c))
    {
      StoreKeepsInvariant(heads, records, born, attachmentPool, totalIds, collection, r);
      ghost var heads0, records0, born0 := heads, records, born;
      records := records[r.id := r];
      born := born[r.id := totalIds];
      heads := heads[collection := r.id];
      HistoriesAfterStore(heads0, records0, born0, collection, r);
    }

    /** The walks once `r` is stored over `records0` and made the collection's head. */
    lemma HistoriesAfterStore(
      heads0: map<string, string>, records0: map<string, MemoryRecord>, born0: map<string, nat>,
      collection: string, r: MemoryRecord)
      requires Valid() && Linked(records0, born0) && HeadsStored(heads0, records0)
      requires r.id !in records0 && r.parent == HeadOf(heads0, collection)
      requires records == records0[r.id := r] && born == born0[r.id := totalIds]
      requires heads == heads0[collection := r.id]
      ensures History(collection) == [r] + Chain(records0, born0, HeadOf(heads0, collection))
      ensures forall c :: c != collection ==> History(c) == Chain(records0, born0, HeadOf(heads0, c))
    {
      StoreHistories(heads0, records0, born0, collection, r, totalIds);
    }

    /** Starts a walk at the collection's head. */
    method Walk(collection: string) returns (it: MemoryIterator)
      requires Valid()
      ensures fresh(it) && it.ws == this && it.Valid()
      ensures it.Remaining() == History(collection)
    {
      var next := if collection in heads && heads[collection] in records
                  then Some(records[heads[collection]]) else None;
      it := new MemoryIterator(this, next);
    }

    /** Starts a walk that reads each record as a set operation. */
    method WalkSet(collection: string) returns (it: MemorySetIterator)
      requires Valid()
      ensures fresh(it) && fresh(it.inner) && it.inner.ws == this && it.Valid()
      ensures it.Remaining() == SetItems(History(collection))
    {
      var inner := Walk(collection);
      it := new MemorySetIterator(inner);
    }

    /** A builder for a new record on the collection, with no op and no changes. */
    method RecordBuilder(collection: string) returns (b: MemoryRecordBuilder)
      requires Valid()
      ensures fresh(b) && b.ws == this && b.collection == collection && b.Valid()
      ensures b.pending == map[] && b.op == None
    {
      b := new MemoryRecordBuilder(this, collection);
    }

    /** Looks a record up by id. */
    method GetRecord(id: string) returns (r: Option<MemoryRecord>)
      requires Valid()
      ensures r.Some? <==> id in records
      ensures r.Some? ==> r.value == records[id] && r.value.id == id
    {
      r := if id in records then Some(records[id]) else None;
    }

    /** Appends an `Add` record with the message to the collection. */
    method SetAddUnchecked(collection: string, message: string, timestamp: int) returns (r: MemoryRecord)
      requires Valid()
      modifies this
      ensures Valid()
      ensures r.op == Some(Add) && r.message == message
      ensures r.timestamp == timestamp && r.author == author && r.email == email
      ensures r.id == Ids.RecordId(old(totalIds) + 1) && totalIds == old(totalIds) + 1
      ensures attachmentPool == old(attachmentPool)
      ensures r.parent == old(Head(collection))
      ensures r.attachments == old(HeadAttachments(collection))
      ensures r.id !in old(records) && records == old(records)[r.id := r]
      ensures heads == old(heads)[collection := r.id]
      ensures History(collection) == [r] + old(History(collection))
      ensures forall c :: c != collection ==> History(c) == old(History(c))
    {
      ghost var base := HeadAttachments(collection);
      OverlayNothing(base);
      var b := RecordBuilder(collection);
      b.Op(Add);
      r := b.Commit(message, timestamp);
    }

    /** Appends a `Del` record with the message to the collection. */
    method SetDelUnchecked(collection: string, message: string, timestamp: int) returns (r: MemoryRecord)
      requires Valid()
      modifies this
      ensures Valid()
      ensures r.op == Some(Del) && r.message == message
      ensures r.timestamp == timestamp && r.author == author && r.email == email
      ensures r.id == Ids.RecordId(old(totalIds) + 1) && totalIds == old(totalIds) + 1
      ensures attachmentPool == old(attachmentPool)
      ensures r.parent == old(Head(collection))
      ensures r.attachments == old(HeadAttachments(collection))
      ensures r.id !in old(records) && records == old(records)[r.id := r]
      ensures heads == old(heads)[collection := r.id]
      ensures History(collection) == [r] + old(History(collection))
      ensures forall c :: c != collection ==> History(c) == old(History(c))
    {
      ghost var base := HeadAttachments(collection);
      OverlayNothing(base);
      var b := RecordBuilder(collection);
      b.Op(Del);
      r := b.Commit(message, timestamp);
    }
  }

  /** A walk over a collection; `next` is the record the next call yields. */
  class MemoryIterator {
    const ws: MemoryWorkspace
    var next: Option<MemoryRecord>

    ghost predicate Valid()
      reads this, ws
    {
      ws.Valid() && (next.Some? ==> StoredAt(ws.records, next.value))
    }

    /** The records still to be yielded, in order. */
    ghost function Remaining(): seq<MemoryRecord>
      reads this, ws
      requires Valid()
    {
      if next.None? then [] else Chain(ws.records, ws.born, Some(next.value.id))
    }

    constructor (ws: MemoryWorkspace, next: Option<MemoryRecord>)
      requires ws.Valid() && (next.Some? ==> StoredAt(ws.records, next.value))
      ensures this.ws == ws && this.next == next && Valid()
    {
      this.ws := ws;
      this.next := next;
    }

    /** Yields the current record and moves to its parent. */
    method Next() returns (item: Option<MemoryRecord>)
      requires Valid()
      modifies this
      ensures Valid()
      ensures old(Remaining()) == if item.Some? then [item.value] + Remaining() else []
      ensures item.None? ==> Remaining() == []
    {
      item := next;
      if next.Some? {
        var parent := next.value.parent;
        ghost var rest := Chain(ws.records, ws.born, parent);
        assert old(Remaining()) == [next.value] + rest;
        next := if parent.Some? && parent.value in ws.records then Some(ws.records[parent.value]) else None;
        assert Remaining() == rest;
      }
    }
  }

  /** A walk that reads every record as a set operation. */
  class MemorySetIterator {
    const inner: MemoryIterator

    ghost predicate Valid()
      reads this, inner, inner.ws
    {
      inner.Valid()
    }

    /** The items still to be yielded, in order. */
    ghost function Remaining(): seq<Result<(MemoryRecord, SetOperation), Error>>
      reads this, inner, inner.ws
      requires Valid()
    {
      SetItems(inner.Remaining())
    }

    constructor (inner: MemoryIterator)
      requires inner.Valid()
      ensures this.inner == inner && Valid()
    {
      this.inner := inner;
    }

    /** Yields the next record with its operation, or `Malformed` when it has none. */
    method Next() returns (item: Option<Result<(MemoryRecord, SetOperation), Error>>)
      requires Valid()
      modifies inner
      ensures Valid()
      ensures old(Remaining()) == if item.Some? then [item.value] + Remaining() else []
      ensures item.None? ==> Remaining() == []
    {
      var r := inner.Next();
      if r.Some? {
        item := Some(SetItem(r.value));
        assert old(SetItems(inner.Remaining())) == [item.value] + SetItems(inner.Remaining());
      } else {
        item := None;
      }
    }
  }

  /** Collects a new record's op and attachment changes until it is committed. */
  class MemoryRecordBuilder {
    const ws: MemoryWorkspace
    const collection: string
    var pending: map<string, Option<string>>
    var op: Option<SetOperation>

    /** The workspace is valid and every pending upsert names stored data. */
    ghost predicate Valid()
      reads this, ws
    {
      && ws.Valid()
      && (forall n :: n in pending && pending[n].Some? ==> pending[n].value in ws.attachmentPool)
    }

    constructor (ws: MemoryWorkspace, collection: string)
      requires ws.Valid()
      ensures this.ws == ws && this.collection == collection && Valid()
      ensures pending == map[] && op == None
    {
      this.ws := ws;
      this.collection := collection;
      pending := map[];
      op := None;
    }

    /** Marks the record as a set operation. */
    method Op(o: SetOperation)
      requires Valid()
      modifies this
      ensures Valid()
      ensures op == Some(o) && pending == old(pending)
    {
      op := Some(o);
    }

    /** Stores the data and records that the named attachment is to point at it. */
    method UpsertAttachment(name: string, data: seq<byte>)
      requires Valid()
      modifies this, ws`attachmentPool
      ensures Valid()
      ensures ws.attachmentPool == old(ws.attachmentPool)[Ids.ContentId(data) := data]
      ensures pending == old(pending)[name := Some(Ids.ContentId(data))] && op == old(op)
    {
      var id := ws.InsertAttachment(data);
      pending := pending[name := Some(id)];
    }

    /** Records that the named attachment is to be removed. */
    method RemoveAttachment(name: string)
      requires Valid()
      modifies this
      ensures Valid()
      ensures pending == old(pending)[name := None] && op == old(op)
    {
      pending := pending[name := None];
    }

    /**
     * Makes the record: a fresh id, the collection's head as parent, the
     * parent's attachments with the pending changes applied; then stores it
     * and moves the head to it.
     */
    method Commit(message: string, timestamp: int) returns (r: MemoryRecord)
      requires Valid()
      modifies ws
      ensures ws.Valid()
      ensures ws.totalIds == old(ws.totalIds) + 1
      ensures r.id == Ids.RecordId(ws.totalIds) && r.id !in old(ws.records)
      ensures r.parent == old(ws.Head(collection))
      ensures r.attachments == Overlay(old(ws.HeadAttachments(collection)), pending)
      ensures r.op == op && r.message == message && r.timestamp == timestamp
      ensures r.author == ws.author && r.email == ws.email
      ensures ws.records == old(ws.records)[r.id := r]
      ensures ws.born == old(ws.born)[r.id := ws.totalIds]
      ensures ws.heads == old(ws.heads)[collection := r.id]
      ensures ws.attachmentPool == old(ws.attachmentPool)
      ensures ws.History(collection) == [r] + old(ws.History(collection))
      ensures forall c :: c != collection ==> ws.History(c) == old(ws.History(c))
    {
      var id := ws.NextId();
      var parent := if collection in ws.heads then Some(ws.heads[collection]) else None;
      var base := if parent.Some? && parent.value in ws.records then ws.records[parent.value].attachments
                  else map[];
      var attachments := ApplyPending(base);
      r := MemoryRecord(id, parent, ws.author, ws.email, message, timestamp, op, attachments);
      forall n | n in attachments
        ensures attachments[n] in ws.attachmentPool
      {
        if n !in pending {
          assert base[n] in ws.attachmentPool;
        }
      }
      ws.Store(collection, r);
    }

    /** Applies the pending changes to the parent's attachments, one name at a time. */
    method ApplyPending(base: map<string, string>) returns (attachments: map<string, string>)
      ensures attachments == Overlay(base, pending)
    {
      attachments := base;
      var todo := pending.Keys;
      while todo != {}
        invariant todo <= pending.Keys
        invariant attachments == Overlay(base, Done(pending, todo))
        decreases |todo|
      {
        var name :| name in todo;
        OverlayUpdate(base, Done(pending, todo), name, pending[name]);
        DoneStep(pending, todo, name);
        match pending[name] {
          case Some(a) => attachments := attachments[name := a];
          case None => attachments := attachments - {name};
        }
        todo := todo - {name};
      }
      assert Done(pending, {}) == pending;
    }
  }

  // ---------------------------------------------------------------------
  // Draining an iterator

  lemma SeqAppendAssoc<T>(a: seq<T>, b: seq<T>, c: seq<T>)
    ensures a + (b + c) == (a + b) + c
  {
  }

  /** Runs a walk to its end, collecting what it yields. */
  method Collect(it: MemoryIterator) returns (rs: seq<MemoryRecord>)
    requires it.Valid()
    modifies it
    ensures rs == old(it.Remaining())
  {
    rs := [];
    while true
      invariant it.Valid()
      invariant old(it.Remaining()) == rs + it.Remaining()
      decreases |it.Remaining()|
    {
      var item := it.Next();
      if item.None? {
        break;
      }
      SeqAppendAssoc(rs, [item.value], it.Remaining());
      rs := rs + [item.value];
    }
  }

  /** Runs a set walk to its end, collecting what it yields. */
  method CollectSet(it: MemorySetIterator) returns (items: seq<Result<(MemoryRecord, SetOperation), Error>>)
    requires it.Valid()
    modifies it.inner
    ensures items == old(it.Remaining())
  {
    items := [];
    while true
      invariant it.Valid()
      invariant old(it.Remaining()) == items + it.Remaining()
      decreases |it.Remaining()|
    {
      var item := it.Next();
      if item.None? {
        break;
      }
      SeqAppendAssoc(items, [item.value], it.Remaining());
      items := items + [item.value];
    }
  }

  // ---------------------------------------------------------------------
  // The shared workspace acceptance scenarios, on a fresh in-memory workspace

  /** A committed record can be read back by its id. */
  method CommitThenGet() returns (committed: MemoryRecord, fetched: Option<MemoryRecord>)
    ensures committed.message == "test"
    ensures fetched == Some(committed)
  {
    var ws := new MemoryWorkspace("Max Mustermann", "max@example.com");
    var b := ws.RecordBuilder("coll");
    committed := b.Commit("test", 0);
    fetched := ws.GetRecord(committed.id);
  }

  /** Two commits on one collection walk back newest first. */
  method WalkNewestFirst() returns (first: MemoryRecord, second: MemoryRecord, walked: seq<MemoryRecord>)
    ensures first.message == "test" && second.message == "test2"
    ensures first.id != second.id
    ensures walked == [second, first]
  {
    var ws := new MemoryWorkspace("Max Mustermann", "max@example.com");
    var b := ws.RecordBuilder("coll");
    first := b.Commit("test", 0);
    assert ws.History("coll") == [first];
    b := ws.RecordBuilder("coll");
    second := b.Commit("test2", 0);
    assert ws.History("coll") == [second, first];
    var it := ws.Walk("coll");
    walked := Collect(it);
  }

  /** The message and op of each record of a walk. */
  function Summary(rs: seq<MemoryRecord>): seq<(string, Option<SetOperation>)>
  {
    seq(|rs|, i requires 0 <= i < |rs| => (rs[i].message, rs[i].op))
  }

  lemma SummaryCons(r: MemoryRecord, rs: seq<MemoryRecord>)
    ensures Summary([r] + rs) == [(r.message, r.op)] + Summary(rs)
  {
  }

  /** What a walk shows of a sequence of set operations, newest first. */
  function NewestFirst(ops: seq<(string, SetOperation)>): seq<(string, Option<SetOperation>)>
  {
    if ops == [] then []
    else [(ops[|ops| - 1].0, Some(ops[|ops| - 1].1))] + NewestFirst(ops[..|ops| - 1])
  }

  lemma NewestFirstStep(ops: seq<(string, SetOperation)>, i: nat)
    requires i < |ops|
    ensures NewestFirst(ops[..i + 1]) == [(ops[i].0, Some(ops[i].1))] + NewestFirst(ops[..i])
  {
    assert ops[..i + 1][..i] == ops[..i];
  }

  /** Appends one set-operation record, through `set_add_unchecked` or `set_del_unchecked`. */
  method AppendOp(ws: MemoryWorkspace, collection: string, op: (string, SetOperation), timestamp: int)
    requires ws.Valid()
    modifies ws
    ensures ws.Valid()
    ensures Summary(ws.History(collection)) == [(op.0, Some(op.1))] + old(Summary(ws.History(collection)))
  {
    ghost var before := ws.History(collection);
    var r;
    if op.1 == Add {
      r := ws.SetAddUnchecked(collection, op.0, timestamp);
    } else {
      r := ws.SetDelUnchecked(collection, op.0, timestamp);
    }
    SummaryCons(r, before);
  }

  /** Appends one set-operation record per element of `ops`, in order. */
  method AppendAll(ws: MemoryWorkspace, collection: string, ops: seq<(string, SetOperation)>, timestamp: int)
    requires ws.Valid()
    modifies ws
    ensures ws.Valid()
    ensures Summary(ws.History(collection)) == NewestFirst(ops) + old(Summary(ws.History(collection)))
  {
    var i := 0;
    ghost var s0 := Summary(ws.History(collection));
    while i < |ops|
      invariant 0 <= i <= |ops| && ws.Valid()
      invariant Summary(ws.History(collection)) == NewestFirst(ops[..i]) + s0
    {
      AppendOp(ws, collection, ops[i], timestamp);
      ghost var x := (ops[i].0, Some(ops[i].1));
      NewestFirstStep(ops, i);
      SeqAppendAssoc([x], NewestFirst(ops[..i]), s0);
      i := i + 1;
    }
    assert ops[..i] == ops;
  }

  /** The set operations of the set-walk acceptance scenario, oldest first. */
  const ScenarioOps: seq<(string, SetOperation)> :=
    [("test", Add), ("test", Del), ("test2", Add), ("test3", Add),
     ("test4", Add), ("test5", Add), ("test4", Del)]

  lemma ScenarioOpsNewestFirst()
    ensures NewestFirst(ScenarioOps)
         == [("test4", Some(Del)), ("test5", Some(Add)), ("test4", Some(Add)), ("test3", Some(Add)),
             ("test2", Some(Add)), ("test", Some(Del)), ("test", Some(Add))]
  {
    var ops := ScenarioOps;
    assert ops[..0] == [];
    NewestFirstStep(ops, 0);
    NewestFirstStep(ops, 1);
    NewestFirstStep(ops, 2);
    NewestFirstStep(ops, 3);
    NewestFirstStep(ops, 4);
    NewestFirstStep(ops, 5);
    NewestFirstStep(ops, 6);
    assert ops[..7] == ops;
  }

  /** When a walk shows only set operations, the set iterator yields each of them. */
  lemma SetItemsOfSummary(h: seq<MemoryRecord>, shown: seq<(string, Option<SetOperation>)>)
    requires Summary(h) == shown
    requires forall i :: 0 <= i < |shown| ==> shown[i].1.Some?
    ensures |SetItems(h)| == |shown|
    ensures forall i :: 0 <= i < |shown| ==>
              SetItems(h)[i] == Ok((h[i], shown[i].1.value)) && h[i].message == shown[i].0
  {
    forall i | 0 <= i < |shown|
      ensures SetItems(h)[i] == Ok((h[i], shown[i].1.value)) && h[i].message == shown[i].0
    {
      assert Summary(h)[i] == (h[i].message, h[i].op);
    }
  }

  /** The walk of the set-walk acceptance scenario, newest first. */
  const ScenarioWalk: seq<(string, SetOperation)> :=
    [("test4", Del), ("test5", Add), ("test4", Add), ("test3", Add),
     ("test2", Add), ("test", Del), ("test", Add)]

  /** A history showing the scenario's operations yields `ScenarioWalk` through the set iterator. */
  lemma ScenarioSetItems(h: seq<MemoryRecord>)
    requires Summary(h) == NewestFirst(ScenarioOps)
    ensures |SetItems(h)| == |ScenarioWalk|
    ensures forall i :: 0 <= i < |ScenarioWalk| ==>
              SetItems(h)[i].Ok? && SetItems(h)[i].value.0.message == ScenarioWalk[i].0
              && SetItems(h)[i].value.1 == ScenarioWalk[i].1
  {
    ScenarioOpsNewestFirst();
    SetItemsOfSummary(h, NewestFirst(ScenarioOps));
  }

  /** Seven set operations walk back as (message, op) pairs, newest first. */
  method SetWalkNewestFirst() returns (items: seq<Result<(MemoryRecord, SetOperation), Error>>)
    ensures |items| == |ScenarioWalk|
    ensures forall i :: 0 <= i < |items| ==>
              items[i].Ok? && items[i].value.0.message == ScenarioWalk[i].0
              && items[i].value.1 == ScenarioWalk[i].1
  {
    var ws := new MemoryWorkspace("Max Mustermann", "max@example.com");
    assert Summary(ws.History("coll")) == [];
    AppendAll(ws, "coll", ScenarioOps, 0);
    ScenarioSetItems(ws.History("coll"));
    var it := ws.WalkSet("coll");
    items := CollectSet(it);
  }
}
