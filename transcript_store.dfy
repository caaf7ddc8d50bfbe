/**
 * The transcript controllers (server/Controllers/transcriptControllers.js)
 * over a store of transcript documents: listing the most recent
 * transcripts, fetching one, saving a new transcript with its extracted
 * action items, and adding, editing and deleting a single action item.
 *
 * The database is a map from document id to document. Fresh ids (new
 * transcripts and new action items) come from an injective `mint` and a
 * counter, standing for ObjectId generation; `isValidObjectId` is a
 * parameter of the store.
 */
module TranscriptStore {
  import opened JsValue
  import opened JsString
  import opened FormatItems
  import opened TranscriptModel

  /** One entry of the recent-transcripts listing: `select("_id createdAt")`. */
  datatype Header = Header(id: Value, createdAt: int)

  /** The JSON body of a response. */
  datatype Body =
    | Message(error: string)
    | Document(doc: Transcript)
    | ItemList(actionItems: seq<CleanItem>)
    | Headers(headers: seq<Header>)

  /** What a handler does: a response, or its promise rejects because nothing in it catches the error. */
  datatype Outcome = Respond(status: int, body: Body) | Unhandled

  /** The `catch` branch of every handler that has one. */
  const InternalError: Outcome := Respond(500, Message("Internal Server Error"))

  // ---------------------------------------------------------------------
  // Listing the most recent transcripts
  // ---------------------------------------------------------------------

  /**
   * `Number(req.query.limit) || 5` followed by Mongo's `limit`, which reads
   * a negative limit as its absolute value. `None` is a query that is not
   * a number (`NaN`, which is falsy, as is 0).
   */
  function EffectiveLimit(query: Option<int>): (n: nat)
    ensures n > 0
    ensures query.None? || query.value == 0 ==> n == 5
    ensures query.Some? && query.value != 0 ==> n == query.value || n == -query.value
  {
    match query
    case None => 5
    case Some(q) => if q == 0 then 5 else if q < 0 then -q else q
  }

  /** The ids a listing names. */
  function Listed(hs: seq<Header>): set<Value> {
    set i | 0 <= i < |hs| :: hs[i].id
  }

  /**
   * `hs` is what `find({}).sort({ createdAt: -1 }).limit(limit)` may return:
   * as many transcripts as the limit allows, each once, newest first, and
   * none left out that is newer than one listed.
   */
  ghost predicate IsRecentListing(docs: map<Value, Transcript>, limit: nat, hs: seq<Header>) {
    && |hs| == (if limit < |docs| then limit else |docs|)
    && (forall i :: 0 <= i < |hs| ==> hs[i].id in docs && hs[i].createdAt == docs[hs[i].id].createdAt)
    && (forall i, j :: 0 <= i < j < |hs| ==> hs[i].id != hs[j].id)
    && (forall i, j :: 0 <= i < j < |hs| ==> hs[j].createdAt <= hs[i].createdAt)
    && (forall k, i :: k in docs && k !in Listed(hs) && 0 <= i < |hs| ==> docs[k].createdAt <= hs[i].createdAt)
  }

  /** `k` is a newest transcript among `keys`. */
  predicate IsNewest(docs: map<Value, Transcript>, keys: set<Value>, k: Value)
    requires keys <= docs.Keys
  {
    k in keys && forall j :: j in keys ==> docs[j].createdAt <= docs[k].createdAt
  }

  lemma {:induction false} NewestExists(docs: map<Value, Transcript>, keys: set<Value>)
    requires keys <= docs.Keys && keys != {}
    ensures exists k :: IsNewest(docs, keys, k)
    decreases keys
  {
    var x :| x in keys;
    if keys == {x} {
      assert IsNewest(docs, keys, x);
    } else {
      NewestExists(docs, keys - {x});
      var y :| IsNewest(docs, keys - {x}, y);
      if docs[x].createdAt <= docs[y].createdAt {
        assert IsNewest(docs, keys, y);
      } else {
        assert IsNewest(docs, keys, x);
      }
    }
  }

  lemma ListedSnoc(hs: seq<Header>, h: Header)
    ensures Listed(hs + [h]) == Listed(hs) + {h.id}
  {
    var all := hs + [h];
    assert all[|hs|] == h;
    assert forall i :: 0 <= i < |hs| ==> all[i] == hs[i];
  }

  /**
   * What holds after each round of the selection: `hs` lists the chosen
   * transcripts newest first, and every transcript still `remaining` is no
   * newer than any chosen one.
   */
  ghost predicate SelectionInvariant(docs: map<Value, Transcript>, remaining: set<Value>, hs: seq<Header>) {
    && docs.Keys == remaining + Listed(hs)
    && remaining !! Listed(hs)
    && |hs| + |remaining| == |docs|
    && (forall i :: 0 <= i < |hs| ==> hs[i].id in docs && hs[i].createdAt == docs[hs[i].id].createdAt)
    && (forall i, j :: 0 <= i < j < |hs| ==> hs[i].id != hs[j].id)
    && (forall i, j :: 0 <= i < j < |hs| ==> hs[j].createdAt <= hs[i].createdAt)
    && (forall k, i :: k in remaining && 0 <= i < |hs| ==> docs[k].createdAt <= hs[i].createdAt)
  }

  /** The bookkeeping half of a selection round: `k` moves from `remaining` to the listing. */
  lemma SelectionSetsStep(docs: map<Value, Transcript>, remaining: set<Value>, hs: seq<Header>, h: Header)
    requires docs.Keys == remaining + Listed(hs) && remaining !! Listed(hs) && |hs| + |remaining| == |docs|
    requires h.id in remaining
    ensures docs.Keys == (remaining - {h.id}) + Listed(hs + [h])
    ensures (remaining - {h.id}) !! Listed(hs + [h])
    ensures |hs + [h]| + |remaining - {h.id}| == |docs|
  {
    ListedSnoc(hs, h);
  }

  /** The ordering half of a selection round: a newest remaining transcript goes last. */
  lemma SelectionOrderStep(docs: map<Value, Transcript>, remaining: set<Value>, hs: seq<Header>, k: Value)
    requires remaining <= docs.Keys && remaining !! Listed(hs) && IsNewest(docs, remaining, k)
    requires forall i :: 0 <= i < |hs| ==> hs[i].id in docs && hs[i].createdAt == docs[hs[i].id].createdAt
    requires forall i, j :: 0 <= i < j < |hs| ==> hs[i].id != hs[j].id
    requires forall i, j :: 0 <= i < j < |hs| ==> hs[j].createdAt <= hs[i].createdAt
    requires forall x, i :: x in remaining && 0 <= i < |hs| ==> docs[x].createdAt <= hs[i].createdAt
    ensures var hs' := hs + [Header(k, docs[k].createdAt)];
      && (forall i :: 0 <= i < |hs'| ==> hs'[i].id in docs && hs'[i].createdAt == docs[hs'[i].id].createdAt)
      && (forall i, j :: 0 <= i < j < |hs'| ==> hs'[i].id != hs'[j].id)
      && (forall i, j :: 0 <= i < j < |hs'| ==> hs'[j].createdAt <= hs'[i].createdAt)
      && (forall x, i :: x in remaining - {k} && 0 <= i < |hs'| ==> docs[x].createdAt <= hs'[i].createdAt)
  {
    var h := Header(k, docs[k].createdAt);
    var hs' := hs + [h];
    assert hs'[|hs|] == h;
    assert forall i :: 0 <= i < |hs| ==> hs'[i] == hs[i];
    forall i, j | 0 <= i < j < |hs'| ensures hs'[i].id != hs'[j].id {
      if j == |hs| {
        assert hs[i].id in Listed(hs);
      }
    }
  }

  /** Choosing a newest remaining transcript keeps the selection invariant. */
  lemma SelectionStep(docs: map<Value, Transcript>, remaining: set<Value>, hs: seq<Header>, k: Value)
    requires remaining <= docs.Keys
    requires SelectionInvariant(docs, remaining, hs) && IsNewest(docs, remaining, k)
    ensures SelectionInvariant(docs, remaining - {k}, hs + [Header(k, docs[k].createdAt)])
  {
    SelectionSetsStep(docs, remaining, hs, Header(k, docs[k].createdAt));
    SelectionOrderStep(docs, remaining, hs, k);
  }

  /** Before the first round nothing is chosen and everything remains. */
  lemma SelectionStart(docs: map<Value, Transcript>)
    ensures SelectionInvariant(docs, docs.Keys, [])
  {
    assert Listed([]) == {};
  }

  /** When the limit is reached or nothing remains, the chosen headers are a recent listing. */
  lemma SelectionDone(docs: map<Value, Transcript>, remaining: set<Value>, hs: seq<Header>, limit: nat)
    requires SelectionInvariant(docs, remaining, hs) && |hs| <= limit
    requires |hs| == limit || remaining == {}
    ensures IsRecentListing(docs, limit, hs)
  {
    assert |docs| == |docs.Keys|;
    forall k, i | k in docs && k !in Listed(hs) && 0 <= i < |hs| ensures docs[k].createdAt <= hs[i].createdAt {
      assert k in remaining;
    }
  }

  /** The sorted, limited listing, picking the newest remaining transcript each round. */
  method RecentHeaders(docs: map<Value, Transcript>, limit: nat) returns (hs: seq<Header>)
    ensures IsRecentListing(docs, limit, hs)
  {
    var remaining := docs.Keys;
    hs := [];
    SelectionStart(docs);
    while |hs| < limit && remaining != {}
      invariant remaining <= docs.Keys
      invariant SelectionInvariant(docs, remaining, hs)
      invariant |hs| <= limit
      decreases |remaining|
    {
      NewestExists(docs, remaining);
      var k :| IsNewest(docs, remaining, k);
      SelectionStep(docs, remaining, hs, k);
      hs := hs + [Header(k, docs[k].createdAt)];
      remaining := remaining - {k};
    }
    SelectionDone(docs, remaining, hs, limit);
  }

  // ---------------------------------------------------------------------
  // Finding, replacing and removing an embedded action item
  // ---------------------------------------------------------------------

  /** `doc.actionItems.id(id)`: the position of the first item with that id. */
  function IndexOf(items: seq<ActionItem>, id: Value): (r: Option<nat>)
    ensures r.Some? ==> r.value < |items| && items[r.value].id == id
    ensures r.Some? ==> forall j :: 0 <= j < r.value ==> items[j].id != id
    ensures r.None? <==> id !in ItemIds(items)
  {
    if |items| == 0 then None
    else if items[0].id == id then Some(0)
    else match IndexOf(items[1..], id)
      case None => None
      case Some(k) => Some(k + 1)
  }

  /** With distinct ids, the item with a given id is found at its own position. */
  lemma IndexOfUnique(items: seq<ActionItem>, i: nat)
    requires DistinctIds(items) && i < |items|
    ensures IndexOf(items, items[i].id) == Some(i)
  {
    assert items[i].id in ItemIds(items);
  }

  /** The list without its item at position `i` (`item.deleteOne()`). */
  function RemoveAt(items: seq<ActionItem>, i: nat): seq<ActionItem>
    requires i < |items|
  {
    items[..i] + items[i + 1..]
  }

  /** Removing an item keeps every other item, in order, and removes one copy of it. */
  lemma RemoveAtElements(items: seq<ActionItem>, i: nat)
    requires i < |items|
    ensures |RemoveAt(items, i)| == |items| - 1
    ensures forall k :: 0 <= k < |items| - 1 ==> RemoveAt(items, i)[k] == items[if k < i then k else k + 1]
    ensures multiset(RemoveAt(items, i)) + multiset{items[i]} == multiset(items)
  {
    assert items == items[..i] + [items[i]] + items[i + 1..];
  }

  /**
   * Removing an item keeps every other item in order, and in a list with
   * distinct ids it removes exactly that item's id.
   */
  lemma RemoveAtSpec(items: seq<ActionItem>, i: nat)
    requires DistinctIds(items) && i < |items|
    ensures |RemoveAt(items, i)| == |items| - 1
    ensures forall k :: 0 <= k < |items| - 1 ==> RemoveAt(items, i)[k] == items[if k < i then k else k + 1]
    ensures multiset(RemoveAt(items, i)) + multiset{items[i]} == multiset(items)
    ensures DistinctIds(RemoveAt(items, i))
    ensures ItemIds(RemoveAt(items, i)) == ItemIds(items) - {items[i].id}
  {
    RemoveAtElements(items, i);
    RemoveAtIds(items, i, RemoveAt(items, i));
  }

  /** A list made of all items but the one at `i`, in order, has exactly the other ids, each once. */
  lemma RemoveAtIds(items: seq<ActionItem>, i: nat, r: seq<ActionItem>)
    requires DistinctIds(items) && i < |items| && |r| == |items| - 1
    requires forall k :: 0 <= k < |r| ==> r[k] == items[if k < i then k else k + 1]
    ensures DistinctIds(r)
    ensures ItemIds(r) == ItemIds(items) - {items[i].id}
  {
    forall a, b | 0 <= a < b < |r| ensures r[a].id != r[b].id {
      assert r[a] == items[if a < i then a else a + 1];
      assert r[b] == items[if b < i then b else b + 1];
    }
    forall x | x in ItemIds(r) ensures x in ItemIds(items) - {items[i].id} {
      var j :| 0 <= j < |r| && r[j].id == x;
      assert r[j] == items[if j < i then j else j + 1];
    }
    forall x | x in ItemIds(items) - {items[i].id} ensures x in ItemIds(r) {
      var j :| 0 <= j < |items| && items[j].id == x;
      assert j != i;
      assert r[if j < i then j else j - 1].id == x;
    }
  }

  /** Replacing an item by one with the same id keeps the ids as they were. */
  lemma ReplaceKeepsIds(items: seq<ActionItem>, i: nat, item: ActionItem)
    requires DistinctIds(items) && i < |items| && item.id == items[i].id
    ensures DistinctIds(items[i := item])
    ensures ItemIds(items[i := item]) == ItemIds(items)
  {
    var r := items[i := item];
    forall x | x in ItemIds(items) ensures x in ItemIds(r) {
      var j :| 0 <= j < |items| && items[j].id == x;
      assert r[j].id == x;
    }
  }

  // ---------------------------------------------------------------------
  // Reading request fields the way the handlers do
  // ---------------------------------------------------------------------

  /** A field value after the handler's expression, or a failure (a thrown error or a value the schema cannot store). */
  datatype Field<T> = Given(value: T) | Fails

  /**
   * `owner ? owner.trim() : null`: a falsy owner is null, a string is
   * trimmed, and any other truthy value has no `trim` and throws.
   */
  function OwnerField(owner: Value): (f: Field<Option<string>>)
    ensures f.Fails? <==> Truthy(owner) && !owner.Str?
    ensures f.Given? && f.value.Some? ==> owner.Str? && f.value.value == Trim(owner.s)
    ensures f.Given? && f.value.None? <==> !Truthy(owner)
  {
    if !Truthy(owner) then Given(None)
    else if owner.Str? then Given(Some(Trim(owner.s)))
    else Fails
  }

  /**
   * `dueDate || null` as the schema stores it: a falsy value is null and a
   * string is kept as given (the schema does not trim it). Every other
   * truthy value is taken to fail at save. That is exact for numbers and
   * booleans (`5` becomes "5", which lacks the date shape) but not for every
   * object: Mongoose stores the string `_id` of `{"_id": "2025-01-01"}`,
   * and this model does not.
   */
  function DueDateField(dueDate: Value): (f: Field<Option<string>>)
    ensures f.Fails? <==> Truthy(dueDate) && !dueDate.Str?
    ensures f.Given? && f.value.Some? ==> dueDate.Str? && f.value.value == dueDate.s
    ensures f.Given? && f.value.None? <==> !Truthy(dueDate)
  {
    if !Truthy(dueDate) then Given(None)
    else if dueDate.Str? then Given(Some(dueDate.s))
    else Fails
  }

  /**
   * The request fields of an edit that survive the handler's own checks and
   * the schema's casts: a given task and owner can be trimmed, a given due
   * date can be stored as a string, a given `done` is a boolean, and the
   * task is not blank.
   */
  predicate EditFieldsCast(task: Value, owner: Value, dueDate: Value, done: Value) {
    && (task == Undefined || (task.Str? && Trim(task.s) != ""))
    && (owner == Undefined || OwnerField(owner).Given?)
    && (dueDate == Undefined || DueDateField(dueDate).Given?)
    && (done == Undefined || done.Bool?)
  }

  /**
   * The checks `edit_task` makes on the sent fields, in its order: the
   * response of the first one that fails, or `None` when the edit can be
   * applied. A task that is not a string or an owner that is neither falsy
   * nor a string has no `trim` (500); a blank task is refused (400); a
   * `done` that is not a boolean is refused (400); a due date that is truthy
   * but not a string cannot be stored (500).
   */
  function EditRejection(task: Value, owner: Value, dueDate: Value, done: Value): (r: Option<Outcome>)
    ensures r.None? <==> EditFieldsCast(task, owner, dueDate, done)
    ensures r.Some? ==> r.value == InternalError || (r.value.Respond? && r.value.status == 400)
    ensures task != Undefined && !task.Str? ==> r == Some(InternalError)
    ensures task.Str? && Trim(task.s) == "" ==> r == Some(Respond(400, Message("Task cannot be empty")))
  {
    if task != Undefined && !task.Str? then Some(InternalError)
    else if task.Str? && Trim(task.s) == "" then Some(Respond(400, Message("Task cannot be empty")))
    else if owner != Undefined && OwnerField(owner).Fails? then Some(InternalError)
    else if done != Undefined && !done.Bool? then Some(Respond(400, Message("Done must be boolean")))
    else if dueDate != Undefined && DueDateField(dueDate).Fails? then Some(InternalError)
    else None
  }

  /** The item after an edit: each field that was sent replaces the stored one. */
  function PatchItem(item: ActionItem, task: Value, owner: Value, dueDate: Value, done: Value): (r: ActionItem)
    requires EditFieldsCast(task, owner, dueDate, done)
  {
    item.(
      task := if task == Undefined then item.task else Trim(task.s),
      owner := if owner == Undefined then item.owner else OwnerField(owner).value,
      dueDate := if dueDate == Undefined then item.dueDate else DueDateField(dueDate).value,
      done := if done == Undefined then item.done else done.b)
  }

  /**
   * `String(transcript)` as `Transcript.create` casts `rawText`: a string
   * is kept, a boolean or number becomes its text, and an array or object
   * cannot be cast. `numberText` stands for `Number.prototype.toString`.
   */
  function CastRawText(transcript: Value, numberText: real -> string): (r: Option<string>)
    ensures transcript.Str? ==> r == Some(transcript.s)
    ensures transcript.Arr? || transcript.Obj? ==> r.None?
  {
    match transcript
    case Str(s) => Some(s)
    case Bool(b) => Some(if b then "true" else "false")
    case Num(n) => Some(numberText(n))
    case _ => None
  }

  // ---------------------------------------------------------------------
  // The store and the handlers
  // ---------------------------------------------------------------------

  /** `doc.actionItems.push(item)`. */
  function WithItem(t: Transcript, item: ActionItem): (r: Transcript)
    ensures r.id == t.id && r.rawText == t.rawText && r.createdAt == t.createdAt
    ensures |r.actionItems| == |t.actionItems| + 1
    ensures r.actionItems[..|t.actionItems|] == t.actionItems && r.actionItems[|t.actionItems|] == item
  {
    t.(actionItems := t.actionItems + [item])
  }

  /** The task check of `add_task`: a falsy task, or one whose trim is shorter than 2 units. */
  predicate TaskRefused(task: Value) {
    !Truthy(task) || (task.Str? && Utf16Length(Trim(task.s)) < TaskMinLength)
  }

  /** A task `add_task` accepts: a string whose trim has at least 2 units. */
  predicate TaskAccepted(task: Value) {
    task.Str? && Utf16Length(Trim(task.s)) >= TaskMinLength
  }

  /** `add_task` classifies every task: refused (400), accepted, or a truthy non-string whose `trim` throws (500). */
  lemma TaskCheckCases(task: Value)
    ensures TaskRefused(task) || TaskAccepted(task) || (Truthy(task) && !task.Str?)
    ensures !(TaskRefused(task) && TaskAccepted(task))
    ensures TaskAccepted(task) ==> ValidTask(Trim(task.s)) || Utf16Length(Trim(task.s)) > TaskMaxLength
  {
  }

  /** The transcript `transcriptId` exists and holds an item `actionItemId`. */
  predicate Locates(docs: map<Value, Transcript>, transcriptId: Value, actionItemId: Value) {
    transcriptId in docs && actionItemId in ItemIds(docs[transcriptId].actionItems)
  }

  /** The document after its item at position `i` is edited. */
  function Edited(t: Transcript, i: nat, task: Value, owner: Value, dueDate: Value, done: Value): Transcript
    requires i < |t.actionItems| && EditFieldsCast(task, owner, dueDate, done)
  {
    t.(actionItems := t.actionItems[i := PatchItem(t.actionItems[i], task, owner, dueDate, done)])
  }

  /**
   * An edit changes one item and, of that item, only the fields the request
   * sends: the id stays, and every other item of the document is untouched.
   */
  lemma EditChangesOnlySentFields(t: Transcript, i: nat, task: Value, owner: Value, dueDate: Value, done: Value)
    requires i < |t.actionItems| && EditFieldsCast(task, owner, dueDate, done)
    ensures var e := Edited(t, i, task, owner, dueDate, done); var before := t.actionItems[i]; var after := e.actionItems[i];
      && e.id == t.id && e.rawText == t.rawText && |e.actionItems| == |t.actionItems|
      && (forall j :: 0 <= j < |t.actionItems| && j != i ==> e.actionItems[j] == t.actionItems[j])
      && after.id == before.id
      && (if task == Undefined then after.task == before.task else after.task == Trim(task.s) && after.task != "")
      && (if owner == Undefined then after.owner == before.owner
          else if Truthy(owner) then after.owner == Some(Trim(owner.s)) else after.owner == None)
      && (if dueDate == Undefined then after.dueDate == before.dueDate
          else if Truthy(dueDate) then after.dueDate == Some(dueDate.s) else after.dueDate == None)
      && (if done == Undefined then after.done == before.done else after.done == done.b)
  {
    var after := PatchItem(t.actionItems[i], task, owner, dueDate, done);
    assert Edited(t, i, task, owner, dueDate, done).actionItems == t.actionItems[i := after];
    if task != Undefined {
      assert after.task == Trim(task.s);
    }
  }

  /** An edit of a well-formed document that the schema accepts keeps it well-formed, with the same item ids. */
  lemma EditKeepsWellFormed(t: Transcript, i: nat, task: Value, owner: Value, dueDate: Value, done: Value)
    requires WellFormed(t) && i < |t.actionItems| && EditFieldsCast(task, owner, dueDate, done)
    requires ValidTranscript(Edited(t, i, task, owner, dueDate, done))
    ensures WellFormed(Edited(t, i, task, owner, dueDate, done))
    ensures ItemIds(Edited(t, i, task, owner, dueDate, done).actionItems) == ItemIds(t.actionItems)
  {
    ReplaceKeepsIds(t.actionItems, i, PatchItem(t.actionItems[i], task, owner, dueDate, done));
  }

  /** Removing the one item with a given id from a well-formed document leaves it well-formed, without that id. */
  lemma RemoveKeepsWellFormed(t: Transcript, i: nat)
    requires WellFormed(t) && i < |t.actionItems|
    ensures WellFormed(t.(actionItems := RemoveAt(t.actionItems, i)))
    ensures ItemIds(RemoveAt(t.actionItems, i)) == ItemIds(t.actionItems) - {t.actionItems[i].id}
  {
    RemoveAtSpec(t.actionItems, i);
  }

  // ---------------------------------------------------------------------
  // The store invariant and the updates that keep it
  // ---------------------------------------------------------------------

  /** `x` is neither a transcript id nor an item id of any stored transcript. */
  ghost predicate Unused(docs: map<Value, Transcript>, x: Value) {
    x !in docs && forall k :: k in docs ==> x !in ItemIds(docs[k].actionItems)
  }

  /**
   * Every stored document sits under its own id and passes the schema, its
   * items have distinct ids, and no id `mint` hands out from `serial` on is
   * in use.
   */
  ghost predicate StoreInvariant(mint: nat -> Value, docs: map<Value, Transcript>, serial: nat) {
    && (forall i: nat, j: nat :: mint(i) == mint(j) ==> i == j)
    && (forall k :: k in docs ==> docs[k].id == k && WellFormed(docs[k]))
    && (forall n: nat :: serial <= n ==> Unused(docs, mint(n)))
  }

  /** Creating a document whose id and item ids are the next fresh ids keeps the invariant. */
  lemma CreateKeepsInvariant(mint: nat -> Value, docs: map<Value, Transcript>, serial: nat, doc: Transcript)
    requires StoreInvariant(mint, docs, serial)
    requires doc.id == mint(serial) && ValidTranscript(doc)
    requires forall i :: 0 <= i < |doc.actionItems| ==> doc.actionItems[i].id == mint(serial + 1 + i)
    ensures StoreInvariant(mint, docs[doc.id := doc], serial + 1 + |doc.actionItems|)
  {
    var items := doc.actionItems;
    var docs' := docs[doc.id := doc];
    forall i, j | 0 <= i < j < |items| ensures items[i].id != items[j].id {
      assert mint(serial + 1 + i) != mint(serial + 1 + j);
    }
    assert Unused(docs, mint(serial));
    forall n: nat | serial + 1 + |items| <= n ensures Unused(docs', mint(n)) {
      assert Unused(docs, mint(n));
      assert mint(n) != doc.id;
      forall i | 0 <= i < |items| ensures items[i].id != mint(n) {
        assert items[i].id == mint(serial + 1 + i);
      }
    }
  }

  /** Appending an item with the next fresh id to a stored document keeps the invariant. */
  lemma AppendKeepsInvariant(mint: nat -> Value, docs: map<Value, Transcript>, serial: nat, k: Value, item: ActionItem)
    requires StoreInvariant(mint, docs, serial) && k in docs && item.id == mint(serial)
    requires ValidTranscript(docs[k].(actionItems := docs[k].actionItems + [item]))
    ensures StoreInvariant(mint, docs[k := docs[k].(actionItems := docs[k].actionItems + [item])], serial + 1)
  {
    var t := docs[k];
    var t' := t.(actionItems := t.actionItems + [item]);
    var docs' := docs[k := t'];
    assert Unused(docs, mint(serial));
    AppendIds(t.actionItems, item);
    forall n: nat | serial + 1 <= n ensures Unused(docs', mint(n)) {
      assert Unused(docs, mint(n));
      assert mint(n) != mint(serial);
    }
  }

  /**
   * Replacing a stored document by a well-formed one under the same id
   * whose item ids are among the old ones keeps the invariant.
   */
  lemma ReplaceKeepsInvariant(mint: nat -> Value, docs: map<Value, Transcript>, serial: nat, k: Value, t: Transcript)
    requires StoreInvariant(mint, docs, serial) && k in docs
    requires t.id == k && WellFormed(t) && ItemIds(t.actionItems) <= ItemIds(docs[k].actionItems)
    ensures StoreInvariant(mint, docs[k := t], serial)
  {
    forall n: nat | serial <= n ensures Unused(docs[k := t], mint(n)) {
      assert Unused(docs, mint(n));
    }
  }

  const TaskTooShort := "Task is required (min 2 chars)"

  /**
   * The transcripts collection. Every stored document sits under its own
   * id and passes the schema, its items have distinct ids, and no id that
   * `mint` will hand out later is in use anywhere.
   */
  class Store {
    /** `mongoose.Types.ObjectId.isValid`. */
    const isValidObjectId: Value -> bool
    /** The n-th fresh ObjectId. */
    const mint: nat -> Value
    var docs: map<Value, Transcript>
    var serial: nat

    ghost predicate Valid()
      reads this
    {
      StoreInvariant(mint, docs, serial)
    }

    constructor (isValidObjectId: Value -> bool, mint: nat -> Value)
      requires forall i: nat, j: nat :: mint(i) == mint(j) ==> i == j
      ensures Valid()
      ensures this.isValidObjectId == isValidObjectId && this.mint == mint
      ensures docs == map[] && serial == 0
    {
      this.isValidObjectId := isValidObjectId;
      this.mint := mint;
      docs := map[];
      serial := 0;
    }

    /**
     * `getTranscripts`: status 200 with the ids and creation times of the
     * most recent transcripts, at most `Number(limit) || 5` of them.
     */
    method GetTranscripts(limit: Option<int>) returns (res: Outcome)
      ensures res.Respond? && res.status == 200 && res.body.Headers?
      ensures IsRecentListing(docs, EffectiveLimit(limit), res.body.headers)
    {
      var hs := RecentHeaders(docs, EffectiveLimit(limit));
      res := Respond(200, Headers(hs));
    }

    /**
     * `individual_Transcript`: an id that is not an ObjectId makes
     * `findById` throw (500); a missing document is 404.
     */
    method GetTranscript(id: Value) returns (res: Outcome)
      ensures !isValidObjectId(id) ==> res == InternalError
      ensures isValidObjectId(id) && id !in docs ==> res == Respond(404, Message("Transcript not found"))
      ensures isValidObjectId(id) && id in docs ==> res == Respond(200, Document(docs[id]))
    {
      if !isValidObjectId(id) {
        return InternalError;
      }
      if id !in docs {
        return Respond(404, Message("Transcript not found"));
      }
      res := Respond(200, Document(docs[id]));
    }

    /** The fresh ids of a new transcript's items, in order, from `mint(base)` on. */
    function Stamp(cs: seq<CleanItem>, base: nat): (items: seq<ActionItem>)
      ensures |items| == |cs|
      ensures forall i :: 0 <= i < |cs| ==> items[i] == FromClean(mint(base + i), cs[i])
    {
      seq(|cs|, i requires 0 <= i < |cs| => FromClean(mint(base + i), cs[i]))
    }

    /**
     * `Transcript.create` once the schema has accepted the document: it is
     * stored under the next fresh id, its items carry the ids after that,
     * and those ids are used up.
     */
    method Create(doc: Transcript)
      requires Valid()
      requires doc.id == mint(serial) && ValidTranscript(doc)
      requires forall i :: 0 <= i < |doc.actionItems| ==> doc.actionItems[i].id == mint(serial + 1 + i)
      modifies this
      ensures Valid()
      ensures docs == old(docs)[doc.id := doc] && serial == old(serial) + 1 + |doc.actionItems|
    {
      CreateKeepsInvariant(mint, docs, serial, doc);
      docs := docs[doc.id := doc];
      serial := serial + 1 + |doc.actionItems|;
    }

    /**
     * The save of `add_task` once the schema has accepted the document: the
     * item, which carries the next fresh id, is stored at the end of the
     * document's items and that id is used up.
     */
    method Append(k: Value, item: ActionItem)
      requires Valid() && k in docs && item.id == mint(serial)
      requires ValidTranscript(WithItem(docs[k], item))
      modifies this
      ensures Valid()
      ensures docs == old(docs)[k := WithItem(old(docs)[k], item)] && serial == old(serial) + 1
    {
      AppendKeepsInvariant(mint, docs, serial, k, item);
      docs := docs[k := WithItem(docs[k], item)];
      serial := serial + 1;
    }

    /**
     * The save of `edit_task` and `deleteTask`: the document is replaced
     * under its id by one that passes the schema and whose item ids are
     * among the old ones.
     */
    method Replace(k: Value, t: Transcript)
      requires Valid() && k in docs
      requires t.id == k && WellFormed(t) && ItemIds(t.actionItems) <= ItemIds(docs[k].actionItems)
      modifies this
      ensures Valid()
      ensures docs == old(docs)[k := t] && serial == old(serial)
    {
      ReplaceKeepsInvariant(mint, docs, serial, k, t);
      docs := docs[k := t];
    }

    /**
     * `saveTranscript`. A falsy transcript is refused with 400. Otherwise
     * the action items are extracted and a document is created with the
     * trimmed text and those items; the response echoes the items. The
     * handler has no `catch`: a failed model call, a text that cannot be
     * cast or a document the schema refuses make the handler's promise reject.
     */
    method SaveTranscript(transcript: Value, completion: Completion, jsonParse: string -> Option<Value>,
                          numberText: real -> string, now: int) returns (res: Outcome)
      requires Valid()
      modifies this
      ensures Valid()
      ensures !Truthy(transcript) ==> res == Respond(400, Message("Transcript is required"))
      ensures IsNonEmptyString(transcript) && completion.CallFailed? ==> res == Unhandled
      ensures res.Respond? && res.status == 200 ==>
        && Truthy(transcript)
        && ExtractActionItems(transcript, completion, jsonParse).Extracted?
        && CastRawText(transcript, numberText).Some?
      ensures
        && Truthy(transcript)
        && ExtractActionItems(transcript, completion, jsonParse).Extracted?
        && CastRawText(transcript, numberText).Some?
        && ValidTranscript(Transcript(old(mint(serial)), Trim(CastRawText(transcript, numberText).value),
                                      old(Stamp(ExtractActionItems(transcript, completion, jsonParse).items, serial + 1)), now))
        ==> res.Respond? && res.status == 200
      ensures res.Respond? && res.status == 200 ==>
        var cs := ExtractActionItems(transcript, completion, jsonParse).items;
        && res.body == ItemList(cs)
        && serial == old(serial) + 1 + |cs|
        && docs == old(docs)[old(mint(serial)) := Transcript(old(mint(serial)), Trim(CastRawText(transcript, numberText).value),
                                                             old(Stamp(cs, serial + 1)), now)]
      ensures !(res.Respond? && res.status == 200) ==> docs == old(docs) && serial == old(serial)
      ensures res.Respond? ==> res.status == 200 || res.status == 400
      ensures Truthy(transcript) ==> res == Unhandled || (res.Respond? && res.status == 200)
    {
      if !Truthy(transcript) {
        return Respond(400, Message("Transcript is required"));
      }
      var extraction := ExtractActionItems(transcript, completion, jsonParse);
      if extraction.Rejected? {
        return Unhandled;
      }
      var raw := CastRawText(transcript, numberText);
      if raw.None? {
        return Unhandled;
      }
      var cs := extraction.items;
      var id := mint(serial);
      var items := Stamp(cs, serial + 1);
      var doc := Transcript(id, Trim(raw.value), items, now);
      if !ValidTranscript(doc) {
        return Unhandled;
      }
      Create(doc);
      res := Respond(200, ItemList(cs));
    }

    /**
     * `add_task`. The checks run in the handler's order: the transcript id
     * (400), the task (400, or 500 when `task.trim` does not exist), the
     * transcript (404), then the owner's `trim` and the save, whose failures
     * are caught as 500. A new item goes at the end with a fresh id and
     * `done` false, and the response is the whole document (201).
     */
    method AddTask(transcriptId: Value, task: Value, owner: Value, dueDate: Value) returns (res: Outcome)
      requires Valid()
      modifies this
      ensures Valid() && res.Respond?
      ensures !isValidObjectId(transcriptId) ==> res == Respond(400, Message("Invalid transcriptId"))
      ensures isValidObjectId(transcriptId) && TaskRefused(task) ==> res == Respond(400, Message(TaskTooShort))
      ensures isValidObjectId(transcriptId) && Truthy(task) && !task.Str? ==> res == InternalError
      ensures isValidObjectId(transcriptId) && TaskAccepted(task) && transcriptId !in old(docs) ==>
        res == Respond(404, Message("Transcript not found"))
      ensures (isValidObjectId(transcriptId) && TaskAccepted(task) && transcriptId in old(docs) &&
               (OwnerField(owner).Fails? || DueDateField(dueDate).Fails?)) ==> res == InternalError
      ensures (isValidObjectId(transcriptId) && TaskAccepted(task) && transcriptId in old(docs) &&
               OwnerField(owner).Given? && DueDateField(dueDate).Given?) ==>
        var item := NewItem(old(mint(serial)), Trim(task.s), OwnerField(owner).value, DueDateField(dueDate).value);
        var updated := WithItem(old(docs)[transcriptId], item);
        if ValidTranscript(updated) then
          && res == Respond(201, Document(updated))
          && docs == old(docs)[transcriptId := updated]
          && serial == old(serial) + 1
        else res == InternalError
      ensures res.status == 201 ==>
        && transcriptId in old(docs) && transcriptId in docs
        && var items := docs[transcriptId].actionItems;
        && |items| == |old(docs)[transcriptId].actionItems| + 1
        && items[..|items| - 1] == old(docs)[transcriptId].actionItems
        && !items[|items| - 1].done
        && items[|items| - 1].id == old(mint(serial))
      ensures res.status != 201 ==> docs == old(docs) && serial == old(serial)
    {
      if !isValidObjectId(transcriptId) {
        return Respond(400, Message("Invalid transcriptId"));
      }
      if !Truthy(task) {
        return Respond(400, Message(TaskTooShort));
      }
      if !task.Str? {
        // `task.trim` is not a function
        return InternalError;
      }
      if Utf16Length(Trim(task.s)) < TaskMinLength {
        return Respond(400, Message(TaskTooShort));
      }
      if transcriptId !in docs {
        return Respond(404, Message("Transcript not found"));
      }
      var ownerValue := OwnerField(owner);
      if ownerValue.Fails? {
        // `owner.trim` is not a function
        return InternalError;
      }
      var dueValue := DueDateField(dueDate);
      if dueValue.Fails? {
        // the save fails to cast the due date, or the cast text misses the date pattern
        return InternalError;
      }
      var item := NewItem(mint(serial), Trim(task.s), ownerValue.value, dueValue.value);
      var updated := WithItem(docs[transcriptId], item);
      if !ValidTranscript(updated) {
        // the save fails schema validation
        return InternalError;
      }
      Append(transcriptId, item);
      res := Respond(201, Document(updated));
    }

    /**
     * `edit_task`. After the id checks (400) and the lookups (404), each
     * field the request sends is applied in turn: a task must be a string
     * (its `trim` throws otherwise, 500) that is not blank (400), an owner
     * must be falsy or a string (500), `done` must be a boolean (400). A due
     * date that cannot be stored, or an item the schema refuses, makes the
     * save fail (500). The response is the whole document (200).
     */
    method EditTask(transcriptId: Value, actionItemId: Value, task: Value, owner: Value, dueDate: Value, done: Value)
      returns (res: Outcome)
      requires Valid()
      modifies this
      ensures Valid() && res.Respond? && serial == old(serial)
      ensures !isValidObjectId(transcriptId) || !isValidObjectId(actionItemId) ==> res == Respond(400, Message("Invalid IDs"))
      ensures isValidObjectId(transcriptId) && isValidObjectId(actionItemId) && transcriptId !in old(docs) ==>
        res == Respond(404, Message("Transcript not found"))
      ensures (isValidObjectId(transcriptId) && isValidObjectId(actionItemId) && transcriptId in old(docs) &&
               !Locates(old(docs), transcriptId, actionItemId)) ==> res == Respond(404, Message("Task not found"))
      ensures isValidObjectId(transcriptId) && isValidObjectId(actionItemId) && Locates(old(docs), transcriptId, actionItemId) ==>
        if EditRejection(task, owner, dueDate, done).Some? then res == EditRejection(task, owner, dueDate, done).value
        else
          var t := old(docs)[transcriptId];
          var updated := Edited(t, IndexOf(t.actionItems, actionItemId).value, task, owner, dueDate, done);
          if ValidTranscript(updated) then
            res == Respond(200, Document(updated)) && docs == old(docs)[transcriptId := updated]
          else res == InternalError
      ensures res.status != 200 ==> docs == old(docs)
    {
      if !isValidObjectId(transcriptId) || !isValidObjectId(actionItemId) {
        return Respond(400, Message("Invalid IDs"));
      }
      if transcriptId !in docs {
        return Respond(404, Message("Transcript not found"));
      }
      var t := docs[transcriptId];
      var found := IndexOf(t.actionItems, actionItemId);
      if found.None? {
        return Respond(404, Message("Task not found"));
      }
      var i := found.value;
      var rejection := EditRejection(task, owner, dueDate, done);
      if rejection.Some? {
        return rejection.value;
      }
      var updated := Edited(t, i, task, owner, dueDate, done);
      if !ValidTranscript(updated) {
        // the save fails schema validation
        return InternalError;
      }
      EditKeepsWellFormed(t, i, task, owner, dueDate, done);
      Replace(transcriptId, updated);
      res := Respond(200, Document(updated));
    }

    /**
     * `deleteTask`. After the id checks (400) and the lookups (404) the item
     * is removed and the document saved; removing an item from a valid
     * document leaves it valid, so the save succeeds (200).
     */
    method DeleteTask(transcriptId: Value, actionItemId: Value) returns (res: Outcome)
      requires Valid()
      modifies this
      ensures Valid() && res.Respond? && serial == old(serial)
      ensures !isValidObjectId(transcriptId) || !isValidObjectId(actionItemId) ==> res == Respond(400, Message("Invalid IDs"))
      ensures isValidObjectId(transcriptId) && isValidObjectId(actionItemId) && transcriptId !in old(docs) ==>
        res == Respond(404, Message("Transcript not found"))
      ensures (isValidObjectId(transcriptId) && isValidObjectId(actionItemId) && transcriptId in old(docs) &&
               !Locates(old(docs), transcriptId, actionItemId)) ==> res == Respond(404, Message("Task not found"))
      ensures res.status == 200 <==>
        isValidObjectId(transcriptId) && isValidObjectId(actionItemId) && Locates(old(docs), transcriptId, actionItemId)
      ensures res.status == 200 ==>
        var t := old(docs)[transcriptId];
        var updated := t.(actionItems := RemoveAt(t.actionItems, IndexOf(t.actionItems, actionItemId).value));
        && res == Respond(200, Document(updated))
        && docs == old(docs)[transcriptId := updated]
        && ItemIds(updated.actionItems) == ItemIds(t.actionItems) - {actionItemId}
      ensures res.status != 200 ==> docs == old(docs)
    {
      if !isValidObjectId(transcriptId) || !isValidObjectId(actionItemId) {
        return Respond(400, Message("Invalid IDs"));
      }
      if transcriptId !in docs {
        return Respond(404, Message("Transcript not found"));
      }
      var t := docs[transcriptId];
      var found := IndexOf(t.actionItems, actionItemId);
      if found.None? {
        return Respond(404, Message("Task not found"));
      }
      var updated := t.(actionItems := RemoveAt(t.actionItems, found.value));
      RemoveKeepsWellFormed(t, found.value);
      Replace(transcriptId, updated);
      res := Respond(200, Document(updated));
    }
  }

  /** Deleting the same item twice: once it is gone, the second request finds no such task. */
  method DeleteTaskTwice(store: Store, transcriptId: Value, actionItemId: Value) returns (first: Outcome, second: Outcome)
    requires store.Valid()
    modifies store
    ensures store.Valid()
    ensures first.Respond? && first.status == 200 ==> second == Respond(404, Message("Task not found"))
  {
    first := store.DeleteTask(transcriptId, actionItemId);
    second := store.DeleteTask(transcriptId, actionItemId);
  }
}
