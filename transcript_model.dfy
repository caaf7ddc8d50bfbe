/**
 * The stored records and the rules the document schema enforces when a
 * transcript is saved (server/model/Transcript.js): an action item has its
 * own id, a trimmed task of 2 to 500 characters, an owner of at most 120
 * characters or null, a due date of the shape dddd-dd-dd or null, and a
 * `done` flag that defaults to false; a transcript has a required trimmed
 * raw text and a list of items that defaults to empty.
 */
module TranscriptModel {
  import opened JsValue
  import opened JsString
  import opened FormatItems

  /** An embedded action item; `id` is its own `_id`. */
  datatype ActionItem = ActionItem(id: Value, task: string, owner: Option<string>, dueDate: Option<string>, done: bool)

  /** A transcript document. `createdAt` is the creation timestamp. */
  datatype Transcript = Transcript(id: Value, rawText: string, actionItems: seq<ActionItem>, createdAt: int)

  const TaskMinLength: nat := 2
  const TaskMaxLength: nat := 500
  const OwnerMaxLength: nat := 120

  /** `task`: required, trimmed, `minlength: 2`, `maxlength: 500` (lengths in UTF-16 units). */
  predicate ValidTask(task: string) {
    IsTrimmed(task) && TaskMinLength <= Utf16Length(task) <= TaskMaxLength
  }

  /** `owner`: null, or a trimmed string with `maxlength: 120`. */
  predicate ValidOwner(owner: Option<string>) {
    owner.Some? ==> IsTrimmed(owner.value) && Utf16Length(owner.value) <= OwnerMaxLength
  }

  /** `dueDate`: null, or a string matching `/^\d{4}-\d{2}-\d{2}$/`. */
  predicate ValidDueDate(dueDate: Option<string>) {
    dueDate.Some? ==> MatchesDatePattern(dueDate.value)
  }

  predicate ValidItem(item: ActionItem) {
    ValidTask(item.task) && ValidOwner(item.owner) && ValidDueDate(item.dueDate)
  }

  /** `rawText`: required (so not empty) and trimmed. */
  predicate ValidRawText(rawText: string) {
    rawText != "" && IsTrimmed(rawText)
  }

  /** Everything the schema validates when a transcript is saved. */
  predicate ValidTranscript(t: Transcript) {
    ValidRawText(t.rawText) && forall i :: 0 <= i < |t.actionItems| ==> ValidItem(t.actionItems[i])
  }

  /** The ids of a list of items. */
  function ItemIds(items: seq<ActionItem>): set<Value> {
    set i | 0 <= i < |items| :: items[i].id
  }

  /** No two items of a list share an id, so an id names at most one item. */
  predicate DistinctIds(items: seq<ActionItem>) {
    forall i, j :: 0 <= i < j < |items| ==> items[i].id != items[j].id
  }

  /** A stored transcript: valid under the schema and with distinct item ids. */
  predicate WellFormed(t: Transcript) {
    ValidTranscript(t) && DistinctIds(t.actionItems)
  }

  /** An item created with the schema defaults: `done` is false unless given. */
  function NewItem(id: Value, task: string, owner: Option<string>, dueDate: Option<string>): (item: ActionItem)
    ensures !item.done
    ensures item.id == id && item.task == task && item.owner == owner && item.dueDate == dueDate
  {
    ActionItem(id, task, owner, dueDate, false)
  }

  /** The stored form of a normalised record, once it has an id. */
  function FromClean(id: Value, c: CleanItem): ActionItem {
    ActionItem(id, c.task, c.owner, c.dueDate, c.done)
  }

  /**
   * A normalised record passes the schema exactly when its task has 2 to
   * 500 UTF-16 units and its owner at most 120: trimming and the date shape
   * are already guaranteed by the normaliser.
   */
  lemma CleanItemValidity(id: Value, c: CleanItem)
    requires IsClean(c)
    ensures ValidItem(FromClean(id, c)) <==>
      TaskMinLength <= Utf16Length(c.task) <= TaskMaxLength &&
      (c.owner.Some? ==> Utf16Length(c.owner.value) <= OwnerMaxLength)
  {
  }

  /**
   * The normaliser keeps a one-character task, which the schema's minimum
   * length rejects: such an item cannot be saved.
   */
  lemma OneCharacterTaskIsRefused(item: Value, id: Value)
    requires Get(item, "task") == Str("x")
    ensures NormalizeItem(item).Some? && NormalizeItem(item).value.task == "x"
    ensures !ValidItem(FromClean(id, NormalizeItem(item).value))
  {
    assert IsTrimmed("x");
    TrimmedIsFixed("x");
    assert IsNonEmptyString(Get(item, "task"));
    var c := NormalizeItem(item).value;
    assert c.task == "x";
    assert Utf16Length("x") == 1 by {
      assert "x"[1..] == "";
      assert Utf16Units('x') == 1;
    }
    assert !ValidTask(c.task);
  }

  /** Appending an item with a fresh id keeps ids distinct and adds exactly that id. */
  lemma AppendIds(items: seq<ActionItem>, item: ActionItem)
    requires DistinctIds(items) && item.id !in ItemIds(items)
    ensures DistinctIds(items + [item])
    ensures ItemIds(items + [item]) == ItemIds(items) + {item.id}
  {
    var all := items + [item];
    assert all[|all| - 1] == item;
    assert forall i :: 0 <= i < |items| ==> all[i] == items[i];
    forall i | 0 <= i < |items| ensures items[i].id in ItemIds(items) { }
  }
}
