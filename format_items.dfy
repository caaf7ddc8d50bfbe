/**
 * The action-item normaliser and the extraction wrapper around the language
 * model (server/Services/format_Items_Ai.js). An untrusted payload becomes
 * an ordered list of `{task, owner, dueDate, done}` records; a candidate
 * without a usable task is dropped.
 */
module FormatItems {
  import opened JsValue
  import opened JsString

  /** A record as `normalizeItem` builds it. */
  datatype CleanItem = CleanItem(task: string, owner: Option<string>, dueDate: Option<string>, done: bool)

  /** `isNonEmptyString`: a string with something left after `trim`. */
  predicate IsNonEmptyString(v: Value) {
    v.Str? && Trim(v.s) != ""
  }

  /** `isNonEmptyString` holds exactly of strings with a character that is not white space. */
  lemma NonEmptyStringMeaning(v: Value)
    ensures IsNonEmptyString(v) <==> v.Str? && exists i :: 0 <= i < |v.s| && !IsWhiteSpace(v.s[i])
  {
    if v.Str? { TrimNonEmpty(v.s); }
  }

  /**
   * `normalizeDueDate`: the trimmed string when it has the shape
   * dddd-dd-dd, and null for anything else, with no calendar check.
   */
  function NormalizeDueDate(v: Value): (r: Option<string>)
    ensures r.Some? <==> v.Str? && MatchesDatePattern(Trim(v.s))
    ensures r.Some? ==> r.value == Trim(v.s) && MatchesDatePattern(r.value)
  {
    if !IsNonEmptyString(v) then None
    else
      var s := Trim(v.s);
      if MatchesDatePattern(s) then Some(s) else None
  }

  /** A stored date string normalises to itself. */
  lemma NormalizeDueDateFixesDates(d: string)
    requires MatchesDatePattern(d)
    ensures NormalizeDueDate(Str(d)) == Some(d)
  {
    DatePatternIsTrimmed(d);
  }

  /** What every normalised record satisfies. */
  predicate IsClean(c: CleanItem) {
    && c.task != "" && IsTrimmed(c.task)
    && (c.owner.Some? ==> c.owner.value != "" && IsTrimmed(c.owner.value))
    && (c.dueDate.Some? ==> MatchesDatePattern(c.dueDate.value))
  }

  /**
   * `normalizeItem`: null exactly when `task` is missing, not a string or
   * blank; otherwise the trimmed task, the trimmed owner or null, the
   * normalised due date, and `done` only when it is literally `true`.
   */
  function NormalizeItem(item: Value): (r: Option<CleanItem>)
    ensures r.None? <==> !IsNonEmptyString(Get(item, "task"))
    ensures r.Some? ==> r.value.task == Trim(Get(item, "task").s) && IsClean(r.value)
    ensures r.Some? ==> r.value.owner == (if IsNonEmptyString(Get(item, "owner")) then Some(Trim(Get(item, "owner").s)) else None)
    ensures r.Some? ==> r.value.dueDate == NormalizeDueDate(Get(item, "dueDate"))
    ensures r.Some? ==> (r.value.done <==> Get(item, "done") == Bool(true))
  {
    var taskField := Get(item, "task");
    if !IsNonEmptyString(taskField) then None
    else
      var task := Trim(taskField.s);
      var ownerField := Get(item, "owner");
      var owner := if IsNonEmptyString(ownerField) then Some(Trim(ownerField.s)) else None;
      var dueDate := NormalizeDueDate(Get(item, "dueDate"));
      var doneField := Get(item, "done");
      var done := if doneField.Bool? then doneField.b else false;
      Some(CleanItem(task, owner, dueDate, done))
  }

  /** The list of zero or one records one candidate contributes. */
  function Contribution(item: Value): (r: seq<CleanItem>)
    ensures |r| <= 1 && (r == [] <==> NormalizeItem(item).None?)
    ensures forall c :: c in r ==> IsClean(c) && NormalizeItem(item) == Some(c)
  {
    match NormalizeItem(item)
    case None => []
    case Some(c) => [c]
  }

  /** The lists `f` gives for the elements of `xs`, concatenated in order. */
  function FlatMap<X, Y>(f: X -> seq<Y>, xs: seq<X>): seq<Y> {
    if xs == [] then [] else FlatMap(f, xs[..|xs| - 1]) + f(xs[|xs| - 1])
  }

  lemma FlatMapSnoc<X, Y>(f: X -> seq<Y>, xs: seq<X>, i: nat)
    requires i < |xs|
    ensures FlatMap(f, xs[..i + 1]) == FlatMap(f, xs[..i]) + f(xs[i])
  {
    assert xs[..i + 1][..i] == xs[..i];
  }

  lemma {:induction false} FlatMapAppend<X, Y>(f: X -> seq<Y>, a: seq<X>, b: seq<X>)
    ensures FlatMap(f, a + b) == FlatMap(f, a) + FlatMap(f, b)
    decreases |b|
  {
    if b == [] {
      assert a + b == a;
    } else {
      var b' := b[..|b| - 1];
      var ab := a + b;
      assert ab[..|ab| - 1] == a + b';
      assert ab[|ab| - 1] == b[|b| - 1];
      FlatMapAppend(f, a, b');
    }
  }

  lemma {:induction false} FlatMapOrigin<X, Y>(f: X -> seq<Y>, xs: seq<X>, j: nat)
    requires j < |FlatMap(f, xs)|
    ensures exists i :: 0 <= i < |xs| && FlatMap(f, xs)[j] in f(xs[i])
    decreases |xs|
  {
    var init := xs[..|xs| - 1];
    var last := xs[|xs| - 1];
    if j < |FlatMap(f, init)| {
      FlatMapOrigin(f, init, j);
      var i :| 0 <= i < |init| && FlatMap(f, init)[j] in f(init[i]);
      assert xs[i] == init[i];
    } else {
      assert FlatMap(f, xs)[j] == f(last)[j - |FlatMap(f, init)|];
    }
  }

  lemma {:induction false} FlatMapKeeps<X, Y>(f: X -> seq<Y>, xs: seq<X>, p: Y -> bool)
    requires forall i, y :: 0 <= i < |xs| && y in f(xs[i]) ==> p(y)
    ensures forall y :: y in FlatMap(f, xs) ==> p(y)
    decreases |xs|
  {
    if xs != [] {
      var init := xs[..|xs| - 1];
      assert forall i :: 0 <= i < |init| ==> init[i] == xs[i];
      FlatMapKeeps(f, init, p);
    }
  }

  lemma {:induction false} FlatMapShort<X, Y>(f: X -> seq<Y>, xs: seq<X>)
    requires forall i :: 0 <= i < |xs| ==> |f(xs[i])| <= 1
    ensures |FlatMap(f, xs)| <= |xs|
    decreases |xs|
  {
    if xs != [] {
      var init := xs[..|xs| - 1];
      assert forall i :: 0 <= i < |init| ==> init[i] == xs[i];
      FlatMapShort(f, init);
    }
  }

  lemma {:induction false} FlatMapSingles<X, Y>(f: X -> seq<Y>, xs: seq<X>)
    requires forall i :: 0 <= i < |xs| ==> |f(xs[i])| == 1
    ensures |FlatMap(f, xs)| == |xs|
    decreases |xs|
  {
    if xs != [] {
      var init := xs[..|xs| - 1];
      assert forall i :: 0 <= i < |init| ==> init[i] == xs[i];
      FlatMapSingles(f, init);
    }
  }

  lemma {:induction false} FlatMapSingletons<X, Y>(f: X -> seq<Y>, xs: seq<X>, ys: seq<Y>)
    requires |xs| == |ys|
    requires forall i :: 0 <= i < |xs| ==> f(xs[i]) == [ys[i]]
    ensures FlatMap(f, xs) == ys
    decreases |xs|
  {
    if xs != [] {
      var n := |xs| - 1;
      assert forall i :: 0 <= i < n ==> xs[..n][i] == xs[i];
      FlatMapSingletons(f, xs[..n], ys[..n]);
      assert ys == ys[..n] + [ys[n]];
    }
  }

  /**
   * What the loop of `normalizeList` collects from an array's elements: the
   * normalised candidates that are not null, in input order.
   */
  function CleanEach(xs: seq<Value>): (r: seq<CleanItem>)
    ensures |r| <= |xs|
    ensures forall j :: 0 <= j < |r| ==> IsClean(r[j])
  {
    FlatMapShort(Contribution, xs);
    FlatMapKeeps(Contribution, xs, IsClean);
    FlatMap(Contribution, xs)
  }

  /** `normalizeList`: an array is cleaned element by element; anything else gives `[]`. */
  function CleanList(v: Value): seq<CleanItem> {
    if v.Arr? then CleanEach(v.elems) else []
  }

  /** `normalizeList`, with its `for` loop pushing onto `cleaned`. */
  method NormalizeList(items: Value) returns (cleaned: seq<CleanItem>)
    ensures cleaned == CleanList(items)
    ensures !items.Arr? ==> cleaned == []
    ensures items.Arr? ==> |cleaned| <= |items.elems|
    ensures forall j :: 0 <= j < |cleaned| ==> IsClean(cleaned[j]) && cleaned[j].task != ""
  {
    if !items.Arr? {
      return [];
    }
    var xs := items.elems;
    cleaned := [];
    var i := 0;
    while i < |xs|
      invariant 0 <= i <= |xs|
      invariant cleaned == CleanEach(xs[..i])
    {
      var norm := NormalizeItem(xs[i]);
      if norm.Some? {
        cleaned := cleaned + [norm.value];
      }
      FlatMapSnoc(Contribution, xs, i);
      i := i + 1;
    }
    assert xs[..i] == xs;
  }

  /**
   * Cleaning respects concatenation: each part of the input contributes its
   * own records, in place, so the output keeps the input order.
   */
  lemma CleanEachAppend(a: seq<Value>, b: seq<Value>)
    ensures CleanEach(a + b) == CleanEach(a) + CleanEach(b)
  {
    FlatMapAppend(Contribution, a, b);
  }

  /** A record in the output was produced from some candidate of the input. */
  lemma CleanEachOrigin(xs: seq<Value>, j: nat)
    requires j < |CleanEach(xs)|
    ensures exists i :: 0 <= i < |xs| && NormalizeItem(xs[i]) == Some(CleanEach(xs)[j])
  {
    FlatMapOrigin(Contribution, xs, j);
  }

  /** When every candidate is usable, nothing is dropped. */
  lemma CleanEachKeepsAll(xs: seq<Value>)
    requires forall i :: 0 <= i < |xs| ==> NormalizeItem(xs[i]).Some?
    ensures |CleanEach(xs)| == |xs|
  {
    FlatMapSingles(Contribution, xs);
  }

  /** A record as a JavaScript object `{task, owner, dueDate, done}`. */
  function ToValue(c: CleanItem): Value {
    Obj(map["task" := Str(c.task), "owner" := OptionalString(c.owner),
            "dueDate" := OptionalString(c.dueDate), "done" := Bool(c.done)])
  }

  /** A list of records as JavaScript objects. */
  function ToValues(cs: seq<CleanItem>): (vs: seq<Value>)
    ensures |vs| == |cs|
  {
    seq(|cs|, i requires 0 <= i < |cs| => ToValue(cs[i]))
  }

  /** A list of records as a JavaScript array. */
  function ListValue(cs: seq<CleanItem>): Value {
    Arr(ToValues(cs))
  }

  /** The four property names of a record are different strings. */
  lemma FieldNamesDistinct()
    ensures "task" != "owner" && "task" != "dueDate" && "task" != "done"
    ensures "owner" != "dueDate" && "owner" != "done" && "dueDate" != "done"
  {
    assert "task"[0] != "owner"[0] && "task"[0] != "dueDate"[0] && "task"[0] != "done"[0];
    assert "owner"[0] != "dueDate"[0] && "owner"[0] != "done"[0] && |"dueDate"| != |"done"|;
  }

  /** Reading back the properties of a record's object. */
  lemma ToValueFields(c: CleanItem)
    ensures Get(ToValue(c), "task") == Str(c.task)
    ensures Get(ToValue(c), "owner") == OptionalString(c.owner)
    ensures Get(ToValue(c), "dueDate") == OptionalString(c.dueDate)
    ensures Get(ToValue(c), "done") == Bool(c.done)
  {
    FieldNamesDistinct();
  }

  /** A normalised record normalises to itself. */
  lemma NormalizeItemFixesClean(c: CleanItem)
    requires IsClean(c)
    ensures NormalizeItem(ToValue(c)) == Some(c)
  {
    var v := ToValue(c);
    ToValueFields(c);
    TrimmedIsFixed(c.task);
    assert IsNonEmptyString(Get(v, "task"));
    var r := NormalizeItem(v).value;
    assert r.task == c.task;
    if c.owner.Some? {
      TrimmedIsFixed(c.owner.value);
      assert IsNonEmptyString(Get(v, "owner"));
    }
    assert r.owner == c.owner;
    if c.dueDate.Some? {
      NormalizeDueDateFixesDates(c.dueDate.value);
    }
    assert r.dueDate == c.dueDate;
    assert r.done == c.done;
  }

  lemma CleanEachFixesClean(cs: seq<CleanItem>)
    requires forall j :: 0 <= j < |cs| ==> IsClean(cs[j])
    ensures CleanEach(ToValues(cs)) == cs
  {
    var xs := ToValues(cs);
    forall i | 0 <= i < |xs| ensures Contribution(xs[i]) == [cs[i]] {
      NormalizeItemFixesClean(cs[i]);
    }
    FlatMapSingletons(Contribution, xs, cs);
  }

  /** Idempotence: normalising the normaliser's own output changes nothing. */
  lemma CleanListIdempotent(v: Value)
    ensures CleanList(ListValue(CleanList(v))) == CleanList(v)
  {
    CleanEachFixesClean(CleanList(v));
  }

  /** The reply of the chat-completion call; `CallFailed` is a rejected promise. */
  datatype Completion = CallFailed | Completed(content: Option<string>)

  /** What `format_Items_Ai` settles with. */
  datatype Extraction = Extracted(items: seq<CleanItem>) | Rejected

  /**
   * `format_Items_Ai`: a blank or non-string transcript gives `[]` before the
   * model is asked; a failed call rejects; empty content or content that
   * `jsonParse` (standing for `JSON.parse`) refuses gives `[]`; otherwise the
   * `items` field of the parsed reply is normalised.
   */
  function ExtractActionItems(transcript: Value, completion: Completion, jsonParse: string -> Option<Value>): (r: Extraction)
    ensures !IsNonEmptyString(transcript) ==> r == Extracted([])
    ensures r.Rejected? <==> IsNonEmptyString(transcript) && completion.CallFailed?
    ensures IsNonEmptyString(transcript) && completion.Completed? && (completion.content.None? || completion.content.value == "") ==> r == Extracted([])
    ensures IsNonEmptyString(transcript) && completion.Completed? && completion.content.Some? && jsonParse(completion.content.value).None? ==> r == Extracted([])
    ensures (IsNonEmptyString(transcript) && completion.Completed? && completion.content.Some? &&
             completion.content.value != "" && jsonParse(completion.content.value).Some?) ==>
      r == Extracted(CleanList(Get(jsonParse(completion.content.value).value, "items")))
    ensures r.Extracted? ==> forall j :: 0 <= j < |r.items| ==> IsClean(r.items[j])
  {
    if !IsNonEmptyString(transcript) then Extracted([])
    else match completion
      case CallFailed => Rejected
      case Completed(content) =>
        if content.None? || content.value == "" then Extracted([])
        else match jsonParse(content.value)
          case None => Extracted([])
          case Some(parsed) => Extracted(CleanList(Get(parsed, "items")))
  }

  /** The reply is never consulted for a transcript that is blank or not a string. */
  lemma BlankTranscriptIgnoresModel(transcript: Value, c1: Completion, c2: Completion, p1: string -> Option<Value>, p2: string -> Option<Value>)
    requires !IsNonEmptyString(transcript)
    ensures ExtractActionItems(transcript, c1, p1) == ExtractActionItems(transcript, c2, p2) == Extracted([])
  {
  }

  lemma TrimStartOfTask()
    ensures TrimStart("Ship v1  ") == "Ship v1  "
  {
  }

  lemma TrimEndOfTask()
    ensures TrimEnd("Ship v1") == "Ship v1"
  {
  }

  /** `"  Ship v1  ".trim()` is `"Ship v1"`, one character at a time. */
  lemma TrimPaddedTask()
    ensures Trim("  Ship v1  ") == "Ship v1"
  {
    var s0, s1, s2 := "  Ship v1  ", " Ship v1  ", "Ship v1  ";
    assert IsWhiteSpace(s0[0]) && s0[1..] == s1;
    assert IsWhiteSpace(s1[0]) && s1[1..] == s2;
    assert TrimStart(s1) == TrimStart(s2);
    TrimStartOfTask();
    assert TrimStart(s0) == s2;
    var e1, e2 := "Ship v1 ", "Ship v1";
    assert IsWhiteSpace(s2[|s2| - 1]) && s2[..|s2| - 1] == e1;
    assert IsWhiteSpace(e1[|e1| - 1]) && e1[..|e1| - 1] == e2;
    assert TrimEnd(e1) == TrimEnd(e2);
    TrimEndOfTask();
    assert TrimEnd(s2) == e2;
  }

  lemma ShipTask(item: Value)
    requires Get(item, "task") == Str("  Ship v1  ")
    ensures NormalizeItem(item).Some? && NormalizeItem(item).value.task == "Ship v1"
  {
    TrimPaddedTask();
  }

  lemma ShipOwnerAndDate(item: Value)
    requires Get(item, "owner") == Str("") && Get(item, "dueDate") == Str("2025-13-40")
    ensures NormalizeItem(item).Some? ==> NormalizeItem(item).value.owner == None
    ensures NormalizeItem(item).Some? ==> NormalizeItem(item).value.dueDate == Some("2025-13-40")
  {
    NormalizeDueDateFixesDates("2025-13-40");
  }

  /**
   * A candidate with a padded task, an empty owner, an out-of-range but
   * well-shaped date and a non-boolean `done`: the date passes, since only
   * its shape is checked.
   */
  lemma ShipScenario(item: Value)
    requires Get(item, "task") == Str("  Ship v1  ") && Get(item, "owner") == Str("")
    requires Get(item, "dueDate") == Str("2025-13-40") && Get(item, "done") == Str("yes")
    ensures NormalizeItem(item) == Some(CleanItem("Ship v1", None, Some("2025-13-40"), false))
  {
    ShipTask(item);
    ShipOwnerAndDate(item);
    var r := NormalizeItem(item).value;
    assert r.task == "Ship v1" && r.owner == None && r.dueDate == Some("2025-13-40");
    assert !r.done;
  }
}
