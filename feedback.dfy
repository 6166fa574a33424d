/**
 * The click handler of js/feedback.js. Clicking one `.md-feedback__option`
 * marks it (and only it) selected, reveals its `.md-feedback__note` if it has
 * one, and then records the option's `data-md-value` under the page path in
 * the JSON object kept in local storage under the key `page_feedback`.
 *
 * The stored JSON text is abstracted by what `JSON.parse` makes of it; the
 * path (`window.location.pathname`) is a parameter.
 */
module Feedback {
  import opened Wrappers

  /** One `.md-feedback__option` element, with its note if it has one. */
  datatype FeedbackOption = FeedbackOption(
    selected: bool,     // carries the class `md-feedback__option--selected`
    hasNote: bool,      // contains a `.md-feedback__note` element
    noteVisible: bool,  // that note is displayed
    value: string)      // its `data-md-value` attribute

  /** What local storage holds under `page_feedback`, by the JSON text it is. */
  datatype StoredItem =
    | Absent                                  // no such key: `getItem` gives null
    | EmptyText                               // the empty string
    | ObjectText(entries: map<string, string>) // a JSON object of path -> rating
    | NullText                                // the JSON literal `null`
    | OtherText(json: string)                 // a finite JSON number, a string, boolean or array
    | NonFiniteText(json: string)             // a JSON number beyond double range, as `1e400`
    | Malformed                               // non-empty text that is not JSON

  /** The value `JSON.parse` returns. */
  datatype JsonValue =
    | JObject(entries: map<string, string>)
    | JNull
    | JOther(json: string)
    | JNonFinite(json: string)                // `Infinity` or `-Infinity`

  /** The exceptions the handler can throw. */
  datatype JsError = SyntaxError | TypeError

  /** How a click ends: the rating was written, or the handler threw. */
  datatype Outcome = Saved | Threw(error: JsError)

  /** A stored item the handler can add a rating to. */
  predicate Writable(item: StoredItem) {
    item.Absent? || item.EmptyText? || item.ObjectText?
  }

  /** The ratings a writable item holds; the missing key and `""` hold none. */
  function Entries(item: StoredItem): map<string, string> {
    if item.ObjectText? then item.entries else map[]
  }

  /**
   * `JSON.parse(localStorage.getItem('page_feedback') || '{}')`: a missing
   * key and the empty string (both falsy) read as `{}`; text that is not JSON
   * throws a SyntaxError.
   */
  function Parse(item: StoredItem): (r: Result<JsonValue, JsError>)
    ensures r.Err? <==> item.Malformed?
    ensures r.Err? ==> r.error == SyntaxError
    ensures Writable(item) ==> r == Ok(JObject(Entries(item)))
  {
    match item
    case Absent => Ok(JObject(map[]))
    case EmptyText => Ok(JObject(map[]))
    case ObjectText(m) => Ok(JObject(m))
    case NullText => Ok(JNull)
    case OtherText(t) => Ok(JOther(t))
    case NonFiniteText(t) => Ok(JNonFinite(t))
    case Malformed => Err(SyntaxError)
  }

  /**
   * `feedbackData[currentPath] = rating` in a non-strict script: on an object
   * the entry is set, on `null` it throws a TypeError, and on any other value
   * (a primitive, or an array given a non-index key) it leaves nothing that
   * `JSON.stringify` would write out.
   */
  function SetEntry(v: JsonValue, path: string, rating: string): (r: Result<JsonValue, JsError>)
    ensures r.Err? <==> v.JNull?
    ensures v.JObject? ==> r.Ok? && r.value.JObject?
    ensures v.JObject? ==> path in r.value.entries && r.value.entries[path] == rating
    ensures v.JObject? ==> forall q :: q != path ==> (q in r.value.entries <==> q in v.entries)
    ensures v.JObject? ==> forall q :: q != path && q in v.entries ==> r.value.entries[q] == v.entries[q]
    ensures v.JOther? || v.JNonFinite? ==> r == Ok(v)
  {
    match v
    case JObject(m) => Ok(JObject(m[path := rating]))
    case JNull => Err(TypeError)
    case JOther(_) => Ok(v)
    case JNonFinite(_) => Ok(v)
  }

  /**
   * `JSON.stringify`: its text reads back as the same value, except that a
   * non-finite number is written as `null`.
   */
  function Serialize(v: JsonValue): (item: StoredItem)
    ensures !v.JNonFinite? ==> Parse(item) == Ok(v)
    ensures v.JNonFinite? ==> item == NullText
  {
    match v
    case JObject(m) => ObjectText(m)
    case JNull => NullText
    case JOther(t) => OtherText(t)
    case JNonFinite(_) => NullText
  }

  /**
   * The read-modify-write of js/feedback.js:35-37: the item written back, or the
   * exception that stops the handler before anything is written.
   */
  function StoreRating(item: StoredItem, path: string, rating: string): (r: Result<StoredItem, JsError>)
  {
    var parsed := Parse(item);
    if parsed.Err? then Err(parsed.error)
    else
      var updated := SetEntry(parsed.value, path, rating);
      if updated.Err? then Err(updated.error)
      else Ok(Serialize(updated.value))
  }

  /** The item in storage after the handler: the new one, or the old one if it threw. */
  function StoredAfter(item: StoredItem, path: string, rating: string): StoredItem {
    match StoreRating(item, path, rating)
    case Ok(next) => next
    case Err(_) => item
  }

  /**
   * The storage step succeeds exactly when the stored text parses to something
   * other than `null`; from a missing key, `""` or an object it writes an object
   * in which `path` maps to `rating` verbatim and every other path is as it was.
   * A finite non-object value is written back as it was; a number beyond
   * double range is written back as `null`, and the rating is lost either way.
   */
  lemma StoreRatingSpec(item: StoredItem, path: string, rating: string)
    ensures StoreRating(item, path, rating).Err? <==> item.Malformed? || item.NullText?
    ensures item.Malformed? ==> StoreRating(item, path, rating) == Err(SyntaxError)
    ensures item.NullText? ==> StoreRating(item, path, rating) == Err(TypeError)
    ensures Writable(item) ==> StoreRating(item, path, rating) == Ok(ObjectText(Entries(item)[path := rating]))
    ensures item.OtherText? ==> StoreRating(item, path, rating) == Ok(item)
    ensures item.NonFiniteText? ==> StoreRating(item, path, rating) == Ok(NullText)
  {
  }

  /** A missing key is the empty map: the first rating gives a one-entry map. */
  lemma FirstRating(path: string, rating: string)
    ensures StoreRating(Absent, path, rating) == Ok(ObjectText(map[path := rating]))
    ensures StoreRating(EmptyText, path, rating) == Ok(ObjectText(map[path := rating]))
  {
  }

  /** A later rating of the same path replaces the earlier one. */
  lemma LaterRatingOverwrites(item: StoredItem, path: string, first: string, second: string)
    ensures StoredAfter(StoredAfter(item, path, first), path, second)
         == StoredAfter(item, path, second)
  {
  }

  /** Ratings of two different paths do not interfere: their order does not matter. */
  lemma DistinctPathsCommute(item: StoredItem, p: string, rp: string, q: string, rq: string)
    requires p != q
    ensures StoredAfter(StoredAfter(item, p, rp), q, rq)
         == StoredAfter(StoredAfter(item, q, rq), p, rp)
  {
  }

  /** js/feedback.js:18-27: clear every selected marker, mark option `i`, show its note. */
  function Clicked(options: seq<FeedbackOption>, i: nat): (r: seq<FeedbackOption>)
    requires i < |options|
    ensures |r| == |options|
    ensures forall j :: 0 <= j < |r| ==> (r[j].selected <==> j == i)
    ensures options[i].hasNote ==> r[i].noteVisible
    ensures !options[i].hasNote ==> r[i].noteVisible == options[i].noteVisible
    ensures forall j :: 0 <= j < |r| && j != i ==> r[j].noteVisible == options[j].noteVisible
    ensures forall j :: 0 <= j < |r| ==>
      r[j].hasNote == options[j].hasNote && r[j].value == options[j].value
  {
    var cleared := seq(|options|, j requires 0 <= j < |options| => options[j].(selected := false));
    var marked := cleared[i].(selected := true);
    cleared[i := if marked.hasNote then marked.(noteVisible := true) else marked]
  }

  /** The options and the stored item, as a sequence of clicks sees them. */
  datatype Widget = Widget(options: seq<FeedbackOption>, stored: StoredItem)

  /** A click on option `index` while the page's path is `path`. */
  datatype ClickEvent = ClickEvent(index: nat, path: string)

  /** Every click names one of the options. */
  predicate ValidClicks(count: nat, clicks: seq<ClickEvent>) {
    forall k :: 0 <= k < |clicks| ==> clicks[k].index < count
  }

  /** One run of the handler, whichever way it ends. */
  function AfterClick(w: Widget, c: ClickEvent): (r: Widget)
    requires c.index < |w.options|
    ensures |r.options| == |w.options|
    ensures forall j :: 0 <= j < |r.options| ==>
      r.options[j].hasNote == w.options[j].hasNote && r.options[j].value == w.options[j].value
  {
    Widget(Clicked(w.options, c.index), StoredAfter(w.stored, c.path, w.options[c.index].value))
  }

  /** The handler run once per click, in order. */
  function Run(w: Widget, clicks: seq<ClickEvent>): (r: Widget)
    requires ValidClicks(|w.options|, clicks)
    ensures |r.options| == |w.options|
    ensures forall j :: 0 <= j < |r.options| ==>
      r.options[j].hasNote == w.options[j].hasNote && r.options[j].value == w.options[j].value
    decreases |clicks|
  {
    if clicks == [] then w else Run(AfterClick(w, clicks[0]), clicks[1..])
  }

  /** The paths that a sequence of clicks rates. */
  function RatedPaths(clicks: seq<ClickEvent>): set<string> {
    set k | 0 <= k < |clicks| :: clicks[k].path
  }

  /** After any non-empty sequence of clicks exactly one option is selected: the last one clicked. */
  lemma {:induction false} LastClickedIsSelected(w: Widget, clicks: seq<ClickEvent>)
    requires ValidClicks(|w.options|, clicks) && clicks != []
    ensures forall j :: 0 <= j < |w.options| ==>
      (Run(w, clicks).options[j].selected <==> j == clicks[|clicks| - 1].index)
    decreases |clicks|
  {
    var next := AfterClick(w, clicks[0]);
    if |clicks| > 1 {
      assert ValidClicks(|next.options|, clicks[1..]);
      LastClickedIsSelected(next, clicks[1..]);
    }
  }

  /** A note once shown stays shown, and the note of every clicked option is shown. */
  lemma {:induction false} NotesStayRevealed(w: Widget, clicks: seq<ClickEvent>)
    requires ValidClicks(|w.options|, clicks)
    ensures forall j :: 0 <= j < |w.options| && w.options[j].noteVisible ==>
      Run(w, clicks).options[j].noteVisible
    ensures forall k :: 0 <= k < |clicks| && w.options[clicks[k].index].hasNote ==>
      Run(w, clicks).options[clicks[k].index].noteVisible
    decreases |clicks|
  {
    if clicks != [] {
      var next := AfterClick(w, clicks[0]);
      assert ValidClicks(|next.options|, clicks[1..]);
      NotesStayRevealed(next, clicks[1..]);
      forall k | 0 <= k < |clicks| && w.options[clicks[k].index].hasNote
        ensures Run(w, clicks).options[clicks[k].index].noteVisible
      {
        if k > 0 {
          assert clicks[k] == clicks[1..][k - 1];
        }
      }
    }
  }

  /**
   * Stored text that does not parse, or parses to `null`, makes every click
   * throw before the write: it stays in storage, and no rating is ever saved.
   */
  lemma {:induction false} UnwritableIsSticky(w: Widget, clicks: seq<ClickEvent>)
    requires ValidClicks(|w.options|, clicks)
    requires w.stored.Malformed? || w.stored.NullText?
    ensures Run(w, clicks).stored == w.stored
    decreases |clicks|
  {
    if clicks != [] {
      var next := AfterClick(w, clicks[0]);
      StoreRatingSpec(w.stored, clicks[0].path, w.options[clicks[0].index].value);
      assert ValidClicks(|next.options|, clicks[1..]);
      UnwritableIsSticky(next, clicks[1..]);
    }
  }

  /**
   * A stored number beyond double range parses to an infinity, takes the
   * assignment without effect and is written back as `null`: after the first
   * click storage holds `null`, and from then on every click throws.
   */
  lemma NonFiniteTurnsNull(w: Widget, clicks: seq<ClickEvent>)
    requires ValidClicks(|w.options|, clicks) && clicks != []
    requires w.stored.NonFiniteText?
    ensures Run(w, clicks).stored == NullText
    ensures |clicks| > 1 ==>
      StoreRating(NullText, clicks[1].path, w.options[clicks[1].index].value) == Err(TypeError)
  {
    var next := AfterClick(w, clicks[0]);
    StoreRatingSpec(w.stored, clicks[0].path, w.options[clicks[0].index].value);
    assert next.stored == NullText;
    assert ValidClicks(|next.options|, clicks[1..]);
    UnwritableIsSticky(next, clicks[1..]);
  }

  /** The paths rated by a non-empty sequence: its first click's and the rest's. */
  lemma RatedPathsCons(clicks: seq<ClickEvent>)
    requires clicks != []
    ensures RatedPaths(clicks) == {clicks[0].path} + RatedPaths(clicks[1..])
  {
  }

  /** Map algebra for one more rated path, used by RunKeepsUnratedPaths. */
  lemma ForgetRatedPaths(before: map<string, string>, after: map<string, string>,
                         path: string, rating: string, rest: set<string>)
    requires after.Keys == before[path := rating].Keys + rest
    requires after - rest == before[path := rating] - rest
    ensures after.Keys == before.Keys + ({path} + rest)
    ensures after - ({path} + rest) == before - ({path} + rest)
  {
    var rated := {path} + rest;
    forall q | q in after - rated
      ensures q in before - rated && (after - rated)[q] == (before - rated)[q]
    {
      assert q in after - rest;
    }
    forall q | q in before - rated
      ensures q in after - rated
    {
      assert q in before[path := rating] - rest;
    }
  }

  /**
   * From a missing key, `""` or an object, a sequence of clicks leaves an
   * object holding the clicked paths besides the old ones, and every path
   * never clicked keeps its old rating.
   */
  lemma {:induction false} RunKeepsUnratedPaths(w: Widget, clicks: seq<ClickEvent>)
    requires ValidClicks(|w.options|, clicks)
    requires Writable(w.stored)
    ensures Writable(Run(w, clicks).stored)
    ensures Entries(Run(w, clicks).stored).Keys == Entries(w.stored).Keys + RatedPaths(clicks)
    ensures Entries(Run(w, clicks).stored) - RatedPaths(clicks) == Entries(w.stored) - RatedPaths(clicks)
    decreases |clicks|
  {
    if clicks != [] {
      var c := clicks[0];
      var next := AfterClick(w, c);
      StoreRatingSpec(w.stored, c.path, w.options[c.index].value);
      assert ValidClicks(|next.options|, clicks[1..]);
      RunKeepsUnratedPaths(next, clicks[1..]);
      RatedPathsCons(clicks);
      assert Run(w, clicks) == Run(next, clicks[1..]);
      ForgetRatedPaths(Entries(w.stored), Entries(Run(w, clicks).stored),
        c.path, w.options[c.index].value, RatedPaths(clicks[1..]));
    }
  }

  /** After a non-empty sequence of clicks the last click's path holds that option's value. */
  lemma {:induction false} LastRatingStored(w: Widget, clicks: seq<ClickEvent>)
    requires ValidClicks(|w.options|, clicks) && clicks != []
    requires Writable(w.stored)
    ensures var last := clicks[|clicks| - 1];
      Run(w, clicks).stored.ObjectText? &&
      last.path in Run(w, clicks).stored.entries &&
      Run(w, clicks).stored.entries[last.path] == w.options[last.index].value
    decreases |clicks|
  {
    var c := clicks[0];
    var next := AfterClick(w, c);
    StoreRatingSpec(w.stored, c.path, w.options[c.index].value);
    if |clicks| > 1 {
      assert ValidClicks(|next.options|, clicks[1..]);
      LastRatingStored(next, clicks[1..]);
      assert clicks[|clicks| - 1] == clicks[1..][|clicks[1..]| - 1];
    }
  }

  /** Local storage; only the item under `page_feedback` is ever read or written. */
  class LocalStorage {
    var pageFeedback: StoredItem

    constructor (item: StoredItem)
      ensures pageFeedback == item
    {
      pageFeedback := item;
    }
  }

  /** A feedback widget found at page load: its options and the storage it writes to. */
  class FeedbackWidget {
    const options: array<FeedbackOption>
    const storage: LocalStorage

    constructor (options: array<FeedbackOption>, storage: LocalStorage)
      ensures this.options == options && this.storage == storage
    {
      this.options := options;
      this.storage := storage;
    }

    /**
     * The click listener of option `i` on the page at `path`. The selection
     * and the note change first; the storage step may then throw, and if it
     * does nothing is written.
     */
    method Click(i: nat, path: string) returns (outcome: Outcome)
      requires i < options.Length
      modifies options, storage
      ensures options[..] == Clicked(old(options[..]), i)
      ensures storage.pageFeedback == StoredAfter(old(storage.pageFeedback), path, old(options[i].value))
      ensures outcome == match StoreRating(old(storage.pageFeedback), path, old(options[i].value))
        case Ok(_) => Saved
        case Err(e) => Threw(e)
    {
      var rating := options[i].value;
      var j := 0;
      while j < options.Length
        invariant 0 <= j <= options.Length
        invariant forall k :: 0 <= k < j ==> options[k] == old(options[k]).(selected := false)
        invariant forall k :: j <= k < options.Length ==> options[k] == old(options[k])
        invariant storage.pageFeedback == old(storage.pageFeedback)
      {
        options[j] := options[j].(selected := false);
        j := j + 1;
      }
      options[i] := options[i].(selected := true);
      if options[i].hasNote {
        options[i] := options[i].(noteVisible := true);
      }
      var parsed := Parse(storage.pageFeedback);
      if parsed.Err? {
        return Threw(parsed.error);
      }
      var updated := SetEntry(parsed.value, path, rating);
      if updated.Err? {
        return Threw(updated.error);
      }
      storage.pageFeedback := Serialize(updated.value);
      outcome := Saved;
    }
  }
}
