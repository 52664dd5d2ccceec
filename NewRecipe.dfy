/**
 * The new-recipe form: the tag and effort checklists, the cook-time field's
 * key and paste filters, and the submit handler, which creates the recipe,
 * links the chosen tags and efforts, and uploads the photos with their
 * positions as sort order.
 */
module NewRecipe {
  import opened JsText
  import opened Lists
  import opened Choices
  import opened ImageUploader

  // ---------------------------------------------------------------- checklist

  /** The options whose id is selected, in the options' order. */
  function Picked(options: seq<Choice>, selected: seq<string>): seq<Choice> {
    Filter(options, (o: Choice) => o.id in selected)
  }

  function Names(cs: seq<Choice>): seq<string> {
    seq(|cs|, k requires 0 <= k < |cs| => cs[k].name)
  }

  /** `selectedNames`: the chips shown under a closed checklist. */
  function SelectedNames(options: seq<Choice>, selected: seq<string>): seq<string> {
    Names(Picked(options, selected))
  }

  /**
   * The chips name exactly the selected options, one chip per such option,
   * and follow the order of the options.
   */
  lemma SelectedNamesInOptionsOrder(options: seq<Choice>, selected: seq<string>)
    ensures IsSubsequence(Picked(options, selected), options)
    ensures forall o :: o in Picked(options, selected) <==> o in options && o.id in selected
    ensures |SelectedNames(options, selected)| == |Picked(options, selected)|
    ensures forall n :: n in SelectedNames(options, selected) <==>
      exists o :: o in options && o.id in selected && o.name == n
  {
    var f := (o: Choice) => o.id in selected;
    FilterSubsequence(options, f);
    forall o ensures o in Picked(options, selected) <==> o in options && o.id in selected {
      FilterMembers(options, f, o);
    }
    var p := Picked(options, selected);
    forall n ensures n in SelectedNames(options, selected) <==> exists o :: o in options && o.id in selected && o.name == n {
      if n in SelectedNames(options, selected) {
        var k :| 0 <= k < |p| && Names(p)[k] == n;
        assert p[k] in p;
      }
      if exists o :: o in options && o.id in selected && o.name == n {
        var o :| o in options && o.id in selected && o.name == n;
        assert o in p;
        var k :| 0 <= k < |p| && p[k] == o;
        assert Names(p)[k] == n;
      }
    }
  }

  /** The order in which options were ticked does not matter, only which ones are. */
  lemma SelectedNamesIgnoreSelectionOrder(options: seq<Choice>, a: seq<string>, b: seq<string>)
    requires forall x :: x in a <==> x in b
    ensures SelectedNames(options, a) == SelectedNames(options, b)
  {
    FilterAgree(options, (o: Choice) => o.id in a, (o: Choice) => o.id in b);
  }

  /** Ticking an option twice leaves the chips as they were. */
  lemma ToggleTwiceSameChips(options: seq<Choice>, selected: seq<string>, id: string)
    ensures SelectedNames(options, Toggle(Toggle(selected, id), id)) == SelectedNames(options, selected)
  {
    ToggleTwice(selected, id);
    SelectedNamesIgnoreSelectionOrder(options, Toggle(Toggle(selected, id), id), selected);
  }

  // ---------------------------------------------------------------- cook time

  /** The editing and navigation keys the cook-time field always lets through. */
  const EditingKeys: seq<string> :=
    ["Backspace", "Delete", "Tab", "Escape", "Enter", "Home", "End", "ArrowLeft", "ArrowRight"]

  /** `/^[0-9]$/`: exactly one ASCII digit. */
  predicate SingleDigit(key: string) {
    |key| == 1 && IsDigit(key[0])
  }

  /** The cook-time `onKeyDown`: whether the key press is cancelled. */
  function KeyBlocked(key: string, ctrlKey: bool): bool {
    if key in EditingKeys then false
    else if ctrlKey && (key == "a" || key == "c" || key == "v" || key == "x") then false
    else !SingleDigit(key)
  }

  /** Every editing key is a name of more than one character. */
  lemma EditingKeysLong(key: string)
    requires key in EditingKeys
    ensures |key| > 1
  {
  }

  /**
   * A one-character key gets through exactly when it is a digit, or
   * one of a, c, v, x pressed with Ctrl.
   */
  lemma SingleCharacterKeys(c: char, ctrlKey: bool)
    ensures !KeyBlocked([c], ctrlKey) <==> IsDigit(c) || (ctrlKey && (c == 'a' || c == 'c' || c == 'v' || c == 'x'))
  {
    if [c] in EditingKeys {
      EditingKeysLong([c]);
    }
  }

  /** A key with a longer name gets through exactly when it is an editing key. */
  lemma NamedKeys(key: string, ctrlKey: bool)
    requires |key| != 1
    ensures !KeyBlocked(key, ctrlKey) <==> key in EditingKeys
  {
  }

  /** `/^\d+$/`: one or more ASCII digits. */
  predicate AllDigits(s: string) {
    |s| >= 1 && forall k :: 0 <= k < |s| ==> IsDigit(s[k])
  }

  /** The cook-time `onPaste`: whether the paste is cancelled. */
  function PasteBlocked(text: string): bool {
    !AllDigits(text)
  }

  /**
   * A paste gets through exactly when it is not empty and each of its
   * characters, typed without Ctrl, would get through the key filter; the
   * rendering of any number does.
   */
  lemma PasteLikeTyping(text: string, n: nat)
    ensures !PasteBlocked(text) <==> |text| >= 1 && forall k :: 0 <= k < |text| ==> !KeyBlocked([text[k]], false)
    ensures !PasteBlocked(NatToString(n))
  {
    forall k | 0 <= k < |text| ensures !KeyBlocked([text[k]], false) <==> IsDigit(text[k]) {
      SingleCharacterKeys(text[k], false);
    }
  }

  // ---------------------------------------------------------------- submit

  /** `file.name.split(".").pop()`. */
  function Extension(name: string): string {
    var parts := Split(name, '.');
    parts[|parts| - 1]
  }

  /** The extension is the text after the last dot, or the whole name when it has none. */
  lemma ExtensionAfterLastDot(name: string)
    ensures '.' !in Extension(name)
    ensures '.' !in name ==> Extension(name) == name
    ensures '.' in name ==> exists i :: 0 <= i < |name| && name[i] == '.' && Extension(name) == name[i + 1..]
  {
    LastPiece(name, '.');
  }

  /** The storage path of photo `i`: owner, recipe, upload time, position and extension. */
  function UploadPath(userId: string, recipeId: string, stamp: nat, i: nat, file: File): string {
    userId + "/" + recipeId + "/" + NatToString(stamp) + "-" + NatToString(i) + "." + Extension(file.name)
  }

  /** A row linking a recipe to a tag or an effort level. */
  datatype Link = Link(recipeId: string, choiceId: string)

  /** The rows inserted for a selection; no insert at all when nothing is selected. */
  function LinkRows(recipeId: string, ids: seq<string>): (rows: Option<seq<Link>>)
    ensures rows.None? <==> |ids| == 0
    ensures rows.Some? ==> |rows.value| == |ids|
    ensures rows.Some? ==> forall k :: 0 <= k < |ids| ==> rows.value[k] == Link(recipeId, ids[k])
  {
    if |ids| > 0 then Some(seq(|ids|, k requires 0 <= k < |ids| => Link(recipeId, ids[k]))) else None
  }

  /** A recorded photo: where the upload put it and its position. */
  datatype ImageRow = ImageRow(imageUrl: string, sortOrder: nat)

  /**
   * One submission's photo uploads. `now(i)` is the clock read for photo
   * `i`, and `upload(path, file)` is the stored path, or `None` when the
   * upload fails.
   */
  datatype Batch = Batch(
    userId: string,
    recipeId: string,
    files: seq<File>,
    now: nat -> nat,
    upload: (string, File) -> Option<string>)

  /** The outcome of uploading photo `i`. */
  function Attempt(b: Batch, i: nat): Option<string>
    requires i < |b.files|
  {
    b.upload(UploadPath(b.userId, b.recipeId, b.now(i), i, b.files[i]), b.files[i])
  }

  /** The rows recorded for the first `n` photos. */
  function ImageRows(b: Batch, n: nat): seq<ImageRow>
    requires n <= |b.files|
  {
    if n == 0 then []
    else
      var a := Attempt(b, n - 1);
      ImageRows(b, n - 1) + (if a.Some? then [ImageRow(a.value, n - 1)] else [])
  }

  /** Every row records a successful upload of the photo at its position, below `n`. */
  lemma {:induction false} ImageRowsRecorded(b: Batch, n: nat)
    requires n <= |b.files|
    ensures forall k :: 0 <= k < |ImageRows(b, n)| ==>
      ImageRows(b, n)[k].sortOrder < n && Attempt(b, ImageRows(b, n)[k].sortOrder) == Some(ImageRows(b, n)[k].imageUrl)
  {
    if n > 0 {
      ImageRowsRecorded(b, n - 1);
      var prev := ImageRows(b, n - 1);
      assert ImageRows(b, n)[..|prev|] == prev;
    }
  }

  /** The recorded positions strictly increase. */
  lemma {:induction false} ImageRowsIncrease(b: Batch, n: nat)
    requires n <= |b.files|
    ensures forall j, k :: 0 <= j < k < |ImageRows(b, n)| ==> ImageRows(b, n)[j].sortOrder < ImageRows(b, n)[k].sortOrder
  {
    if n > 0 {
      ImageRowsIncrease(b, n - 1);
      ImageRowsRecorded(b, n - 1);
      var prev := ImageRows(b, n - 1);
      assert ImageRows(b, n)[..|prev|] == prev;
    }
  }

  /** One more photo keeps the rows so far and adds its own row exactly when its upload succeeded. */
  lemma ImageRowsStep(b: Batch, n: nat)
    requires 0 < n <= |b.files|
    ensures var prev, rows := ImageRows(b, n - 1), ImageRows(b, n);
      && |prev| <= |rows| && rows[..|prev|] == prev
      && (Attempt(b, n - 1).None? ==> rows == prev)
      && (Attempt(b, n - 1).Some? ==> |rows| == |prev| + 1 && rows[|prev|] == ImageRow(Attempt(b, n - 1).value, n - 1))
  {
    var prev := ImageRows(b, n - 1);
    assert (prev + [])[..|prev|] == prev;
  }

  /** Photo `i` has a row. */
  predicate HasRow(rows: seq<ImageRow>, i: nat) {
    exists k :: 0 <= k < |rows| && rows[k].sortOrder == i
  }

  /** Each photo whose upload succeeded has a row. */
  lemma {:induction false} ImageRowsComplete(b: Batch, n: nat)
    requires n <= |b.files|
    ensures forall i: nat :: i < n && Attempt(b, i).Some? ==> HasRow(ImageRows(b, n), i)
  {
    if n > 0 {
      ImageRowsComplete(b, n - 1);
      ImageRowsStep(b, n);
      var prev := ImageRows(b, n - 1);
      var rows := ImageRows(b, n);
      forall i: nat | i < n && Attempt(b, i).Some? ensures HasRow(rows, i) {
        if i < n - 1 {
          assert HasRow(prev, i);
          var k :| 0 <= k < |prev| && prev[k].sortOrder == i;
          assert rows[k] == rows[..|prev|][k] == prev[k];
        } else {
          assert rows[|prev|].sortOrder == i;
        }
      }
    }
  }

  /** What a successful submission writes besides the recipe itself. */
  datatype Writes = Writes(tagRows: Option<seq<Link>>, effortRows: Option<seq<Link>>, imageRows: seq<ImageRow>)

  /** The reply to inserting the recipe. */
  datatype Insert = Saved(recipeId: string) | Failed(message: string)

  /** The form's state once the checklists' options have loaded. */
  class NewRecipeForm {
    var tags: seq<Choice>
    var efforts: seq<Choice>
    var images: seq<File>
    var selectedTags: seq<string>
    var selectedEfforts: seq<string>
    var error: Option<string>
    var success: Option<string>
    var submitting: bool

    constructor (tags: seq<Choice>, efforts: seq<Choice>)
      ensures this.tags == tags && this.efforts == efforts
      ensures images == [] && selectedTags == [] && selectedEfforts == []
      ensures error.None? && success.None? && !submitting
    {
      this.tags := tags;
      this.efforts := efforts;
      images := [];
      selectedTags := [];
      selectedEfforts := [];
      error := None;
      success := None;
      submitting := false;
    }

    /** `Checklist.toggle` on the tag list. */
    method ToggleTag(id: string)
      modifies this
      ensures selectedTags == Toggle(old(selectedTags), id)
      ensures id in selectedTags <==> id !in old(selectedTags)
      ensures id !in old(selectedTags) ==> selectedTags == old(selectedTags) + [id]
      ensures selectedEfforts == old(selectedEfforts) && images == old(images)
      ensures tags == old(tags) && efforts == old(efforts)
      ensures error == old(error) && success == old(success) && submitting == old(submitting)
    {
      ToggleMembers(selectedTags, id);
      selectedTags := Toggle(selectedTags, id);
    }

    /** `Checklist.toggle` on the effort list. */
    method ToggleEffort(id: string)
      modifies this
      ensures selectedEfforts == Toggle(old(selectedEfforts), id)
      ensures id in selectedEfforts <==> id !in old(selectedEfforts)
      ensures id !in old(selectedEfforts) ==> selectedEfforts == old(selectedEfforts) + [id]
      ensures selectedTags == old(selectedTags) && images == old(images)
      ensures tags == old(tags) && efforts == old(efforts)
      ensures error == old(error) && success == old(success) && submitting == old(submitting)
    {
      ToggleMembers(selectedEfforts, id);
      selectedEfforts := Toggle(selectedEfforts, id);
    }

    /**
     * `handleSubmit`. `user` is the signed-in user's id, `inserted` the
     * reply to inserting the recipe; the other parameters stand for the clock
     * and the storage upload. Returns what is written after the recipe, or
     * `None` when the handler stops early.
     */
    method Submit(user: Option<string>, inserted: Insert, now: nat -> nat, upload: (string, File) -> Option<string>)
      returns (writes: Option<Writes>)
      modifies this
      ensures user.None? ==> writes.None? && error == Some("You must be logged in.") && success.None?
      ensures user.Some? && inserted.Failed? ==> writes.None? && error == Some(inserted.message) && success.None?
      ensures user.Some? && inserted.Saved? ==>
        && writes == Some(Writes(
          LinkRows(inserted.recipeId, selectedTags),
          LinkRows(inserted.recipeId, selectedEfforts),
          ImageRows(Batch(user.value, inserted.recipeId, images, now, upload), |images|)))
        && error.None? && success == Some("Recipe saved! Redirecting\U{2026}")
      ensures !submitting
      ensures tags == old(tags) && efforts == old(efforts) && images == old(images)
      ensures selectedTags == old(selectedTags) && selectedEfforts == old(selectedEfforts)
    {
      error := None;
      success := None;
      submitting := true;
      if user.None? {
        error := Some("You must be logged in.");
        submitting := false;
        return None;
      }
      if inserted.Failed? {
        error := Some(inserted.message);
        submitting := false;
        return None;
      }
      var recipeId := inserted.recipeId;
      var tagRows := LinkRows(recipeId, selectedTags);
      var effortRows := LinkRows(recipeId, selectedEfforts);
      ghost var b := Batch(user.value, recipeId, images, now, upload);
      var rows: seq<ImageRow> := [];
      for i := 0 to |images|
        invariant rows == ImageRows(b, i)
      {
        var file := images[i];
        var path := UploadPath(user.value, recipeId, now(i), i, file);
        var uploaded := upload(path, file);
        if uploaded.Some? {
          rows := rows + [ImageRow(uploaded.value, i)];
        }
      }
      writes := Some(Writes(tagRows, effortRows, rows));
      success := Some("Recipe saved! Redirecting\U{2026}");
      submitting := false;
    }
  }
}
