/**
 * The photo picker of the recipe forms: the chosen files and their preview
 * URLs are two parallel lists, appended to together and cut at the same
 * position together.
 */
module ImageUploader {
  import opened JsText

  /** A chosen file; only its name matters here. */
  datatype File = File(name: string)

  /** `xs.filter((_, i) => i !== index)`: every element whose position is not `index`. */
  function RemoveAt<T>(xs: seq<T>, index: int): seq<T>
    decreases |xs|
  {
    if |xs| == 0 then [] else (if index == 0 then [] else [xs[0]]) + RemoveAt(xs[1..], index - 1)
  }

  /**
   * Removing a position in range deletes exactly that element and keeps
   * the rest in order; any other index leaves the list as it was.
   */
  lemma {:induction false} RemoveAtSlices<T>(xs: seq<T>, index: int)
    ensures 0 <= index < |xs| ==> RemoveAt(xs, index) == xs[..index] + xs[index + 1..]
    ensures !(0 <= index < |xs|) ==> RemoveAt(xs, index) == xs
    decreases |xs|
  {
    if |xs| > 0 {
      RemoveAtSlices(xs[1..], index - 1);
      if index == 0 {
        assert xs[..0] + xs[1..] == xs[1..];
      } else if 0 < index < |xs| {
        assert xs[..index] == [xs[0]] + xs[1..][..index - 1];
        assert xs[index + 1..] == xs[1..][index..];
      } else {
        assert xs == [xs[0]] + xs[1..];
      }
    }
  }

  lemma RemoveAtLength<T>(xs: seq<T>, index: int)
    ensures |RemoveAt(xs, index)| == if 0 <= index < |xs| then |xs| - 1 else |xs|
  {
    RemoveAtSlices(xs, index);
  }

  /** The add button's caption. */
  function ButtonLabel(imageCount: nat): (caption: string)
    ensures caption == "Add photos" || caption == "Add more"
  {
    if imageCount == 0 then "Add photos" else "Add more"
  }

  /** The caption invites adding photos exactly when there are none yet. */
  lemma ButtonLabelEmpty(imageCount: nat)
    ensures ButtonLabel(imageCount) == "Add photos" <==> imageCount == 0
    ensures ButtonLabel(imageCount) == "Add more" <==> imageCount > 0
  {
    assert "Add photos" != "Add more" by { assert "Add photos"[4] != "Add more"[4]; }
  }

  /** The count badge: shown with the count exactly when there is at least one image. */
  function Badge(imageCount: nat): (b: Option<string>)
    ensures b.Some? <==> imageCount > 0
    ensures b.Some? ==> (forall k :: 0 <= k < |b.value| ==> IsDigit(b.value[k])) && DecimalValue(b.value) == imageCount
  {
    if imageCount > 0 then NatToStringValue(imageCount); Some(NatToString(imageCount)) else None
  }

  /** The two lists the form owns and the component updates. */
  class Uploader {
    var images: seq<File>
    var previews: seq<string>

    /** One preview per image. */
    ghost predicate Valid()
      reads this
    {
      |images| == |previews|
    }

    /** A new form: no images yet. */
    constructor ()
      ensures images == [] && previews == [] && Valid()
    {
      images := [];
      previews := [];
    }

    function ImageCount(): nat
      reads this
    {
      |images|
    }

    /**
     * `handleFileChange`: no file list, no change; otherwise the files are
     * appended in order and one preview per file after the existing ones.
     * `objectUrl` stands for `URL.createObjectURL`.
     */
    method AddFiles(files: Option<seq<File>>, objectUrl: File -> string)
      requires Valid()
      modifies this
      ensures files.None? ==> images == old(images) && previews == old(previews)
      ensures files.Some? ==> images == old(images) + files.value
      ensures files.Some? ==> previews == old(previews) + seq(|files.value|, k requires 0 <= k < |files.value| => objectUrl(files.value[k]))
      ensures Valid()
    {
      if files.None? {
        return;
      }
      var newFiles := files.value;
      var newPreviews := seq(|newFiles|, k requires 0 <= k < |newFiles| => objectUrl(newFiles[k]));
      images := images + newFiles;
      previews := previews + newPreviews;
    }

    /**
     * `handleRemove`: with an `onRemove` callback the lists stay and the
     * callback gets the index; without one, position `index` goes from both
     * lists.
     */
    method Remove(index: int, hasOnRemove: bool) returns (notified: Option<int>)
      requires Valid()
      modifies this
      ensures hasOnRemove ==> notified == Some(index) && images == old(images) && previews == old(previews)
      ensures !hasOnRemove ==> notified.None?
      ensures !hasOnRemove ==> images == RemoveAt(old(images), index) && previews == RemoveAt(old(previews), index)
      ensures Valid()
    {
      if hasOnRemove {
        notified := Some(index);
      } else {
        RemoveAtLength(images, index);
        RemoveAtLength(previews, index);
        images := RemoveAt(images, index);
        previews := RemoveAt(previews, index);
        notified := None;
      }
    }
  }
}
