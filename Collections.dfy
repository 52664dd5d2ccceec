/**
 * The card of each collection on the "My Collections" page: its title, its
 * visibility icon, the recipe-count line and the optional description.
 */
module Collections {
  import opened JsText

  /** A collection row as the page reads it; the name and description may be missing. */
  datatype Collection = Collection(id: string, name: Option<string>, isPublic: bool, description: Option<string>)

  /** `count || 0`: a missing count is no recipes. */
  function RecipeCount(count: Option<nat>): (n: nat)
    ensures count.None? ==> n == 0
    ensures count.Some? ==> n == count.value
  {
    if count.Some? then count.value else 0
  }

  /** The count line under the title. */
  function CountLabel(n: nat): (caption: string)
    ensures n == 0 <==> caption == "Empty collection"
  {
    if n == 0 then "Empty collection"
    else
      var caption := NatToString(n) + " recipe" + (if n != 1 then "s" else "");
      assert caption[0] == NatToString(n)[0] && IsDigit(caption[0]);
      caption
  }

  /** The longest run of digits at the start of `s`. */
  function DigitPrefix(s: string): (p: string)
    ensures |p| <= |s| && p == s[..|p|]
  {
    if |s| > 0 && IsDigit(s[0]) then [s[0]] + DigitPrefix(s[1..]) else ""
  }

  lemma {:induction false} DigitPrefixOf(a: string, b: string)
    requires forall k :: 0 <= k < |a| ==> IsDigit(a[k])
    requires |b| > 0 && !IsDigit(b[0])
    ensures DigitPrefix(a + b) == a
  {
    if |a| > 0 {
      assert (a + b)[1..] == a[1..] + b;
      DigitPrefixOf(a[1..], b);
    } else {
      assert a + b == b;
    }
  }

  /**
   * A non-empty collection's line starts with its count, then " recipe",
   * with a plural "s" for every count but one.
   */
  lemma CountLabelReads(n: nat)
    requires n > 0
    ensures var caption := CountLabel(n); var d := DigitPrefix(caption);
      && d == NatToString(n) && DecimalValue(d) == n
      && caption[|d|..] == (if n == 1 then " recipe" else " recipes")
  {
    var tail := " recipe" + (if n != 1 then "s" else "");
    assert CountLabel(n) == NatToString(n) + tail;
    DigitPrefixOf(NatToString(n), tail);
    NatToStringValue(n);
  }

  /** Different counts get different lines. */
  lemma CountLabelInjective(m: nat, n: nat)
    requires CountLabel(m) == CountLabel(n)
    ensures m == n
  {
    if m > 0 && n > 0 {
      CountLabelReads(m);
      CountLabelReads(n);
      NatToStringInjective(m, n);
    }
  }

  /** The card's heading: `name || "Untitled"`. */
  function Title(name: Option<string>): (t: string)
    ensures t != ""
    ensures name.Some? && name.value != "" ==> t == name.value
    ensures name.None? || name.value == "" ==> t == "Untitled"
  {
    if name.Some? && name.value != "" then name.value else "Untitled"
  }

  datatype Icon = Globe | Lock

  /** The visibility icon. */
  function IconOf(isPublic: bool): (i: Icon)
    ensures i == Globe <==> isPublic
  {
    if isPublic then Globe else Lock
  }

  /** `c.description && …`: the description paragraph, shown only when there is text. */
  function ShownDescription(description: Option<string>): (d: Option<string>)
    ensures d.Some? <==> description.Some? && description.value != ""
    ensures d.Some? ==> d == description
  {
    if description.Some? && description.value != "" then description else None
  }

  /** What one card shows. */
  datatype Card = Card(title: string, icon: Icon, meta: string, description: Option<string>)

  function CardOf(c: Collection, count: Option<nat>): Card {
    Card(Title(c.name), IconOf(c.isPublic), CountLabel(RecipeCount(count)), ShownDescription(c.description))
  }

  /**
   * A card always has a heading; a missing count reads as an empty
   * collection; the card tells its collection's count and visibility back.
   */
  lemma CardShows(c: Collection, count: Option<nat>, other: Option<nat>)
    ensures CardOf(c, count).title != ""
    ensures count.None? ==> CardOf(c, count).meta == "Empty collection"
    ensures CardOf(c, count).meta == CardOf(c, other).meta ==> RecipeCount(count) == RecipeCount(other)
    ensures CardOf(c, count).icon == Globe <==> c.isPublic
  {
    if CardOf(c, count).meta == CardOf(c, other).meta {
      CountLabelInjective(RecipeCount(count), RecipeCount(other));
    }
  }
}
