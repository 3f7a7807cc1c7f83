/**
 * Gallery filtering: the click listener initGalleryFiltering attaches to
 * every category button.  `getAttribute('data-category')` yields null when
 * the attribute is absent, so categories are optional strings: the source
 * compares them with `===`, under which null equals only null.
 */
module Gallery {
  import opened Wrappers
  import opened Text
  import opened Announce

  datatype Button = Button(category: Option<string>, text: string, active: bool, pressed: string)

  datatype Item = Item(category: Option<string>, display: string, animation: string)

  const FadeIn := "fadeIn 0.5s ease-in"

  /** Whether an item stays visible when the button for `selected` is
      clicked. */
  predicate Shown(selected: Option<string>, item: Option<string>)
  {
    selected == Some("all") || item == selected
  }

  /** The text announced after a click: the button's label, trimmed, between
      "Showing " and " images". */
  function FilterAnnouncement(text: string): string
  {
    "Showing " + Trim(text) + " images"
  }

  /** The announcement names the trimmed label without ambiguity: two
      buttons are announced alike exactly when their trimmed labels agree. */
  lemma AnnouncementNamesTrimmedLabel(x: string, y: string)
    ensures FilterAnnouncement(x) == FilterAnnouncement(y) <==> Trim(x) == Trim(y)
  {
    var ax, ay := FilterAnnouncement(x), FilterAnnouncement(y);
    if ax == ay {
      assert |Trim(x)| == |Trim(y)|;
      assert Trim(x) == ax[8..|ax| - 7];
      assert Trim(y) == ay[8..|ay| - 7];
    }
  }

  /** Whitespace around a button's label, as markup indentation leaves in
      `textContent`, does not change the announcement. */
  lemma AnnouncementIgnoresPadding(pre: string, text: string, post: string)
    requires AllWs(pre) && AllWs(post)
    ensures FilterAnnouncement(pre + text + post) == FilterAnnouncement(text)
  {
    TrimIgnoresPadding(pre, text, post);
  }

  class Gallery {
    const buttons: array<Button>
    const items: array<Item>

    constructor (bs: seq<Button>, its: seq<Item>)
      ensures fresh(buttons) && fresh(items)
      ensures buttons[..] == bs && items[..] == its
    {
      buttons := new Button[|bs|](k requires 0 <= k < |bs| => bs[k]);
      items := new Item[|its|](k requires 0 <= k < |its| => its[k]);
    }

    /** The first forEach of the listener: every button loses the active
        class and reads `aria-pressed="false"`. */
    method DeactivateAll()
      modifies buttons
      ensures forall k :: 0 <= k < buttons.Length ==>
                buttons[k] == old(buttons[k]).(active := false, pressed := "false")
    {
      var i := 0;
      while i < buttons.Length
        invariant 0 <= i <= buttons.Length
        invariant forall k :: 0 <= k < i ==> buttons[k] == old(buttons[k]).(active := false, pressed := "false")
        invariant forall k :: i <= k < buttons.Length ==> buttons[k] == old(buttons[k])
      {
        buttons[i] := buttons[i].(active := false, pressed := "false");
        i := i + 1;
      }
    }

    /** The second forEach: the items of `category` (every item for "all")
        are displayed with the fade-in animation, the others are hidden. */
    method ShowCategory(category: Option<string>)
      modifies items
      ensures forall k :: 0 <= k < items.Length ==>
                items[k] == if Shown(category, old(items[k].category))
                            then old(items[k]).(display := "block", animation := FadeIn)
                            else old(items[k]).(display := "none")
    {
      var j := 0;
      while j < items.Length
        invariant 0 <= j <= items.Length
        invariant forall k :: 0 <= k < j ==>
                    items[k] == if Shown(category, old(items[k].category))
                                then old(items[k]).(display := "block", animation := FadeIn)
                                else old(items[k]).(display := "none")
        invariant forall k :: j <= k < items.Length ==> items[k] == old(items[k])
      {
        if Shown(category, items[j].category) {
          items[j] := items[j].(display := "block", animation := FadeIn);
        } else {
          items[j] := items[j].(display := "none");
        }
        j := j + 1;
      }
    }

    /** The click listener of button `b`.  Listeners are only attached when
        the page has at least one button and at least one item. */
    method Click(b: nat, sr: Announcer)
      requires b < buttons.Length && items.Length > 0
      modifies buttons, items, sr
      ensures forall k :: 0 <= k < buttons.Length ==>
                buttons[k] == old(buttons[k]).(active := k == b, pressed := if k == b then "true" else "false")
      ensures forall k :: 0 <= k < items.Length ==>
                items[k].category == old(items[k].category) &&
                (items[k].display == "block" <==> Shown(old(buttons[b].category), items[k].category)) &&
                (items[k].display == "none" <==> !Shown(old(buttons[b].category), items[k].category)) &&
                items[k].animation == (if Shown(old(buttons[b].category), items[k].category) then FadeIn
                                       else old(items[k].animation))
      ensures sr.log == old(sr.log) + [FilterAnnouncement(old(buttons[b].text))]
    {
      var category := buttons[b].category;
      DeactivateAll();
      buttons[b] := buttons[b].(active := true, pressed := "true");
      ShowCategory(category);
      sr.Announce(FilterAnnouncement(buttons[b].text));
    }
  }
}
