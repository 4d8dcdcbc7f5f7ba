/**
 * What `render` derives from the filtered list: one card per record, with the
 * fallbacks for a missing title and a missing completion percentage, or the
 * "no results" message when nothing matches.
 */
module CarrouselView {
  import opened Wrappers
  import opened CarrouselFilter

  const NO_TITLE: string := "No Title Available"
  const NO_RESULTS: string := "No courses match your filters."

  /** The heading of a card: the learning-path name when present and non-empty, else the placeholder. */
  function DisplayTitle(item: Record): (title: string)
    ensures title != ""
    ensures item.litmosLearningPathName.Some? && item.litmosLearningPathName.value != ""
            ==> title == item.litmosLearningPathName.value
    ensures item.litmosLearningPathName == None || item.litmosLearningPathName == Some("")
            ==> title == NO_TITLE
  {
    match item.litmosLearningPathName
    case Some(name) => if name != "" then name else NO_TITLE
    case None => NO_TITLE
  }

  /** The completion shown on a card: `PercentageComplete || 0`, so a missing or zero value reads 0. */
  function DisplayPercentage(item: Record): (pct: int)
    ensures pct == 0 <==> item.PercentageComplete == None || item.PercentageComplete == Some(0)
  {
    match item.PercentageComplete
    case Some(p) => if p != 0 then p else 0
    case None => 0
  }

  /** The zero test of the `||` fallback is redundant: the shown value is the field with default 0. */
  lemma DisplayPercentageIsGetOr(item: Record)
    ensures DisplayPercentage(item) == item.PercentageComplete.GetOr(0)
  {
  }

  /** The text of one card, top to bottom. */
  datatype Card = Card(title: string, levelName: string, productName: string, pillar: string, percentage: int)

  /** What the list area shows: a message, or the cards in order. */
  datatype View = Message(text: string) | Cards(cards: seq<Card>)

  function CardOf(item: Record): (c: Card)
    ensures c.title == DisplayTitle(item) && c.percentage == DisplayPercentage(item)
    ensures c.levelName == item.levelName && c.productName == item.productName && c.pillar == item.pillar
  {
    Card(DisplayTitle(item), item.levelName, item.productName, item.pillar, DisplayPercentage(item))
  }

  /** The list area rendered for `data` under `sel`. */
  function Render(data: seq<Record>, sel: Selection): (v: View)
    ensures v.Message? <==> FilterData(data, sel) == []
    ensures v.Message? ==> v.text == NO_RESULTS
    ensures v.Cards? ==> |v.cards| == |FilterData(data, sel)| > 0
    ensures v.Cards? ==> forall k :: 0 <= k < |v.cards| ==> v.cards[k] == CardOf(FilterData(data, sel)[k])
  {
    var shown := FilterData(data, sel);
    if |shown| > 0 then
      Cards(seq(|shown|, k requires 0 <= k < |shown| => CardOf(shown[k])))
    else
      Message(NO_RESULTS)
  }

  /** The "no results" message appears exactly when no record of `data` matches the selection. */
  lemma RenderMessageIff(data: seq<Record>, sel: Selection)
    ensures Render(data, sel).Message? <==> forall k :: 0 <= k < |data| ==> !Matches(data[k], sel)
  {
    FilterEmptyIff(data, sel);
  }

  /** Every card shown belongs to the selected pillar and level (unless that axis is at the sentinel). */
  lemma RenderSound(data: seq<Record>, sel: Selection)
    ensures Render(data, sel).Cards? ==>
      forall k :: 0 <= k < |Render(data, sel).cards| ==>
        && (sel.pillar == ALL || Render(data, sel).cards[k].pillar == sel.pillar)
        && (sel.level == ALL || Render(data, sel).cards[k].levelName == sel.level)
  {
  }

  /** In the initial state a non-empty list is shown in full: one card per record, in order. */
  lemma RenderInitialShowsAll(data: seq<Record>)
    requires data != []
    ensures Render(data, INITIAL).Cards?
    ensures |Render(data, INITIAL).cards| == |data|
    ensures forall k :: 0 <= k < |data| ==> Render(data, INITIAL).cards[k] == CardOf(data[k])
  {
    FilterInitialIsIdentity(data);
  }
}
