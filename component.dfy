/**
 * The `Carrousel` component: the record list it is given, its two mutable
 * selection fields, the handlers that overwrite them, and the derived views.
 */
module CarrouselComponent {
  import opened CarrouselFilter
  import opened CarrouselView
  import opened CarrouselEvents

  class Carrousel {
    /** The records passed in by the host (the component's `data` prop). */
    const data: seq<Record>
    var selectedPillar: string
    var selectedLevel: string
    /** The events handled so far, oldest first. */
    ghost var history: seq<Event>

    /** The fields are those the handled events produce from the defaults. */
    ghost predicate Valid()
      reads this
    {
      && (forall k :: 0 <= k < |history| ==> Offered(history[k]))
      && State() == Run(history)
    }

    function State(): Selection
      reads this
    {
      Selection(selectedPillar, selectedLevel)
    }

    constructor (data: seq<Record>)
      ensures Valid() && history == []
      ensures this.data == data
      ensures selectedPillar == ALL && selectedLevel == ALL
    {
      this.data := data;
      selectedPillar := ALL;
      selectedLevel := ALL;
      history := [];
    }

    /** A click on the button of `pillar`. */
    method SelectPillar(pillar: string)
      requires Valid()
      requires pillar in PILLAR_BUTTONS
      modifies this
      ensures Valid() && history == old(history) + [PillarClick(pillar)]
      ensures selectedPillar == pillar && selectedLevel == old(selectedLevel)
      ensures Admissible(State()) && selectedPillar != ALL
    {
      selectedPillar := pillar;
      history := history + [PillarClick(pillar)];
      assert history[..|history| - 1] == old(history);
      RunInvariant(history);
    }

    /** A change of the level drop-down to the option whose value is `level`. */
    method SelectLevel(level: string)
      requires Valid()
      requires level in LEVEL_OPTIONS
      modifies this
      ensures Valid() && history == old(history) + [LevelChange(level)]
      ensures selectedLevel == level && selectedPillar == old(selectedPillar)
      ensures Admissible(State())
      ensures selectedPillar == ALL <==> !Clicked(history)
    {
      selectedLevel := level;
      history := history + [LevelChange(level)];
      assert history[..|history| - 1] == old(history);
      RunInvariant(history);
    }

    /** The records of `data` that match both selection fields, in their original order. */
    function FilterData(): (r: seq<Record>)
      reads this
      ensures r == CarrouselFilter.FilterData(data, State())
      ensures forall k :: 0 <= k < |r| ==>
        (selectedPillar == ALL || r[k].pillar == selectedPillar)
        && (selectedLevel == ALL || r[k].levelName == selectedLevel)
      ensures forall k :: 0 <= k < |data| ==>
        (selectedPillar == ALL || data[k].pillar == selectedPillar)
        && (selectedLevel == ALL || data[k].levelName == selectedLevel)
        ==> data[k] in r
    {
      var r := CarrouselFilter.FilterData(data, State());
      assert forall k :: 0 <= k < |data| && Matches(data[k], State()) ==> data[k] in r by {
        forall k | 0 <= k < |data| && Matches(data[k], State()) ensures data[k] in r {
          FilterMembership(data, State(), data[k]);
        }
      }
      r
    }

    /** The list area as rendered for the current state. */
    function Render(): (v: View)
      reads this
      ensures v == CarrouselView.Render(data, State())
      ensures v.Message? <==> FilterData() == []
      ensures v.Message? ==> v.text == NO_RESULTS
      ensures v.Cards? ==> |v.cards| == |FilterData()|
      ensures v.Cards? ==> forall k :: 0 <= k < |v.cards| ==> v.cards[k] == CardOf(FilterData()[k])
    {
      CarrouselView.Render(data, State())
    }
  }
}
