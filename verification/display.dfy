/** What one render pass sends to the display: the two temperature texts of
    `writeTemperatureValuesToDisplay` and the six colour assignments of
    `determineColorsForDisplay`, as a sequence of commands in call order.

    Slot layout: 0 "IN", 1 "OUT", 2 and 3 the unit letters, 4 the indoor and
    5 the outdoor temperature. Odd slots belong to the outdoor reading, even
    slots to the indoor one. */
module Display {
  import opened Wrappers
  import opened Classifier
  import opened Palette
  import opened Numerals
  import opened Weather

  datatype Command =
    | SetText(text: string, slot: nat)
    | SetTextColor(colour: string, slot: nat)

  const OutdoorSlots: seq<nat> := [1, 3, 5]
  const IndoorSlots: seq<nat> := [0, 2, 4]

  const IndoorTextSlot: nat := 4
  const OutdoorTextSlot: nat := 5

  /** The slots touched by one colour pass, in call order. */
  const DispatchOrder: seq<nat> := OutdoorSlots + IndoorSlots

  /** The role a slot's text belongs to, read off the slot's parity. */
  function RoleOfSlot(slot: nat): Role {
    if slot % 2 == 1 then Outdoor else Indoor
  }

  /** One colour assignment per slot, in the given slot order. */
  function Paint(colour: string, slots: seq<nat>): (cmds: seq<Command>)
    ensures |cmds| == |slots|
    ensures forall k :: 0 <= k < |slots| ==> cmds[k] == SetTextColor(colour, slots[k])
  {
    if slots == [] then [] else [SetTextColor(colour, slots[0])] + Paint(colour, slots[1..])
  }

  /** The text form of the colour a reading of the given role is shown in. */
  function RoleColour(temp: int, units: string, role: Role, dim: bool): string {
    Hex(PaletteFor(dim).ColourOf(Classify(temp, units, role)))
  }

  /** The colour pass. `timestamp` is the time the day/night decision is taken
      at; the indoor reading arrives as text and is parsed first, so text that
      is not a number yields no commands (the program raises there). */
  function DetermineColors(weather: Weather, indoorText: string, units: string, timestamp: int)
    : (r: Option<seq<Command>>)
    ensures r.None? <==> ParseDecimal(indoorText).None?
    ensures r.Some? ==>
              && |r.value| == |DispatchOrder|
              && forall k :: 0 <= k < |r.value| ==>
                   r.value[k].SetTextColor? && r.value[k].slot == DispatchOrder[k]
  {
    match ParseDecimal(indoorText)
    case None => None
    case Some(indoor) =>
      var dim := ShouldDim(timestamp, weather.sunrise, weather.sunset);
      Some(Paint(RoleColour(weather.temp, units, Outdoor, dim), OutdoorSlots)
           + Paint(RoleColour(indoor, units, Indoor, dim), IndoorSlots))
  }

  /** The temperature texts: indoor to slot 4, then outdoor to slot 5. */
  function WriteTemperatures(outdoorText: string, indoorText: string): (r: seq<Command>)
    ensures |r| == 2
    ensures r[0].SetText? && r[0].text == indoorText && r[0].slot == IndoorTextSlot
    ensures r[1].SetText? && r[1].text == outdoorText && r[1].slot == OutdoorTextSlot
    ensures forall k :: 0 <= k < |r| ==>
              && r[k].SetText?
              && r[k].slot in (if RoleOfSlot(r[k].slot) == Indoor then IndoorSlots else OutdoorSlots)
              && r[k].text == (if RoleOfSlot(r[k].slot) == Indoor then indoorText else outdoorText)
  {
    [SetText(indoorText, IndoorTextSlot), SetText(outdoorText, OutdoorTextSlot)]
  }

  /** Every colour assignment of a pass gives its slot the palette colour of the
      bucket of the reading that slot belongs to, with the palette chosen by
      the day/night decision at `timestamp`. */
  lemma ColourOfEverySlot(weather: Weather, indoorText: string, units: string, timestamp: int)
    requires ParseDecimal(indoorText).Some?
    ensures var cmds := DetermineColors(weather, indoorText, units, timestamp).value;
            var dim := ShouldDim(timestamp, weather.sunrise, weather.sunset);
            forall k :: 0 <= k < |cmds| ==>
              var role := RoleOfSlot(cmds[k].slot);
              var temp := if role == Outdoor then weather.temp else ParseDecimal(indoorText).value;
              cmds[k].colour == Hex(PaletteFor(dim).ColourOf(Classify(temp, units, role)))
  {
    var indoor := ParseDecimal(indoorText).value;
    var dim := ShouldDim(timestamp, weather.sunrise, weather.sunset);
    var outdoorPass := Paint(RoleColour(weather.temp, units, Outdoor, dim), OutdoorSlots);
    var indoorPass := Paint(RoleColour(indoor, units, Indoor, dim), IndoorSlots);
    var cmds := DetermineColors(weather, indoorText, units, timestamp).value;
    assert cmds == outdoorPass + indoorPass;
    forall k | 0 <= k < |cmds|
      ensures RoleOfSlot(cmds[k].slot) == (if k < 3 then Outdoor else Indoor)
      ensures cmds[k].colour == (if k < 3 then RoleColour(weather.temp, units, Outdoor, dim)
                                 else RoleColour(indoor, units, Indoor, dim))
    {
      if k < 3 {
        assert cmds[k] == outdoorPass[k];
      } else {
        assert cmds[k] == indoorPass[k - 3];
      }
    }
  }

  /** A colour pass touches exactly the six slots 0 to 5, each once, odd slots
      first. */
  lemma DispatchTouchesEachSlotOnce()
    ensures DispatchOrder == [1, 3, 5, 0, 2, 4]
    ensures forall k :: 0 <= k < |DispatchOrder| ==> DispatchOrder[k] < 6
    ensures forall s: nat :: s < 6 ==> s in DispatchOrder
    ensures forall i, j :: 0 <= i < j < |DispatchOrder| ==> DispatchOrder[i] != DispatchOrder[j]
    ensures forall k :: 0 <= k < |DispatchOrder| ==> (RoleOfSlot(DispatchOrder[k]) == Outdoor <==> k < |OutdoorSlots|)
  {
  }

  /** Each temperature text sits in one of its own role's colour slots, so the
      number is coloured by its own reading's bucket. */
  lemma TextSlotsBelongToTheirRole()
    ensures IndoorTextSlot in IndoorSlots && RoleOfSlot(IndoorTextSlot) == Indoor
    ensures OutdoorTextSlot in OutdoorSlots && RoleOfSlot(OutdoorTextSlot) == Outdoor
  {
  }

  /** The indoor text of a pass is the text of the reading it is classified
      from: the program's `int(indoor_temp)` recovers the sensor's integer. */
  lemma IndoorTextParsesBack(indoor: int)
    ensures forall w: Weather, units: string, timestamp: int ::
              DetermineColors(w, DecimalText(indoor), units, timestamp).Some?
  {
    DecimalRoundTrip(indoor);
  }
}
