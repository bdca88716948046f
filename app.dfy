/** The page state of rizzerv.js: the three module-level arrays
    (`allRestaurants`, `filteredRestaurants`, `selectedRestaurants`) and the
    handlers that reassign them. The DOM they drive is not modelled; what a
    handler hands to the page (the drop-down values, whether the send button
    shows, the alert text) is returned instead. */
module App {
  import opened Seqs
  import opened Text
  import opened Csv
  import opened Catalog
  import opened Selection

  class Picker {
    var allRestaurants: seq<Restaurant>
    var filteredRestaurants: seq<Restaurant>
    var selectedRestaurants: seq<Restaurant>

    /** The shown list is drawn from the catalogue in catalogue order, and
        the selection never exceeds its capacity. */
    ghost predicate Valid()
      reads this
    {
      |selectedRestaurants| <= MaxSelection &&
      IsSubsequence(filteredRestaurants, allRestaurants)
    }

    /** The page before the CSV arrives: everything empty. */
    constructor ()
      ensures Valid()
      ensures allRestaurants == [] && filteredRestaurants == [] && selectedRestaurants == []
    {
      allRestaurants := [];
      filteredRestaurants := [];
      selectedRestaurants := [];
      SubsequenceReflexive<Restaurant>([]);
    }

    /** The continuation of `fetchRestaurants` on the fetched text: the
        catalogue is replaced by the parsed records, the whole catalogue is
        shown, the selection is kept as it was, and the drop-down values are
        returned ("" for "All Categories", then the sorted categories). */
    method Load(csvData: String) returns (options: seq<String>)
      requires Valid()
      modifies this
      ensures Valid()
      ensures allRestaurants == Records(DataLines(csvData))
      ensures filteredRestaurants == allRestaurants
      ensures selectedRestaurants == old(selectedRestaurants)
      ensures options == [""] + Categories(allRestaurants)
    {
      allRestaurants := ParseCsv(csvData);
      filteredRestaurants := allRestaurants;
      SubsequenceReflexive(allRestaurants);
      options := [""] + Categories(allRestaurants);
    }

    /** The apply-filter handler: the shown list becomes the catalogue
        restricted to the chosen drop-down value; catalogue and selection
        stay as they are. */
    method ApplyFilter(category: String)
      requires Valid()
      modifies this
      ensures Valid()
      ensures filteredRestaurants == FilterByCategory(allRestaurants, category)
      ensures allRestaurants == old(allRestaurants)
      ensures selectedRestaurants == old(selectedRestaurants)
    {
      filteredRestaurants := FilterByCategory(allRestaurants, category);
    }

    /** toggleSelection: the click on a card whose `selected` class is
        `cardSelected`. Returns what the click did and whether the send
        button is shown afterwards. */
    method ToggleSelection(cardSelected: bool, data: Restaurant) returns (outcome: Outcome, sendVisible: bool)
      requires Valid()
      modifies this
      ensures Valid()
      ensures (selectedRestaurants, outcome) == Toggle(old(selectedRestaurants), cardSelected, data)
      ensures sendVisible <==> selectedRestaurants != []
      ensures allRestaurants == old(allRestaurants)
      ensures filteredRestaurants == old(filteredRestaurants)
    {
      var next := Toggle(selectedRestaurants, cardSelected, data);
      selectedRestaurants := next.0;
      outcome := next.1;
      sendVisible := |selectedRestaurants| > 0;
    }

    /** The send button: the alert refusing an empty selection, or the
        selected names joined by ", ". */
    method Send() returns (r: Result<String, String>)
      ensures r == SendSummary(selectedRestaurants)
      ensures r.Err? <==> selectedRestaurants == []
    {
      r := SendSummary(selectedRestaurants);
    }
  }
}
