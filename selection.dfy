/** The selection list of rizzerv.js: the list logic of `toggleSelection`,
    the card marking done when the list is rendered, and the summary the
    send button reports. */
module Selection {
  import opened Seqs
  import opened Text
  import opened Csv

  /** At most this many restaurants can be selected (MAX_SELECTION). */
  const MaxSelection := 4

  /** What a click on a card did. */
  datatype Outcome = Selected | CapacityWarning | Deselected

  datatype Result<T, E> = Ok(value: T) | Err(error: E)

  /** The alert shown when the send button is pressed with nothing selected. */
  const EmptySelectionAlert := "Please select at least one restaurant."

  function NameIsNot(name: String): Restaurant -> bool
  {
    (r: Restaurant) => r.name != name
  }

  /** The deselect branch: every entry with that name leaves the list. */
  function RemoveName(list: seq<Restaurant>, name: String): (r: seq<Restaurant>)
    ensures IsSubsequence(r, list)
    ensures forall x :: x in r ==> x in list && x.name != name
    ensures forall x :: x in list && x.name != name ==> x in r
    ensures forall x :: multiset(r)[x] == if x.name != name then multiset(list)[x] else 0
    ensures (forall i :: 0 <= i < |list| ==> list[i].name != name) ==> r == list
  {
    FilterMultiset(list, NameIsNot(name));
    if forall i :: 0 <= i < |list| ==> list[i].name != name then
      FilterAllPass(list, NameIsNot(name));
      Filter(list, NameIsNot(name))
    else
      Filter(list, NameIsNot(name))
  }

  /** toggleSelection on the list. The card's `selected` class picks the
      branch: an unmarked card is appended while the list is below
      capacity; a marked card removes its name from the list. */
  function Toggle(list: seq<Restaurant>, cardSelected: bool, data: Restaurant): (r: (seq<Restaurant>, Outcome))
    ensures r.1 == Deselected <==> cardSelected
    ensures r.1 == CapacityWarning <==> !cardSelected && |list| >= MaxSelection
    ensures r.1 == Selected ==> |r.0| == |list| + 1 && r.0[..|list|] == list && r.0[|list|] == data
    ensures r.1 == CapacityWarning ==> r.0 == list
    ensures r.1 == Deselected ==> IsSubsequence(r.0, list)
    ensures r.1 == Deselected ==> forall x :: x in r.0 <==> x in list && x.name != data.name
    ensures r.1 == Deselected ==>
      forall x :: multiset(r.0)[x] == if x.name != data.name then multiset(list)[x] else 0
    ensures |list| <= MaxSelection ==> |r.0| <= MaxSelection
  {
    if !cardSelected then
      if |list| < MaxSelection then
        assert (list + [data])[..|list|] == list;
        (list + [data], Selected)
      else
        (list, CapacityWarning)
    else
      (RemoveName(list, data.name), Deselected)
  }

  /** The clicks of a session, one (card was marked, card record) pair each, applied in order. */
  function Session(list: seq<Restaurant>, clicks: seq<(bool, Restaurant)>): seq<Restaurant>
    decreases |clicks|
  {
    if clicks == [] then list
    else Session(Toggle(list, clicks[0].0, clicks[0].1).0, clicks[1..])
  }

  /** Starting within capacity, and in particular from the empty list,
      no sequence of clicks ever selects more than MaxSelection restaurants. */
  lemma {:induction false} SessionBounded(list: seq<Restaurant>, clicks: seq<(bool, Restaurant)>)
    requires |list| <= MaxSelection
    ensures |Session(list, clicks)| <= MaxSelection
    decreases |clicks|
  {
    if clicks != [] {
      SessionBounded(Toggle(list, clicks[0].0, clicks[0].1).0, clicks[1..]);
    }
  }

  /** Clicking a card twice undoes the first click, when the name was not
      selected before and there was room for it. */
  lemma DeselectUndoesSelect(list: seq<Restaurant>, data: Restaurant)
    requires |list| < MaxSelection
    requires forall i :: 0 <= i < |list| ==> list[i].name != data.name
    ensures Toggle(Toggle(list, false, data).0, true, data).0 == list
  {
    FilterAppend(list, [data], NameIsNot(data.name));
    assert Filter([data], NameIsNot(data.name)) == [];
    assert RemoveName(list, data.name) == list;
  }

  /** The list is not keyed by name: an unmarked card whose name is
      already selected (the catalogue may repeat a name) is appended again
      while there is room. */
  lemma SameNameSelectedTwice(list: seq<Restaurant>, data: Restaurant)
    requires |list| < MaxSelection
    requires Marked(list, data)
    ensures Toggle(list, false, data) == (list + [data], Selected)
    ensures |set i | 0 <= i < |list| + 1 && (list + [data])[i].name == data.name| ==
      |set i | 0 <= i < |list| && list[i].name == data.name| + 1
  {
    var before := set i | 0 <= i < |list| && list[i].name == data.name;
    var after := set i | 0 <= i < |list| + 1 && (list + [data])[i].name == data.name;
    assert after == before + {|list|};
  }

  /** Whether `renderRestaurantList` marks the card of `r` as selected:
      some entry of the list has its name. */
  function Marked(list: seq<Restaurant>, r: Restaurant): (marked: bool)
    ensures marked <==> r.name in Names(list)
  {
    exists i :: 0 <= i < |list| && list[i].name == r.name
  }

  /** What the next rendering shows after a click: the card is marked after
      a selection and unmarked after a deselection; after a capacity warning
      the list, and so the marking of every card, is unchanged. */
  lemma RenderAfterToggle(list: seq<Restaurant>, cardSelected: bool, data: Restaurant)
    ensures var (next, outcome) := Toggle(list, cardSelected, data);
      (outcome == Selected ==> Marked(next, data)) &&
      (outcome == Deselected ==> !Marked(next, data)) &&
      (outcome == CapacityWarning ==> next == list)
  {
    var (next, outcome) := Toggle(list, cardSelected, data);
    if outcome == Selected {
      assert next[|list|].name == data.name;
    } else if outcome == Deselected {
      forall i | 0 <= i < |next| ensures next[i].name != data.name {
        assert next[i] in next;
      }
    }
  }

  /** The names of the selected restaurants, in selection order. */
  function Names(list: seq<Restaurant>): (names: seq<String>)
    ensures |names| == |list|
    ensures forall i :: 0 <= i < |list| ==> names[i] == list[i].name
  {
    seq(|list|, i requires 0 <= i < |list| => list[i].name)
  }

  /** The send button: refused on an empty selection, otherwise the
      selected names joined by ", " (the alert shows it after "You selected: "). */
  function SendSummary(list: seq<Restaurant>): (r: Result<String, String>)
    ensures r.Err? <==> list == []
    ensures r.Err? ==> r.error == EmptySelectionAlert
    ensures |list| == 1 ==> r == Ok(list[0].name)
  {
    if |list| == 0 then Err(EmptySelectionAlert)
    else Ok(Join(Names(list), ", "))
  }

  /** A comma outside quotes closes the first cell. */
  lemma CellsAfterComma(t: String)
    ensures Cells(", " + t, false) == [[]] + Cells(" " + t, false)
  {
    assert (", " + t)[1..] == " " + t;
  }

  /** Unfolding a join of at least two names after a prefix. */
  lemma JoinedNamesUnfold(pre: String, names: seq<String>)
    requires |names| >= 2
    ensures pre + Join(names, ", ") == (pre + names[0]) + (", " + Join(names[1..], ", "))
  {
  }

  /** Selecting one more restaurant appends ", " and its name to a
      non-empty summary; with the one-name case this fixes the message for
      every selection. */
  lemma SendSummarySnoc(list: seq<Restaurant>, x: Restaurant)
    requires list != []
    ensures SendSummary(list + [x]) == Ok(SendSummary(list).value + ", " + x.name)
  {
    assert Names(list + [x]) == Names(list) + [x.name];
    JoinSnoc(Names(list), x.name, ", ");
  }

  /** The cells of `pre` followed by names joined with ", ": one per name,
      every name after the first keeping the space that followed its comma. */
  lemma {:induction false} CellsOfJoinedNames(pre: String, names: seq<String>)
    requires pre == [] || pre == " "
    requires names != []
    requires forall i :: 0 <= i < |names| ==> '"' !in names[i] && ',' !in names[i]
    ensures var c := Cells(pre + Join(names, ", "), false);
      |c| == |names| && c[0] == pre + names[0] &&
      forall i :: 1 <= i < |names| ==> c[i] == " " + names[i]
    decreases |names|
  {
    var head := pre + names[0];
    if |names| == 1 {
      CellsPlainPrefix(head, [], false);
      assert head + [] == head;
    } else {
      var rest := names[1..];
      var joined := Join(rest, ", ");
      CellsOfJoinedNames(" ", rest);
      var tailCells := Cells(" " + joined, false);
      JoinedNamesUnfold(pre, names);
      CellsAfterComma(joined);
      CellsPlainPrefix(head, ", " + joined, false);
      assert head + [] == head;
      var c := Cells(pre + Join(names, ", "), false);
      assert c == [head] + tailCells;
      forall i | 1 <= i < |names| ensures c[i] == " " + names[i] {
        assert c[i] == tailCells[i - 1];
        assert rest[i - 1] == names[i];
      }
    }
  }

  /** The summary read back as a CSV line gives the selected names, in
      order, when no name holds a comma (names from the CSV reader are
      already trimmed and free of quotes). */
  lemma SummaryReadBack(list: seq<Restaurant>)
    requires list != []
    requires forall i :: 0 <= i < |list| ==>
      IsTrimmed(list[i].name) && '"' !in list[i].name && ',' !in list[i].name
    ensures SendSummary(list).Ok?
    ensures Fields(SendSummary(list).value) == Names(list)
  {
    var names := Names(list);
    CellsOfJoinedNames([], names);
    assert [] + Join(names, ", ") == Join(names, ", ");
    var f := Fields(Join(names, ", "));
    forall i | 1 <= i < |names| ensures f[i] == names[i] {
      TrimSkipsLeadingSpace(' ', names[i]);
    }
  }

  /** Two clicks on unmarked cards from an empty selection, then send: the
      two names in click order, separated by ", ". */
  lemma SelectTwoThenSend(a: Restaurant, b: Restaurant)
    ensures Session([], [(false, a), (false, b)]) == [a, b]
    ensures SendSummary([a, b]) == Ok(a.name + ", " + b.name)
  {
    var clicks := [(false, a), (false, b)];
    assert Session([], clicks) == Session([a], clicks[1..]);
    assert Session([a], clicks[1..]) == Session([a, b], []);
    assert Names([a, b]) == [a.name, b.name];
    assert Join([a.name, b.name], ", ") == a.name + ", " + Join([b.name], ", ");
  }
}
