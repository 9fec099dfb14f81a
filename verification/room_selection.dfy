/** The room picker of the graph page: the selection state, the transition
    run when a room item is clicked, the check mark each item shows, the
    cleaning of the loaded room list, and the `rooms=` query value built from
    the state when a graph is requested. */
module RoomSelection {
  import opened Results
  import Text
  import Seqs

  /** The pseudo-room that asks the server for the all-rooms aggregate. */
  const Total: string := "total"
  /** The pseudo-room that switches the page to summary mode. */
  const Summary: string := "summary"

  /** Rooms the page shows when the room list cannot be loaded. */
  const FallbackRooms: seq<string> := ["204", "430", "536"]

  /** The selection state: the picked rooms in click order and the summary flag. */
  datatype Selection = Selection(rooms: seq<string>, summaryMode: bool)

  /** The page's own state as far as the picker is concerned. */
  datatype Page = Page(rooms: seq<string>, selection: Selection)

  /** The shapes of the room-list response the page recognises. */
  datatype RoomsPayload =
    | RoomsField(rooms: seq<string>)    // an object whose `rooms` is an array
    | BareList(items: seq<string>)      // the response is itself an array
    | Unrecognised                      // anything else

  /** Why a graph request cannot be built. */
  datatype ParamError = NoRoomsSelected

  const InitialPage: Page := Page([], Selection([], false))

  /** The page starts consistent, with nothing marked, and a graph request
      made straight away is refused. */
  lemma InitialConsistent(item: string)
    ensures Consistent(InitialPage.selection)
    ensures !IsSelected(InitialPage.selection, item)
    ensures RoomsParam(InitialPage) == Failure(NoRoomsSelected)
  {
  }

  predicate IsPlain(room: string) {
    room != Total && room != Summary
  }

  /** The states the page can reach: no room twice, never the summary
      pseudo-room in the list, an empty list in summary mode, and the
      aggregate only on its own. */
  predicate Consistent(s: Selection) {
    && Seqs.NoDuplicates(s.rooms)
    && Summary !in s.rooms
    && (s.summaryMode ==> s.rooms == [])
    && (Total in s.rooms ==> s.rooms == [Total])
  }

  /** `xs.filter(r => r !== v)`. */
  function Without(xs: seq<string>, v: string): (r: seq<string>)
    ensures forall x :: x in r <==> x in xs && x != v
    ensures |r| <= |xs|
    ensures Seqs.NoDuplicates(xs) ==> Seqs.NoDuplicates(r)
    decreases |xs|
  {
    if |xs| == 0 then []
    else if xs[0] == v then Without(xs[1..], v)
    else
      var rest := Without(xs[1..], v);
      assert Seqs.NoDuplicates(xs) ==> Seqs.NoDuplicates(xs[1..]) && xs[0] !in xs[1..];
      [xs[0]] + rest
  }

  lemma {:induction false} WithoutAbsent(xs: seq<string>, v: string)
    requires v !in xs
    ensures Without(xs, v) == xs
    decreases |xs|
  {
    if |xs| != 0 {
      WithoutAbsent(xs[1..], v);
      assert [xs[0]] + xs[1..] == xs;
    }
  }

  /** The filter keeps the order of what it keeps: it distributes over
      concatenation. */
  lemma {:induction false} WithoutAppend(a: seq<string>, b: seq<string>, v: string)
    ensures Without(a + b, v) == Without(a, v) + Without(b, v)
    decreases |a|
  {
    if |a| == 0 {
      assert a + b == b;
    } else {
      assert (a + b)[1..] == a[1..] + b;
      WithoutAppend(a[1..], b, v);
    }
  }

  lemma {:induction false} WithoutAppended(xs: seq<string>, v: string)
    requires v !in xs
    ensures Without(xs + [v], v) == xs
    decreases |xs|
  {
    if |xs| == 0 {
      assert Without([v][1..], v) == [];
    } else {
      assert (xs + [v])[1..] == xs[1..] + [v];
      WithoutAppended(xs[1..], v);
      assert [xs[0]] + xs[1..] == xs;
    }
  }

  /** Clicking a room item. "total" selects the aggregate alone and leaves
      summary mode; "summary" enters summary mode with nothing selected; a
      plain room leaves summary mode and is flipped in the selection, which
      first starts over from empty when it held the aggregate or the page was
      in summary mode. */
  function Toggle(s: Selection, room: string): (t: Selection)
    ensures room == Total ==> t == Selection([Total], false)
    ensures room == Summary ==> t == Selection([], true)
    ensures t.summaryMode <==> room == Summary
    ensures room != Total ==> Total !in t.rooms
    ensures Summary !in s.rooms ==> Summary !in t.rooms
    ensures Seqs.NoDuplicates(s.rooms) ==> Seqs.NoDuplicates(t.rooms)
    ensures IsPlain(room) ==> (room in t.rooms <==> !(room in s.rooms && Total !in s.rooms && !s.summaryMode))
  {
    if room == Total then Selection([Total], false)
    else if room == Summary then Selection([], true)
    else
      var current := if Total in s.rooms || s.summaryMode then [] else s.rooms;
      if room in current then Selection(Without(current, room), false)
      else Selection(current + [room], false)
  }

  /** The "clear" button: empties the selection and keeps the summary flag. */
  function Clear(s: Selection): Selection {
    Selection([], s.summaryMode)
  }

  /** Whether the item for `item` shows as selected. */
  function IsSelected(s: Selection, item: string): (b: bool)
    ensures item == Summary ==> (b <==> s.summaryMode)
    ensures item != Summary && s.summaryMode ==> !b
    ensures item != Summary && !s.summaryMode ==> (b <==> item in s.rooms)
  {
    if item == Summary then s.summaryMode
    else if item == Total then !s.summaryMode && Total in s.rooms
    else !s.summaryMode && item in s.rooms
  }

  /** Every click keeps the selection consistent. */
  lemma ToggleKeepsConsistent(s: Selection, room: string)
    requires Consistent(s)
    ensures Consistent(Toggle(s, room))
  {
  }

  /** Clearing keeps the selection consistent and unmarks every item except
      "summary", which stays marked exactly when summary mode was on. */
  lemma ClearUnmarks(s: Selection, item: string)
    requires Consistent(s)
    ensures Consistent(Clear(s))
    ensures IsSelected(Clear(s), item) <==> item == Summary && s.summaryMode
  {
  }

  /** A plain room clicked while the aggregate is selected or summary mode is
      on becomes the only selected room. */
  lemma ToggleLeavesAggregate(s: Selection, room: string)
    requires IsPlain(room)
    requires Total in s.rooms || s.summaryMode
    ensures Toggle(s, room) == Selection([room], false)
  {
  }

  /** In a plain selection, clicking an unselected plain room appends it
      after the rooms already selected, which keep their order. */
  lemma ToggleAppends(rooms: seq<string>, room: string)
    requires IsPlain(room)
    requires Total !in rooms && room !in rooms
    ensures Toggle(Selection(rooms, false), room) == Selection(rooms + [room], false)
  {
  }

  /** In a plain selection, clicking a selected plain room removes it and
      keeps the other rooms in their order (`Without` distributes over
      concatenation). */
  lemma ToggleRemoves(rooms: seq<string>, room: string)
    requires IsPlain(room)
    requires Total !in rooms && room in rooms
    ensures Toggle(Selection(rooms, false), room) == Selection(Without(rooms, room), false)
  {
  }

  /** Clicking a plain room that is not selected twice restores the selection. */
  lemma ToggleTwiceRestores(rooms: seq<string>, room: string)
    requires IsPlain(room)
    requires Total !in rooms && room !in rooms
    ensures Toggle(Toggle(Selection(rooms, false), room), room) == Selection(rooms, false)
  {
    WithoutAppended(rooms, room);
  }

  /** Clicking a selected plain room twice keeps the same rooms and moves the
      clicked one to the end. */
  lemma ToggleTwiceMovesLast(rooms: seq<string>, room: string)
    requires IsPlain(room)
    requires Total !in rooms && room in rooms
    ensures Toggle(Toggle(Selection(rooms, false), room), room) == Selection(Without(rooms, room) + [room], false)
    ensures Seqs.NoDuplicates(rooms) ==> multiset(Without(rooms, room) + [room]) == multiset(rooms)
  {
    if Seqs.NoDuplicates(rooms) {
      WithoutSingle(rooms, room);
    }
  }

  lemma {:induction false} WithoutSingle(xs: seq<string>, v: string)
    requires Seqs.NoDuplicates(xs) && v in xs
    ensures multiset(Without(xs, v)) + multiset{v} == multiset(xs)
    decreases |xs|
  {
    assert [xs[0]] + xs[1..] == xs;
    if xs[0] == v {
      assert v !in xs[1..];
      WithoutAbsent(xs[1..], v);
    } else {
      WithoutSingle(xs[1..], v);
    }
  }

  /** Clicking a plain room flips that room's check mark, whatever the state. */
  lemma ToggleFlipsMark(s: Selection, room: string)
    requires Consistent(s)
    requires IsPlain(room)
    ensures IsSelected(Toggle(s, room), room) == !IsSelected(s, room)
  {
  }

  /** Clicking a plain room leaves every other plain room's mark alone. */
  lemma ToggleKeepsOtherMarks(s: Selection, room: string, other: string)
    requires Consistent(s)
    requires IsPlain(room) && IsPlain(other) && room != other
    ensures IsSelected(Toggle(s, room), other) == IsSelected(s, other)
  {
  }

  /** After clicking "total" only the "total" item is marked; after clicking
      "summary" only the "summary" item is. */
  lemma AggregateMarks(s: Selection, item: string)
    ensures IsSelected(Toggle(s, Total), item) <==> item == Total
    ensures IsSelected(Toggle(s, Summary), item) <==> item == Summary
  {
  }

  /** `loaded.filter(r => r !== "total" && r !== "summary")`. */
  function CleanRooms(loaded: seq<string>): (clean: seq<string>)
    ensures forall x :: x in clean <==> x in loaded && IsPlain(x)
    ensures |clean| <= |loaded|
    decreases |loaded|
  {
    if |loaded| == 0 then []
    else if IsPlain(loaded[0]) then [loaded[0]] + CleanRooms(loaded[1..])
    else CleanRooms(loaded[1..])
  }

  /** Cleaning keeps the relative order of what it keeps: it distributes over
      concatenation. */
  lemma {:induction false} CleanRoomsAppend(a: seq<string>, b: seq<string>)
    ensures CleanRooms(a + b) == CleanRooms(a) + CleanRooms(b)
    decreases |a|
  {
    if |a| == 0 {
      assert a + b == b;
    } else {
      assert (a + b)[1..] == a[1..] + b;
      CleanRoomsAppend(a[1..], b);
    }
  }

  /** A list without pseudo-rooms is left exactly as it is, so cleaning is
      idempotent. */
  lemma {:induction false} CleanRoomsPlain(loaded: seq<string>)
    requires forall i :: 0 <= i < |loaded| ==> IsPlain(loaded[i])
    ensures CleanRooms(loaded) == loaded
    ensures CleanRooms(CleanRooms(loaded)) == CleanRooms(loaded)
    decreases |loaded|
  {
    if |loaded| != 0 {
      CleanRoomsPlain(loaded[1..]);
      assert [loaded[0]] + loaded[1..] == loaded;
    }
  }

  /** The list the response carries: its `rooms` array, the response itself
      when it is an array, and nothing otherwise. */
  function LoadedRooms(p: RoomsPayload): seq<string> {
    match p
    case RoomsField(rooms) => rooms
    case BareList(items) => items
    case Unrecognised => []
  }

  /** A successful room-list response: a non-empty list replaces the rooms by
      its cleaned copy and selects the aggregate; an empty one changes nothing. */
  function OnRoomsLoaded(page: Page, p: RoomsPayload): (next: Page)
    ensures |LoadedRooms(p)| == 0 ==> next == page
    ensures |LoadedRooms(p)| > 0 ==> next.selection == Selection([Total], false)
    ensures |LoadedRooms(p)| > 0 ==> next.rooms == CleanRooms(LoadedRooms(p))
    ensures |LoadedRooms(p)| > 0 ==> forall x :: x in next.rooms <==> x in LoadedRooms(p) && IsPlain(x)
    ensures forall x :: x in next.rooms ==> x in page.rooms || (x in LoadedRooms(p) && IsPlain(x))
  {
    var loaded := LoadedRooms(p);
    if |loaded| > 0 then Page(CleanRooms(loaded), Selection([Total], false)) else page
  }

  /** A failed room-list request: the fallback rooms, selection untouched. */
  function OnRoomsFailed(page: Page): (next: Page)
    ensures next.selection == page.selection
    ensures next.rooms == FallbackRooms
    ensures forall x :: x in next.rooms ==> IsPlain(x)
  {
    Page(FallbackRooms, page.selection)
  }

  /** The `rooms=` value of a graph request, by fixed priority: summary mode
      asks for every listed room, else a selection holding "total" asks for the
      aggregate, else an empty selection is refused, else the selected rooms
      are comma-joined in click order. */
  function RoomsParam(page: Page): (r: Result<string, ParamError>)
    ensures r.Failure? <==> !page.selection.summaryMode && Total !in page.selection.rooms && page.selection.rooms == []
    ensures !page.selection.summaryMode && Total in page.selection.rooms ==> r == Success(Total)
    ensures page.selection.summaryMode && page.rooms == [] ==> r == Success("")
  {
    var s := page.selection;
    if s.summaryMode then Success(Text.Join(page.rooms, ','))
    else if Total in s.rooms then Success(Total)
    else if |s.rooms| == 0 then Failure(NoRoomsSelected)
    else Success(Text.Join(s.rooms, ','))
  }

  /** A server reading the `rooms=` value back at the commas recovers exactly
      the rooms asked for: every room in summary mode, otherwise the selection
      in click order. */
  lemma RoomsParamNamesRooms(page: Page)
    requires Text.FreeOf(page.rooms, ',') && Text.FreeOf(page.selection.rooms, ',')
    ensures page.selection.summaryMode && |page.rooms| > 0 ==>
      RoomsParam(page).Success? && Text.Split(RoomsParam(page).value, ',') == page.rooms
    ensures !page.selection.summaryMode && Total !in page.selection.rooms && |page.selection.rooms| > 0 ==>
      RoomsParam(page).Success? && Text.Split(RoomsParam(page).value, ',') == page.selection.rooms
  {
    if page.selection.summaryMode && |page.rooms| > 0 {
      Text.SplitJoin(page.rooms, ',');
    } else if !page.selection.summaryMode && Total !in page.selection.rooms && |page.selection.rooms| > 0 {
      Text.SplitJoin(page.selection.rooms, ',');
    }
  }

  /** Loading the room list, or failing to, keeps the selection consistent;
      after a non-empty list arrives the next request asks for the aggregate. */
  lemma ConsistentAfterLoad(page: Page, p: RoomsPayload)
    requires Consistent(page.selection)
    ensures Consistent(OnRoomsLoaded(page, p).selection)
    ensures Consistent(OnRoomsFailed(page).selection)
    ensures |LoadedRooms(p)| > 0 ==> RoomsParam(OnRoomsLoaded(page, p)) == Success(Total)
  {
  }

  /** The check marks show what the next request asks for. In summary mode
      only the "summary" item is marked. Otherwise, when the request can be
      built, an item is marked exactly when the `rooms=` value, read back at
      the commas, names it. */
  lemma MarksShowRequest(page: Page, item: string)
    requires Consistent(page.selection)
    requires Text.FreeOf(page.selection.rooms, ',')
    ensures page.selection.summaryMode ==> (IsSelected(page.selection, item) <==> item == Summary)
    ensures !page.selection.summaryMode && RoomsParam(page).Success? ==>
      (IsSelected(page.selection, item) <==> item in Text.Split(RoomsParam(page).value, ','))
  {
    var s := page.selection;
    if !s.summaryMode && RoomsParam(page).Success? {
      if Total in s.rooms {
        assert Text.Join([Total], ',') == Total;
        Text.SplitJoin([Total], ',');
      } else {
        Text.SplitJoin(s.rooms, ',');
      }
    }
  }
}
