/** What a walk over one body records of its calls, and what it gives back when it finishes. */
module CallLinks {
  import opened Json
  import opened Sorting
  import opened Placements

  /** One call of a `TargetPlacements` method, by normalized callee text. */
  datatype Event =
    | Placed(callee: string, place: Place)
    | Stopped(callee: string, call: Place)
    | PlacedArg(callee: string, position: nat, place: Place)
    | PlacedPossible(callee: string, places: seq<Place>)
    | PlacedReceiver(callee: string, receiver: Option<ReceiverOf>)

  type History = seq<Event>

  /** What some events say, in order: nothing, or one placement each. */
  function Picked<T>(pick: Event -> Option<Option<T>>, history: History): seq<Option<T>> {
    if history == [] then [] else
      var front, last := Picked(pick, history[..|history| - 1]), pick(history[|history| - 1]);
      if last.Some? then front + [last.value] else front
  }

  function PlacedAt(callee: string): Event -> Option<Option<Place>> {
    (e: Event) => if e.Placed? && e.callee == callee then Some(Some(e.place)) else None
  }

  function PlacedAtArg(callee: string, position: nat): Event -> Option<Option<Place>> {
    (e: Event) => if e.PlacedArg? && e.callee == callee && e.position == position then Some(Some(e.place)) else None
  }

  function PossibleAt(callee: string): Event -> Option<Option<seq<Place>>> {
    (e: Event) => if e.PlacedPossible? && e.callee == callee then Some(Some(Sorted(e.places))) else None
  }

  function ReceiverAt(callee: string): Event -> Option<Option<ReceiverOf>> {
    (e: Event) => if e.PlacedReceiver? && e.callee == callee then Some(e.receiver) else None
  }

  function StoppedAt(callee: string): Event -> Option<Option<Place>> {
    (e: Event) => if e.Stopped? && e.callee == callee then Some(Some(e.call)) else None
  }

  lemma PickedSnoc<T>(pick: Event -> Option<Option<T>>, history: History, e: Event)
    ensures Picked(pick, history + [e]) == if pick(e).Some? then Picked(pick, history) + [pick(e).value]
            else Picked(pick, history)
  {
    assert (history + [e])[..|history|] == history;
  }

  lemma {:induction false} PickedMembers<T>(pick: Event -> Option<Option<T>>, history: History, x: Option<T>)
    ensures x in Picked(pick, history) <==> exists e :: e in history && pick(e) == Some(x)
  {
    if history != [] {
      var front, last := history[..|history| - 1], history[|history| - 1];
      assert history == front + [last];
      PickedMembers(pick, front, x);
      if x in Picked(pick, history) && x !in Picked(pick, front) { assert pick(last) == Some(x); }
    }
  }

  lemma JoinSnoc<T, K>(keyOf: T -> K, placed: seq<Option<T>>, next: Option<T>)
    ensures JoinAll(keyOf, placed + [next]) == Join(keyOf, JoinAll(keyOf, placed), next)
  {
    assert (placed + [next])[..|placed|] == placed;
  }

  // ---------------------------------------------------------- what a history says

  function PlaceSaid(history: History, callee: string): Option<Option<Place>> {
    JoinAll(KeyOf, Picked(PlacedAt(callee), history))
  }

  /** Of several stops under one text the first is kept. */
  function StopSaid(history: History, callee: string): Option<Place> {
    var calls := Picked(StoppedAt(callee), history);
    if calls == [] then None else calls[0]
  }

  function ArgSaid(history: History, callee: string, position: nat): Option<Option<Place>> {
    JoinAll(KeyOf, Picked(PlacedAtArg(callee, position), history))
  }

  function SetSaid(history: History, callee: string): Option<Option<seq<Place>>> {
    JoinAll(Declarations, Picked(PossibleAt(callee), history))
  }

  function ReceiverSaid(history: History, callee: string): Option<Option<ReceiverOf>> {
    JoinAll(ReceiverKeyOf, Picked(ReceiverAt(callee), history))
  }

  lemma PlaceSaidNext(history: History, e: Event, callee: string)
    ensures PlaceSaid(history + [e], callee) ==
            if e.Placed? && e.callee == callee then Join(KeyOf, PlaceSaid(history, callee), Some(e.place))
              else PlaceSaid(history, callee)
  {
    PickedSnoc(PlacedAt(callee), history, e);
    if e.Placed? && e.callee == callee { JoinSnoc(KeyOf, Picked(PlacedAt(callee), history), Some(e.place)); }
  }

  lemma {:induction false} StopsAreSome(history: History, callee: string)
    ensures forall i :: 0 <= i < |Picked(StoppedAt(callee), history)| ==> Picked(StoppedAt(callee), history)[i].Some?
  {
    if history != [] { StopsAreSome(history[..|history| - 1], callee); }
  }

  lemma StopSaidNext(history: History, e: Event, callee: string)
    ensures StopSaid(history + [e], callee) ==
            if e.Stopped? && e.callee == callee && StopSaid(history, callee).None? then Some(e.call)
              else StopSaid(history, callee)
  {
    StopsAreSome(history, callee);
    PickedSnoc(StoppedAt(callee), history, e);
  }

  lemma ArgSaidNext(history: History, e: Event, callee: string, position: nat)
    ensures ArgSaid(history + [e], callee, position) ==
            if e.PlacedArg? && e.callee == callee && e.position == position
            then Join(KeyOf, ArgSaid(history, callee, position), Some(e.place)) else ArgSaid(history, callee, position)
  {
    PickedSnoc(PlacedAtArg(callee, position), history, e);
    if e.PlacedArg? && e.callee == callee && e.position == position {
      JoinSnoc(KeyOf, Picked(PlacedAtArg(callee, position), history), Some(e.place));
    }
  }

  lemma SetSaidNext(history: History, e: Event, callee: string)
    ensures SetSaid(history + [e], callee) ==
            if e.PlacedPossible? && e.callee == callee
              then Join(Declarations, SetSaid(history, callee), Some(Sorted(e.places)))
            else SetSaid(history, callee)
  {
    PickedSnoc(PossibleAt(callee), history, e);
    if e.PlacedPossible? && e.callee == callee {
      JoinSnoc(Declarations, Picked(PossibleAt(callee), history), Some(Sorted(e.places)));
    }
  }

  lemma ReceiverSaidNext(history: History, e: Event, callee: string)
    ensures ReceiverSaid(history + [e], callee) ==
            if e.PlacedReceiver? && e.callee == callee
              then Join(ReceiverKeyOf, ReceiverSaid(history, callee), e.receiver)
            else ReceiverSaid(history, callee)
  {
    PickedSnoc(ReceiverAt(callee), history, e);
    if e.PlacedReceiver? && e.callee == callee {
      JoinSnoc(ReceiverKeyOf, Picked(ReceiverAt(callee), history), e.receiver);
    }
  }

  // ------------------------------------------------------------------- the maps

  function Lookup<K, V>(m: map<K, V>, key: K): Option<V> {
    if key in m then Some(m[key]) else None
  }

  function AtPosition(m: map<string, map<nat, Option<Place>>>, callee: string, position: nat): Option<Option<Place>> {
    if callee in m then Lookup(m[callee], position) else None
  }

  function OnlySettled<K, V>(m: map<K, Option<V>>): map<K, V> {
    map key | key in m && m[key].Some? :: m[key].value
  }

  function Settled<K>(m: map<K, Option<Place>>, key: K, placed: Place): map<K, Option<Place>> {
    if key !in m then m[key := Some(placed)]
    else if m[key].Some? && !SamePlace(m[key].value, placed) then m[key := None]
    else m
  }

  ghost predicate PlacesHold(m: map<string, Option<Place>>, history: History) {
    forall callee :: Lookup(m, callee) == PlaceSaid(history, callee)
  }

  ghost predicate StopsHold(m: map<string, Place>, history: History) {
    forall callee :: Lookup(m, callee) == StopSaid(history, callee)
  }

  ghost predicate ArgsHold(m: map<string, map<nat, Option<Place>>>, history: History) {
    forall callee, position :: AtPosition(m, callee, position) == ArgSaid(history, callee, position)
  }

  ghost predicate SetsHold(m: map<string, Option<seq<Place>>>, history: History) {
    forall callee :: Lookup(m, callee) == SetSaid(history, callee)
  }

  ghost predicate ReceiversHold(m: map<string, Option<ReceiverOf>>, history: History) {
    forall callee :: Lookup(m, callee) == ReceiverSaid(history, callee)
  }

  /** An event leaves alone what is kept of the other kinds. */
  lemma OthersHold(history: History, e: Event, places: map<string, Option<Place>>, stops: map<string, Place>,
                   args: map<string, map<nat, Option<Place>>>, sets: map<string, Option<seq<Place>>>,
                   receivers: map<string, Option<ReceiverOf>>)
    requires PlacesHold(places, history) && StopsHold(stops, history) && ArgsHold(args, history)
    requires SetsHold(sets, history) && ReceiversHold(receivers, history)
    ensures !e.Placed? ==> PlacesHold(places, history + [e])
    ensures !e.Stopped? ==> StopsHold(stops, history + [e])
    ensures !e.PlacedArg? ==> ArgsHold(args, history + [e])
    ensures !e.PlacedPossible? ==> SetsHold(sets, history + [e])
    ensures !e.PlacedReceiver? ==> ReceiversHold(receivers, history + [e])
  {
    forall callee
      ensures !e.Placed? ==> PlaceSaid(history + [e], callee) == PlaceSaid(history, callee)
    {
      PlaceSaidNext(history, e, callee);
    }
    forall callee
      ensures !e.Stopped? ==> StopSaid(history + [e], callee) == StopSaid(history, callee)
    {
      StopSaidNext(history, e, callee);
    }
    forall callee, position: nat
      ensures !e.PlacedArg? ==> ArgSaid(history + [e], callee, position) == ArgSaid(history, callee, position)
    {
      ArgSaidNext(history, e, callee, position);
    }
    forall callee
      ensures !e.PlacedPossible? ==> SetSaid(history + [e], callee) == SetSaid(history, callee)
    {
      SetSaidNext(history, e, callee);
    }
    forall callee
      ensures !e.PlacedReceiver? ==> ReceiverSaid(history + [e], callee) == ReceiverSaid(history, callee)
    {
      ReceiverSaidNext(history, e, callee);
    }
  }

  lemma PlacedHolds(m: map<string, Option<Place>>, history: History, callee: string, place: Place)
    requires PlacesHold(m, history)
    ensures PlacesHold(Settled(m, callee, place), history + [Placed(callee, place)])
  {
    forall other
      ensures Lookup(Settled(m, callee, place), other) == PlaceSaid(history + [Placed(callee, place)], other)
    {
      PlaceSaidNext(history, Placed(callee, place), other);
      assert Lookup(m, other) == PlaceSaid(history, other);
    }
  }

  lemma StoppedHolds(m: map<string, Place>, history: History, callee: string, call: Place)
    requires StopsHold(m, history)
    ensures StopsHold(if callee in m then m else m[callee := call], history + [Stopped(callee, call)])
  {
    forall other
      ensures Lookup(if callee in m then m else m[callee := call], other) ==
              StopSaid(history + [Stopped(callee, call)], other)
    {
      StopSaidNext(history, Stopped(callee, call), other);
      assert Lookup(m, other) == StopSaid(history, other);
    }
  }

  lemma ArgHolds(m: map<string, map<nat, Option<Place>>>, history: History, callee: string, position: nat, place: Place)
    requires ArgsHold(m, history)
    ensures ArgsHold(m[callee := Settled(if callee in m then m[callee] else map[], position, place)],
                     history + [PlacedArg(callee, position, place)])
  {
    var m' := m[callee := Settled(if callee in m then m[callee] else map[], position, place)];
    forall other, at: nat
      ensures AtPosition(m', other, at) == ArgSaid(history + [PlacedArg(callee, position, place)], other, at)
    {
      ArgSaidNext(history, PlacedArg(callee, position, place), other, at);
      assert AtPosition(m, other, at) == ArgSaid(history, other, at);
    }
  }

  function SetJoined(m: map<string, Option<seq<Place>>>, callee: string,
                     sorted: seq<Place>): map<string, Option<seq<Place>>>
  {
    if callee !in m then m[callee := Some(sorted)]
    else if m[callee].Some? && Declarations(m[callee].value) != Declarations(sorted) then m[callee := None]
    else m
  }

  lemma PossibleHolds(m: map<string, Option<seq<Place>>>, history: History, callee: string, places: seq<Place>)
    requires SetsHold(m, history)
    ensures SetsHold(SetJoined(m, callee, Sorted(places)), history + [PlacedPossible(callee, places)])
  {
    forall other
      ensures Lookup(SetJoined(m, callee, Sorted(places)), other) ==
              SetSaid(history + [PlacedPossible(callee, places)], other)
    {
      SetSaidNext(history, PlacedPossible(callee, places), other);
      assert Lookup(m, other) == SetSaid(history, other);
    }
  }

  function ReceiverJoined(m: map<string, Option<ReceiverOf>>, callee: string,
                          receiver: Option<ReceiverOf>): map<string, Option<ReceiverOf>>
  {
    if callee !in m then m[callee := receiver]
    else if m[callee].Some? && (receiver.None? || ReceiverKeyOf(m[callee].value) != ReceiverKeyOf(receiver.value))
      then m[callee := None]
    else m
  }

  lemma ReceiverHolds(m: map<string, Option<ReceiverOf>>, history: History, callee: string,
                      receiver: Option<ReceiverOf>)
    requires ReceiversHold(m, history)
    ensures ReceiversHold(ReceiverJoined(m, callee, receiver), history + [PlacedReceiver(callee, receiver)])
  {
    forall other
      ensures Lookup(ReceiverJoined(m, callee, receiver), other) ==
              ReceiverSaid(history + [PlacedReceiver(callee, receiver)], other)
    {
      ReceiverSaidNext(history, PlacedReceiver(callee, receiver), other);
      assert Lookup(m, other) == ReceiverSaid(history, other);
    }
  }

  // ------------------------------------------------------------------- the class

  /** The five maps a walk fills, and the history they are always the join of. */
  class TargetPlacements {
    // How a callee's text is spelled before it is a key; any spelling rule will do.
    const normal: string -> string
    var byCallee: map<string, Option<Place>>
    var stops: map<string, Place>
    var byCalleeAndPosition: map<string, map<nat, Option<Place>>>
    var possibleByCallee: map<string, Option<seq<Place>>>
    var receiversByCallee: map<string, Option<ReceiverOf>>
    ghost var history: History

    constructor (normal: string -> string)
      ensures Valid() && this.normal == normal && history == []
    {
      this.normal := normal;
      byCallee, stops, byCalleeAndPosition, possibleByCallee, receiversByCallee := map[], map[], map[], map[], map[];
      history := [];
    }

    /** The maps hold what the history says of each callee. */
    ghost predicate Valid()
      reads this
    {
      && PlacesHold(byCallee, history) && StopsHold(stops, history) && ArgsHold(byCalleeAndPosition, history)
      && SetsHold(possibleByCallee, history) && ReceiversHold(receiversByCallee, history)
    }

    ghost method Others(e: Event)
      requires Valid()
      ensures !e.Placed? ==> PlacesHold(byCallee, history + [e])
      ensures !e.Stopped? ==> StopsHold(stops, history + [e])
      ensures !e.PlacedArg? ==> ArgsHold(byCalleeAndPosition, history + [e])
      ensures !e.PlacedPossible? ==> SetsHold(possibleByCallee, history + [e])
      ensures !e.PlacedReceiver? ==> ReceiversHold(receiversByCallee, history + [e])
    {
      OthersHold(history, e, byCallee, stops, byCalleeAndPosition, possibleByCallee, receiversByCallee);
    }

    method PlaceReceiver(calleeText: string, receiver: Option<ReceiverOf>)
      requires Valid()
      modifies this
      ensures Valid()
      ensures history == old(history) + [PlacedReceiver(normal(calleeText), receiver)]
    {
      var key := normal(calleeText);
      Others(PlacedReceiver(key, receiver));
      ReceiverHolds(receiversByCallee, history, key, receiver);
      receiversByCallee := ReceiverJoined(receiversByCallee, key, receiver);
      history := history + [PlacedReceiver(key, receiver)];
    }

    /** A place that is not known is not recorded. */
    method PlaceCall(calleeText: string, placed: Option<Place>)
      requires Valid()
      modifies this
      ensures Valid()
      ensures history == old(history) + if placed.Some? then [Placed(normal(calleeText), placed.value)] else []
    {
      if placed.None? {
        return;
      }
      var key := normal(calleeText);
      Others(Placed(key, placed.value));
      PlacedHolds(byCallee, history, key, placed.value);
      byCallee := Settled(byCallee, key, placed.value);
      history := history + [Placed(key, placed.value)];
    }

    method PlaceStop(calleeText: string, call: Place)
      requires Valid()
      modifies this
      ensures Valid()
      ensures history == old(history) + [Stopped(normal(calleeText), call)]
    {
      var key := normal(calleeText);
      Others(Stopped(key, call));
      StoppedHolds(stops, history, key, call);
      if key !in stops {
        stops := stops[key := call];
      }
      history := history + [Stopped(key, call)];
    }

    method PlaceArg(calleeText: string, position: nat, placed: Place)
      requires Valid()
      modifies this
      ensures Valid()
      ensures history == old(history) + [PlacedArg(normal(calleeText), position, placed)]
    {
      var key := normal(calleeText);
      Others(PlacedArg(key, position, placed));
      ArgHolds(byCalleeAndPosition, history, key, position, placed);
      var byPosition := if key in byCalleeAndPosition then byCalleeAndPosition[key] else map[];
      byCalleeAndPosition := byCalleeAndPosition[key := Settled(byPosition, position, placed)];
      history := history + [PlacedArg(key, position, placed)];
    }

    /** An empty set of possible functions is not recorded. */
    method PlacePossible(calleeText: string, placed: seq<Place>)
      requires Valid()
      modifies this
      ensures Valid()
      ensures history == old(history) + if placed != [] then [PlacedPossible(normal(calleeText), placed)] else []
    {
      if |placed| == 0 {
        return;
      }
      var key := normal(calleeText);
      Others(PlacedPossible(key, placed));
      PossibleHolds(possibleByCallee, history, key, placed);
      possibleByCallee := SetJoined(possibleByCallee, key, Sorted(placed));
      history := history + [PlacedPossible(key, placed)];
    }

    /** The map gives each text what `TargetOf` says of the history: its stop if it has one, else its settled place. */
    method Targets() returns (targets: map<string, Place>)
      requires Valid()
      ensures forall callee :: Lookup(targets, callee) == TargetOf(history, callee)
    {
      targets := OnlySettled(byCallee) + stops;
      forall callee
        ensures Lookup(targets, callee) == TargetOf(history, callee)
      {
        assert Lookup(byCallee, callee) == PlaceSaid(history, callee) &&
               Lookup(stops, callee) == StopSaid(history, callee);
      }
    }

    /** The map gives each text what `PossibleOf` says of the history, so a text with a place or a stop has no set. */
    method PossibleTargets() returns (found: map<string, seq<Place>>)
      requires Valid()
      ensures forall callee :: Lookup(found, callee) == PossibleOf(history, callee)
    {
      found := map callee | callee in possibleByCallee && possibleByCallee[callee].Some? && callee !in byCallee &&
        callee !in stops
                          :: possibleByCallee[callee].value;
      forall callee
        ensures Lookup(found, callee) == PossibleOf(history, callee)
      {
        assert Lookup(byCallee, callee) == PlaceSaid(history, callee) &&
               Lookup(stops, callee) == StopSaid(history, callee);
        assert Lookup(possibleByCallee, callee) == SetSaid(history, callee);
      }
    }

    /** Every argument position placed at one declaration only; a text with none of them is left out. */
    method ArgTargets() returns (settled: map<string, map<nat, Place>>)
      requires Valid()
      ensures forall callee, position :: ArgIn(settled, callee, position) == Settles(ArgSaid(history, callee, position))
      ensures forall callee :: callee in settled ==> settled[callee] != map[]
    {
      settled := map callee | callee in byCalleeAndPosition && OnlySettled(byCalleeAndPosition[callee]) != map[]
                            :: OnlySettled(byCalleeAndPosition[callee]);
      forall callee, position
        ensures ArgIn(settled, callee, position) == Settles(ArgSaid(history, callee, position))
      {
        assert AtPosition(byCalleeAndPosition, callee, position) == ArgSaid(history, callee, position);
        if callee in byCalleeAndPosition && callee !in settled {
          assert position !in OnlySettled(byCalleeAndPosition[callee]);
        }
      }
    }

    /** The map gives each text the receiver its history settles on, and leaves out a text that settles on none. */
    method Receivers() returns (receivers: map<string, ReceiverOf>)
      requires Valid()
      ensures forall callee :: Lookup(receivers, callee) == Settles(ReceiverSaid(history, callee))
    {
      receivers := OnlySettled(receiversByCallee);
      forall callee
        ensures Lookup(receivers, callee) == Settles(ReceiverSaid(history, callee))
      {
        assert Lookup(receiversByCallee, callee) == ReceiverSaid(history, callee);
      }
    }
  }

  // --------------------------------------------------------------- what it means

  function Settles<T>(said: Option<Option<T>>): Option<T> {
    if said.Some? then said.value else None
  }

  function ArgIn(m: map<string, map<nat, Place>>, callee: string, position: nat): Option<Place> {
    if callee in m then Lookup(m[callee], position) else None
  }

  function TargetOf(history: History, callee: string): Option<Place> {
    if StopSaid(history, callee).Some? then StopSaid(history, callee) else Settles(PlaceSaid(history, callee))
  }

  function PossibleOf(history: History, callee: string): Option<seq<Place>> {
    if PlaceSaid(history, callee).Some? || StopSaid(history, callee).Some? then None
      else Settles(SetSaid(history, callee))
  }

  predicate PlacedOnce(history: History, callee: string, place: Place) {
    Placed(callee, place) in history && forall e :: e in history && e.Placed? && e.callee == callee ==> e.place == place
  }

  predicate ArgPlacedOnce(history: History, callee: string, position: nat, place: Place) {
    && PlacedArg(callee, position, place) in history
    && forall e :: e in history && e.PlacedArg? && e.callee == callee && e.position == position ==> e.place == place
  }

  predicate IsStopped(history: History, callee: string) {
    exists e :: e in history && e.Stopped? && e.callee == callee
  }

  predicate IsPlaced(history: History, callee: string) {
    exists e :: e in history && e.Placed? && e.callee == callee
  }

  /** A join of placements settles on the one all of them name, when there is one and all do. */
  lemma SettlesOnAll(placed: seq<Option<Place>>, place: Place)
    requires forall x :: x in placed ==> x.Some?
    ensures Settles(JoinAll(KeyOf, placed)) == Some(place) <==>
            Some(place) in placed && forall x :: x in placed ==> x == Some(place)
  {
    JoinSettles(KeyOf, placed);
    if placed != [] {
      forall i | 0 <= i < |placed|
        ensures placed[i].Some? && (KeyOf(placed[i].value) == KeyOf(placed[0].value) <==> placed[i] == placed[0])
      {
        assert placed[i] in placed && placed[0] in placed;
        SamePlaceIsEqual(placed[i].value, placed[0].value);
      }
      assert Agree(KeyOf, placed) <==> forall i :: 0 <= i < |placed| ==> placed[i] == placed[0];
      assert placed[0] in placed;
      if forall x :: x in placed ==> x == Some(place) {
        assert forall i :: 0 <= i < |placed| ==> placed[i] in placed;
      }
    }
  }

  /** A callee text is settled on a declaration exactly when it was placed there, and nowhere else, in whatever
      order. */
  lemma PlaceSettles(history: History, callee: string, place: Place)
    ensures Settles(PlaceSaid(history, callee)) == Some(place) <==> PlacedOnce(history, callee, place)
  {
    var placed := Picked(PlacedAt(callee), history);
    forall x
      ensures x in placed <==> x.Some? && Placed(callee, x.value) in history
    {
      PickedMembers(PlacedAt(callee), history, x);
      if x.Some? && Placed(callee, x.value) in history { assert PlacedAt(callee)(Placed(callee, x.value)) == Some(x); }
    }
    SettlesOnAll(placed, place);
    if PlacedOnce(history, callee, place) {
      forall x | x in placed
        ensures x == Some(place)
      {
        assert Placed(callee, x.value) in history;
      }
    }
    if forall x :: x in placed ==> x == Some(place) {
      forall e | e in history && e.Placed? && e.callee == callee
        ensures e.place == place
      {
        assert Some(e.place) in placed;
      }
    }
  }

  lemma ArgSettles(history: History, callee: string, position: nat, place: Place)
    ensures Settles(ArgSaid(history, callee, position)) == Some(place) <==>
            ArgPlacedOnce(history, callee, position, place)
  {
    var placed := Picked(PlacedAtArg(callee, position), history);
    forall x
      ensures x in placed <==> x.Some? && PlacedArg(callee, position, x.value) in history
    {
      PickedMembers(PlacedAtArg(callee, position), history, x);
      if x.Some? && PlacedArg(callee, position, x.value) in history {
        assert PlacedAtArg(callee, position)(PlacedArg(callee, position, x.value)) == Some(x);
      }
    }
    SettlesOnAll(placed, place);
    if ArgPlacedOnce(history, callee, position, place) {
      forall x | x in placed
        ensures x == Some(place)
      {
        assert PlacedArg(callee, position, x.value) in history;
      }
    }
    if forall x :: x in placed ==> x == Some(place) {
      forall e | e in history && e.PlacedArg? && e.callee == callee && e.position == position
        ensures e.place == place
      {
        assert Some(e.place) in placed;
      }
    }
  }

  lemma SaidAtAll(history: History, callee: string)
    ensures PlaceSaid(history, callee).Some? <==> IsPlaced(history, callee)
    ensures StopSaid(history, callee).Some? <==> IsStopped(history, callee)
  {
    var placed, calls := Picked(PlacedAt(callee), history), Picked(StoppedAt(callee), history);
    JoinSettles(KeyOf, placed);
    StopsAreSome(history, callee);
    if placed != [] {
      PickedMembers(PlacedAt(callee), history, placed[0]);
      assert placed[0] in placed;
    }
    if calls != [] {
      PickedMembers(StoppedAt(callee), history, calls[0]);
      assert calls[0] in calls;
    }
    if e :| e in history && e.Placed? && e.callee == callee {
      PickedMembers(PlacedAt(callee), history, Some(e.place));
      assert PlacedAt(callee)(e) == Some(Some(e.place));
    }
    if e :| e in history && e.Stopped? && e.callee == callee {
      PickedMembers(StoppedAt(callee), history, Some(e.call));
      assert StoppedAt(callee)(e) == Some(Some(e.call));
    }
  }

  /** A stop, or a placement at one declaration, takes its text out of the possible targets. */
  lemma StopHidesPossible(history: History, callee: string)
    ensures PossibleOf(history, callee).Some? ==> !IsStopped(history, callee) && !IsPlaced(history, callee)
    ensures IsStopped(history, callee) ==>
            TargetOf(history, callee) == StopSaid(history, callee) && TargetOf(history, callee).Some?
  {
    SaidAtAll(history, callee);
  }

  // ----------------------------------------------------- which of several is kept

  /** What the first event that says anything says comes first. */
  lemma {:induction false} PickedFirst<T>(pick: Event -> Option<Option<T>>, history: History, i: nat)
    requires i < |history| && pick(history[i]).Some? && forall j :: 0 <= j < i ==> pick(history[j]).None?
    ensures Picked(pick, history) != [] && Picked(pick, history)[0] == pick(history[i]).value
    decreases |history|
  {
    var n := |history| - 1;
    if i < n {
      PickedFirst(pick, history[..n], i);
    } else {
      NothingPicked(pick, history[..n]);
    }
  }

  lemma {:induction false} NothingPicked<T>(pick: Event -> Option<Option<T>>, history: History)
    requires forall j :: 0 <= j < |history| ==> pick(history[j]).None?
    ensures Picked(pick, history) == []
  {
    if history != [] { NothingPicked(pick, history[..|history| - 1]); }
  }

  /** A text that was stopped has its first stop as its target. */
  lemma StopIsFirst(history: History, i: nat)
    requires i < |history| && history[i].Stopped?
    requires forall j :: 0 <= j < i ==> !(history[j].Stopped? && history[j].callee == history[i].callee)
    ensures TargetOf(history, history[i].callee) == Some(history[i].call)
  {
    PickedFirst(StoppedAt(history[i].callee), history, i);
  }

  /** A text that was not stopped has a target exactly when it was placed there, and nowhere else. */
  lemma TargetSettles(history: History, callee: string, place: Place)
    requires !IsStopped(history, callee)
    ensures TargetOf(history, callee) == Some(place) <==> PlacedOnce(history, callee, place)
  {
    SaidAtAll(history, callee);
    PlaceSettles(history, callee, place);
  }

  /** The possible targets of a text are the places of the first set it was placed at, by declaration. */
  lemma PossibleIsFirst(history: History, i: nat)
    requires i < |history| && history[i].PlacedPossible?
    requires forall j :: 0 <= j < i ==> !(history[j].PlacedPossible? && history[j].callee == history[i].callee)
    requires PossibleOf(history, history[i].callee).Some?
    ensures var found := PossibleOf(history, history[i].callee).value;
            && multiset(found) == multiset(history[i].places)
            && Ascending(Declarations(found))
            && forall key :: Having(DeclarationOf, found, key) == Having(DeclarationOf, history[i].places, key)
  {
    var callee := history[i].callee;
    PickedFirst(PossibleAt(callee), history, i);
    JoinSettles(Declarations, Picked(PossibleAt(callee), history));
    SortedSet(history[i].places);
  }

  /** The receiver a text settles on is that of the first call written so. */
  lemma ReceiverIsFirst(history: History, i: nat)
    requires i < |history| && history[i].PlacedReceiver?
    requires forall j :: 0 <= j < i ==> !(history[j].PlacedReceiver? && history[j].callee == history[i].callee)
    requires Settles(ReceiverSaid(history, history[i].callee)).Some?
    ensures Settles(ReceiverSaid(history, history[i].callee)) == history[i].receiver
  {
    PickedFirst(ReceiverAt(history[i].callee), history, i);
    JoinSettles(ReceiverKeyOf, Picked(ReceiverAt(history[i].callee), history));
  }

  /** Which sets a text was placed at: every one of them lists the same declarations as often. */
  predicate OneSet(history: History, callee: string) {
    && (exists e :: e in history && e.PlacedPossible? && e.callee == callee)
    && forall e, e' ::
         e in history && e' in history && e.PlacedPossible? && e'.PlacedPossible? &&
         e.callee == callee && e'.callee == callee ==>
           multiset(Declarations(e.places)) == multiset(Declarations(e'.places))
  }

  lemma SetIsPlaced(history: History, callee: string, places: seq<Place>)
    requires PlacedPossible(callee, places) in history
    ensures Some(Sorted(places)) in Picked(PossibleAt(callee), history)
  {
    PickedMembers(PossibleAt(callee), history, Some(Sorted(places)));
    assert PossibleAt(callee)(PlacedPossible(callee, places)) == Some(Some(Sorted(places)));
  }

  lemma PlacedIsSet(history: History, callee: string, x: Option<seq<Place>>) returns (places: seq<Place>)
    requires x in Picked(PossibleAt(callee), history)
    ensures PlacedPossible(callee, places) in history && x == Some(Sorted(places))
  {
    PickedMembers(PossibleAt(callee), history, x);
    var e :| e in history && PossibleAt(callee)(e) == Some(x);
    places := e.places;
  }

  lemma AgreedIsOneSet(history: History, callee: string)
    requires Agree(Declarations, Picked(PossibleAt(callee), history))
    ensures OneSet(history, callee)
  {
    var placed := Picked(PossibleAt(callee), history);
    assert placed[0] in placed;
    var some := PlacedIsSet(history, callee, placed[0]);
    forall e, e' | e in history && e' in history && e.PlacedPossible? && e'.PlacedPossible? && e.callee == callee &&
      e'.callee == callee
      ensures multiset(Declarations(e.places)) == multiset(Declarations(e'.places))
    {
      SetIsPlaced(history, callee, e.places);
      SetIsPlaced(history, callee, e'.places);
      SameSets(e.places, e'.places);
    }
  }

  lemma OneSetIsAgreed(history: History, callee: string)
    requires OneSet(history, callee)
    ensures Agree(Declarations, Picked(PossibleAt(callee), history))
  {
    var placed := Picked(PossibleAt(callee), history);
    var e :| e in history && e.PlacedPossible? && e.callee == callee;
    SetIsPlaced(history, callee, e.places);
    forall i | 0 <= i < |placed|
      ensures placed[i].Some? && Declarations(placed[i].value) == Declarations(Sorted(e.places))
    {
      var places := PlacedIsSet(history, callee, placed[i]);
      SameSets(places, e.places);
      assert PlacedPossible(callee, places) in history;
    }
  }

  /** A text has possible targets exactly when every set it was placed at is one, and it was neither placed nor
      stopped. */
  lemma PossibleSettles(history: History, callee: string)
    ensures PossibleOf(history, callee).Some? <==>
            OneSet(history, callee) && !IsPlaced(history, callee) && !IsStopped(history, callee)
  {
    SaidAtAll(history, callee);
    var placed := Picked(PossibleAt(callee), history);
    JoinSettles(Declarations, placed);
    if Agree(Declarations, placed) { AgreedIsOneSet(history, callee); }
    if OneSet(history, callee) { OneSetIsAgreed(history, callee); }
  }

  /** Two walks that record the same events, in any order and however often, settle the same texts and positions
      alike. */
  lemma OrderDoesNotMatter(history: History, other: History, callee: string, position: nat)
    requires forall e :: e in history <==> e in other
    ensures Settles(PlaceSaid(history, callee)) == Settles(PlaceSaid(other, callee))
    ensures Settles(ArgSaid(history, callee, position)) == Settles(ArgSaid(other, callee, position))
    ensures TargetOf(history, callee).Some? <==> TargetOf(other, callee).Some?
    ensures !IsStopped(history, callee) ==> TargetOf(history, callee) == TargetOf(other, callee)
    ensures PossibleOf(history, callee).Some? <==> PossibleOf(other, callee).Some?
    ensures SameReceiverSaid(Settles(ReceiverSaid(history, callee)), Settles(ReceiverSaid(other, callee)))
  {
    ReceiversAlike(history, other, callee);
    forall place: Place
      ensures Settles(PlaceSaid(history, callee)) == Some(place) <==> Settles(PlaceSaid(other, callee)) == Some(place)
      ensures Settles(ArgSaid(history, callee, position)) == Some(place) <==>
              Settles(ArgSaid(other, callee, position)) == Some(place)
    {
      PlaceSettles(history, callee, place);
      PlaceSettles(other, callee, place);
      ArgSettles(history, callee, position, place);
      ArgSettles(other, callee, position, place);
    }
    SaidAtAll(history, callee);
    SaidAtAll(other, callee);
    PossibleSettles(history, callee);
    PossibleSettles(other, callee);
  }

  /** Both settle on a receiver with the same key, or neither does. */
  predicate SameReceiverSaid(a: Option<ReceiverOf>, b: Option<ReceiverOf>) {
    a.Some? == b.Some? && (a.Some? ==> ReceiverKeyOf(a.value) == ReceiverKeyOf(b.value))
  }

  lemma ReceiversAlike(history: History, other: History, callee: string)
    requires forall e :: e in history <==> e in other
    ensures SameReceiverSaid(Settles(ReceiverSaid(history, callee)), Settles(ReceiverSaid(other, callee)))
  {
    ReceiverSettles(history, callee);
    ReceiverSettles(other, callee);
    assert OneReceiver(history, callee) <==> OneReceiver(other, callee);
    if OneReceiver(history, callee) {
      SettledReceiverIsPlaced(history, callee);
      SettledReceiverIsPlaced(other, callee);
    }
  }

  lemma SettledReceiverIsPlaced(history: History, callee: string)
    requires Settles(ReceiverSaid(history, callee)).Some?
    ensures PlacedReceiver(callee, Settles(ReceiverSaid(history, callee))) in history
  {
    var placed := Picked(ReceiverAt(callee), history);
    JoinSettles(ReceiverKeyOf, placed);
    PickedMembers(ReceiverAt(callee), history, placed[0]);
    assert placed[0] in placed;
  }

  /** Every call under the text is on this receiver. */
  predicate ReceiverPlacedOnce(history: History, callee: string, receiver: ReceiverOf) {
    && PlacedReceiver(callee, Some(receiver)) in history
    && forall e :: e in history && e.PlacedReceiver? && e.callee == callee ==> e.receiver == Some(receiver)
  }

  predicate PlainReceivers(history: History, callee: string) {
    forall e :: e in history && e.PlacedReceiver? && e.callee == callee && e.receiver.Some? ==>
      PlainTexts(e.receiver.value.made)
  }

  /** Where the constructions are plain texts, which is when each receiver is told from every plain one, a text settles
      on a receiver exactly when every call is on that one. */
  lemma PlainReceiverSettles(history: History, callee: string, receiver: ReceiverOf)
    requires PlainReceivers(history, callee)
    ensures Settles(ReceiverSaid(history, callee)) == Some(receiver) <==> ReceiverPlacedOnce(history, callee, receiver)
  {
    ReceiverSettles(history, callee);
    if Settles(ReceiverSaid(history, callee)).Some? {
      SettledReceiverIsPlaced(history, callee);
      var settled := Settles(ReceiverSaid(history, callee)).value;
      forall e | e in history && e.PlacedReceiver? && e.callee == callee
        ensures e.receiver == Some(settled)
      {
        ReceiverKeyIsFaithful(e.receiver.value, settled);
      }
    }
  }

  /** Every call under the text is on a receiver that is known, and all their keys are the same. */
  predicate OneReceiver(history: History, callee: string) {
    && (exists e :: e in history && e.PlacedReceiver? && e.callee == callee)
    && forall e, e' ::
         e in history && e' in history && e.PlacedReceiver? && e'.PlacedReceiver? &&
         e.callee == callee && e'.callee == callee ==>
           e.receiver.Some? && e'.receiver.Some? && ReceiverKeyOf(e.receiver.value) == ReceiverKeyOf(e'.receiver.value)
  }

  /** A text settles on a receiver exactly when `OneReceiver` holds of its history. */
  lemma ReceiverSettles(history: History, callee: string)
    ensures Settles(ReceiverSaid(history, callee)).Some? <==> OneReceiver(history, callee)
  {
    var placed := Picked(ReceiverAt(callee), history);
    JoinSettles(ReceiverKeyOf, placed);
    forall x
      ensures x in placed <==> PlacedReceiver(callee, x) in history
    {
      PickedMembers(ReceiverAt(callee), history, x);
      if PlacedReceiver(callee, x) in history { assert ReceiverAt(callee)(PlacedReceiver(callee, x)) == Some(x); }
    }
    if Agree(ReceiverKeyOf, placed) { AgreedIsOneReceiver(history, callee, placed); }
    if OneReceiver(history, callee) { OneReceiverIsAgreed(history, callee, placed); }
  }

  lemma AgreedIsOneReceiver(history: History, callee: string, placed: seq<Option<ReceiverOf>>)
    requires forall x :: x in placed <==> PlacedReceiver(callee, x) in history
    requires Agree(ReceiverKeyOf, placed)
    ensures OneReceiver(history, callee)
  {
    assert placed[0] in placed;
    assert PlacedReceiver(callee, placed[0]) in history;
    forall e | e in history && e.PlacedReceiver? && e.callee == callee
      ensures e.receiver.Some? && ReceiverKeyOf(e.receiver.value) == ReceiverKeyOf(placed[0].value)
    {
      assert e == PlacedReceiver(callee, e.receiver);
      assert e.receiver in placed;
    }
  }

  lemma OneReceiverIsAgreed(history: History, callee: string, placed: seq<Option<ReceiverOf>>)
    requires forall x :: x in placed <==> PlacedReceiver(callee, x) in history
    requires OneReceiver(history, callee)
    ensures Agree(ReceiverKeyOf, placed)
  {
    var e :| e in history && e.PlacedReceiver? && e.callee == callee;
    assert e == PlacedReceiver(callee, e.receiver) && e.receiver in placed;
    forall i | 0 <= i < |placed|
      ensures placed[i].Some? && ReceiverKeyOf(placed[i].value) == ReceiverKeyOf(e.receiver.value)
    {
      assert placed[i] in placed;
      assert PlacedReceiver(callee, placed[i]) in history;
    }
  }
}
